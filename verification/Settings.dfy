/** The settings cache: per-thread memos of converted values, guarded by a generation counter. */
module Settings {
  import opened Bits
  import opened Wrappers

  datatype Variant = Boolean(b: bool) | Number(x: real) | Text(s: string)

  function Lookup(store: map<string, Variant>, key: string): Option<Variant>
  {
    if key in store then Some(store[key]) else None
  }

  // ---- one thread ----

  /**
   * The settings as one thread sees them, asked for values of type T. The ghost fields count
   * the generations without wrapping around: how many there were, and at which one each memo
   * was made.
   */
  class Reader<T> {
    var settingsMap: map<string, Variant>
    var generation: nat
    var cache: map<string, (nat, T)>
    const convert: Variant -> T
    const fallback: T
    ghost var bumps: nat
    ghost var madeAt: map<string, nat>

    constructor (convert: Variant -> T, fallback: T)
      ensures Valid() && settingsMap == map[] && cache == map[] && bumps == 0
      ensures this.convert == convert && this.fallback == fallback
    {
      this.convert, this.fallback := convert, fallback;
      settingsMap, generation, cache := map[], 0, map[];
      bumps, madeAt := 0, map[];
    }

    /** A memo made at this very generation holds what a lookup would give. */
    ghost predicate Valid()
      reads this
    {
      && generation == bumps % TWO64
      && madeAt.Keys == cache.Keys
      && forall key :: key in cache ==>
           && madeAt[key] <= bumps
           && cache[key].0 == madeAt[key] % TWO64
           && (madeAt[key] == bumps ==> cache[key].1 == GetUncached(key))
    }

    /** The memo of a key, if there is one, is fewer than 2^64 generations old. */
    ghost predicate Recent(key: string)
      reads this
    {
      key in madeAt ==> bumps < madeAt[key] + TWO64
    }

    function GetUncached(key: string): (value: T)
      reads this
      ensures value == if key in settingsMap then convert(settingsMap[key]) else fallback
    {
      match Lookup(settingsMap, key)
      case Some(v) => convert(v)
      case None => fallback
    }

    method Get(key: string) returns (value: T)
      requires Valid()
      modifies this`cache, this`madeAt
      ensures Valid()
      ensures old(Recent(key)) ==> value == GetUncached(key)
      ensures cache == old(cache)[key := (generation, value)]
      ensures forall k :: old(Recent(k)) ==> Recent(k)
    {
      if key in cache && cache[key].0 == generation {
        value := cache[key].1;
        if Recent(key) {
          SameGeneration(madeAt[key], bumps);
        }
      } else {
        value := GetUncached(key);
        cache := cache[key := (generation, value)];
        madeAt := madeAt[key := bumps];
      }
    }

    method Set(key: string, value: Variant)
      requires Valid()
      modifies this`settingsMap, this`generation, this`bumps
      ensures Valid()
      ensures settingsMap == old(settingsMap)[key := value]
      ensures generation == (old(generation) + 1) % TWO64 && bumps == old(bumps) + 1
      ensures GetUncached(key) == convert(value)
    {
      settingsMap := settingsMap[key := value];
      generation := (generation + 1) % TWO64;
      bumps := bumps + 1;
    }
  }

  lemma SameGeneration(m: nat, n: nat)
    requires m <= n < m + TWO64 && m % TWO64 == n % TWO64
    ensures m == n
  {
  }
}
