/** The fixed-capacity ring buffer behind the log backtrace. */
module CircularBuffers {
  import opened Bits
  import opened Remainders
  import opened Wrappers

  // ---- powers of two and the index mask ----

  ghost predicate IsPowerOfTwo(x: nat) {
    exists n: nat :: x == Pow2(n)
  }

  lemma {:induction false} AndSelf(x: nat)
    ensures And(x, x) == x
  {
    if x > 0 {
      AndSelf(x / 2);
    }
  }

  lemma {:induction false} LowOfPow2(n: nat)
    ensures Low(Pow2(n), n) == 0
  {
    if n > 0 {
      LowOfPow2(n - 1);
    }
  }

  lemma {:induction false} PowerOfTwoHas(x: nat) returns (n: nat)
    requires x > 0 && And(x, x - 1) == 0
    ensures x == Pow2(n)
    decreases x
  {
    if x % 2 == 1 {
      assert (x - 1) / 2 == x / 2;
      AndSelf(x / 2);
      n := 0;
    } else {
      assert (x - 1) / 2 == x / 2 - 1;
      n := PowerOfTwoHas(x / 2);
      n := n + 1;
    }
  }

  /** The constructor's test: clearing the lowest set bit leaves nothing. */
  lemma PowerOfTwoTest(x: nat)
    requires x > 0
    ensures And(x, x - 1) == 0 <==> IsPowerOfTwo(x)
  {
    if And(x, x - 1) == 0 {
      var n := PowerOfTwoHas(x);
    }
    if IsPowerOfTwo(x) {
      var n: nat :| x == Pow2(n);
      AndMask(x, n);
      LowOfPow2(n);
    }
  }

  /** Masking the next index wraps it around. */
  lemma MaskWraps(index: nat, size: nat)
    requires IsPowerOfTwo(size) && index < size
    ensures And(index + 1, size - 1) == if index + 1 == size then 0 else index + 1
  {
    var n: nat :| size == Pow2(n);
    AndMask(index + 1, n);
    if index + 1 == size {
      LowOfPow2(n);
    } else {
      LowSmall(index + 1, n);
    }
  }

  /** The mask is the modulo it stands for, for every index. */
  lemma {:induction false} MaskIsModulo(x: nat, size: nat)
    requires IsPowerOfTwo(size)
    ensures And(x, size - 1) == x % size
  {
    var n: nat :| size == Pow2(n);
    AndMask(x, n);
    LowIsModulo(x, n);
  }

  lemma {:induction false} LowIsModulo(x: nat, n: nat)
    ensures Low(x, n) == x % Pow2(n)
    decreases n
  {
    if n > 0 {
      LowIsModulo(x / 2, n - 1);
      ModuloStep(x, Pow2(n - 1));
    }
  }

  lemma ModuloStep(x: nat, m: nat)
    requires m > 0
    ensures x % (2 * m) == x % 2 + 2 * ((x / 2) % m)
  {
    var q, r := x / 2 / m, x / 2 % m;
    assert x / 2 == m * q + r;
    assert x == 2 * m * q + (x % 2 + 2 * r);
    RemainderIs(x, 2 * m, q, x % 2 + 2 * r);
  }

  // ---- the buffer ----

  /** What a ring holds, from the oldest to the newest. */
  ghost function Held<T>(ring: seq<T>, head: nat, tail: nat, full: bool): seq<T>
    requires head <= |ring| && tail <= |ring|
  {
    if full || tail < head then ring[head..] + ring[..tail] else ring[head..tail]
  }

  ghost predicate InRing(size: nat, head: nat, tail: nat, full: bool) {
    head < size && tail < size && (full ==> head == tail)
  }

  function Next(index: nat, size: nat): nat
    requires index < size
  {
    if index + 1 == size then 0 else index + 1
  }

  lemma PutHeld<T>(ring: seq<T>, head: nat, tail: nat, full: bool, item: T)
    requires InRing(|ring|, head, tail, full)
    ensures var head' := if full then Next(head, |ring|) else head;
            var tail' := Next(tail, |ring|);
            InRing(|ring|, head', tail', tail' == head') &&
            Held(ring[tail := item], head', tail', tail' == head') == Put(Held(ring, head, tail, full), item, |ring|)
  {
  }

  lemma TakeHeld<T>(ring: seq<T>, head: nat, tail: nat, full: bool, blank: T)
    requires InRing(|ring|, head, tail, full) && (full || head != tail)
    ensures Held(ring, head, tail, full) != [] && Held(ring, head, tail, full)[0] == ring[head]
    ensures Held(ring[head := blank], Next(head, |ring|), tail, false) == Take(Held(ring, head, tail, full))
  {
  }

  class CircularBuffer<T(0)> {
    const buffer: array<T>
    var head: nat
    var tail: nat
    const max_size: nat
    const mask: nat
    var full: bool
    const empty_item: T

    ghost predicate Sized() {
      IsPowerOfTwo(max_size) && mask == max_size - 1 && buffer.Length == max_size
    }

    ghost predicate Valid()
      reads this
    {
      && Sized()
      && InRing(max_size, head, tail, full)
    }

    /** The elements from the oldest to the newest. */
    ghost function Contents(): seq<T>
      requires Valid()
      reads this, buffer
    {
      Held(buffer[..], head, tail, full)
    }

    constructor (max_size: nat, empty_item: T)
      requires IsPowerOfTwo(max_size)
      ensures Valid() && fresh(buffer) && this.max_size == max_size && Contents() == []
    {
      buffer := new T[max_size](_ => empty_item);
      this.max_size := max_size;
      mask := max_size - 1;
      head, tail, full := 0, 0, false;
      this.empty_item := empty_item;
    }

    /** The source's constructor throws for any capacity that is not a power of two. */
    static method Create(max_size: nat, empty_item: T) returns (r: Option<CircularBuffer<T>>)
      ensures r.Some? <==> IsPowerOfTwo(max_size)
      ensures r.Some? ==>
                fresh(r.value) && fresh(r.value.buffer) && r.value.Valid() &&
                r.value.max_size == max_size && r.value.Contents() == []
    {
      if max_size > 0 {
        PowerOfTwoTest(max_size);
      }
      if max_size == 0 || And(max_size, max_size - 1) != 0 {
        return None;
      }
      var b := new CircularBuffer(max_size, empty_item);
      return Some(b);
    }

    method Advance(index: nat) returns (next: nat)
      requires Sized() && index < max_size
      ensures next == Next(index, max_size)
    {
      MaskWraps(index, max_size);
      next := And(index + 1, mask);
    }

    method Enqueue(item: T)
      requires Valid()
      modifies this, buffer
      ensures Valid()
      ensures Contents() == Put(old(Contents()), item, max_size)
    {
      ghost var ring := buffer[..];
      PutHeld(ring, head, tail, full, item);
      buffer[tail] := item;
      assert buffer[..] == ring[tail := item];
      if full {
        head := Advance(head);
      }
      tail := Advance(tail);
      full := tail == head;
    }

    method Dequeue() returns (r: Option<T>)
      requires Valid()
      modifies this, buffer
      ensures Valid()
      ensures r == if old(Contents()) == [] then None else Some(old(Contents())[0])
      ensures Contents() == Take(old(Contents()))
    {
      if !full && head == tail {
        return None;
      }
      ghost var ring := buffer[..];
      TakeHeld(ring, head, tail, full, empty_item);
      var item := buffer[head];
      buffer[head] := empty_item;
      assert buffer[..] == ring[head := empty_item];
      head := Advance(head);
      full := false;
      return Some(item);
    }

    method Front() returns (r: Option<T>)
      requires Valid()
      ensures r == if Contents() == [] then None else Some(Contents()[0])
    {
      if !full && head == tail {
        return None;
      }
      return Some(buffer[head]);
    }

    method Size() returns (n: nat)
      requires Valid()
      ensures n == |Contents()|
    {
      if full {
        return max_size;
      }
      if tail >= head {
        return tail - head;
      }
      return max_size - head + tail;
    }

    method IsEmpty() returns (b: bool)
      requires Valid()
      ensures b <==> Contents() == []
    {
      return !full && head == tail;
    }

    method IsFull() returns (b: bool)
      requires Valid()
      ensures b <==> |Contents()| == max_size
    {
      return full;
    }

    /** Any run of operations on the buffer is the same run on the queue. */
    method Perform(ops: seq<Op<T>>) returns (taken: seq<T>)
      requires Valid()
      modifies this, buffer
      ensures Valid()
      ensures (Contents(), taken) == Run(old(Contents()), ops, max_size)
    {
      taken := [];
      for i := 0 to |ops|
        invariant Valid()
        invariant (Contents(), taken) == Run(old(Contents()), ops[..i], max_size)
      {
        assert ops[..i + 1][..i] == ops[..i];
        match ops[i] {
          case Enq(x) =>
            Enqueue(x);
          case Deq =>
            var r := Dequeue();
            if r.Some? {
              taken := taken + [r.value];
            }
        }
      }
      assert ops[..|ops|] == ops;
    }
  }

  // ---- the queue it stands for ----

  /** Adding to a queue of capacity `n`: the oldest element makes room. */
  function Put<T>(q: seq<T>, x: T, n: nat): seq<T> {
    (if |q| == n && n > 0 then q[1..] else q) + [x]
  }

  function Take<T>(q: seq<T>): seq<T> {
    if q == [] then [] else q[1..]
  }

  datatype Op<T> = Enq(x: T) | Deq

  /** The queue after a run of operations, and what was taken out. */
  function Run<T>(q: seq<T>, ops: seq<Op<T>>, n: nat): (seq<T>, seq<T>) {
    if ops == [] then (q, [])
    else
      var (r, taken) := Run(q, ops[..|ops| - 1], n);
      match ops[|ops| - 1]
      case Enq(x) => (Put(r, x, n), taken)
      case Deq => (Take(r), if r == [] then taken else taken + [r[0]])
  }

  function Added<T>(ops: seq<Op<T>>): seq<T> {
    if ops == [] then []
    else
      match ops[|ops| - 1]
      case Enq(x) => Added(ops[..|ops| - 1]) + [x]
      case Deq => Added(ops[..|ops| - 1])
  }

  ghost predicate Suffix<T>(s: seq<T>, t: seq<T>) {
    |s| <= |t| && s == t[|t| - |s|..]
  }

  /** In every run from the empty buffer: never more than the capacity is held, and what is
      held is the newest part, in order, of what was put in. */
  lemma {:induction false} HoldsNewest<T>(ops: seq<Op<T>>, n: nat)
    requires n > 0
    ensures |Run([], ops, n).0| <= n
    ensures Suffix(Run([], ops, n).0, Added(ops))
    decreases ops
  {
    if ops != [] {
      var init := ops[..|ops| - 1];
      HoldsNewest(init, n);
      var q, added := Run([], init, n).0, Added(init);
      match ops[|ops| - 1] {
        case Enq(x) => SuffixPut(q, added, x, n);
        case Deq => assert Suffix(Take(q), added);
      }
    }
  }

  lemma SuffixPut<T>(q: seq<T>, added: seq<T>, x: T, n: nat)
    requires n > 0 && |q| <= n && Suffix(q, added)
    ensures Suffix(Put(q, x, n), added + [x])
  {
    var kept := if |q| == n then q[1..] else q;
    assert (added + [x])[|added| - |kept|..] == added[|added| - |kept|..] + [x];
  }

  predicate OnlyAdds<T>(ops: seq<Op<T>>) {
    forall k :: 0 <= k < |ops| ==> ops[k].Enq?
  }

  /** Without a dequeue, exactly the last `n` elements put in are there. */
  lemma {:induction false} KeepsLast<T>(ops: seq<Op<T>>, n: nat)
    requires n > 0 && OnlyAdds(ops)
    ensures |Added(ops)| == |ops|
    ensures Run([], ops, n).0 == if |ops| <= n then Added(ops) else Added(ops)[|ops| - n..]
    decreases ops
  {
    if ops != [] {
      KeepsLast(ops[..|ops| - 1], n);
    }
  }
}
