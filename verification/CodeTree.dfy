/** The prefix code behind the packet compressor: what a code table means.

    A decoding table is a binary tree whose leaves carry a byte; a code is the path from
    the root to a leaf.  `BitWalk` is the decoder the packet format is defined by, one
    tree step per input bit. */
module CodeTree {
  import opened Bits
  import opened Wrappers
  import opened Sequences

  datatype Tree = Leaf(symbol: byte) | Node(zero: Tree, one: Tree)

  function Child(t: Tree, b: bool): Tree
    requires t.Node?
  {
    if b then t.one else t.zero
  }

  function Height(t: Tree): nat {
    match t
    case Leaf(_) => 0
    case Node(l, r) => 1 + if Height(l) < Height(r) then Height(r) else Height(l)
  }

  /** The first leaf met below `t` along `bits`, and how many bits lead to it. */
  function Walk(t: Tree, bits: seq<bool>): (r: Option<(byte, nat)>)
    requires t.Node?
    ensures r.Some? ==> 1 <= r.value.1 <= |bits| && r.value.1 <= Height(t)
    decreases bits
  {
    if bits == [] then None
    else
      var c := Child(t, bits[0]);
      if c.Leaf? then Some((c.symbol, 1))
      else Later(Walk(c, bits[1..]), 1)
  }

  function Later(r: Option<(byte, nat)>, k: nat): Option<(byte, nat)> {
    match r
    case None => None
    case Some((s, n)) => Some((s, n + k))
  }

  /** One step of a walk that has come to bit `k`. */
  lemma WalkStep(t: Tree, bits: seq<bool>, k: nat)
    requires t.Node? && k < |bits|
    ensures Walk(t, bits[k..]) ==
            var c := Child(t, bits[k]);
            if c.Leaf? then Some((c.symbol, 1)) else Later(Walk(c, bits[k + 1..]), 1)
  {
    assert bits[k..][1..] == bits[k + 1..];
  }

  /** A walk from `start` that has come down to `cur` at `pos` and will reach a leaf. */
  ghost predicate OnPath(root: Tree, cur: Tree, bits: seq<bool>, start: nat, pos: nat)
    requires root.Node? && cur.Node?
  {
    && start <= pos <= |bits|
    && Walk(cur, bits[pos..]).Some?
    && Walk(root, bits[start..]) == Later(Walk(cur, bits[pos..]), pos - start)
  }

  lemma PathStep(root: Tree, cur: Tree, bits: seq<bool>, start: nat, pos: nat)
    requires root.Node? && cur.Node? && OnPath(root, cur, bits, start, pos)
    ensures pos < |bits|
    ensures var c := Child(cur, bits[pos]);
            if c.Leaf? then Walk(root, bits[start..]) == Some((c.symbol, pos + 1 - start))
            else OnPath(root, c, bits, start, pos + 1)
  {
    WalkStep(cur, bits, pos);
  }

  /** The reference decoder: one step down the tree per bit, back to the root at every
      leaf, until the bits or the room for symbols run out. */
  function BitWalk(root: Tree, cur: Tree, bits: seq<bool>, room: nat): seq<byte>
    requires root.Node? && cur.Node?
    decreases bits
  {
    if bits == [] || room == 0 then []
    else
      var c := Child(cur, bits[0]);
      if c.Leaf? then [c.symbol] + BitWalk(root, root, bits[1..], room - 1)
      else BitWalk(root, c, bits[1..], room)
  }

  /** The bits left over after the last complete code, while there is room for a symbol. */
  function Pending(root: Tree, bits: seq<bool>, room: nat): (p: seq<bool>)
    requires root.Node?
    ensures |p| <= |bits|
    decreases room
  {
    if room == 0 then []
    else
      match Walk(root, bits)
      case None => bits
      case Some((_, n)) => Pending(root, bits[n..], room - 1)
  }

  lemma {:induction false} WalkEnough(t: Tree, bits: seq<bool>)
    requires t.Node? && |bits| >= Height(t)
    ensures Walk(t, bits).Some?
    decreases t
  {
    var c := Child(t, bits[0]);
    if c.Node? {
      WalkEnough(c, bits[1..]);
    }
  }

  /** A walk looks at no bit past the leaf it reaches. */
  lemma {:induction false} WalkPrefix(t: Tree, a: seq<bool>, b: seq<bool>)
    requires t.Node? && Walk(t, a).Some?
    requires Walk(t, a).value.1 <= |b| && a[..Walk(t, a).value.1] == b[..Walk(t, a).value.1]
    ensures Walk(t, b) == Walk(t, a)
    decreases t
  {
    var n := Walk(t, a).value.1;
    assert a[0] == a[..n][0] == b[..n][0] == b[0];
    var c := Child(t, a[0]);
    if c.Node? {
      assert a[1..][..n - 1] == a[..n][1..];
      assert b[1..][..n - 1] == b[..n][1..];
      WalkPrefix(c, a[1..], b[1..]);
    }
  }

  /** A shorter look at the same bits reaches the same leaf or none. */
  lemma WalkShort(t: Tree, a: seq<bool>, b: seq<bool>)
    requires t.Node? && a <= b
    ensures Walk(t, a).Some? ==> Walk(t, b) == Walk(t, a)
    ensures Walk(t, b).Some? ==> (Walk(t, a).Some? <==> Walk(t, b).value.1 <= |a|)
  {
    if Walk(t, a).Some? {
      WalkPrefix(t, a, b);
    } else if Walk(t, b).Some? && Walk(t, b).value.1 <= |a| {
      WalkPrefix(t, b, a);
    }
  }

  /** The reference decoder consumes one whole code at a time. */
  lemma {:induction false} BitWalkCode(root: Tree, cur: Tree, bits: seq<bool>, room: nat)
    requires root.Node? && cur.Node? && room > 0
    ensures match Walk(cur, bits)
            case None => BitWalk(root, cur, bits, room) == []
            case Some((s, n)) =>
              BitWalk(root, cur, bits, room) == [s] + BitWalk(root, root, bits[n..], room - 1)
    decreases bits
  {
    if bits != [] {
      var c := Child(cur, bits[0]);
      if c.Node? {
        BitWalkCode(root, c, bits[1..], room);
        match Walk(c, bits[1..]) {
          case None =>
          case Some((_, n)) => assert bits[1..][n..] == bits[n + 1..];
        }
      }
    }
  }

  // ---- the decode table ----

  datatype DecodeEntry = DecodeEntry(symbol: byte, length: byte)

  /** What the table must hold for the eight bits of `b`: a code of at most eight bits,
      or length zero when no leaf is that near. */
  function TableEntry(root: Tree, b: nat): DecodeEntry
    requires root.Node?
  {
    match Walk(root, Lsb(b, 8))
    case None => DecodeEntry(0, 0)
    case Some((s, n)) => DecodeEntry(s, n)
  }

  // ---- the encoder's code table ----

  /** A byte read as `int8`. */
  function ToInt8(b: byte): (r: int)
    ensures -128 <= r < 128 && (r - b) % 256 == 0
  {
    if b < 128 then b else b - 256
  }

  /** The table must have an entry for every byte, of 1 to 32 bits. */
  predicate EncTable(enc: seq<u32>) {
    |enc| >= 0x200 && forall b: byte :: 1 <= enc[ToInt8(b) + 0x180] <= 32
  }

  function CodeLength(enc: seq<u32>, b: byte): (n: nat)
    requires EncTable(enc)
    ensures 1 <= n <= 32
  {
    enc[ToInt8(b) + 0x180]
  }

  function CodeOf(enc: seq<u32>, b: byte): (c: seq<bool>)
    requires EncTable(enc)
    ensures |c| == CodeLength(enc, b)
  {
    Lsb(enc[ToInt8(b) + 0x80], CodeLength(enc, b))
  }

  /** The entries of a byte: its length in the table's second half, its code in the first, each half centred on zero. */
  lemma EntryOfByte(enc: seq<u32>, b: byte)
    requires EncTable(enc)
    ensures CodeLength(enc, b) == enc[if b < 0x80 then 0x180 + b else 0x80 + b]
    ensures CodeOf(enc, b) == Lsb(enc[if b < 0x80 then 0x80 + b else b - 0x80], CodeLength(enc, b))
  {
  }

  function CodeBits(enc: seq<u32>, s: seq<byte>): seq<bool>
    requires EncTable(enc)
  {
    if s == [] then [] else CodeBits(enc, s[..|s| - 1]) + CodeOf(enc, s[|s| - 1])
  }

  /** Encoder and decoder agree: every byte's code leads from the root to its own leaf. */
  ghost predicate CodesMatch(enc: seq<u32>, root: Tree) {
    && EncTable(enc)
    && root.Node?
    && forall b: byte :: Walk(root, CodeOf(enc, b)) == Some((b, CodeLength(enc, b)))
  }

  lemma CodeBitsOne(enc: seq<u32>, s: seq<byte>, b: byte)
    requires EncTable(enc)
    ensures CodeBits(enc, s + [b]) == CodeBits(enc, s) + CodeOf(enc, b)
  {
    assert (s + [b])[..|s|] == s;
  }

  lemma {:induction false} CodeBitsAppend(enc: seq<u32>, s: seq<byte>, t: seq<byte>)
    requires EncTable(enc)
    ensures CodeBits(enc, s + t) == CodeBits(enc, s) + CodeBits(enc, t)
    decreases t
  {
    if t == [] {
      assert s + t == s;
    } else {
      var k := |t| - 1;
      CodeBitsAppend(enc, s, t[..k]);
      CodeBitsOne(enc, s + t[..k], t[k]);
      CodeBitsOne(enc, t[..k], t[k]);
      assert s + t == s + t[..k] + [t[k]] && t == t[..k] + [t[k]];
      AppendAssoc(CodeBits(enc, s), CodeBits(enc, t[..k]), CodeOf(enc, t[k]));
    }
  }

  lemma {:induction false} CodeBitsMono(enc: seq<u32>, s: seq<byte>, k: nat)
    requires EncTable(enc) && k <= |s|
    ensures CodeBits(enc, s[..k]) <= CodeBits(enc, s)
    ensures k < |s| ==> |CodeBits(enc, s[..k])| + CodeLength(enc, s[k]) <= |CodeBits(enc, s)|
  {
    assert s[..k] + s[k..] == s;
    CodeBitsAppend(enc, s[..k], s[k..]);
    if k < |s| {
      var t := s[..k + 1];
      assert t[..|t| - 1] == s[..k] && t[|t| - 1] == s[k];
      assert t + s[k + 1..] == s;
      CodeBitsAppend(enc, t, s[k + 1..]);
    }
  }

  lemma NextCode(enc: seq<u32>, s: seq<byte>, k: nat)
    requires EncTable(enc) && k < |s|
    ensures CodeBits(enc, s[..k + 1]) == CodeBits(enc, s[..k]) + CodeOf(enc, s[k])
    ensures |CodeBits(enc, s[..k + 1])| <= |CodeBits(enc, s)|
  {
    var t := s[..k + 1];
    assert t[..|t| - 1] == s[..k] && t[|t| - 1] == s[k];
    CodeBitsMono(enc, s, k);
  }

  lemma FirstCode(enc: seq<u32>, s: seq<byte>)
    requires EncTable(enc) && s != []
    ensures CodeBits(enc, s) == CodeOf(enc, s[0]) + CodeBits(enc, s[1..])
  {
    assert s == [s[0]] + s[1..];
    CodeBitsAppend(enc, [s[0]], s[1..]);
    assert [s[0]][..0] == [];
    assert CodeBits(enc, [s[0]]) == CodeOf(enc, s[0]);
  }

  /** A byte's code in front of other bits is the first code decoded. */
  lemma WalkCode(enc: seq<u32>, root: Tree, b: byte, rest: seq<bool>)
    requires CodesMatch(enc, root)
    ensures Walk(root, CodeOf(enc, b) + rest) == Some((b, CodeLength(enc, b)))
    ensures (CodeOf(enc, b) + rest)[CodeLength(enc, b)..] == rest
  {
    WalkShort(root, CodeOf(enc, b), CodeOf(enc, b) + rest);
  }

  lemma DecodeFirst(enc: seq<u32>, root: Tree, s: seq<byte>, room: nat)
    requires CodesMatch(enc, root) && s != [] && room > 0
    ensures BitWalk(root, root, CodeBits(enc, s), room) ==
            [s[0]] + BitWalk(root, root, CodeBits(enc, s[1..]), room - 1)
    ensures Pending(root, CodeBits(enc, s), room) == Pending(root, CodeBits(enc, s[1..]), room - 1)
  {
    FirstCode(enc, s);
    WalkCode(enc, root, s[0], CodeBits(enc, s[1..]));
    BitWalkCode(root, root, CodeBits(enc, s), room);
  }

  function Within(s: seq<byte>, room: nat): seq<byte> {
    if room < |s| then s[..room] else s
  }

  lemma WithinCons(s: seq<byte>, room: nat)
    requires s != [] && room > 0
    ensures Within(s, room) == [s[0]] + Within(s[1..], room - 1)
  {
    assert s == [s[0]] + s[1..];
  }

  /** Decoding the concatenated codes gives the bytes back, cut to the room there is, and
      nothing is left pending. */
  lemma {:induction false} DecodeCodes(enc: seq<u32>, root: Tree, s: seq<byte>, room: nat)
    requires CodesMatch(enc, root)
    ensures BitWalk(root, root, CodeBits(enc, s), room) == Within(s, room)
    ensures room >= |s| ==> Pending(root, CodeBits(enc, s), room) == []
    decreases |s|
  {
    if s == [] {
      assert Walk(root, CodeBits(enc, s)) == None;
    } else if room > 0 {
      DecodeFirst(enc, root, s, room);
      DecodeCodes(enc, root, s[1..], room - 1);
      WithinCons(s, room);
    }
  }
}
