/** The packet compressor: its tables and its two in-place buffer routines. */
module Zlib {
  import opened Bits
  import opened Wrappers
  import opened CodeTree
  import opened Sequences

  /** An entry of the jump table: a pointer into the table, or eight bits of data.  The
      null pointer is the data entry 0. */
  datatype Cell = Data(v: byte) | Ptr(target: nat)

  predicate IsNull(c: Cell) {
    c == Data(0)
  }

  function CellOf(dec: seq<u32>, i: nat): Cell
    requires i < |dec|
  {
    if dec[i] > 0xff then Ptr(((dec[i] - (dec[0] - 4)) % TWO32) / 4) else Data(dec[i])
  }

  /** Slot `n` of the table is the root of a copy of `t`: children at n and n + 1; a leaf
      has both null and keeps its symbol at n + 3. */
  ghost predicate Stores(jump: seq<Cell>, n: nat, t: Tree)
    decreases t
  {
    match t
    case Leaf(symbol) =>
      n + 3 < |jump| && IsNull(jump[n]) && IsNull(jump[n + 1]) && jump[n + 3] == Data(symbol)
    case Node(l, r) =>
      && n + 1 < |jump|
      && jump[n].Ptr? && Stores(jump, jump[n].target, l)
      && jump[n + 1].Ptr? && Stores(jump, jump[n + 1].target, r)
  }

  /** `jump[0]` points at the root, which has children. */
  ghost predicate JumpTable(jump: seq<Cell>, root: Tree) {
    root.Node? && |jump| > 0 && jump[0].Ptr? && Stores(jump, jump[0].target, root)
  }

  /** The word that stands for cell `m`: its address, four bytes a cell, where the first word is the
      address of cell 1. */
  function AddressOf(dec: seq<u32>, m: nat): u32
    requires |dec| > 0
  {
    (dec[0] - 4 + 4 * m) % TWO32
  }

  ghost predicate PointsTo(dec: seq<u32>, n: nat, m: nat)
  {
    n < |dec| && m < |dec| && dec[n] > 0xff && dec[n] == AddressOf(dec, m)
  }

  /** The words of a table file from `n` on are the root of a copy of `t`, laid out as in memory. */
  ghost predicate WordsStore(dec: seq<u32>, n: nat, t: Tree)
    decreases t
  {
    match t
    case Leaf(symbol) =>
      n + 3 < |dec| && dec[n] == 0 && dec[n + 1] == 0 && dec[n + 3] == symbol
    case Node(l, r) =>
      && (exists m: nat :: PointsTo(dec, n, m) && WordsStore(dec, m, l))
      && (exists m: nat :: PointsTo(dec, n + 1, m) && WordsStore(dec, m, r))
  }

  /** A table file that holds a tree: its first word is a pointer, and cell 1 is the root. */
  ghost predicate TableFile(dec: seq<u32>, root: Tree) {
    root.Node? && 0 < |dec| <= 0x4000_0000 && dec[0] > 0xff && WordsStore(dec, 1, root)
  }

  lemma PointerIs(word: u32, m: nat)
    requires m < 0x4000_0000
    ensures ((word - 4 + 4 * m) % TWO32 - (word - 4)) % TWO32 / 4 == m
  {
    var first: int := word as int - 4;
    var q := (first + 4 * m) / TWO32;
    assert (first + 4 * m) % TWO32 - first == 4 * m - q * TWO32;
    assert (4 * m - q * TWO32) % TWO32 == 4 * m;
  }

  /** The table that the words of a file are translated into, one by one. */
  ghost predicate Populated(dec: seq<u32>, jump: seq<Cell>) {
    |jump| == |dec| <= 0x4000_0000 && forall i :: 0 <= i < |dec| ==> jump[i] == CellOf(dec, i)
  }

  lemma PointerStored(dec: seq<u32>, jump: seq<Cell>, n: nat, m: nat)
    requires Populated(dec, jump) && PointsTo(dec, n, m)
    ensures jump[n] == Ptr(m)
  {
    PointerIs(dec[0], m);
  }

  lemma LeafStored(dec: seq<u32>, jump: seq<Cell>, n: nat, t: Tree)
    requires Populated(dec, jump) && t.Leaf? && WordsStore(dec, n, t)
    ensures Stores(jump, n, t)
  {
  }

  /** Translating the words one by one turns the tree of the file into the same tree of the table. */
  lemma {:induction false} StoresPopulated(dec: seq<u32>, jump: seq<Cell>, n: nat, t: Tree)
    requires Populated(dec, jump) && WordsStore(dec, n, t)
    ensures Stores(jump, n, t)
    decreases t
  {
    match t
    case Leaf(_) => LeafStored(dec, jump, n, t);
    case Node(l, r) =>
      var m: nat :| PointsTo(dec, n, m) && WordsStore(dec, m, l);
      PointerStored(dec, jump, n, m);
      StoresPopulated(dec, jump, m, l);
      var k: nat :| PointsTo(dec, n + 1, k) && WordsStore(dec, k, r);
      PointerStored(dec, jump, n + 1, k);
      StoresPopulated(dec, jump, k, r);
  }

  /** So what populating makes of a table file is a jump table for its tree. */
  lemma FileIsJumpTable(dec: seq<u32>, jump: seq<Cell>, root: Tree)
    requires TableFile(dec, root) && Populated(dec, jump)
    ensures JumpTable(jump, root)
  {
    assert PointsTo(dec, 0, 1);
    PointerStored(dec, jump, 0, 1);
    StoresPopulated(dec, jump, 1, root);
  }

  /** One step down the table is one step down the tree. */
  lemma StoresChild(jump: seq<Cell>, n: nat, t: Tree, b: bool)
    requires t.Node? && Stores(jump, n, t)
    ensures n + 1 < |jump| && jump[n + Digit(b)].Ptr?
    ensures var c := jump[n + Digit(b)].target;
            c + 1 < |jump| && Stores(jump, c, Child(t, b)) &&
            if Child(t, b).Leaf? then
              IsNull(jump[c]) && IsNull(jump[c + 1]) &&
              c + 3 < |jump| && jump[c + 3] == Data(Child(t, b).symbol)
            else
              !(IsNull(jump[c]) && IsNull(jump[c + 1]))
  {
  }

  /** (sz + 7) / 8. */
  function CompressedSize(sz: nat): (n: nat)
    ensures sz <= 8 * n < sz + 8
  {
    (sz + 7) / 8
  }

  /** A successful compression: the flag byte, the code bits, zeros up to a whole byte,
      and whatever followed them. */
  ghost predicate Packs(code: seq<bool>, ret: nat, before: seq<byte>, after: seq<byte>) {
    var size := CompressedSize(ret);
    && ret == |code| + 8
    && size <= |after| == |before|
    && after[0] == 1
    && BytesLsb(after[1..size]) == code + Repeated(false, 8 * size - ret)
    && forall k :: size <= k < |after| ==> after[k] == before[k]
  }

  datatype CompressResult =
    | Packed(ret: u32)  // the number of bits written, flag byte included
    | NoRoom            // the source returns -1
    | Garbage           // the source overwrites the output with filler and returns in_sz

  // ---- the bit accumulator ----

  /** The bytes sent and the bits held make up exactly the codes so far. */
  ghost predicate Holds(sent: seq<byte>, acc: u64, accBits: nat, code: seq<bool>) {
    acc < Pow2(accBits) && BytesLsb(sent) + Lsb(acc, accBits) == code
  }

  lemma {:induction false} UpOne(n: nat)
    ensures Up(1, n) == Pow2(n)
  {
    if n > 0 {
      UpOne(n - 1);
    }
  }

  /** The code word: the table's value cut to its length. */
  function CodeWord(v: u32, elem: u32): (code: nat)
    requires 1 <= elem <= 32
    ensures code < Pow2(elem) && Lsb(code, elem) == Lsb(v, elem)
  {
    Pow2Of32();
    if elem >= 32 then v
    else
      ShlExact(1, elem, 1, 32);
      UpOne(elem);
      AndMask(v, elem);
      LowBound(v, elem);
      LsbLow(v, elem, elem);
      And(v, Shl(1, elem, 32) - 1)
  }

  /** The width of the accumulator. */
  const WORD_BITS: nat := 64

  lemma OrShifted(acc: u64, accBits: nat, word: nat, elem: nat)
    requires accBits < 8 && elem <= 32 && acc < Pow2(accBits) && word < Pow2(elem)
    ensures Or(acc, Shl(word, accBits, WORD_BITS)) == acc + Up(word, accBits)
    ensures acc + Up(word, accBits) < Pow2(accBits + elem) <= TWO64
  {
    UpBound(word, accBits, elem);
    Pow2Mono(accBits + elem, WORD_BITS);
    Pow2Of64();
    ShlExact(word, accBits, elem, WORD_BITS);
    OrDisjoint(acc, word, accBits);
  }

  lemma HoldsMore(sent: seq<byte>, acc: u64, accBits: nat, code: seq<bool>, word: nat, elem: nat, next: u64)
    requires Holds(sent, acc, accBits, code)
    requires next == acc + Up(word, accBits) < Pow2(accBits + elem)
    ensures Holds(sent, next, accBits + elem, code + Lsb(word, elem))
  {
    LsbJoin(acc, word, accBits, elem);
    AppendAssoc(BytesLsb(sent), Lsb(acc, accBits), Lsb(word, elem));
  }

  /** Or-ing the shifted code word into the accumulator appends its bits. */
  lemma AppendCode(sent: seq<byte>, acc: u64, accBits: nat, code: seq<bool>, word: nat, elem: nat)
    requires Holds(sent, acc, accBits, code) && accBits < 8 && elem <= 32 && word < Pow2(elem)
    ensures Or(acc, Shl(word, accBits, WORD_BITS)) < TWO64
    ensures Holds(sent, Or(acc, Shl(word, accBits, WORD_BITS)), accBits + elem, code + Lsb(word, elem))
  {
    OrShifted(acc, accBits, word, elem);
    HoldsMore(sent, acc, accBits, code, word, elem, Or(acc, Shl(word, accBits, WORD_BITS)));
  }

  lemma SendByte(sent: seq<byte>, b: byte, tail: seq<bool>)
    ensures BytesLsb(sent + [b]) + tail == BytesLsb(sent) + (Lsb(b, 8) + tail)
  {
    BytesLsbAppend(sent, [b]);
    assert BytesLsb([b]) == Lsb(b, 8) + BytesLsb([]) == Lsb(b, 8);
  }

  lemma FlushByte(sent: seq<byte>, acc: u64, accBits: nat, code: seq<bool>)
    requires Holds(sent, acc, accBits, code) && accBits >= 8
    ensures And(acc, 0xFF) == acc % 256
    ensures Shr(acc, 8) <= acc
    ensures Holds(sent + [acc % 256], Shr(acc, 8), accBits - 8, code)
  {
    AndByte(acc);
    LowOf8(acc);
    ShrLess(acc, 8);
    ShrBound(acc, 8, accBits - 8);
    LsbSplit(acc, 8, accBits - 8);
    LsbLow(acc, 8, 8);
    SendByte(sent, acc % 256, Lsb(Shr(acc, 8), accBits - 8));
  }

  lemma {:induction false} LsbZero(n: nat)
    ensures Lsb(0, n) == Repeated(false, n)
  {
    if n > 0 {
      LsbZero(n - 1);
      assert Repeated(false, n) == [false] + Repeated(false, n - 1);
    }
  }

  lemma SpareBits(acc: u64, accBits: nat)
    requires accBits < 8 && acc < Pow2(accBits)
    ensures Lsb(acc, 8) == Lsb(acc, accBits) + Repeated(false, 8 - accBits)
  {
    LsbSplit(acc, accBits, 8 - accBits);
    ShrSmall(acc, accBits);
    LsbZero(8 - accBits);
  }

  lemma LastAnd(acc: u64, accBits: nat)
    requires accBits < 8 && acc < Pow2(accBits)
    ensures And(acc, 0xFF) == acc < 256
  {
    var bound := Pow2(accBits);
    Pow2Mono(accBits, 8);
    Pow2Of8();
    assert bound <= 256;
    AndByte(acc);
  }

  /** The last, partial byte: its spare high bits are zero. */
  lemma LastByte(sent: seq<byte>, acc: u64, accBits: nat, code: seq<bool>)
    requires Holds(sent, acc, accBits, code) && accBits < 8
    ensures And(acc, 0xFF) == acc < 256
    ensures BytesLsb(sent + [acc]) == code + Repeated(false, 8 - accBits)
  {
    LastAnd(acc, accBits);
    SpareBits(acc, accBits);
    SendByte(sent, acc, []);
    assert Lsb(acc, 8) + [] == Lsb(acc, 8);
    assert BytesLsb(sent + [acc]) + [] == BytesLsb(sent + [acc]);
    AppendAssoc(BytesLsb(sent), Lsb(acc, accBits), Repeated(false, 8 - accBits));
  }

  /** The output when the codes end with a byte. */
  lemma PacksWhole(code: seq<bool>, before: seq<byte>, after: seq<byte>, sent: seq<byte>)
    requires BytesLsb(sent) == code && |code| == 8 * |sent| && 1 + |sent| <= |after| == |before|
    requires after[0] == 1 && after[1..1 + |sent|] == sent
    requires forall k :: 1 + |sent| <= k < |after| ==> after[k] == before[k]
    ensures Packs(code, |code| + 8, before, after)
  {
    assert CompressedSize(|code| + 8) == 1 + |sent|;
    assert code + Repeated(false, 0) == code;
  }

  /** The output when the codes end inside a byte. */
  lemma PacksPart(code: seq<bool>, before: seq<byte>, after: seq<byte>, sent: seq<byte>, last: byte, accBits: nat)
    requires 0 < accBits < 8 && |code| == 8 * |sent| + accBits && 2 + |sent| <= |after| == |before|
    requires BytesLsb(sent + [last]) == code + Repeated(false, 8 - accBits)
    requires after[0] == 1 && after[1..2 + |sent|] == sent + [last]
    requires forall k :: 2 + |sent| <= k < |after| ==> after[k] == before[k]
    ensures Packs(code, |code| + 8, before, after)
  {
    assert CompressedSize(|code| + 8) == 2 + |sent|;
  }

  // ---- the eight-bit look-ahead ----

  /** What the decoder sees at `pos`: payload bytes as they are, zeros beyond them. */
  function PeekBits(readable: seq<bool>, payloadBytes: nat, pos: nat): (p: seq<bool>)
    ensures |p| == 8
  {
    seq(8, j requires 0 <= j < 8 =>
      pos + j < 8 * payloadBytes && pos + j < |readable| && readable[pos + j])
  }

  /** The shifted and or-ed byte pair holds the next eight bits. */
  lemma PeekWord(data: seq<byte>, payloadBytes: nat, pos: nat)
    requires payloadBytes <= |data| && pos / 8 < payloadBytes
    ensures var hi := if pos / 8 + 1 < payloadBytes then data[pos / 8 + 1] else 0;
            var peek := Or(Shr(data[pos / 8], pos % 8), Shl(hi, 8 - pos % 8, 32));
            And(peek, 0xFF) < 256 &&
            Lsb(And(peek, 0xFF), 8) == PeekBits(BytesLsb(data), payloadBytes, pos)
  {
    var lo: byte, off := data[pos / 8], pos % 8;
    var hi: byte := if pos / 8 + 1 < payloadBytes then data[pos / 8 + 1] else 0;
    var peek := And(Or(Shr(lo, off), Shl(hi, 8 - off, 32)), 0xFF);
    AndBound(Or(Shr(lo, off), Shl(hi, 8 - off, 32)), 0xFF);
    forall j: nat | j < 8
      ensures Lsb(peek, 8)[j] == PeekBits(BytesLsb(data), payloadBytes, pos)[j]
    {
      LsbAt(peek, 8, j);
      PeekBit(lo, hi, off, j);
      PeekBitsAt(data, payloadBytes, pos, j);
    }
  }

  lemma PeekBitsAt(data: seq<byte>, payloadBytes: nat, pos: nat, j: nat)
    requires payloadBytes <= |data| && pos / 8 < payloadBytes && j < 8
    ensures var hi := if pos / 8 + 1 < payloadBytes then data[pos / 8 + 1] else 0;
            PeekBits(BytesLsb(data), payloadBytes, pos)[j] ==
            if pos % 8 + j < 8 then Bit(data[pos / 8], pos % 8 + j) else Bit(hi, pos % 8 + j - 8)
  {
    if pos + j < 8 * payloadBytes {
      BytesLsbAt(data, pos + j);
    } else {
      BitOfZero(pos % 8 + j - 8);
    }
  }

  lemma PeekBit(lo: byte, hi: byte, off: nat, j: nat)
    requires off < 8 && j < 8
    ensures Bit(And(Or(Shr(lo, off), Shl(hi, 8 - off, 32)), 0xFF), j) ==
            if off + j < 8 then Bit(lo, off + j) else Bit(hi, off + j - 8)
  {
    Pow2Of8();
    BitAnd(Or(Shr(lo, off), Shl(hi, 8 - off, 32)), 0xFF, j);
    BitMask(8, j);
    BitOr(Shr(lo, off), Shl(hi, 8 - off, 32), j);
    BitShr(lo, off, j);
    BitShl(hi, 8 - off, 32, j);
    if off + j >= 8 {
      BitHigh(lo, 8, off + j);
    }
  }

  /** `& 1` after a shift picks out one bit. */
  lemma PickBit(x: byte, i: nat)
    requires i < 8
    ensures And(Shr(x, i), 1) == Digit(Bit(x, i))
    ensures Lsb(x, 8)[i] == Bit(x, i)
  {
    assert Pow2(1) == 2 && Low(Shr(x, i), 1) == Shr(x, i) % 2;
    AndMask(Shr(x, i), 1);
    BitShr(x, i, 0);
    LsbAt(x, 8, i);
  }

  lemma PayloadBit(data: seq<byte>, pos: nat)
    requires pos < 8 * |data|
    ensures And(Shr(data[pos / 8], pos % 8), 1) == Digit(BytesLsb(data)[pos])
  {
    PickBit(data[pos / 8], pos % 8);
    BytesLsbAt(data, pos);
  }

  /** What the table-driven decoder makes of the bits at `pos`: the eight-bit look-ahead
      if a code ends there, else the walk over the readable bits. */
  ghost function Decoded(root: Tree, readable: seq<bool>, payloadBytes: nat, pos: nat): (r: Option<(byte, nat)>)
    requires root.Node? && pos <= |readable|
    ensures r.Some? ==> 1 <= r.value.1 <= Height(root)
  {
    var near := Walk(root, PeekBits(readable, payloadBytes, pos));
    if near.Some? then near else Walk(root, readable[pos..])
  }

  /** The look-ahead agrees with the payload as far as both go. */
  lemma PeekAgrees(root: Tree, rest: seq<bool>, peek: seq<bool>)
    requires root.Node? && |peek| == 8
    requires forall j :: 0 <= j < 8 && j < |rest| ==> peek[j] == rest[j]
    ensures Walk(root, peek).Some? && Walk(root, peek).value.1 <= |rest| ==>
              Walk(root, rest) == Walk(root, peek)
    ensures Walk(root, rest).Some? && Walk(root, rest).value.1 <= 8 ==>
              Walk(root, rest) == Walk(root, peek)
  {
    if Walk(root, peek).Some? && Walk(root, peek).value.1 <= |rest| {
      WalkPrefix(root, peek, rest);
    }
    if Walk(root, rest).Some? && Walk(root, rest).value.1 <= 8 {
      WalkPrefix(root, rest, peek);
    }
  }

  /** While the payload holds a whole code, the table-driven decoder finds that code. */
  lemma WholeCode(root: Tree, readable: seq<bool>, in_sz: nat, byteLen: nat, pos: nat)
    requires root.Node? && pos < in_sz <= 8 * byteLen <= |readable|
    requires Walk(root, readable[..in_sz][pos..]).Some?
    ensures Decoded(root, readable, byteLen, pos) == Walk(root, readable[..in_sz][pos..])
  {
    var rest := readable[..in_sz][pos..];
    assert rest <= readable[pos..];
    WalkShort(root, rest, readable[pos..]);
    var peek := PeekBits(readable, byteLen, pos);
    if Walk(root, peek).Some? && Walk(root, peek).value.1 > |rest| {
      assert rest == peek[..|rest|];
      WalkShort(root, rest, peek);
    }
    PeekAgrees(root, rest, peek);
  }

  /** An entry of the decode table says what the look-ahead finds, or that it finds nothing. */
  lemma EntryDecodes(root: Tree, readable: seq<bool>, byteLen: nat, pos: nat, word: byte)
    requires root.Node? && pos <= |readable| && Lsb(word, 8) == PeekBits(readable, byteLen, pos)
    ensures var e := TableEntry(root, word);
            Decoded(root, readable, byteLen, pos) ==
            if e.length != 0 then Some((e.symbol, e.length)) else Walk(root, readable[pos..])
  {
  }

  /** When the payload ends inside a code, what is found reaches past the payload. */
  lemma CutCode(root: Tree, readable: seq<bool>, in_sz: nat, byteLen: nat, pos: nat)
    requires root.Node? && pos < in_sz <= 8 * byteLen <= |readable|
    requires Walk(root, readable[..in_sz][pos..]) == None
    requires in_sz + Height(root) <= |readable| + 1
    ensures Decoded(root, readable, byteLen, pos).Some?
    ensures pos + Decoded(root, readable, byteLen, pos).value.1 > in_sz
  {
    var rest := readable[..in_sz][pos..];
    assert rest <= readable[pos..];
    WalkShort(root, rest, readable[pos..]);
    PeekAgrees(root, rest, PeekBits(readable, byteLen, pos));
    WalkEnough(root, readable[pos..]);
  }

  /** The decoder's state after some turns: `done` is what it has output, `pos` its cursor. */
  ghost predicate Progress(root: Tree, readable: seq<bool>, in_sz: nat, byteLen: nat,
                           pos: nat, done: seq<byte>, out_sz: nat)
    requires root.Node? && in_sz <= |readable|
  {
    var payload := readable[..in_sz];
    var text := BitWalk(root, root, payload, out_sz);
    var cut := Pending(root, payload, out_sz);
    && |done| <= out_sz
    && if pos <= in_sz then
         && text == done + BitWalk(root, root, payload[pos..], out_sz - |done|)
         && cut == Pending(root, payload[pos..], out_sz - |done|)
       else
         && cut != [] && done != [] && text == done[..|done| - 1]
         && Decoded(root, readable, byteLen, in_sz - |cut|).Some?
         && done[|done| - 1] == Decoded(root, readable, byteLen, in_sz - |cut|).value.0
  }

  /** The decoder's output: the reference decoder's, and when the payload stops inside a
      code with room left, exactly one more symbol. */
  ghost predicate Unpacks(root: Tree, readable: seq<bool>, in_sz: nat, out_sz: nat, done: seq<byte>)
    requires root.Node? && in_sz <= |readable|
  {
    var text := BitWalk(root, root, readable[..in_sz], out_sz);
    var cut := Pending(root, readable[..in_sz], out_sz);
    if cut == [] then done == text
    else
      var last := Decoded(root, readable, CompressedSize(in_sz), in_sz - |cut|);
      last.Some? && done == text + [last.value.0]
  }

  /** The slack needed when the payload stops inside a code. */
  ghost predicate Slack(root: Tree, readable: seq<bool>, in_sz: nat, out_sz: nat)
    requires root.Node? && in_sz <= |readable|
  {
    Pending(root, readable[..in_sz], out_sz) != [] ==> in_sz + Height(root) <= |readable| + 1
  }

  /** One turn of the table-driven loop does what the reference decoder does up to its
      next symbol, unless the payload ends first. */
  lemma Turn(root: Tree, readable: seq<bool>, in_sz: nat, byteLen: nat,
             pos: nat, done: seq<byte>, out_sz: nat)
    requires root.Node? && pos < in_sz <= 8 * byteLen <= |readable| && |done| < out_sz
    requires Slack(root, readable, in_sz, out_sz)
    requires Progress(root, readable, in_sz, byteLen, pos, done, out_sz)
    ensures Decoded(root, readable, byteLen, pos).Some?
    ensures var (s, n) := Decoded(root, readable, byteLen, pos).value;
            Progress(root, readable, in_sz, byteLen, pos + n, done + [s], out_sz)
  {
    var room := out_sz - |done|;
    var rest := readable[..in_sz][pos..];
    BitWalkCode(root, root, rest, room);
    if Walk(root, rest).Some? {
      WholeCode(root, readable, in_sz, byteLen, pos);
      var (s, n) := Walk(root, rest).value;
      assert rest[n..] == readable[..in_sz][pos + n..];
      AppendAssoc(done, [s], BitWalk(root, root, rest[n..], room - 1));
      assert out_sz - |done + [s]| == room - 1;
    } else {
      CutCode(root, readable, in_sz, byteLen, pos);
      var (s, _) := Decoded(root, readable, byteLen, pos).value;
      assert (done + [s])[..|done|] == done == done + [];
    }
  }

  lemma Start(root: Tree, readable: seq<bool>, in_sz: nat, byteLen: nat, out_sz: nat)
    requires root.Node? && in_sz <= 8 * byteLen <= |readable|
    ensures Progress(root, readable, in_sz, byteLen, 0, [], out_sz)
  {
    assert readable[..in_sz][0..] == readable[..in_sz];
  }

  lemma Finished(root: Tree, readable: seq<bool>, in_sz: nat, byteLen: nat,
                 pos: nat, done: seq<byte>, out_sz: nat)
    requires root.Node? && in_sz <= 8 * byteLen <= |readable| && byteLen == CompressedSize(in_sz)
    requires Progress(root, readable, in_sz, byteLen, pos, done, out_sz)
    requires pos >= in_sz || |done| == out_sz
    ensures Unpacks(root, readable, in_sz, out_sz, done)
  {
    if pos <= in_sz {
      assert done + [] == done;
      assert Walk(root, []) == None;
    }
  }

  /** What the reference decoder makes of a successful compression: the input, cut to the
      room there is, with nothing left over when there is room for all of it. */
  /** The payload of a successful compression starts with the codes. */
  lemma PackedBits(code: seq<bool>, ret: nat, before: seq<byte>, after: seq<byte>)
    requires Packs(code, ret, before, after)
    ensures ret - 8 <= 8 * (|after| - 1) && BytesLsb(after[1..])[..ret - 8] == code
  {
    var size := CompressedSize(ret);
    assert after[1..] == after[1..size] + after[size..];
    BytesLsbAppend(after[1..size], after[size..]);
  }

  lemma PackedDecodes(enc: seq<u32>, root: Tree, text: seq<byte>, ret: nat,
                      before: seq<byte>, after: seq<byte>, room: nat)
    requires CodesMatch(enc, root) && Packs(CodeBits(enc, text), ret, before, after)
    ensures ret - 8 <= 8 * (|after| - 1)
    ensures BitWalk(root, root, BytesLsb(after[1..])[..ret - 8], room) ==
            if room < |text| then text[..room] else text
    ensures room >= |text| ==> Pending(root, BytesLsb(after[1..])[..ret - 8], room) == []
  {
    PackedBits(CodeBits(enc, text), ret, before, after);
    DecodeCodes(enc, root, text, room);
  }

  /** Offsets are relative to four bytes before the root's address, in 32-bit arithmetic. */
  lemma BaseWrap(x: u32, first: u32)
    ensures (x - (first - 4) % TWO32) % TWO32 == (x - (first - 4)) % TWO32
  {
  }

  /** The compressor after `i` symbols: all their code bits, none of them past the room there is. */
  ghost predicate Packing(enc: seq<u32>, text: seq<byte>, i: nat, max_sz: nat, code: seq<bool>, read: nat,
                          acc: u64, accBits: nat, outPos: nat, sent: seq<byte>)
  {
    && EncTable(enc) && i <= |text| && code == CodeBits(enc, text[..i])
    && read == |code| == 8 * outPos + accBits && (if i == 0 then read == 0 else read < max_sz)
    && accBits < 8 && Holds(sent, acc, accBits, code)
  }

  lemma PackingNext(enc: seq<u32>, text: seq<byte>, i: nat, max_sz: nat, code: seq<bool>, read: nat, outPos: nat,
                    accBits: nat, v: u32, elem: nat, acc': u64, accBits': nat, outPos': nat, sent': seq<byte>)
    requires EncTable(enc) && i < |text| && code == CodeBits(enc, text[..i]) && read == |code| == 8 * outPos + accBits
    requires elem == enc[ToInt8(text[i]) + 0x180] && v == enc[ToInt8(text[i]) + 0x80] && elem + read < max_sz
    requires accBits' < 8 && 8 * outPos' + accBits' == 8 * outPos + accBits + elem
    requires Holds(sent', acc', accBits', code + Lsb(v, elem))
    ensures Packing(enc, text, i + 1, max_sz, code + Lsb(v, elem), read + elem, acc', accBits', outPos', sent')
  {
    NextCode(enc, text, i);
  }

  class Codec {
    var enc: seq<u32>
    var jump: seq<Cell>
    const dtab: array<DecodeEntry>
    var dtabBuilt: bool

    constructor ()
      ensures enc == [] && jump == [] && !dtabBuilt && dtab.Length == 256 && fresh(dtab)
    {
      enc, jump, dtabBuilt := [], [], false;
      dtab := new DecodeEntry[256](_ => DecodeEntry(0, 0));
    }

    /** The loaded tables form a prefix code, and a built decode table agrees with it. */
    ghost predicate Valid(root: Tree)
      reads this, dtab
    {
      && dtab.Length == 256
      && JumpTable(jump, root)
      && (dtabBuilt ==> forall b :: 0 <= b < 256 ==> dtab[b] == TableEntry(root, b))
    }

    method PopulateJumpTable(dec: seq<u32>)
      requires |dec| > 0
      modifies this`jump
      ensures |jump| == |dec| && forall i :: 0 <= i < |dec| ==> jump[i] == CellOf(dec, i)
    {
      jump := seq(|dec|, _ => Data(0));
      var base: u32 := (dec[0] - 4) % TWO32;
      for i := 0 to |dec|
        invariant |jump| == |dec|
        invariant forall k :: 0 <= k < i ==> jump[k] == CellOf(dec, k)
      {
        if dec[i] > 0xff {
          var offset: u32 := (dec[i] - base) % TWO32;
          BaseWrap(dec[i], dec[0]);
          jump := jump[i := Ptr(offset / 4)];
        } else {
          jump := jump[i := Data(dec[i])];
        }
      }
    }

    /** Loads the two tables, None for a file that cannot be read, and builds the decode table. */
    method Init(compressDat: Option<seq<u32>>, decompressDat: Option<seq<u32>>, ghost root: Tree) returns (ret: int)
      requires decompressDat.Some? ==> TableFile(decompressDat.value, root)
      requires dtab.Length == 256
      modifies this`enc, this`jump, this`dtabBuilt, dtab
      ensures ret == if compressDat.Some? && decompressDat.Some? then 0 else -1
      ensures enc == if compressDat.Some? then compressDat.value else old(enc)
      ensures ret == 0 ==> dtabBuilt && Valid(root)
    {
      if compressDat.None? {
        return -1;
      }
      enc := compressDat.value;
      if decompressDat.None? {
        return -1;
      }
      var dec := decompressDat.value;
      PopulateJumpTable(dec);
      FileIsJumpTable(dec, jump, root);
      BuildDecodeTable(root);
      ret := 0;
    }

    method BuildDecodeTable(ghost root: Tree)
      requires dtab.Length == 256 && JumpTable(jump, root)
      modifies this`dtabBuilt, dtab
      ensures dtabBuilt && Valid(root)
    {
      for b := 0 to 256
        invariant forall k :: 0 <= k < b ==> dtab[k] == TableEntry(root, k)
      {
        dtab[b] := LookUp(b, root);
      }
      dtabBuilt := true;
    }

    /** The inner loop of the table's construction: at most eight steps down the tree. */
    method LookUp(b: byte, ghost root: Tree) returns (e: DecodeEntry)
      requires JumpTable(jump, root)
      ensures e == TableEntry(root, b)
    {
      var jmp: nat := jump[0].target;
      e := DecodeEntry(0, 0);
      ghost var cur, bits := root, Lsb(b, 8);
      for bit := 0 to 8
        invariant cur.Node? && Stores(jump, jmp, cur)
        invariant Walk(root, bits) == Later(Walk(cur, bits[bit..]), bit)
      {
        PickBit(b, bit);
        WalkStep(cur, bits, bit);
        jmp := Down(jmp, And(Shr(b, bit), 1), cur, Bit(b, bit));
        cur := Child(cur, Bit(b, bit));
        if AtLeaf(jmp) {
          return DecodeEntry(jump[jmp + 3].v, bit + 1);
        }
      }
    }

    /** zlib_compress: `inp[..in_sz]` is packed into `out[..out_sz]`. */
    method Compress(inp: array<byte>, in_sz: u32, out: array<byte>, out_sz: u32)
      returns (r: CompressResult)
      requires inp != out && in_sz <= inp.Length && 1 <= out_sz <= out.Length && out_sz <= 0x2000_0000
      requires EncTable(enc)
      modifies out
      ensures !r.Garbage? ==> forall k :: out_sz <= k < out.Length ==> out[k] == old(out[k])
      ensures r.Packed? <==> in_sz == 0 || |CodeBits(enc, inp[..in_sz])| < 8 * (out_sz - 1)
      ensures !r.Packed? ==> r == if in_sz + 1 >= out_sz then Garbage else NoRoom
      ensures r.Packed? ==>
                && CompressedSize(r.ret) <= out_sz
                && Packs(CodeBits(enc, inp[..in_sz]), r.ret, old(out[..]), out[..])
    {
      var max_sz: u32 := (out_sz - 1) * 8;
      ghost var text := inp[..in_sz];
      var ok, acc, accBits, outPos, read;
      ghost var sent;
      ok, acc, accBits, outPos, read, sent := PackAll(inp, in_sz, out, max_sz);
      assert inp[..in_sz] == text;
      if !ok {
        if in_sz + 1 >= out_sz {
          return Garbage;
        }
        return NoRoom;
      }
      Finish(out, acc, accBits, outPos, sent, CodeBits(enc, text), old(out[..]));
      return Packed(read + 8);
    }

    /** The loop over the input, left early when the next code would not fit. */
    method PackAll(inp: array<byte>, in_sz: u32, out: array<byte>, max_sz: u32)
      returns (ok: bool, acc: u64, accBits: u32, outPos: u32, read: u32, ghost sent: seq<byte>)
      requires inp != out && in_sz <= inp.Length && 8 + max_sz <= 8 * out.Length
      requires EncTable(enc)
      modifies out
      ensures forall k :: max_sz / 8 + 1 <= k < out.Length ==> out[k] == old(out[k])
      ensures ok <==> in_sz == 0 || |CodeBits(enc, inp[..in_sz])| < max_sz
      ensures ok ==>
                && read == |CodeBits(enc, inp[..in_sz])| == 8 * outPos + accBits
                && (read < max_sz || read == 0) && accBits < 8
                && sent == out[1..1 + outPos] && Holds(sent, acc, accBits, CodeBits(enc, inp[..in_sz]))
                && forall k :: 1 + outPos <= k < out.Length ==> out[k] == old(out[k])
    {
      acc, accBits, outPos, read, sent := 0, 0, 0, 0, [];
      ghost var text := inp[..in_sz];
      ghost var code := [];
      assert Packing(enc, text, 0, max_sz, code, read, acc, accBits, outPos, sent);

      var i: u32 := 0;
      while i < in_sz
        invariant i <= in_sz && inp[..in_sz] == text
        invariant Packing(enc, text, i, max_sz, code, read, acc, accBits, outPos, sent)
        invariant sent == out[1..1 + outPos]
        invariant forall k :: 1 + outPos <= k < out.Length ==> out[k] == old(out[k])
      {
        var elem := enc[ToInt8(inp[i]) + 0x180];
        assert text[i] == inp[i];
        if elem + read >= max_sz {
          NextCode(enc, text, i);
          ok := false;
          return;
        }
        var v := enc[ToInt8(inp[i]) + 0x80];
        ghost var pos, bits := outPos, accBits;
        acc, accBits, outPos, sent := EmitCode(out, acc, accBits, outPos, v, elem, sent, code);
        PackingNext(enc, text, i, max_sz, code, read, pos, bits, v, elem, acc, accBits, outPos, sent);
        read := read + elem;
        code := code + Lsb(v, elem);
        i := i + 1;
      }
      assert text[..in_sz] == text;
      ok := true;
    }

    /** One code goes into the accumulator, whole bytes go out. */
    method EmitCode(out: array<byte>, acc0: u64, accBits0: u32, outPos0: u32, v: u32, elem: u32,
                    ghost sent0: seq<byte>, ghost code: seq<bool>)
      returns (acc: u64, accBits: u32, outPos: u32, ghost sent: seq<byte>)
      requires 1 <= elem <= 32 && accBits0 < 8
      requires 8 + 8 * outPos0 + accBits0 + elem <= 8 * out.Length
      requires 8 * outPos0 + accBits0 + elem < TWO32
      requires sent0 == out[1..1 + outPos0] && Holds(sent0, acc0, accBits0, code)
      modifies out
      ensures accBits < 8 && 8 * outPos + accBits == 8 * outPos0 + accBits0 + elem
      ensures sent == out[1..1 + outPos] && Holds(sent, acc, accBits, code + Lsb(v, elem))
      ensures forall k :: 1 + outPos <= k < out.Length ==> out[k] == old(out[k])
    {
      var word := CodeWord(v, elem);
      AppendCode(sent0, acc0, accBits0, code, word, elem);
      acc, accBits := Or(acc0, Shl(word, accBits0, WORD_BITS)), accBits0 + elem;
      acc, accBits, outPos, sent := FlushBytes(out, acc, accBits, outPos0, sent0, code + Lsb(v, elem));
    }

    /** The inner loop of the compressor: whole bytes leave the accumulator. */
    method FlushBytes(out: array<byte>, acc0: u64, accBits0: u32, outPos0: u32,
                      ghost sent0: seq<byte>, ghost code: seq<bool>)
      returns (acc: u64, accBits: u32, outPos: u32, ghost sent: seq<byte>)
      requires 8 + 8 * outPos0 + accBits0 <= 8 * out.Length && 8 * outPos0 + accBits0 < TWO32
      requires sent0 == out[1..1 + outPos0] && Holds(sent0, acc0, accBits0, code)
      modifies out
      ensures accBits < 8 && 8 * outPos + accBits == 8 * outPos0 + accBits0
      ensures sent == out[1..1 + outPos] && Holds(sent, acc, accBits, code)
      ensures forall k :: 1 + outPos <= k < out.Length ==> out[k] == old(out[k])
    {
      acc, accBits, outPos, sent := acc0, accBits0, outPos0, sent0;
      while accBits >= 8
        invariant 8 * outPos + accBits == 8 * outPos0 + accBits0
        invariant sent == out[1..1 + outPos] && Holds(sent, acc, accBits, code)
        invariant forall k :: 1 + outPos <= k < out.Length ==> out[k] == old(out[k])
      {
        FlushByte(sent, acc, accBits, code);
        sent := sent + [acc % 256];
        out[1 + outPos] := And(acc, 0xFF);
        outPos := outPos + 1;
        acc := Shr(acc, 8);
        accBits := accBits - 8;
      }
    }

    /** The trailing partial byte, if any, and the flag byte. */
    method Finish(out: array<byte>, acc: u64, accBits: u32, outPos: u32,
                  ghost sent: seq<byte>, ghost code: seq<bool>, ghost before: seq<byte>)
      requires accBits < 8 && 8 + 8 * outPos + accBits <= 8 * out.Length
      requires |code| == 8 * outPos + accBits
      requires sent == out[1..1 + outPos] && Holds(sent, acc, accBits, code)
      requires |before| == out.Length
      requires forall k :: 1 + outPos <= k < out.Length ==> out[k] == before[k]
      modifies out
      ensures Packs(code, |code| + 8, before, out[..])
    {
      if accBits > 0 {
        LastByte(sent, acc, accBits, code);
        out[1 + outPos] := And(acc, 0xFF);
      }
      out[0] := 1;
      if accBits > 0 {
        assert out[..][1..2 + outPos] == sent + [acc];
        PacksPart(code, before, out[..], sent, acc, accBits);
      } else {
        assert BytesLsb(sent) + Lsb(acc, 0) == BytesLsb(sent);
        assert out[..][1..1 + outPos] == sent;
        PacksWhole(code, before, out[..], sent);
      }
    }

    /** zlib_decompress: `inp[1..]` holds `in_sz` payload bits. */
    method Decompress(inp: array<byte>, in_sz: u32, out: array<byte>, out_sz: u32, ghost root: Tree)
      returns (ret: int)
      requires inp != out && inp.Length > 0 && in_sz <= 8 * (inp.Length - 1) && out_sz <= out.Length
      requires Valid(root)
      // sizes for which the 32-bit cursor does not wrap
      requires in_sz + 7 + Height(root) < TWO32
      // a code cut off by the payload's end may be read on, so there must be bytes to read
      requires Slack(root, BytesLsb(inp[1..]), in_sz, out_sz)
      modifies out, this`dtabBuilt, dtab
      requires out as object != dtab && inp as object != dtab
      ensures Valid(root)
      ensures inp[0] != 1 ==> ret == -1 && out[..] == old(out[..])
      ensures inp[0] == 1 ==>
                && 0 <= ret <= out_sz
                && Unpacks(root, BytesLsb(inp[1..]), in_sz, out_sz, out[..ret])
                && forall k :: ret <= k < out.Length ==> out[k] == old(out[k])
    {
      if !dtabBuilt {
        BuildDecodeTable(root);
      }
      if inp[0] != 1 {
        return -1;
      }
      ret := DecodeAll(inp, in_sz, out, out_sz, root);
    }

    /** The decompression loop. */
    method DecodeAll(inp: array<byte>, in_sz: u32, out: array<byte>, out_sz: u32, ghost root: Tree)
      returns (w: u32)
      requires inp != out && inp.Length > 0 && in_sz <= 8 * (inp.Length - 1) && out_sz <= out.Length
      requires Valid(root) && dtabBuilt && out as object != dtab
      requires in_sz + 7 + Height(root) < TWO32
      requires Slack(root, BytesLsb(inp[1..]), in_sz, out_sz)
      modifies out
      ensures w <= out_sz && Unpacks(root, BytesLsb(inp[1..]), in_sz, out_sz, out[..w])
      ensures forall k :: w <= k < out.Length ==> out[k] == old(out[k])
    {
      var byteLen: u32 := (in_sz + 7) / 8;
      var bitpos: u32 := 0;
      w := 0;
      ghost var readable := BytesLsb(inp[1..]);
      ghost var done := [];
      assert in_sz <= 8 * byteLen <= |readable|;
      Start(root, readable, in_sz, byteLen, out_sz);

      while bitpos < in_sz && w < out_sz
        invariant w == |done| <= out_sz && bitpos <= in_sz + Height(root)
        invariant BytesLsb(inp[1..]) == readable
        invariant Progress(root, readable, in_sz, byteLen, bitpos, done, out_sz)
        invariant done == out[..w]
        invariant forall k :: w <= k < out.Length ==> out[k] == old(out[k])
        decreases in_sz + Height(root) - bitpos
      {
        var sym;
        sym, bitpos := NextOutput(inp, in_sz, byteLen, bitpos, root, done, out_sz);
        out[w] := sym;
        done := done + [sym];
        w := w + 1;
      }
      Finished(root, readable, in_sz, byteLen, bitpos, done, out_sz);
    }

    /** One turn of the loop, up to the store. */
    method NextOutput(inp: array<byte>, in_sz: u32, byteLen: u32, bitpos: u32, ghost root: Tree,
                      ghost done: seq<byte>, ghost out_sz: nat)
      returns (sym: byte, next: u32)
      requires Valid(root) && dtabBuilt && |done| < out_sz
      requires inp.Length > 0 && bitpos < in_sz <= 8 * byteLen <= 8 * (inp.Length - 1)
      requires bitpos + Height(root) < TWO32
      requires Slack(root, BytesLsb(inp[1..]), in_sz, out_sz)
      requires Progress(root, BytesLsb(inp[1..]), in_sz, byteLen, bitpos, done, out_sz)
      ensures bitpos < next <= bitpos + Height(root)
      ensures Progress(root, BytesLsb(inp[1..]), in_sz, byteLen, next, done + [sym], out_sz)
    {
      Turn(root, BytesLsb(inp[1..]), in_sz, byteLen, bitpos, done, out_sz);
      sym, next := NextSymbol(inp, byteLen, bitpos, root);
    }

    /** The body of the decompression loop: table look-up, else tree walk. */
    method NextSymbol(inp: array<byte>, byteLen: u32, bitpos: u32, ghost root: Tree)
      returns (sym: byte, next: u32)
      requires Valid(root) && dtabBuilt
      requires inp.Length > 0 && bitpos < 8 * byteLen <= 8 * (inp.Length - 1)
      requires bitpos + Height(root) < TWO32
      requires Decoded(root, BytesLsb(inp[1..]), byteLen, bitpos).Some?
      ensures Decoded(root, BytesLsb(inp[1..]), byteLen, bitpos) == Some((sym, next - bitpos))
      ensures next > bitpos
    {
      var byteoff := bitpos / 8;
      var bitoff := bitpos % 8;
      var hi := if byteoff + 1 < byteLen then inp[1 + byteoff + 1] else 0;
      var peek := Or(Shr(inp[1 + byteoff], bitoff), Shl(hi, 8 - bitoff, 32));
      PeekWord(inp[1..], byteLen, bitpos);
      ghost var readable, word: byte := BytesLsb(inp[1..]), And(peek, 0xFF);
      EntryDecodes(root, readable, byteLen, bitpos, word);
      var e := dtab[And(peek, 0xFF)];
      if e.length != 0 {
        sym, next := e.symbol, bitpos + e.length;
      } else {
        sym, next := WalkTree(inp, bitpos, root);
      }
    }

    /** The bit-by-bit walk for codes longer than eight bits. */
    method WalkTree(inp: array<byte>, start: u32, ghost root: Tree)
      returns (sym: byte, bitpos: u32)
      requires JumpTable(jump, root) && inp.Length > 0
      requires start + Height(root) < TWO32 && start <= 8 * (inp.Length - 1)
      requires Walk(root, BytesLsb(inp[1..])[start..]).Some?
      ensures Walk(root, BytesLsb(inp[1..])[start..]) == Some((sym, bitpos - start)) && start < bitpos
    {
      var jmp: nat := jump[0].target;
      bitpos := start;
      ghost var data := inp[1..];
      ghost var bits := BytesLsb(data);
      ghost var cur := root;
      while true
        invariant cur.Node? && Stores(jump, jmp, cur) && OnPath(root, cur, bits, start, bitpos)
        decreases |bits| - bitpos
      {
        PayloadBit(data, bitpos);
        PathStep(root, cur, bits, start, bitpos);
        jmp := Down(jmp, And(Shr(inp[1 + bitpos / 8], bitpos % 8), 1), cur, bits[bitpos]);
        cur := Child(cur, bits[bitpos]);
        bitpos := bitpos + 1;
        if AtLeaf(jmp) {
          return jump[jmp + 3].v, bitpos;
        }
      }
    }

    /** One pointer followed. */
    method Down(jmp: nat, bit: nat, ghost cur: Tree, ghost b: bool) returns (next: nat)
      requires cur.Node? && Stores(jump, jmp, cur) && bit == Digit(b)
      ensures next + 1 < |jump| && Stores(jump, next, Child(cur, b))
      ensures AtLeaf(next) <==> Child(cur, b).Leaf?
      ensures AtLeaf(next) ==> next + 3 < |jump| && jump[next + 3] == Data(Child(cur, b).symbol)
    {
      StoresChild(jump, jmp, cur, b);
      next := jump[jmp + bit].target;
    }

    predicate AtLeaf(jmp: nat)
      requires jmp + 1 < |jump|
      reads this`jump
    {
      IsNull(jump[jmp]) && IsNull(jump[jmp + 1])
    }

    /** Packing and unpacking with `in_sz = ret - 8` gives the input back. */
    method RoundTrip(inp: array<byte>, in_sz: u32, mid: array<byte>, mid_sz: u32,
                     out: array<byte>, out_sz: u32, ghost root: Tree)
      returns (r: CompressResult, ret: int)
      requires inp != mid && mid != out && inp != out
      requires in_sz <= inp.Length && 1 <= mid_sz <= mid.Length && mid_sz <= 0x1000_0000
      requires in_sz <= out_sz <= out.Length
      requires Valid(root) && CodesMatch(enc, root) && Height(root) < 0x1000_0000
      requires mid as object != dtab && out as object != dtab
      modifies mid, out, this`dtabBuilt, dtab
      ensures r.Packed? <==> in_sz == 0 || |CodeBits(enc, old(inp[..in_sz]))| < 8 * (mid_sz - 1)
      ensures r.Packed? ==> ret == in_sz && out[..in_sz] == old(inp[..in_sz])
    {
      ret := -1;
      r := Compress(inp, in_sz, mid, mid_sz);
      if r.Packed? {
        PackedDecodes(enc, root, inp[..in_sz], r.ret, old(mid[..]), mid[..], out_sz);
        assert mid[..][1..] == mid[1..];
        ret := Decompress(mid, r.ret - 8, out, out_sz, root);
      }
    }
  }
}
