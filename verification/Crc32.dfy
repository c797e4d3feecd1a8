/** The CRC-32 that protects every payload of an index snapshot.

    The program keeps the checksum in an unsigned 32-bit register that it updates
    bit by bit.  Here the register is its 32 bits, least significant first, and the
    operators of the source are the bitwise operators on them.  The computation is
    compared with the table-driven algorithm that section 8 of RFC 1952 publishes,
    and its error-detecting power is proved.
  */
module Crc32 {

  import opened Results

  type Word = w: seq<bool> | |w| == 32 witness seq(32, _ => false)

  /** The `n` low bits of `v`, least significant first. */
  function Bits(v: nat, n: nat): (r: seq<bool>)
    ensures |r| == n
  {
    if n == 0 then [] else [v % 2 == 1] + Bits(v / 2, n - 1)
  }

  function Value(bits: seq<bool>): nat {
    if bits == [] then 0 else (if bits[0] then 1 else 0) + 2 * Value(bits[1..])
  }

  function Pow2(n: nat): nat {
    if n == 0 then 1 else 2 * Pow2(n - 1)
  }

  lemma {:induction false} ValueOfBits(v: nat, n: nat)
    requires v < Pow2(n)
    ensures Value(Bits(v, n)) == v
  {
    if n > 0 {
      ValueOfBits(v / 2, n - 1);
      assert Bits(v, n)[1..] == Bits(v / 2, n - 1);
    }
  }

  lemma {:induction false} ValueBound(bits: seq<bool>)
    ensures Value(bits) < Pow2(|bits|)
  {
    if bits != [] {
      ValueBound(bits[1..]);
    }
  }

  lemma {:induction false} ValueInjective(a: seq<bool>, b: seq<bool>)
    requires |a| == |b| && Value(a) == Value(b)
    ensures a == b
  {
    if a != [] {
      ValueInjective(a[1..], b[1..]);
      assert a == [a[0]] + a[1..] && b == [b[0]] + b[1..];
    }
  }

  lemma TwoToThe32()
    ensures Pow2(32) == 0x1_0000_0000
  {
    assert Pow2(8) == 0x100;
    assert Pow2(16) == 0x1_0000;
    assert Pow2(24) == 0x100_0000;
  }

  // ----- Word operators -----

  function Zero(): Word {
    seq(32, _ => false)
  }

  function Ones(): Word {
    seq(32, _ => true)
  }

  /** 0xedb88320, given by the positions of its one bits. */
  function Polynomial(): Word {
    seq(32, i => PolynomialBit(i))
  }

  predicate PolynomialBit(i: int) {
    || i == 5 || i == 8 || i == 9 || i == 15 || i == 19 || i == 20 || i == 21
    || i == 23 || i == 24 || i == 26 || i == 27 || i == 29 || i == 30 || i == 31
  }

  lemma PolynomialConstant()
    ensures Value(Polynomial()) == 0xedb88320
  {
    hide Value;
    var p := Polynomial();
    assert Value(p[28..]) == 0xe by { ValueOfNibble(p[28..]); }
    ValueOfSlice(p, 24);
    ValueOfSlice(p, 20);
    ValueOfSlice(p, 16);
    ValueOfSlice(p, 12);
    ValueOfSlice(p, 8);
    ValueOfSlice(p, 4);
    ValueOfSlice(p, 0);
    assert p[0..] == p;
  }

  lemma ValueOfNibble(n: seq<bool>)
    requires |n| == 4
    ensures Value(n) == (if n[0] then 1 else 0) + (if n[1] then 2 else 0) + (if n[2] then 4 else 0) + (if n[3] then 8 else 0)
  {
    assert n[1..][1..] == n[2..] && n[2..][1..] == n[3..] && n[3..][1..] == [];
    assert Value(n[3..]) == if n[3] then 1 else 0;
    assert Value(n[2..]) == (if n[2] then 1 else 0) + 2 * Value(n[3..]);
    assert Value(n[1..]) == (if n[1] then 1 else 0) + 2 * Value(n[2..]);
  }

  lemma ValueOfSlice(p: seq<bool>, k: nat)
    requires k + 4 <= |p|
    ensures Value(p[k..]) == (if p[k] then 1 else 0) + (if p[k + 1] then 2 else 0) + (if p[k + 2] then 4 else 0)
                             + (if p[k + 3] then 8 else 0) + 16 * Value(p[k + 4..])
  {
    assert p[k..][1..] == p[k + 1..] && p[k + 1..][1..] == p[k + 2..];
    assert p[k + 2..][1..] == p[k + 3..] && p[k + 3..][1..] == p[k + 4..];
    assert Value(p[k + 3..]) == (if p[k + 3] then 1 else 0) + 2 * Value(p[k + 4..]);
    assert Value(p[k + 2..]) == (if p[k + 2] then 1 else 0) + 2 * Value(p[k + 3..]);
    assert Value(p[k + 1..]) == (if p[k + 1] then 1 else 0) + 2 * Value(p[k + 2..]);
  }

  function Xor(a: Word, b: Word): Word {
    seq(32, i requires 0 <= i < 32 => a[i] != b[i])
  }

  function And(a: Word, b: Word): Word {
    seq(32, i requires 0 <= i < 32 => a[i] && b[i])
  }

  function Not(a: Word): Word {
    seq(32, i requires 0 <= i < 32 => !a[i])
  }

  function Down(a: Word, n: nat): Word {
    seq(32, i requires 0 <= i < 32 => i + n < 32 && a[i + n])
  }

  function Up(a: Word, n: nat): Word {
    seq(32, i requires 0 <= i < 32 => i >= n && a[i - n])
  }

  function LowByte(a: Word): Word {
    seq(32, i requires 0 <= i < 32 => i < 8 && a[i])
  }

  /** `0u - (a & 1u)`: all ones when the lowest bit is set, zero otherwise. */
  function LowestBitMask(a: Word): Word {
    seq(32, _ => a[0])
  }

  lemma XorLaws(a: Word, b: Word, c: Word, d: Word)
    ensures Xor(Xor(a, b), c) == Xor(a, Xor(b, c))
    ensures Xor(a, b) == Xor(b, a)
    ensures Xor(Xor(a, b), b) == a
    ensures Xor(Xor(a, b), Xor(c, d)) == Xor(Xor(a, c), Xor(b, d))
  {
  }

  lemma NotIsInjective(a: Word, b: Word)
    ensures Not(Not(a)) == a
    ensures Not(a) == Not(b) ==> a == b
  {
    assert forall x: Word :: Not(Not(x)) == x;
  }

  // ----- The computation -----

  /** One step of the bit loop. */
  function ShiftBit(c: Word): Word {
    Xor(Down(c, 1), And(Polynomial(), LowestBitMask(c)))
  }

  function ShiftBits(c: Word, n: nat): Word {
    if n == 0 then c else ShiftBit(ShiftBits(c, n - 1))
  }

  /** The register after `data`, without the complement at either end. */
  function Feed(c: Word, data: seq<Byte>): Word {
    if data == [] then c
    else ShiftBits(Xor(Feed(c, data[..|data| - 1]), Bits(data[|data| - 1], 32)), 8)
  }

  function Crc(crc: Word, data: seq<Byte>): Word {
    Not(Feed(Not(crc), data))
  }

  /** The source's two nested loops. */
  method Crc32Update(crc: Word, data: seq<Byte>) returns (r: Word)
    ensures r == Crc(crc, data)
  {
    var c := Not(crc);
    for i := 0 to |data|
      invariant c == Feed(Not(crc), data[..i])
    {
      assert data[..i + 1][..i] == data[..i];
      c := Xor(c, Bits(data[i], 32));
      ghost var start := c;
      for bit := 0 to 8
        invariant c == ShiftBits(start, bit)
      {
        var mask := LowestBitMask(c);
        c := Xor(Down(c, 1), And(Polynomial(), mask));
      }
    }
    assert data[..|data|] == data;
    r := Not(c);
  }

  // ----- Chunks -----

  /** Feeding a stream chunk by chunk gives the value of the whole stream. */
  lemma {:induction false} FeedConcat(c: Word, a: seq<Byte>, b: seq<Byte>)
    ensures Feed(c, a + b) == Feed(Feed(c, a), b)
  {
    if b == [] {
      assert a + b == a;
    } else {
      var front := b[..|b| - 1];
      FeedConcat(c, a, front);
      assert (a + b)[..|a + b| - 1] == a + front;
    }
  }

  lemma CrcConcat(crc: Word, a: seq<Byte>, b: seq<Byte>)
    ensures Crc(Crc(crc, a), b) == Crc(crc, a + b)
  {
    FeedConcat(Not(crc), a, b);
    NotIsInjective(Feed(Not(crc), a), crc);
  }

  lemma FeedFirst(c: Word, data: seq<Byte>)
    requires data != []
    ensures Feed(c, data) == Feed(ShiftBits(Xor(c, Bits(data[0], 32)), 8), data[1..])
  {
    var one := [data[0]];
    assert data == one + data[1..];
    FeedConcat(c, one, data[1..]);
    assert one[..0] == [];
  }

  // ----- The algorithm of section 8 of RFC 1952 -----

  function RfcTableStep(c: Word): Word {
    if c[0] then Xor(Polynomial(), Down(c, 1)) else Down(c, 1)
  }

  function RfcTableSteps(c: Word, k: nat): Word {
    if k == 0 then c else RfcTableStep(RfcTableSteps(c, k - 1))
  }

  /** The table entry for the byte in the low bits of `n`. */
  function RfcTable(n: Word): Word {
    RfcTableSteps(n, 8)
  }

  function RfcUpdate(c: Word, data: seq<Byte>): Word
    decreases |data|
  {
    if data == [] then c
    else RfcUpdate(Xor(RfcTable(LowByte(Xor(c, Bits(data[0], 32)))), Down(c, 8)), data[1..])
  }

  function RfcCrc(crc: Word, data: seq<Byte>): Word {
    Xor(RfcUpdate(Xor(crc, Ones()), data), Ones())
  }

  lemma {:induction false} ShiftBitsAreTableSteps(c: Word, n: nat)
    ensures ShiftBits(c, n) == RfcTableSteps(c, n)
  {
    if n > 0 {
      ShiftBitsAreTableSteps(c, n - 1);
      var d := ShiftBits(c, n - 1);
      assert ShiftBit(d) == RfcTableStep(d);
    }
  }

  lemma {:induction false} ShiftBitsLinear(a: Word, b: Word, n: nat)
    ensures ShiftBits(Xor(a, b), n) == Xor(ShiftBits(a, n), ShiftBits(b, n))
  {
    if n > 0 {
      ShiftBitsLinear(a, b, n - 1);
      var x, y := ShiftBits(a, n - 1), ShiftBits(b, n - 1);
      assert ShiftBit(Xor(x, y)) == Xor(ShiftBit(x), ShiftBit(y));
    }
  }

  /** While the low bits are zero the register only moves down. */
  lemma {:induction false} ShiftBitsOfHighPart(c: Word, n: nat)
    requires n <= 32 && forall i | 0 <= i < n :: !c[i]
    ensures ShiftBits(c, n) == Down(c, n)
  {
    if n > 0 {
      ShiftBitsOfHighPart(c, n - 1);
    }
  }

  lemma ShiftByteIsTableLookup(c: Word)
    ensures ShiftBits(c, 8) == Xor(RfcTable(LowByte(c)), Down(c, 8))
  {
    var high := Up(Down(c, 8), 8);
    assert c == Xor(LowByte(c), high);
    ShiftBitsLinear(LowByte(c), high, 8);
    ShiftBitsOfHighPart(high, 8);
    assert Down(high, 8) == Down(c, 8);
    ShiftBitsAreTableSteps(LowByte(c), 8);
  }

  lemma {:induction false} BitsAboveValue(v: nat, k: nat, n: nat)
    requires v < Pow2(k) && k <= n
    ensures forall i | k <= i < n :: !Bits(v, n)[i]
    decreases n
  {
    if k > 0 {
      BitsAboveValue(v / 2, k - 1, n - 1);
    } else if n > 0 {
      BitsAboveValue(0, 0, n - 1);
    }
  }

  lemma ByteHasEightBits(b: Byte)
    ensures forall i | 8 <= i < 32 :: !Bits(b, 32)[i]
  {
    assert Pow2(8) == 256;
    BitsAboveValue(b, 8, 32);
  }

  lemma {:induction false} FeedIsRfcUpdate(c: Word, data: seq<Byte>)
    ensures Feed(c, data) == RfcUpdate(c, data)
    decreases |data|
  {
    if data != [] {
      var mixed := Xor(c, Bits(data[0], 32));
      ShiftByteIsTableLookup(mixed);
      ByteHasEightBits(data[0]);
      assert Down(mixed, 8) == Down(c, 8);
      FeedFirst(c, data);
      FeedIsRfcUpdate(ShiftBits(mixed, 8), data[1..]);
    }
  }

  /** The bit loop computes the CRC of section 8 of RFC 1952. */
  lemma CrcIsRfc1952(crc: Word, data: seq<Byte>)
    ensures Crc(crc, data) == RfcCrc(crc, data)
  {
    FeedIsRfcUpdate(Not(crc), data);
    assert forall x: Word :: Not(x) == Xor(x, Ones());
  }

  // ----- Error detection -----

  lemma {:induction false} ShiftBitsInjective(a: Word, b: Word, n: nat)
    requires ShiftBits(a, n) == ShiftBits(b, n)
    ensures a == b
  {
    if n > 0 {
      var x, y := ShiftBits(a, n - 1), ShiftBits(b, n - 1);
      assert ShiftBit(x)[31] == x[0] && ShiftBit(y)[31] == y[0];
      forall i | 1 <= i < 32
        ensures x[i] == y[i]
      {
        assert ShiftBit(x)[i - 1] == ShiftBit(y)[i - 1];
      }
      assert x == y;
      ShiftBitsInjective(a, b, n - 1);
    }
  }

  lemma {:induction false} FeedInjectiveInRegister(a: Word, b: Word, data: seq<Byte>)
    requires Feed(a, data) == Feed(b, data)
    ensures a == b
  {
    if data != [] {
      var front, last := data[..|data| - 1], Bits(data[|data| - 1], 32);
      ShiftBitsInjective(Xor(Feed(a, front), last), Xor(Feed(b, front), last), 8);
      XorLaws(Feed(a, front), last, last, last);
      XorLaws(Feed(b, front), last, last, last);
      FeedInjectiveInRegister(a, b, front);
    }
  }

  /** Up to four bytes, first byte lowest, in the positions where the register meets them. */
  function Pack(w: seq<Byte>): Word
    requires |w| <= 4
  {
    if w == [] then Zero() else Xor(Bits(w[0], 32), Up(Pack(w[1..]), 8))
  }

  function ShiftBytes(c: Word, n: nat): Word
    decreases n
  {
    if n == 0 then c else ShiftBytes(ShiftBits(c, 8), n - 1)
  }

  lemma {:induction false} ShiftBytesInjective(a: Word, b: Word, n: nat)
    requires ShiftBytes(a, n) == ShiftBytes(b, n)
    ensures a == b
    decreases n
  {
    if n > 0 {
      ShiftBytesInjective(ShiftBits(a, 8), ShiftBits(b, 8), n - 1);
      ShiftBitsInjective(a, b, 8);
    }
  }

  lemma {:induction false} PackHighZero(w: seq<Byte>)
    requires |w| <= 4
    ensures forall i | 8 * |w| <= i < 32 :: !Pack(w)[i]
  {
    if w == [] {
    } else {
      PackHighZero(w[1..]);
      ByteHasEightBits(w[0]);
    }
  }

  /** Bytes still to come may be mixed in before the register moves. */
  lemma ShiftByteDelays(c: Word, later: Word)
    requires forall i | 24 <= i < 32 :: !later[i]
    ensures ShiftBits(Xor(c, Up(later, 8)), 8) == Xor(ShiftBits(c, 8), later)
  {
    ShiftBitsLinear(c, Up(later, 8), 8);
    ShiftBitsOfHighPart(Up(later, 8), 8);
    assert Down(Up(later, 8), 8) == later;
  }

  lemma {:induction false} FeedWindow(c: Word, w: seq<Byte>)
    requires |w| <= 4
    ensures Feed(c, w) == ShiftBytes(Xor(c, Pack(w)), |w|)
    decreases |w|
  {
    if w == [] {
      assert Xor(c, Zero()) == c;
    } else {
      var b, tail := Bits(w[0], 32), w[1..];
      FeedFirst(c, w);
      FeedWindow(ShiftBits(Xor(c, b), 8), tail);
      PackHighZero(tail);
      ShiftByteDelays(Xor(c, b), Pack(tail));
      XorLaws(c, b, Up(Pack(tail), 8), c);
    }
  }

  lemma {:induction false} PackInjective(v: seq<Byte>, w: seq<Byte>)
    requires |v| == |w| <= 4 && Pack(v) == Pack(w)
    ensures v == w
    decreases |v|
  {
    if v != [] {
      ByteHasEightBits(v[0]);
      ByteHasEightBits(w[0]);
      var a, b, x, y := Bits(v[0], 32), Bits(w[0], 32), Pack(v[1..]), Pack(w[1..]);
      assert forall i | 0 <= i < 8 :: Pack(v)[i] == a[i] && Pack(w)[i] == b[i];
      assert a == b;
      ByteValue(v[0]);
      ByteValue(w[0]);
      PackHighZero(v[1..]);
      PackHighZero(w[1..]);
      forall i | 0 <= i < 24
        ensures x[i] == y[i]
      {
        assert Pack(v)[i + 8] == x[i] && Pack(w)[i + 8] == y[i];
      }
      assert x == y;
      PackInjective(v[1..], w[1..]);
      assert v == [v[0]] + v[1..] && w == [w[0]] + w[1..];
    }
  }

  lemma ByteValue(b: Byte)
    ensures Value(Bits(b, 32)) == b
  {
    TwoToThe32();
    ValueOfBits(b, 32);
  }

  /** `p` and `q` agree everywhere outside `[at, at + 4)`. */
  ghost predicate DifferOnlyInWindow(p: seq<Byte>, q: seq<Byte>, at: nat) {
    |p| == |q| && forall i | 0 <= i < |p| && !(at <= i < at + 4) :: p[i] == q[i]
  }

  lemma SameWindow(c: Word, pre: seq<Byte>, v: seq<Byte>, w: seq<Byte>, suf: seq<Byte>)
    requires |v| == |w| <= 4
    requires Feed(c, pre + v + suf) == Feed(c, pre + w + suf)
    ensures v == w
  {
    var s := Feed(c, pre);
    FeedConcat(c, pre + v, suf);
    FeedConcat(c, pre, v);
    FeedConcat(c, pre + w, suf);
    FeedConcat(c, pre, w);
    FeedInjectiveInRegister(Feed(s, v), Feed(s, w), suf);
    FeedWindow(s, v);
    FeedWindow(s, w);
    ShiftBytesInjective(Xor(s, Pack(v)), Xor(s, Pack(w)), |v|);
    XorLaws(Pack(v), s, s, s);
    XorLaws(Pack(w), s, s, s);
    assert Xor(s, Pack(v)) == Xor(Pack(v), s) && Xor(s, Pack(w)) == Xor(Pack(w), s);
    PackInjective(v, w);
  }

  /** Every change confined to four consecutive bytes changes the CRC. */
  lemma WindowChangesCrc(crc: Word, p: seq<Byte>, q: seq<Byte>, at: nat)
    requires DifferOnlyInWindow(p, q, at) && p != q
    ensures Crc(crc, p) != Crc(crc, q)
  {
    var lo := if at < |p| then at else |p|;
    var hi := if at + 4 < |p| then at + 4 else |p|;
    var pre, suf, v, w := p[..lo], p[hi..], p[lo..hi], q[lo..hi];
    assert p == pre + v + suf;
    assert q == pre + w + suf;
    if Crc(crc, p) == Crc(crc, q) {
      NotIsInjective(Feed(Not(crc), p), Feed(Not(crc), q));
      SameWindow(Not(crc), pre, v, w, suf);
      assert false;
    }
  }

  /** The window in `WindowChangesCrc` cannot be wider: five bytes may collide. */
  lemma FiveBytesMayCollide(crc: Word) returns (p: seq<Byte>, q: seq<Byte>)
    ensures |p| == |q| == 5 && p[0] != q[0]
    ensures Crc(crc, p) == Crc(crc, q)
  {
    hide Bits, ShiftBits, ShiftBytes, Pack, Feed, Unpack;
    var c, one := Not(crc), Bits(1, 32);
    var v := Unpack(ShiftBits(one, 8));
    var w := Unpack(Zero());
    p, q := [1] + v, [0] + w;
    assert p[1..] == v && q[1..] == w;
    FeedFirst(c, p);
    FeedFirst(c, q);
    BitsAboveValue(0, 0, 32);
    assert Xor(c, Bits(0, 32)) == c;
    ShiftBitsLinear(c, one, 8);
    var s, t := ShiftBits(c, 8), ShiftBits(one, 8);
    FeedWindow(Xor(s, t), v);
    FeedWindow(s, w);
    PackUnpack(t);
    PackUnpack(Zero());
    assert Xor(Xor(s, t), t) == Xor(s, Zero());
  }

  function Unpack(x: Word): (w: seq<Byte>)
    ensures |w| == 4
  {
    ValueBound(x[0..8]);
    ValueBound(x[8..16]);
    ValueBound(x[16..24]);
    ValueBound(x[24..32]);
    assert Pow2(8) == 256;
    [Value(x[0..8]), Value(x[8..16]), Value(x[16..24]), Value(x[24..32])]
  }

  lemma {:induction false} BitsOfValue(s: seq<bool>, n: nat)
    requires |s| <= n
    ensures forall i | 0 <= i < n :: Bits(Value(s), n)[i] == (i < |s| && s[i])
    decreases n
  {
    if s == [] {
      BitsAboveValue(0, 0, n);
    } else {
      BitsOfValue(s[1..], n - 1);
    }
  }

  lemma PackUnpack(x: Word)
    ensures Pack(Unpack(x)) == x
  {
    hide Value, Bits;
    var w := Unpack(x);
    BitsOfValue(x[0..8], 32);
    BitsOfValue(x[8..16], 32);
    BitsOfValue(x[16..24], 32);
    BitsOfValue(x[24..32], 32);
    var p4 := Pack(w[4..]);
    var p3 := Pack(w[3..]);
    var p2 := Pack(w[2..]);
    var p1 := Pack(w[1..]);
    assert w[3..][1..] == w[4..] && w[2..][1..] == w[3..] && w[1..][1..] == w[2..];
    assert p4 == Zero();
    assert forall i | 0 <= i < 32 :: p3[i] == (i < 8 && x[i + 24]);
    assert forall i | 0 <= i < 32 :: p2[i] == (i < 16 && x[i + 16]);
    assert forall i | 0 <= i < 32 :: p1[i] == (i < 24 && x[i + 8]);
  }
}
