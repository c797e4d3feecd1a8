/** UTF-8 as the query composer reads and writes it, against the grammar of section 4
    of RFC 3629.  Shifts and masks are written as arithmetic on byte values.
  */
module Utf8 {

  import opened Results

  predicate IsScalar(c: nat) {
    c < 0xD800 || 0xE000 <= c <= 0x10FFFF
  }

  // ----- The grammar -----

  predicate IsTail(b: Byte) {
    0x80 <= b <= 0xBF
  }

  /** UTF8-char of section 4 of RFC 3629. */
  predicate IsCharacter(s: Bytes) {
    || (|s| == 1 && s[0] <= 0x7F)
    || (|s| == 2 && 0xC2 <= s[0] <= 0xDF && IsTail(s[1]))
    || (|s| == 3 && IsTail(s[2])
        && ((s[0] == 0xE0 && 0xA0 <= s[1] <= 0xBF)
            || (0xE1 <= s[0] <= 0xEC && IsTail(s[1]))
            || (s[0] == 0xED && 0x80 <= s[1] <= 0x9F)
            || (0xEE <= s[0] <= 0xEF && IsTail(s[1]))))
    || (|s| == 4 && IsTail(s[2]) && IsTail(s[3])
        && ((s[0] == 0xF0 && 0x90 <= s[1] <= 0xBF)
            || (0xF1 <= s[0] <= 0xF3 && IsTail(s[1]))
            || (s[0] == 0xF4 && 0x80 <= s[1] <= 0x8F)))
  }

  /** UTF8-octets: any number of characters. */
  ghost predicate WellFormed(s: Bytes)
    decreases |s|
  {
    s == [] || exists n :: 0 < n <= |s| && IsCharacter(s[..n]) && WellFormed(s[n..])
  }

  // ----- The decoder -----

  /** The length and the leading bits that a first byte announces. */
  function Lead(lead: Byte): Option<(nat, nat)> {
    if lead < 0x80 then Some((1, lead))
    else if 0xC2 <= lead <= 0xDF then Some((2, lead % 32))
    else if 0xE0 <= lead <= 0xEF then Some((3, lead % 16))
    else if 0xF0 <= lead <= 0xF4 then Some((4, lead % 8))
    else None
  }

  function TailBits(s: Bytes, j: nat, length: nat, value: nat): Option<nat>
    requires j <= length <= |s|
    decreases length - j
  {
    if j == length then Some(value)
    else if s[j] / 64 != 2 then None
    else TailBits(s, j + 1, length, value * 64 + s[j] % 64)
  }

  predicate Overlong(length: nat, value: nat) {
    || (length == 2 && value < 0x80)
    || (length == 3 && value < 0x800)
    || (length == 4 && value < 0x10000)
  }

  /** The first character and its length. */
  function DecodeOne(s: Bytes): (r: Option<(nat, nat)>)
    requires s != []
    ensures r.Some? ==> 0 < r.value.1 <= |s|
  {
    var lead :- Lead(s[0]);
    var (length, bits) := lead;
    if length > |s| then None
    else
      var value :- TailBits(s, 1, length, bits);
      if length > 1 && (Overlong(length, value) || !IsScalar(value)) then None else Some((value, length))
  }

  function Decode(s: Bytes): Option<seq<nat>>
    decreases |s|
  {
    if s == [] then Some([])
    else
      var first :- DecodeOne(s);
      var rest :- Decode(s[first.1..]);
      Some([first.0] + rest)
  }

  function Prepend(out: seq<nat>, rest: Option<seq<nat>>): Option<seq<nat>> {
    if rest.None? then None else Some(out + rest.value)
  }

  method DecodeUtf8(input: Bytes) returns (r: Option<seq<nat>>)
    ensures r == Decode(input)
  {
    hide Decode, TailBits;
    var out: seq<nat> := [];
    var i := 0;
    assert input[0..] == input;
    PrependNothing(Decode(input));
    while i < |input|
      invariant 0 <= i <= |input|
      invariant Decode(input) == Prepend(out, Decode(input[i..]))
    {
      ghost var rest := input[i..];
      DecodeStep(rest);
      var lead := Lead(input[i]);
      if lead.None? {
        return None;
      }
      var length := lead.value.0;
      var value: nat := lead.value.1;
      if length > |input| - i {
        return None;
      }
      ghost var bits := value;
      for j := 1 to length
        invariant TailBits(rest, 1, length, bits) == TailBits(rest, j, length, value)
      {
        TailStep(rest, j, length, value);
        if input[i + j] / 64 != 2 {
          return None;
        }
        value := value * 64 + input[i + j] % 64;
      }
      TailStep(rest, length, length, value);
      if length > 1 && (Overlong(length, value) || !IsScalar(value)) {
        return None;
      }
      assert DecodeOne(rest) == Some((value, length));
      assert rest[length..] == input[i + length..];
      PrependTwice(out, value, Decode(input[i + length..]));
      out := out + [value];
      i := i + length;
    }
    DecodeNothing(input[i..]);
    assert out + [] == out;
    r := Some(out);
  }

  lemma PrependNothing(rest: Option<seq<nat>>)
    ensures Prepend([], rest) == rest
  {
    assert rest.Some? ==> [] + rest.value == rest.value;
  }

  lemma PrependTwice(out: seq<nat>, value: nat, rest: Option<seq<nat>>)
    ensures Prepend(out, Prepend([value], rest)) == Prepend(out + [value], rest)
  {
    if rest.Some? {
      assert out + ([value] + rest.value) == out + [value] + rest.value;
    }
  }

  lemma DecodeNothing(s: Bytes)
    ensures s == [] ==> Decode(s) == Some([])
  {
  }

  lemma DecodeStep(s: Bytes)
    requires s != []
    ensures Decode(s) == if DecodeOne(s).None? then None else Prepend([DecodeOne(s).value.0], Decode(s[DecodeOne(s).value.1..]))
  {
  }

  lemma TailStep(s: Bytes, j: nat, length: nat, value: nat)
    requires j <= length <= |s|
    ensures TailBits(s, j, length, value)
            == if j == length then Some(value) else if s[j] / 64 != 2 then None else TailBits(s, j + 1, length, value * 64 + s[j] % 64)
  {
  }

  // ----- The encoder -----

  function EncodeOne(c: nat): (s: Bytes)
    requires c <= 0x10FFFF
    ensures s != []
  {
    if c < 0x80 then [c]
    else if c < 0x800 then [0xC0 + c / 64, 0x80 + c % 64]
    else if c < 0x10000 then [0xE0 + c / 4096, 0x80 + c / 64 % 64, 0x80 + c % 64]
    else [0xF0 + c / 262144, 0x80 + c / 4096 % 64, 0x80 + c / 64 % 64, 0x80 + c % 64]
  }

  predicate AllScalars(cs: seq<nat>) {
    forall i | 0 <= i < |cs| :: IsScalar(cs[i])
  }

  function Encode(cs: seq<nat>): Bytes
    requires AllScalars(cs)
  {
    if cs == [] then []
    else
      assert forall i | 0 <= i < |cs| - 1 :: cs[1..][i] == cs[i + 1];
      EncodeOne(cs[0]) + Encode(cs[1..])
  }

  lemma {:induction false} EncodeConcat(a: seq<nat>, b: seq<nat>)
    requires AllScalars(a) && AllScalars(b)
    ensures AllScalars(a + b) && Encode(a + b) == Encode(a) + Encode(b)
  {
    hide EncodeOne;
    if a == [] {
      assert a + b == b;
    } else {
      assert (a + b)[1..] == a[1..] + b;
      EncodeConcat(a[1..], b);
    }
  }

  method AppendUtf8(out: Bytes, c: nat) returns (r: Bytes)
    requires c <= 0x10FFFF
    ensures r == out + EncodeOne(c)
  {
    if c < 0x80 {
      r := out + [c];
    } else if c < 0x800 {
      r := out + [0xC0 + c / 64];
      r := r + [0x80 + c % 64];
    } else if c < 0x10000 {
      r := out + [0xE0 + c / 4096];
      r := r + [0x80 + c / 64 % 64];
      r := r + [0x80 + c % 64];
    } else {
      r := out + [0xF0 + c / 262144];
      r := r + [0x80 + c / 4096 % 64];
      r := r + [0x80 + c / 64 % 64];
      r := r + [0x80 + c % 64];
    }
  }

  // ----- One character -----

  lemma TailUnfolded(s: Bytes, length: nat, value: nat)
    requires 1 <= length <= 4 && length <= |s|
    ensures TailBits(s, 1, length, value)
            == if length == 1 then Some(value)
               else if s[1] / 64 != 2 then None
               else if length == 2 then Some(value * 64 + s[1] % 64)
               else if s[2] / 64 != 2 then None
               else if length == 3 then Some((value * 64 + s[1] % 64) * 64 + s[2] % 64)
               else if s[3] / 64 != 2 then None
               else Some(((value * 64 + s[1] % 64) * 64 + s[2] % 64) * 64 + s[3] % 64)
  {
    TailStep(s, 1, length, value);
    if length > 1 && s[1] / 64 == 2 {
      var v := value * 64 + s[1] % 64;
      TailStep(s, 2, length, v);
      if length > 2 && s[2] / 64 == 2 {
        TailStep(s, 3, length, v * 64 + s[2] % 64);
        if length > 3 {
          TailStep(s, 4, length, (v * 64 + s[2] % 64) * 64 + s[3] % 64);
        }
      }
    }
  }

  lemma Digits(v: nat, x: nat, y: nat)
    requires y < 64 && v == 64 * x + y
    ensures v / 64 == x && v % 64 == y
  {
  }

  lemma TwoBytes(a: Byte, b: Byte)
    requires 0xC2 <= a <= 0xDF && IsTail(b)
    ensures var v := (a % 32) * 64 + b % 64; 0x80 <= v < 0x800 && EncodeOne(v) == [a, b]
  {
    Digits((a % 32) * 64 + b % 64, a % 32, b % 64);
  }

  function ThreeValue(a: Byte, b: Byte, c: Byte): nat {
    ((a % 16) * 64 + b % 64) * 64 + c % 64
  }

  lemma ThreeSextets(a: Byte, b: Byte, c: Byte)
    ensures var v := ThreeValue(a, b, c);
            v / 4096 == a % 16 && v / 64 == (a % 16) * 64 + b % 64 && v / 64 % 64 == b % 64 && v % 64 == c % 64
  {
    var x := (a % 16) * 64 + b % 64;
    Digits(x * 64 + c % 64, x, c % 64);
    Digits(x, a % 16, b % 64);
  }

  lemma ThreeGrammar(a: Byte, b: Byte, c: Byte)
    requires 0xE0 <= a <= 0xEF && IsTail(b) && IsTail(c)
    ensures var v := ThreeValue(a, b, c);
            v < 0x10000 && (v >= 0x800 && IsScalar(v) <==> IsCharacter([a, b, c]))
  {
  }

  lemma ThreeBytes(a: Byte, b: Byte, c: Byte)
    requires 0xE0 <= a <= 0xEF && IsTail(b) && IsTail(c) && ThreeValue(a, b, c) >= 0x800
    ensures EncodeOne(ThreeValue(a, b, c)) == [a, b, c]
  {
    hide ThreeValue, IsCharacter;
    ThreeGrammar(a, b, c);
    ThreeSextets(a, b, c);
  }

  function FourValue(a: Byte, b: Byte, c: Byte, d: Byte): nat {
    (((a % 8) * 64 + b % 64) * 64 + c % 64) * 64 + d % 64
  }

  lemma FourSextets(a: Byte, b: Byte, c: Byte, d: Byte)
    ensures var v := FourValue(a, b, c, d);
            v / 262144 == a % 8 && v / 4096 == (a % 8) * 64 + b % 64 && v / 4096 % 64 == b % 64
            && v / 64 % 64 == c % 64 && v % 64 == d % 64
  {
    var x := (a % 8) * 64 + b % 64;
    var y := x * 64 + c % 64;
    Digits(y * 64 + d % 64, y, d % 64);
    Digits(y, x, c % 64);
    Digits(x, a % 8, b % 64);
  }

  lemma FourGrammar(a: Byte, b: Byte, c: Byte, d: Byte)
    requires 0xF0 <= a <= 0xF4 && IsTail(b) && IsTail(c) && IsTail(d)
    ensures var v := FourValue(a, b, c, d);
            v >= 0x10000 && IsScalar(v) <==> IsCharacter([a, b, c, d])
  {
  }

  lemma FourBytes(a: Byte, b: Byte, c: Byte, d: Byte)
    requires 0xF0 <= a <= 0xF4 && IsTail(b) && IsTail(c) && IsTail(d)
    requires FourValue(a, b, c, d) >= 0x10000 && IsScalar(FourValue(a, b, c, d))
    ensures EncodeOne(FourValue(a, b, c, d)) == [a, b, c, d]
  {
    hide FourValue;
    FourSextets(a, b, c, d);
  }

  /** What an accepted first character is. */
  lemma DecodeOneMeans(s: Bytes)
    requires s != [] && DecodeOne(s).Some?
    ensures var (c, n) := DecodeOne(s).value;
            IsScalar(c) && IsCharacter(s[..n]) && EncodeOne(c) == s[..n]
  {
    hide TailBits, EncodeOne, IsCharacter;
    var (length, bits) := Lead(s[0]).value;
    TailUnfolded(s, length, bits);
    if length == 1 {
      OneByte(s[0]);
      assert s[..1] == [s[0]];
    } else if length == 2 {
      TwoBytes(s[0], s[1]);
      TwoByteCharacter(s[0], s[1]);
      assert s[..2] == [s[0], s[1]];
    } else if length == 3 {
      assert ThreeValue(s[0], s[1], s[2]) == DecodeOne(s).value.0;
      ThreeGrammar(s[0], s[1], s[2]);
      ThreeBytes(s[0], s[1], s[2]);
      assert s[..3] == [s[0], s[1], s[2]];
    } else {
      assert FourValue(s[0], s[1], s[2], s[3]) == DecodeOne(s).value.0;
      FourGrammar(s[0], s[1], s[2], s[3]);
      FourBytes(s[0], s[1], s[2], s[3]);
      assert s[..4] == [s[0], s[1], s[2], s[3]];
    }
  }

  lemma OneByte(a: Byte)
    requires a < 0x80
    ensures IsCharacter([a]) && EncodeOne(a) == [a]
  {
  }

  lemma TwoByteCharacter(a: Byte, b: Byte)
    requires 0xC2 <= a <= 0xDF && IsTail(b)
    ensures IsCharacter([a, b])
  {
  }

  /** Every character of the grammar is accepted, whatever follows. */
  lemma CharacterIsAccepted(s: Bytes, n: nat)
    requires n <= |s| && IsCharacter(s[..n])
    ensures DecodeOne(s).Some? && DecodeOne(s).value.1 == n
  {
    hide TailBits;
    assert forall i | 0 <= i < n :: s[..n][i] == s[i];
    var (length, bits) := Lead(s[0]).value;
    TailUnfolded(s, length, bits);
  }

  lemma EncodedThree(c: nat)
    requires 0x800 <= c < 0x10000 && IsScalar(c)
    ensures IsCharacter([0xE0 + c / 4096, 0x80 + c / 64 % 64, 0x80 + c % 64])
  {
    Sextets(c);
  }

  lemma EncodedFour(c: nat)
    requires 0x10000 <= c <= 0x10FFFF
    ensures IsCharacter([0xF0 + c / 262144, 0x80 + c / 4096 % 64, 0x80 + c / 64 % 64, 0x80 + c % 64])
  {
    Sextets(c);
  }

  lemma EncodedIsCharacter(c: nat)
    requires IsScalar(c)
    ensures IsCharacter(EncodeOne(c))
  {
    if 0x800 <= c < 0x10000 {
      EncodedThree(c);
    } else if 0x10000 <= c {
      EncodedFour(c);
    }
  }

  lemma Sextets(c: nat)
    ensures c == 64 * (c / 64) + c % 64
    ensures c / 64 == 64 * (c / 4096) + c / 64 % 64
    ensures c / 4096 == 64 * (c / 262144) + c / 4096 % 64
  {
  }

  lemma EncodeOneInjective(c: nat, d: nat)
    requires IsScalar(c) && IsScalar(d) && EncodeOne(c) == EncodeOne(d)
    ensures c == d
  {
    Sextets(c);
    Sextets(d);
    var s, t := EncodeOne(c), EncodeOne(d);
    assert |s| == |t| && forall i | 0 <= i < |s| :: s[i] == t[i];
  }

  lemma EncodedIsRead(c: nat, rest: Bytes)
    requires IsScalar(c)
    ensures DecodeOne(EncodeOne(c) + rest) == Some((c, |EncodeOne(c)|))
  {
    hide EncodeOne, DecodeOne, IsCharacter;
    var s, n := EncodeOne(c) + rest, |EncodeOne(c)|;
    assert s[..n] == EncodeOne(c);
    EncodedIsCharacter(c);
    CharacterIsAccepted(s, n);
    DecodeOneMeans(s);
    EncodeOneInjective(c, DecodeOne(s).value.0);
  }

  // ----- Whole strings -----

  /** The decoder accepts exactly the grammar of RFC 3629. */
  lemma {:induction false} DecodesExactlyWellFormed(s: Bytes)
    ensures Decode(s).Some? <==> WellFormed(s)
    decreases |s|
  {
    hide IsCharacter, DecodeOne;
    if s != [] {
      if WellFormed(s) {
        var n :| 0 < n <= |s| && IsCharacter(s[..n]) && WellFormed(s[n..]);
        CharacterIsAccepted(s, n);
        DecodesExactlyWellFormed(s[n..]);
      }
      if Decode(s).Some? {
        DecodeOneMeans(s);
        var n := DecodeOne(s).value.1;
        DecodesExactlyWellFormed(s[n..]);
      }
    }
  }

  /** Encoding what was decoded gives the same bytes. */
  lemma {:induction false} EncodeOfDecode(s: Bytes)
    requires Decode(s).Some?
    ensures AllScalars(Decode(s).value) && Encode(Decode(s).value) == s
    decreases |s|
  {
    hide DecodeOne, EncodeOne;
    if s != [] {
      DecodeOneMeans(s);
      var (c, n) := DecodeOne(s).value;
      EncodeOfDecode(s[n..]);
      var rest := Decode(s[n..]).value;
      assert Decode(s).value == [c] + rest;
      assert ([c] + rest)[1..] == rest;
      assert s == s[..n] + s[n..];
    }
  }

  /** Decoding what was encoded gives the same code points. */
  lemma {:induction false} DecodeOfEncode(cs: seq<nat>)
    requires AllScalars(cs)
    ensures Decode(Encode(cs)) == Some(cs)
  {
    hide DecodeOne, EncodeOne;
    if cs != [] {
      assert forall i | 0 <= i < |cs| - 1 :: cs[1..][i] == cs[i + 1];
      DecodeOfEncode(cs[1..]);
      var rest := Encode(cs[1..]);
      EncodedIsRead(cs[0], rest);
      assert (EncodeOne(cs[0]) + rest)[|EncodeOne(cs[0])|..] == rest;
      assert cs == [cs[0]] + cs[1..];
    }
  }
}
