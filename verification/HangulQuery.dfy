/** Composition of Hangul in content queries, after section 3.12 of the Unicode Standard. */
module HangulQuery {

  import opened Results
  import opened Utf8

  const L_BASE := 0x1100
  const V_BASE := 0x1161
  const T_BASE := 0x11A7
  const S_BASE := 0xAC00
  const L_COUNT := 19
  const V_COUNT := 21
  const T_COUNT := 28
  const S_COUNT := 11172

  predicate IsL(c: nat) { L_BASE <= c < L_BASE + L_COUNT }

  predicate IsV(c: nat) { V_BASE <= c < V_BASE + V_COUNT }

  predicate IsT(c: nat) { T_BASE < c < T_BASE + T_COUNT }

  predicate IsSyllable(c: nat) { S_BASE <= c < S_BASE + S_COUNT }

  /** A syllable without a trailing consonant. */
  predicate IsLV(c: nat) { IsSyllable(c) && (c - S_BASE) % T_COUNT == 0 }

  // ----- Decomposition -----

  /** The canonical decomposition of one code point, for Hangul. */
  function Parts(c: nat): (parts: seq<nat>)
    ensures parts != []
  {
    if !IsSyllable(c) then [c]
    else
      var i := c - S_BASE;
      var front := [L_BASE + i / 588, V_BASE + i % 588 / T_COUNT];
      if i % T_COUNT == 0 then front else front + [T_BASE + i % T_COUNT]
  }

  function Decompose(cs: seq<nat>): seq<nat> {
    if cs == [] then [] else Decompose(cs[..|cs| - 1]) + Parts(cs[|cs| - 1])
  }

  // ----- Composition -----

  function Syllable(l: nat, v: nat): nat
    requires IsL(l) && IsV(v)
  {
    S_BASE + ((l - L_BASE) * V_COUNT + v - V_BASE) * T_COUNT
  }

  /** The next code point joins the last one, or follows it. */
  function Push(out: seq<nat>, c: nat): seq<nat> {
    if out != [] && IsL(out[|out| - 1]) && IsV(c) then out[..|out| - 1] + [Syllable(out[|out| - 1], c)]
    else if out != [] && IsLV(out[|out| - 1]) && IsT(c) then out[..|out| - 1] + [out[|out| - 1] + c - T_BASE]
    else out + [c]
  }

  function PushAll(out: seq<nat>, cs: seq<nat>): seq<nat> {
    if cs == [] then out else Push(PushAll(out, cs[..|cs| - 1]), cs[|cs| - 1])
  }

  function Compose(cs: seq<nat>): seq<nat> {
    PushAll([], cs)
  }

  method ComposeInPlace(decoded: seq<nat>) returns (composed: seq<nat>)
    ensures composed == Compose(decoded)
  {
    composed := [];
    for i := 0 to |decoded|
      invariant composed == Compose(decoded[..i])
    {
      assert decoded[..i + 1][..i] == decoded[..i];
      var c := decoded[i];
      if composed != [] {
        var last := |composed| - 1;
        var previous := composed[last];
        if L_BASE <= previous < L_BASE + L_COUNT && V_BASE <= c < V_BASE + V_COUNT {
          composed := composed[last := S_BASE + ((previous - L_BASE) * V_COUNT + c - V_BASE) * T_COUNT];
          continue;
        }
        if S_BASE <= previous < S_BASE + S_COUNT && (previous - S_BASE) % T_COUNT == 0 && T_BASE < c < T_BASE + T_COUNT {
          composed := composed[last := previous + c - T_BASE];
          continue;
        }
      }
      composed := composed + [c];
    }
    assert decoded[..|decoded|] == decoded;
  }

  // ----- Composition keeps the decomposition -----

  lemma PartsOfSyllable(l: nat, v: nat)
    requires IsL(l) && IsV(v)
    ensures IsLV(Syllable(l, v)) && Parts(Syllable(l, v)) == [l, v]
  {
    var x, y := l - L_BASE, v - V_BASE;
    var i := Syllable(l, v) - S_BASE;
    assert i == 588 * x + 28 * y && 28 * y < 588;
    assert i / 588 == x && i % 588 == 28 * y;
    assert i == 28 * (21 * x + y) && i % 28 == 0;
  }

  lemma PartsWithTrailing(s: nat, t: nat)
    requires IsLV(s) && IsT(t)
    ensures IsSyllable(s + t - T_BASE) && !IsLV(s + t - T_BASE) && Parts(s + t - T_BASE) == Parts(s) + [t]
  {
    var i, k := s - S_BASE, t - T_BASE;
    assert (i + k) % 28 == k && i % 588 % 28 == 0;
    assert (i + k) / 588 == i / 588 && (i + k) % 588 == i % 588 + k;
    assert (i % 588 + k) / 28 == i % 588 / 28;
  }

  lemma DecomposeOne(cs: seq<nat>, c: nat)
    ensures Decompose(cs + [c]) == Decompose(cs) + Parts(c)
  {
    assert (cs + [c])[..|cs + [c]| - 1] == cs;
  }

  lemma DecomposePush(out: seq<nat>, c: nat)
    ensures Decompose(Push(out, c)) == Decompose(out) + Parts(c)
  {
    hide Parts, Decompose, Syllable, IsLV;
    DecomposeOne(out, c);
    if out != [] {
      var front, last := out[..|out| - 1], out[|out| - 1];
      assert out == front + [last];
      DecomposeOne(front, last);
      PlainParts(c);
      PlainParts(last);
      if IsL(last) && IsV(c) {
        PartsOfSyllable(last, c);
        DecomposeOne(front, Syllable(last, c));
      } else if IsLV(last) && IsT(c) {
        PartsWithTrailing(last, c);
        DecomposeOne(front, last + c - T_BASE);
      }
    }
  }

  lemma PlainParts(c: nat)
    ensures !IsSyllable(c) ==> Parts(c) == [c]
    ensures IsL(c) || IsV(c) || IsT(c) ==> !IsSyllable(c)
  {
  }

  /** Composing does not change the canonical decomposition. */
  lemma {:induction false} DecomposeOfCompose(cs: seq<nat>)
    ensures Decompose(Compose(cs)) == Decompose(cs)
  {
    hide Parts, Push;
    if cs != [] {
      DecomposeOfCompose(cs[..|cs| - 1]);
      DecomposePush(Compose(cs[..|cs| - 1]), cs[|cs| - 1]);
    }
  }

  // ----- Composition depends on the decomposition only -----

  lemma {:induction false} PushAllConcat(out: seq<nat>, a: seq<nat>, b: seq<nat>)
    ensures PushAll(out, a + b) == PushAll(PushAll(out, a), b)
  {
    hide Push;
    if b == [] {
      assert a + b == a;
    } else {
      assert (a + b)[..|a + b| - 1] == a + b[..|b| - 1];
      PushAllConcat(out, a, b[..|b| - 1]);
    }
  }

  lemma PushOne(out: seq<nat>, c: nat)
    ensures PushAll(out, [c]) == Push(out, c)
  {
    assert [c][..0] == [];
  }

  /** A syllable is put together again from its parts. */
  lemma SyllableOfParts(c: nat)
    requires IsSyllable(c)
    ensures var i := c - S_BASE;
            var l, v := L_BASE + i / 588, V_BASE + i % 588 / T_COUNT;
            IsL(l) && IsV(v) && Syllable(l, v) + i % T_COUNT == c
            && Parts(c) == if i % T_COUNT == 0 then [l, v] else [l, v] + [T_BASE + i % T_COUNT]
  {
    var i := c - S_BASE;
    assert i == 588 * (i / 588) + i % 588;
    assert i % 588 == 28 * (i % 588 / 28) + i % 588 % 28 && i % 588 % 28 == i % 28;
  }

  lemma PushParts(out: seq<nat>, c: nat)
    ensures PushAll(out, Parts(c)) == Push(out, c)
  {
    hide PushAll, Parts, Syllable, IsLV;
    if IsSyllable(c) {
      SyllableOfParts(c);
      var i := c - S_BASE;
      var l, v := L_BASE + i / 588, V_BASE + i % 588 / T_COUNT;
      var t := T_BASE + i % T_COUNT;
      PushAllConcat(out, [l], [v]);
      assert [l] + [v] == [l, v];
      PushOne(out, l);
      PushOne(out + [l], v);
      var joined := out + [Syllable(l, v)];
      assert PushAll(out, [l, v]) == joined;
      PartsOfSyllable(l, v);
      PushAllConcat(out, [l, v], [t]);
      PushOne(joined, t);
      assert Push(out, c) == out + [c];
    } else {
      PlainParts(c);
      PushOne(out, c);
    }
  }

  /** Composing the decomposition gives the same as composing. */
  lemma {:induction false} ComposeOfDecompose(cs: seq<nat>)
    ensures Compose(Decompose(cs)) == Compose(cs)
  {
    hide Parts, Push;
    if cs != [] {
      var front, last := cs[..|cs| - 1], cs[|cs| - 1];
      ComposeOfDecompose(front);
      PushAllConcat([], Decompose(front), Parts(last));
      PushParts(Compose(front), last);
    }
  }

  /** Composition decides canonical equivalence. */
  lemma ComposeDecidesEquivalence(x: seq<nat>, y: seq<nat>)
    ensures Compose(x) == Compose(y) <==> Decompose(x) == Decompose(y)
  {
    hide Compose, Decompose;
    DecomposeOfCompose(x);
    DecomposeOfCompose(y);
    ComposeOfDecompose(x);
    ComposeOfDecompose(y);
  }

  // ----- Nothing is left to compose -----

  predicate Composable(a: nat, b: nat) {
    (IsL(a) && IsV(b)) || (IsLV(a) && IsT(b))
  }

  ghost predicate Settled(cs: seq<nat>) {
    forall i | 0 < i < |cs| :: !Composable(cs[i - 1], cs[i])
  }

  lemma PushSettled(out: seq<nat>, c: nat)
    requires Settled(out)
    ensures Settled(Push(out, c))
    ensures out == [] || !Composable(out[|out| - 1], c) ==> Push(out, c) == out + [c]
  {
    hide Syllable, IsLV;
    var r := Push(out, c);
    forall i | 0 < i < |r|
      ensures !Composable(r[i - 1], r[i])
    {
      if out != [] && |r| == |out| {
        var last := out[|out| - 1];
        if IsL(last) && IsV(c) {
          PartsOfSyllable(last, c);
        } else {
          PartsWithTrailing(last, c);
        }
        assert IsSyllable(r[|r| - 1]) by {
          LVIsSyllable(r[|r| - 1]);
        }
        PlainParts(r[|r| - 1]);
      }
      assert i < |out| ==> !Composable(out[i - 1], out[i]);
    }
  }

  lemma LVIsSyllable(c: nat)
    ensures IsLV(c) ==> IsSyllable(c)
  {
  }

  /** No two neighbours of the result could be composed. */
  lemma {:induction false} ComposeSettles(cs: seq<nat>)
    ensures Settled(Compose(cs))
  {
    hide Push;
    if cs != [] {
      ComposeSettles(cs[..|cs| - 1]);
      PushSettled(Compose(cs[..|cs| - 1]), cs[|cs| - 1]);
    }
  }

  /** What has no composable neighbours is left as it is. */
  lemma {:induction false} ComposeOfSettled(cs: seq<nat>)
    requires Settled(cs)
    ensures Compose(cs) == cs
  {
    hide Push, Composable;
    if cs != [] {
      var front, last := cs[..|cs| - 1], cs[|cs| - 1];
      assert forall i | 0 <= i < |front| :: front[i] == cs[i];
      ComposeOfSettled(front);
      PushSettled(front, last);
      assert cs == front + [last];
    }
  }

  /** The result is the only settled text with the same decomposition. */
  lemma ComposeIsTheSettledForm(x: seq<nat>, y: seq<nat>)
    ensures Settled(y) && Decompose(y) == Decompose(x) <==> y == Compose(x)
  {
    hide Compose, Decompose, Settled;
    DecomposeOfCompose(x);
    ComposeSettles(x);
    if Settled(y) && Decompose(y) == Decompose(x) {
      ComposeOfSettled(y);
      ComposeDecidesEquivalence(x, y);
    }
  }

  lemma {:induction false} ComposeKeepsScalars(cs: seq<nat>)
    requires AllScalars(cs)
    ensures AllScalars(Compose(cs))
  {
    if cs != [] {
      ComposeKeepsScalars(cs[..|cs| - 1]);
    }
  }

  // ----- Bytes -----

  predicate PairAt(s: Bytes, i: nat) {
    i + 1 < |s| && s[i] == 0xE1 && 0x84 <= s[i + 1] <= 0x86
  }

  /** Whether one of the searched-for byte pairs occurs. */
  predicate HasPair(s: Bytes) {
    exists i | 0 <= i < |s| :: PairAt(s, i)
  }

  /** Decoding, composing and encoding, without a shortcut. */
  function FullCompose(input: Bytes): Bytes {
    var decoded := Decode(input);
    if decoded.None? then input
    else
      EncodeOfDecode(input);
      ComposeKeepsScalars(decoded.value);
      Encode(Compose(decoded.value))
  }

  function ComposeQuery(input: Bytes): Bytes {
    if HasPair(input) then FullCompose(input) else input
  }

  method ComposeHangulQueryNfc(input: Bytes) returns (result: Bytes)
    ensures result == ComposeQuery(input)
  {
    hide Compose, Encode, Decode;
    if !HasPair(input) {
      return input;
    }
    var decoded := DecodeUtf8(input);
    if decoded.None? {
      return input;
    }
    EncodeOfDecode(input);
    ComposeKeepsScalars(decoded.value);
    var composed := ComposeInPlace(decoded.value);
    result := [];
    EncodeNothing();
    for i := 0 to |composed|
      invariant AllScalars(composed[..i]) && result == Encode(composed[..i])
    {
      assert composed[..i + 1] == composed[..i] + [composed[i]];
      assert AllScalars([composed[i]]);
      EncodeConcat(composed[..i], [composed[i]]);
      EncodeSingle(composed[i]);
      result := AppendUtf8(result, composed[i]);
    }
    assert composed[..|composed|] == composed;
  }

  lemma EncodeNothing()
    ensures Encode([]) == []
  {
  }

  lemma EncodeSingle(c: nat)
    requires IsScalar(c) && AllScalars([c])
    ensures Encode([c]) == EncodeOne(c)
  {
    hide EncodeOne;
    assert [c][1..] == [];
    assert EncodeOne(c) + [] == EncodeOne(c);
  }

  lemma ComposedIsRead(input: Bytes)
    requires Decode(input).Some?
    ensures Decode(FullCompose(input)) == Some(Compose(Decode(input).value))
  {
    hide Decode, Compose, Encode;
    EncodeOfDecode(input);
    ComposeKeepsScalars(Decode(input).value);
    DecodeOfEncode(Compose(Decode(input).value));
  }

  /** Composing twice is composing once, for every byte string. */
  lemma ComposeQueryIdempotent(input: Bytes)
    ensures ComposeQuery(ComposeQuery(input)) == ComposeQuery(input)
  {
    hide Decode, Compose, Encode, HasPair;
    if HasPair(input) && Decode(input).Some? {
      var cs := Decode(input).value;
      ComposedIsRead(input);
      ComposeSettles(cs);
      ComposeOfSettled(Compose(cs));
    }
  }

  /** U+1112 U+1161 U+11AB is the syllable U+D55C, and back. */
  lemma KnownSyllable()
    ensures Compose([0x1112, 0x1161, 0x11AB]) == [0xD55C] && Parts(0xD55C) == [0x1112, 0x1161, 0x11AB]
  {
    var cs := [0x1112, 0x1161, 0x11AB];
    assert cs[..2] == [0x1112, 0x1161] && cs[..2][..1] == [0x1112];
    PushOne([], 0x1112);
    assert PushAll([], cs[..2]) == [0xD558];
  }

  // ----- The shortcut -----

  predicate IsSearched(c: nat) {
    0x1100 <= c < 0x11C0
  }

  lemma FirstPair(s: Bytes)
    requires s != [] && DecodeOne(s).Some?
    ensures PairAt(s, 0) <==> IsSearched(DecodeOne(s).value.0)
    ensures forall i | 0 < i < DecodeOne(s).value.1 :: !PairAt(s, i)
  {
    hide DecodeOne;
    var (c, n) := DecodeOne(s).value;
    DecodeOneMeans(s);
    Sextets(c);
    assert forall i | 0 <= i < n :: s[i] == EncodeOne(c)[i];
    if s[0] == 0xE1 {
      LeadE1(s, c, n);
    }
  }

  lemma LeadE1(s: Bytes, c: nat, n: nat)
    requires s != [] && s[0] == 0xE1 && IsScalar(c) && n <= |s| && EncodeOne(c) == s[..n]
    ensures n == 3 && s[1] == 0x80 + c / 64 % 64 && c / 4096 == 1
  {
    assert s[..n][0] == s[0];
    assert n > 1 ==> s[..n][1] == s[1];
  }

  /** The searched-for pairs stand for exactly the jamo below U+11C0. */
  lemma {:induction false} PairIffSearched(s: Bytes)
    requires Decode(s).Some?
    ensures HasPair(s) <==> exists c :: c in Decode(s).value && IsSearched(c)
    decreases |s|
  {
    hide DecodeOne, PairAt, IsSearched;
    if s != [] {
      var (c, n) := DecodeOne(s).value;
      var tail := s[n..];
      PairIffSearched(tail);
      FirstPair(s);
      assert Decode(s).value == [c] + Decode(tail).value;
      forall i | 0 <= i < |tail|
        ensures PairAt(tail, i) <==> PairAt(s, n + i)
      {
        PairShift(s, n, i);
      }
      if HasPair(s) {
        var i :| 0 <= i < |s| && PairAt(s, i);
        if i >= n {
          assert PairAt(tail, i - n);
        }
      }
    }
  }

  lemma PairShift(s: Bytes, n: nat, i: nat)
    requires n <= |s|
    ensures PairAt(s[n..], i) <==> PairAt(s, n + i)
  {
  }

  predicate LateTrailing(c: nat) {
    0x11C0 <= c <= 0x11C2
  }

  ghost predicate MissedAt(cs: seq<nat>, i: nat) {
    0 < i < |cs| && IsLV(cs[i - 1]) && LateTrailing(cs[i])
  }

  /** The shortcut is harmless unless the text is well-formed, has none of the searched-for
      pairs, and has a syllable followed by one of the trailing consonants U+11C0 to U+11C2,
      which the search leaves out. */
  lemma ShortcutIsFullIff(input: Bytes)
    ensures ComposeQuery(input) == FullCompose(input)
            <==> HasPair(input) || Decode(input).None? || forall i: nat :: !MissedAt(Decode(input).value, i)
  {
    hide Decode, Compose, Encode, HasPair, IsLV;
    if !HasPair(input) && Decode(input).Some? {
      var cs := Decode(input).value;
      EncodeOfDecode(input);
      PairIffSearched(input);
      ComposedIsRead(input);
      if forall i: nat :: !MissedAt(cs, i) {
        assert Settled(cs) by {
          forall i | 0 < i < |cs|
            ensures !Composable(cs[i - 1], cs[i])
          {
            assert !IsSearched(cs[i - 1]) && !IsSearched(cs[i]) && !MissedAt(cs, i);
          }
        }
        ComposeOfSettled(cs);
      } else {
        var i: nat :| MissedAt(cs, i);
        ComposeSettles(cs);
        assert Composable(cs[i - 1], cs[i]);
        assert Compose(cs) != cs;
      }
    }
  }

  predicate LateBytesAt(s: Bytes, i: nat) {
    i + 2 < |s| && s[i] == 0xE1 && s[i + 1] == 0x87 && 0x80 <= s[i + 2] <= 0x82
  }

  lemma {:induction false} LateBytes(s: Bytes, c: nat)
    requires Decode(s).Some? && c in Decode(s).value && LateTrailing(c)
    ensures exists i: nat :: LateBytesAt(s, i)
    decreases |s|
  {
    hide DecodeOne, EncodeOne;
    var (d, n) := DecodeOne(s).value;
    DecodeOneMeans(s);
    if d == c {
      LateEncoding(c);
      assert forall i | 0 <= i < n :: s[i] == s[..n][i];
      assert LateBytesAt(s, 0);
    } else {
      LateBytes(s[n..], c);
      var i: nat :| LateBytesAt(s[n..], i);
      assert LateBytesAt(s, n + i);
    }
  }

  lemma LateEncoding(c: nat)
    requires LateTrailing(c)
    ensures EncodeOne(c) == [0xE1, 0x87, 0x80 + (c - 0x11C0)]
  {
  }

  /** Inputs without the bytes E1 87 80 to E1 87 82 are always composed in full. */
  lemma ShortcutIsFullWithoutLateTrailing(input: Bytes)
    requires forall i: nat :: !LateBytesAt(input, i)
    ensures ComposeQuery(input) == FullCompose(input)
  {
    hide Decode, Compose, Encode, HasPair, IsLV, FullCompose;
    ShortcutIsFullIff(input);
    if Decode(input).Some? {
      var cs := Decode(input).value;
      forall i: nat
        ensures !MissedAt(cs, i)
      {
        if MissedAt(cs, i) {
          LateBytes(input, cs[i]);
        }
      }
    }
  }

  /** U+AC00 and U+11C0: left as they are, though they compose to U+AC19. */
  const MISSED: Bytes := [0xEA, 0xB0, 0x80, 0xE1, 0x87, 0x80]

  lemma MissedEncoding()
    ensures AllScalars([0xAC00, 0x11C0]) && Encode([0xAC00, 0x11C0]) == MISSED
  {
    hide EncodeOne, Encode;
    MissedBytes();
    var a, b := [0xAC00], [0x11C0];
    assert a + b == [0xAC00, 0x11C0];
    EncodeSingle(0xAC00);
    EncodeSingle(0x11C0);
    EncodeConcat(a, b);
  }

  lemma MissedBytes()
    ensures EncodeOne(0xAC00) == [0xEA, 0xB0, 0x80] && EncodeOne(0x11C0) == [0xE1, 0x87, 0x80]
    ensures EncodeOne(0xAC19) == [0xEA, 0xB0, 0x99]
  {
  }

  lemma MissedComposition()
    ensures Compose([0xAC00, 0x11C0]) == [0xAC19]
  {
    var cs := [0xAC00, 0x11C0];
    assert cs[..1] == [0xAC00];
    PushOne([], 0xAC00);
  }

  lemma ShortcutMissesLateTrailing()
    ensures ComposeQuery(MISSED) == MISSED && FullCompose(MISSED) == [0xEA, 0xB0, 0x99]
  {
    hide Compose, Encode, EncodeOne, Decode;
    MissedEncoding();
    MissedComposition();
    DecodeOfEncode([0xAC00, 0x11C0]);
    EncodeSingle(0xAC19);
    MissedBytes();
  }
}
