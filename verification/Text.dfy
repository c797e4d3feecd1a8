/** Text helpers that several components share: ASCII case, white space, words.

    A string is a sequence of bytes, written as characters.
  */
module Text {

  function Lower(c: char): char {
    if 'A' <= c <= 'Z' then c - 'A' + 'a' else c
  }

  function LowerAll(s: string): (r: string)
    ensures |r| == |s|
    ensures forall i | 0 <= i < |s| :: r[i] == Lower(s[i])
  {
    if s == "" then "" else [Lower(s[0])] + LowerAll(s[1..])
  }

  lemma LowerAgain(s: string)
    ensures LowerAll(LowerAll(s)) == LowerAll(s)
  {
  }

  lemma LowerConcat(a: string, b: string)
    ensures LowerAll(a + b) == LowerAll(a) + LowerAll(b)
  {
  }

  lemma LowerFixed(s: string)
    requires forall c | c in s :: !('A' <= c <= 'Z')
    ensures LowerAll(s) == s
  {
    assert forall i | 0 <= i < |s| :: s[i] in s;
  }

  predicate IsSpace(c: char) {
    c == ' ' || '\t' <= c <= '\r'
  }

  predicate IsDigit(c: char) {
    '0' <= c <= '9'
  }

  predicate AllDigits(s: string) {
    s != "" && forall c | c in s :: IsDigit(c)
  }

  lemma LowerKeepsDigits(s: string)
    ensures AllDigits(LowerAll(s)) <==> AllDigits(s)
    ensures AllDigits(s) ==> LowerAll(s) == s
  {
    var t := LowerAll(s);
    assert forall i | 0 <= i < |s| :: s[i] in s && t[i] in t;
  }

  // ----- Trimming -----

  function TrimLeft(s: string): (r: string)
    ensures r == "" || !IsSpace(r[0])
  {
    if s != "" && IsSpace(s[0]) then TrimLeft(s[1..]) else s
  }

  function TrimRight(s: string): (r: string)
    ensures r <= s
    ensures r == "" || !IsSpace(r[|r| - 1])
  {
    if s != "" && IsSpace(s[|s| - 1]) then TrimRight(s[..|s| - 1]) else s
  }

  function Trim(s: string): string {
    TrimRight(TrimLeft(s))
  }

  /** The two scanning loops of the source. */
  method TrimAscii(s: string) returns (r: string)
    ensures r == Trim(s)
  {
    hide TrimLeft, TrimRight, IsSpace;
    var first := 0;
    assert s[0..] == s;
    while first < |s| && IsSpace(s[first])
      invariant 0 <= first <= |s|
      invariant TrimLeft(s) == TrimLeft(s[first..])
    {
      TrimLeftStep(s[first..]);
      assert s[first..][1..] == s[first + 1..];
      first := first + 1;
    }
    TrimLeftStep(s[first..]);
    var last := |s|;
    assert s[first..last] == s[first..];
    while last > first && IsSpace(s[last - 1])
      invariant first <= last <= |s|
      invariant TrimRight(s[first..]) == TrimRight(s[first..last])
    {
      TrimRightStep(s[first..last]);
      assert s[first..last][..last - first - 1] == s[first..last - 1];
      last := last - 1;
    }
    TrimRightStep(s[first..last]);
    r := s[first..last];
  }

  lemma TrimLeftStep(s: string)
    ensures TrimLeft(s) == if s != "" && IsSpace(s[0]) then TrimLeft(s[1..]) else s
  {
  }

  lemma TrimRightStep(s: string)
    ensures TrimRight(s) == if s != "" && IsSpace(s[|s| - 1]) then TrimRight(s[..|s| - 1]) else s
  {
  }

  lemma {:induction false} TrimLeftIsSuffix(s: string) returns (k: nat)
    ensures k <= |s| && TrimLeft(s) == s[k..]
  {
    if s != "" && IsSpace(s[0]) {
      var j := TrimLeftIsSuffix(s[1..]);
      k := j + 1;
    } else {
      k := 0;
    }
  }

  lemma TrimIsSlice(s: string) returns (a: nat, b: nat)
    ensures a <= b <= |s| && Trim(s) == s[a..b]
  {
    a := TrimLeftIsSuffix(s);
    b := a + |Trim(s)|;
    assert s[a..b] == s[a..][..b - a];
  }

  predicate IsTrimmed(s: string) {
    s == "" || (!IsSpace(s[0]) && !IsSpace(s[|s| - 1]))
  }

  lemma TrimIsTrimmed(s: string)
    ensures IsTrimmed(Trim(s))
  {
    var t := TrimLeft(s);
    var r := TrimRight(t);
    if r != "" {
      assert r[0] == t[0];
    }
  }

  lemma TrimPadded(s: string, left: string, right: string)
    requires IsTrimmed(s)
    requires (forall c | c in left :: IsSpace(c)) && (forall c | c in right :: IsSpace(c))
    ensures Trim(left + s + right) == s
  {
    if s == "" {
      assert left + s + right == left + right;
      SkipSpaces(left + right, "");
      assert left + right + "" == left + right;
    } else {
      assert left + s + right == left + (s + right);
      SkipSpaces(left, s + right);
      assert TrimLeft(s + right) == s + right;
      DropSpaces(s, right);
    }
  }

  lemma {:induction false} SkipSpaces(left: string, s: string)
    requires forall c | c in left :: IsSpace(c)
    ensures TrimLeft(left + s) == TrimLeft(s)
  {
    if left == "" {
      assert left + s == s;
    } else {
      assert (left + s)[1..] == left[1..] + s;
      SkipSpaces(left[1..], s);
    }
  }

  lemma {:induction false} DropSpaces(s: string, right: string)
    requires forall c | c in right :: IsSpace(c)
    ensures TrimRight(s + right) == TrimRight(s)
  {
    if right == "" {
      assert s + right == s;
    } else {
      assert (s + right)[..|s + right| - 1] == s + right[..|right| - 1];
      DropSpaces(s, right[..|right| - 1]);
    }
  }

  // ----- Words -----

  predicate IsWord(s: string) {
    s != "" && forall i | 0 <= i < |s| :: !IsSpace(s[i])
  }

  function WordLength(s: string): (n: nat)
    ensures n <= |s|
    ensures forall i | 0 <= i < n :: !IsSpace(s[i])
    ensures n == |s| || IsSpace(s[n])
  {
    if s == "" || IsSpace(s[0]) then 0 else 1 + WordLength(s[1..])
  }

  /** The words that repeated formatted input extracts. */
  function Words(s: string): (r: seq<string>)
    ensures forall w | w in r :: IsWord(w)
    decreases |s|
  {
    if s == "" then []
    else if IsSpace(s[0]) then Words(s[1..])
    else
      var n := WordLength(s);
      [s[..n]] + Words(s[n..])
  }

  function Join(words: seq<string>): string {
    if words == [] then ""
    else if |words| == 1 then words[0]
    else words[0] + " " + Join(words[1..])
  }

  lemma {:induction false} WordLengthOfWord(w: string, rest: string)
    requires forall i | 0 <= i < |w| :: !IsSpace(w[i])
    requires rest == "" || IsSpace(rest[0])
    ensures WordLength(w + rest) == |w|
  {
    if w == "" {
      assert w + rest == rest;
    } else {
      assert (w + rest)[1..] == w[1..] + rest;
      WordLengthOfWord(w[1..], rest);
    }
  }

  lemma WordFirst(w: string, rest: string)
    requires IsWord(w) && (rest == "" || IsSpace(rest[0]))
    ensures Words(w + rest) == [w] + Words(rest)
  {
    WordLengthOfWord(w, rest);
    assert (w + rest)[..|w|] == w && (w + rest)[|w|..] == rest;
    assert (w + rest)[0] == w[0];
  }

  /** Joining words with single spaces and reading them back is the identity. */
  lemma {:induction false} WordsOfJoin(words: seq<string>)
    requires forall w | w in words :: IsWord(w)
    ensures Words(Join(words)) == words
  {
    if words != [] {
      var w, tail := words[0], words[1..];
      assert w in words;
      assert forall v | v in tail :: v in words;
      WordsOfJoin(tail);
      if tail == [] {
        WordFirst(w, "");
        assert w + "" == w;
      } else {
        var rest := " " + Join(tail);
        assert Join(words) == w + rest;
        WordFirst(w, rest);
        assert rest[1..] == Join(tail);
      }
      assert words == [w] + tail;
    }
  }

  lemma {:induction false} JoinConcat(a: seq<string>, b: seq<string>)
    ensures Join(a + b) == if a == [] then Join(b) else if b == [] then Join(a) else Join(a) + " " + Join(b)
  {
    if a == [] {
      assert a + b == b;
    } else if b == [] {
      assert a + b == a;
    } else {
      assert (a + b)[1..] == a[1..] + b;
      JoinConcat(a[1..], b);
      if |a| > 1 {
        assert a[0] + " " + (Join(a[1..]) + " " + Join(b)) == a[0] + " " + Join(a[1..]) + " " + Join(b);
      }
    }
  }

  lemma JoinIsEmpty(words: seq<string>)
    requires forall w | w in words :: IsWord(w)
    ensures Join(words) == "" <==> words == []
  {
    if words != [] {
      assert words[0] in words;
    }
  }

  // ----- Numbers -----

  function Digit(n: nat): char
    requires n < 10
  {
    '0' + n as char
  }

  function Decimal(n: nat): (s: string)
    ensures AllDigits(s)
  {
    if n < 10 then [Digit(n)] else Decimal(n / 10) + [Digit(n % 10)]
  }

  function Number(s: string): nat
    requires forall c | c in s :: IsDigit(c)
  {
    if s == "" then 0
    else
      assert s[|s| - 1] in s && IsDigit(s[|s| - 1]);
      10 * Number(s[..|s| - 1]) + (s[|s| - 1] as nat - '0' as nat)
  }

  lemma {:induction false} NumberOfDecimal(n: nat)
    ensures Number(Decimal(n)) == n
  {
    var s := Decimal(n);
    if n < 10 {
      assert s[..0] == "";
    } else {
      NumberOfDecimal(n / 10);
      assert s[..|s| - 1] == Decimal(n / 10);
    }
  }
}
