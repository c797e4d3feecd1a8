/** Which file names may be shown: a case-insensitive binary search in a sorted table.

    The table of extensions and the list of names without extension are parameters.
    Characters are bytes; whether they compare as signed numbers depends on the platform
    and is a parameter too.
  */
module SearchableFiles {

  import opened Results
  import opened Text

  predicate IsBytes(s: string) {
    forall c | c in s :: c as int < 256
  }

  function Rank(signed: bool, c: char): int {
    if signed && c as int >= 128 then c as int - 256 else c as int
  }

  /** Lexicographic comparison: negative, zero or positive. */
  function Compare(signed: bool, a: string, b: string): (r: int)
    ensures -1 <= r <= 1
  {
    if a == "" then if b == "" then 0 else -1
    else if b == "" then 1
    else if a[0] != b[0] then if Rank(signed, a[0]) < Rank(signed, b[0]) then -1 else 1
    else Compare(signed, a[1..], b[1..])
  }

  lemma TailIsBytes(s: string)
    requires IsBytes(s) && s != ""
    ensures s[0] as int < 256 && IsBytes(s[1..])
  {
    assert s[0] in s && forall c | c in s[1..] :: c in s;
  }

  lemma {:induction false} CompareIsEquality(signed: bool, a: string, b: string)
    ensures Compare(signed, a, b) == 0 <==> a == b
  {
    hide Rank;
    if a != "" && b != "" {
      CompareIsEquality(signed, a[1..], b[1..]);
      assert a == [a[0]] + a[1..] && b == [b[0]] + b[1..];
    }
  }

  lemma {:induction false} CompareIsTransitive(signed: bool, a: string, b: string, c: string)
    requires IsBytes(a) && IsBytes(b) && IsBytes(c)
    requires Compare(signed, a, b) < 0 && Compare(signed, b, c) <= 0
    ensures Compare(signed, a, c) < 0
  {
    if a != "" && b != "" && c != "" {
      TailIsBytes(a);
      TailIsBytes(b);
      TailIsBytes(c);
      if a[0] == b[0] && b[0] == c[0] {
        CompareIsTransitive(signed, a[1..], b[1..], c[1..]);
      }
    }
  }

  lemma {:induction false} CompareIsOpposite(signed: bool, a: string, b: string)
    requires IsBytes(a) && IsBytes(b)
    ensures Compare(signed, a, b) == -Compare(signed, b, a)
  {
    if a != "" && b != "" {
      TailIsBytes(a);
      TailIsBytes(b);
      CompareIsOpposite(signed, a[1..], b[1..]);
    }
  }

  /** Strictly increasing, in lower case. */
  ghost predicate IsTable(signed: bool, table: seq<string>) {
    && (forall i | 0 <= i < |table| :: IsBytes(table[i]) && LowerAll(table[i]) == table[i])
    && forall i, j | 0 <= i < j < |table| :: Compare(signed, table[i], table[j]) < 0
  }

  // ----- The source's loops -----

  method EqualsAsciiCi(a: string, b: string) returns (r: bool)
    ensures r <==> LowerAll(a) == LowerAll(b)
  {
    hide LowerAll;
    ghost var x, y := LowerAll(a), LowerAll(b);
    if |a| != |b| {
      return false;
    }
    for i := 0 to |a|
      invariant x[..i] == y[..i]
    {
      if Lower(a[i]) != Lower(b[i]) {
        assert x[i] != y[i];
        return false;
      }
      assert x[..i + 1] == x[..i] + [x[i]] && y[..i + 1] == y[..i] + [y[i]];
    }
    assert x[..|a|] == x && y[..|a|] == y;
    r := true;
  }

  /** One comparison of the search: the suffix in lower case against a candidate. */
  method CompareSuffix(signed: bool, suffix: string, candidate: string) returns (compare: int)
    ensures compare == Compare(signed, LowerAll(suffix), candidate)
  {
    hide Rank, LowerAll, Compare;
    ghost var lower := LowerAll(suffix);
    var length := if |suffix| < |candidate| then |suffix| else |candidate|;
    compare := 0;
    assert lower[0..] == lower && candidate[0..] == candidate;
    for i := 0 to length
      invariant compare == 0
      invariant Compare(signed, lower, candidate) == Compare(signed, lower[i..], candidate[i..])
    {
      CompareStep(signed, lower[i..], candidate[i..]);
      assert lower[i..][1..] == lower[i + 1..] && candidate[i..][1..] == candidate[i + 1..];
      var lhs, rhs := Lower(suffix[i]), candidate[i];
      if lhs != rhs {
        return if Rank(signed, lhs) < Rank(signed, rhs) then -1 else 1;
      }
    }
    CompareStep(signed, lower[length..], candidate[length..]);
    if |suffix| != |candidate| {
      compare := if |suffix| < |candidate| then -1 else 1;
    }
  }

  lemma CompareStep(signed: bool, a: string, b: string)
    ensures Compare(signed, a, b)
            == if a == "" then if b == "" then 0 else -1
               else if b == "" then 1
               else if a[0] != b[0] then if Rank(signed, a[0]) < Rank(signed, b[0]) then -1 else 1
               else Compare(signed, a[1..], b[1..])
  {
    hide Rank;
  }

  /** The binary search answers exactly linear membership. */
  method TableHas(signed: bool, table: seq<string>, suffix: string) returns (found: bool)
    requires IsTable(signed, table) && IsBytes(suffix)
    ensures found <==> LowerAll(suffix) in table
  {
    hide Compare, LowerAll, IsBytes;
    ghost var lower := LowerAll(suffix);
    LowerIsBytes(suffix);
    var low, high := 0, |table|;
    while low < high
      invariant 0 <= low <= high <= |table|
      invariant forall i | 0 <= i < low :: Compare(signed, lower, table[i]) > 0
      invariant forall i | high <= i < |table| :: Compare(signed, lower, table[i]) <= 0
    {
      var middle := low + (high - low) / 2;
      var compare := CompareSuffix(signed, suffix, table[middle]);
      BelowAndAbove(signed, table, lower, middle);
      if compare > 0 {
        low := middle + 1;
      } else {
        high := middle;
      }
    }
    found := false;
    if low != |table| {
      found := EqualsAsciiCi(suffix, table[low]);
    }
    OnlyAtLow(signed, table, lower, low);
  }

  lemma LowerIsBytes(s: string)
    requires IsBytes(s)
    ensures IsBytes(LowerAll(s))
  {
    var t := LowerAll(s);
    forall c | c in t
      ensures c as int < 256
    {
      var i :| 0 <= i < |t| && t[i] == c;
      assert s[i] in s;
    }
  }

  lemma BelowAndAbove(signed: bool, table: seq<string>, lower: string, m: nat)
    requires IsTable(signed, table) && IsBytes(lower) && m < |table|
    ensures Compare(signed, lower, table[m]) > 0 ==> forall i | 0 <= i <= m :: Compare(signed, lower, table[i]) > 0
    ensures Compare(signed, lower, table[m]) <= 0 ==> forall i | m <= i < |table| :: Compare(signed, lower, table[i]) <= 0
  {
    hide Compare, LowerAll, IsBytes;
    forall i | 0 <= i < |table|
      ensures Compare(signed, lower, table[m]) > 0 && i <= m ==> Compare(signed, lower, table[i]) > 0
      ensures Compare(signed, lower, table[m]) <= 0 && m <= i ==> Compare(signed, lower, table[i]) <= 0
    {
      CompareIsOpposite(signed, lower, table[m]);
      CompareIsOpposite(signed, lower, table[i]);
      if i < m && Compare(signed, lower, table[m]) > 0 {
        CompareIsTransitive(signed, table[i], table[m], lower);
      }
      if m < i && Compare(signed, lower, table[m]) < 0 {
        CompareIsTransitive(signed, lower, table[m], table[i]);
      }
      CompareIsEquality(signed, lower, table[m]);
    }
  }

  lemma OnlyAtLow(signed: bool, table: seq<string>, lower: string, low: nat)
    requires IsTable(signed, table) && IsBytes(lower) && low <= |table|
    requires forall i | 0 <= i < low :: Compare(signed, lower, table[i]) > 0
    requires forall i | low <= i < |table| :: Compare(signed, lower, table[i]) <= 0
    ensures lower in table <==> low < |table| && lower == table[low]
  {
    hide Compare, LowerAll, IsBytes;
    if lower in table {
      var i :| 0 <= i < |table| && table[i] == lower;
      CompareIsEquality(signed, lower, table[i]);
      if low < i {
        CompareIsOpposite(signed, lower, table[low]);
      }
    }
  }

  // ----- File names -----

  function LastOf(s: string, a: char, b: char): Option<nat> {
    if s == "" then None
    else if s[|s| - 1] == a || s[|s| - 1] == b then Some(|s| - 1)
    else LastOf(s[..|s| - 1], a, b)
  }

  lemma {:induction false} LastOfMeans(s: string, a: char, b: char)
    ensures match LastOf(s, a, b)
            case None => forall i | 0 <= i < |s| :: s[i] != a && s[i] != b
            case Some(k) => k < |s| && (s[k] == a || s[k] == b) && forall i | k < i < |s| :: s[i] != a && s[i] != b
  {
    if s != "" {
      LastOfMeans(s[..|s| - 1], a, b);
    }
  }

  /** What follows the last separator. */
  function BaseName(filename: string): string {
    LastOfMeans(filename, '/', '\\');
    match LastOf(filename, '/', '\\')
    case None => filename
    case Some(k) => filename[k + 1..]
  }

  /** What follows the last dot of a name; None without a dot or with nothing behind it. */
  function Suffix(name: string): Option<string> {
    LastOfMeans(name, '.', '.');
    match LastOf(name, '.', '.')
    case None => None
    case Some(k) => if k + 1 == |name| then None else Some(name[k + 1..])
  }

  predicate Named(names: seq<string>, name: string) {
    exists n | n in names :: LowerAll(n) == LowerAll(name)
  }

  /** The verdict, from the file name alone. */
  predicate Admitted(names: seq<string>, table: seq<string>, filename: string) {
    var name := BaseName(filename);
    name != "" && (Named(names, name) || (Suffix(name).Some? && LowerAll(Suffix(name).value) in table))
  }

  method OneOf(names: seq<string>, name: string) returns (found: bool)
    ensures found <==> Named(names, name)
  {
    hide LowerAll;
    for i := 0 to |names|
      invariant forall j | 0 <= j < i :: LowerAll(names[j]) != LowerAll(name)
    {
      var same := EqualsAsciiCi(name, names[i]);
      if same {
        assert names[i] in names;
        return true;
      }
    }
    found := false;
  }

  /** `extension` is what the runtime says; it is never believed. */
  method SearchableFilename(signed: bool, names: seq<string>, table: seq<string>, filename: string, extension: string) returns (r: bool)
    requires IsTable(signed, table) && IsBytes(filename)
    ensures r <==> Admitted(names, table, filename)
  {
    hide IsTable, Named, LowerAll, IsBytes;
    if filename == "" {
      return false;
    }
    LastOfMeans(filename, '/', '\\');
    var name := filename;
    var separator := LastOf(filename, '/', '\\');
    if separator.Some? {
      name := name[separator.value + 1..];
    }
    if name == "" {
      return false;
    }
    var special := OneOf(names, name);
    if special {
      return true;
    }
    LastOfMeans(name, '.', '.');
    var dot := LastOf(name, '.', '.');
    if dot.None? || dot.value + 1 == |name| {
      return false;
    }
    var suffix := extension;
    if dot.value == 0 && LastOf(name[1..], '.', '.').None? {
      suffix := name[1..];
    } else {
      suffix := name[dot.value + 1..];
    }
    SuffixIsBytes(filename, name, suffix);
    r := TableHas(signed, table, suffix);
  }

  lemma SuffixIsBytes(filename: string, name: string, suffix: string)
    requires IsBytes(filename)
    requires |name| <= |filename| && name == filename[|filename| - |name|..]
    requires |suffix| <= |name| && suffix == name[|name| - |suffix|..]
    ensures IsBytes(suffix)
  {
    assert forall c | c in suffix :: c in name;
    assert forall c | c in name :: c in filename;
  }

  /** Text files: admitted, and with a name or suffix from the list for text. */
  predicate TextAdmitted(names: seq<string>, table: seq<string>, texts: seq<string>, filename: string) {
    var name := BaseName(filename);
    && Admitted(names, table, filename)
    && (Named(names, name) || (Suffix(name).Some? && Named(texts, Suffix(name).value)))
  }

  method SearchableTextFilename(signed: bool, names: seq<string>, table: seq<string>, texts: seq<string>, filename: string, extension: string)
    returns (r: bool)
    requires IsTable(signed, table) && IsBytes(filename)
    ensures r <==> TextAdmitted(names, table, texts, filename)
  {
    hide IsTable, Named, LowerAll, IsBytes;
    var admitted := SearchableFilename(signed, names, table, filename, extension);
    if !admitted {
      return false;
    }
    LastOfMeans(filename, '/', '\\');
    var name := filename;
    var separator := LastOf(filename, '/', '\\');
    if separator.Some? {
      name := name[separator.value + 1..];
    }
    var special := OneOf(names, name);
    if special {
      return true;
    }
    LastOfMeans(name, '.', '.');
    var dot := LastOf(name, '.', '.');
    if dot.None? {
      return false;
    }
    var suffix := name[dot.value + 1..];
    if dot.value == 0 && LastOf(name[1..], '.', '.').None? {
      suffix := name[1..];
    }
    r := OneOf(texts, suffix);
  }

  // ----- The verdict, said of written names -----

  predicate IsSeparator(c: char) {
    c == '/' || c == '\\'
  }

  /** A directory part: nothing, or something that ends in a separator. */
  predicate IsDirectory(d: string) {
    d == "" || IsSeparator(d[|d| - 1])
  }

  predicate IsFileName(name: string) {
    forall i | 0 <= i < |name| :: !IsSeparator(name[i])
  }

  lemma BaseNameOf(d: string, name: string)
    requires IsDirectory(d) && IsFileName(name)
    ensures BaseName(d + name) == name
  {
    var w := d + name;
    LastOfMeans(w, '/', '\\');
    assert d != "" ==> w[|d| - 1] == d[|d| - 1];
    assert forall i | |d| <= i < |w| :: w[i] == name[i - |d|];
  }

  lemma SuffixOf(stem: string, e: string)
    requires e != "" && forall i | 0 <= i < |e| :: e[i] != '.'
    ensures Suffix(stem + "." + e) == Some(e)
  {
    var w := stem + "." + e;
    LastOfMeans(w, '.', '.');
    assert w[|stem|] == '.' && forall i | |stem| < i < |w| :: w[i] == e[i - |stem| - 1];
  }

  lemma NoSuffix(name: string)
    requires (forall i | 0 <= i < |name| :: name[i] != '.') || name[|name| - 1] == '.'
    ensures Suffix(name) == None
  {
    LastOfMeans(name, '.', '.');
  }

  /** A name with an extension is admitted exactly when the table has the extension, in any
      case, or the whole name is special; the directory does not matter. */
  lemma ExtensionDecides(names: seq<string>, table: seq<string>, d: string, stem: string, e: string)
    requires IsDirectory(d) && IsFileName(stem) && IsFileName(e) && e != "" && forall i | 0 <= i < |e| :: e[i] != '.'
    ensures Admitted(names, table, d + (stem + "." + e)) <==> LowerAll(e) in table || Named(names, stem + "." + e)
  {
    hide BaseName, Suffix, Named, LowerAll;
    BaseNameOf(d, stem + "." + e);
    SuffixOf(stem, e);
  }

  /** A name without a dot, or with nothing behind its last dot, is admitted exactly when
      it is special. */
  lemma NameDecides(names: seq<string>, table: seq<string>, d: string, name: string)
    requires IsDirectory(d) && IsFileName(name)
    requires (forall i | 0 <= i < |name| :: name[i] != '.') || name[|name| - 1] == '.'
    ensures Admitted(names, table, d + name) <==> name != "" && Named(names, name)
  {
    hide BaseName, Suffix, Named, LowerAll;
    BaseNameOf(d, name);
    NoSuffix(name);
  }

  /** The same for text: the extension must be in the table and in the list for text. */
  lemma TextExtensionDecides(names: seq<string>, table: seq<string>, texts: seq<string>, d: string, stem: string, e: string)
    requires IsDirectory(d) && IsFileName(stem) && IsFileName(e) && e != "" && forall i | 0 <= i < |e| :: e[i] != '.'
    ensures TextAdmitted(names, table, texts, d + (stem + "." + e))
            <==> (LowerAll(e) in table && Named(texts, e)) || Named(names, stem + "." + e)
  {
    hide BaseName, Suffix, Named, LowerAll;
    BaseNameOf(d, stem + "." + e);
    SuffixOf(stem, e);
  }

  lemma TextNameDecides(names: seq<string>, table: seq<string>, texts: seq<string>, d: string, name: string)
    requires IsDirectory(d) && IsFileName(name)
    requires (forall i | 0 <= i < |name| :: name[i] != '.') || name[|name| - 1] == '.'
    ensures TextAdmitted(names, table, texts, d + name) <==> name != "" && Named(names, name)
  {
    hide BaseName, Suffix, Named, LowerAll;
    BaseNameOf(d, name);
    NoSuffix(name);
  }

  /** Special names and list entries count in any case of their letters. */
  lemma NamedInAnyCase(names: seq<string>, name: string)
    ensures Named(names, name) <==>
              exists k :: 0 <= k < |names| && |names[k]| == |name| && forall i | 0 <= i < |name| :: Lower(names[k][i]) == Lower(name[i])
  {
    hide LowerAll;
    forall k | 0 <= k < |names|
      ensures LowerAll(names[k]) == LowerAll(name) <==>
                |names[k]| == |name| && forall i | 0 <= i < |name| :: Lower(names[k][i]) == Lower(name[i])
    {
      var a, b := LowerAll(names[k]), LowerAll(name);
      assert a == b ==> forall i | 0 <= i < |name| :: a[i] == b[i];
    }
    if n :| n in names && LowerAll(n) == LowerAll(name) {
      var k :| 0 <= k < |names| && names[k] == n;
    }
  }
}
