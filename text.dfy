/**
 * The PHP string primitives the parser and the accessor rely on: `trim`
 * with a character list, `strcasecmp` against a word, `str_starts_with`,
 * `str_ends_with`, and `explode` with its inverse `implode`.  Characters
 * stand for the bytes PHP works on.
 */
module MlcText {

  predicate AllIn(s: string, cs: set<char>) {
    forall i :: 0 <= i < |s| ==> s[i] in cs
  }

  /** Length of the longest prefix of `s` made of characters in `cs`. */
  function LeadLen(s: string, cs: set<char>): (n: nat)
    ensures n <= |s| && AllIn(s[..n], cs)
    ensures n < |s| ==> s[n] !in cs
  {
    if s == [] || s[0] !in cs then 0
    else
      var n := 1 + LeadLen(s[1..], cs);
      assert s[..n] == [s[0]] + s[1..][..n - 1];
      n
  }

  /** Length of the longest suffix of `s` made of characters in `cs`. */
  function TrailLen(s: string, cs: set<char>): (n: nat)
    ensures n <= |s| && AllIn(s[|s| - n..], cs)
    ensures n < |s| ==> s[|s| - n - 1] !in cs
  {
    if s == [] || s[|s| - 1] !in cs then 0
    else
      var init := s[..|s| - 1];
      var m := TrailLen(init, cs);
      assert s[|s| - (m + 1)..] == init[|init| - m..] + [s[|s| - 1]];
      AllInAppend(init[|init| - m..], [s[|s| - 1]], cs);
      m + 1
  }

  lemma AllInAppend(a: string, b: string, cs: set<char>)
    requires AllIn(a, cs) && AllIn(b, cs)
    ensures AllIn(a + b, cs)
  {
  }

  /**
   * PHP `trim($s, $chars)`: `s` without its leading and trailing characters
   * from `cs`.  What remains is a contiguous piece of `s` that neither
   * starts nor ends with a character of `cs`.
   */
  function Trim(s: string, cs: set<char>): (r: string)
    ensures LeadLen(s, cs) + |r| <= |s|
    ensures r == s[LeadLen(s, cs)..LeadLen(s, cs) + |r|]
    ensures AllIn(s[..LeadLen(s, cs)], cs) && AllIn(s[LeadLen(s, cs) + |r|..], cs)
    ensures r != [] ==> r[0] !in cs && r[|r| - 1] !in cs
  {
    var a := LeadLen(s, cs);
    if a == |s| then [] else
      var b := TrailLen(s, cs);
      TrailLenStops(s, cs, a);
      s[a..|s| - b]
  }

  /** The trailing run never reaches back over a character outside `cs`. */
  lemma {:induction false} TrailLenStops(s: string, cs: set<char>, k: nat)
    requires k < |s| && s[k] !in cs
    ensures TrailLen(s, cs) < |s| - k
  {
    if s[|s| - 1] in cs {
      assert s[..|s| - 1][k] == s[k];
      TrailLenStops(s[..|s| - 1], cs, k);
    }
  }

  /** Past the leading run, `Trim` cuts exactly the trailing run off. */
  lemma TrimByRuns(s: string, cs: set<char>)
    requires LeadLen(s, cs) < |s|
    ensures Trim(s, cs) == s[LeadLen(s, cs)..|s| - TrailLen(s, cs)]
  {
  }

  /** `TrailLen` runs at least over a suffix made of `cs` characters. */
  lemma {:induction false} TrailLenCovers(s: string, cs: set<char>, m: nat)
    requires m <= |s| && AllIn(s[m..], cs)
    ensures |s| - m <= TrailLen(s, cs)
  {
    if m < |s| {
      assert s[|s| - 1] == s[m..][|s| - 1 - m];
      assert s[..|s| - 1][m..] == s[m..|s| - 1];
      assert forall j :: 0 <= j < |s| - 1 - m ==> s[m..|s| - 1][j] == s[m..][j];
      TrailLenCovers(s[..|s| - 1], cs, m);
    }
  }

  /** Trimming twice removes nothing more than trimming once. */
  lemma TrimIdempotent(s: string, cs: set<char>)
    ensures Trim(Trim(s, cs), cs) == Trim(s, cs)
  {
    var r := Trim(s, cs);
    if r != [] {
      assert LeadLen(r, cs) == 0;
      assert TrailLen(r, cs) == 0;
    }
  }

  /** PHP's default `trim` characters: space, tab, newline, carriage return, NUL, vertical tab. */
  const TrimSpace: set<char> := {' ', '\t', '\n', '\r', '\0', '\U{B}'}

  /** The characters PCRE's `\s` matches: space, tab, newline, vertical tab, form feed, carriage return. */
  const RegexSpace: set<char> := {' ', '\t', '\n', '\U{B}', '\U{C}', '\r'}

  predicate StartsWith(s: string, c: char) {
    |s| > 0 && s[0] == c
  }

  predicate EndsWith(s: string, c: char) {
    |s| > 0 && s[|s| - 1] == c
  }

  /** ASCII lower-casing, as `strcasecmp` applies it to every byte. */
  function Lower(c: char): (l: char)
    ensures 'A' <= c <= 'Z' ==> l as int == c as int + 32
    ensures !('A' <= c <= 'Z') ==> l == c
  {
    if 'A' <= c <= 'Z' then (c as int + 32) as char else c
  }

  /** `strcasecmp(s, t) === 0`. */
  predicate SameIgnoringCase(s: string, t: string) {
    |s| == |t| && forall i :: 0 <= i < |s| ==> Lower(s[i]) == Lower(t[i])
  }

  /** Position of the first `c` in `s`, or `|s|` when there is none. */
  function IndexOf(s: string, c: char): (i: nat)
    ensures i <= |s| && c !in s[..i]
    ensures i < |s| ==> s[i] == c
  {
    if s == [] || s[0] == c then 0
    else
      var i := 1 + IndexOf(s[1..], c);
      assert s[..i] == [s[0]] + s[1..][..i - 1];
      i
  }

  /** `IndexOf` finds the first occurrence. */
  lemma {:induction false} IndexOfFirst(s: string, c: char, k: nat)
    requires k < |s| && s[k] == c && c !in s[..k]
    ensures IndexOf(s, c) == k
  {
    if k > 0 {
      assert s[0] == s[..k][0];
      assert s[1..][..k - 1] == s[1..k];
      assert s[1..][k - 1] == s[k];
      assert forall j :: 0 <= j < k - 1 ==> s[1..k][j] == s[..k][j + 1];
      IndexOfFirst(s[1..], c, k - 1);
    }
  }

  /**
   * PHP `explode($sep, $s)`: the pieces between the separators.  There is
   * always at least one piece (the empty text gives one empty piece), no
   * piece holds a separator, and joining them back gives `s`.
   */
  function Split(s: string, sep: char): (parts: seq<string>)
    ensures |parts| >= 1
    ensures forall i :: 0 <= i < |parts| ==> sep !in parts[i]
    ensures Join(parts, sep) == s
    decreases |s|
  {
    var i := IndexOf(s, sep);
    if i == |s| then
      assert s[..i] == s;
      [s]
    else
      var rest := Split(s[i + 1..], sep);
      assert s == s[..i] + [sep] + s[i + 1..];
      [s[..i]] + rest
  }

  /** PHP `implode($sep, $parts)`. */
  function Join(parts: seq<string>, sep: char): string
    requires |parts| >= 1
  {
    if |parts| == 1 then parts[0] else parts[0] + [sep] + Join(parts[1..], sep)
  }

  /** Splitting undoes joining pieces that hold no separator. */
  lemma {:induction false} SplitJoin(parts: seq<string>, sep: char)
    requires |parts| >= 1
    requires forall i :: 0 <= i < |parts| ==> sep !in parts[i]
    ensures Split(Join(parts, sep), sep) == parts
  {
    var s := Join(parts, sep);
    if |parts| == 1 {
      assert IndexOf(s, sep) == |s|;
    } else {
      var p := parts[0];
      assert s == p + [sep] + Join(parts[1..], sep);
      assert s[..|p|] == p;
      IndexOfFirst(s, sep, |p|);
      assert s[|p| + 1..] == Join(parts[1..], sep);
      assert s[..|p|] == p;
      SplitJoin(parts[1..], sep);
    }
  }

  /** Splitting `p.q` gives the pieces of `p` followed by the pieces of `q`. */
  lemma SplitConcat(p: string, q: string, sep: char)
    ensures Split(p + [sep] + q, sep) == Split(p, sep) + Split(q, sep)
  {
    var a, b := Split(p, sep), Split(q, sep);
    JoinAppend(a, b, sep);
    SplitJoin(a + b, sep);
  }

  lemma {:induction false} JoinAppend(a: seq<string>, b: seq<string>, sep: char)
    requires |a| >= 1 && |b| >= 1
    ensures Join(a + b, sep) == Join(a, sep) + [sep] + Join(b, sep)
  {
    if |a| == 1 {
      assert (a + b)[1..] == b;
    } else {
      assert (a + b)[1..] == a[1..] + b;
      JoinAppend(a[1..], b, sep);
    }
  }
}
