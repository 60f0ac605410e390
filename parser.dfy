/**
 * The MLC parser (src/Parser.php): value coercion (`parseValue`) and the
 * line-by-line state machine of `parseFile`.
 *
 * The PHP code builds the tree through references held on a stack.  Here
 * the stack holds the open sections by value, as (key, entries) frames;
 * leaving a section writes its entries back under its key in the
 * enclosing scope, and `Tree` folds every frame still open back into the
 * root, which is what `$data` holds at any moment.
 */
module MlcParser {
  import opened Wrappers
  import opened MlcValues
  import opened MlcText

  datatype ParseError =
    | SyntaxError(line: string)    // a line of no recognised shape (the RuntimeException)
    | MalformedArray(text: string) // a bracketed value json_decode rejects (the JsonException)

  /**
   * The PHP library calls whose grammar and numerics are not modelled:
   * `is_numeric`, the `(int)` cast of a numeric text, and
   * `json_decode($text, true, 512, JSON_THROW_ON_ERROR)` of a text in
   * brackets, which yields the elements of a JSON list or throws (None).
   */
  datatype Runtime = Runtime(
    isNumeric: string -> bool,
    intOf: string -> int,
    jsonDecode: string -> Option<seq<Value>>)

  /** `[A-Za-z0-9_]`, the characters of keys and section names. */
  const WordChars: set<char> :=
    set c: char | 'A' <= c <= 'Z' || 'a' <= c <= 'z' || '0' <= c <= '9' || c == '_'

  /** The characters the string fallback strips: `"` and `'`. */
  const Quotes: set<char> := {'"', '\''}

  // ---------------------------------------------------------------------
  // Value coercion
  // ---------------------------------------------------------------------

  predicate IsBoolWord(t: string) {
    SameIgnoringCase(t, "true") || SameIgnoringCase(t, "false")
  }

  predicate Bracketed(t: string) {
    StartsWith(t, '[') && EndsWith(t, ']')
  }

  /**
   * `parseValue`: the raw text is trimmed, then the first rule that applies
   * decides: a boolean word in any case, a numeric text (an Int unless it
   * holds a `.`), a bracketed JSON list, and otherwise a string with every
   * leading and trailing quote character removed.
   */
  function ParseValue(raw: string, rt: Runtime): (r: Result<Value, ParseError>)
    ensures var t := Trim(raw, TrimSpace);
      && (r.Ok? && r.value.Bool? <==> IsBoolWord(t))
      && (r.Ok? && r.value.Bool? ==> r.value.b == SameIgnoringCase(t, "true"))
      && (r.Ok? && (r.value.Int? || r.value.Float?) <==> !IsBoolWord(t) && rt.isNumeric(t))
      && (r.Ok? && r.value.Int? ==> '.' !in t && r.value.i == rt.intOf(t))
      && (r.Ok? && r.value.Float? ==> '.' in t && r.value.literal == t)
      && (r.Ok? && r.value.Arr? <==> !IsBoolWord(t) && !rt.isNumeric(t) && Bracketed(t) && rt.jsonDecode(t).Some?)
      && (r.Ok? && r.value.Arr? ==> r.value == ListValue(rt.jsonDecode(t).value))
      && (r.Err? <==> !IsBoolWord(t) && !rt.isNumeric(t) && Bracketed(t) && rt.jsonDecode(t).None?)
      && (r.Err? ==> r.error == MalformedArray(t))
      && (r.Ok? && r.value.Str? <==> !IsBoolWord(t) && !rt.isNumeric(t) && !Bracketed(t))
      && (r.Ok? && r.value.Str? ==> r.value.s == Trim(t, Quotes))
    ensures r.Ok? ==> !r.value.Null?
  {
    var t := Trim(raw, TrimSpace);
    if SameIgnoringCase(t, "true") then Ok(Bool(true))
    else if SameIgnoringCase(t, "false") then Ok(Bool(false))
    else if rt.isNumeric(t) then Ok(if '.' in t then Float(t) else Int(rt.intOf(t)))
    else if Bracketed(t) then
      match rt.jsonDecode(t)
      case Some(elems) => Ok(ListValue(elems))
      case None => Err(MalformedArray(t))
    else Ok(Str(Trim(t, Quotes)))
  }

  /** The string fallback never begins or ends with a quote, and stripping again changes nothing. */
  lemma StringFallbackStripped(raw: string, rt: Runtime)
    requires ParseValue(raw, rt).Ok? && ParseValue(raw, rt).value.Str?
    ensures var s := ParseValue(raw, rt).value.s;
      && (s != [] ==> s[0] !in Quotes && s[|s| - 1] !in Quotes)
      && Trim(s, Quotes) == s
  {
    TrimIdempotent(Trim(raw, TrimSpace), Quotes);
  }

  /** Booleans are recognised in any letter case once the surrounding blanks are trimmed. */
  lemma UpperCaseTrue(rt: Runtime)
    ensures ParseValue(" TRUE ", rt) == Ok(Bool(true))
  {
    TrimExact(" TRUE ", TrimSpace, 1, 5);
    assert " TRUE "[1..5] == "TRUE";
  }

  /** `False` is the boolean false. */
  lemma MixedCaseFalse(rt: Runtime)
    ensures ParseValue("False", rt) == Ok(Bool(false))
  {
    TrimExact("False", TrimSpace, 0, 5);
    assert "False"[0..5] == "False";
  }

  /** A quoted word is a string with its quotes removed, even when the word is `true`. */
  lemma QuotedWordIsString(rt: Runtime)
    requires !rt.isNumeric("\"true\"")
    ensures ParseValue("\"true\"", rt) == Ok(Str("true"))
  {
    QuotedTrueTrims();
  }

  /** `"true"` has no blanks to trim, is neither a boolean word nor bracketed, and loses its quotes. */
  lemma QuotedTrueTrims()
    ensures var t := "\"true\"";
      Trim(t, TrimSpace) == t && !IsBoolWord(t) && !Bracketed(t) && Trim(t, Quotes) == "true"
  {
    var t := "\"true\"";
    TrimExact(t, TrimSpace, 0, 6);
    assert t[0..6] == t;
    assert !SameIgnoringCase(t, "true");
    TrimExact(t, Quotes, 1, 5);
    assert t[1..5] == "true";
  }

  // ---------------------------------------------------------------------
  // Line shapes
  // ---------------------------------------------------------------------

  /** `LeadLen` runs at least over a prefix made of `cs` characters. */
  lemma {:induction false} LeadLenCovers(s: string, cs: set<char>, k: nat)
    requires k <= |s| && AllIn(s[..k], cs)
    ensures k <= LeadLen(s, cs)
  {
    if k > 0 {
      assert s[0] == s[..k][0];
      assert s[1..][..k - 1] == s[1..k];
      assert forall j :: 0 <= j < k - 1 ==> s[1..k][j] == s[..k][j + 1];
      LeadLenCovers(s[1..], cs, k - 1);
    }
  }

  /** A run of `cs` characters followed by one outside `cs` is exactly what `LeadLen` measures. */
  lemma LeadLenExact(s: string, cs: set<char>, k: nat)
    requires k < |s| && AllIn(s[..k], cs) && s[k] !in cs
    ensures LeadLen(s, cs) == k
  {
    LeadLenCovers(s, cs, k);
    LeadLenAtMost(s, cs, k);
  }

  /** Trimming `s` leaves exactly the piece between a leading and a trailing run of `cs` characters. */
  lemma TrimExact(s: string, cs: set<char>, k: nat, m: nat)
    requires k < m <= |s|
    requires AllIn(s[..k], cs) && AllIn(s[m..], cs)
    requires s[k] !in cs && s[m - 1] !in cs
    ensures Trim(s, cs) == s[k..m]
  {
    LeadLenExact(s, cs, k);
    TrimByRuns(s, cs);
    TrailLenCovers(s, cs, m);
    TrailLenStops(s, cs, m - 1);
  }

  /** `LeadLen` stops at the first character outside `cs`. */
  lemma {:induction false} LeadLenAtMost(s: string, cs: set<char>, k: nat)
    requires k < |s| && s[k] !in cs
    ensures LeadLen(s, cs) <= k
  {
    if s[0] in cs {
      LeadLenAtMost(s[1..], cs, k - 1);
    }
  }

  /**
   * The capture of `\s{min,}(.+)$` can start at `k` in `s`: the `min` or
   * more characters before are white space and the capture is a nonempty
   * run without a newline (`.` does not match one).  `s` is the end of a
   * trimmed line, so it never ends in a newline and `$` is its end.
   */
  ghost predicate TailAt(s: string, min: nat, k: nat) {
    min <= k < |s| && AllIn(s[..k], RegexSpace) && '\n' !in s[k..]
  }

  /**
   * Where PCRE starts the capture of `\s{min,}(.+)$`: greedy `\s` gives back
   * only what `.+` needs, so the capture starts as late as it can.
   */
  function MatchTail(s: string, min: nat): (r: Option<nat>)
    ensures r.Some? ==> TailAt(s, min, r.value)
    ensures forall k: nat :: TailAt(s, min, k) ==> r.Some? && k <= r.value
  {
    var w := LeadLen(s, RegexSpace);
    if w < |s| then
      assert forall k: nat :: TailAt(s, min, k) ==> k <= w by {
        forall k: nat | TailAt(s, min, k) ensures k <= w {
          LeadLenCovers(s, RegexSpace, k);
        }
      }
      assert forall k: nat :: TailAt(s, min, k) ==> s[k..][w - k] == s[w];
      if w < min || '\n' in s[w..] then None else Some(w)
    else
      assert s[..|s|] == s;
      assert forall k: nat :: TailAt(s, min, k) ==> s[k..][|s| - 1 - k] == s[|s| - 1];
      if min < |s| && s[|s| - 1] != '\n' then
        assert s[..|s| - 1] == s[..w][..|s| - 1];
        Some(|s| - 1)
      else None
  }

  /** `line` has the shape `^([A-Za-z0-9_]+)\s*\{$` with `name` as its group. */
  ghost predicate SectionShape(line: string, name: string) {
    && 0 < |name| < |line| && line[..|name|] == name && AllIn(name, WordChars)
    && AllIn(line[|name|..|line| - 1], RegexSpace) && line[|line| - 1] == '{'
  }

  /** The section-opening pattern, matched against a trimmed line. */
  function MatchSection(line: string): (r: Option<string>)
    ensures r.Some? ==> SectionShape(line, r.value)
  {
    var n := LeadLen(line, WordChars);
    if 0 < n < |line| && line[|line| - 1] == '{' && AllIn(line[n..|line| - 1], RegexSpace) then
      Some(line[..n])
    else None
  }

  /** The section-opening pattern matches every line of its shape, and its name is the only one. */
  lemma MatchSectionComplete(line: string, name: string)
    requires SectionShape(line, name)
    ensures MatchSection(line) == Some(name)
  {
    var c := line[|name|];
    assert c in RegexSpace || c == '{' by {
      if |name| < |line| - 1 {
        assert line[|name|..|line| - 1][0] == c;
      }
    }
    LeadLenExact(line, WordChars, |name|);
  }

  /** `mid` is `\s*=\s*`. */
  ghost predicate EqSeparator(mid: string) {
    exists e :: 0 <= e < |mid| && mid[e] == '=' && AllIn(mid[..e], RegexSpace) && AllIn(mid[e + 1..], RegexSpace)
  }

  /** `mid` is `\s+`. */
  ghost predicate WsSeparator(mid: string) {
    |mid| > 0 && AllIn(mid, RegexSpace)
  }

  /**
   * `line` is `key`, then a separator of the given kind, then `value`, as
   * the patterns `^([A-Za-z0-9_]+)\s*=\s*(.+)$` (`eq`) and
   * `^([A-Za-z0-9_]+)\s+(.+)$` (not `eq`) read it.
   */
  ghost predicate KeyValueShape(line: string, key: string, value: string, eq: bool) {
    && 0 < |key| && |key| + |value| <= |line| && line[..|key|] == key && AllIn(key, WordChars)
    && value != [] && '\n' !in value && line[|line| - |value|..] == value
    && (if eq then EqSeparator(line[|key|..|line| - |value|]) else WsSeparator(line[|key|..|line| - |value|]))
  }

  /** Where, in the text after the key, `\s*=\s*(.+)$` starts its capture. */
  function EqValueStart(rest: string): Option<nat> {
    EqValueFrom(rest, LeadLen(rest, RegexSpace))
  }

  /** The same, once the leading blanks are known to run up to `m`. */
  function EqValueFrom(rest: string, m: nat): Option<nat> {
    if m < |rest| && rest[m] == '=' then
      var t := MatchTail(rest[m + 1..], 0);
      if t.Some? then Some(m + 1 + t.value) else None
    else None
  }

  /** Where `EqValueStart` finds a capture, blanks, `=` and blanks come before it. */
  lemma EqValueStartSound(rest: string)
    requires EqValueStart(rest).Some?
    ensures var j := EqValueStart(rest).value;
      j < |rest| && EqSeparator(rest[..j]) && '\n' !in rest[j..]
  {
    var m := LeadLen(rest, RegexSpace);
    EqSeparatorAt(rest, m, MatchTail(rest[m + 1..], 0).value);
  }

  /** Blanks, `=`, blanks, then a capture: the part before the capture is `\s*=\s*`. */
  lemma EqSeparatorAt(rest: string, m: nat, k: nat)
    requires m < |rest| && AllIn(rest[..m], RegexSpace) && rest[m] == '='
    requires TailAt(rest[m + 1..], 0, k)
    ensures m + 1 + k < |rest| && EqSeparator(rest[..m + 1 + k]) && '\n' !in rest[m + 1 + k..]
  {
    var mid := rest[..m + 1 + k];
    assert mid[..m] == rest[..m] && mid[m] == '=' && mid[m + 1..] == rest[m + 1..][..k];
    assert rest[m + 1 + k..] == rest[m + 1..][k..];
  }

  /** `key = value`: the key, then the value the pattern captures. */
  function MatchKeyEq(line: string): Option<(string, string)> {
    var n := LeadLen(line, WordChars);
    if n == 0 then None
    else
      var j := EqValueStart(line[n..]);
      if j.Some? then Some((line[..n], line[n + j.value..])) else None
  }

  /** What the `=` pattern returns is a key and a value of the `=` shape. */
  lemma MatchKeyEqSound(line: string)
    ensures MatchKeyEq(line).Some? ==> KeyValueShape(line, MatchKeyEq(line).value.0, MatchKeyEq(line).value.1, true)
  {
    var n := LeadLen(line, WordChars);
    if n > 0 && EqValueStart(line[n..]).Some? {
      var j := EqValueStart(line[n..]).value;
      assert KeyValueShape(line, line[..n], line[n + j..], true) by {
        EqValueStartSound(line[n..]);
        KeyEqShape(line, n, j);
      }
      assert MatchKeyEq(line) == Some((line[..n], line[n + j..]));
    }
  }

  /** A key, then `\s*=\s*`, then a capture without newline make up the `=` shape. */
  lemma KeyEqShape(line: string, n: nat, j: nat)
    requires 0 < n <= |line| && AllIn(line[..n], WordChars)
    requires j < |line[n..]| && EqSeparator(line[n..][..j]) && '\n' !in line[n..][j..]
    ensures KeyValueShape(line, line[..n], line[n + j..], true)
  {
    assert line[n..|line| - |line[n + j..]|] == line[n..][..j];
    assert line[n + j..] == line[n..][j..];
  }

  /** `key value`: the key, then the value the pattern captures. */
  function MatchKeyWs(line: string): (r: Option<(string, string)>)
    ensures r.Some? ==> KeyValueShape(line, r.value.0, r.value.1, false)
  {
    var n := LeadLen(line, WordChars);
    match MatchTail(line[n..], 1)
    case Some(k) =>
      if n == 0 then None
      else
        var value := line[n + k..];
        assert line[n..|line| - |value|] == line[n..][..k];
        Some((line[..n], value))
    case None => None
  }

  /** The `=` pattern matches every line of its shape; the key is the only possible one and the captured value the shortest. */
  lemma MatchKeyEqComplete(line: string, key: string, value: string)
    requires KeyValueShape(line, key, value, true)
    ensures MatchKeyEq(line).Some?
    ensures MatchKeyEq(line).value.0 == key && |MatchKeyEq(line).value.1| <= |value|
  {
    var mid := line[|key|..|line| - |value|];
    var e :| 0 <= e < |mid| && mid[e] == '=' && AllIn(mid[..e], RegexSpace) && AllIn(mid[e + 1..], RegexSpace);
    KeyEqPositions(line, key, value, e);
    MatchKeyEqFromPositions(line, |key|, e, |line| - |value| - |key| - e - 1);
  }

  /** With the key ending at `n`, the `=` at `e` after it, and a possible capture `j` past the `=`, the `=` pattern matches with that key and a capture no longer. */
  lemma MatchKeyEqFromPositions(line: string, n: nat, e: nat, j: nat)
    requires 0 < n == LeadLen(line, WordChars)
    requires e < |line[n..]| && LeadLen(line[n..], RegexSpace) == e && line[n..][e] == '='
    requires TailAt(line[n..][e + 1..], 0, j)
    ensures MatchKeyEq(line).Some? && MatchKeyEq(line).value.0 == line[..n]
    ensures |MatchKeyEq(line).value.1| <= |line| - n - e - 1 - j
  {
    EqValueStartReaches(line[n..], e, j);
    MatchKeyEqFrom(line, n, EqValueStart(line[n..]).value);
  }

  /** With the `=` at `e` after the first blanks and a possible capture `j` past it, `EqValueStart` finds a capture no earlier. */
  lemma EqValueStartReaches(rest: string, e: nat, j: nat)
    requires e < |rest| && LeadLen(rest, RegexSpace) == e && rest[e] == '='
    requires TailAt(rest[e + 1..], 0, j)
    ensures EqValueStart(rest).Some? && e + 1 + j <= EqValueStart(rest).value
  {
    MatchTailAtLeast(rest[e + 1..], 0, j);
    EqValueStartAt(rest, e, MatchTail(rest[e + 1..], 0).value);
  }

  lemma MatchTailAtLeast(s: string, min: nat, j: nat)
    requires TailAt(s, min, j)
    ensures MatchTail(s, min).Some? && j <= MatchTail(s, min).value
  {
  }

  /** How `MatchKeyEq` reads once the end of the key and the start of the capture are known. */
  lemma MatchKeyEqFrom(line: string, n: nat, j: nat)
    requires 0 < n == LeadLen(line, WordChars)
    requires EqValueStart(line[n..]) == Some(j)
    ensures MatchKeyEq(line) == Some((line[..n], line[n + j..]))
  {
  }

  /** How `EqValueStart` reads once the positions of the `=` and of the capture are known. */
  lemma EqValueStartAt(rest: string, m: nat, k: nat)
    requires m == LeadLen(rest, RegexSpace) && m < |rest| && rest[m] == '='
    requires MatchTail(rest[m + 1..], 0) == Some(k)
    ensures EqValueStart(rest) == Some(m + 1 + k)
  {
    EqValueFromAt(rest, m, k);
  }

  lemma EqValueFromAt(rest: string, m: nat, k: nat)
    requires m < |rest| && rest[m] == '='
    requires MatchTail(rest[m + 1..], 0) == Some(k)
    ensures EqValueFrom(rest, m) == Some(m + 1 + k)
  {
  }


  /** On a line of the `=` shape, the key ends where `LeadLen` stops, the `=` follows the first blanks, and the value is a possible capture. */
  lemma KeyEqPositions(line: string, key: string, value: string, e: nat)
    requires KeyValueShape(line, key, value, true)
    requires var mid := line[|key|..|line| - |value|];
      e < |mid| && mid[e] == '=' && AllIn(mid[..e], RegexSpace) && AllIn(mid[e + 1..], RegexSpace)
    ensures LeadLen(line, WordChars) == |key|
    ensures var rest := line[|key|..];
      && e < |rest| && LeadLen(rest, RegexSpace) == e && rest[e] == '='
      && TailAt(rest[e + 1..], 0, |line| - |value| - |key| - e - 1)
  {
    var mid := line[|key|..|line| - |value|];
    var rest := line[|key|..];
    assert rest[..e] == mid[..e] && rest[e] == '=';
    assert line[|key|] !in WordChars by {
      assert line[|key|] == rest[0];
      assert rest[0] in RegexSpace || rest[0] == '=' by {
        if e > 0 {
          assert rest[..e][0] == rest[0];
        }
      }
    }
    LeadLenExact(line, WordChars, |key|);
    LeadLenExact(rest, RegexSpace, e);
    var t := rest[e + 1..];
    var j := |mid| - e - 1;
    assert t[..j] == mid[e + 1..];
    assert t[j..] == value;
  }

  /** The white-space pattern matches every line of its shape; the key is the only possible one and the captured value the shortest. */
  lemma MatchKeyWsComplete(line: string, key: string, value: string)
    requires KeyValueShape(line, key, value, false)
    ensures MatchKeyWs(line).Some?
    ensures MatchKeyWs(line).value.0 == key && |MatchKeyWs(line).value.1| <= |value|
  {
    var mid := line[|key|..|line| - |value|];
    assert line[|key|] == mid[0];
    LeadLenExact(line, WordChars, |key|);
    var rest := line[|key|..];
    assert rest[..|mid|] == mid;
    assert rest[|mid|..] == value;
    assert TailAt(rest, 1, |mid|);
  }

  /** `key = value` is tried first, `key value` only when it fails. */
  function MatchKeyValue(line: string): (r: Option<(string, string)>)
    ensures r.Some? ==> line != [] && line[0] in WordChars
  {
    MatchKeyEqSound(line);
    if MatchKeyEq(line).Some? then MatchKeyEq(line) else MatchKeyWs(line)
  }

  /** A line of the `=` shape is read by the `=` pattern, with its key, whatever the white-space pattern would make of it. */
  lemma EqShapeReadByEqPattern(line: string, key: string, value: string)
    requires KeyValueShape(line, key, value, true)
    ensures MatchKeyValue(line) == MatchKeyEq(line)
    ensures MatchKeyValue(line).Some? && MatchKeyValue(line).value.0 == key
  {
    MatchKeyEqComplete(line, key, value);
  }

  /** A line with no reading of the `=` shape is read by the white-space pattern alone. */
  lemma OtherLinesReadByWsPattern(line: string)
    requires forall key, value :: !KeyValueShape(line, key, value, true)
    ensures MatchKeyValue(line) == MatchKeyWs(line)
  {
    MatchKeyEqSound(line);
  }

  /** `a = b` assigns `b`: the `=` shape wins over reading `= b` as the value of `a`. */
  lemma EqualsSignTakesPrecedence()
    ensures MatchKeyValue("a = b") == Some(("a", "b"))
  {
    var line := "a = b";
    assert EqSeparator(line[1..4]) by {
      var mid := line[1..4];
      assert mid == " = " && mid[1] == '=';
      assert AllIn(mid[..1], RegexSpace) && AllIn(mid[2..], RegexSpace);
    }
    assert line[..1] == "a" && line[4..] == "b" && AllIn("a", WordChars);
    assert KeyValueShape(line, "a", "b", true);
    MatchKeyEqComplete(line, "a", "b");
  }

  /** A bare `key =` fails the `=` shape, and the white-space shape reads `=` as its value. */
  lemma BareEqualsIsTheValue()
    ensures MatchKeyValue("key =") == Some(("key", "="))
  {
    var line := "key =";
    assert LeadLen(line, WordChars) == 3 by {
      LeadLenExact(line, WordChars, 3);
    }
    assert LeadLen(line[3..], RegexSpace) == 1 by {
      LeadLenExact(line[3..], RegexSpace, 1);
    }
    assert MatchKeyEq(line).None?;
    assert KeyValueShape(line, "key", "=", false);
    MatchKeyWsComplete(line, "key", "=");
  }

  // ---------------------------------------------------------------------
  // The state of `parseFile`
  // ---------------------------------------------------------------------

  /** An open section: its key in the enclosing scope and the entries written so far. */
  datatype Scope = Scope(key: string, entries: map<string, Value>)

  /** A multi-line array being accumulated (`$arrayKey`, `$arrayRaw`). */
  datatype Pending = Pending(key: string, text: string)

  /**
   * `$data`, the open sections on `$stack` above it, whether a stray `}`
   * has popped `$data` itself off the stack, and the multi-line array mode
   * (`$inArray` is `pending.Some?`).
   */
  datatype State = State(root: map<string, Value>, open: seq<Scope>, detached: bool, pending: Option<Pending>)

  const Start: State := State(map[], [], false, None)

  /** Once detached, nothing is open: the stack only ever empties from the root. */
  ghost predicate Consistent(st: State) {
    st.detached ==> st.open == []
  }

  /** The entries of the innermost open scope. */
  function Innermost(st: State): map<string, Value> {
    if st.open == [] then st.root else st.open[|st.open| - 1].entries
  }

  /** Where the innermost scope sits in the tree: the keys of the open sections, outermost first. */
  function Path(st: State): seq<string> {
    seq(|st.open|, i requires 0 <= i < |st.open| => st.open[i].key)
  }

  /** Sets `k` to `v` in the innermost scope, leaving the stack's shape alone. */
  function Put(st: State, k: string, v: Value): (r: State)
    ensures r.detached == st.detached && r.pending == st.pending
    ensures Path(r) == Path(st)
    ensures Innermost(r) == Innermost(st)[k := v]
  {
    if st.open == [] then st.(root := st.root[k := v])
    else
      var n := |st.open| - 1;
      st.(open := st.open[n := Scope(st.open[n].key, st.open[n].entries[k := v])])
  }

  /** With a section open, writing to it leaves `$data` and every enclosing section as they were. */
  lemma PutKeepsEnclosing(st: State, k: string, v: Value)
    requires st.open != []
    ensures Put(st, k, v).root == st.root
    ensures Put(st, k, v).open[..|st.open| - 1] == st.open[..|st.open| - 1]
  {
  }

  /** Leaves the innermost section, writing its entries under its key in the enclosing scope. */
  function Pop(st: State): (r: State)
    requires st.open != []
    ensures Path(r) == Path(st)[..|st.open| - 1]
  {
    var n := |st.open| - 1;
    Put(st.(open := st.open[..n]), st.open[n].key, Arr(st.open[n].entries))
  }

  /** What `$data` holds: the root with every open section written back into its parent. */
  function Tree(st: State): map<string, Value>
    decreases |st.open|
  {
    if st.open == [] then st.root else Tree(Pop(st))
  }

  /** `$current[$key] = $value`: lost once the root has been popped. */
  function Assign(st: State, k: string, v: Value): State {
    if st.detached then st else Put(st, k, v)
  }

  /** `$current[$section] = []; $stack[] = &$current[$section]`. */
  function OpenSection(st: State, name: string): State {
    if st.detached then st else st.(open := st.open + [Scope(name, map[])])
  }

  /** `array_pop($stack)`: popping the root itself detaches every later write from `$data`. */
  function CloseSection(st: State): State {
    if st.detached then st
    else if st.open == [] then st.(detached := true)
    else Pop(st)
  }

  /** A `key = value` or `key value` line: begin a multi-line array, or coerce and assign. */
  function AssignValue(st: State, key: string, rawVal: string, rt: Runtime): Result<State, ParseError> {
    var t := Trim(rawVal, TrimSpace);
    if StartsWith(t, '[') && !EndsWith(t, ']') then Ok(st.(pending := Some(Pending(key, t))))
    else
      var v :- ParseValue(rawVal, rt);
      Ok(Assign(st, key, v))
  }

  /** One iteration of the `foreach` in `parseFile`. */
  function Step(st: State, raw: string, rt: Runtime): Result<State, ParseError> {
    var line := Trim(raw, TrimSpace);
    if st.pending.Some? then
      var text := st.pending.value.text + " " + line;
      if EndsWith(line, ']') then
        var v :- ParseValue(text, rt);
        Ok(Assign(st.(pending := None), st.pending.value.key, v))
      else Ok(st.(pending := Some(Pending(st.pending.value.key, text))))
    else if line == [] || line[0] == '#' then Ok(st)
    else if MatchSection(line).Some? then Ok(OpenSection(st, MatchSection(line).value))
    else if line == "}" then Ok(CloseSection(st))
    else if MatchKeyValue(line).Some? then AssignValue(st, MatchKeyValue(line).value.0, MatchKeyValue(line).value.1, rt)
    else Err(SyntaxError(line))
  }

  /** The loop run over `lines` from `st`; the first failing line ends it. */
  function RunFrom(st: State, lines: seq<string>, rt: Runtime): Result<State, ParseError>
    decreases |lines|
  {
    if lines == [] then Ok(st)
    else
      var s :- RunFrom(st, lines[..|lines| - 1], rt);
      Step(s, lines[|lines| - 1], rt)
  }

  /** `parseFile` on the lines `file()` returned: the tree `$data` holds when the loop ends. */
  function ParseSpec(lines: seq<string>, rt: Runtime): Result<map<string, Value>, ParseError> {
    var s :- RunFrom(Start, lines, rt);
    Ok(Tree(s))
  }

  /** Everything `Step` does not overwrite carries over from `RunFrom` on a prefix. */
  lemma {:induction false} RunAppend(st: State, a: seq<string>, b: seq<string>, rt: Runtime)
    ensures RunFrom(st, a + b, rt) == match RunFrom(st, a, rt)
                                     case Err(e) => Err(e)
                                     case Ok(s) => RunFrom(s, b, rt)
    decreases |b|
  {
    if b == [] {
      assert a + b == a;
    } else {
      var n := |b| - 1;
      assert (a + b)[..|a + b| - 1] == a + b[..n];
      assert (a + b)[|a + b| - 1] == b[n];
      RunAppend(st, a, b[..n], rt);
    }
  }

  /** The first line that fails ends the parse: no tree is returned. */
  lemma RunStopsAtError(st: State, lines: seq<string>, j: nat, rt: Runtime)
    requires j <= |lines| && RunFrom(st, lines[..j], rt).Err?
    ensures RunFrom(st, lines, rt) == RunFrom(st, lines[..j], rt)
  {
    assert lines == lines[..j] + lines[j..];
    RunAppend(st, lines[..j], lines[j..], rt);
  }

  /** A run that gets through `lines[..j]` goes on from there over the rest. */
  lemma RunSplitAt(st: State, lines: seq<string>, j: nat, rt: Runtime)
    requires j <= |lines| && RunFrom(st, lines[..j], rt).Ok?
    ensures RunFrom(st, lines, rt) == RunFrom(RunFrom(st, lines[..j], rt).value, lines[j..], rt)
  {
    assert lines == lines[..j] + lines[j..];
    RunAppend(st, lines[..j], lines[j..], rt);
  }

  /** Outside an array, blank lines and `#` comments change nothing. */
  lemma StepSkipsBlankAndComments(st: State, raw: string, rt: Runtime)
    requires st.pending.None?
    requires var line := Trim(raw, TrimSpace); line == [] || line[0] == '#'
    ensures Step(st, raw, rt) == Ok(st)
  {
  }

  /** Outside an array, a line of none of the five shapes is a syntax error. */
  lemma StepRejectsUnknownLine(st: State, raw: string, rt: Runtime)
    requires st.pending.None?
    requires var line := Trim(raw, TrimSpace);
      && line != [] && line[0] != '#' && line != "}"
      && (forall name :: !SectionShape(line, name))
      && (forall key, value :: !KeyValueShape(line, key, value, true) && !KeyValueShape(line, key, value, false))
    ensures Step(st, raw, rt) == Err(SyntaxError(Trim(raw, TrimSpace)))
  {
    MatchKeyEqSound(Trim(raw, TrimSpace));
  }

  /** The innermost scope is the node the open sections' keys lead to in the tree. */
  lemma {:induction false} InnermostAtPath(st: State)
    ensures Walk(Arr(Tree(st)), Path(st)) == Some(Arr(Innermost(st)))
    decreases |st.open|
  {
    if st.open != [] {
      var n := |st.open| - 1;
      var inner := st.open[n];
      var outer := st.(open := st.open[..n]);
      InnermostAtPath(Pop(st));
      assert Path(st) == Path(outer) + [inner.key];
      WalkAppend(Arr(Tree(st)), Path(outer), [inner.key]);
      PopLeadsBack(st);
    }
  }

  /** After closing the innermost section, its entries sit under its key in the enclosing scope. */
  lemma PopLeadsBack(st: State)
    requires st.open != []
    ensures var n := |st.open| - 1;
      && Path(Pop(st)) == Path(st.(open := st.open[..n]))
      && Innermost(Pop(st)) == Innermost(st.(open := st.open[..n]))[st.open[n].key := Arr(st.open[n].entries)]
      && Tree(st) == Tree(Pop(st))
  {
  }

  /** Writing to the innermost scope is, in the tree, setting the key in the array the path leads to; nothing else changes. */
  lemma {:induction false} TreePut(st: State, k: string, v: Value)
    ensures Tree(Put(st, k, v)) == UpdateAt(Tree(st), Path(st), k, v)
    decreases |st.open|
  {
    if st.open != [] {
      var n := |st.open| - 1;
      var inner := st.open[n];
      var outer := st.(open := st.open[..n]);
      var after := Put(st, k, v);
      assert Pop(after) == Put(outer, inner.key, Arr(inner.entries[k := v])) by {
        PutKeepsEnclosing(st, k, v);
      }
      assert Pop(st) == Put(outer, inner.key, Arr(inner.entries));
      assert Path(st) == Path(outer) + [inner.key];
      TreePut(outer, inner.key, Arr(inner.entries[k := v]));
      TreePut(outer, inner.key, Arr(inner.entries));
      InnermostAtPath(outer);
      UpdateAtNested(Tree(outer), Path(outer), inner.key, inner.entries, k, v);
    }
  }

  /**
   * Opening `name {` sets `name` in the current scope to an empty section,
   * whatever it held, and makes that section the innermost scope.
   */
  lemma StepOpensSection(st: State, raw: string, name: string, rt: Runtime)
    requires st.pending.None? && !st.detached
    requires SectionShape(Trim(raw, TrimSpace), name)
    ensures Step(st, raw, rt).Ok?
    ensures var s := Step(st, raw, rt).value;
      && s.pending.None? && !s.detached
      && Path(s) == Path(st) + [name] && Innermost(s) == map[]
      && Walk(Arr(Tree(s)), Path(st)) == Some(Arr(Innermost(st)[name := Arr(map[])]))
      && Tree(s) == UpdateAt(Tree(st), Path(st), name, Arr(map[]))
  {
    var line := Trim(raw, TrimSpace);
    MatchSectionComplete(line, name);
    assert line[0] == name[0];
    var s := OpenSection(st, name);
    assert Step(st, raw, rt) == Ok(s);
    assert s.open[..|st.open|] == st.open;
    assert Pop(s) == Put(st, name, Arr(map[]));
    InnermostAtPath(Put(st, name, Arr(map[])));
    TreePut(st, name, Arr(map[]));
  }

  /** `}` leaves the tree as it is: it only moves the innermost scope out, or detaches at the root. */
  lemma StepClosesSection(st: State, raw: string, rt: Runtime)
    requires st.pending.None? && Consistent(st)
    requires Trim(raw, TrimSpace) == "}"
    ensures Step(st, raw, rt).Ok?
    ensures var s := Step(st, raw, rt).value;
      && Consistent(s) && s.pending.None? && Tree(s) == Tree(st)
      && (st.open != [] ==> Path(s) == Path(st)[..|st.open| - 1] && !s.detached)
      && (st.open == [] ==> s.detached)
  {
    assert MatchSection("}").None?;
  }

  /**
   * A `key = value` or `key value` line either starts collecting a
   * multi-line array, or writes the coerced value under its key in the
   * innermost scope, leaving the scope's other keys as they were.
   */
  lemma StepAssigns(st: State, raw: string, rt: Runtime)
    requires st.pending.None? && !st.detached
    requires MatchSection(Trim(raw, TrimSpace)).None? && MatchKeyValue(Trim(raw, TrimSpace)).Some?
    ensures var m := MatchKeyValue(Trim(raw, TrimSpace)).value;
      var t := Trim(m.1, TrimSpace);
      if StartsWith(t, '[') && !EndsWith(t, ']') then
        Step(st, raw, rt) == Ok(st.(pending := Some(Pending(m.0, t))))
      else if ParseValue(m.1, rt).Err? then
        Step(st, raw, rt) == Err(ParseValue(m.1, rt).error)
      else
        && Step(st, raw, rt).Ok?
        && Step(st, raw, rt).value.pending.None? && !Step(st, raw, rt).value.detached
        && Path(Step(st, raw, rt).value) == Path(st)
        && Walk(Arr(Tree(Step(st, raw, rt).value)), Path(st)) == Some(Arr(Innermost(st)[m.0 := ParseValue(m.1, rt).value]))
        && Tree(Step(st, raw, rt).value) == UpdateAt(Tree(st), Path(st), m.0, ParseValue(m.1, rt).value)
  {
    var line := Trim(raw, TrimSpace);
    var m := MatchKeyValue(line).value;
    assert line != "}" by {
      assert "}"[0] !in WordChars;
    }
    if ParseValue(m.1, rt).Ok? {
      InnermostAtPath(Put(st, m.0, ParseValue(m.1, rt).value));
      TreePut(st, m.0, ParseValue(m.1, rt).value);
    }
  }

  /** One line keeps the stack empty once the root has been popped. */
  lemma StepKeepsConsistent(st: State, raw: string, rt: Runtime)
    requires Consistent(st) && Step(st, raw, rt).Ok?
    ensures Consistent(Step(st, raw, rt).value)
  {
  }

  /** Every state the loop reaches from the start is consistent: a detached stack is empty. */
  lemma {:induction false} RunConsistent(lines: seq<string>, rt: Runtime)
    requires RunFrom(Start, lines, rt).Ok?
    ensures Consistent(RunFrom(Start, lines, rt).value)
    decreases |lines|
  {
    if lines != [] {
      var pre := lines[..|lines| - 1];
      RunConsistent(pre, rt);
      StepKeepsConsistent(RunFrom(Start, pre, rt).value, lines[|lines| - 1], rt);
    }
  }

  /** A later assignment to a key in the same scope replaces the earlier one. */
  lemma PutOverwrites(st: State, k: string, v1: Value, v2: Value)
    ensures Put(Put(st, k, v1), k, v2) == Put(st, k, v2)
  {
    if st.open != [] {
      var n := |st.open| - 1;
      assert st.open[n].entries[k := v1][k := v2] == st.open[n].entries[k := v2];
    } else {
      assert st.root[k := v1][k := v2] == st.root[k := v2];
    }
  }

  /** Once a stray `}` has popped the root, no later line changes the tree. */
  lemma {:induction false} DetachedRunKeepsTree(st: State, lines: seq<string>, rt: Runtime)
    requires st.detached && st.open == []
    requires RunFrom(st, lines, rt).Ok?
    ensures var s := RunFrom(st, lines, rt).value; s.detached && s.open == [] && s.root == st.root
    decreases |lines|
  {
    if lines != [] {
      DetachedRunKeepsTree(st, lines[..|lines| - 1], rt);
      StepKeepsDetached(RunFrom(st, lines[..|lines| - 1], rt).value, lines[|lines| - 1], rt);
    }
  }

  /** One line after the root has been popped leaves the root as it was. */
  lemma StepKeepsDetached(st: State, raw: string, rt: Runtime)
    requires st.detached && st.open == []
    requires Step(st, raw, rt).Ok?
    ensures var s := Step(st, raw, rt).value; s.detached && s.open == [] && s.root == st.root
  {
    var line := Trim(raw, TrimSpace);
    if st.pending.Some? {
      var text := st.pending.value.text + " " + line;
      if EndsWith(line, ']') {
        var v := ParseValue(text, rt).value;
        assert Step(st, raw, rt) == Ok(Assign(st.(pending := None), st.pending.value.key, v));
      }
    } else if line == [] || line[0] == '#' || MatchSection(line).Some? || line == "}" {
    } else {
      var m := MatchKeyValue(line).value;
      assert Step(st, raw, rt) == AssignValue(st, m.0, m.1, rt);
      AssignValueDetached(st, m.0, m.1, rt);
    }
  }

  /** A detached assignment only changes the array mode. */
  lemma AssignValueDetached(st: State, key: string, rawVal: string, rt: Runtime)
    requires st.detached && AssignValue(st, key, rawVal, rt).Ok?
    ensures var s := AssignValue(st, key, rawVal, rt).value; s.detached && s.open == st.open && s.root == st.root
  {
  }

  /** The line ends a multi-line array: trimmed, it ends in `]`. */
  predicate EndsArray(raw: string) {
    EndsWith(Trim(raw, TrimSpace), ']')
  }

  /** The text a run of array lines adds: each trimmed line after one space. */
  function Collected(lines: seq<string>): string
    decreases |lines|
  {
    if lines == [] then "" else Collected(lines[..|lines| - 1]) + " " + Trim(lines[|lines| - 1], TrimSpace)
  }

  /** The run over nonempty `lines` is the run over all but the last, then one step. */
  lemma RunLast(st: State, lines: seq<string>, rt: Runtime)
    requires lines != [] && RunFrom(st, lines[..|lines| - 1], rt).Ok?
    ensures RunFrom(st, lines, rt) == Step(RunFrom(st, lines[..|lines| - 1], rt).value, lines[|lines| - 1], rt)
  {
  }

  /** Inside an array, one line not ending in `]` is appended after a space. */
  lemma StepCollects(st: State, raw: string, rt: Runtime)
    requires st.pending.Some? && !EndsArray(raw)
    ensures Step(st, raw, rt) == Ok(st.(pending := Some(Pending(st.pending.value.key, st.pending.value.text + " " + Trim(raw, TrimSpace)))))
  {
  }

  /**
   * The line that ends a multi-line array: the collected text plus the line
   * is coerced and assigned to the pending key in the innermost scope, and
   * the array mode ends; a text that does not decode is the error.
   */
  lemma StepCompletesArray(st: State, raw: string, rt: Runtime)
    requires st.pending.Some? && !st.detached && EndsArray(raw)
    ensures var p := st.pending.value;
      var text := p.text + " " + Trim(raw, TrimSpace);
      if ParseValue(text, rt).Err? then
        Step(st, raw, rt) == Err(ParseValue(text, rt).error)
      else
        && Step(st, raw, rt).Ok?
        && var s := Step(st, raw, rt).value;
        && s.pending.None? && !s.detached && Path(s) == Path(st)
        && Innermost(s) == Innermost(st)[p.key := ParseValue(text, rt).value]
        && Tree(s) == UpdateAt(Tree(st), Path(st), p.key, ParseValue(text, rt).value)
  {
    var p := st.pending.value;
    var text := p.text + " " + Trim(raw, TrimSpace);
    if ParseValue(text, rt).Ok? {
      var v := ParseValue(text, rt).value;
      assert Step(st, raw, rt) == Ok(Put(st.(pending := None), p.key, v));
      TreePut(st.(pending := None), p.key, v);
      TreeIgnoresPending(st, None);
    }
  }

  /**
   * Inside a multi-line array, a line that does not end in `]` is only
   * collected, whatever its shape: `}`, `name {` or `#...` included.
   */
  lemma {:induction false} ArrayLinesCollected(st: State, lines: seq<string>, rt: Runtime)
    requires st.pending.Some?
    requires forall i :: 0 <= i < |lines| ==> !EndsArray(lines[i])
    ensures RunFrom(st, lines, rt) == Ok(st.(pending := Some(Pending(st.pending.value.key, st.pending.value.text + Collected(lines)))))
    decreases |lines|
  {
    if lines != [] {
      var pre := lines[..|lines| - 1];
      assert forall i :: 0 <= i < |pre| ==> !EndsArray(pre[i]) by {
        forall i | 0 <= i < |pre| ensures !EndsArray(pre[i]) {
          assert pre[i] == lines[i];
        }
      }
      ArrayLinesCollected(st, pre, rt);
      CollectOneMore(st, lines, rt);
    } else {
      assert st.pending.value.text + Collected(lines) == st.pending.value.text;
    }
  }

  /** One more array line not ending in `]` extends what has been collected. */
  lemma CollectOneMore(st: State, lines: seq<string>, rt: Runtime)
    requires lines != [] && st.pending.Some? && !EndsArray(lines[|lines| - 1])
    requires var p := st.pending.value;
      RunFrom(st, lines[..|lines| - 1], rt) == Ok(st.(pending := Some(Pending(p.key, p.text + Collected(lines[..|lines| - 1])))))
    ensures var p := st.pending.value;
      RunFrom(st, lines, rt) == Ok(st.(pending := Some(Pending(p.key, p.text + Collected(lines)))))
  {
    var p := st.pending.value;
    var pre := lines[..|lines| - 1];
    var s' := st.(pending := Some(Pending(p.key, p.text + Collected(pre))));
    var line := Trim(lines[|lines| - 1], TrimSpace);
    StepCollects(s', lines[|lines| - 1], rt);
    RunLast(st, lines, rt);
    assert p.text + Collected(pre) + " " + line == p.text + Collected(lines) by {
      assert Collected(lines) == Collected(pre) + " " + line;
    }
  }

  /** An array still being collected when the lines run out is dropped: its key is never assigned. */
  lemma UnfinishedArrayDropped(lines: seq<string>, j: nat, rt: Runtime)
    requires j <= |lines| && RunFrom(Start, lines[..j], rt).Ok? && RunFrom(Start, lines[..j], rt).value.pending.Some?
    requires forall i :: j <= i < |lines| ==> !EndsArray(lines[i])
    ensures ParseSpec(lines, rt) == Ok(Tree(RunFrom(Start, lines[..j], rt).value))
  {
    var s := RunFrom(Start, lines[..j], rt).value;
    var rest := lines[j..];
    RunSplitAt(Start, lines, j, rt);
    assert forall i :: 0 <= i < |rest| ==> rest[i] == lines[j + i];
    ArrayLinesCollected(s, rest, rt);
    TreeIgnoresPending(s, Some(Pending(s.pending.value.key, s.pending.value.text + Collected(rest))));
  }

  /** The tree does not depend on the array being collected. */
  lemma {:induction false} TreeIgnoresPending(st: State, p: Option<Pending>)
    ensures Tree(st.(pending := p)) == Tree(st)
    decreases |st.open|
  {
    if st.open != [] {
      assert Pop(st.(pending := p)) == Pop(st).(pending := p);
      TreeIgnoresPending(Pop(st), p);
    }
  }

  /** After a `}` that pops the root, the result is the tree as it stood then. */
  lemma StrayCloserFreezesResult(lines: seq<string>, j: nat, rt: Runtime)
    requires j <= |lines| && RunFrom(Start, lines[..j], rt).Ok?
    requires var s := RunFrom(Start, lines[..j], rt).value; s.detached && s.open == []
    ensures ParseSpec(lines, rt).Ok? ==> ParseSpec(lines, rt).value == RunFrom(Start, lines[..j], rt).value.root
  {
    assert lines == lines[..j] + lines[j..];
    RunAppend(Start, lines[..j], lines[j..], rt);
    if RunFrom(Start, lines, rt).Ok? {
      DetachedRunKeepsTree(RunFrom(Start, lines[..j], rt).value, lines[j..], rt);
    }
  }

  // ---------------------------------------------------------------------
  // `parseFile`, imperatively
  // ---------------------------------------------------------------------

  /** The array mode as the locals `$inArray`, `$arrayKey`, `$arrayRaw` hold it. */
  function Mode(inArray: bool, arrayKey: string, arrayRaw: string): Option<Pending> {
    if inArray then Some(Pending(arrayKey, arrayRaw)) else None
  }

  /** One more line: the run over `lines[..i + 1]` is one `Step` after the run over `lines[..i]`. */
  lemma RunOneMore(st: State, lines: seq<string>, i: nat, rt: Runtime)
    requires i < |lines| && RunFrom(st, lines[..i], rt).Ok?
    ensures RunFrom(st, lines[..i + 1], rt) == Step(RunFrom(st, lines[..i], rt).value, lines[i], rt)
  {
    assert lines[..i + 1][..i] == lines[..i];
  }

  /** A line inside a multi-line array: append it, and assign the array once a line ends in `]`. */
  method ContinueArray(data: map<string, Value>, stack: seq<Scope>, detached: bool, arrayKey: string, arrayRaw: string,
                       lines: seq<string>, i: nat, rt: Runtime)
    returns (r: Result<State, ParseError>)
    requires i < |lines| && RunFrom(Start, lines[..i], rt) == Ok(State(data, stack, detached, Some(Pending(arrayKey, arrayRaw))))
    ensures r == RunFrom(Start, lines[..i + 1], rt)
  {
    RunOneMore(Start, lines, i, rt);
    var line := Trim(lines[i], TrimSpace);
    var text := arrayRaw + " " + line;
    if !EndsWith(line, ']') {
      return Ok(State(data, stack, detached, Some(Pending(arrayKey, text))));
    }
    var v := ParseValue(text, rt);
    if v.Err? {
      return Err(v.error);
    }
    if detached {
      return Ok(State(data, stack, detached, None));
    }
    var s := Put(State(data, stack, false, None), arrayKey, v.value);
    return Ok(State(s.root, s.open, false, None));
  }

  /** A line outside an array: skip, open or close a section, assign, begin an array, or fail. */
  method ReadDirective(data: map<string, Value>, stack: seq<Scope>, detached: bool, lines: seq<string>, i: nat, rt: Runtime)
    returns (r: Result<State, ParseError>)
    requires i < |lines| && RunFrom(Start, lines[..i], rt) == Ok(State(data, stack, detached, None))
    ensures r == RunFrom(Start, lines[..i + 1], rt)
  {
    RunOneMore(Start, lines, i, rt);
    var line := Trim(lines[i], TrimSpace);
    if line == [] || line[0] == '#' {
      return Ok(State(data, stack, detached, None));
    }
    var section := MatchSection(line);
    if section.Some? {
      var stack' := if detached then stack else stack + [Scope(section.value, map[])];
      return Ok(State(data, stack', detached, None));
    }
    if line == "}" {
      if detached || stack == [] {
        return Ok(State(data, stack, true, None));
      }
      var s := Pop(State(data, stack, false, None));
      return Ok(State(s.root, s.open, false, None));
    }
    var m := MatchKeyEq(line);
    if m.None? {
      m := MatchKeyWs(line);
    }
    if m.None? {
      return Err(SyntaxError(line));
    }
    var key, rawVal := m.value.0, m.value.1;
    var trimmed := Trim(rawVal, TrimSpace);
    if StartsWith(trimmed, '[') && !EndsWith(trimmed, ']') {
      return Ok(State(data, stack, detached, Some(Pending(key, trimmed))));
    }
    var v := ParseValue(rawVal, rt);
    if v.Err? {
      return Err(v.error);
    }
    if detached {
      return Ok(State(data, stack, detached, None));
    }
    var s := Put(State(data, stack, false, None), key, v.value);
    return Ok(State(s.root, s.open, false, None));
  }

  /**
   * `Parser::parseFile` after the file has been read into lines: the loop
   * over the lines, proved to compute `ParseSpec`.
   */
  method ParseFile(lines: seq<string>, rt: Runtime) returns (r: Result<map<string, Value>, ParseError>)
    ensures r == ParseSpec(lines, rt)
  {
    var data: map<string, Value> := map[];
    var stack: seq<Scope> := [];
    var detached := false;
    var inArray := false;
    var arrayKey := "";
    var arrayRaw := "";
    var i := 0;
    assert lines[..0] == [];
    assert RunFrom(Start, lines[..0], rt) == Ok(Start);
    while i < |lines|
      invariant 0 <= i <= |lines|
      invariant RunFrom(Start, lines[..i], rt) == Ok(State(data, stack, detached, Mode(inArray, arrayKey, arrayRaw)))
    {
      var next;
      if inArray {
        next := ContinueArray(data, stack, detached, arrayKey, arrayRaw, lines, i, rt);
      } else {
        next := ReadDirective(data, stack, detached, lines, i, rt);
      }
      if next.Err? {
        RunStopsAtError(Start, lines, i + 1, rt);
        return Err(next.error);
      }
      var after := next.value;
      data, stack, detached := after.root, after.open, after.detached;
      if after.pending.Some? {
        inArray, arrayKey, arrayRaw := true, after.pending.value.key, after.pending.value.text;
      } else {
        inArray, arrayKey, arrayRaw := false, "", "";
      }
      assert State(data, stack, detached, Mode(inArray, arrayKey, arrayRaw)) == after;
      assert RunFrom(Start, lines[..i + 1], rt) == Ok(State(data, stack, detached, Mode(inArray, arrayKey, arrayRaw)));
      i := i + 1;
    }
    assert lines[..i] == lines;
    r := Ok(Tree(State(data, stack, detached, Mode(inArray, arrayKey, arrayRaw))));
  }
}
