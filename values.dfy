/**
 * The value tree a configuration file denotes.  Sections and decoded JSON
 * lists are both PHP arrays, so both are one `Arr` node; a list's elements
 * are keyed by their index written in decimal ("0", "1", ...), which is how
 * both `array_replace_recursive` and the dot-path accessor see them.
 */
module MlcValues {
  import opened Wrappers

  datatype Value =
    | Bool(b: bool)
    | Int(i: int)
    | Float(literal: string)   // a PHP float, kept as the literal it was read from
    | Str(s: string)
    | Null                     // only ever produced by the JSON decoder
    | Arr(entries: map<string, Value>)

  /** The node reached from `node` by following `path` key by key, if every key is there. */
  function Walk(node: Value, path: seq<string>): Option<Value>
    decreases |path|
  {
    if path == [] then Some(node)
    else if node.Arr? && path[0] in node.entries then Walk(node.entries[path[0]], path[1..])
    else None
  }

  /** Walking a concatenated path is walking the first part, then the second from where it ended. */
  lemma {:induction false} WalkAppend(node: Value, p: seq<string>, q: seq<string>)
    ensures Walk(node, p + q) == match Walk(node, p)
                                 case None => None
                                 case Some(n) => Walk(n, q)
    decreases |p|
  {
    if p != [] {
      assert (p + q)[0] == p[0] && (p + q)[1..] == p[1..] + q;
      if node.Arr? && p[0] in node.entries {
        WalkAppend(node.entries[p[0]], p[1..], q);
      }
    } else {
      assert p + q == q;
    }
  }

  /**
   * `tree` with `k` set to `v` in the array that `path` leads to: the
   * assignment `$current[$k] = $v` seen from the root.  A path that leads
   * to no array leaves the tree alone.
   */
  function UpdateAt(tree: map<string, Value>, path: seq<string>, k: string, v: Value): map<string, Value>
    decreases |path|
  {
    if path == [] then tree[k := v]
    else if path[0] in tree && tree[path[0]].Arr? then
      tree[path[0] := Arr(UpdateAt(tree[path[0]].entries, path[1..], k, v))]
    else tree
  }

  /** After the update, the array at `path` is the old one with `k` set to `v`. */
  lemma {:induction false} UpdateAtReaches(tree: map<string, Value>, path: seq<string>, k: string, v: Value)
    requires Walk(Arr(tree), path).Some? && Walk(Arr(tree), path).value.Arr?
    ensures Walk(Arr(UpdateAt(tree, path, k, v)), path) == Some(Arr(Walk(Arr(tree), path).value.entries[k := v]))
    decreases |path|
  {
    if path != [] {
      UpdateAtReaches(tree[path[0]].entries, path[1..], k, v);
    }
  }

  /** A path that leaves `path + [k]` at some position `i` reads the same before and after the update. */
  lemma {:induction false} UpdateAtOffPath(tree: map<string, Value>, path: seq<string>, k: string, v: Value, q: seq<string>, i: nat)
    requires i < |q| && i <= |path| && q[i] != (path + [k])[i]
    ensures Walk(Arr(UpdateAt(tree, path, k, v)), q) == Walk(Arr(tree), q)
    decreases |path|
  {
    if path != [] && q[0] == path[0] && path[0] in tree && tree[path[0]].Arr? {
      assert i > 0;
      assert q[1..][i - 1] == q[i] && (path[1..] + [k])[i - 1] == (path + [k])[i];
      UpdateAtOffPath(tree[path[0]].entries, path[1..], k, v, q[1..], i - 1);
    }
  }

  /** Setting `k` inside the array just written under `key` is writing the updated array under `key`. */
  lemma {:induction false} UpdateAtNested(tree: map<string, Value>, path: seq<string>, key: string, e: map<string, Value>, k: string, v: Value)
    requires Walk(Arr(tree), path).Some? && Walk(Arr(tree), path).value.Arr?
    ensures UpdateAt(UpdateAt(tree, path, key, Arr(e)), path + [key], k, v) == UpdateAt(tree, path, key, Arr(e[k := v]))
    decreases |path|
  {
    if path == [] {
      assert [key][1..] == [];
      assert tree[key := Arr(e)][key := Arr(e[k := v])] == tree[key := Arr(e[k := v])];
    } else {
      assert (path + [key])[0] == path[0] && (path + [key])[1..] == path[1..] + [key];
      UpdateAtNested(tree[path[0]].entries, path[1..], key, e, k, v);
      var t := tree[path[0] := Arr(UpdateAt(tree[path[0]].entries, path[1..], key, Arr(e)))];
      assert t[path[0] := Arr(UpdateAt(t[path[0]].entries, path[1..] + [key], k, v))]
          == tree[path[0] := Arr(UpdateAt(tree[path[0]].entries, path[1..], key, Arr(e[k := v])))];
    }
  }

  function Digit(d: nat): (c: char)
    requires d < 10
    ensures '0' <= c <= '9'
  {
    ('0' as int + d) as char
  }

  /** The decimal text of `n`: the key PHP gives the `n`-th element of a list. */
  function DecimalKey(n: nat): (s: string)
    ensures s != []
    ensures forall i :: 0 <= i < |s| ==> '0' <= s[i] <= '9'
  {
    if n < 10 then [Digit(n)] else DecimalKey(n / 10) + [Digit(n % 10)]
  }

  /** Reads decimal digits back into a number. */
  function DecimalValue(s: string): nat
    requires forall i :: 0 <= i < |s| ==> '0' <= s[i] <= '9'
  {
    if s == [] then 0 else DecimalValue(s[..|s| - 1]) * 10 + (s[|s| - 1] as int - '0' as int)
  }

  lemma {:induction false} DecimalRoundTrip(n: nat)
    ensures DecimalValue(DecimalKey(n)) == n
  {
    if n >= 10 {
      var s := DecimalKey(n);
      assert s[..|s| - 1] == DecimalKey(n / 10);
      DecimalRoundTrip(n / 10);
    }
  }

  /** Distinct indices have distinct keys. */
  lemma DecimalKeyInjective()
    ensures forall i: nat, j: nat :: DecimalKey(i) == DecimalKey(j) ==> i == j
  {
    forall i: nat, j: nat | DecimalKey(i) == DecimalKey(j)
      ensures i == j
    {
      DecimalRoundTrip(i);
      DecimalRoundTrip(j);
    }
  }

  /** The array `json_decode(..., true)` yields for a JSON list with these elements. */
  function ListValue(elems: seq<Value>): (r: Value)
    ensures r.Arr?
    ensures forall i :: 0 <= i < |elems| ==> DecimalKey(i) in r.entries && r.entries[DecimalKey(i)] == elems[i]
    ensures forall k :: k in r.entries ==> exists i :: 0 <= i < |elems| && k == DecimalKey(i)
  {
    DecimalKeyInjective();
    Arr(map i | 0 <= i < |elems| :: DecimalKey(i) := elems[i])
  }
}
