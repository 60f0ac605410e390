/**
 * Loading several named files and merging them, later files winning
 * (src/Loader.php).  The directory is a map from file name to the file's
 * lines, so `is_file` becomes membership and `file()` a map read.
 */
module MlcLoader {
  import opened Wrappers
  import opened MlcValues
  import opened MlcParser
  import opened MlcConfig

  /** Why loading stops: a name with no file, or a file the parser rejects. */
  datatype LoadError =
    | MissingFile(name: string)
    | BadFile(name: string, error: ParseError)

  /**
   * `array_replace_recursive(base, over)`: every key of either side is kept;
   * where both sides hold arrays they are merged the same way, otherwise the
   * value from `over` replaces the one from `base`.  Lists are arrays keyed
   * by index, so they merge position by position.
   */
  function ReplaceRecursive(base: map<string, Value>, over: map<string, Value>): (r: map<string, Value>)
    ensures r.Keys == base.Keys + over.Keys
    ensures forall k :: k in over && !(k in base && base[k].Arr? && over[k].Arr?) ==> r[k] == over[k]
    ensures forall k :: k in base && k !in over ==> r[k] == base[k]
    ensures forall k :: k in base && k in over && base[k].Arr? && over[k].Arr? ==>
              r[k].Arr? && r[k].entries.Keys == base[k].entries.Keys + over[k].entries.Keys
    ensures forall k :: k in base && k in over && base[k].Arr? && over[k].Arr? ==>
              r[k] == Arr(ReplaceRecursive(base[k].entries, over[k].entries))
    decreases Arr(over)
  {
    map k | k in base.Keys + over.Keys ::
      if k !in over then base[k]
      else if k in base && base[k].Arr? && over[k].Arr? then
        assert over[k] in over.Values;
        Arr(ReplaceRecursive(base[k].entries, over[k].entries))
      else over[k]
  }

  /** Merging into nothing gives the file's own tree. */
  lemma {:induction false} ReplaceIntoEmpty(m: map<string, Value>)
    ensures ReplaceRecursive(map[], m) == m
  {
  }

  /** Merging nothing in leaves the tree as it was. */
  lemma ReplaceWithEmpty(m: map<string, Value>)
    ensures ReplaceRecursive(m, map[]) == m
  {
  }

  /** Loading the same tree twice changes nothing. */
  lemma {:induction false} ReplaceIdempotent(m: map<string, Value>)
    ensures ReplaceRecursive(m, m) == m
    decreases Arr(m)
  {
    forall k | k in m
      ensures ReplaceRecursive(m, m)[k] == m[k]
    {
      if m[k].Arr? {
        assert m[k] in m.Values;
        ReplaceIdempotent(m[k].entries);
      }
    }
  }

  /** Index `i` is a key of a list exactly when it is in range. */
  lemma ListKeyInRange(elems: seq<Value>, i: nat)
    ensures DecimalKey(i) in ListValue(elems).entries <==> i < |elems|
  {
    if DecimalKey(i) in ListValue(elems).entries {
      var j :| 0 <= j < |elems| && DecimalKey(i) == DecimalKey(j);
      DecimalRoundTrip(i);
      DecimalRoundTrip(j);
    }
  }

  /** The list the merge of `a` and `b` should give: `b`, then what `a` has beyond it. */
  function Overlaid(a: seq<Value>, b: seq<Value>): seq<Value> {
    if |b| >= |a| then b else b + a[|b|..]
  }

  /** At one index, the merge holds the overlaid list's element. */
  lemma MergeAtIndex(a: seq<Value>, b: seq<Value>, i: nat)
    requires forall j :: 0 <= j < |a| && j < |b| ==> !(a[j].Arr? && b[j].Arr?)
    requires i < |Overlaid(a, b)|
    ensures DecimalKey(i) in ReplaceRecursive(ListValue(a).entries, ListValue(b).entries)
    ensures ReplaceRecursive(ListValue(a).entries, ListValue(b).entries)[DecimalKey(i)] == Overlaid(a, b)[i]
  {
    ListKeyInRange(a, i);
    ListKeyInRange(b, i);
  }

  /**
   * Two lists whose paired elements are never both arrays merge index by
   * index: the later list's elements, then the earlier list's surplus.
   */
  lemma ListsMergeByIndex(a: seq<Value>, b: seq<Value>)
    requires forall i :: 0 <= i < |a| && i < |b| ==> !(a[i].Arr? && b[i].Arr?)
    ensures ReplaceRecursive(ListValue(a).entries, ListValue(b).entries) == ListValue(Overlaid(a, b)).entries
  {
    var r := ReplaceRecursive(ListValue(a).entries, ListValue(b).entries);
    var e := ListValue(Overlaid(a, b)).entries;
    MergedKeysListed(a, b);
    ListedKeysMerged(a, b);
    SameEntries(r, e);
  }

  /** Two maps with the same keys and the same value at each key are equal. */
  lemma SameEntries(r: map<string, Value>, e: map<string, Value>)
    requires forall k :: k in r ==> k in e && r[k] == e[k]
    requires forall k :: k in e ==> k in r
    ensures r == e
  {
    assert r.Keys == e.Keys;
  }

  lemma MergedKeysListed(a: seq<Value>, b: seq<Value>)
    requires forall j :: 0 <= j < |a| && j < |b| ==> !(a[j].Arr? && b[j].Arr?)
    ensures var r := ReplaceRecursive(ListValue(a).entries, ListValue(b).entries);
      forall k :: k in r ==> k in ListValue(Overlaid(a, b)).entries && r[k] == ListValue(Overlaid(a, b)).entries[k]
  {
    forall k | k in ReplaceRecursive(ListValue(a).entries, ListValue(b).entries)
      ensures k in ListValue(Overlaid(a, b)).entries
      ensures ReplaceRecursive(ListValue(a).entries, ListValue(b).entries)[k] == ListValue(Overlaid(a, b)).entries[k]
    {
      MergedKeyIsIndex(a, b, k);
    }
  }

  lemma ListedKeysMerged(a: seq<Value>, b: seq<Value>)
    requires forall j :: 0 <= j < |a| && j < |b| ==> !(a[j].Arr? && b[j].Arr?)
    ensures forall k :: k in ListValue(Overlaid(a, b)).entries ==> k in ReplaceRecursive(ListValue(a).entries, ListValue(b).entries)
  {
    forall k | k in ListValue(Overlaid(a, b)).entries
      ensures k in ReplaceRecursive(ListValue(a).entries, ListValue(b).entries)
    {
      var i :| 0 <= i < |Overlaid(a, b)| && k == DecimalKey(i);
      MergeAtIndex(a, b, i);
    }
  }

  /** Every key of the merge is an index of the overlaid list, holding its element. */
  lemma MergedKeyIsIndex(a: seq<Value>, b: seq<Value>, k: string)
    requires forall j :: 0 <= j < |a| && j < |b| ==> !(a[j].Arr? && b[j].Arr?)
    requires k in ReplaceRecursive(ListValue(a).entries, ListValue(b).entries)
    ensures k in ListValue(Overlaid(a, b)).entries
    ensures ReplaceRecursive(ListValue(a).entries, ListValue(b).entries)[k] == ListValue(Overlaid(a, b)).entries[k]
  {
    var i: nat;
    if k in ListValue(b).entries {
      i :| 0 <= i < |b| && k == DecimalKey(i);
    } else {
      i :| 0 <= i < |a| && k == DecimalKey(i);
    }
    MergeAtIndex(a, b, i);
  }

  /** `[1, 2]` then `[3]` is `[3, 2]`: lists are not replaced wholesale. */
  lemma ShorterListKeepsTail()
    ensures ReplaceRecursive(ListValue([Int(1), Int(2)]).entries, ListValue([Int(3)]).entries)
            == ListValue([Int(3), Int(2)]).entries
  {
    ListsMergeByIndex([Int(1), Int(2)], [Int(3)]);
    assert Overlaid([Int(1), Int(2)], [Int(3)]) == [Int(3), Int(2)];
  }

  /**
   * What the later tree holds at a path is what the merged tree holds
   * there, unless both trees hold arrays at that path (those are merged).
   */
  lemma {:induction false} LaterScalarWins(base: map<string, Value>, over: map<string, Value>, p: seq<string>, v: Value)
    requires Walk(Arr(over), p) == Some(v)
    requires !v.Arr? || !(Walk(Arr(base), p).Some? && Walk(Arr(base), p).value.Arr?)
    ensures Walk(Arr(ReplaceRecursive(base, over)), p) == Some(v)
    decreases |p|
  {
    assert p != [];
    var r := ReplaceRecursive(base, over);
    var k := p[0];
    assert Walk(over[k], p[1..]) == Some(v);
    if k in base && base[k].Arr? && over[k].Arr? {
      assert Walk(Arr(base), p) == Walk(base[k], p[1..]);
      LaterScalarWins(base[k].entries, over[k].entries, p[1..], v);
    } else {
      assert r[k] == over[k];
    }
  }

  /** The later tree has no value at `p` and none at a prefix of it that would cut the path off. */
  predicate Untouched(node: Value, p: seq<string>)
    decreases |p|
  {
    p != [] && node.Arr? && (p[0] !in node.entries || Untouched(node.entries[p[0]], p[1..]))
  }

  /** What the earlier tree holds at a path the later tree leaves untouched survives the merge. */
  lemma {:induction false} UntouchedPathKept(base: map<string, Value>, over: map<string, Value>, p: seq<string>, v: Value)
    requires Untouched(Arr(over), p)
    requires Walk(Arr(base), p) == Some(v)
    ensures Walk(Arr(ReplaceRecursive(base, over)), p) == Some(v)
    decreases |p|
  {
    var r := ReplaceRecursive(base, over);
    var k := p[0];
    if k !in over {
      assert r[k] == base[k];
    } else {
      assert Untouched(over[k], p[1..]);
      assert p[1..] != [];
      assert base[k].Arr?;
      UntouchedPathKept(base[k].entries, over[k].entries, p[1..], v);
    }
  }

  /**
   * The specification of `load`: parse each named file in order and fold
   * it into the result; the first missing or unparsable file ends the load
   * with its error and nothing is returned.
   */
  function LoadSpec(names: seq<string>, files: map<string, seq<string>>, rt: Runtime): Result<map<string, Value>, LoadError>
    decreases |names|
  {
    if names == [] then Ok(map[])
    else
      var merged :- LoadSpec(names[..|names| - 1], files, rt);
      var n := names[|names| - 1];
      if n !in files then Err(MissingFile(n))
      else match ParseSpec(files[n], rt)
        case Err(e) => Err(BadFile(n, e))
        case Ok(cfg) => Ok(ReplaceRecursive(merged, cfg))
  }

  /** Once a prefix of the names fails, the whole load fails the same way. */
  lemma {:induction false} LoadStopsAtError(names: seq<string>, i: nat, files: map<string, seq<string>>, rt: Runtime)
    requires i <= |names|
    requires LoadSpec(names[..i], files, rt).Err?
    ensures LoadSpec(names, files, rt) == LoadSpec(names[..i], files, rt)
    decreases |names| - i
  {
    if i < |names| {
      assert names[..i + 1][..i] == names[..i];
      LoadStopsAtError(names, i + 1, files, rt);
    } else {
      assert names[..i] == names;
    }
  }

  /** Loading succeeds exactly when every named file exists and parses. */
  lemma {:induction false} LoadOkIff(names: seq<string>, files: map<string, seq<string>>, rt: Runtime)
    ensures LoadSpec(names, files, rt).Ok? <==> Loadable(names, files, rt)
    decreases |names|
  {
    if names != [] {
      LoadOkIff(names[..|names| - 1], files, rt);
      LoadOneMore(names, files, rt);
      LoadableOneMore(names, files, rt);
    }
  }

  /** Every named file exists and parses. */
  predicate Loadable(names: seq<string>, files: map<string, seq<string>>, rt: Runtime) {
    forall i :: 0 <= i < |names| ==> names[i] in files && ParseSpec(files[names[i]], rt).Ok?
  }

  lemma LoadableOneMore(names: seq<string>, files: map<string, seq<string>>, rt: Runtime)
    requires names != []
    ensures var n := names[|names| - 1];
      Loadable(names, files, rt) <==> Loadable(names[..|names| - 1], files, rt) && n in files && ParseSpec(files[n], rt).Ok?
  {
    var init := names[..|names| - 1];
    assert forall i :: 0 <= i < |init| ==> init[i] == names[i];
  }

  /** The last name loads exactly when everything before it did and its own file exists and parses. */
  lemma LoadOneMore(names: seq<string>, files: map<string, seq<string>>, rt: Runtime)
    requires names != []
    ensures var n := names[|names| - 1];
      LoadSpec(names, files, rt).Ok? <==>
      LoadSpec(names[..|names| - 1], files, rt).Ok? && n in files && ParseSpec(files[n], rt).Ok?
  {
  }

  /** A missing file is reported by name when every file before it loads. */
  lemma MissingFileReported(names: seq<string>, j: nat, files: map<string, seq<string>>, rt: Runtime)
    requires j < |names| && names[j] !in files
    requires LoadSpec(names[..j], files, rt).Ok?
    ensures LoadSpec(names, files, rt) == Err(MissingFile(names[j]))
  {
    assert names[..j + 1][..j] == names[..j];
    LoadStopsAtError(names, j + 1, files, rt);
  }

  /** One file loads to its own parse. */
  lemma LoadOneFile(n: string, files: map<string, seq<string>>, rt: Runtime)
    requires n in files && ParseSpec(files[n], rt).Ok?
    ensures LoadSpec([n], files, rt) == Ok(ParseSpec(files[n], rt).value)
  {
    assert [n][..0] == [];
    ReplaceIntoEmpty(ParseSpec(files[n], rt).value);
  }

  /**
   * Later files override earlier keys: what the last file holds at a path is
   * what the load returns there, unless both it and the earlier files hold
   * arrays at that path.
   */
  lemma LastFileWins(names: seq<string>, files: map<string, seq<string>>, rt: Runtime, p: seq<string>, v: Value)
    requires names != [] && LoadSpec(names, files, rt).Ok?
    requires Walk(Arr(ParseSpec(files[names[|names| - 1]], rt).value), p) == Some(v)
    requires var before := Walk(Arr(LoadSpec(names[..|names| - 1], files, rt).value), p);
      !v.Arr? || !(before.Some? && before.value.Arr?)
    ensures Walk(Arr(LoadSpec(names, files, rt).value), p) == Some(v)
  {
    var merged := LoadSpec(names[..|names| - 1], files, rt).value;
    LaterScalarWins(merged, ParseSpec(files[names[|names| - 1]], rt).value, p, v);
  }

  /** No top-level key of any loaded file is lost. */
  lemma {:induction false} LoadKeepsKeys(names: seq<string>, files: map<string, seq<string>>, rt: Runtime, i: nat, k: string)
    requires LoadSpec(names, files, rt).Ok? && i < |names|
    requires names[i] in files && ParseSpec(files[names[i]], rt).Ok?
    requires k in ParseSpec(files[names[i]], rt).value
    ensures k in LoadSpec(names, files, rt).value
    decreases |names|
  {
    if i < |names| - 1 {
      var init := names[..|names| - 1];
      assert init[i] == names[i];
      LoadKeepsKeys(init, files, rt, i, k);
    }
  }

  /**
   * `load`: for each name, a missing file is an error, otherwise its parse
   * is merged over what came before; the merged tree becomes a `Config`.
   */
  method Load(names: seq<string>, files: map<string, seq<string>>, rt: Runtime) returns (r: Result<Config, LoadError>)
    ensures r.Ok? <==> LoadSpec(names, files, rt).Ok?
    ensures r.Ok? ==> fresh(r.value) && r.value.data == LoadSpec(names, files, rt).value
    ensures r.Err? ==> r.error == LoadSpec(names, files, rt).error
  {
    var merged: map<string, Value> := map[];
    var i := 0;
    while i < |names|
      invariant 0 <= i <= |names|
      invariant LoadSpec(names[..i], files, rt) == Ok(merged)
    {
      assert names[..i + 1][..i] == names[..i];
      var n := names[i];
      if n !in files {
        LoadStopsAtError(names, i + 1, files, rt);
        return Err(MissingFile(n));
      }
      var cfg := ParseFile(files[n], rt);
      if cfg.Err? {
        LoadStopsAtError(names, i + 1, files, rt);
        return Err(BadFile(n, cfg.error));
      }
      merged := ReplaceRecursive(merged, cfg.value);
      i := i + 1;
    }
    assert names[..i] == names;
    var c := new Config(merged);
    return Ok(c);
  }
}
