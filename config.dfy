/**
 * The read-only configuration object (src/Config.php): dot-path lookup
 * over the merged tree.  The tree is a constant field, so no member can
 * change it.
 */
module MlcConfig {
  import opened Wrappers
  import opened MlcValues
  import opened MlcText

  /** What `get` finds at a dot-path: the pieces of `explode('.', path)` followed from the root. */
  function Lookup(data: map<string, Value>, path: string): Option<Value> {
    Walk(Arr(data), Split(path, '.'))
  }

  class Config {
    const data: map<string, Value>

    constructor (data: map<string, Value>)
      ensures this.data == data
    {
      this.data := data;
    }

    /**
     * `get`: follows the dot-path one key at a time and returns the node it
     * ends on, of whatever kind, or `default` as soon as a key is missing or
     * the node reached is not an array.
     */
    method Get(path: string, default: Value) returns (r: Value)
      ensures Lookup(data, path).Some? ==> r == Lookup(data, path).value
      ensures Lookup(data, path).None? ==> r == default
    {
      var node := Arr(data);
      var keys := Split(path, '.');
      var i := 0;
      while i < |keys|
        invariant 0 <= i <= |keys|
        invariant Walk(Arr(data), keys) == Walk(node, keys[i..])
      {
        assert keys[i..][0] == keys[i] && keys[i..][1..] == keys[i + 1..];
        if !node.Arr? || keys[i] !in node.entries {
          return default;
        }
        node := node.entries[keys[i]];
        i := i + 1;
      }
      assert keys[i..] == [];
      return node;
    }

    /** `has`: the path resolves to something other than null; a stored null reads as absent. */
    method Has(path: string) returns (b: bool)
      ensures b <==> Lookup(data, path).Some? && Lookup(data, path).value != Null
    {
      var v := Get(path, Null);
      b := v != Null;
    }

    /** `all`: the tree the object was built with, unchanged. */
    function All(): (m: map<string, Value>)
      ensures m == data
    {
      data
    }
  }

  /** A path without dots names one key of the root; the empty path names the key "". */
  lemma LookupSingleKey(data: map<string, Value>, key: string)
    requires '.' !in key
    ensures Lookup(data, key) == if key in data then Some(data[key]) else None
  {
    SplitJoin([key], '.');
    assert Join([key], '.') == key;
    assert Split(key, '.') == [key];
    assert [key][1..] == [];
    if key in data {
      assert Walk(data[key], []) == Some(data[key]);
    }
  }

  /**
   * Extending a path by `.q` continues the walk from where the path ended;
   * a path that ends on a missing key or on a non-array goes no further.
   */
  lemma LookupDotted(data: map<string, Value>, p: string, q: string)
    ensures Lookup(data, p + "." + q) == match Lookup(data, p)
                                         case None => None
                                         case Some(n) => Walk(n, Split(q, '.'))
  {
    SplitConcat(p, q, '.');
    assert p + "." + q == p + ['.'] + q;
    WalkAppend(Arr(data), Split(p, '.'), Split(q, '.'));
  }

  /** Below a scalar (or a missing key) nothing is found: `get` returns the default. */
  lemma LookupStopsBelowScalar(data: map<string, Value>, p: string, q: string)
    requires Lookup(data, p).None? || !Lookup(data, p).value.Arr?
    ensures Lookup(data, p + "." + q).None?
  {
    LookupDotted(data, p, q);
  }

  /** A path of two dot-free keys splits into those keys. */
  lemma SplitTwo(a: string, b: string)
    requires '.' !in a && '.' !in b
    ensures Split(a + "." + b, '.') == [a, b]
  {
    SplitJoin([a], '.');
    SplitJoin([b], '.');
    assert Join([a], '.') == a && Join([b], '.') == b;
    SplitConcat(a, b, '.');
  }

  /** A path of three dot-free keys splits into those keys. */
  lemma SplitThree(a: string, b: string, c: string)
    requires '.' !in a && '.' !in b && '.' !in c
    ensures Split(a + "." + b + "." + c, '.') == [a, b, c]
  {
    SplitJoin([a], '.');
    SplitJoin([b], '.');
    SplitJoin([c], '.');
    assert Join([a], '.') == a && Join([b], '.') == b && Join([c], '.') == c;
    assert a + "." + b + "." + c == a + ['.'] + (b + ['.'] + c);
    SplitConcat(b, c, '.');
    SplitConcat(a, b + ['.'] + c, '.');
  }

  /** The worked example `{a: {b: {c: v}}}`, over any keys. */
  function Nested(a: string, b: string, c: string, v: Value): map<string, Value> {
    map[a := Arr(map[b := Arr(map[c := v])])]
  }

  /** In the worked example, `a.b.c` is the leaf. */
  lemma NestedLeafFound(a: string, b: string, c: string, v: Value)
    requires '.' !in a && '.' !in b && '.' !in c
    ensures Lookup(Nested(a, b, c, v), a + "." + b + "." + c) == Some(v)
  {
    SplitThree(a, b, c);
    var m := Nested(a, b, c, v);
    assert Lookup(m, a + "." + b + "." + c) == Walk(Arr(m), [a, b, c]);
    assert Walk(Arr(m), [a, b, c]) == Walk(m[a], [b, c]) by {
      assert [a, b, c][0] == a && [a, b, c][1..] == [b, c];
    }
    assert Walk(m[a], [b, c]) == Walk(m[a].entries[b], [c]) by {
      assert [b, c][0] == b && [b, c][1..] == [c];
    }
    assert Walk(m[a].entries[b], [c]) == Walk(v, []) by {
      assert [c][0] == c && [c][1..] == [];
    }
  }

  /** In the worked example, `a.b` is the inner section. */
  lemma NestedSectionFound(a: string, b: string, c: string, v: Value)
    requires '.' !in a && '.' !in b
    ensures Lookup(Nested(a, b, c, v), a + "." + b) == Some(Arr(map[c := v]))
  {
    SplitTwo(a, b);
    var m := Nested(a, b, c, v);
    assert Lookup(m, a + "." + b) == Walk(Arr(m), [a, b]);
    assert Walk(Arr(m), [a, b]) == Walk(m[a], [b]) by {
      assert [a, b][0] == a && [a, b][1..] == [b];
    }
    assert Walk(m[a], [b]) == Walk(m[a].entries[b], []) by {
      assert [b][0] == b && [b][1..] == [];
    }
  }

  /** In the worked example, a path through a missing key `x` finds nothing. */
  lemma NestedMissingKey(a: string, b: string, c: string, v: Value, x: string, y: string)
    requires '.' !in a && '.' !in x && '.' !in y && x != b
    ensures Lookup(Nested(a, b, c, v), a + "." + x + "." + y) == None
  {
    SplitThree(a, x, y);
    var m := Nested(a, b, c, v);
    assert Lookup(m, a + "." + x + "." + y) == Walk(Arr(m), [a, x, y]);
    assert Walk(Arr(m), [a, x, y]) == Walk(m[a], [x, y]) by {
      assert [a, x, y][0] == a && [a, x, y][1..] == [x, y];
    }
    assert x !in m[a].entries;
  }

  /** In the worked example, a missing leaf `z` beside `c` is absent. */
  lemma NestedMissingLeaf(a: string, b: string, c: string, v: Value, z: string)
    requires '.' !in a && '.' !in b && '.' !in z && z != c
    ensures Lookup(Nested(a, b, c, v), a + "." + b + "." + z) == None
  {
    SplitThree(a, b, z);
    var m := Nested(a, b, c, v);
    assert Lookup(m, a + "." + b + "." + z) == Walk(Arr(m), [a, b, z]);
    assert Walk(Arr(m), [a, b, z]) == Walk(m[a], [b, z]) by {
      assert [a, b, z][0] == a && [a, b, z][1..] == [b, z];
    }
    assert Walk(m[a], [b, z]) == Walk(m[a].entries[b], [z]) by {
      assert [b, z][0] == b && [b, z][1..] == [z];
    }
    assert z !in m[a].entries[b].entries;
  }
}
