/** Python values and the two recursive helpers over nested dicts, `get_keys` and `get_value`
    (story.py:12-40). A dependency tree is a nested dict whose leaves are `None`. */
module NestedDict {
  import opened Wrappers

  /** A Python value as it occurs in a dependency tree or in the story context. A dict is its
      list of entries in iteration order. */
  datatype Value =
    | Null
    | Str(s: string)
    | Num(n: int)
    | List(items: seq<Value>)
    | Dict(entries: seq<(string, Value)>)

  /** Python truthiness. */
  predicate Truthy(v: Value) {
    match v
    case Null => false
    case Str(s) => s != ""
    case Num(n) => n != 0
    case List(items) => items != []
    case Dict(entries) => entries != []
  }

  /** `d.keys()`. */
  function KeysOf(entries: seq<(string, Value)>): set<string> {
    set i | 0 <= i < |entries| :: entries[i].0
  }

  /** `d[k]` for a key that is present: the value of the first entry with that key. */
  function Lookup(entries: seq<(string, Value)>, k: string): (v: Value)
    requires k in KeysOf(entries)
    ensures exists i :: 0 <= i < |entries| && entries[i] == (k, v)
  {
    if entries[0].0 == k then entries[0].1
    else
      assert k in KeysOf(entries[1..]) by {
        var i :| 0 <= i < |entries| && entries[i].0 == k;
        assert entries[1..][i - 1].0 == k;
      }
      var v := Lookup(entries[1..], k);
      ghost var i :| 0 <= i < |entries| - 1 && entries[1..][i] == (k, v);
      assert entries[i + 1] == (k, v);
      v
  }

  // ---------------------------------------------------------------- get_keys

  /** `get_keys(d)`: every key of the dict with entries `entries`, at every depth. The result
      holds the top-level keys and all the keys of every nested dict. */
  function GetKeys(entries: seq<(string, Value)>): (r: set<string>)
    ensures KeysOf(entries) <= r
    ensures forall j :: 0 <= j < |entries| && entries[j].1.Dict? ==> GetKeys(entries[j].1.entries) <= r
    decreases Dict(entries), |entries| + 1
  {
    KeysFrom(entries, 0)
  }

  /** The keys that the loop of `get_keys` collects from the i-th entry on. */
  function KeysFrom(entries: seq<(string, Value)>, i: nat): (r: set<string>)
    requires i <= |entries|
    ensures forall j :: i <= j < |entries| ==> entries[j].0 in r
    ensures forall j :: i <= j < |entries| && entries[j].1.Dict? ==> GetKeys(entries[j].1.entries) <= r
    decreases Dict(entries), |entries| - i
  {
    if i == |entries| then {}
    else
      var (k, v) := entries[i];
      {k} + (if v.Dict? then GetKeys(v.entries) else {}) + KeysFrom(entries, i + 1)
  }

  /** The entry reached by following `path` from `d`: each index picks an entry of the dict at
      that depth, and every entry but the last must hold a dict. */
  ghost function EntryAt(d: Value, path: seq<nat>): Option<(string, Value)>
    decreases |path|
  {
    if path == [] || !d.Dict? || path[0] >= |d.entries| then None
    else if |path| == 1 then Some(d.entries[path[0]])
    else EntryAt(d.entries[path[0]].1, path[1..])
  }

  lemma {:induction false} KeysFromSound(entries: seq<(string, Value)>, i: nat, k: string)
    requires i <= |entries|
    requires k in KeysFrom(entries, i)
    ensures exists path :: |path| > 0 && path[0] >= i && EntryAt(Dict(entries), path).Some?
                           && EntryAt(Dict(entries), path).value.0 == k
    decreases Dict(entries), |entries| - i
  {
    var (key, v) := entries[i];
    if k == key {
      assert EntryAt(Dict(entries), [i]) == Some(entries[i]);
    } else if v.Dict? && k in GetKeys(v.entries) {
      KeysFromSound(v.entries, 0, k);
      var p :| |p| > 0 && p[0] >= 0 && EntryAt(Dict(v.entries), p).Some?
               && EntryAt(Dict(v.entries), p).value.0 == k;
      assert ([i] + p)[1..] == p;
      assert EntryAt(Dict(entries), [i] + p) == EntryAt(v, p);
    } else {
      KeysFromSound(entries, i + 1, k);
    }
  }

  lemma {:induction false} KeysFromComplete(entries: seq<(string, Value)>, i: nat, path: seq<nat>)
    requires |path| > 0 && i <= path[0]
    requires EntryAt(Dict(entries), path).Some?
    ensures i <= |entries| && EntryAt(Dict(entries), path).value.0 in KeysFrom(entries, i)
    decreases Dict(entries), |entries| - i
  {
    if i < path[0] {
      KeysFromComplete(entries, i + 1, path);
    } else if |path| > 1 {
      var v := entries[i].1;
      assert EntryAt(Dict(entries), path) == EntryAt(v, path[1..]);
      KeysFromComplete(v.entries, 0, path[1..]);
    }
  }

  /** `get_keys` returns exactly the keys found at some depth of the dict: the keys of a dict are
      those reached by some path through nested dicts. The empty dict has no path, so no keys. */
  lemma GetKeysExact(entries: seq<(string, Value)>, k: string)
    ensures k in GetKeys(entries) <==>
            exists path :: EntryAt(Dict(entries), path).Some? && EntryAt(Dict(entries), path).value.0 == k
  {
    if k in GetKeys(entries) {
      KeysFromSound(entries, 0, k);
    }
    if exists path :: EntryAt(Dict(entries), path).Some? && EntryAt(Dict(entries), path).value.0 == k {
      var path :| EntryAt(Dict(entries), path).Some? && EntryAt(Dict(entries), path).value.0 == k;
      KeysFromComplete(entries, 0, path);
    }
  }

  // --------------------------------------------------------------- get_value

  /** `get_value(d, k)`. A falsy `d` gives `None`; a truthy value that is not a dict has no
      `keys` method, so the call raises. A top-level key gives its value; otherwise the values
      are searched in order and the first truthy answer is returned, else `None`. */
  function GetValue(d: Value, k: string): (r: Result<Value>)
    ensures r.Err? ==> r.error == AttributeError("keys")
    decreases d, if d.Dict? then |d.entries| + 1 else 0
  {
    if !Truthy(d) then Ok(Null)
    else if !d.Dict? then Err(AttributeError("keys"))
    else if k in KeysOf(d.entries) then Ok(Lookup(d.entries, k))
    else SearchValues(d, k, 0)
  }

  /** The loop of `get_value` over the values of `d` from the i-th on. */
  function SearchValues(d: Value, k: string, i: nat): (r: Result<Value>)
    requires d.Dict? && i <= |d.entries|
    ensures r.Err? ==> r.error == AttributeError("keys")
    decreases d, |d.entries| - i
  {
    if i == |d.entries| then Ok(Null)
    else
      match GetValue(d.entries[i].1, k)
      case Err(e) => Err(e)
      case Ok(v) => if Truthy(v) then Ok(v) else SearchValues(d, k, i + 1)
  }

  /** The search of `get_value` passes over the i-th value of `d`: it answers with `None` or
      another falsy value. */
  predicate Skipped(d: Value, k: string, m: nat)
    requires d.Dict? && m < |d.entries|
  {
    GetValue(d.entries[m].1, k).Ok? && !Truthy(GetValue(d.entries[m].1, k).value)
  }

  /** The search over the values answers `None` exactly when every value is passed over, and
      otherwise with the answer, value or exception, of the first value not passed over. */
  lemma {:induction false} SearchValuesOrder(d: Value, k: string, i: nat)
    requires d.Dict? && i <= |d.entries|
    ensures SearchValues(d, k, i) == Ok(Null) <==> forall m :: i <= m < |d.entries| ==> Skipped(d, k, m)
    ensures SearchValues(d, k, i) != Ok(Null) ==>
              exists j :: i <= j < |d.entries| && !Skipped(d, k, j) && SearchValues(d, k, i) == GetValue(d.entries[j].1, k)
                          && forall m :: i <= m < j ==> Skipped(d, k, m)
    decreases |d.entries| - i
  {
    if i < |d.entries| {
      SearchValuesOrder(d, k, i + 1);
      if Skipped(d, k, i) {
        assert SearchValues(d, k, i) == SearchValues(d, k, i + 1);
        if SearchValues(d, k, i) != Ok(Null) {
          var j :| i + 1 <= j < |d.entries| && !Skipped(d, k, j) && SearchValues(d, k, i + 1) == GetValue(d.entries[j].1, k)
                   && forall m :: i + 1 <= m < j ==> Skipped(d, k, m);
          assert forall m :: i <= m < j ==> Skipped(d, k, m);
        }
      } else {
        assert SearchValues(d, k, i) == GetValue(d.entries[i].1, k);
      }
    }
  }

  /** `get_value(d, k)` on a truthy dict without `k` at the top: `None` when the search passes
      over every value, else the answer of the first value it does not pass over. */
  lemma GetValueFirstAnswer(d: Value, k: string)
    requires d.Dict? && d.entries != [] && k !in KeysOf(d.entries)
    ensures GetValue(d, k) == Ok(Null) <==> forall m :: 0 <= m < |d.entries| ==> Skipped(d, k, m)
    ensures GetValue(d, k) != Ok(Null) ==>
              exists j :: 0 <= j < |d.entries| && !Skipped(d, k, j) && GetValue(d, k) == GetValue(d.entries[j].1, k)
                          && forall m :: 0 <= m < j ==> Skipped(d, k, m)
  {
    SearchValuesOrder(d, k, 0);
  }

  /** A dependency tree: `None`, or a dict whose values are dependency trees. */
  ghost predicate DependencyTree(d: Value)
    decreases d
  {
    d.Null? || (d.Dict? && forall i :: 0 <= i < |d.entries| ==> DependencyTree(d.entries[i].1))
  }

  /** A truthy answer of the value loop from the i-th value on is stored under `k` inside one
      of the values it searched. */
  lemma {:induction false} SearchValuesSound(d: Value, k: string, i: nat)
    requires d.Dict? && i <= |d.entries|
    requires SearchValues(d, k, i).Ok? && Truthy(SearchValues(d, k, i).value)
    ensures exists path :: |path| > 0 && path[0] >= i && EntryAt(d, path) == Some((k, SearchValues(d, k, i).value))
    decreases d, |d.entries| - i
  {
    var r := GetValue(d.entries[i].1, k);
    if r.Ok? && Truthy(r.value) {
      GetValueSound(d.entries[i].1, k);
      var p :| EntryAt(d.entries[i].1, p) == Some((k, r.value));
      assert p != [];
      assert ([i] + p)[0] == i && ([i] + p)[1..] == p;
      assert EntryAt(d, [i] + p) == EntryAt(d.entries[i].1, p);
    } else {
      SearchValuesSound(d, k, i + 1);
    }
  }

  /** Whatever truthy value `get_value(d, k)` returns is stored under key `k` at some depth of `d`. */
  lemma {:induction false} GetValueSound(d: Value, k: string)
    requires GetValue(d, k).Ok? && Truthy(GetValue(d, k).value)
    ensures exists path :: EntryAt(d, path) == Some((k, GetValue(d, k).value))
    decreases d, if d.Dict? then |d.entries| + 1 else 0
  {
    var v := GetValue(d, k).value;
    if k in KeysOf(d.entries) {
      var i :| 0 <= i < |d.entries| && d.entries[i] == (k, v);
      assert EntryAt(d, [i]) == Some((k, v));
    } else {
      SearchValuesSound(d, k, 0);
    }
  }

  lemma {:induction false} SearchValuesInTree(d: Value, k: string, i: nat)
    requires d.Dict? && i <= |d.entries| && DependencyTree(d)
    ensures SearchValues(d, k, i).Ok?
    ensures k !in KeysFrom(d.entries, i) ==> SearchValues(d, k, i) == Ok(Null)
    decreases d, |d.entries| - i
  {
    if i < |d.entries| {
      var v := d.entries[i].1;
      GetValueInTree(v, k);
      SearchValuesInTree(d, k, i + 1);
    }
  }

  /** On a dependency tree `get_value` never raises, and a key that occurs at no depth gives `None`. */
  lemma {:induction false} GetValueInTree(d: Value, k: string)
    requires DependencyTree(d)
    ensures GetValue(d, k).Ok?
    ensures (d.Null? || k !in GetKeys(d.entries)) ==> GetValue(d, k) == Ok(Null)
    decreases d, if d.Dict? then |d.entries| + 1 else 0
  {
    if d.Dict? && d.entries != [] {
      if k !in KeysOf(d.entries) {
        SearchValuesInTree(d, k, 0);
      }
    }
  }

  /** `k` is the key of the entry at `path` in `d`, and of no other entry at any depth. */
  ghost predicate OnlyAt(d: Value, k: string, path: seq<nat>) {
    && EntryAt(d, path).Some? && EntryAt(d, path).value.0 == k
    && forall q :: EntryAt(d, q).Some? && EntryAt(d, q).value.0 == k ==> q == path
  }

  /** On a dependency tree in which no entry at any depth has key `k`, `get_value` gives `None`. */
  lemma AbsentInTree(d: Value, k: string)
    requires DependencyTree(d)
    requires forall q :: EntryAt(d, q).Some? ==> EntryAt(d, q).value.0 != k
    ensures GetValue(d, k) == Ok(Null)
  {
    GetValueInTree(d, k);
    if d.Dict? {
      GetKeysExact(d.entries, k);
    }
  }

  /** Values the search passes over do not change its answer. */
  lemma {:induction false} SearchValuesSkip(d: Value, k: string, a: nat, b: nat)
    requires d.Dict? && a <= b <= |d.entries|
    requires forall m :: a <= m < b ==> Skipped(d, k, m)
    ensures SearchValues(d, k, a) == SearchValues(d, k, b)
    decreases b - a
  {
    if a < b {
      assert Skipped(d, k, a);
      SearchValuesSkip(d, k, a + 1, b);
    }
  }

  /** The entry `(k, v)` at `path` is the only one with key `k` in the dependency tree `d`. */
  lemma {:induction false} OnlyAtStep(d: Value, k: string, path: seq<nat>)
    requires OnlyAt(d, k, path) && |path| > 1
    ensures d.Dict? && path[0] < |d.entries| && k !in KeysOf(d.entries)
    ensures OnlyAt(d.entries[path[0]].1, k, path[1..])
    ensures forall m :: 0 <= m < |d.entries| && m != path[0] ==>
              forall q :: EntryAt(d.entries[m].1, q).Some? ==> EntryAt(d.entries[m].1, q).value.0 != k
  {
    var i := path[0];
    var sub := d.entries[i].1;
    forall j | 0 <= j < |d.entries| ensures d.entries[j].0 != k {
      assert EntryAt(d, [j]) == Some(d.entries[j]);
    }
    forall q | EntryAt(sub, q).Some? && EntryAt(sub, q).value.0 == k ensures q == path[1..] {
      assert ([i] + q)[1..] == q;
      assert EntryAt(d, [i] + q) == EntryAt(sub, q);
    }
    forall m, q | 0 <= m < |d.entries| && m != i && EntryAt(d.entries[m].1, q).Some?
      ensures EntryAt(d.entries[m].1, q).value.0 != k
    {
      assert ([m] + q)[1..] == q;
      assert EntryAt(d, [m] + q) == EntryAt(d.entries[m].1, q);
      assert ([m] + q)[0] != path[0];
    }
  }

  /** When `k` occurs exactly once in a dependency tree, `get_value` finds it: a non-leaf `k`
      gives its dict and a leaf gives `None`. */
  lemma {:induction false} GetValueOnlyAt(d: Value, k: string, path: seq<nat>)
    requires DependencyTree(d) && OnlyAt(d, k, path)
    ensures Truthy(EntryAt(d, path).value.1) ==> GetValue(d, k) == Ok(EntryAt(d, path).value.1)
    ensures EntryAt(d, path).value.1.Null? ==> GetValue(d, k) == Ok(Null)
    decreases d
  {
    var i := path[0];
    var v := EntryAt(d, path).value.1;
    if |path| == 1 {
      assert d.entries[i] == (k, v);
      var w := Lookup(d.entries, k);
      var j :| 0 <= j < |d.entries| && d.entries[j] == (k, w);
      assert EntryAt(d, [j]) == Some(d.entries[j]);
    } else {
      OnlyAtStep(d, k, path);
      var sub := d.entries[i].1;
      assert EntryAt(d, path) == EntryAt(sub, path[1..]);
      GetValueOnlyAt(sub, k, path[1..]);
      forall m | 0 <= m < |d.entries| && m != i ensures GetValue(d.entries[m].1, k) == Ok(Null) {
        AbsentInTree(d.entries[m].1, k);
      }
      SearchValuesSkip(d, k, 0, i);
      if v.Null? {
        SearchValuesSkip(d, k, i, |d.entries|);
      }
    }
  }

  /** A top-level `k` hides a deeper one: here the second key `k` holds a dict, yet `get_value`
      returns the `None` under the first. */
  lemma GetValueShadowed()
    ensures EntryAt(Dict([("k", Null), ("a", Dict([("k", Dict([("x", Null)]))]))]), [1, 0])
            == Some(("k", Dict([("x", Null)])))
    ensures GetValue(Dict([("k", Null), ("a", Dict([("k", Dict([("x", Null)]))]))]), "k") == Ok(Null)
  {
    var d := Dict([("k", Null), ("a", Dict([("k", Dict([("x", Null)]))]))]);
    assert [1, 0][1..] == [0];
    assert d.entries[0].0 == "k";
    assert "k" in KeysOf(d.entries);
  }
}
