// What the round trip preserves: the Lua table a value denotes. And which values
// come back unchanged.
module LuaMeaning {
  import opened Bytes
  import opened LuaValues
  import opened LuaNodes
  import opened LuaSerialize
  import opened LuaReadBack

  // A Lua value: lists and dicts are both tables, and tables have no order.
  datatype Lua =
    | Boolean(b: bool)
    | Number(n: int)
    | Float(r: real)
    | String(s: bytes)
    | Table(fields: map<Key, Lua>)

  function MapOf(keys: seq<Key>, vals: seq<Lua>): map<Key, Lua>
    requires |keys| == |vals|
  {
    if keys == [] then map[]
    else MapOf(keys[..|keys| - 1], vals[..|vals| - 1])[keys[|keys| - 1] := vals[|vals| - 1]]
  }

  function Denote(v: Value): Lua
    decreases v
  {
    match v
    case Bool(b) => Boolean(b)
    case Int(n) => Number(n)
    case Float(r) => Lua.Float(r)
    case Str(s) => String(s)
    case List(items) =>
      Table(MapOf(ListKeys(|items|), seq(|items|, i requires 0 <= i < |items| => Denote(items[i]))))
    case Dict(es) =>
      Table(MapOf(DictKeys(es), seq(|es|, i requires 0 <= i < |es| => Denote(es[i].val))))
  }

  // The fields of a table given by its entries.
  function Fields(es: seq<Entry>): map<Key, Lua> {
    MapOf(DictKeys(es), seq(|es|, i requires 0 <= i < |es| => Denote(es[i].val)))
  }

  lemma DenoteTable(v: Value)
    requires IsTable(v)
    ensures Denote(v) == Table(Fields(Entries(v)))
  {
    if v.List? {
      var es := ListEntries(v.items);
      assert DictKeys(es) == ListKeys(|v.items|);
      assert seq(|v.items|, i requires 0 <= i < |v.items| => Denote(v.items[i]))
          == seq(|es|, i requires 0 <= i < |es| => Denote(es[i].val));
    }
  }

  lemma FieldsSnoc(es: seq<Entry>)
    requires es != []
    ensures Fields(es) == Fields(es[..|es| - 1])[es[|es| - 1].key := Denote(es[|es| - 1].val)]
  {
    var init := es[..|es| - 1];
    assert DictKeys(es)[..|init|] == DictKeys(init);
    assert seq(|es|, i requires 0 <= i < |es| => Denote(es[i].val))[..|init|]
        == seq(|init|, i requires 0 <= i < |init| => Denote(init[i].val));
  }

  lemma {:induction false} FieldsKeys(es: seq<Entry>, k: Key)
    ensures k in Fields(es) <==> exists i :: 0 <= i < |es| && es[i].key == k
  {
    if es != [] {
      var init := es[..|es| - 1];
      FieldsSnoc(es);
      FieldsKeys(init, k);
      if k in Fields(init) {
        var i :| 0 <= i < |init| && init[i].key == k;
        assert es[i].key == k;
      }
      if i :| 0 <= i < |es| && es[i].key == k {
        assert i < |init| ==> init[i].key == k;
      }
    }
  }

  lemma {:induction false} FieldsAt(es: seq<Entry>, i: nat)
    requires DistinctKeys(es) && i < |es|
    ensures es[i].key in Fields(es) && Fields(es)[es[i].key] == Denote(es[i].val)
  {
    FieldsSnoc(es);
    if i < |es| - 1 {
      FieldsAt(es[..|es| - 1], i);
      assert !SameKey(es[i].key, es[|es| - 1].key);
    }
  }

  lemma FieldsWithin(es: seq<Entry>, fs: seq<Entry>, k: Key)
    requires DistinctKeys(es) && DistinctKeys(fs) && multiset(es) == multiset(fs)
    requires k in Fields(es)
    ensures k in Fields(fs) && Fields(fs)[k] == Fields(es)[k]
  {
    hide Fields, Denote;
    FieldsKeys(es, k);
    var i :| 0 <= i < |es| && es[i].key == k;
    assert es[i] in multiset(fs);
    var j :| 0 <= j < |fs| && fs[j] == es[i];
    FieldsAt(es, i);
    FieldsAt(fs, j);
  }

  // With distinct keys, the order of the entries does not show.
  lemma FieldsUnordered(es: seq<Entry>, fs: seq<Entry>)
    requires DistinctKeys(es) && DistinctKeys(fs) && multiset(es) == multiset(fs)
    ensures Fields(es) == Fields(fs)
  {
    hide *;
    forall k ensures k in Fields(es) <==> k in Fields(fs) {
      if k in Fields(es) {
        FieldsWithin(es, fs, k);
      }
      if k in Fields(fs) {
        FieldsWithin(fs, es, k);
      }
    }
    forall k | k in Fields(es) ensures Fields(es)[k] == Fields(fs)[k] {
      FieldsWithin(es, fs, k);
    }
  }

  // ---- sorting and distinct keys ----

  lemma SortMembers(es: seq<Entry>, i: nat) returns (j: nat)
    requires i < |Sort(es)|
    ensures j < |es| && es[j] == Sort(es)[i]
  {
    SortIsStable(es);
    assert Sort(es)[i] in multiset(es);
    j :| 0 <= j < |es| && es[j] == Sort(es)[i];
  }

  lemma {:induction false} SortDistinct(es: seq<Entry>)
    requires DistinctKeys(es)
    ensures DistinctKeys(Sort(es))
  {
    if es != [] {
      var init, last := es[..|es| - 1], es[|es| - 1];
      SortDistinct(init);
      var s := Sort(init);
      forall i | 0 <= i < |s| ensures !SameKey(s[i].key, last.key) {
        var j := SortMembers(init, i);
      }
      InsertDistinct(s, last);
    }
  }

  lemma InsertDistinct(es: seq<Entry>, e: Entry)
    requires DistinctKeys(es) && forall i :: 0 <= i < |es| ==> !SameKey(es[i].key, e.key)
    ensures DistinctKeys(Insert(es, e))
  {
    var p := Place(es, e);
    var out := Insert(es, e);
    forall i, j | 0 <= i < j < |out| ensures !SameKey(out[i].key, out[j].key) {
      assert out[i] == if i < p then es[i] else if i == p then e else es[i - 1];
      assert out[j] == if j < p then es[j] else if j == p then e else es[j - 1];
    }
  }

  // ---- keys that the name pattern wrongly accepts ----

  // An identifier followed by a newline.
  predicate Dirty(k: Key) {
    k.StrKey? && MatchesName(k.s) && !IsName(k.s)
  }

  predicate Clean(v: Value)
    decreases v
  {
    match v
    case List(items) => forall i :: 0 <= i < |items| ==> Clean(items[i])
    case Dict(es) => forall i :: 0 <= i < |es| ==> !Dirty(es[i].key) && Clean(es[i].val)
    case _ => true
  }

  lemma ReadKeyClean(k: Key)
    ensures !Dirty(ReadKey(k)) && (ReadKey(k) == k <==> !Dirty(k))
  {
  }

  // The fields of what is read back from a table, as entries.
  function ReadFields(v: Value): seq<Entry>
    requires IsTable(v)
  {
    if IsArray(ReadEntries(v)) then Sort(ReadEntries(v)) else DictOf(Sort(ReadEntries(v)))
  }

  lemma ReadBackFields(v: Value)
    requires IsTable(v) && Printable(v)
    ensures IsTable(ReadBack(v)) && Entries(ReadBack(v)) == ReadFields(v)
  {
    var rs := ReadEntries(v);
    ReadBackTable(v);
    ReadEntriesNoFloats(v);
    NodeOfTable(rs);
    if IsArray(rs) {
      ArraySorted(rs);
      assert ListEntries(Vals(Sort(rs))) == Sort(rs);
    }
  }

  // The sorted entries of an array have the keys 1, 2, ..., n in this order.
  lemma ArraySorted(es: seq<Entry>)
    requires NoFloatKeys(es) && IsArray(es)
    ensures forall i :: 0 <= i < |Sort(es)| ==> Sort(es)[i].key == IntKey(i + 1)
  {
    SortIsStable(es);
    SortNoFloats(es);
    LuaLenArray(es);
    LuaLenFull(Sort(es));
  }

  lemma {:induction false} DictOfKeys(es: seq<Entry>, i: nat) returns (j: nat)
    requires i < |DictOf(es)|
    ensures j < |es| && es[j].key == DictOf(es)[i].key
  {
    var init, last := es[..|es| - 1], es[|es| - 1];
    DictSetKeys(DictOf(init), last.key, last.val);
    if i < |DictOf(init)| {
      j := DictOfKeys(init, i);
    } else {
      j := |es| - 1;
    }
  }

  // Assigning an item keeps all keys in place and adds at most the new one.
  lemma {:induction false} DictSetKeys(es: seq<Entry>, k: Key, v: Value)
    ensures var out := DictSet(es, k, v);
            && |es| <= |out| <= |es| + 1
            && (forall i :: 0 <= i < |es| ==> out[i].key == es[i].key)
            && (|out| > |es| ==> out[|es|] == Entry(k, v) && forall i :: 0 <= i < |es| ==> !SameKey(es[i].key, k))
            && (forall i :: 0 <= i < |out| ==> out[i].val == v || (i < |es| && out[i].val == es[i].val))
  {
    if es != [] && !SameKey(es[0].key, k) {
      DictSetKeys(es[1..], k, v);
    }
  }

  // ---- the two directions ----

  // Without dirty keys at the top, what is read back has the fields of the
  // entries read.
  lemma CleanKeysFields(v: Value)
    requires IsTable(v) && Printable(v)
    requires forall i :: 0 <= i < |Entries(v)| ==> !Dirty(Entries(v)[i].key)
    ensures DistinctKeys(ReadEntries(v))
    ensures Denote(ReadBack(v)) == Table(Fields(ReadEntries(v)))
  {
    hide Fields, Denote, Sort, DictOf, ReadBack;
    var es, rs := Entries(v), ReadEntries(v);
    forall j | 0 <= j < |es| ensures rs[j].key == es[j].key {
      ReadKeyClean(es[j].key);
    }
    SortDistinct(rs);
    SortIsStable(rs);
    DictOfDistinct(Sort(rs));
    FieldsUnordered(rs, Sort(rs));
    ReadBackFields(v);
    DenoteTable(ReadBack(v));
  }

  lemma CleanPreserved(v: Value)
    requires Printable(v) && Clean(v)
    ensures Denote(ReadBack(v)) == Denote(v)
    decreases v
  {
    if IsTable(v) {
      var es, rs := Entries(v), ReadEntries(v);
      forall i | 0 <= i < |es|
        ensures rs[i].key == es[i].key && Denote(rs[i].val) == Denote(es[i].val)
      {
        CleanPreserved(es[i].val);
        ReadKeyClean(es[i].key);
      }
      SameFields(es, rs);
      CleanKeysFields(v);
      DenoteTable(v);
    }
  }

  lemma SameFields(es: seq<Entry>, fs: seq<Entry>)
    requires |es| == |fs|
    requires forall i :: 0 <= i < |es| ==> fs[i].key == es[i].key && Denote(fs[i].val) == Denote(es[i].val)
    ensures Fields(es) == Fields(fs)
  {
    assert DictKeys(es) == DictKeys(fs);
    assert seq(|es|, i requires 0 <= i < |es| => Denote(es[i].val))
        == seq(|fs|, i requires 0 <= i < |fs| => Denote(fs[i].val));
  }

  // No key that is read back is dirty, so a dirty key is lost.
  lemma DirtyLost(v: Value, i: nat)
    requires IsTable(v) && Printable(v) && i < |Entries(v)| && Dirty(Entries(v)[i].key)
    ensures Denote(ReadBack(v)) != Denote(v)
  {
    var k := Entries(v)[i].key;
    ReadBackFields(v);
    DenoteTable(v);
    DenoteTable(ReadBack(v));
    FieldsKeys(Entries(v), k);
    FieldsKeys(ReadFields(v), k);
    forall j | 0 <= j < |ReadFields(v)| ensures !Dirty(ReadFields(v)[j].key) {
      var m := j;
      if !IsArray(ReadEntries(v)) {
        m := DictOfKeys(Sort(ReadEntries(v)), j);
      }
      var n := SortMembers(ReadEntries(v), m);
      ReadKeyClean(Entries(v)[n].key);
    }
  }

  lemma DirtyChanged(v: Value)
    requires Printable(v) && !Clean(v)
    ensures Denote(ReadBack(v)) != Denote(v)
    decreases v
  {
    hide Fields, Denote, Sort, DictOf, ReadBack;
    var es, rs := Entries(v), ReadEntries(v);
    if i :| 0 <= i < |es| && Dirty(es[i].key) {
      DirtyLost(v, i);
    } else {
      var i := DirtyChild(v);
      DirtyChanged(es[i].val);
      CleanKeysFields(v);
      ReadKeyClean(es[i].key);
      FieldsAt(es, i);
      FieldsAt(rs, i);
      DenoteTable(v);
    }
  }

  lemma DirtyChild(v: Value) returns (i: nat)
    requires Printable(v) && IsTable(v) && !Clean(v)
    requires forall i :: 0 <= i < |Entries(v)| ==> !Dirty(Entries(v)[i].key)
    ensures i < |Entries(v)| && !Clean(Entries(v)[i].val) && Entries(v)[i].val < v
    ensures Printable(Entries(v)[i].val) && DistinctKeys(Entries(v))
  {
    i :| 0 <= i < |Entries(v)| && !Clean(Entries(v)[i].val);
  }

  // The round trip keeps the meaning of a value exactly when no dict in it has a
  // key made of an identifier and a newline.
  lemma MeaningKept(v: Value)
    requires Printable(v)
    ensures Denote(ReadBack(v)) == Denote(v) <==> Clean(v)
  {
    if Clean(v) {
      CleanPreserved(v);
    } else {
      DirtyChanged(v);
    }
  }

  // ---- values that come back unchanged ----

  // Dicts that are not arrays, with ints in ascending order before strings.
  predicate Normal(v: Value)
    decreases v
  {
    match v
    case List(items) => forall i :: 0 <= i < |items| ==> Normal(items[i])
    case Dict(es) =>
      && Sorted(es) && DistinctKeys(es) && NoFloatKeys(es) && !IsArray(es)
      && forall i :: 0 <= i < |es| ==> !Dirty(es[i].key) && Normal(es[i].val)
    case Float(_) => false
    case _ => true
  }

  lemma NormalUnchanged(v: Value)
    requires Normal(v)
    ensures Printable(v) && ReadBack(v) == v
    decreases v
  {
    match v {
      case List(items) =>
        forall i | 0 <= i < |items| ensures Printable(items[i]) && ReadBack(items[i]) == items[i] {
          NormalUnchanged(items[i]);
        }
        assert ReadBack(v).items == items;
      case Dict(es) =>
        forall i | 0 <= i < |es| ensures Printable(es[i].val) && ReadBack(es[i].val) == es[i].val {
          NormalUnchanged(es[i].val);
        }
        forall i | 0 <= i < |es| ensures ReadKey(es[i].key) == es[i].key {
          ReadKeyClean(es[i].key);
        }
        assert seq(|es|, i requires 0 <= i < |es| => Entry(ReadKey(es[i].key), ReadBack(es[i].val))) == es;
        SortOfSorted(es);
        DictOfDistinct(es);
      case _ =>
    }
  }

  lemma {:induction false} DictOfSorted(es: seq<Entry>)
    requires Sorted(es)
    ensures Sorted(DictOf(es)) && DistinctKeys(DictOf(es))
  {
    if es != [] {
      var init, last := es[..|es| - 1], es[|es| - 1];
      DictOfSorted(init);
      DictSetKeys(DictOf(init), last.key, last.val);
      forall i | 0 <= i < |DictOf(init)| ensures KeyLeq(DictOf(init)[i].key, last.key) {
        var j := DictOfKeys(init, i);
      }
    }
  }

  lemma {:induction false} DictOfVals(es: seq<Entry>, i: nat) returns (j: nat)
    requires i < |DictOf(es)|
    ensures j < |es| && es[j].val == DictOf(es)[i].val
  {
    var init, last := es[..|es| - 1], es[|es| - 1];
    DictSetKeys(DictOf(init), last.key, last.val);
    if DictOf(es)[i].val == last.val {
      j := |es| - 1;
    } else {
      j := DictOfVals(init, i);
    }
  }

  // Assigning loses no key.
  lemma {:induction false} DictOfHas(es: seq<Entry>, i: nat) returns (j: nat)
    requires i < |es|
    ensures j < |DictOf(es)| && SameKey(DictOf(es)[j].key, es[i].key)
  {
    var init, last := es[..|es| - 1], es[|es| - 1];
    DictSetKeys(DictOf(init), last.key, last.val);
    if i < |init| {
      j := DictOfHas(init, i);
    } else {
      j := DictSetHas(DictOf(init), last.key, last.val);
    }
  }

  lemma {:induction false} DictSetHas(es: seq<Entry>, k: Key, v: Value) returns (j: nat)
    ensures j < |DictSet(es, k, v)| && SameKey(DictSet(es, k, v)[j].key, k)
  {
    if es == [] || SameKey(es[0].key, k) {
      j := 0;
    } else {
      j := DictSetHas(es[1..], k, v);
      j := j + 1;
    }
  }

  // Only a dict that already was an array can become one when read back.
  lemma NotArray(v: Value)
    requires v.Dict? && Printable(v) && !IsArray(ReadEntries(v))
    ensures !IsArray(DictOf(Sort(ReadEntries(v))))
  {
    var rs := ReadEntries(v);
    var sorted, d := Sort(rs), DictOf(Sort(rs));
    SortIsStable(rs);
    DictOfSorted(sorted);
    ReadFieldsKeys(v);
    if IsArray(d) {
      ArraySorted(d);
      SortOfSorted(d);
      forall i | 0 <= i < |sorted| ensures sorted[i].key.IntKey? {
        var j := DictOfHas(sorted, i);
      }
      forall i | 0 <= i < |rs| ensures rs[i].key.IntKey? {
        assert rs[i] in multiset(sorted);
      }
      forall i | 0 <= i < |rs| ensures rs[i].key == v.entries[i].key {
        ReadKeyClean(v.entries[i].key);
      }
      SortDistinct(rs);
      DictOfDistinct(sorted);
      forall m | 1 <= m <= |rs| ensures HasKey(rs, m) {
        SortKeepsKeys(rs, m);
      }
      assert false;
    }
  }

  lemma ReadFieldsKeys(v: Value)
    requires v.Dict? && Printable(v)
    ensures NoFloatKeys(Sort(ReadEntries(v))) && NoFloatKeys(DictOf(Sort(ReadEntries(v))))
    ensures forall i :: 0 <= i < |DictOf(Sort(ReadEntries(v)))| ==> !Dirty(DictOf(Sort(ReadEntries(v)))[i].key)
  {
    var rs := ReadEntries(v);
    ReadEntriesNoFloats(v);
    SortNoFloats(rs);
    var d := DictOf(Sort(rs));
    forall i | 0 <= i < |d| ensures !d[i].key.FloatKey? && !Dirty(d[i].key) {
      var m := DictOfKeys(Sort(rs), i);
      var n := SortMembers(rs, m);
      ReadKeyClean(v.entries[n].key);
    }
  }

  // Whatever is read back is in normal form.
  lemma ReadBackNormal(v: Value)
    requires Printable(v)
    ensures Normal(ReadBack(v))
    decreases v
  {
    match v {
      case List(items) =>
        forall i | 0 <= i < |items| ensures Normal(ReadBack(items[i])) {
          ReadBackNormal(items[i]);
        }
      case Dict(es) =>
        var rs := ReadEntries(v);
        forall i | 0 <= i < |es| ensures Normal(rs[i].val) {
          ReadBackNormal(es[i].val);
        }
        ReadBackDict(v);
        if IsArray(rs) {
          forall i | 0 <= i < |Sort(rs)| ensures Normal(Sort(rs)[i].val) {
            var j := SortMembers(rs, i);
          }
        } else {
          var d := DictOf(Sort(rs));
          SortIsStable(rs);
          DictOfSorted(Sort(rs));
          ReadFieldsKeys(v);
          NotArray(v);
          forall i | 0 <= i < |d| ensures Normal(d[i].val) {
            var m := DictOfVals(Sort(rs), i);
            var n := SortMembers(rs, m);
          }
        }
      case _ =>
    }
  }

  lemma ReadBackDict(v: Value)
    requires v.Dict?
    ensures ReadBack(v) == TableOf(ReadEntries(v))
  {
  }

  // Exactly the values in normal form come back unchanged; everything else is
  // normalised in one round trip.
  lemma UnchangedIffNormal(v: Value)
    requires Printable(v)
    ensures ReadBack(v) == v <==> Normal(v)
    ensures Printable(ReadBack(v)) && ReadBack(ReadBack(v)) == ReadBack(v)
  {
    ReadBackNormal(v);
    NormalUnchanged(ReadBack(v));
    if Normal(v) {
      NormalUnchanged(v);
    }
  }
}
