// What comes back when a printed value is parsed, and what that means.
module LuaReadBack {
  import opened LuaValues
  import opened LuaNodes
  import opened LuaSerialize

  // A key that the name pattern lets through with a final newline loses it.
  function ReadKey(k: Key): Key {
    if k.StrKey? && MatchesName(k.s) && !IsName(k.s) then StrKey(k.s[..|k.s| - 1]) else k
  }

  // The keys are 1..n in some order, n being the number of entries.
  predicate IsArray(es: seq<Entry>) {
    forall m :: 1 <= m <= |es| ==> HasKey(es, m)
  }

  function TableOf(es: seq<Entry>): Value {
    if IsArray(es) then List(Vals(Sort(es))) else Dict(DictOf(Sort(es)))
  }

  function ReadBack(v: Value): Value
    decreases v
  {
    match v
    case List(items) => List(seq(|items|, i requires 0 <= i < |items| => ReadBack(items[i])))
    case Dict(es) =>
      TableOf(seq(|es|, i requires 0 <= i < |es| => Entry(ReadKey(es[i].key), ReadBack(es[i].val))))
    case _ => v
  }

  function ReadEntries(v: Value): (rs: seq<Entry>)
    requires IsTable(v)
    ensures |rs| == |Entries(v)|
    ensures forall i :: 0 <= i < |rs| ==>
              rs[i] == Entry(ReadKey(Entries(v)[i].key), ReadBack(Entries(v)[i].val))
  {
    var es := Entries(v);
    seq(|es|, i requires 0 <= i < |es| => Entry(ReadKey(es[i].key), ReadBack(es[i].val)))
  }

  // Appending the entries one after the other sorts them.
  function NodeOf(es: seq<Entry>): Node {
    if es == [] then CHILD
    else
      var e := es[|es| - 1];
      Append(NodeOf(es[..|es| - 1]), e.key, e.val)
  }

  lemma NodeOfSnoc(es: seq<Entry>, e: Entry)
    ensures NodeOf(es + [e]) == Append(NodeOf(es), e.key, e.val)
  {
    assert (es + [e])[..|es|] == es;
  }

  lemma {:induction false} NodeOfEntries(es: seq<Entry>)
    ensures NodeOf(es) == Node(Sort(es), LuaLen(Sort(es)), false)
    ensures NodeValid(NodeOf(es))
  {
    SortIsStable(es);
    if es != [] {
      var init, last := es[..|es| - 1], es[|es| - 1];
      NodeOfEntries(init);
      SortIsStable(init);
      SortAppend(Sort(init), last);
    }
  }

  lemma SortKeepsKeys(es: seq<Entry>, n: int)
    ensures HasKey(Sort(es), n) <==> HasKey(es, n)
  {
    SortIsStable(es);
    if HasKey(es, n) {
      var i :| 0 <= i < |es| && KeyIs(es[i].key, n);
      assert es[i] in multiset(Sort(es));
      var j :| 0 <= j < |Sort(es)| && Sort(es)[j] == es[i];
    }
    if HasKey(Sort(es), n) {
      var j :| 0 <= j < |Sort(es)| && KeyIs(Sort(es)[j].key, n);
      assert Sort(es)[j] in multiset(es);
      var i :| 0 <= i < |es| && es[i] == Sort(es)[j];
    }
  }

  lemma SortNoFloats(es: seq<Entry>)
    requires NoFloatKeys(es)
    ensures NoFloatKeys(Sort(es))
  {
    SortIsStable(es);
    forall i | 0 <= i < |Sort(es)| ensures !Sort(es)[i].key.FloatKey? {
      assert Sort(es)[i] in multiset(es);
    }
  }

  // The counter reaches the number of entries exactly when the keys are 1..n.
  lemma LuaLenArray(es: seq<Entry>)
    requires NoFloatKeys(es)
    ensures LuaLen(Sort(es)) == |es| <==> IsArray(es)
  {
    var sorted := Sort(es);
    SortIsStable(es);
    SortNoFloats(es);
    LuaLenIsRun(sorted);
    LuaLenFull(sorted);
    forall m ensures HasKey(sorted, m) <==> HasKey(es, m) {
      SortKeepsKeys(es, m);
    }
    assert IsArray(es) && LuaLen(sorted) < |es| ==> HasKey(es, LuaLen(sorted) + 1);
  }

  // The table the parser makes of a node is the one described here.
  lemma NodeOfTable(es: seq<Entry>)
    requires NoFloatKeys(es)
    ensures NodeTable(NodeOf(es)) == TableOf(es)
  {
    NodeOfEntries(es);
    SortIsStable(es);
    LuaLenArray(es);
  }

  // Entries under 1, 2, ..., n are already sorted and counted.
  lemma NodeOfPositional(es: seq<Entry>)
    requires forall i :: 0 <= i < |es| ==> es[i].key == IntKey(i + 1)
    ensures NodeOf(es).lualen == |es| && Sort(es) == es && IsArray(es)
  {
    NodeOfEntries(es);
    SortOfSorted(es);
    LuaLenFull(es);
    forall m | 1 <= m <= |es| ensures HasKey(es, m) {
      assert KeyIs(es[m - 1].key, m);
    }
  }

  lemma ReadEntriesNoFloats(v: Value)
    requires IsTable(v) && Printable(v)
    ensures NoFloatKeys(ReadEntries(v))
  {
  }

  lemma ReadBackTable(v: Value)
    requires IsTable(v) && Printable(v)
    ensures ReadBack(v) == NodeTable(NodeOf(ReadEntries(v)))
  {
    var rs := ReadEntries(v);
    ReadEntriesNoFloats(v);
    NodeOfTable(rs);
    if v.List? {
      NodeOfPositional(rs);
      assert Vals(rs) == ReadBack(v).items;
    }
  }
}
