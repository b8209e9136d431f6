// The table under construction: its entries kept sorted, and the length of the
// run 1..n of keys it holds.
module LuaNodes {
  import opened LuaValues

  // ---- the sort order ----

  // sorter(a) <= sorter(b): ints by value, every other key at infinity.
  predicate KeyLeq(a: Key, b: Key) {
    if a.IntKey? && b.IntKey? then a.n <= b.n else !b.IntKey?
  }

  predicate Sorted(es: seq<Entry>) {
    forall i, j :: 0 <= i < j < |es| ==> KeyLeq(es[i].key, es[j].key)
  }

  // How many entries do not sort after e.
  function Place(es: seq<Entry>, e: Entry): (p: nat)
    ensures p <= |es| && (p > 0 ==> KeyLeq(es[p - 1].key, e.key))
    ensures forall i :: p <= i < |es| ==> !KeyLeq(es[i].key, e.key)
  {
    if es == [] || KeyLeq(es[|es| - 1].key, e.key) then |es| else Place(es[..|es| - 1], e)
  }

  // Places e behind every entry that does not sort after it.
  function Insert(es: seq<Entry>, e: Entry): seq<Entry> {
    es[..Place(es, e)] + [e] + es[Place(es, e)..]
  }

  // entries.sort(key=sorter)
  function Sort(es: seq<Entry>): seq<Entry> {
    if es == [] then [] else Insert(Sort(es[..|es| - 1]), es[|es| - 1])
  }

  // The entries that sorter maps to the same number as k, in order.
  function OfRank(es: seq<Entry>, k: Key): seq<Entry> {
    if es == [] then []
    else
      var e := es[|es| - 1];
      OfRank(es[..|es| - 1], k) + (if KeyLeq(e.key, k) && KeyLeq(k, e.key) then [e] else [])
  }

  lemma {:induction false} OfRankConcat(a: seq<Entry>, b: seq<Entry>, k: Key)
    ensures OfRank(a + b, k) == OfRank(a, k) + OfRank(b, k)
  {
    if b == [] {
      assert a + b == a;
    } else {
      assert (a + b)[..|a + b| - 1] == a + b[..|b| - 1];
      OfRankConcat(a, b[..|b| - 1], k);
    }
  }

  lemma {:induction false} OfRankNone(es: seq<Entry>, k: Key)
    requires forall i :: 0 <= i < |es| ==> !KeyLeq(es[i].key, k)
    ensures OfRank(es, k) == []
  {
    if es != [] {
      OfRankNone(es[..|es| - 1], k);
    }
  }

  lemma InsertedSorted(es: seq<Entry>, p: nat, e: Entry, out: seq<Entry>)
    requires Sorted(es) && p <= |es| && (p > 0 ==> KeyLeq(es[p - 1].key, e.key))
    requires forall i :: p <= i < |es| ==> !KeyLeq(es[i].key, e.key)
    requires out == es[..p] + [e] + es[p..]
    ensures Sorted(out)
  {
    forall i, j | 0 <= i < j < |out| ensures KeyLeq(out[i].key, out[j].key) {
      var before := if i < p then es[i] else if i == p then e else es[i - 1];
      var after := if j < p then es[j] else if j == p then e else es[j - 1];
      assert out[i] == before && out[j] == after;
      if i < p && p <= j {
        assert KeyLeq(before.key, es[p - 1].key) by {
          assert i < p - 1 ==> KeyLeq(es[i].key, es[p - 1].key);
        }
      }
    }
  }

  lemma InsertSorted(es: seq<Entry>, e: Entry)
    requires Sorted(es)
    ensures Sorted(Insert(es, e))
  {
    InsertedSorted(es, Place(es, e), e, Insert(es, e));
  }

  lemma InsertPermutes(es: seq<Entry>, e: Entry)
    ensures |Insert(es, e)| == |es| + 1
    ensures multiset(Insert(es, e)) == multiset(es) + multiset{e}
  {
    var p := Place(es, e);
    assert es == es[..p] + es[p..];
  }

  // Where e is put, what comes behind it has another rank than e.
  lemma RanksApart(es: seq<Entry>, e: Entry, k: Key)
    ensures OfRank(es[Place(es, e)..], k) == [] || OfRank([e], k) == []
  {
    assert [e][..0] == [];
    if KeyLeq(e.key, k) && KeyLeq(k, e.key) {
      OfRankNone(es[Place(es, e)..], k);
    }
  }

  lemma InsertStable(es: seq<Entry>, e: Entry, k: Key)
    ensures OfRank(Insert(es, e), k) == OfRank(es + [e], k)
  {
    hide OfRank;
    var p := Place(es, e);
    var front, back, mid := es[..p], es[p..], [e];
    assert es == front + back;
    RanksApart(es, e, k);
    OfRankConcat(front + mid, back, k);
    OfRankConcat(front, mid, k);
    OfRankConcat(front, back, k);
    OfRankConcat(es, mid, k);
  }

  // Sort is the stable sort by sorter: an ordered rearrangement that keeps
  // entries of equal rank in their order.
  lemma {:induction false} SortIsStable(es: seq<Entry>)
    ensures Sorted(Sort(es))
    ensures multiset(Sort(es)) == multiset(es)
    ensures |Sort(es)| == |es|
    ensures forall k :: OfRank(Sort(es), k) == OfRank(es, k)
  {
    if es != [] {
      var init, last := es[..|es| - 1], es[|es| - 1];
      assert es == init + [last];
      SortIsStable(init);
      InsertSorted(Sort(init), last);
      InsertPermutes(Sort(init), last);
      forall k ensures OfRank(Sort(es), k) == OfRank(es, k) {
        InsertStable(Sort(init), last, k);
        assert (Sort(init) + [last])[..|init|] == Sort(init);
      }
    }
  }

  lemma {:induction false} SortOfSorted(es: seq<Entry>)
    requires Sorted(es)
    ensures Sort(es) == es
  {
    if es != [] {
      var init, last := es[..|es| - 1], es[|es| - 1];
      SortOfSorted(init);
      assert init != [] ==> KeyLeq(init[|init| - 1].key, last.key);
      assert es == init + [last];
    }
  }

  // Appending to a sorted list and sorting again is one insertion.
  lemma SortAppend(es: seq<Entry>, e: Entry)
    requires Sorted(es)
    ensures Sort(es + [e]) == Insert(es, e)
  {
    assert (es + [e])[..|es|] == es;
    SortOfSorted(es);
  }

  // The entries under other keys than ints, in order.
  function Others(es: seq<Entry>): seq<Entry> {
    if es == [] then []
    else Others(es[..|es| - 1]) + (if es[|es| - 1].key.IntKey? then [] else [es[|es| - 1]])
  }

  lemma {:induction false} OthersAreRank(es: seq<Entry>, k: Key)
    requires !k.IntKey?
    ensures OfRank(es, k) == Others(es)
  {
    if es != [] {
      OthersAreRank(es[..|es| - 1], k);
    }
  }

  // Int keys come first, ascending; the entries under all others behind them, in the
  // order they had.
  lemma SortOrder(es: seq<Entry>)
    ensures forall i, j :: 0 <= i < j < |Sort(es)| && Sort(es)[j].key.IntKey? ==>
              Sort(es)[i].key.IntKey? && Sort(es)[i].key.n <= Sort(es)[j].key.n
    ensures Others(Sort(es)) == Others(es)
  {
    hide Sort, OfRank, Others;
    SortIsStable(es);
    OthersAreRank(es, StrKey([]));
    OthersAreRank(Sort(es), StrKey([]));
  }

  // ---- nodes ----

  // kv[0] == n
  predicate KeyIs(k: Key, n: int) {
    SameKey(k, IntKey(n))
  }

  // The counting loop over the entries.
  function LuaLen(es: seq<Entry>): nat {
    if es == [] then 0
    else
      var n := LuaLen(es[..|es| - 1]);
      if KeyIs(es[|es| - 1].key, n + 1) then n + 1 else n
  }

  datatype Node = Node(entries: seq<Entry>, lualen: nat, isRoot: bool)

  const ROOT := Node([], 0, true)
  const CHILD := Node([], 0, false)

  function Append(node: Node, k: Key, v: Value): Node {
    var es := Sort(node.entries + [Entry(k, v)]);
    Node(es, LuaLen(es), node.isRoot)
  }

  function Vals(es: seq<Entry>): (vs: seq<Value>)
    ensures |vs| == |es| && forall i :: 0 <= i < |es| ==> vs[i] == es[i].val
  {
    seq(|es|, i requires 0 <= i < |es| => es[i].val)
  }

  function NodeTable(node: Node): Value {
    if |node.entries| == node.lualen then List(Vals(node.entries)) else Dict(DictOf(node.entries))
  }

  // What holds of every node after every append.
  predicate NodeValid(node: Node) {
    Sorted(node.entries) && node.lualen == LuaLen(node.entries)
  }

  lemma AppendValid(node: Node, k: Key, v: Value)
    requires NodeValid(node)
    ensures NodeValid(Append(node, k, v))
    ensures multiset(Append(node, k, v).entries) == multiset(node.entries) + multiset{Entry(k, v)}
  {
    SortIsStable(node.entries + [Entry(k, v)]);
  }

  predicate HasKey(es: seq<Entry>, n: int) {
    exists i :: 0 <= i < |es| && KeyIs(es[i].key, n)
  }

  // The run 1..n of keys is present and stops there.
  predicate IsRun(es: seq<Entry>, n: nat) {
    (forall m :: 1 <= m <= n ==> HasKey(es, m)) && !HasKey(es, n + 1)
  }

  predicate NoFloatKeys(es: seq<Entry>) {
    forall i :: 0 <= i < |es| ==> !es[i].key.FloatKey?
  }

  // Over int and string keys, lualen is the largest n with all of 1..n present.
  lemma {:induction false} LuaLenIsRun(es: seq<Entry>)
    requires Sorted(es) && NoFloatKeys(es)
    ensures IsRun(es, LuaLen(es))
  {
    if es != [] {
      var init, last := es[..|es| - 1], es[|es| - 1];
      var n := LuaLen(init);
      LuaLenIsRun(init);
      forall m | 1 <= m <= n ensures HasKey(es, m) {
        assert HasKey(init, m);
        var i :| 0 <= i < |init| && KeyIs(init[i].key, m);
        assert KeyIs(es[i].key, m);
      }
      if KeyIs(last.key, n + 1) {
        assert KeyIs(es[|es| - 1].key, n + 1);
      }
      forall i | 0 <= i < |es| ensures !KeyIs(es[i].key, LuaLen(es) + 1) {
        if i < |init| {
          assert es[i] == init[i];
          assert !KeyIs(init[i].key, n + 1);
          assert KeyLeq(es[i].key, last.key);
        }
      }
    }
  }

  // A table's run is unique, so IsRun pins lualen down.
  lemma RunUnique(es: seq<Entry>, m: nat, n: nat)
    requires IsRun(es, m) && IsRun(es, n)
    ensures m == n
  {
    assert m < n ==> HasKey(es, m + 1);
    assert n < m ==> HasKey(es, n + 1);
  }

  lemma {:induction false} LuaLenFull(es: seq<Entry>)
    ensures LuaLen(es) <= |es|
    ensures LuaLen(es) == |es| <==> forall i :: 0 <= i < |es| ==> KeyIs(es[i].key, i + 1)
  {
    if es != [] {
      LuaLenFull(es[..|es| - 1]);
      if LuaLen(es) == |es| {
        forall i | 0 <= i < |es| ensures KeyIs(es[i].key, i + 1) {
          if i < |es| - 1 {
            assert es[..|es| - 1][i] == es[i];
          }
        }
      }
    }
  }

  // A node becomes a list exactly when its keys are 1..len without repeats, and
  // then the list holds the values in key order.
  lemma NodeTableIsList(node: Node)
    requires NodeValid(node)
    ensures NodeTable(node).List? <==> forall i :: 0 <= i < |node.entries| ==> KeyIs(node.entries[i].key, i + 1)
    ensures NodeTable(node).List? ==> NodeTable(node).items == Vals(node.entries)
    ensures NodeTable(node).Dict? ==> NodeTable(node).entries == DictOf(node.entries)
  {
    LuaLenFull(node.entries);
  }

  // ---- the same on a mutable node ----

  class TableNode {
    var entries: seq<Entry>
    var lualen: nat
    const isRoot: bool

    constructor (isRoot: bool)
      ensures Contents() == Node([], 0, isRoot)
    {
      this.entries, this.lualen, this.isRoot := [], 0, isRoot;
    }

    function Contents(): Node
      reads this
    {
      Node(entries, lualen, isRoot)
    }

    // node_entries_append
    method EntriesAppend(key: Key, val: Value)
      modifies this
      ensures Contents() == Append(old(Contents()), key, val)
    {
      entries := entries + [Entry(key, val)];
      entries := Sort(entries);
      var len := 0;
      for i := 0 to |entries|
        invariant len == LuaLen(entries[..i])
      {
        assert entries[..i + 1][..i] == entries[..i];
        if KeyIs(entries[i].key, len + 1) {
          len := len + 1;
        }
      }
      assert entries[..|entries|] == entries;
      lualen := len;
    }

    // node_to_table
    method ToTable() returns (table: Value)
      ensures table == NodeTable(Contents())
    {
      if |entries| == lualen {
        var items: seq<Value> := [];
        for i := 0 to |entries|
          invariant items == Vals(entries)[..i]
        {
          items := items + [entries[i].val];
        }
        table := List(items);
      } else {
        var items: seq<Entry> := [];
        for i := 0 to |entries|
          invariant items == DictOf(entries[..i])
        {
          assert entries[..i + 1][..i] == entries[..i];
          items := DictSet(items, entries[i].key, entries[i].val);
        }
        assert entries[..|entries|] == entries;
        table := Dict(items);
      }
    }
  }
}
