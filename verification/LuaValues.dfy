// The Python values that the Lua printer takes and the Lua parser returns.
// A Python dict is its items in insertion order; strings are their UTF-8 bytes.
module LuaValues {
  import opened Bytes

  datatype Key = IntKey(n: int) | FloatKey(r: real) | StrKey(s: bytes)

  datatype Entry = Entry(key: Key, val: Value)

  datatype Value =
    | Bool(b: bool)
    | Int(n: int)
    | Float(r: real)
    | Str(s: bytes)
    | List(items: seq<Value>)
    | Dict(entries: seq<Entry>)

  // Python's == on keys: an int and a float key are equal when their numbers are.
  predicate SameKey(a: Key, b: Key) {
    match (a, b)
    case (IntKey(m), FloatKey(r)) => m as real == r
    case (FloatKey(r), IntKey(m)) => m as real == r
    case _ => a == b
  }

  predicate DistinctKeys(es: seq<Entry>) {
    forall i, j :: 0 <= i < j < |es| ==> !SameKey(es[i].key, es[j].key)
  }

  // dct[k] = v: an existing item keeps its place and its key object.
  function DictSet(es: seq<Entry>, k: Key, v: Value): seq<Entry> {
    if es == [] then [Entry(k, v)]
    else if SameKey(es[0].key, k) then [Entry(es[0].key, v)] + es[1..]
    else [es[0]] + DictSet(es[1..], k, v)
  }

  // The dict built by assigning the given items one after the other.
  function DictOf(es: seq<Entry>): seq<Entry> {
    if es == [] then []
    else DictSet(DictOf(es[..|es| - 1]), es[|es| - 1].key, es[|es| - 1].val)
  }

  lemma DictSetFresh(es: seq<Entry>, k: Key, v: Value)
    requires forall i :: 0 <= i < |es| ==> !SameKey(es[i].key, k)
    ensures DictSet(es, k, v) == es + [Entry(k, v)]
  {
    if es != [] {
      DictSetFresh(es[1..], k, v);
    }
  }

  lemma DictOfDistinct(es: seq<Entry>)
    requires DistinctKeys(es)
    ensures DictOf(es) == es
  {
    if es != [] {
      var init, last := es[..|es| - 1], es[|es| - 1];
      DictOfDistinct(init);
      DictSetFresh(init, last.key, last.val);
      assert es == init + [last];
    }
  }

  // The first item whose key is the same, or the end.
  function Find(es: seq<Entry>, k: Key): (p: nat)
    ensures p <= |es| && (p < |es| ==> SameKey(es[p].key, k))
    ensures forall i :: 0 <= i < p ==> !SameKey(es[i].key, k)
  {
    if es == [] || SameKey(es[0].key, k) then 0 else 1 + Find(es[1..], k)
  }

  lemma {:induction false} DictSetIs(es: seq<Entry>, k: Key, v: Value)
    ensures var p := Find(es, k);
      DictSet(es, k, v) == if p < |es| then es[p := Entry(es[p].key, v)] else es + [Entry(k, v)]
  {
    hide SameKey;
    if es != [] && !SameKey(es[0].key, k) {
      var p := Find(es[1..], k);
      DictSetIs(es[1..], k, v);
      assert es == [es[0]] + es[1..];
      if p < |es[1..]| {
        assert es[p + 1 := Entry(es[p + 1].key, v)] == [es[0]] + es[1..][p := Entry(es[1..][p].key, v)];
      }
    }
  }

  // The number or the text that a key is.
  function Norm(k: Key): Key {
    if k.IntKey? then FloatKey(k.n as real) else k
  }

  lemma SameNorm()
    ensures forall a, b :: SameKey(a, b) <==> Norm(a) == Norm(b)
  {
  }

  // Of items with the same key, a dict has the key and the place of the first and the
  // value of the last.
  lemma {:induction false} DictOfLast(es: seq<Entry>, i: nat) returns (first: nat, last: nat)
    requires i < |DictOf(es)|
    ensures first <= last < |es| && DictOf(es)[i] == Entry(es[first].key, es[last].val)
    ensures SameKey(es[last].key, es[first].key)
    ensures forall j :: 0 <= j < first || last < j < |es| ==> !SameKey(es[j].key, es[first].key)
    ensures forall j :: 0 <= j < i ==> !SameKey(DictOf(es)[j].key, es[first].key)
  {
    hide SameKey, Norm, DictSet, Find;
    SameNorm();
    var init, e := es[..|es| - 1], es[|es| - 1];
    var before := DictOf(init);
    var p := Find(before, e.key);
    DictSetIs(before, e.key, e.val);
    if i < |before| {
      first, last := DictOfLast(init, i);
      if i == p {
        last := |init|;
      }
    } else {
      first, last := |init|, |init|;
      forall j | 0 <= j < first ensures !SameKey(es[j].key, e.key) {
        var q := DictOfHas(init, j);
      }
    }
  }

  // Every key of the items is in the dict.
  lemma {:induction false} DictOfHas(es: seq<Entry>, j: nat) returns (q: nat)
    requires j < |es|
    ensures q < |DictOf(es)| && SameKey(DictOf(es)[q].key, es[j].key)
  {
    var init, e := es[..|es| - 1], es[|es| - 1];
    DictSetIs(DictOf(init), e.key, e.val);
    if j < |init| {
      q := DictOfHas(init, j);
    } else {
      q := Find(DictOf(init), e.key);
    }
  }

  // The items the printer walks over: a list is the dict of its 1-based positions.
  function ListEntries(items: seq<Value>): (es: seq<Entry>)
    ensures |es| == |items|
    ensures forall i :: 0 <= i < |es| ==> es[i] == Entry(IntKey(i + 1), items[i])
  {
    seq(|items|, i requires 0 <= i < |items| => Entry(IntKey(i + 1), items[i]))
  }

  predicate IsTable(v: Value) {
    v.List? || v.Dict?
  }

  function Entries(v: Value): seq<Entry>
    requires IsTable(v)
  {
    if v.List? then ListEntries(v.items) else v.entries
  }

  // What can be printed and read back: no floats, and dict keys are distinct
  // ints and strings.
  predicate Printable(v: Value) {
    match v
    case Float(_) => false
    case List(items) => forall i :: 0 <= i < |items| ==> Printable(items[i])
    case Dict(es) =>
      && DistinctKeys(es)
      && forall i :: 0 <= i < |es| ==> !es[i].key.FloatKey? && Printable(es[i].val)
    case _ => true
  }
}
