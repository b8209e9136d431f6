// The main results about printing and parsing Lua tables.
module LuaTheorems {
  import opened Wrappers
  import opened Bytes
  import opened LuaValues
  import opened LuaNodes
  import opened LuaSerialize
  import opened LuaReadBack
  import opened LuaMeaning
  import opened LuaRoundTrip
  import M = LuaMachine
  import LuaPrinter
  import LuaUnserialize

  // The two programs together: what was written is read back as ReadBack says.
  method WriteAndRead(v: Value, indent: Indent, level: int) returns (r: Result<Value>)
    requires Printable(v) && Whitespace(indent)
    ensures r == Ok(ReadBack(v))
  {
    var text := LuaPrinter.Serialize(v, indent, level);
    r := LuaUnserialize.Unserialize(text);
    RoundTrip(v, indent, level);
  }

  // A printed value always parses, and to the same Lua value exactly when no dict
  // in it has a key made of an identifier and a newline.
  lemma RoundTripMeaning(v: Value, indent: Indent, level: int)
    requires Printable(v) && Whitespace(indent)
    ensures var r := M.Parse(Print(v, indent, level));
            r.Ok? && (Denote(r.value) == Denote(v) <==> Clean(v))
  {
    RoundTrip(v, indent, level);
    MeaningKept(v);
  }

  // Exactly the values in normal form come back unchanged. One round trip
  // normalises; a second one changes nothing.
  lemma RoundTripUnchanged(v: Value, indent: Indent, level: int)
    requires Printable(v) && Whitespace(indent)
    ensures M.Parse(Print(v, indent, level)) == Ok(v) <==> Normal(v)
    ensures var r := M.Parse(Print(v, indent, level));
            r.Ok? && Printable(r.value) && M.Parse(Print(r.value, indent, level)) == r
  {
    RoundTrip(v, indent, level);
    UnchangedIffNormal(v);
    RoundTrip(ReadBack(v), indent, level);
  }

  // A printed table comes back as a list exactly when its keys are 1..n.
  lemma RoundTripList(v: Value, indent: Indent, level: int)
    requires IsTable(v) && Printable(v) && Whitespace(indent)
    ensures var r := M.Parse(Print(v, indent, level));
            r.Ok? && (r.value.List? <==> IsArray(Entries(v)))
  {
    RoundTrip(v, indent, level);
    ReadEntriesArray(v);
    ReadBackTable(v);
    ReadEntriesNoFloats(v);
    NodeOfTable(ReadEntries(v));
  }

  lemma ReadEntriesArray(v: Value)
    requires IsTable(v) && Printable(v)
    ensures IsArray(ReadEntries(v)) <==> IsArray(Entries(v))
  {
    var es, rs := Entries(v), ReadEntries(v);
    forall i, n | 0 <= i < |es| ensures KeyIs(rs[i].key, n) <==> KeyIs(es[i].key, n) {
    }
    forall n ensures HasKey(rs, n) <==> HasKey(es, n) {
      if HasKey(es, n) {
        var i :| 0 <= i < |es| && KeyIs(es[i].key, n);
        assert KeyIs(rs[i].key, n);
      }
      if HasKey(rs, n) {
        var i :| 0 <= i < |rs| && KeyIs(rs[i].key, n);
        assert KeyIs(es[i].key, n);
      }
    }
  }

  // {"a\n": 1} is printed as {a\n=1} and read back as {"a": 1}.
  lemma NewlineKeyLost()
    ensures var v := Dict([Entry(StrKey([0x61, NEWLINE]), Int(1))]);
            && Printable(v)
            && M.Parse(Print(v, None, 0)) == Ok(Dict([Entry(StrKey([0x61]), Int(1))]))
  {
    hide M.Parse, Print, TableOf, ReadKey, NodeOf, NodeTable;
    var k := StrKey([0x61, NEWLINE]);
    var v := Dict([Entry(k, Int(1))]);
    var w := Dict([Entry(StrKey([0x61]), Int(1))]);
    NewlineKeyRead();
    RoundTrip(v, None, 0);
    var rs := ReadEntries(v);
    assert rs == w.entries;
    SingleEntry(w.entries);
    ReadBackTable(v);
    ReadEntriesNoFloats(v);
    NodeOfTable(rs);
  }

  lemma NewlineKeyRead()
    ensures ReadKey(StrKey([0x61, NEWLINE])) == StrKey([0x61])
  {
    var s: bytes := [0x61, NEWLINE];
    assert s[..1] == [0x61] && IsName(s[..1]);
    assert !IsKeyByte(s[1]) && !IsName(s) && s[1] == NEWLINE;
  }

  lemma SingleEntry(es: seq<Entry>)
    requires |es| == 1 && es[0].key.StrKey?
    ensures TableOf(es) == Dict(es)
  {
    SortOfSorted(es);
    DictOfDistinct(es);
    assert !HasKey(es, 1);
    assert !IsArray(es);
  }

  // ---- every run of the parser, on any input ----

  // The state after n turns, if the loop is still going.
  function After(b: bytes, n: nat): (s: Option<M.State>)
    ensures s.Some? ==> s.value.pos <= |b| + 1
  {
    if n == 0 then Some(M.INITIAL)
    else
      match After(b, n - 1)
      case None => None
      case Some(s) =>
        if s.pos > |b| then None
        else
          match M.Step(b, s)
          case Continue(t) => Some(t)
          case _ => None
  }

  // The loop makes at most 5 * (|b| + 1) + 1 turns.
  lemma {:induction false} TurnsBounded(b: bytes, n: nat)
    ensures var s := After(b, n);
            s.Some? ==> n + 5 * (|b| + 1 - s.value.pos) + M.Rank(s.value.mode) <= 5 * (|b| + 1) + 1
  {
    hide M.Step;
    if n > 0 {
      TurnsBounded(b, n - 1);
    }
  }

  // In every state of every run, every table under construction is sorted with
  // its int keys ascending in front, its lualen is the largest n with 1..n all
  // present, and it is made a list exactly when its keys are 1..n without repeats.
  lemma {:induction false} TablesKept(b: bytes, n: nat, node: Node)
    requires After(b, n).Some?
    requires var s := After(b, n).value;
             node == s.node || exists i :: 0 <= i < |s.stack| && node == s.stack[i].node
    ensures Sorted(node.entries)
    ensures NoFloatKeys(node.entries) ==> IsRun(node.entries, node.lualen)
    ensures NodeTable(node).List? <==> forall i :: 0 <= i < |node.entries| ==> KeyIs(node.entries[i].key, i + 1)
  {
    hide M.Step, NodeTable, LuaLen;
    AfterValid(b, n);
    assert NodeValid(node);
    if NoFloatKeys(node.entries) {
      NodeRun(node);
    }
    NodeTableIsList(node);
  }

  lemma NodeRun(node: Node)
    requires NodeValid(node) && NoFloatKeys(node.entries)
    ensures IsRun(node.entries, node.lualen)
  {
    LuaLenIsRun(node.entries);
  }

  lemma {:induction false} AfterValid(b: bytes, n: nat)
    ensures After(b, n).Some? ==> M.StateValid(After(b, n).value)
  {
    hide M.Step, M.StateValid;
    if n == 0 {
      M.InitialValid();
    } else {
      AfterValid(b, n - 1);
      var s := After(b, n - 1);
      if s.Some? && s.value.pos <= |b| {
        M.StepValid(b, s.value);
      }
    }
  }
}
