// The printer as it is written: a list of parts, filled in a loop over the
// entries, is joined at the end.
module LuaPrinter {
  import opened Wrappers
  import opened Bytes
  import opened LuaValues
  import opened LuaText
  import opened LuaSerialize

  function Join(parts: seq<bytes>): bytes {
    if parts == [] then [] else Join(parts[..|parts| - 1]) + parts[|parts| - 1]
  }

  lemma JoinSnoc(parts: seq<bytes>, t: bytes)
    ensures Join(parts + [t]) == Join(parts) + t
  {
    assert (parts + [t])[..|parts|] == parts;
  }

  lemma JoinNone()
    ensures Join([]) == []
  {
  }

  // parts.append(t)
  method Add(parts: seq<bytes>, t: bytes) returns (more: seq<bytes>)
    ensures more == parts + [t] && Join(more) == Join(parts) + t
  {
    more := parts + [t];
    JoinSnoc(parts, t);
  }

  // parts.pop(), when the last part is the byte c
  method Pop(parts: seq<bytes>, c: byte) returns (fewer: seq<bytes>)
    requires parts != [] && parts[|parts| - 1] == [c]
    ensures Join(parts) == Join(fewer) + [c]
  {
    fewer := parts[..|parts| - 1];
  }

  // The first i entries, each closed by a comma whether or not it is the last.
  function Written(keys: seq<Key>, texts: seq<bytes>, i: nat, indent: Indent, level: int): bytes
    requires TableShape(keys, texts) && i <= |keys|
  {
    if i == 0 then []
    else
      Written(keys, texts, i - 1, indent, level)
      + (Margin(indent, level + 1) + KeyText(keys, i - 1, indent) + texts[i - 1] + [COMMA] + LineEnd(indent))
  }

  lemma WrittenNext(keys: seq<Key>, texts: seq<bytes>, i: nat, indent: Indent, level: int)
    requires TableShape(keys, texts) && i < |keys|
    ensures var written, entry := Written(keys, texts, i, indent, level), EntryText(keys, texts, i, indent, level);
            && BodyText(keys, texts, i, indent, level) == entry + BodyText(keys, texts, i + 1, indent, level)
            && (i + 1 < |keys| || indent.Some? ==> Written(keys, texts, i + 1, indent, level) == written + entry)
            && (i + 1 == |keys| && indent.None? ==>
                  Written(keys, texts, i + 1, indent, level) == written + entry + [COMMA]
                  && BodyText(keys, texts, i + 1, indent, level) == [])
  {
    hide Margin, KeyText;
    var line := Margin(indent, level + 1) + KeyText(keys, i, indent) + texts[i];
    if i + 1 < |keys| || indent.Some? {
      assert EntryText(keys, texts, i, indent, level) == line + [COMMA] + LineEnd(indent);
    } else {
      assert EntryText(keys, texts, i, indent, level) == line;
      assert line + [COMMA] + LineEnd(indent) == line + [COMMA];
    }
  }

  lemma {:induction false} WrittenIsBody(keys: seq<Key>, texts: seq<bytes>, i: nat, indent: Indent, level: int)
    requires TableShape(keys, texts) && i <= |keys|
    ensures i < |keys| || indent.Some? || i == 0 ==>
              Written(keys, texts, i, indent, level) + BodyText(keys, texts, i, indent, level)
              == BodyText(keys, texts, 0, indent, level)
    ensures i == |keys| > 0 && indent.None? ==>
              Written(keys, texts, i, indent, level) == BodyText(keys, texts, 0, indent, level) + [COMMA]
  {
    hide Written, BodyText, EntryText;
    if i == 0 {
      WrittenNone(keys, texts, indent, level);
    } else {
      WrittenIsBody(keys, texts, i - 1, indent, level);
      WrittenNext(keys, texts, i - 1, indent, level);
    }
  }

  lemma WrittenNone(keys: seq<Key>, texts: seq<bytes>, indent: Indent, level: int)
    requires TableShape(keys, texts)
    ensures Written(keys, texts, 0, indent, level) == []
  {
  }

  lemma Cancel(s: bytes, t: bytes, c: byte)
    requires s + [c] == t + [c]
    ensures s == t
  {
    assert (s + [c])[..|s|] == s && (t + [c])[..|t|] == t;
  }

  // With the last comma taken off where there is no indent, what was written
  // after the start is the body.
  lemma WrittenTrimmed(text: bytes, start: bytes, keys: seq<Key>, texts: seq<bytes>, indent: Indent, level: int)
    requires TableShape(keys, texts)
    requires var written := start + Written(keys, texts, |keys|, indent, level);
             if indent.None? && |keys| > 0 then text + [COMMA] == written else text == written
    ensures text == start + BodyText(keys, texts, 0, indent, level)
  {
    hide Written;
    var body := BodyText(keys, texts, 0, indent, level);
    WrittenIsBody(keys, texts, |keys|, indent, level);
    EmptyBody(keys, texts, indent, level);
    if indent.None? && |keys| > 0 {
      assert start + (body + [COMMA]) == (start + body) + [COMMA];
      Cancel(text, start + body, COMMA);
    }
  }

  lemma EmptyBody(keys: seq<Key>, texts: seq<bytes>, indent: Indent, level: int)
    requires TableShape(keys, texts)
    ensures BodyText(keys, texts, |keys|, indent, level) == []
  {
  }

  function KeyValue(k: Key): Value {
    match k
    case IntKey(n) => Int(n)
    case FloatKey(r) => Float(r)
    case StrKey(s) => Str(s)
  }

  predicate IsScalar(v: Value) {
    !v.List? && !v.Dict?
  }

  method Serialize(v: Value, indent: Indent, level: int) returns (text: bytes)
    requires Printable(v)
    ensures text == Print(v, indent, level)
    decreases if IsScalar(v) then 0 else 2, v, 1
  {
    hide Join, Escape, IntText, TableText;
    var parts: seq<bytes> := [];
    JoinNone();
    if v.Bool? {
      if v.b {
        parts := Add(parts, TRUE_TEXT);
      } else {
        parts := Add(parts, FALSE_TEXT);
      }
    } else if v.Int? {
      parts := Add(parts, IntText(v.n));
    } else if v.Str? {
      parts := Add(parts, [QUOTE]);
      parts := Add(parts, Escape(v.s));
      parts := Add(parts, [QUOTE]);
    } else {
      parts := SerializeTable(v, indent, level);
    }
    text := Join(parts);
  }

  // The key-value pairs to print.
  method TableEntries(v: Value) returns (entries: seq<Entry>)
    requires IsTable(v)
    ensures entries == Entries(v)
  {
    entries := [];
    if v.List? {
      for i := 0 to |v.items|
        invariant entries == ListEntries(v.items)[..i]
      {
        entries := entries + [Entry(IntKey(i + 1), v.items[i])];
      }
    } else {
      for i := 0 to |v.entries|
        invariant entries == v.entries[..i]
      {
        entries := entries + [v.entries[i]];
      }
    }
  }

  // The key part of an entry: nothing, a bare name, or a literal in brackets.
  function KeyPart(key: Key, nohash: bool, assignment: bytes, indent: Indent): bytes
    requires !key.FloatKey?
  {
    if nohash then []
    else if key.StrKey? && MatchesName(key.s) then key.s + assignment
    else [LBRACKET] + Print(KeyValue(key), indent, 0) + [RBRACKET] + assignment
  }

  // One turn of the loop: the parts of one entry.
  method SerializeEntry(head: seq<bytes>, key: Key, val: Value, nohash: bool, assignment: bytes, indent: Indent, level: int)
    returns (parts: seq<bytes>)
    requires !key.FloatKey? && Printable(val)
    ensures Join(parts) == Join(head) + (Margin(indent, level + 1) + KeyPart(key, nohash, assignment, indent)
                                         + Print(val, indent, level + 1) + [COMMA] + LineEnd(indent))
    ensures indent.None? ==> parts != [] && parts[|parts| - 1] == [COMMA]
    decreases 2, val, 2
  {
    hide *;
    ghost var base := Join(head);
    parts := head;
    if indent.Some? {
      parts := Add(parts, Repeat(indent.value, level + 1));
    }
    ghost var line := Margin(indent, level + 1);
    assert Join(parts) == base + line by { MarginIs(indent, level + 1); }
    parts := SerializeKey(parts, key, nohash, assignment, indent, level);
    line := line + KeyPart(key, nohash, assignment, indent);
    assert Join(parts) == base + line;
    var valtext := Serialize(val, indent, level + 1);
    parts := Add(parts, valtext);
    line := line + valtext;
    assert Join(parts) == base + line;
    parts := Add(parts, [COMMA]);
    line := line + [COMMA];
    assert Join(parts) == base + line;
    if indent.Some? {
      parts := Add(parts, [NEWLINE]);
    }
    line := line + LineEnd(indent);
    assert Join(parts) == base + line by { LineEndIs(indent); }
  }

  method SerializeKey(head: seq<bytes>, key: Key, nohash: bool, assignment: bytes, indent: Indent, level: int)
    returns (parts: seq<bytes>)
    requires !key.FloatKey?
    ensures Join(parts) == Join(head) + KeyPart(key, nohash, assignment, indent)
    decreases 1
  {
    hide Join, Print;
    parts := head;
    if nohash {
    } else if key.StrKey? && MatchesName(key.s) {
      parts := Add(parts, key.s);
      parts := Add(parts, assignment);
    } else {
      parts := Add(parts, [LBRACKET]);
      KeyPrint(key, indent, level + 1);
      var keytext := Serialize(KeyValue(key), indent, level + 1);
      parts := Add(parts, keytext);
      parts := Add(parts, [RBRACKET]);
      parts := Add(parts, assignment);
    }
  }

  lemma MarginIs(indent: Indent, level: int)
    ensures Margin(indent, level) == if indent.Some? then Repeat(indent.value, level) else []
  {
  }

  lemma LineEndIs(indent: Indent)
    ensures LineEnd(indent) == if indent.Some? then [NEWLINE] else []
  {
  }

  lemma KeyPrint(k: Key, indent: Indent, level: int)
    requires !k.FloatKey?
    ensures Printable(KeyValue(k)) && IsScalar(KeyValue(k))
    ensures Print(KeyValue(k), indent, level) == Print(KeyValue(k), indent, 0)
  {
  }

  lemma KeyTextIsPart(keys: seq<Key>, i: nat, nohash: bool, assignment: bytes, indent: Indent)
    requires i < |keys| && !keys[i].FloatKey?
    requires nohash == Positional(keys, i) && assignment == Assign(indent)
    ensures KeyText(keys, i, indent) == KeyPart(keys[i], nohash, assignment, indent)
  {
    hide Assign, IntText, Escape, Positional;
  }

  lemma PositionalNext(keys: seq<Key>, i: nat)
    requires i < |keys|
    ensures Positional(keys, i) <==> (i == 0 || Positional(keys, i - 1)) && keys[i] == IntKey(i + 1)
  {
    if i > 0 && Positional(keys, i - 1) && keys[i] == IntKey(i + 1) {
      forall j | 0 <= j <= i ensures keys[j] == IntKey(j + 1) {
      }
    }
  }

  lemma EntryWritten(keys: seq<Key>, texts: seq<bytes>, i: nat, nohash: bool, assignment: bytes, indent: Indent, level: int)
    requires TableShape(keys, texts) && i < |keys|
    requires nohash == Positional(keys, i) && assignment == Assign(indent)
    ensures Written(keys, texts, i + 1, indent, level)
         == Written(keys, texts, i, indent, level)
            + (Margin(indent, level + 1) + KeyPart(keys[i], nohash, assignment, indent) + texts[i]
               + [COMMA] + LineEnd(indent))
  {
    hide Margin, LineEnd, Print, KeyPart, KeyText;
    assert KeyText(keys, i, indent) == KeyPart(keys[i], nohash, assignment, indent) by {
      KeyTextIsPart(keys, i, nohash, assignment, indent);
    }
  }

  // A key without a number, a first one that is not 1 and a gap end the positional
  // prefix.
  method StaysPositional(ghost keys: seq<Key>, ghost i: nat, nohash: bool, key: Key, lastkey: Option<Key>, lastval: Option<Value>)
    returns (stays: bool)
    requires i < |keys| && key == keys[i] && (nohash <==> i == 0 || Positional(keys, i - 1))
    requires lastkey == if i == 0 then None else Some(keys[i - 1])
    requires lastval.Some? <==> i > 0
    ensures stays <==> Positional(keys, i)
  {
    PositionalNext(keys, i);
    if i > 0 {
      PositionalNext(keys, i - 1);
    }
    stays := nohash;
    if nohash && (!key.IntKey? || (lastval.None? && key.n != 1)
                  || (lastkey.Some? && lastkey.value.n + 1 != key.n)) {
      stays := false;
    }
  }

  // The branch for lists and dicts.
  method SerializeTable(v: Value, indent: Indent, level: int) returns (parts: seq<bytes>)
    requires IsTable(v) && Printable(v)
    ensures Join(parts) == Print(v, indent, level)
    decreases 2, v, 0
  {
    hide Join, Written, Print, KeyText, KeyPart, TextsOf, KeysOf, Positional, BodyText, Repeat;
    ghost var keys, texts := KeysOf(v), TextsOf(v, indent, level + 1);
    PrintTable(v, indent, level);

    var entries := TableEntries(v);

    parts := [];
    JoinNone();
    parts := Add(parts, [LBRACE]);
    var assignment: bytes := [EQUALS];
    if indent.Some? {
      assignment := [SPACE, EQUALS, SPACE];
      if |entries| != 0 {
        parts := Add(parts, [NEWLINE]);
      }
    }
    ghost var start := Join(parts);

    WrittenNone(keys, texts, indent, level);

    var nohash := true;
    var lastkey: Option<Key> := None;
    var lastval: Option<Value> := None;
    var hasval := false;
    for i := 0 to |entries|
      invariant Join(parts) == start + Written(keys, texts, i, indent, level)
      invariant nohash <==> i == 0 || Positional(keys, i - 1)
      invariant lastkey == if i == 0 then None else Some(keys[i - 1])
      invariant lastval.Some? <==> i > 0
      invariant hasval <==> i > 0
      invariant i > 0 && indent.None? ==> parts[|parts| - 1] == [COMMA]
    {
      var key, val := entries[i].key, entries[i].val;
      nohash := StaysPositional(keys, i, nohash, key, lastkey, lastval);
      parts := SerializeEntry(parts, key, val, nohash, assignment, indent, level);
      EntryWritten(keys, texts, i, nohash, assignment, indent, level);
      lastkey := Some(key);
      lastval := Some(val);
      hasval := true;
    }

    if indent.None? && hasval {
      parts := Pop(parts, COMMA);
    }
    WrittenTrimmed(Join(parts), start, keys, texts, indent, level);
    if indent.Some? && |entries| != 0 {
      parts := Add(parts, Repeat(indent.value, level));
    }
    parts := Add(parts, [RBRACE]);
  }
}
