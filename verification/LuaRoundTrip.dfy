// A printed value is one of the texts the parser takes: what it means is what the
// value is read back as.
module LuaRoundTrip {
  import opened Wrappers
  import opened Bytes
  import opened LuaValues
  import opened LuaText
  import opened LuaNodes
  import opened LuaSerialize
  import opened LuaReadBack
  import R = LuaRuns
  import T = LuaTexts
  import opened LuaInputs
  import M = LuaMachine

  predicate AllSpace(t: bytes) {
    forall i :: 0 <= i < |t| ==> IsSpace(t[i])
  }

  predicate Whitespace(indent: Indent) {
    indent.Some? ==> AllSpace(indent.value)
  }

  // ---- the text of a printed value ----

  function Blanks(t: bytes): (g: R.Gap)
    ensures |g| == |t|
  {
    seq(|t|, i requires 0 <= i < |t| => R.Blank(t[i]))
  }

  lemma {:induction false} BlanksText(t: bytes)
    ensures R.GapText(Blanks(t)) == t
    ensures AllSpace(t) ==> R.IsGap(Blanks(t))
  {
    if t != [] {
      BlanksText(t[1..]);
      assert Blanks(t)[1..] == Blanks(t[1..]) && t == [t[0]] + t[1..];
    }
  }

  // The indent once a level, and none below.
  lemma {:induction false} RepeatSum(t: bytes, m: nat, n: nat)
    ensures Repeat(t, m + n) == Repeat(t, m) + Repeat(t, n)
    ensures Repeat(t, 1) == t && Repeat(t, -(n as int)) == []
  {
    if m > 0 {
      RepeatSum(t, m - 1, n);
    }
  }

  // A new line, and the margin of the level.
  function LineGap(indent: Indent, level: int): R.Gap {
    if indent.Some? then Blanks([0x0A] + Repeat(indent.value, level)) else []
  }

  function SpaceGap(indent: Indent): R.Gap {
    if indent.Some? then [R.Blank(0x20)] else []
  }

  function Whole(n: int): R.Literal {
    R.Integer(n < 0, DigitsOf(if n < 0 then -n else n))
  }

  // The keys so far are 1, 2, 3..
  predicate Leading(keys: seq<Key>, i: nat)
    requires i < |keys|
  {
    forall j :: 0 <= j <= i ==> keys[j] == IntKey(j + 1)
  }

  lemma LeadingIs(keys: seq<Key>, i: nat)
    requires i < |keys|
    ensures Leading(keys, i) <==> Positional(keys, i)
    ensures Leading(keys, i) ==> keys[i] == IntKey(i + 1)
  {
  }

  lemma WordIs(s: bytes)
    ensures R.IsWord(s) <==> IsName(s)
  {
  }

  lemma NameWord(s: bytes)
    ensures MatchesName(s) <==> R.IsWord(s) || (s != [] && s[|s| - 1] == 0x0A && R.IsWord(s[..|s| - 1]))
  {
    hide R.IsWord, IsName;
    WordIs(s);
    if s != [] {
      WordIs(s[..|s| - 1]);
    }
  }

  // Numbers 1, 2, 3.. in front go without a key, names go bare, all else in brackets.
  function NameOf(keys: seq<Key>, i: nat, indent: Indent): T.Name
    requires i < |keys| && !keys[i].FloatKey?
  {
    var k := keys[i];
    if Leading(keys, i) then T.Unnamed
    else if k.IntKey? then T.Keyed([], Whole(k.n), [], SpaceGap(indent), SpaceGap(indent))
    else if R.IsWord(k.s) then T.Named(k.s, SpaceGap(indent), SpaceGap(indent))
    else if k.s != [] && k.s[|k.s| - 1] == 0x0A && R.IsWord(k.s[..|k.s| - 1]) then T.Named(k.s[..|k.s| - 1], [R.Blank(0x0A)] + SpaceGap(indent), SpaceGap(indent))
    else T.Keyed([], R.Quoted(0x22, k.s), [], SpaceGap(indent), SpaceGap(indent))
  }

  function Printed(v: Value, indent: Indent, level: int): T.Text
    requires Printable(v)
    decreases v
  {
    match v
    case Bool(b) => T.Scalar(R.Truth(b))
    case Int(n) => T.Scalar(Whole(n))
    case Str(s) => T.Scalar(R.Quoted(0x22, s))
    case List(items) =>
      PrintedTable(ListKeys(|items|), seq(|items|, i requires 0 <= i < |items| => Printed(items[i], indent, level + 1)), indent, level)
    case Dict(es) =>
      PrintedTable(DictKeys(es), seq(|es|, i requires 0 <= i < |es| => Printed(es[i].val, indent, level + 1)), indent, level)
  }

  // Every entry on a line of its own behind its margin, with a comma; without an
  // indent no blanks, and no comma behind the last.
  function PrintedTable(keys: seq<Key>, texts: seq<T.Text>, indent: Indent, level: int): (t: T.Text)
    requires |keys| == |texts| && forall i :: 0 <= i < |keys| ==> !keys[i].FloatKey?
  {
    var full := keys != [];
    T.Table(seq(|keys|, i requires 0 <= i < |keys| =>
              T.Item(LineGap(indent, level + 1), NameOf(keys, i, indent), texts[i], [])),
            full && indent.Some?, if full then LineGap(indent, level) else [])
  }

  // The same for lists and dicts alike.
  lemma PrintedIs(v: Value, indent: Indent, level: int)
    requires IsTable(v) && Printable(v)
    ensures var t := Printed(v, indent, level);
      && t.Table? && |t.items| == |Entries(v)|
      && t.trailing == (Entries(v) != [] && indent.Some?)
      && t.tail == (if Entries(v) != [] then LineGap(indent, level) else [])
      && forall i :: 0 <= i < |t.items| ==>
           t.items[i] == T.Item(LineGap(indent, level + 1), NameOf(KeysOf(v), i, indent),
                                Printed(Entries(v)[i].val, indent, level + 1), [])
  {
  }

  // ---- it is spelled as it is printed ----

  lemma LineText(indent: Indent, level: int)
    ensures R.GapText(LineGap(indent, level)) == LineEnd(indent) + Margin(indent, level)
    ensures Whitespace(indent) ==> R.IsGap(LineGap(indent, level))
  {
    if indent.Some? {
      BlanksText([0x0A] + Repeat(indent.value, level));
      if Whitespace(indent) {
        RepeatSpace(indent.value, level);
      }
    }
  }

  lemma RepeatSpace(t: bytes, n: int)
    requires AllSpace(t)
    ensures AllSpace(Repeat(t, n))
    decreases if n > 0 then n else 0
  {
    if n > 0 {
      RepeatSpace(t, n - 1);
    }
  }

  lemma SpaceText(indent: Indent)
    ensures R.GapText(SpaceGap(indent)) == (if indent.Some? then [SPACE] else []) && R.IsGap(SpaceGap(indent))
    ensures R.GapText([R.Blank(0x0A)] + SpaceGap(indent)) == [NEWLINE] + R.GapText(SpaceGap(indent))
    ensures R.IsGap([R.Blank(0x0A)] + SpaceGap(indent))
    ensures Assign(indent) == R.GapText(SpaceGap(indent)) + [0x3D] + R.GapText(SpaceGap(indent))
  {
    var g := SpaceGap(indent);
    assert ([R.Blank(0x0A)] + g)[1..] == g;
  }

  lemma WholeText(n: int)
    ensures R.LiteralText(Whole(n)) == IntText(n) && R.IsLiteral(Whole(n)) && R.LiteralValue(Whole(n)) == Int(n)
  {
    NatOfDigits(if n < 0 then -n else n);
  }

  lemma StringText(s: bytes)
    ensures R.LiteralText(R.Quoted(0x22, s)) == QuotedText(s)
  {
    EscapeIsMarked(s);
  }

  lemma NamedText(word: bytes, front: R.Gap, back: R.Gap)
    ensures T.NameText(T.Named(word, front, back)) == word + R.GapText(front) + [0x3D] + R.GapText(back)
  {
  }

  lemma KeyedText(l: R.Literal, g: R.Gap)
    ensures T.NameText(T.Keyed([], l, [], g, g))
         == [LBRACKET] + R.LiteralText(l) + [RBRACKET] + (R.GapText(g) + [0x3D] + R.GapText(g))
  {
    hide R.LiteralText;
  }

  lemma NameIs(keys: seq<Key>, i: nat, indent: Indent)
    requires i < |keys| && !keys[i].FloatKey?
    ensures T.NameText(NameOf(keys, i, indent)) == KeyText(keys, i, indent)
    ensures T.IsName(NameOf(keys, i, indent))
  {
    hide R.GapText, R.LiteralText, IntText, QuotedText, T.NameText, Assign, R.IsWord, MatchesName, Leading, Positional;
    var k, g := keys[i], SpaceGap(indent);
    SpaceText(indent);
    LeadingIs(keys, i);
    if Leading(keys, i) {
      T.UnnamedNothing();
    } else if k.IntKey? {
      WholeText(k.n);
      KeyedText(Whole(k.n), g);
    } else {
      NameWord(k.s);
      if R.IsWord(k.s) {
        NamedText(k.s, g, g);
      } else if MatchesName(k.s) {
        NamedText(k.s[..|k.s| - 1], [R.Blank(0x0A)] + g, g);
        assert k.s == k.s[..|k.s| - 1] + [NEWLINE];
      } else {
        StringText(k.s);
        KeyedText(R.Quoted(0x22, k.s), g);
      }
    }
  }

  lemma SpelledNext(v: Value, i: nat, indent: Indent, level: int)
    requires IsTable(v) && Printable(v) && i < |Entries(v)|
    ensures var t := Printed(v, indent, level);
      && t.Table? && |t.items| == |Entries(v)|
      && T.SpellFrom(t, i) == LineEnd(indent) + Margin(indent, level + 1) + KeyText(KeysOf(v), i, indent)
                            + T.Spell(Printed(Entries(v)[i].val, indent, level + 1))
                            + (if indent.Some? || i + 1 < |Entries(v)| then [COMMA] else [])
                            + T.SpellFrom(t, i + 1)
  {
    hide Printed, T.NameText, T.Spell, R.GapText, LineGap, KeyText, NameOf, Margin, LineEnd, Positional;
    PrintedIs(v, indent, level);
    LineText(indent, level + 1);
    NameIs(KeysOf(v), i, indent);
    T.NoGap();
  }

  lemma BodyNext(v: Value, i: nat, indent: Indent, level: int)
    requires IsTable(v) && Printable(v) && i < |Entries(v)|
    ensures BodyText(KeysOf(v), TextsOf(v, indent, level + 1), i, indent, level)
         == Margin(indent, level + 1) + KeyText(KeysOf(v), i, indent) + Print(Entries(v)[i].val, indent, level + 1)
            + (if indent.Some? || i + 1 < |Entries(v)| then [COMMA] else []) + LineEnd(indent)
            + BodyText(KeysOf(v), TextsOf(v, indent, level + 1), i + 1, indent, level)
  {
    hide KeyText, Margin, Print, LineEnd;
  }

  lemma Regroup(line: bytes, margin: bytes, key: bytes, text: bytes, comma: bytes, body: bytes, spelled: bytes)
    requires line + body == spelled + line
    ensures line + (margin + key + text + comma + line + body) == (line + margin + key + text + comma + spelled) + line
  {
    var front := line + margin + key + text + comma;
    assert line + (margin + key + text + comma + line + body) == front + (line + body);
    assert (front + spelled) + line == front + (spelled + line);
  }

  lemma {:induction false} PrintedBody(v: Value, i: nat, indent: Indent, level: int)
    requires IsTable(v) && Printable(v) && i <= |Entries(v)|
    ensures Printed(v, indent, level).Table? && |Printed(v, indent, level).items| == |Entries(v)|
    ensures LineEnd(indent) + BodyText(KeysOf(v), TextsOf(v, indent, level + 1), i, indent, level)
         == T.SpellFrom(Printed(v, indent, level), i) + LineEnd(indent)
    decreases v, 0, |Entries(v)| - i
  {
    hide *;
    PrintedTableIs(v, indent, level);
    if i < |Entries(v)| {
      EntryPrintable(v, i);
      var text := Print(Entries(v)[i].val, indent, level + 1);
      var comma := if indent.Some? || i + 1 < |Entries(v)| then [COMMA] else [];
      PrintSpelled(Entries(v)[i].val, indent, level + 1);
      PrintedBody(v, i + 1, indent, level);
      SpelledNext(v, i, indent, level);
      BodyNext(v, i, indent, level);
      Regroup(LineEnd(indent), Margin(indent, level + 1), KeyText(KeysOf(v), i, indent), text, comma,
              BodyText(KeysOf(v), TextsOf(v, indent, level + 1), i + 1, indent, level),
              T.SpellFrom(Printed(v, indent, level), i + 1));
    } else {
      T.SpellNone(Printed(v, indent, level));
      BodyNone(v, indent, level);
    }
  }

  lemma PrintedTableIs(v: Value, indent: Indent, level: int)
    requires IsTable(v) && Printable(v)
    ensures Printed(v, indent, level).Table? && |Printed(v, indent, level).items| == |Entries(v)|
    ensures |KeysOf(v)| == |Entries(v)| == |TextsOf(v, indent, level + 1)| && TableShape(KeysOf(v), TextsOf(v, indent, level + 1))
  {
  }

  lemma EntryPrintable(v: Value, i: nat)
    requires IsTable(v) && Printable(v) && i < |Entries(v)|
    ensures |KeysOf(v)| == |Entries(v)| && !KeysOf(v)[i].FloatKey? && Printable(Entries(v)[i].val)
    ensures Entries(v)[i].val < v
  {
  }

  lemma BodyNone(v: Value, indent: Indent, level: int)
    requires IsTable(v) && Printable(v)
    ensures BodyText(KeysOf(v), TextsOf(v, indent, level + 1), |Entries(v)|, indent, level) == []
  {
  }

  // A printed value is, byte for byte, the text with every entry on a line of its own.
  lemma PrintSpelled(v: Value, indent: Indent, level: int)
    requires Printable(v)
    ensures T.Spell(Printed(v, indent, level)) == Print(v, indent, level)
    decreases v, 1, 0
  {
    match v {
      case Bool(_) =>
      case Int(n) => WholeText(n);
      case Str(s) => StringText(s);
      case List(_) => TableSpelled(v, indent, level);
      case Dict(_) => TableSpelled(v, indent, level);
      case Float(_) =>
    }
  }

  lemma SpelledIs(v: Value, indent: Indent, level: int)
    requires IsTable(v) && Printable(v)
    ensures var t := Printed(v, indent, level);
      && t.Table? && |t.items| == |Entries(v)|
      && T.Spell(t) == [LBRACE] + T.SpellFrom(t, 0)
                       + (if Entries(v) != [] then LineEnd(indent) + Margin(indent, level) else []) + [RBRACE]
  {
    hide Printed, T.SpellFrom, LineEnd, Margin, R.GapText, LineGap;
    PrintedIs(v, indent, level);
    LineText(indent, level);
    T.NoGap();
  }

  lemma PrintIs(v: Value, indent: Indent, level: int)
    requires IsTable(v) && Printable(v)
    ensures Print(v, indent, level)
         == [LBRACE] + (if Entries(v) != [] then LineEnd(indent) else [])
            + BodyText(KeysOf(v), TextsOf(v, indent, level + 1), 0, indent, level)
            + (if Entries(v) != [] then Margin(indent, level) else []) + [RBRACE]
  {
    hide Print, BodyText, LineEnd, Margin;
    PrintTable(v, indent, level);
  }

  lemma TableSpelled(v: Value, indent: Indent, level: int)
    requires IsTable(v) && Printable(v)
    ensures T.Spell(Printed(v, indent, level)) == Print(v, indent, level)
    decreases v, 0, |Entries(v)| + 1
  {
    hide *;
    SpelledIs(v, indent, level);
    PrintIs(v, indent, level);
    PrintedTableIs(v, indent, level);
    PrintedBody(v, 0, indent, level);
    var spelled, body := T.SpellFrom(Printed(v, indent, level), 0), BodyText(KeysOf(v), TextsOf(v, indent, level + 1), 0, indent, level);
    if Entries(v) != [] {
      assert spelled + (LineEnd(indent) + Margin(indent, level)) == (spelled + LineEnd(indent)) + Margin(indent, level);
      assert [LBRACE] + LineEnd(indent) + body == [LBRACE] + (LineEnd(indent) + body);
    } else {
      T.SpellNone(Printed(v, indent, level));
      BodyNone(v, indent, level);
    }
  }

  // ---- it means what is read back ----

  lemma KeysAre(n: int, s: bytes, g: R.Gap, lualen: nat)
    requires R.IsGap(g) && R.IsGap([])
    ensures var k := T.Keyed([], Whole(n), [], g, g); T.IsName(k) && T.KeyOf(k, lualen) == IntKey(n)
    ensures var k := T.Keyed([], R.Quoted(0x22, s), [], g, g); T.IsName(k) && T.KeyOf(k, lualen) == StrKey(s)
  {
    hide R.IsGap, DigitsOf;
    WholeText(n);
  }

  lemma NameMeans(keys: seq<Key>, i: nat, indent: Indent, lualen: nat)
    requires i < |keys| && !keys[i].FloatKey? && (Positional(keys, i) ==> lualen == i)
    ensures T.IsName(NameOf(keys, i, indent)) && T.KeyOf(NameOf(keys, i, indent), lualen) == ReadKey(keys[i])
  {
    hide R.GapText, DigitsOf, R.IsWord, MatchesName, Leading, Positional, IsName, T.IsName, Whole, R.IsGap, SpaceGap, R.LiteralKey;
    var k := keys[i];
    NameIs(keys, i, indent);
    LeadingIs(keys, i);
    NoGapIs();
    SpaceText(indent);
    if k.IntKey? {
      KeysAre(k.n, [], SpaceGap(indent), lualen);
    } else {
      NameWord(k.s);
      WordIs(k.s);
      KeysAre(0, k.s, SpaceGap(indent), lualen);
    }
  }

  lemma PrintedTableIsText(v: Value, indent: Indent, level: int)
    requires IsTable(v) && Printable(v) && Whitespace(indent)
    requires forall i :: 0 <= i < |Entries(v)| ==> T.IsText(Printed(Entries(v)[i].val, indent, level + 1))
    ensures T.IsText(Printed(v, indent, level))
  {
    hide Printed, R.IsGap, LineGap, NameOf, T.IsName, Positional;
    PrintedIs(v, indent, level);
    LineText(indent, level);
    LineText(indent, level + 1);
    assert R.IsGap([]) by { NoGapIs(); }
    assert indent.None? ==> LineGap(indent, level) == [] by { NoLine(level); }
    forall i | 0 <= i < |Entries(v)| ensures T.IsName(NameOf(KeysOf(v), i, indent)) {
      NameIs(KeysOf(v), i, indent);
    }
  }

  lemma NoLine(level: int)
    ensures LineGap(None, level) == []
  {
  }

  lemma {:induction false} PrintedEntries(v: Value, i: nat, indent: Indent, level: int)
    requires IsTable(v) && Printable(v) && i <= |Entries(v)|
    requires T.IsText(Printed(v, indent, level))
    requires forall i :: 0 <= i < |Entries(v)| ==>
      T.IsText(Printed(Entries(v)[i].val, indent, level + 1))
      && T.Meaning(Printed(Entries(v)[i].val, indent, level + 1)) == ReadBack(Entries(v)[i].val)
    ensures Printed(v, indent, level).Table? && |Printed(v, indent, level).items| == |Entries(v)|
    ensures T.EntriesTo(Printed(v, indent, level), i) == ReadEntries(v)[..i]
    decreases i
  {
    hide Printed, NodeOf, T.KeyOf, T.Meaning, NameOf, ReadBack, ReadKey, LineGap, Positional;
    PrintedIs(v, indent, level);
    if i > 0 {
      var rs := ReadEntries(v);
      PrintedEntries(v, i - 1, indent, level);
      if Positional(KeysOf(v), i - 1) {
        PositionalBefore(v, i - 1);
      }
      NameMeans(KeysOf(v), i - 1, indent, NodeOf(rs[..i - 1]).lualen);
      assert rs[..i] == rs[..i - 1] + [rs[i - 1]];
    }
  }

  lemma PositionalBefore(v: Value, i: nat)
    requires IsTable(v) && Printable(v) && i < |Entries(v)| && Positional(KeysOf(v), i)
    ensures NodeOf(ReadEntries(v)[..i]).lualen == i
  {
    hide NodeOf, IsArray, Sort, ReadBack;
    NodeOfPositional(ReadEntries(v)[..i]);
  }

  lemma PrintedMeans(v: Value, indent: Indent, level: int)
    requires Printable(v) && Whitespace(indent)
    ensures T.IsText(Printed(v, indent, level)) && T.Meaning(Printed(v, indent, level)) == ReadBack(v)
    decreases v
  {
    match v {
      case Bool(_) =>
      case Int(n) => WholeText(n);
      case Str(_) =>
      case Float(_) =>
      case _ =>
        hide *;
        forall i | 0 <= i < |Entries(v)|
          ensures Printable(Entries(v)[i].val)
          ensures T.IsText(Printed(Entries(v)[i].val, indent, level + 1))
          ensures T.Meaning(Printed(Entries(v)[i].val, indent, level + 1)) == ReadBack(Entries(v)[i].val)
        {
          EntryPrintable(v, i);
          PrintedMeans(Entries(v)[i].val, indent, level + 1);
        }
        PrintedTableMeans(v, indent, level);
    }
  }

  lemma PrintedTableMeans(v: Value, indent: Indent, level: int)
    requires IsTable(v) && Printable(v) && Whitespace(indent)
    requires forall i :: 0 <= i < |Entries(v)| ==>
      && Printable(Entries(v)[i].val)
      && T.IsText(Printed(Entries(v)[i].val, indent, level + 1))
      && T.Meaning(Printed(Entries(v)[i].val, indent, level + 1)) == ReadBack(Entries(v)[i].val)
    ensures T.IsText(Printed(v, indent, level)) && T.Meaning(Printed(v, indent, level)) == ReadBack(v)
  {
    hide Printed, ReadBack, NodeOf, NodeTable, T.EntriesTo, T.IsText, Whitespace, ReadKey, Entries;
    PrintedTableIsText(v, indent, level);
    PrintedEntries(v, |Entries(v)|, indent, level);
    ReadBackTable(v);
    assert ReadEntries(v)[..|Entries(v)|] == ReadEntries(v);
  }

  // ---- the round trip ----

  // Parsing what was printed gives the value that ReadBack describes, for every
  // printable value, every whitespace indent and every level.
  lemma RoundTrip(v: Value, indent: Indent, level: int)
    requires Printable(v) && Whitespace(indent)
    ensures M.Parse(Print(v, indent, level)) == Ok(ReadBack(v))
  {
    hide *;
    var c := Chunk([], Printed(v, indent, level), []);
    PrintedMeans(v, indent, level);
    PrintSpelled(v, indent, level);
    BareChunk(c.value);
    OneAccepted(c);
  }

  lemma BareChunk(t: T.Text)
    requires T.IsText(t)
    ensures IsChunk(Chunk([], t, [])) && ChunkText(Chunk([], t, [])) == T.Spell(t)
  {
    hide T.Spell, T.IsText;
  }

  // The same for every text with the tokens of a printed value: blanks and comments
  // anywhere between them, and a comma behind the last entry of a table or not.
  lemma RoundTripWithGaps(v: Value, indent: Indent, level: int, c: Chunk)
    requires Printable(v) && Whitespace(indent)
    requires IsChunk(c) && Bared(c.value) == Bared(Printed(v, indent, level))
    ensures M.Parse(ChunkText(c)) == M.Parse(Print(v, indent, level)) == Ok(ReadBack(v))
  {
    hide *;
    var d := Chunk([], Printed(v, indent, level), []);
    PrintedMeans(v, indent, level);
    PrintSpelled(v, indent, level);
    BareChunk(d.value);
    OneAccepted(d);
    GapsChangeNothing(c, d);
  }
}
