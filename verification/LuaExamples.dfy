// Some of the inputs and outputs that the tests of the original list, letter by letter.
module LuaExamples {
  import opened Wrappers
  import opened Bytes
  import opened LuaValues
  import opened LuaText
  import opened LuaNodes
  import opened LuaSerialize
  import opened LuaReadBack
  import opened LuaRuns
  import opened LuaTexts
  import opened LuaInputs
  import opened LuaRefusals
  import RoundTrip = LuaRoundTrip
  import M = LuaMachine

  function One(): Literal {
    Integer(false, [0x31])
  }

  lemma OneIs()
    ensures IsLiteral(One()) && LiteralValue(One()) == Int(1) && LiteralText(One()) == [0x31]
  {
    assert [0x31 as byte][..0] == [];
    assert NatOf([0x31][..0]) == 0;
    assert NatOf([0x31]) == 1;
  }

  // A table of the number 1 alone, with gaps.
  function OneTable(before: Gap, after: Gap, trailing: bool, tail: Gap): Text {
    Table([Item(before, Unnamed, Scalar(One()), after)], trailing, tail)
  }

  lemma OneTableSpelled(before: Gap, after: Gap, trailing: bool, tail: Gap)
    ensures var t := OneTable(before, after, trailing, tail);
      Spell(t) == [0x7B] + GapText(before) + [0x31] + GapText(after) + (if trailing then [0x2C] else []) + GapText(tail) + [0x7D]
  {
    hide GapText, NameText, LiteralText;
    OneIs();
    UnnamedNothing();
    var t := OneTable(before, after, trailing, tail);
    assert SpellFrom(t, 1) == [];
    assert Spell(t.items[0].value) == [0x31];
    assert SpellFrom(t, 0) == GapText(before) + [0x31] + GapText(after) + CommaText(t, 0);
  }

  lemma OneTableMeans(before: Gap, after: Gap, trailing: bool, tail: Gap)
    requires IsGap(before) && IsGap(after) && IsGap(tail) && (!trailing ==> tail == [])
    ensures var t := OneTable(before, after, trailing, tail); IsText(t) && Meaning(t) == List([Int(1)])
  {
    hide GapText, IsGap, NodeOf, Sort, NodeTable, TableOf;
    OneIs();
    UnnamedNothing();
    var t := OneTable(before, after, trailing, tail);
    var es := [Entry(IntKey(1), Int(1))];
    NodeOfNone();
    assert EntriesTo(t, 0) == [];
    assert EntriesTo(t, 1) == es;
    NodeOfTable(es);
    NodeOfPositional(es);
    assert TableOf(es) == List(Vals(es)) by {
      ListOf(es);
    }
    assert Vals(es) == [Int(1)];
  }

  lemma ListOf(es: seq<Entry>)
    requires IsArray(es) && Sort(es) == es
    ensures TableOf(es) == List(Vals(es))
  {
  }

  lemma ParsesToOne(before: Gap, after: Gap, trailing: bool, tail: Gap, text: bytes)
    requires IsGap(before) && IsGap(after) && IsGap(tail) && (!trailing ==> tail == [])
    requires text == [0x7B] + GapText(before) + [0x31] + GapText(after) + (if trailing then [0x2C] else []) + GapText(tail) + [0x7D]
    ensures M.Parse(text) == Ok(List([Int(1)]))
  {
    hide *;
    OneTableSpelled(before, after, trailing, tail);
    OneTableMeans(before, after, trailing, tail);
    RoundTrip.BareChunk(OneTable(before, after, trailing, tail));
    OneAccepted(Chunk([], OneTable(before, after, trailing, tail), []));
  }

  lemma OnePiece(p: Piece)
    ensures GapText([p]) == PieceText(p) && (IsPiece(p) ==> IsGap([p]))
  {
    assert [p][1..] == [];
  }

  const WORD: bytes := [0x63, 0x6F, 0x6D, 0x6D, 0x65, 0x6E, 0x74]
  const LINE := Line([0x20] + WORD)
  const LONG := Long(WORD)

  lemma CommentPieces()
    ensures IsPiece(LINE) && IsPiece(LONG)
  {
    assert LINE.x == [0x20, 0x63, 0x6F, 0x6D, 0x6D, 0x65, 0x6E, 0x74];
    assert 0x0A !in LINE.x && LINE.x[0] != 0x5B;
    assert 0x5D !in WORD;
  }

  lemma TwoPieces(p: Piece, q: Piece)
    requires IsPiece(p) && IsPiece(q)
    ensures IsGap([p, q]) && GapText([p, q]) == PieceText(p) + PieceText(q)
  {
    assert [p, q][1..] == [q];
    OnePiece(q);
  }

  // A comment to the end of the line, one in brackets, and blanks around a comma.
  lemma InlineTest()
    ensures M.Parse(Ascii("{ -- comment\n1}")) == Ok(List([Int(1)]))
  {
    hide *;
    CommentPieces();
    NoGap();
    NoGapIs();
    BlankIs();
    TwoPieces(Blank(0x20), LINE);
    InlineBytes();
    ParsesToOne([Blank(0x20), LINE], [], false, [], Ascii("{ -- comment\n1}"));
  }

  lemma InlineBytes()
    ensures Ascii("{ -- comment\n1}") == [0x7B] + (PieceText(Blank(0x20)) + PieceText(LINE)) + [0x31] + [] + [] + [] + [0x7D]
  {
    assert LINE.x == [0x20, 0x63, 0x6F, 0x6D, 0x6D, 0x65, 0x6E, 0x74];
  }

  lemma BlankIs()
    ensures IsPiece(Blank(0x20))
  {
  }

  lemma LongTest()
    ensures M.Parse(Ascii("{ --[[comment]]1}")) == Ok(List([Int(1)]))
  {
    hide *;
    CommentPieces();
    NoGap();
    NoGapIs();
    BlankIs();
    TwoPieces(Blank(0x20), LONG);
    LongBytes();
    ParsesToOne([Blank(0x20), LONG], [], false, [], Ascii("{ --[[comment]]1}"));
  }

  lemma LongBytes()
    ensures Ascii("{ --[[comment]]1}") == [0x7B] + (PieceText(Blank(0x20)) + PieceText(LONG)) + [0x31] + [] + [] + [] + [0x7D]
  {
    assert LONG.x == [0x63, 0x6F, 0x6D, 0x6D, 0x65, 0x6E, 0x74];
  }

  lemma CommaTest()
    ensures M.Parse(Ascii("{1 , }")) == Ok(List([Int(1)]))
  {
    hide M.Parse, GapText, IsGap, IsPiece;
    NoGap();
    NoGapIs();
    BlankIs();
    OnePiece(Blank(0x20));
    ParsesToOne([], [Blank(0x20)], true, [Blank(0x20)], Ascii("{1 , }"));
  }

  // ---- printing ----

  lemma IntOne()
    ensures IntText(1) == [0x31] && IntText(2) == [0x32] && IntText(3) == [0x33]
    ensures QuotedText([0x33]) == [0x22, 0x33, 0x22]
  {
    var s: bytes := [0x33];
    EscapeIsMarked(s);
    assert s[1..] == [];
  }

  const INNER := Dict([Entry(IntKey(3), Str([0x33]))])
  const OUTER := Dict([Entry(IntKey(1), Int(1)), Entry(IntKey(2), Int(2)), Entry(StrKey([0x33]), INNER)])

  lemma OneEntryText(keys: seq<Key>, texts: seq<bytes>, indent: Indent, level: int)
    requires TableShape(keys, texts) && |keys| == 1
    ensures TableText(keys, texts, indent, level) ==
      [0x7B] + LineEnd(indent) + (Margin(indent, level + 1) + KeyText(keys, 0, indent) + texts[0] + Separator(1, 0, indent))
      + Margin(indent, level) + [0x7D]
  {
    hide Margin, LineEnd, KeyText, Separator;
    assert BodyText(keys, texts, 1, indent, level) == [];
  }

  lemma ThreeEntriesText(keys: seq<Key>, texts: seq<bytes>, indent: Indent, level: int)
    requires TableShape(keys, texts) && |keys| == 3
    ensures TableText(keys, texts, indent, level) ==
      [0x7B] + LineEnd(indent)
      + ((Margin(indent, level + 1) + KeyText(keys, 0, indent) + texts[0] + Separator(3, 0, indent))
         + ((Margin(indent, level + 1) + KeyText(keys, 1, indent) + texts[1] + Separator(3, 1, indent))
            + (Margin(indent, level + 1) + KeyText(keys, 2, indent) + texts[2] + Separator(3, 2, indent))))
      + Margin(indent, level) + [0x7D]
  {
    hide Margin, LineEnd, KeyText, Separator;
    assert BodyText(keys, texts, 3, indent, level) == [];
    assert BodyText(keys, texts, 2, indent, level) == EntryText(keys, texts, 2, indent, level);
    assert BodyText(keys, texts, 1, indent, level) == EntryText(keys, texts, 1, indent, level) + BodyText(keys, texts, 2, indent, level);
  }

  lemma InnerKeys(indent: Indent)
    ensures KeyText([IntKey(3)], 0, indent) == [0x5B, 0x33, 0x5D] + Assign(indent)
  {
    hide Assign, IntText;
    var keys := [IntKey(3)];
    IntOne();
    assert !Positional(keys, 0) by { assert keys[0] != IntKey(1); }
  }

  lemma InnerPrinted(indent: Indent, level: int)
    ensures Printable(INNER)
    ensures Print(INNER, indent, level) ==
      [0x7B] + LineEnd(indent)
      + (Margin(indent, level + 1) + ([0x5B, 0x33, 0x5D] + Assign(indent)) + [0x22, 0x33, 0x22] + Separator(1, 0, indent))
      + Margin(indent, level) + [0x7D]
  {
    hide Margin, LineEnd, Assign, IntText, QuotedText, KeyText, Separator, TableText;
    IntOne();
    PrintTable(INNER, indent, level);
    assert KeysOf(INNER) == [IntKey(3)] && TextsOf(INNER, indent, level + 1) == [[0x22, 0x33, 0x22]];
    OneEntryText([IntKey(3)], [[0x22, 0x33, 0x22]], indent, level);
    InnerKeys(indent);
  }

  const OUTER_KEYS := [IntKey(1), IntKey(2), StrKey([0x33])]

  lemma OuterKeys(indent: Indent)
    ensures KeyText(OUTER_KEYS, 0, indent) == [] && KeyText(OUTER_KEYS, 1, indent) == []
    ensures KeyText(OUTER_KEYS, 2, indent) == [0x5B, 0x22, 0x33, 0x22, 0x5D] + Assign(indent)
  {
    hide Assign, IntText, QuotedText;
    IntOne();
    assert Positional(OUTER_KEYS, 0) && Positional(OUTER_KEYS, 1);
    assert !Positional(OUTER_KEYS, 2) by { assert OUTER_KEYS[2] != IntKey(3); }
    assert !MatchesName([0x33]);
  }

  lemma OuterPrinted(indent: Indent)
    ensures Printable(OUTER) && Printable(INNER)
    ensures Print(OUTER, indent, 0) ==
      [0x7B] + LineEnd(indent)
      + ((Margin(indent, 1) + [] + [0x31] + Separator(3, 0, indent))
         + ((Margin(indent, 1) + [] + [0x32] + Separator(3, 1, indent))
            + (Margin(indent, 1) + ([0x5B, 0x22, 0x33, 0x22, 0x5D] + Assign(indent)) + Print(INNER, indent, 1) + Separator(3, 2, indent))))
      + Margin(indent, 0) + [0x7D]
  {
    hide Margin, LineEnd, Assign, IntText, QuotedText, KeyText, Separator, TableText;
    IntOne();
    InnerPrinted(indent, 1);
    assert DistinctKeys(OUTER.entries);
    PrintTable(OUTER, indent, 0);
    var texts := [[0x31], [0x32], Print(INNER, indent, 1)];
    assert KeysOf(OUTER) == OUTER_KEYS && TextsOf(OUTER, indent, 1) == texts;
    ThreeEntriesText(OUTER_KEYS, texts, indent, 0);
    OuterKeys(indent);
  }

  // Entries in order without keys, others with them; without an indent in one line,
  // with one on lines of their own.
  lemma PrintTest()
    ensures Printable(OUTER)
    ensures Print(OUTER, None, 0) == Ascii("{1,2,[\"3\"]={[3]=\"3\"}}")
  {
    hide Print, Printable;
    OuterPrinted(None);
    InnerPrinted(None, 1);
  }

  const TWO_SPACES: Indent := Some([0x20, 0x20])
  const INNER_LINES: bytes :=
    [0x7B, 0x0A, 0x20, 0x20, 0x20, 0x20, 0x5B, 0x33, 0x5D, 0x20, 0x3D, 0x20, 0x22, 0x33, 0x22, 0x2C, 0x0A, 0x20, 0x20, 0x7D]

  lemma Margins()
    ensures Margin(TWO_SPACES, 0) == [] && Margin(TWO_SPACES, 1) == [0x20, 0x20]
    ensures Margin(TWO_SPACES, 2) == [0x20, 0x20, 0x20, 0x20]
  {
    RoundTrip.RepeatSum([0x20, 0x20], 1, 1);
  }

  lemma InnerIndented()
    ensures Printable(INNER) && Print(INNER, TWO_SPACES, 1) == INNER_LINES
  {
    hide Print, Printable, Margin;
    InnerPrinted(TWO_SPACES, 1);
    Margins();
  }

  lemma OuterIndented()
    ensures Printable(OUTER)
    ensures Print(OUTER, TWO_SPACES, 0) ==
      FRONT + INNER_LINES + [0x2C, 0x0A, 0x7D]
  {
    hide Print, Printable, Margin;
    OuterPrinted(TWO_SPACES);
    InnerIndented();
    Margins();
  }

  const FRONT: bytes :=
    [0x7B, 0x0A, 0x20, 0x20, 0x31, 0x2C, 0x0A, 0x20, 0x20, 0x32, 0x2C, 0x0A, 0x20, 0x20, 0x5B, 0x22, 0x33, 0x22, 0x5D, 0x20, 0x3D, 0x20]

  lemma FrontBytes()
    ensures Ascii("{\n  1,\n  2,\n  [\"3\"] = ") == FRONT
  {
  }

  lemma InnerBytes()
    ensures Ascii("{\n    [3] = \"3\",\n  }") == INNER_LINES
  {
  }

  lemma WholeBytes()
    ensures Ascii("{\n  1,\n  2,\n  [\"3\"] = {\n    [3] = \"3\",\n  },\n}")
         == Ascii("{\n  1,\n  2,\n  [\"3\"] = ") + Ascii("{\n    [3] = \"3\",\n  }") + [0x2C, 0x0A, 0x7D]
  {
  }

  lemma IndentTest()
    ensures Printable(OUTER)
    ensures Print(OUTER, TWO_SPACES, 0)
         == Ascii("{\n  1,\n  2,\n  [\"3\"] = {\n    [3] = \"3\",\n  },\n}")
  {
    hide *;
    OuterIndented();
    FrontBytes();
    InnerBytes();
    WholeBytes();
  }
}
