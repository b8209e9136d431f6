// Whole inputs of the parser: those it takes, and those it refuses.
module LuaInputs {
  import opened Wrappers
  import opened Bytes
  import opened LuaValues
  import opened LuaNodes
  import opened LuaReadBack
  import opened LuaRuns
  import opened LuaTexts
  import M = LuaMachine

  // ---- the end of the input ----

  // A comment that the input ends in.
  datatype Open = Closed | OpenLine(x: bytes) | OpenLong(x: bytes)

  predicate IsOpen(o: Open) {
    match o
    case Closed => true
    case OpenLine(x) => 0x0A !in x && !([0x5B, 0x5B] <= x)
    case OpenLong(x) => forall i :: 0 <= i < |x| - 1 ==> !(x[i] == 0x5D && x[i + 1] == 0x5D)
  }

  function OpenText(o: Open): bytes {
    match o
    case Closed => []
    case OpenLine(x) => [0x2D, 0x2D] + x
    case OpenLong(x) => [0x2D, 0x2D, 0x5B, 0x5B] + x
  }

  function Outcome(node: Node, stack: seq<M.Frame>): Result<Value> {
    M.Finish(St(0, M.ValueEnd, node, stack))
  }

  lemma EndsOver(b: bytes, s: M.State)
    requires s.pos == |b| + 1
    ensures M.Run(b, s) == Outcome(s.node, s.stack)
  {
  }

  lemma {:induction false} EndsInline(b: bytes, p: nat, m: M.Mode, node: Node, stack: seq<M.Frame>)
    requires p <= |b| && NEWLINE !in b[p..]
    ensures M.Run(b, M.State(p, M.Inline, m, node, stack)) == Outcome(node, stack)
    decreases |b| - p
  {
    hide M.Run, M.Finish;
    var s := M.State(p, M.Inline, m, node, stack);
    if p < |b| {
      assert b[p] in b[p..] && forall c :: c in b[p + 1..] ==> c in b[p..];
    }
    M.RunStep(b, s, s.(pos := p + 1));
    if p < |b| {
      EndsInline(b, p + 1, m, node, stack);
    } else {
      EndsOver(b, s.(pos := p + 1));
    }
  }

  lemma {:induction false} EndsMultiline(b: bytes, p: nat, m: M.Mode, node: Node, stack: seq<M.Frame>)
    requires p <= |b| && forall i :: p <= i < |b| - 1 ==> !(b[i] == RBRACKET && b[i + 1] == RBRACKET)
    ensures M.Run(b, M.State(p, M.Multiline, m, node, stack)) == Outcome(node, stack)
    decreases |b| - p
  {
    hide M.Run, M.Finish;
    var s := M.State(p, M.Multiline, m, node, stack);
    if At(b, p, M.LONG_CLOSE) {
      AtIndex(b, p, M.LONG_CLOSE, 0);
      AtIndex(b, p, M.LONG_CLOSE, 1);
    }
    M.RunStep(b, s, s.(pos := p + 1));
    if p < |b| {
      EndsMultiline(b, p + 1, m, node, stack);
    } else {
      EndsOver(b, s.(pos := p + 1));
    }
  }

  lemma OpenLineIs(b: bytes, p: nat, x: bytes)
    requires IsOpen(OpenLine(x)) && At(b, p, OpenText(OpenLine(x))) && p + |OpenText(OpenLine(x))| == |b|
    ensures At(b, p, M.DASHES) && !At(b, p, M.LONG_COMMENT) && b[p + 2..] == x
  {
    AtConcat(b, p, M.DASHES, x);
    if At(b, p, M.LONG_COMMENT) {
      AtIndex(b, p, M.LONG_COMMENT, 2);
      AtIndex(b, p, M.LONG_COMMENT, 3);
    }
  }

  lemma OpenLongIs(b: bytes, p: nat, x: bytes)
    requires IsOpen(OpenLong(x)) && At(b, p, OpenText(OpenLong(x))) && p + |OpenText(OpenLong(x))| == |b|
    ensures At(b, p, M.DASHES) && At(b, p, M.LONG_COMMENT)
    ensures forall i :: p + 4 <= i < |b| - 1 ==> !(b[i] == RBRACKET && b[i + 1] == RBRACKET)
  {
    AtConcat(b, p, M.LONG_COMMENT, x);
    assert M.LONG_COMMENT == M.DASHES + [LBRACKET, LBRACKET];
    AtConcat(b, p, M.DASHES, [LBRACKET, LBRACKET]);
    assert b[p + 4..] == x;
    forall i | p + 4 <= i < |b| - 1 ensures !(b[i] == RBRACKET && b[i + 1] == RBRACKET) {
      assert b[i] == x[i - p - 4] && b[i + 1] == x[i - p - 4 + 1];
    }
  }

  // At the end of the input, in a comment or not, the loop is over behind a value and
  // between entries; in any other state there is no value.
  lemma RunOpen(b: bytes, p: nat, o: Open, m: M.Mode, node: Node, stack: seq<M.Frame>)
    requires IsOpen(o) && At(b, p, OpenText(o)) && p + |OpenText(o)| == |b| && TakesGaps(m)
    ensures M.Run(b, St(p, m, node, stack)) == Outcome(node, stack)
         || (!m.SeekChild? && !m.ValueEnd? && M.Run(b, St(p, m, node, stack)) == Err)
  {
    hide M.Run, M.Finish;
    match o {
      case Closed => EndsHere(b, m, node, stack);
      case OpenLine(x) =>
        OpenLineIs(b, p, x);
        EnterComment(b, p, m, node, stack);
        EndsInline(b, p + 2, m, node, stack);
      case OpenLong(x) =>
        OpenLongIs(b, p, x);
        EnterComment(b, p, m, node, stack);
        EndsMultiline(b, p + 4, m, node, stack);
    }
  }

  lemma EndsHere(b: bytes, m: M.Mode, node: Node, stack: seq<M.Frame>)
    requires TakesGaps(m)
    ensures M.Run(b, St(|b|, m, node, stack)) == Outcome(node, stack)
         || (!m.SeekChild? && !m.ValueEnd? && M.Run(b, St(|b|, m, node, stack)) == Err)
  {
    var s := St(|b|, m, node, stack);
    if m.ValueEnd? || m.KeySimpleEnd? {
      M.RunStep(b, s, s.(pos := |b| + 1));
      EndsOver(b, s.(pos := |b| + 1));
    }
  }

  lemma InTable(node: Node, stack: seq<M.Frame>)
    requires stack != []
    ensures Outcome(node, stack) == Err
  {
  }

  // ---- inputs that are taken ----

  // A value with the gaps around it.
  datatype Chunk = Chunk(before: Gap, value: Text, after: Gap)

  predicate IsChunk(c: Chunk) {
    IsGap(c.before) && IsText(c.value) && IsGap(c.after)
  }

  predicate AreChunks(chunks: seq<Chunk>) {
    forall i :: 0 <= i < |chunks| ==> IsChunk(chunks[i])
  }

  function ChunkText(c: Chunk): bytes {
    GapText(c.before) + Spell(c.value) + GapText(c.after)
  }

  // Values separated by commas.
  function Joined(chunks: seq<Chunk>): bytes {
    if chunks == [] then []
    else if |chunks| == 1 then ChunkText(chunks[0])
    else ChunkText(chunks[0]) + [0x2C] + Joined(chunks[1..])
  }

  // The node that the values before make at the top level.
  function RootOf(vs: seq<Value>): Node {
    Node(ListEntries(vs), |vs|, true)
  }

  lemma RootNext(vs: seq<Value>, v: Value)
    ensures Append(RootOf(vs), IntKey(|vs| + 1), v) == RootOf(vs + [v])
  {
    var es := ListEntries(vs) + [Entry(IntKey(|vs| + 1), v)];
    assert es == ListEntries(vs + [v]);
    SortOfSorted(es);
    LuaLenFull(es);
  }

  lemma RootNone()
    ensures RootOf([]) == ROOT
  {
  }

  lemma RunChunk(b: bytes, p: nat, c: Chunk, vs: seq<Value>)
    requires IsChunk(c) && At(b, p, ChunkText(c))
    requires c.after == [] ==> EndsText(c.value, b, p + |ChunkText(c)|)
    ensures M.Run(b, St(p, M.SeekChild, RootOf(vs), []))
         == M.Run(b, St(p + |ChunkText(c)|, M.ValueEnd, RootOf(vs + [Meaning(c.value)]), []))
  {
    hide M.Run, GapText, Spell, Meaning, IsGap, IsText, Append, EndsText;
    var g, s, a := GapText(c.before), Spell(c.value), GapText(c.after);
    var k, root := IntKey(|vs| + 1), RootOf(vs);
    AtConcat(b, p, g + s, a);
    AtConcat(b, p, g, s);
    var q := p + |g|;
    NoGap();
    AfterChunk(b, q + |s|, c.after, c.value);
    RunGap(b, p, c.before, M.SeekChild, root, []);
    FirstByte(b, q, c.value);
    OpenUnnamed(b, q, root, []);
    RunText(b, q, k, root, [], c.value);
    RootNext(vs, Meaning(c.value));
    RunGap(b, q + |s|, c.after, M.ValueEnd, RootOf(vs + [Meaning(c.value)]), []);
  }

  lemma AfterChunk(b: bytes, q: nat, g: Gap, t: Text)
    requires IsGap(g) && At(b, q, GapText(g)) && (g == [] ==> EndsText(t, b, q))
    ensures EndsText(t, b, q)
  {
    if g != [] {
      FirstOfGap(b, q, g);
    }
  }

  function Values(chunks: seq<Chunk>): (vs: seq<Value>)
    requires AreChunks(chunks)
    ensures |vs| == |chunks| && forall i :: 0 <= i < |vs| ==> vs[i] == Meaning(chunks[i].value)
  {
    seq(|chunks|, i requires 0 <= i < |chunks| => Meaning(chunks[i].value))
  }

  // A value and the comma behind it.
  lemma RunChunkComma(b: bytes, p: nat, c: Chunk, vs: seq<Value>)
    requires IsChunk(c) && At(b, p, ChunkText(c) + [0x2C])
    ensures M.Run(b, St(p, M.SeekChild, RootOf(vs), []))
         == M.Run(b, St(p + |ChunkText(c)| + 1, M.SeekChild, RootOf(vs + [Meaning(c.value)]), []))
  {
    hide M.Run, ChunkText, EndsText, Meaning, RootOf, GapText, IsGap, IsText;
    var q := p + |ChunkText(c)|;
    AtConcat(b, p, ChunkText(c), [0x2C]);
    AtIndex(b, q, [0x2C], 0);
    CommaEnds(b, q);
    EndsAny(c.value, b, q);
    RunChunk(b, p, c, vs);
    EndByComma(b, q, RootOf(vs + [Meaning(c.value)]), []);
  }

  lemma {:induction false} RunChunks(b: bytes, p: nat, chunks: seq<Chunk>, vs: seq<Value>)
    requires chunks != [] && AreChunks(chunks) && At(b, p, Joined(chunks))
    requires var last := chunks[|chunks| - 1]; last.after == [] ==> EndsText(last.value, b, p + |Joined(chunks)|)
    ensures M.Run(b, St(p, M.SeekChild, RootOf(vs), []))
         == M.Run(b, St(p + |Joined(chunks)|, M.ValueEnd, RootOf(vs + Values(chunks)), []))
    decreases |chunks|
  {
    hide M.Run, ChunkText, EndsText, Meaning, RootOf, GapText, IsGap, IsText, At;
    var c, rest := chunks[0], chunks[1..];
    if rest == [] {
      RunChunk(b, p, c, vs);
      assert Values(chunks) == [Meaning(c.value)];
    } else {
      AtConcat(b, p, ChunkText(c) + [0x2C], Joined(rest));
      RunChunkComma(b, p, c, vs);
      RunChunks(b, p + |ChunkText(c)| + 1, rest, vs + [Meaning(c.value)]);
      assert vs + [Meaning(c.value)] + Values(rest) == vs + Values(chunks);
    }
  }

  lemma CommaEnds(b: bytes, q: nat)
    requires q < |b| && b[q] == COMMA
    ensures EndsNumber(b, q)
  {
  }

  // What is behind the last value: at most a comma and a gap, and a comment that is
  // not closed.
  function EndText(comma: bool, tail: Gap, o: Open): bytes {
    (if comma then [0x2C] + GapText(tail) else []) + OpenText(o)
  }

  lemma RunEnd(b: bytes, q: nat, comma: bool, tail: Gap, o: Open, node: Node)
    requires IsGap(tail) && IsOpen(o) && At(b, q, EndText(comma, tail, o)) && q + |EndText(comma, tail, o)| == |b|
    ensures M.Run(b, St(q, M.ValueEnd, node, [])) == Outcome(node, [])
    ensures EndsNumber(b, q)
  {
    hide M.Run, GapText, IsGap, IsOpen, OpenText, Outcome, At, EndsNumber;
    if comma {
      assert EndText(comma, tail, o) == [0x2C] + (GapText(tail) + OpenText(o));
      AtConcat(b, q, [0x2C], GapText(tail) + OpenText(o));
      AtConcat(b, q + 1, GapText(tail), OpenText(o));
      AtIndex(b, q, [0x2C], 0);
      CommaEnds(b, q);
      EndByComma(b, q, node, []);
      RunGap(b, q + 1, tail, M.SeekChild, node, []);
      RunOpen(b, q + 1 + |GapText(tail)|, o, M.SeekChild, node, []);
    } else {
      assert EndText(comma, tail, o) == OpenText(o);
      RunOpen(b, q, o, M.ValueEnd, node, []);
      OpenEnds(b, q, o);
    }
  }

  lemma OpenEnds(b: bytes, q: nat, o: Open)
    requires At(b, q, OpenText(o)) && q + |OpenText(o)| == |b|
    ensures EndsNumber(b, q)
  {
    if OpenText(o) != [] {
      AtIndex(b, q, OpenText(o), 0);
    }
  }

  lemma ParseIs(b: bytes)
    ensures M.Parse(b) == M.Run(b, St(0, M.SeekChild, RootOf([]), []))
  {
    RootNone();
  }

  lemma FirstOfRoot(vs: seq<Value>)
    requires vs != []
    ensures Outcome(RootOf(vs), []) == Ok(vs[0])
  {
  }

  // Every input of values separated by commas, with blanks and comments between any
  // two tokens, denotes what the first of the values means.
  lemma Accepted(chunks: seq<Chunk>, comma: bool, tail: Gap, o: Open)
    requires chunks != [] && AreChunks(chunks) && IsGap(tail) && IsOpen(o)
    ensures M.Parse(Joined(chunks) + EndText(comma, tail, o)) == Ok(Meaning(chunks[0].value))
  {
    hide *;
    var text, end := Joined(chunks), EndText(comma, tail, o);
    var b := text + end;
    var vs := Values(chunks);
    WholeAt(text, end);
    RunEnd(b, |text|, comma, tail, o, RootOf(vs));
    EndsAny(chunks[|chunks| - 1].value, b, |text|);
    RunChunks(b, 0, chunks, []);
    assert [] + vs == vs;
    ParseIs(b);
    FirstOfRoot(vs);
  }

  lemma WholeAt(u: bytes, v: bytes)
    ensures At(u + v, 0, u) && At(u + v, |u|, v)
  {
    assert At(u + v, 0, u + v);
    AtConcat(u + v, 0, u, v);
  }

  // ---- one value, however it is written ----

  function Bared(t: Text): Text
    decreases t
  {
    match t
    case Scalar(_) => t
    case Table(items, trailing, tail) =>
      Table(seq(|items|, i requires 0 <= i < |items| =>
              Item([], BaredName(items[i].name), Bared(items[i].value), [])), false, [])
  }

  function BaredName(n: Name): Name {
    match n
    case Unnamed => n
    case Named(word, _, _) => Named(word, [], [])
    case Keyed(_, key, _, _, _) => Keyed([], key, [], [], [])
  }

  lemma BaredKey(n: Name, lualen: nat)
    requires IsName(n)
    ensures IsName(BaredName(n)) && KeyOf(BaredName(n), lualen) == KeyOf(n, lualen)
  {
  }

  lemma {:induction false} BaredMeans(t: Text)
    requires IsText(t)
    ensures IsText(Bared(t)) && Meaning(Bared(t)) == Meaning(t)
    decreases t, 1, 0
  {
    if t.Table? {
      forall i | 0 <= i < |t.items| ensures IsText(Bared(t.items[i].value)) && IsName(BaredName(t.items[i].name)) {
        BaredMeans(t.items[i].value);
        BaredKey(t.items[i].name, 0);
      }
      BaredEntries(t, |t.items|);
    }
  }

  lemma BaredItem(t: Text, i: nat)
    requires t.Table? && i < |t.items|
    ensures Bared(t).Table? && |Bared(t).items| == |t.items|
    ensures Bared(t).items[i] == Item([], BaredName(t.items[i].name), Bared(t.items[i].value), [])
  {
  }

  lemma {:induction false} BaredEntries(t: Text, i: nat)
    requires IsText(t) && t.Table? && IsText(Bared(t)) && i <= |t.items|
    ensures Bared(t).Table? && |Bared(t).items| == |t.items|
    ensures EntriesTo(Bared(t), i) == EntriesTo(t, i)
    decreases t, 0, i
  {
    hide Bared, NodeOf, KeyOf, Meaning, BaredName, IsGap;
    BaredShape(t);
    if i > 0 {
      BaredItem(t, i - 1);
      BaredEntries(t, i - 1);
      BaredMeans(t.items[i - 1].value);
      BaredKey(t.items[i - 1].name, NodeOf(EntriesTo(t, i - 1)).lualen);
    }
  }

  lemma BaredShape(t: Text)
    requires t.Table?
    ensures Bared(t).Table? && |Bared(t).items| == |t.items|
  {
  }

  // Two texts with the same tokens, up to the last comma of a table, denote the same
  // value, whatever blanks and comments stand between the tokens, before the first and
  // behind the last.
  lemma GapsChangeNothing(c: Chunk, d: Chunk)
    requires IsChunk(c) && IsChunk(d) && Bared(c.value) == Bared(d.value)
    ensures M.Parse(ChunkText(c)) == M.Parse(ChunkText(d)) == Ok(Meaning(c.value))
  {
    hide Meaning, Bared, M.Run, GapText, Spell, IsGap, IsText;
    OneAccepted(c);
    OneAccepted(d);
    BaredMeans(c.value);
    BaredMeans(d.value);
  }

  lemma OneAccepted(c: Chunk)
    requires IsChunk(c)
    ensures M.Parse(ChunkText(c)) == Ok(Meaning(c.value))
  {
    hide Meaning, M.Run, ChunkText, M.Parse, IsChunk, IsGap, OpenText;
    assert IsGap([]) by { NoGapIs(); }
    Accepted([c], false, [], Closed);
    assert EndText(false, [], Closed) == [] by { NothingBehind(); }
    assert Joined([c]) == ChunkText(c) && ChunkText(c) + [] == ChunkText(c);
  }

  lemma NoGapIs()
    ensures IsGap([])
  {
  }

  lemma NothingBehind()
    ensures EndText(false, [], Closed) == []
  {
  }

  // A gap put between two tokens of a text changes nothing.
  lemma GapInserted(c: Chunk, d: Chunk, u: bytes, g: Gap, v: bytes)
    requires IsChunk(c) && IsChunk(d) && Bared(c.value) == Bared(d.value)
    requires ChunkText(c) == u + v && ChunkText(d) == u + GapText(g) + v
    ensures M.Parse(u + GapText(g) + v) == M.Parse(u + v)
  {
    hide *;
    GapsChangeNothing(c, d);
  }
}
