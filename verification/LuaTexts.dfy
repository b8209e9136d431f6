// Lua values as a person may write them: with blanks and comments between any two
// tokens, keys in any form, and a comma behind the last entry or not. Every such text
// is parsed to what it means.
module LuaTexts {
  import opened Wrappers
  import opened Bytes
  import opened LuaValues
  import opened LuaNodes
  import opened LuaReadBack
  import opened LuaRuns
  import M = LuaMachine

  // ---- texts ----

  // How an entry names its key: not at all, as a bare word, or in brackets; with the
  // gaps between the tokens up to the value.
  datatype Name =
    | Unnamed
    | Named(word: bytes, front: Gap, back: Gap)
    | Keyed(open: Gap, key: Literal, close: Gap, front: Gap, back: Gap)

  datatype Item = Item(before: Gap, name: Name, value: Text, after: Gap)

  // The tail is behind the last comma.
  datatype Text = Scalar(l: Literal) | Table(items: seq<Item>, trailing: bool, tail: Gap)

  predicate IsName(n: Name) {
    match n
    case Unnamed => true
    case Named(word, front, back) => IsWord(word) && IsGap(front) && IsGap(back)
    case Keyed(open, key, close, front, back) =>
      IsLiteral(key) && !key.Truth? && IsGap(open) && IsGap(close) && IsGap(front) && IsGap(back)
  }

  predicate IsText(t: Text) {
    match t
    case Scalar(l) => IsLiteral(l)
    case Table(items, trailing, tail) =>
      && IsGap(tail) && (trailing ==> items != []) && (items != [] && !trailing ==> tail == [])
      && forall i :: 0 <= i < |items| ==>
           IsGap(items[i].before) && IsName(items[i].name) && IsText(items[i].value) && IsGap(items[i].after)
  }

  function NameText(n: Name): bytes {
    match n
    case Unnamed => []
    case Named(word, front, back) => word + GapText(front) + [0x3D] + GapText(back)
    case Keyed(open, key, close, front, back) =>
      [0x5B] + GapText(open) + LiteralText(key) + GapText(close) + [0x5D] + GapText(front) + [0x3D] + GapText(back)
  }

  function CommaText(t: Text, i: nat): bytes
    requires t.Table?
  {
    if i + 1 < |t.items| || t.trailing then [0x2C] else []
  }

  function Spell(t: Text): bytes
    decreases t, 1, 0
  {
    match t
    case Scalar(l) => LiteralText(l)
    case Table(items, _, tail) => [0x7B] + SpellFrom(t, 0) + GapText(tail) + [0x7D]
  }

  // The entries from i on.
  function SpellFrom(t: Text, i: nat): bytes
    requires t.Table? && i <= |t.items|
    decreases t, 0, |t.items| - i
  {
    if i == |t.items| then []
    else
      var e := t.items[i];
      GapText(e.before) + NameText(e.name) + Spell(e.value) + GapText(e.after) + CommaText(t, i) + SpellFrom(t, i + 1)
  }

  // ---- what they mean ----

  // An entry without a key gets the number behind the run of numbers there are.
  function KeyOf(n: Name, lualen: nat): Key
    requires IsName(n)
  {
    match n
    case Unnamed => IntKey(lualen + 1)
    case Named(word, _, _) => StrKey(word)
    case Keyed(_, key, _, _, _) => LiteralKey(key)
  }

  function Meaning(t: Text): Value
    requires IsText(t)
    decreases t, 1, 0
  {
    match t
    case Scalar(l) => LiteralValue(l)
    case Table(items, _, _) => NodeTable(NodeOf(EntriesTo(t, |items|)))
  }

  function EntriesTo(t: Text, i: nat): seq<Entry>
    requires IsText(t) && t.Table? && i <= |t.items|
    decreases t, 0, i
  {
    if i == 0 then []
    else
      var es := EntriesTo(t, i - 1);
      var e := t.items[i - 1];
      es + [Entry(KeyOf(e.name, NodeOf(es).lualen), Meaning(e.value))]
  }

  function NodeTo(t: Text, i: nat): Node
    requires IsText(t) && t.Table? && i <= |t.items|
  {
    NodeOf(EntriesTo(t, i))
  }

  lemma NodeToNext(t: Text, i: nat)
    requires IsText(t) && t.Table? && i < |t.items|
    ensures NodeTo(t, i + 1)
         == Append(NodeTo(t, i), KeyOf(t.items[i].name, NodeTo(t, i).lualen), Meaning(t.items[i].value))
    ensures !NodeTo(t, i).isRoot && NodeTo(t, 0) == CHILD
  {
    hide Append, NodeOf, Meaning;
    var es := EntriesTo(t, i);
    NodeOfSnoc(es, Entry(KeyOf(t.items[i].name, NodeOf(es).lualen), Meaning(t.items[i].value)));
    NodeOfEntries(es);
    assert NodeOf([]) == CHILD by {
      NodeOfNone();
    }
  }

  lemma NodeOfNone()
    ensures NodeOf([]) == CHILD
  {
  }

  // ---- keys ----

  lemma FirstOfGap(b: bytes, p: nat, g: Gap)
    requires IsGap(g) && At(b, p, GapText(g)) && g != []
    ensures p < |b| && (IsSpace(b[p]) || b[p] == MINUS)
  {
    var t := PieceText(g[0]);
    AtConcat(b, p, t, GapText(g[1..]));
    AtIndex(b, p, t, 0);
  }

  // Behind a word or a number, a gap or a byte that is neither does not belong to it.
  lemma BehindToken(b: bytes, p: nat, g: Gap)
    requires IsGap(g) && At(b, p, GapText(g))
    requires g == [] && p < |b| ==> !IsKeyByte(b[p]) && b[p] != DOT
    ensures EndsNumber(b, p) && (p < |b| ==> !IsKeyByte(b[p]))
  {
    if g != [] {
      FirstOfGap(b, p, g);
    }
  }

  // What is behind a text does not belong to it.
  predicate EndsText(t: Text, b: bytes, p: nat) {
    t.Scalar? ==> EndsLiteral(t.l, b, p)
  }

  lemma EndsAny(t: Text, b: bytes, p: nat)
    requires EndsNumber(b, p)
    ensures EndsText(t, b, p)
  {
  }

  lemma NamedLayout(b: bytes, p: nat, n: Name)
    requires n.Named? && IsName(n) && At(b, p, NameText(n))
    ensures var w, f, k := n.word, GapText(n.front), GapText(n.back); var q := p + |w|; var r := q + |f|;
      && At(b, p, w) && At(b, q, f) && r < |b| && b[r] == EQUALS && At(b, r + 1, k)
      && r + 1 + |k| == p + |NameText(n)| && q < |b| && !IsKeyByte(b[q])
  {
    hide GapText, IsGap, IsWord, At;
    var w, f, k := n.word, GapText(n.front), GapText(n.back);
    AtConcat(b, p, w + f + [0x3D], k);
    AtConcat(b, p, w + f, [0x3D]);
    AtConcat(b, p, w, f);
    AtIndex(b, p + |w| + |f|, [0x3D], 0);
    NoGap();
    BehindToken(b, p + |w|, n.front);
  }

  lemma RunNamed(b: bytes, p: nat, n: Name, node: Node, stack: seq<M.Frame>)
    requires n.Named? && IsName(n) && !node.isRoot && At(b, p, NameText(n))
    ensures M.Run(b, St(p, M.SeekChild, node, stack))
         == M.Run(b, St(p + |NameText(n)|, M.SeekValue(StrKey(n.word)), node, stack))
  {
    hide M.Run, M.Step, GapText, IsGap, IsWord, At, NameText, IsKeyByte;
    var w, f := n.word, GapText(n.front);
    NamedLayout(b, p, n);
    RunWord(b, p, w, node, stack);
    RunGap(b, p + |w|, n.front, M.KeySimpleEnd(w), node, stack);
    AssignWord(b, p + |w| + |f|, w, node, stack);
    RunGap(b, p + |w| + |f| + 1, n.back, M.SeekValue(StrKey(w)), node, stack);
  }

  lemma NoGap()
    ensures GapText([]) == []
  {
  }

  // Where the pieces of a bracketed key are.
  lemma KeyedLayout(b: bytes, p: nat, n: Name)
    requires n.Keyed? && At(b, p, NameText(n))
    ensures var o, l, c, f, k := GapText(n.open), LiteralText(n.key), GapText(n.close), GapText(n.front), GapText(n.back);
      var p1 := p + 1 + |o|; var p2 := p1 + |l|; var p3 := p2 + |c|; var p4 := p3 + 1 + |f|;
      && p < |b| && b[p] == LBRACKET && At(b, p + 1, o) && At(b, p1, l) && At(b, p2, c)
      && p3 < |b| && b[p3] == RBRACKET && At(b, p3 + 1, f) && p4 < |b| && b[p4] == EQUALS && At(b, p4 + 1, k)
      && p4 + 1 + |k| == p + |NameText(n)|
  {
    hide GapText, LiteralText, At;
    var o, l, c, f, k := GapText(n.open), LiteralText(n.key), GapText(n.close), GapText(n.front), GapText(n.back);
    AtConcat(b, p, [0x5B] + o + l + c + [0x5D] + f + [0x3D], k);
    AtConcat(b, p, [0x5B] + o + l + c + [0x5D] + f, [0x3D]);
    AtConcat(b, p, [0x5B] + o + l + c + [0x5D], f);
    AtConcat(b, p, [0x5B] + o + l + c, [0x5D]);
    AtConcat(b, p, [0x5B] + o + l, c);
    AtConcat(b, p, [0x5B] + o, l);
    AtConcat(b, p, [0x5B], o);
    AtIndex(b, p, [0x5B], 0);
    AtIndex(b, p + 1 + |o| + |l| + |c|, [0x5D], 0);
    AtIndex(b, p + 1 + |o| + |l| + |c| + 1 + |f|, [0x3D], 0);
  }

  lemma RunKeyed(b: bytes, p: nat, n: Name, node: Node, stack: seq<M.Frame>)
    requires n.Keyed? && IsName(n) && !node.isRoot && At(b, p, NameText(n))
    ensures M.Run(b, St(p, M.SeekChild, node, stack))
         == M.Run(b, St(p + |NameText(n)|, M.SeekValue(LiteralKey(n.key)), node, stack))
  {
    hide M.Run, GapText, LiteralText, IsGap, LiteralKey, At, IsLiteral, EndsNumber, EndsLiteral, NameText;
    var o, l, c, f, k := GapText(n.open), LiteralText(n.key), GapText(n.close), GapText(n.front), GapText(n.back);
    var p1 := p + 1 + |o|; var p2 := p1 + |l|; var p3 := p2 + |c|; var p4 := p3 + 1 + |f|;
    KeyedLayout(b, p, n);
    NoGap();
    BehindToken(b, p2, n.close);
    assert EndsLiteral(n.key, b, p2) by { EndsAny(Scalar(n.key), b, p2); }
    OpenBracket(b, p, node, stack);
    RunGap(b, p + 1, n.open, M.KeyExpressionOpen, node, stack);
    RunLiteral(b, p1, n.key, M.ForKey, node, stack);
    RunGap(b, p2, n.close, M.KeyExpressionFinish(LiteralKey(n.key)), node, stack);
    CloseBracket(b, p3, LiteralKey(n.key), node, stack);
    RunGap(b, p3 + 1, n.front, M.KeyExpressionClose(LiteralKey(n.key)), node, stack);
    AssignKey(b, p4, LiteralKey(n.key), node, stack);
    RunGap(b, p4 + 1, n.back, M.SeekValue(LiteralKey(n.key)), node, stack);
  }

  // ---- values ----

  // The first byte of a text other than a bool can only start a value.
  lemma FirstByte(b: bytes, p: nat, t: Text)
    requires IsText(t) && At(b, p, Spell(t))
    requires EndsText(t, b, p + |Spell(t)|)
    ensures p < |b| && !M.OpensComment(b, p)
    ensures !IsSpace(b[p]) && b[p] != LBRACKET && b[p] != RBRACE
    ensures !(t.Scalar? && t.l.Truth?) ==> !IsKeyStart(b[p])
  {
    hide GapText, Inside;
    var s := Spell(t);
    AtIndex(b, p, s, 0);
    if |s| > 1 {
      AtIndex(b, p, s, 1);
    }
    NoComment(b, p);
  }

  // What comes behind the value of an entry.
  predicate Separated(b: bytes, p: nat) {
    p < |b| ==> b[p] == COMMA || b[p] == RBRACE
  }

  predicate IsTruth(t: Text) {
    t.Scalar? && t.l.Truth?
  }

  function ItemText(e: Item): bytes {
    GapText(e.before) + NameText(e.name) + Spell(e.value) + GapText(e.after)
  }

  predicate IsItem(e: Item) {
    IsGap(e.before) && IsName(e.name) && IsText(e.value) && IsGap(e.after)
  }

  // A bool without a key.
  predicate IsWordItem(e: Item) {
    e.name.Unnamed? && IsTruth(e.value)
  }

  // What is behind an entry belongs neither to its value nor to its word.
  predicate EndsItem(e: Item, b: bytes, p: nat) {
    EndsText(e.value, b, p) && (IsWordItem(e) && p < |b| ==> !IsKeyByte(b[p]))
  }

  lemma ItemPieces(b: bytes, p: nat, e: Item)
    requires IsItem(e) && At(b, p, ItemText(e))
    requires e.after == [] ==> EndsItem(e, b, p + |ItemText(e)|)
    ensures var q := p + |GapText(e.before)|; var r := q + |NameText(e.name)|; var s := r + |Spell(e.value)|;
      && At(b, p, GapText(e.before)) && At(b, q, NameText(e.name)) && At(b, r, Spell(e.value)) && At(b, s, GapText(e.after))
      && s + |GapText(e.after)| == p + |ItemText(e)| && EndsItem(e, b, s)
  {
    hide NameText, GapText, IsGap, Spell, EndsNumber, IsName, IsText, EndsItem;
    var g, n, s, a := GapText(e.before), NameText(e.name), Spell(e.value), GapText(e.after);
    AtConcat(b, p, g + n + s, a);
    AtConcat(b, p, g + n, s);
    AtConcat(b, p, g, n);
    NoGap();
    if e.after != [] {
      var q := p + |g| + |n| + |s|;
      BehindToken(b, q, e.after);
      EndsAnyItem(e, b, q);
    }
  }

  lemma EndsAnyItem(e: Item, b: bytes, p: nat)
    requires EndsNumber(b, p) && (p < |b| ==> !IsKeyByte(b[p]))
    ensures EndsItem(e, b, p)
  {
    EndsAny(e.value, b, p);
  }

  lemma EndsItemMeans(e: Item, b: bytes)
    ensures forall p: nat :: EndsItem(e, b, p) <==> EndsText(e.value, b, p) && (IsWordItem(e) && p < |b| ==> !IsKeyByte(b[p]))
  {
  }

  lemma SeparatedEnds(e: Item, b: bytes, p: nat)
    requires p < |b| && Separated(b, p)
    ensures EndsItem(e, b, p)
  {
  }

  // From the start of an entry to behind its value and the gap there: the value is
  // stored under its key.
  lemma RunEntry(b: bytes, p: nat, e: Item, node: Node, stack: seq<M.Frame>)
    requires IsItem(e) && !IsWordItem(e) && !node.isRoot && At(b, p, ItemText(e))
    requires e.after == [] ==> EndsText(e.value, b, p + |ItemText(e)|)
    ensures M.Run(b, St(p, M.SeekChild, node, stack))
         == M.Run(b, St(p + |ItemText(e)|, M.ValueEnd, Append(node, KeyOf(e.name, node.lualen), Meaning(e.value)), stack))
    decreases e.value, 4, 0
  {
    hide M.Run, NameText, GapText, IsGap, KeyOf, Meaning, Spell, Append, EndsText, ItemText, IsText, IsName;
    var q := p + |GapText(e.before)|; var r := q + |NameText(e.name)|; var s := r + |Spell(e.value)|;
    var k := KeyOf(e.name, node.lualen);
    ItemPieces(b, p, e);
    UnnamedNothing();
    RunGap(b, p, e.before, M.SeekChild, node, stack);
    RunName(b, q, e.name, e.value, node, stack);
    RunText(b, r, k, node, stack, e.value);
    RunGap(b, s, e.after, M.ValueEnd, Append(node, k, Meaning(e.value)), stack);
  }

  // The same for any entry before a comma or the closing brace.
  lemma RunItem(b: bytes, p: nat, t: Text, i: nat, stack: seq<M.Frame>)
    requires IsText(t) && t.Table? && i < |t.items| && At(b, p, ItemText(t.items[i]))
    requires p + |ItemText(t.items[i])| < |b| && Separated(b, p + |ItemText(t.items[i])|)
    ensures M.Run(b, St(p, M.SeekChild, NodeTo(t, i), stack))
         == M.Run(b, St(p + |ItemText(t.items[i])|, M.ValueEnd, NodeTo(t, i + 1), stack))
    decreases t, 0, 0
  {
    hide M.Run, NodeTo, NameText, GapText, IsGap, Spell, Append, EndsText, ItemText, KeyOf, Meaning, EndsItem;
    var e, node := t.items[i], NodeTo(t, i);
    SeparatedEnds(e, b, p + |ItemText(e)|);
    EndsItemMeans(e, b);
    NodeToNext(t, i);
    if IsWordItem(e) {
      var q := p + |GapText(e.before)|;
      UnnamedNothing();
      ItemPieces(b, p, e);
      RunGap(b, p, e.before, M.SeekChild, node, stack);
      RunUnnamedTruth(b, q, e, node, stack);
    } else {
      RunEntry(b, p, e, node, stack);
    }
  }

  lemma UnnamedNothing()
    ensures NameText(Unnamed) == [] && forall n: nat :: KeyOf(Unnamed, n) == IntKey(n + 1)
  {
  }

  // From the start of an entry to where its value is sought.
  lemma RunName(b: bytes, p: nat, n: Name, value: Text, node: Node, stack: seq<M.Frame>)
    requires IsName(n) && !node.isRoot && At(b, p, NameText(n))
    requires n.Unnamed? ==> !IsTruth(value) && IsText(value) && At(b, p, Spell(value)) && EndsText(value, b, p + |Spell(value)|)
    ensures M.Run(b, St(p, M.SeekChild, node, stack))
         == M.Run(b, St(p + |NameText(n)|, M.SeekValue(KeyOf(n, node.lualen)), node, stack))
  {
    hide M.Run, NameText, Spell, IsText, EndsText;
    match n {
      case Unnamed =>
        UnnamedNothing();
        FirstByte(b, p, value);
        OpenUnnamed(b, p, node, stack);
      case Named(_, _, _) => RunNamed(b, p, n, node, stack);
      case Keyed(_, _, _, _, _) => RunKeyed(b, p, n, node, stack);
    }
  }

  lemma RunUnnamedTruth(b: bytes, p: nat, e: Item, node: Node, stack: seq<M.Frame>)
    requires e.value.Scalar? && e.value.l.Truth? && IsGap(e.after) && !node.isRoot
    requires At(b, p, Spell(e.value)) && At(b, p + |Spell(e.value)|, GapText(e.after))
    requires var q := p + |Spell(e.value)|; var r := q + |GapText(e.after)|;
      && r < |b| && (b[r] == COMMA || b[r] == RBRACE)
      && (q < |b| ==> !IsKeyByte(b[q]))
    ensures M.Run(b, St(p, M.SeekChild, node, stack))
         == M.Run(b, St(p + |Spell(e.value)| + |GapText(e.after)|, M.ValueEnd,
                        Append(node, IntKey(node.lualen + 1), Meaning(e.value)), stack))
  {
    hide *;
    var word := Spell(e.value);
    var q := p + |word|;
    TruthWord(e.value.l.b);
    RunWord(b, p, word, node, stack);
    RunGap(b, q, e.after, M.KeySimpleEnd(word), node, stack);
    EndTruthWord(b, q + |GapText(e.after)|, e.value.l.b, node, stack);
  }

  lemma TruthWord(v: bool)
    ensures var t := Scalar(Truth(v));
      IsWord(Spell(t)) && Spell(t) == LiteralText(Truth(v)) && IsText(t) && Meaning(t) == Bool(v)
      && TakesGaps(M.KeySimpleEnd(Spell(t)))
  {
  }

  // Where entry i, its comma and the entries behind it are.
  lemma ItemLayout(b: bytes, p: nat, t: Text, i: nat)
    requires t.Table? && i < |t.items| && At(b, p, SpellFrom(t, i))
    ensures var q := p + |ItemText(t.items[i])|; var r := q + |CommaText(t, i)|;
      && At(b, p, ItemText(t.items[i])) && At(b, q, CommaText(t, i)) && At(b, r, SpellFrom(t, i + 1))
      && r + |SpellFrom(t, i + 1)| == p + |SpellFrom(t, i)|
  {
    hide GapText, NameText, Spell, CommaText;
    var text := ItemText(t.items[i]);
    AtConcat(b, p, text + CommaText(t, i), SpellFrom(t, i + 1));
    AtConcat(b, p, text, CommaText(t, i));
  }

  // Behind a value, over its comma, or on to the closing brace.
  lemma RunComma(b: bytes, q: nat, t: Text, i: nat, node: Node, stack: seq<M.Frame>)
    requires t.Table? && i < |t.items| && At(b, q, CommaText(t, i))
    requires CommaText(t, i) == [] ==> q < |b| && b[q] == RBRACE
    ensures M.Run(b, St(q, M.ValueEnd, node, stack)) == M.Run(b, St(q + |CommaText(t, i)|, M.SeekChild, node, stack))
    ensures q < |b| && Separated(b, q)
  {
    hide M.Run;
    if CommaText(t, i) == [] {
      EndByBrace(b, q, node, stack);
    } else {
      AtIndex(b, q, [0x2C], 0);
      EndByComma(b, q, node, stack);
    }
  }

  lemma LastComma(t: Text, i: nat)
    requires t.Table? && i < |t.items| && CommaText(t, i) == []
    ensures i + 1 == |t.items| && !t.trailing && SpellFrom(t, i + 1) == []
  {
  }

  // From entry i to behind the last one: all are stored.
  lemma RunItems(b: bytes, p: nat, t: Text, i: nat, stack: seq<M.Frame>)
    requires IsText(t) && t.Table? && i <= |t.items| && At(b, p, SpellFrom(t, i))
    requires var q := p + |SpellFrom(t, i)|; !t.trailing && t.items != [] ==> q < |b| && b[q] == RBRACE
    ensures M.Run(b, St(p, M.SeekChild, NodeTo(t, i), stack))
         == M.Run(b, St(p + |SpellFrom(t, i)|, M.SeekChild, NodeTo(t, |t.items|), stack))
    decreases t, 1, |t.items| - i
  {
    hide *;
    if i < |t.items| {
      var q := p + |ItemText(t.items[i])|;
      ItemLayout(b, p, t, i);
      if CommaText(t, i) == [] {
        LastComma(t, i);
      }
      RunComma(b, q, t, i, NodeTo(t, i + 1), stack);
      RunItem(b, p, t, i, stack);
      RunItems(b, q + |CommaText(t, i)|, t, i + 1, stack);
    } else {
      SpellNone(t);
    }
  }

  lemma SpellNone(t: Text)
    requires t.Table?
    ensures SpellFrom(t, |t.items|) == []
  {
  }

  lemma TableLayout(b: bytes, p: nat, t: Text)
    requires IsText(t) && t.Table? && At(b, p, Spell(t))
    ensures var q := p + 1 + |SpellFrom(t, 0)|; var r := q + |GapText(t.tail)|;
      && p < |b| && b[p] == LBRACE && At(b, p + 1, SpellFrom(t, 0)) && At(b, q, GapText(t.tail))
      && r < |b| && b[r] == RBRACE && r + 1 == p + |Spell(t)| && IsGap(t.tail)
      && (!t.trailing && t.items != [] ==> q == r)
  {
    hide GapText, SpellFrom, IsGap;
    var s, g := SpellFrom(t, 0), GapText(t.tail);
    NoGap();
    AtConcat(b, p, [0x7B] + s + g, [0x7D]);
    AtConcat(b, p, [0x7B] + s, g);
    AtConcat(b, p, [0x7B], s);
    AtIndex(b, p, [0x7B], 0);
    AtIndex(b, p + 1 + |s| + |g|, [0x7D], 0);
  }

  // Wherever it stands, a table is read, at any depth, as one entry with what it means.
  lemma RunTable(b: bytes, p: nat, k: Key, node: Node, stack: seq<M.Frame>, t: Text)
    requires IsText(t) && t.Table? && At(b, p, Spell(t))
    ensures M.Run(b, St(p, M.SeekValue(k), node, stack))
         == M.Run(b, St(p + |Spell(t)|, M.ValueEnd, Append(node, k, Meaning(t)), stack))
    decreases t, 2, 0
  {
    hide M.Run, Append, GapText, SpellFrom, Spell, IsText, NodeTable, NodeOf, IsGap;
    var inner := stack + [M.Frame(node, k)];
    var q := p + 1 + |SpellFrom(t, 0)|;
    TableLayout(b, p, t);
    OpenTable(b, p, k, node, stack);
    assert NodeTo(t, 0) == CHILD by { NodeOfNone(); }
    RunItems(b, p + 1, t, 0, inner);
    RunGap(b, q, t.tail, M.SeekChild, NodeTo(t, |t.items|), inner);
    CloseTable(b, q + |GapText(t.tail)|, k, NodeTo(t, |t.items|), node, stack);
  }

  // Wherever it stands, a text is read as one entry with what it means, if it is a
  // number only before something that does not belong to it.
  lemma RunText(b: bytes, p: nat, k: Key, node: Node, stack: seq<M.Frame>, t: Text)
    requires IsText(t) && At(b, p, Spell(t)) && EndsText(t, b, p + |Spell(t)|)
    ensures M.Run(b, St(p, M.SeekValue(k), node, stack))
         == M.Run(b, St(p + |Spell(t)|, M.ValueEnd, Append(node, k, Meaning(t)), stack))
    decreases t, 3, 0
  {
    hide M.Run, Append, LiteralText, EndsLiteral;
    match t {
      case Scalar(l) => RunLiteral(b, p, l, M.ForValue(k), node, stack);
      case Table(_, _, _) => RunTable(b, p, k, node, stack, t);
    }
  }

  // ---- what a table is, without numbers with a point for keys ----

  // An entry without a key gets the first number from 1 that is no key yet, and the
  // table is a list exactly when its keys are 1..n.
  lemma TableMeans(t: Text, i: nat)
    requires IsText(t) && t.Table? && i <= |t.items|
    requires NoFloatKeys(EntriesTo(t, i))
    ensures IsRun(EntriesTo(t, i), NodeTo(t, i).lualen)
    ensures i == |t.items| ==> Meaning(t) == TableOf(EntriesTo(t, i))
  {
    hide NodeOf, Sort, LuaLen, NodeTable, TableOf, EntriesTo;
    var es := EntriesTo(t, i);
    NodeOfTable(es);
    NodeOfEntries(es);
    SortNoFloats(es);
    LuaLenIsRun(Sort(es));
    forall n ensures HasKey(Sort(es), n) <==> HasKey(es, n) {
      SortKeepsKeys(es, n);
    }
  }
}
