// Inputs the parser refuses: tables and strings that are not closed, bytes that cannot
// follow a value, words that are no keys, and nothing at all.
module LuaRefusals {
  import opened Wrappers
  import opened Bytes
  import opened LuaValues
  import opened LuaText
  import opened LuaNodes
  import opened LuaReadBack
  import opened LuaRuns
  import opened LuaTexts
  import opened LuaInputs
  import M = LuaMachine

  // ---- values and tables with a fault ----

  // A value that is none, up to the end of the input.
  datatype Bad =
    // a string that is not closed
    | CutString(quote: byte, s: bytes)
    // bytes that start no value
    | Junk(j: bytes)
    // a sign, a point or both without a digit
    | NoDigits(negative: bool, point: bool, rest: bytes)
    // a table up to its fault, and the fault with the rest of the input
    | BadTable(items: seq<Item>, fault: Fault)

  datatype Fault =
    // the input ends where an entry could start, behind the last value, or where the
    // value of a key is sought
    | Ends(gap: Gap, end: Open)
    | EndsBehind(item: Item, end: Open)
    | EndsBefore(before: Gap, name: Name, end: Open)
    // a byte behind a value that cannot follow it
    | Stray(item: Item, x: byte, rest: bytes)
    // a word other than true and false with nothing assigned to it
    | Word(before: Gap, word: bytes, after: Gap, x: byte, rest: bytes)
    // the input ends behind a word
    | WordEnds(before: Gap, word: bytes, after: Gap, end: Open)
    // a bool or a table in brackets
    | NoKey(before: Gap, open: Gap, t: bytes, rest: bytes)
    // no bracket behind a key, or no assignment behind the bracket
    | KeyStray(before: Gap, open: Gap, key: Literal, close: Gap, x: byte, rest: bytes)
    | AssignStray(before: Gap, open: Gap, key: Literal, close: Gap, front: Gap, x: byte, rest: bytes)
    // the fault is in the value of an entry
    | Within(before: Gap, name: Name, bad: Bad)

  predicate IsBlankByte(x: byte) {
    x == 0x20 || x == 0x0D || x == 0x0A || x == 0x09
  }

  // Neither blank nor comma, nor the start of a comment.
  predicate CannotFollow(x: byte) {
    !IsBlankByte(x) && x != 0x2C && x != 0x2D
  }

  // Not the first byte of any value or comment.
  predicate StartsNothing(x: byte) {
    !(0x30 <= x <= 0x39) && x != 0x22 && x != 0x27 && x != 0x2D && x != 0x2E && x != 0x7B && x != 0x74 && x != 0x66
  }

  predicate AreItems(items: seq<Item>) {
    forall i :: 0 <= i < |items| ==> IsItem(items[i])
  }

  predicate IsBad(v: Bad) {
    match v
    case CutString(quote, s) => CanQuote(quote, s)
    case Junk(j) =>
      && j != [] && !IsBlankByte(j[0]) && j[0] != 0x7D && j[0] != 0x5B && !IsKeyStart(j[0])
      && forall i :: 0 <= i < |j| ==> StartsNothing(j[i])
    case NoDigits(negative, point, rest) =>
      && (negative || point)
      && (rest != [] ==> !(0x30 <= rest[0] <= 0x39) && (!point ==> rest[0] != 0x2E && rest[0] != 0x2D))
    case BadTable(items, fault) => AreItems(items) && IsFault(fault)
  }

  predicate IsFault(f: Fault) {
    match f
    case Ends(gap, end) => IsGap(gap) && IsOpen(end)
    case EndsBehind(item, end) => IsItem(item) && !IsWordItem(item) && IsOpen(end)
    case EndsBefore(before, name, end) => IsGap(before) && IsName(name) && !name.Unnamed? && IsOpen(end)
    case Stray(item, x, rest) =>
      && IsItem(item) && !IsWordItem(item) && CannotFollow(x) && x != 0x7D
      && (item.after == [] && item.value.Scalar? ==> !Continues(item.value.l, x))
    case Word(before, word, after, x, rest) =>
      && IsGap(before) && IsWord(word) && IsGap(after) && (x == 0x2C || x == 0x7D)
      && word != [0x74, 0x72, 0x75, 0x65] && word != [0x66, 0x61, 0x6C, 0x73, 0x65]
    case WordEnds(before, word, after, end) => IsGap(before) && IsWord(word) && IsGap(after) && IsOpen(end)
    case NoKey(before, open, t, rest) =>
      && IsGap(before) && IsGap(open)
      && (t == [0x74, 0x72, 0x75, 0x65] || t == [0x66, 0x61, 0x6C, 0x73, 0x65] || t == [0x7B])
    case KeyStray(before, open, key, close, x, rest) =>
      && IsGap(before) && IsGap(open) && IsLiteral(key) && !key.Truth? && IsGap(close)
      && !IsBlankByte(x) && x != 0x5D && x != 0x2D && (close == [] ==> !Continues(key, x))
    case AssignStray(before, open, key, close, front, x, rest) =>
      && IsGap(before) && IsGap(open) && IsLiteral(key) && !key.Truth? && IsGap(close) && IsGap(front)
      && !IsBlankByte(x) && x != 0x3D && x != 0x2D
    case Within(before, name, bad) => IsGap(before) && IsName(name) && IsBad(bad)
  }

  // The entries in front of the fault, each with its comma.
  function Front(items: seq<Item>): Text {
    Table(items, items != [], [])
  }

  function Point(point: bool): bytes {
    if point then [0x2E] else []
  }

  function BadText(v: Bad): bytes
    decreases v
  {
    match v
    case CutString(quote, s) => [quote] + Inside(s)
    case Junk(j) => j
    case NoDigits(negative, point, rest) => Sign(negative) + Point(point) + rest
    case BadTable(items, fault) => [0x7B] + SpellFrom(Front(items), 0) + FaultText(fault)
  }

  function FaultText(f: Fault): bytes
    decreases f
  {
    match f
    case Ends(gap, end) => GapText(gap) + OpenText(end)
    case EndsBehind(item, end) => ItemText(item) + OpenText(end)
    case EndsBefore(before, name, end) => GapText(before) + NameText(name) + OpenText(end)
    case Stray(item, x, rest) => ItemText(item) + [x] + rest
    case Word(before, word, after, x, rest) => GapText(before) + word + GapText(after) + [x] + rest
    case WordEnds(before, word, after, end) => GapText(before) + word + GapText(after) + OpenText(end)
    case NoKey(before, open, t, rest) => GapText(before) + ([0x5B] + (GapText(open) + (t + rest)))
    case KeyStray(before, open, key, close, x, rest) =>
      GapText(before) + ([0x5B] + (GapText(open) + (LiteralText(key) + (GapText(close) + ([x] + rest)))))
    case AssignStray(before, open, key, close, front, x, rest) =>
      GapText(before) + ([0x5B] + (GapText(open) + (LiteralText(key) + (GapText(close) + ([0x5D] + (GapText(front) + ([x] + rest)))))))
    case Within(before, name, bad) => GapText(before) + NameText(name) + BadText(bad)
  }

  // ---- faults ----

  lemma FailsAt(b: bytes, s: M.State)
    requires s.pos <= |b| && M.Step(b, s).Fail?
    ensures M.Run(b, s) == Err
  {
  }

  lemma EndsRefused(b: bytes, p: nat, f: Fault, node: Node, stack: seq<M.Frame>)
    requires f.Ends? && IsFault(f) && stack != []
    requires At(b, p, FaultText(f)) && p + |FaultText(f)| == |b|
    ensures M.Run(b, St(p, M.SeekChild, node, stack)) == Err
  {
    hide M.Run, GapText, IsGap, OpenText, IsOpen, Outcome;
    AtConcat(b, p, GapText(f.gap), OpenText(f.end));
    RunGap(b, p, f.gap, M.SeekChild, node, stack);
    RunOpen(b, p + |GapText(f.gap)|, f.end, M.SeekChild, node, stack);
    InTable(node, stack);
  }

  lemma EndsBehindRefused(b: bytes, p: nat, f: Fault, node: Node, stack: seq<M.Frame>)
    requires f.EndsBehind? && IsFault(f) && stack != [] && !node.isRoot
    requires At(b, p, FaultText(f)) && p + |FaultText(f)| == |b|
    ensures M.Run(b, St(p, M.SeekChild, node, stack)) == Err
  {
    hide M.Run, OpenText, IsOpen, Outcome, ItemText, IsGap, IsText, IsName, IsWordItem, Append, KeyOf, Meaning;
    var e := f.item;
    var q := p + |ItemText(e)|;
    var next := Append(node, KeyOf(e.name, node.lualen), Meaning(e.value));
    AtConcat(b, p, ItemText(e), OpenText(f.end));
    OpenStarts(b, q, f.end);
    RunEntry(b, p, e, node, stack);
    RunOpen(b, q, f.end, M.ValueEnd, next, stack);
    InTable(next, stack);
  }

  lemma OpenStarts(b: bytes, q: nat, o: Open)
    requires At(b, q, OpenText(o)) && q + |OpenText(o)| == |b|
    ensures q < |b| ==> b[q] == MINUS
  {
    if OpenText(o) != [] {
      AtIndex(b, q, OpenText(o), 0);
    }
  }

  lemma StrayRefused(b: bytes, p: nat, f: Fault, node: Node, stack: seq<M.Frame>)
    requires f.Stray? && IsFault(f) && !node.isRoot && At(b, p, FaultText(f))
    ensures M.Run(b, St(p, M.SeekChild, node, stack)) == Err
  {
    hide M.Run, ItemText, IsGap, IsText, IsName, IsWordItem, Append, KeyOf, Meaning;
    var e := f.item;
    var q := p + |ItemText(e)|;
    AtConcat(b, p, ItemText(e) + [f.x], f.rest);
    AtConcat(b, p, ItemText(e), [f.x]);
    AtIndex(b, q, [f.x], 0);
    RunEntry(b, p, e, node, stack);
    NoComment(b, q);
    FailsAt(b, St(q, M.ValueEnd, Append(node, KeyOf(e.name, node.lualen), Meaning(e.value)), stack));
  }

  // Up to a word and the gap behind it.
  lemma RunWordGap(b: bytes, p: nat, before: Gap, word: bytes, after: Gap, node: Node, stack: seq<M.Frame>)
    requires IsGap(before) && IsWord(word) && IsGap(after) && !node.isRoot
    requires At(b, p, GapText(before) + word + GapText(after))
    requires var q := p + |GapText(before)| + |word|;
      q < |b| && (after == [] ==> !IsKeyByte(b[q]))
    ensures M.Run(b, St(p, M.SeekChild, node, stack))
         == M.Run(b, St(p + |GapText(before) + word + GapText(after)|, M.KeySimpleEnd(word), node, stack))
  {
    hide M.Run, M.Step, GapText, IsGap, IsWord, At, IsKeyByte;
    AtConcat(b, p, GapText(before) + word, GapText(after));
    AtConcat(b, p, GapText(before), word);
    var q := p + |GapText(before)|;
    assert !IsKeyByte(b[q + |word|]) by { WordEndsThere(b, q + |word|, after); }
    RunGap(b, p, before, M.SeekChild, node, stack);
    LuaRuns.RunWord(b, q, word, node, stack);
    RunGap(b, q + |word|, after, M.KeySimpleEnd(word), node, stack);
  }

  lemma WordEndsThere(b: bytes, p: nat, g: Gap)
    requires IsGap(g) && At(b, p, GapText(g)) && p < |b| && (g == [] ==> !IsKeyByte(b[p]))
    ensures !IsKeyByte(b[p])
  {
    if g != [] {
      FirstOfGap(b, p, g);
    }
  }

  lemma WordRefused(b: bytes, p: nat, f: Fault, node: Node, stack: seq<M.Frame>)
    requires f.Word? && IsFault(f) && !node.isRoot && At(b, p, FaultText(f))
    ensures M.Run(b, St(p, M.SeekChild, node, stack)) == Err
  {
    hide M.Run, GapText, IsGap, IsWord;
    var text := GapText(f.before) + f.word + GapText(f.after);
    AtConcat(b, p, text + [f.x], f.rest);
    AtConcat(b, p, text, [f.x]);
    AtIndex(b, p + |text|, [f.x], 0);
    NoGap();
    RunWordGap(b, p, f.before, f.word, f.after, node, stack);
    NoComment(b, p + |text|);
    FailsAt(b, St(p + |text|, M.KeySimpleEnd(f.word), node, stack));
  }

  lemma WordThenOpen(b: bytes, p: nat, f: Fault, node: Node, stack: seq<M.Frame>)
    requires f.WordEnds? && IsFault(f) && !node.isRoot && stack != []
    requires At(b, p, GapText(f.before) + f.word + GapText(f.after))
    requires var q := p + |GapText(f.before) + f.word + GapText(f.after)|;
      At(b, q, OpenText(f.end)) && q + |OpenText(f.end)| == |b|
    requires var q := p + |GapText(f.before)| + |f.word|; q < |b| && !IsKeyByte(b[q])
    ensures M.Run(b, St(p, M.SeekChild, node, stack)) == Err
  {
    hide M.Run, M.Step, GapText, IsGap, IsWord, OpenText, IsOpen, Outcome, At, IsKeyByte;
    var q := p + |GapText(f.before) + f.word + GapText(f.after)|;
    RunWordGap(b, p, f.before, f.word, f.after, node, stack);
    RunOpen(b, q, f.end, M.KeySimpleEnd(f.word), node, stack);
    InTable(node, stack);
  }

  lemma WordEndsRefused(b: bytes, p: nat, f: Fault, node: Node, stack: seq<M.Frame>)
    requires f.WordEnds? && IsFault(f) && !node.isRoot && stack != []
    requires At(b, p, FaultText(f)) && p + |FaultText(f)| == |b|
    ensures M.Run(b, St(p, M.SeekChild, node, stack)) == Err
  {
    hide M.Run, M.Step, GapText, IsGap, IsWord, OpenText, IsOpen, At, IsKeyByte;
    var text := GapText(f.before) + f.word + GapText(f.after);
    AtConcat(b, p, text, OpenText(f.end));
    AtConcat(b, p, GapText(f.before) + f.word, GapText(f.after));
    var q := p + |GapText(f.before)| + |f.word|;
    NoGap();
    if q < |b| {
      OpenStarts(b, p + |text|, f.end);
      DashIsNoKey(b, q);
      WordEndsThere(b, q, f.after);
      WordThenOpen(b, p, f, node, stack);
    } else {
      WordAtEnd(b, p, f.before, f.word, node, stack);
    }
  }

  lemma DashIsNoKey(b: bytes, q: nat)
    requires q < |b|
    ensures b[q] == MINUS ==> !IsKeyByte(b[q])
  {
  }

  lemma WordAtEnd(b: bytes, p: nat, before: Gap, word: bytes, node: Node, stack: seq<M.Frame>)
    requires IsGap(before) && IsWord(word) && !node.isRoot
    requires At(b, p, GapText(before) + word) && p + |GapText(before)| + |word| == |b|
    ensures M.Run(b, St(p, M.SeekChild, node, stack)) == Err
  {
    hide M.Run, M.Step, GapText, IsGap, At;
    AtConcat(b, p, GapText(before), word);
    var q := p + |GapText(before)|;
    RunGap(b, p, before, M.SeekChild, node, stack);
    AtIndex(b, q, word, 0);
    OpenWord(b, q, node, stack);
    assert word == word[..1] + word[1..];
    AtConcat(b, q, word[..1], word[1..]);
    LuaRuns.RunName(b, q + 1, word[1..], q, node, stack);
    WordFails(b, q, node, stack);
  }

  lemma WordFails(b: bytes, start: nat, node: Node, stack: seq<M.Frame>)
    ensures M.Run(b, St(|b|, M.KeySimple(start), node, stack)) == Err
  {
    hide M.Run;
    FailsAt(b, St(|b|, M.KeySimple(start), node, stack));
  }

  // ---- names and keys ----

  lemma EndsBeforeRefused(b: bytes, p: nat, f: Fault, node: Node, stack: seq<M.Frame>)
    requires f.EndsBefore? && IsFault(f) && !node.isRoot && stack != []
    requires At(b, p, FaultText(f)) && p + |FaultText(f)| == |b|
    ensures M.Run(b, St(p, M.SeekChild, node, stack)) == Err
  {
    hide M.Run, GapText, IsGap, NameText, OpenText, IsOpen, Outcome, KeyOf, IsLiteral, IsWord;
    var head := GapText(f.before) + NameText(f.name);
    AtConcat(b, p, head, OpenText(f.end));
    AtConcat(b, p, GapText(f.before), NameText(f.name));
    var q := p + |GapText(f.before)|;
    RunGap(b, p, f.before, M.SeekChild, node, stack);
    var k := if f.name.Named? then StrKey(f.name.word) else LiteralKey(f.name.key);
    if f.name.Named? {
      RunNamed(b, q, f.name, node, stack);
    } else {
      RunKeyed(b, q, f.name, node, stack);
    }
    RunOpen(b, p + |head|, f.end, M.SeekValue(k), node, stack);
    InTable(node, stack);
  }

  // Up to a key in brackets.
  lemma RunOpenKey(b: bytes, p: nat, before: Gap, open: Gap, rest: bytes, node: Node, stack: seq<M.Frame>)
    requires IsGap(before) && IsGap(open) && !node.isRoot
    requires At(b, p, GapText(before) + ([0x5B] + (GapText(open) + rest)))
    ensures var q := p + |GapText(before)| + 1 + |GapText(open)|;
      && At(b, q, rest)
      && M.Run(b, St(p, M.SeekChild, node, stack)) == M.Run(b, St(q, M.KeyExpressionOpen, node, stack))
  {
    hide M.Run, GapText, IsGap, At;
    var g, o := GapText(before), GapText(open);
    AtConcat(b, p, g, [0x5B] + (o + rest));
    AtConcat(b, p + |g|, [0x5B], o + rest);
    AtConcat(b, p + |g| + 1, o, rest);
    AtIndex(b, p + |g|, [0x5B], 0);
    RunGap(b, p, before, M.SeekChild, node, stack);
    OpenBracket(b, p + |g|, node, stack);
    RunGap(b, p + |g| + 1, open, M.KeyExpressionOpen, node, stack);
  }

  lemma NoKeyFails(b: bytes, q: nat, t: bytes, node: Node, stack: seq<M.Frame>)
    requires At(b, q, t)
    requires t == [0x74, 0x72, 0x75, 0x65] || t == [0x66, 0x61, 0x6C, 0x73, 0x65] || t == [0x7B]
    ensures M.Run(b, St(q, M.KeyExpressionOpen, node, stack)) == Err
  {
    hide M.Run;
    AtIndex(b, q, t, 0);
    NoComment(b, q);
    FailsAt(b, St(q, M.KeyExpressionOpen, node, stack));
  }

  lemma NoKeyRefused(b: bytes, p: nat, f: Fault, node: Node, stack: seq<M.Frame>)
    requires f.NoKey? && IsFault(f) && !node.isRoot && At(b, p, FaultText(f))
    ensures M.Run(b, St(p, M.SeekChild, node, stack)) == Err
  {
    hide M.Run, M.Step, GapText, IsGap, At;
    RunOpenKey(b, p, f.before, f.open, f.t + f.rest, node, stack);
    var q := p + |GapText(f.before)| + 1 + |GapText(f.open)|;
    AtConcat(b, q, f.t, f.rest);
    NoKeyFails(b, q, f.t, node, stack);
  }

  // Up to behind a key in brackets.
  lemma RunKeyGap(b: bytes, p: nat, key: Literal, close: Gap, x: byte, rest: bytes, node: Node, stack: seq<M.Frame>)
    requires IsLiteral(key) && !key.Truth? && IsGap(close)
    requires close == [] ==> !Continues(key, x)
    requires At(b, p, LiteralText(key) + (GapText(close) + ([x] + rest)))
    ensures var q := p + |LiteralText(key)| + |GapText(close)|;
      && q < |b| && b[q] == x && At(b, q, [x] + rest)
      && M.Run(b, St(p, M.KeyExpressionOpen, node, stack)) == M.Run(b, St(q, M.KeyExpressionFinish(LiteralKey(key)), node, stack))
  {
    hide M.Run, GapText, IsGap, LiteralText, IsLiteral, LiteralKey, At, EndsLiteral, Continues;
    var l, c := LiteralText(key), GapText(close);
    AtConcat(b, p, l, c + ([x] + rest));
    AtConcat(b, p + |l|, c, [x] + rest);
    AtIndex(b, p + |l| + |c|, [x] + rest, 0);
    NoGap();
    EndsBeforeGap(b, p + |l|, close, key);
    RunLiteral(b, p, key, M.ForKey, node, stack);
    RunGap(b, p + |l|, close, M.KeyExpressionFinish(LiteralKey(key)), node, stack);
  }

  lemma EndsBeforeGap(b: bytes, p: nat, g: Gap, l: Literal)
    requires IsGap(g) && At(b, p, GapText(g)) && p + |GapText(g)| < |b|
    requires g == [] ==> !Continues(l, b[p])
    ensures EndsLiteral(l, b, p)
  {
    if g != [] {
      FirstOfGap(b, p, g);
    }
  }

  lemma KeyStrayRefused(b: bytes, p: nat, f: Fault, node: Node, stack: seq<M.Frame>)
    requires f.KeyStray? && IsFault(f) && !node.isRoot && At(b, p, FaultText(f))
    ensures M.Run(b, St(p, M.SeekChild, node, stack)) == Err
  {
    hide M.Run, GapText, IsGap, LiteralText, IsLiteral, LiteralKey;
    var rest := LiteralText(f.key) + (GapText(f.close) + ([f.x] + f.rest));
    RunOpenKey(b, p, f.before, f.open, rest, node, stack);
    var q := p + |GapText(f.before)| + 1 + |GapText(f.open)|;
    RunKeyGap(b, q, f.key, f.close, f.x, f.rest, node, stack);
    var r := q + |LiteralText(f.key)| + |GapText(f.close)|;
    NoComment(b, r);
    FailsAt(b, St(r, M.KeyExpressionFinish(LiteralKey(f.key)), node, stack));
  }

  lemma CloseStray(b: bytes, r: nat, k: Key, front: Gap, x: byte, rest: bytes, node: Node, stack: seq<M.Frame>)
    requires IsGap(front) && At(b, r, [0x5D] + (GapText(front) + ([x] + rest)))
    requires !IsBlankByte(x) && x != 0x3D && x != 0x2D
    ensures M.Run(b, St(r, M.KeyExpressionFinish(k), node, stack)) == Err
  {
    hide M.Run, GapText, IsGap;
    var behind := GapText(front) + ([x] + rest);
    var s := r + 1 + |GapText(front)|;
    AtConcat(b, r, [0x5D], behind);
    AtIndex(b, r, [0x5D], 0);
    AtConcat(b, r + 1, GapText(front), [x] + rest);
    AtIndex(b, s, [x] + rest, 0);
    CloseBracket(b, r, k, node, stack);
    RunGap(b, r + 1, front, M.KeyExpressionClose(k), node, stack);
    NoComment(b, s);
    FailsAt(b, St(s, M.KeyExpressionClose(k), node, stack));
  }

  lemma AssignStrayRefused(b: bytes, p: nat, f: Fault, node: Node, stack: seq<M.Frame>)
    requires f.AssignStray? && IsFault(f) && !node.isRoot && At(b, p, FaultText(f))
    ensures M.Run(b, St(p, M.SeekChild, node, stack)) == Err
  {
    hide M.Run, GapText, IsGap, LiteralText, IsLiteral, LiteralKey, At, M.Step;
    var behind := GapText(f.front) + ([f.x] + f.rest);
    var rest := LiteralText(f.key) + (GapText(f.close) + ([0x5D] + behind));
    RunOpenKey(b, p, f.before, f.open, rest, node, stack);
    var q := p + |GapText(f.before)| + 1 + |GapText(f.open)|;
    RunKeyGap(b, q, f.key, f.close, 0x5D, behind, node, stack);
    var r := q + |LiteralText(f.key)| + |GapText(f.close)|;
    CloseStray(b, r, LiteralKey(f.key), f.front, f.x, f.rest, node, stack);
  }

  // ---- values ----

  // A byte at which only a value is sought.
  predicate StartsValue(b: bytes, p: nat) {
    && p < |b| && !IsSpace(b[p]) && b[p] != RBRACE && b[p] != LBRACKET && !IsKeyStart(b[p])
    && !M.OpensComment(b, p)
  }

  // From the start of an entry with any name to where its value is sought.
  lemma RunFrontName(b: bytes, p: nat, before: Gap, n: Name, node: Node, stack: seq<M.Frame>)
    requires IsGap(before) && IsName(n) && !node.isRoot && At(b, p, GapText(before) + NameText(n))
    requires StartsValue(b, p + |GapText(before) + NameText(n)|)
    ensures M.Run(b, St(p, M.SeekChild, node, stack))
         == M.Run(b, St(p + |GapText(before) + NameText(n)|, M.SeekValue(KeyOf(n, node.lualen)), node, stack))
  {
    hide M.Run, GapText, IsGap, NameText;
    AtConcat(b, p, GapText(before), NameText(n));
    var q := p + |GapText(before)|;
    RunGap(b, p, before, M.SeekChild, node, stack);
    match n {
      case Unnamed =>
        UnnamedNothing();
        OpenUnnamed(b, q, node, stack);
      case Named(_, _, _) => RunNamed(b, q, n, node, stack);
      case Keyed(_, _, _, _, _) => RunKeyed(b, q, n, node, stack);
    }
  }

  lemma BadStarts(b: bytes, p: nat, v: Bad)
    requires IsBad(v) && At(b, p, BadText(v)) && p + |BadText(v)| == |b|
    ensures StartsValue(b, p)
  {
    hide Inside, FaultText, SpellFrom;
    var t := BadText(v);
    AtIndex(b, p, t, 0);
    if |t| > 1 {
      AtIndex(b, p, t, 1);
    }
    NoComment(b, p);
  }

  lemma RunCutString(b: bytes, p: nat, v: Bad, k: Key, node: Node, stack: seq<M.Frame>)
    requires v.CutString? && IsBad(v) && At(b, p, BadText(v)) && p + |BadText(v)| == |b|
    ensures M.Run(b, St(p, M.SeekValue(k), node, stack)) == Err
  {
    hide M.Run, Inside;
    AtConcat(b, p, [v.quote], Inside(v.s));
    AtIndex(b, p, [v.quote], 0);
    OpenString(b, p, v.quote, M.ForValue(k), node, stack);
    RunMarked(b, p + 1, v.s, v.quote, M.ForValue(k), p + 1, node, stack);
    FailsAt(b, St(|b|, M.ReadText(M.ForValue(k), p + 1, v.quote, false), node, stack));
  }

  lemma {:induction false} RunJunkToEnd(b: bytes, p: nat, k: Key, node: Node, stack: seq<M.Frame>)
    requires p <= |b| && forall i :: p <= i < |b| ==> StartsNothing(b[i])
    ensures M.Run(b, St(p, M.SeekValue(k), node, stack)) == Err
    decreases |b| - p
  {
    hide M.Run;
    if p < |b| {
      if At(b, p, TRUE_TEXT) {
        AtIndex(b, p, TRUE_TEXT, 0);
      }
      if At(b, p, FALSE_TEXT) {
        AtIndex(b, p, FALSE_TEXT, 0);
      }
      RunJunk(b, p, M.SeekValue(k), node, stack);
      RunJunkToEnd(b, p + 1, k, node, stack);
    } else {
      FailsAt(b, St(p, M.SeekValue(k), node, stack));
    }
  }

  lemma NoNumber(negative: bool)
    ensures ParseInt([0x2D]) == None && ParseFloat(Sign(negative) + [0x2E]) == None
  {
    assert [0x2D][1..] == [];
    var s := Sign(negative) + [0x2E];
    assert (if negative then s[1..] else s) == [0x2E];
    assert [0x2E][..0] + [0x2E][1..] == [];
  }

  lemma PointFails(b: bytes, start: nat, q: nat, negative: bool, k: Key, node: Node, stack: seq<M.Frame>)
    requires start <= q <= |b| && b[start..q] == Sign(negative) + [0x2E] && (q < |b| ==> !IsDigit(b[q]))
    ensures M.Run(b, St(q, M.ReadFloat(M.ForValue(k), start), node, stack)) == Err
  {
    hide M.Run, M.Step, ParseInt, ParseFloat;
    NoNumber(negative);
    var s := St(q, M.ReadFloat(M.ForValue(k), start), node, stack);
    assert Slice(b, start, q) == Sign(negative) + [0x2E];
    M.StepIsFloat(b, s);
    FailsAt(b, s);
  }

  lemma SignFails(b: bytes, start: nat, q: nat, k: Key, node: Node, stack: seq<M.Frame>)
    requires start <= q <= |b| && b[start..q] == [0x2D] && (q < |b| ==> !IsDigit(b[q]) && b[q] != DOT)
    ensures M.Run(b, St(q, M.ReadInt(M.ForValue(k), start), node, stack)) == Err
  {
    hide M.Run, M.Step, ParseInt, ParseFloat;
    NoNumber(true);
    var s := St(q, M.ReadInt(M.ForValue(k), start), node, stack);
    assert Slice(b, start, q) == [0x2D];
    M.StepIsInt(b, s);
    FailsAt(b, s);
  }

  lemma RunNoDigits(b: bytes, p: nat, v: Bad, k: Key, node: Node, stack: seq<M.Frame>)
    requires v.NoDigits? && IsBad(v) && At(b, p, BadText(v)) && p + |BadText(v)| == |b|
    ensures M.Run(b, St(p, M.SeekValue(k), node, stack)) == Err
  {
    hide M.Run, M.Step, ParseInt, ParseFloat;
    var c := M.ForValue(k);
    var sign, point := Sign(v.negative), Point(v.point);
    var q := p + |sign + point|;
    AtConcat(b, p, sign + point, v.rest);
    AtConcat(b, p, sign, point);
    AtSlice(b, p, sign + point);
    if v.rest != [] {
      AtIndex(b, q, v.rest, 0);
    }
    if v.negative {
      AtIndex(b, p, sign, 0);
    }
    if v.point {
      var dot := p + |sign|;
      AtIndex(b, dot, point, 0);
      if v.negative {
        SignOpens(b, p, c, node, stack);
      }
      ReadDot(b, dot, p, c, node, stack);
      PointFails(b, p, q, v.negative, k, node, stack);
    } else {
      SignOpens(b, p, c, node, stack);
      SignFails(b, p, q, k, node, stack);
    }
  }

  lemma SignOpens(b: bytes, p: nat, c: M.Component, node: Node, stack: seq<M.Frame>)
    requires p < |b| && b[p] == MINUS && (p + 1 < |b| ==> b[p + 1] != MINUS)
    ensures M.Run(b, St(p, Before(c), node, stack)) == M.Run(b, St(p + 1, M.ReadInt(c, p), node, stack))
  {
    hide M.Run;
    NoComment(b, p);
    M.RunStep(b, St(p, Before(c), node, stack), St(p + 1, M.ReadInt(c, p), node, stack));
  }

  lemma JunkBehind(b: bytes, p: nat, v: Bad)
    requires v.Junk? && IsBad(v) && At(b, p, BadText(v)) && p + |BadText(v)| == |b|
    ensures forall i :: p <= i < |b| ==> StartsNothing(b[i])
  {
    forall i | p <= i < |b| ensures StartsNothing(b[i]) {
      AtIndex(b, p, v.j, i - p);
    }
  }

  lemma WithinRefused(b: bytes, p: nat, f: Fault, node: Node, stack: seq<M.Frame>)
    requires f.Within? && IsFault(f) && !node.isRoot
    requires At(b, p, FaultText(f)) && p + |FaultText(f)| == |b|
    ensures M.Run(b, St(p, M.SeekChild, node, stack)) == Err
    decreases f, 0
  {
    hide M.Run, GapText, IsGap, NameText, KeyOf, BadText, IsBad, IsName, StartsValue;
    var head := GapText(f.before) + NameText(f.name);
    AtConcat(b, p, head, BadText(f.bad));
    BadStarts(b, p + |head|, f.bad);
    RunFrontName(b, p, f.before, f.name, node, stack);
    RunBad(b, p + |head|, f.bad, KeyOf(f.name, node.lualen), node, stack);
  }

  lemma RunFault(b: bytes, p: nat, f: Fault, node: Node, stack: seq<M.Frame>)
    requires IsFault(f) && stack != [] && !node.isRoot
    requires At(b, p, FaultText(f)) && p + |FaultText(f)| == |b|
    ensures M.Run(b, St(p, M.SeekChild, node, stack)) == Err
    decreases f, 1
  {
    hide M.Run, FaultText, IsFault;
    match f {
      case Ends(_, _) => EndsRefused(b, p, f, node, stack);
      case EndsBehind(_, _) => EndsBehindRefused(b, p, f, node, stack);
      case EndsBefore(_, _, _) => EndsBeforeRefused(b, p, f, node, stack);
      case Stray(_, _, _) => StrayRefused(b, p, f, node, stack);
      case Word(_, _, _, _, _) => WordRefused(b, p, f, node, stack);
      case WordEnds(_, _, _, _) => WordEndsRefused(b, p, f, node, stack);
      case NoKey(_, _, _, _) => NoKeyRefused(b, p, f, node, stack);
      case KeyStray(_, _, _, _, _, _) => KeyStrayRefused(b, p, f, node, stack);
      case AssignStray(_, _, _, _, _, _, _) => AssignStrayRefused(b, p, f, node, stack);
      case Within(_, _, _) => WithinRefused(b, p, f, node, stack);
    }
  }

  lemma FrontIsText(items: seq<Item>)
    requires AreItems(items)
    ensures IsText(Front(items)) && Front(items).Table? && Front(items).items == items
    ensures !Front(items).trailing ==> items == []
    ensures NodeTo(Front(items), 0) == CHILD && !NodeTo(Front(items), |items|).isRoot
  {
    hide NodeOf, IsGap, IsName, IsText;
    assert IsGap([]) by { NoGapIs(); }
    var t := Front(items);
    assert IsText(t) by { FrontShape(items); }
    NodeOfNone();
    NodeOfEntries(EntriesTo(t, |items|));
  }

  lemma FrontShape(items: seq<Item>)
    requires AreItems(items)
    ensures IsText(Front(items))
  {
  }

  lemma TableStarts(b: bytes, p: nat, v: Bad)
    requires v.BadTable? && At(b, p, BadText(v))
    ensures p < |b| && b[p] == LBRACE && At(b, p + 1, SpellFrom(Front(v.items), 0))
    ensures var q := p + 1 + |SpellFrom(Front(v.items), 0)|;
      At(b, q, FaultText(v.fault)) && q + |FaultText(v.fault)| == p + |BadText(v)|
  {
    hide SpellFrom, FaultText;
    var s := SpellFrom(Front(v.items), 0);
    AtConcat(b, p, [0x7B] + s, FaultText(v.fault));
    AtConcat(b, p, [0x7B], s);
    AtIndex(b, p, [0x7B], 0);
  }

  lemma RunBadTable(b: bytes, p: nat, v: Bad, k: Key, node: Node, stack: seq<M.Frame>)
    requires v.BadTable? && IsBad(v) && At(b, p, BadText(v)) && p + |BadText(v)| == |b|
    ensures M.Run(b, St(p, M.SeekValue(k), node, stack)) == Err
    decreases v, 2
  {
    hide M.Run, BadText, SpellFrom, FaultText, Front, IsFault, NodeTo, AreItems, IsText;
    var t, inner := Front(v.items), stack + [M.Frame(node, k)];
    FrontIsText(v.items);
    TableStarts(b, p, v);
    OpenTable(b, p, k, node, stack);
    RunItems(b, p + 1, t, 0, inner);
    RunFault(b, p + 1 + |SpellFrom(t, 0)|, v.fault, NodeTo(t, |t.items|), inner);
  }

  // A value with a fault is refused, wherever it stands.
  lemma RunBad(b: bytes, p: nat, v: Bad, k: Key, node: Node, stack: seq<M.Frame>)
    requires IsBad(v) && At(b, p, BadText(v)) && p + |BadText(v)| == |b|
    ensures M.Run(b, St(p, M.SeekValue(k), node, stack)) == Err
    decreases v, 3
  {
    hide M.Run, BadText, IsBad;
    match v {
      case CutString(_, _) => RunCutString(b, p, v, k, node, stack);
      case Junk(j) =>
        JunkBehind(b, p, v);
        RunJunkToEnd(b, p, k, node, stack);
      case NoDigits(_, _, _) => RunNoDigits(b, p, v, k, node, stack);
      case BadTable(_, _) => RunBadTable(b, p, v, k, node, stack);
    }
  }

  // ---- whole inputs ----

  // What is wrong behind the values that come first: there is none at all, a byte that
  // cannot follow the last, or behind a comma a value with a fault, or bytes that start
  // no value; at this level words are not keys.
  datatype Refusal =
    | NoValue(gap: Gap, end: Open)
    | Behind(x: byte, rest: bytes)
    | Next(gap: Gap, bad: Bad)
    | Unknown(gap: Gap, j: bytes)

  predicate IsRefusal(chunks: seq<Chunk>, r: Refusal) {
    match r
    case NoValue(gap, end) => chunks == [] && IsGap(gap) && IsOpen(end)
    case Behind(x, rest) =>
      && chunks != [] && CannotFollow(x)
      && var last := chunks[|chunks| - 1]; (last.after == [] && last.value.Scalar? ==> !Continues(last.value.l, x))
    case Next(gap, bad) => IsGap(gap) && IsBad(bad)
    case Unknown(gap, j) =>
      && IsGap(gap) && j != [] && !IsBlankByte(j[0]) && j[0] != 0x7D
      && forall i :: 0 <= i < |j| ==> StartsNothing(j[i])
  }

  function RefusalText(r: Refusal): bytes {
    match r
    case NoValue(gap, end) => GapText(gap) + OpenText(end)
    case Behind(x, rest) => [x] + rest
    case Next(gap, bad) => GapText(gap) + BadText(bad)
    case Unknown(gap, j) => GapText(gap) + j
  }

  // The values that come first, with a comma if another could come.
  function FrontText(chunks: seq<Chunk>, r: Refusal): bytes {
    Joined(chunks) + (if chunks != [] && !r.Behind? then [0x2C] else [])
  }

  lemma RunFront(b: bytes, chunks: seq<Chunk>, r: Refusal)
    requires AreChunks(chunks) && !r.Behind? && At(b, 0, FrontText(chunks, r))
    ensures M.Parse(b) == M.Run(b, St(|FrontText(chunks, r)|, M.SeekChild, RootOf(Values(chunks)), []))
  {
    hide M.Run, M.Step, Joined, RootOf, EndsText, M.Parse, At, IsChunk, Meaning;
    ParseIs(b);
    var vs := Values(chunks);
    if chunks != [] {
      var q := |Joined(chunks)|;
      AtConcat(b, 0, Joined(chunks), [0x2C]);
      AtIndex(b, q, [0x2C], 0);
      CommaEnds(b, q);
      EndsAny(chunks[|chunks| - 1].value, b, q);
      RunChunks(b, 0, chunks, []);
      assert [] + vs == vs;
      EndByComma(b, q, RootOf(vs), []);
    } else {
      assert vs == [];
      JoinedNone();
    }
  }

  lemma JoinedNone()
    ensures Joined([]) == []
  {
  }

  lemma RootStops(b: bytes, q: nat, node: Node)
    requires q < |b| && CannotFollow(b[q])
    ensures M.Run(b, St(q, M.ValueEnd, node, [])) == Err
  {
    hide M.Run;
    NoComment(b, q);
    if b[q] == RBRACE {
      EndByBrace(b, q, node, []);
      FailsAt(b, St(q, M.SeekChild, node, []));
    } else {
      FailsAt(b, St(q, M.ValueEnd, node, []));
    }
  }

  lemma BehindMeans(chunks: seq<Chunk>, r: Refusal, b: bytes, q: nat)
    requires AreChunks(chunks) && IsRefusal(chunks, r) && r.Behind? && At(b, q, [r.x] + r.rest)
    ensures q < |b| && CannotFollow(b[q]) && chunks != []
    ensures var last := chunks[|chunks| - 1]; last.after == [] ==> EndsText(last.value, b, q)
    ensures FrontText(chunks, r) + RefusalText(r) == Joined(chunks) + ([r.x] + r.rest)
  {
    hide Joined, IsChunk, Continues;
    AtIndex(b, q, [r.x] + r.rest, 0);
  }

  lemma BehindRefused(b: bytes, chunks: seq<Chunk>, r: Refusal)
    requires AreChunks(chunks) && IsRefusal(chunks, r) && r.Behind? && b == FrontText(chunks, r) + RefusalText(r)
    ensures M.Parse(b) == Err
  {
    hide *;
    var text, vs := Joined(chunks), Values(chunks);
    var all := text + ([r.x] + r.rest);
    WholeAt(text, [r.x] + r.rest);
    BehindMeans(chunks, r, all, |text|);
    ParseIs(b);
    RunChunks(b, 0, chunks, []);
    assert [] + vs == vs;
    RootStops(b, |text|, RootOf(vs));
  }

  lemma NothingRefused(b: bytes, p: nat, gap: Gap, end: Open)
    requires IsGap(gap) && IsOpen(end) && At(b, p, GapText(gap) + OpenText(end)) && p + |GapText(gap) + OpenText(end)| == |b|
    ensures M.Run(b, St(p, M.SeekChild, RootOf([]), [])) == Err
  {
    hide M.Run, GapText, IsGap, OpenText, IsOpen;
    AtConcat(b, p, GapText(gap), OpenText(end));
    RunGap(b, p, gap, M.SeekChild, RootOf([]), []);
    RunOpen(b, p + |GapText(gap)|, end, M.SeekChild, RootOf([]), []);
    RootNone();
  }

  lemma NextRefused(b: bytes, p: nat, gap: Gap, v: Bad, node: Node)
    requires IsGap(gap) && IsBad(v) && node.isRoot
    requires At(b, p, GapText(gap) + BadText(v)) && p + |GapText(gap) + BadText(v)| == |b|
    ensures M.Run(b, St(p, M.SeekChild, node, [])) == Err
  {
    hide M.Run, GapText, IsGap, BadText, IsBad;
    var q := p + |GapText(gap)|;
    AtConcat(b, p, GapText(gap), BadText(v));
    BadStarts(b, q, v);
    RunGap(b, p, gap, M.SeekChild, node, []);
    OpenUnnamed(b, q, node, []);
    RunBad(b, q, v, IntKey(node.lualen + 1), node, []);
  }

  lemma UnknownRefused(b: bytes, p: nat, gap: Gap, j: bytes, node: Node)
    requires IsGap(gap) && node.isRoot && j != [] && !IsBlankByte(j[0]) && j[0] != 0x7D
    requires forall i :: 0 <= i < |j| ==> StartsNothing(j[i])
    requires At(b, p, GapText(gap) + j) && p + |GapText(gap) + j| == |b|
    ensures M.Run(b, St(p, M.SeekChild, node, [])) == Err
  {
    hide M.Run, GapText, IsGap;
    var q := p + |GapText(gap)|;
    AtConcat(b, p, GapText(gap), j);
    AtIndex(b, q, j, 0);
    NoComment(b, q);
    RunGap(b, p, gap, M.SeekChild, node, []);
    OpenUnnamed(b, q, node, []);
    forall i | q <= i < |b| ensures StartsNothing(b[i]) {
      AtIndex(b, q, j, i - q);
    }
    RunJunkToEnd(b, q, IntKey(node.lualen + 1), node, []);
  }

  // Whatever values come first, an input with such a fault is refused.
  lemma Refused(chunks: seq<Chunk>, r: Refusal)
    requires AreChunks(chunks) && IsRefusal(chunks, r)
    ensures M.Parse(FrontText(chunks, r) + RefusalText(r)) == Err
  {
    hide M.Run, M.Parse, FrontText, GapText, IsGap, AreChunks, BadText, IsBad, OpenText, IsOpen;
    var text, end := FrontText(chunks, r), RefusalText(r);
    var b := text + end;
    WholeAt(text, end);
    match r {
      case Behind(_, _) => BehindRefused(b, chunks, r);
      case NoValue(gap, open) =>
        RunFront(b, chunks, r);
        assert Values(chunks) == [];
        NothingRefused(b, |text|, gap, open);
      case Next(gap, bad) =>
        RunFront(b, chunks, r);
        NextRefused(b, |text|, gap, bad, RootOf(Values(chunks)));
      case Unknown(gap, j) =>
        RunFront(b, chunks, r);
        UnknownRefused(b, |text|, gap, j, RootOf(Values(chunks)));
    }
  }
}
