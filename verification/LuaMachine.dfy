// The parser as a transition function on states that hold only what is live.
// The imperative parser in LuaUnserialize is proved to run exactly this machine.
module LuaMachine {
  import opened Wrappers
  import opened Bytes
  import opened LuaValues
  import opened LuaText
  import opened LuaNodes

  // The states of the source's loop, under its names except that VALUE, TEXT,
  // INT and FLOAT are SeekValue, ReadText, ReadInt and ReadFloat here.

  // What a scanned string or number is for: a bracketed key, or the value that
  // goes under an already known key.
  datatype Component = ForKey | ForValue(key: Key)

  datatype Mode =
    | SeekChild
    | SeekValue(key: Key)
    | ReadText(component: Component, start: nat, quote: byte, escaping: bool)
    | ReadInt(component: Component, start: nat)
    | ReadFloat(component: Component, start: nat)
    | ValueEnd
    | KeyExpressionOpen
    | KeyExpressionFinish(key: Key)
    | KeyExpressionClose(key: Key)
    | KeySimple(start: nat)
    | KeySimpleEnd(name: bytes)

  datatype Comment = NoComment | Multiline | Inline

  // An enclosing table and the key its child will go under.
  datatype Frame = Frame(node: Node, key: Key)

  datatype State = State(pos: nat, comment: Comment, mode: Mode, node: Node, stack: seq<Frame>)

  datatype StepResult = Continue(state: State) | Stop | Fail

  const DASHES: bytes := [MINUS, MINUS]
  const LONG_COMMENT: bytes := [MINUS, MINUS, LBRACKET, LBRACKET]
  const LONG_CLOSE: bytes := [RBRACKET, RBRACKET]

  // Order of the states that hand a byte on unread: each hands it to one below.
  function Rank(m: Mode): nat {
    match m
    case ReadInt(_, _) => 4
    case ReadFloat(_, _) => 4
    case KeySimple(_) => 4
    case KeySimpleEnd(_) => 3
    case ValueEnd => 2
    case KeyExpressionFinish(_) => 2
    case SeekChild => 1
    case _ => 0
  }

  // The byte at the position, if there is one.
  function Current(b: bytes, pos: nat): Option<byte> {
    if pos < |b| then Some(b[pos]) else None
  }

  predicate OpensComment(b: bytes, pos: nat) {
    At(b, pos, DASHES)
  }

  // Steps over the opening of a comment.
  function EnterComment(b: bytes, s: State): State {
    if At(b, s.pos, LONG_COMMENT) then s.(comment := Multiline, pos := s.pos + 4)
    else s.(comment := Inline, pos := s.pos + 2)
  }

  // Reads on in the given mode.
  function Advance(s: State, m: Mode): State {
    s.(pos := s.pos + 1, mode := m)
  }

  // Leaves the byte for the given mode.
  function HandOn(s: State, m: Mode): State {
    s.(mode := m)
  }

  // A finished value: into the current table.
  function Store(s: State, k: Key, v: Value): State {
    s.(node := Append(s.node, k, v), mode := ValueEnd)
  }

  function CommentStep(b: bytes, s: State): State {
    match s.comment
    case Multiline =>
      if At(b, s.pos, LONG_CLOSE) then s.(comment := NoComment, pos := s.pos + 2)
      else s.(pos := s.pos + 1)
    case _ =>
      if Current(b, s.pos) == Some(NEWLINE) then s.(comment := NoComment, pos := s.pos + 1)
      else s.(pos := s.pos + 1)
  }

  function SeekChildStep(b: bytes, s: State): StepResult {
    if s.pos >= |b| then Stop
    else
      var c := b[s.pos];
      if OpensComment(b, s.pos) then Continue(EnterComment(b, s))
      else if !s.node.isRoot && IsKeyStart(c) then Continue(Advance(s, KeySimple(s.pos)))
      else if !s.node.isRoot && c == LBRACKET then Continue(Advance(s, KeyExpressionOpen))
      else if c == RBRACE then
        if s.stack == [] then Fail
        else
          var frame := s.stack[|s.stack| - 1];
          Continue(State(s.pos + 1, NoComment, ValueEnd,
                         Append(frame.node, frame.key, NodeTable(s.node)), s.stack[..|s.stack| - 1]))
      else if IsSpace(c) then Continue(Advance(s, SeekChild))
      else Continue(HandOn(s, SeekValue(IntKey(s.node.lualen + 1))))
  }

  function ValueStep(b: bytes, s: State, k: Key): StepResult {
    if s.pos >= |b| then Fail
    else
      var c := b[s.pos];
      if OpensComment(b, s.pos) then Continue(EnterComment(b, s))
      else if c == QUOTE || c == APOSTROPHE then
        Continue(Advance(s, ReadText(ForValue(k), s.pos + 1, c, false)))
      else if c == MINUS || IsDigit(c) then Continue(Advance(s, ReadInt(ForValue(k), s.pos)))
      else if c == DOT then Continue(Advance(s, ReadFloat(ForValue(k), s.pos)))
      else if At(b, s.pos, TRUE_TEXT) then Continue(Store(s.(pos := s.pos + 4), k, Bool(true)))
      else if At(b, s.pos, FALSE_TEXT) then Continue(Store(s.(pos := s.pos + 5), k, Bool(false)))
      else if c == LBRACE then
        Continue(State(s.pos + 1, NoComment, SeekChild, CHILD, s.stack + [Frame(s.node, k)]))
      else Continue(Advance(s, s.mode))
  }

  function TextStep(b: bytes, s: State): StepResult
    requires s.mode.ReadText?
  {
    if s.pos >= |b| then Fail
    else
      var c := b[s.pos];
      if s.mode.escaping then Continue(Advance(s, s.mode.(escaping := false)))
      else if c == BACKSLASH then Continue(Advance(s, s.mode.(escaping := true)))
      else if c == s.mode.quote then
        var data := Unescape(Slice(b, s.mode.start, s.pos));
        match s.mode.component
        case ForKey => Continue(Advance(s, KeyExpressionFinish(StrKey(data))))
        case ForValue(k) => Continue(Store(s.(pos := s.pos + 1), k, Str(data)))
      else Continue(Advance(s, s.mode))
  }

  // int(...) and float(...) raise on what they cannot read.
  function IntStep(b: bytes, s: State): StepResult
    requires s.mode.ReadInt?
  {
    var c := Current(b, s.pos);
    if c == Some(DOT) then Continue(Advance(s, ReadFloat(s.mode.component, s.mode.start)))
    else if c.Some? && IsDigit(c.value) then Continue(Advance(s, s.mode))
    else
      match ParseInt(Slice(b, s.mode.start, s.pos))
      case None => Fail
      case Some(n) =>
        match s.mode.component
        case ForKey => Continue(HandOn(s, KeyExpressionFinish(IntKey(n))))
        case ForValue(k) => Continue(Store(s, k, Int(n)))
  }

  function FloatStep(b: bytes, s: State): StepResult
    requires s.mode.ReadFloat?
  {
    var c := Current(b, s.pos);
    if c.Some? && IsDigit(c.value) then Continue(Advance(s, s.mode))
    else
      match ParseFloat(Slice(b, s.mode.start, s.pos))
      case None => Fail
      case Some(r) =>
        match s.mode.component
        case ForKey => Continue(HandOn(s, KeyExpressionFinish(FloatKey(r))))
        case ForValue(k) => Continue(Store(s, k, Float(r)))
  }

  function ValueEndStep(b: bytes, s: State): StepResult {
    if s.pos >= |b| then Continue(Advance(s, ValueEnd))
    else
      var c := b[s.pos];
      if OpensComment(b, s.pos) then Continue(EnterComment(b, s))
      else if c == COMMA then Continue(Advance(s, SeekChild))
      else if c == RBRACE then Continue(HandOn(s, SeekChild))
      else if IsSpace(c) then Continue(Advance(s, ValueEnd))
      else Fail
  }

  function KeyExpressionOpenStep(b: bytes, s: State): StepResult {
    if s.pos >= |b| then Fail
    else
      var c := b[s.pos];
      if OpensComment(b, s.pos) then Continue(EnterComment(b, s))
      else if c == QUOTE || c == APOSTROPHE then
        Continue(Advance(s, ReadText(ForKey, s.pos + 1, c, false)))
      else if c == MINUS || IsDigit(c) then Continue(Advance(s, ReadInt(ForKey, s.pos)))
      else if c == DOT then Continue(Advance(s, ReadFloat(ForKey, s.pos)))
      else if At(b, s.pos, TRUE_TEXT) || At(b, s.pos, FALSE_TEXT) || c == LBRACE then Fail
      else Continue(Advance(s, KeyExpressionOpen))
  }

  function KeyExpressionFinishStep(b: bytes, s: State, k: Key): StepResult {
    if s.pos >= |b| then Fail
    else
      var c := b[s.pos];
      if OpensComment(b, s.pos) then Continue(EnterComment(b, s))
      else if c == RBRACKET then Continue(Advance(s, KeyExpressionClose(k)))
      else if IsSpace(c) then Continue(Advance(s, s.mode))
      else Fail
  }

  function KeyExpressionCloseStep(b: bytes, s: State, k: Key): StepResult {
    if s.pos >= |b| then Fail
    else
      var c := b[s.pos];
      if c == EQUALS then Continue(Advance(s, SeekValue(k)))
      else if OpensComment(b, s.pos) then Continue(EnterComment(b, s))
      else if IsSpace(c) then Continue(Advance(s, s.mode))
      else Fail
  }

  // Comparing the missing byte at the end of the input raises.
  function KeySimpleStep(b: bytes, s: State, start: nat): StepResult {
    if s.pos >= |b| then Fail
    else if IsKeyByte(b[s.pos]) then Continue(Advance(s, s.mode))
    else Continue(HandOn(s, KeySimpleEnd(Slice(b, start, s.pos))))
  }

  // The end of the input, and any byte not listed, is stepped over in silence.
  function KeySimpleEndStep(b: bytes, s: State, k: bytes): StepResult {
    if s.pos >= |b| then Continue(Advance(s, s.mode))
    else
      var c := b[s.pos];
      if IsSpace(c) then Continue(Advance(s, s.mode))
      else if OpensComment(b, s.pos) then Continue(EnterComment(b, s))
      else if c == EQUALS then Continue(Advance(s, SeekValue(StrKey(k))))
      else if c == COMMA || c == RBRACE then
        if k == TRUE_TEXT then Continue(Store(s, IntKey(s.node.lualen + 1), Bool(true)))
        else if k == FALSE_TEXT then Continue(Store(s, IntKey(s.node.lualen + 1), Bool(false)))
        else Fail
      else Continue(Advance(s, s.mode))
  }

  // Either input is consumed, or the byte is handed to a state of lower rank;
  // the position never runs more than one past the end.
  predicate Progress(b: bytes, s: State, t: State) {
    && t.pos <= |b| + 1
    && (s.pos < t.pos || (s.pos == t.pos && Rank(t.mode) < Rank(s.mode)))
  }

  // A result makes progress unless the automaton ends.
  predicate Progresses(b: bytes, s: State, r: StepResult) {
    r.Continue? ==> Progress(b, s, r.state)
  }

  lemma SeekChildProgress(b: bytes, s: State)
    requires s.pos <= |b| && s.mode.SeekChild?
    ensures Progresses(b, s, SeekChildStep(b, s))
  {
    hide Append, NodeTable;
  }

  lemma SeekValueProgress(b: bytes, s: State)
    requires s.pos <= |b| && s.mode.SeekValue?
    ensures Progresses(b, s, ValueStep(b, s, s.mode.key))
  {
    hide Append, NodeTable;
  }

  lemma ReadTextProgress(b: bytes, s: State)
    requires s.pos <= |b| && s.mode.ReadText?
    ensures Progresses(b, s, TextStep(b, s))
  {
    hide Append, NodeTable;
  }

  lemma ReadIntProgress(b: bytes, s: State)
    requires s.pos <= |b| && s.mode.ReadInt?
    ensures Progresses(b, s, IntStep(b, s))
  {
    hide Append, NodeTable;
  }

  lemma ReadFloatProgress(b: bytes, s: State)
    requires s.pos <= |b| && s.mode.ReadFloat?
    ensures Progresses(b, s, FloatStep(b, s))
  {
    hide Append, NodeTable;
  }

  lemma ValueEndProgress(b: bytes, s: State)
    requires s.pos <= |b| && s.mode.ValueEnd?
    ensures Progresses(b, s, ValueEndStep(b, s))
  {
    hide Append, NodeTable;
  }

  lemma KeyExpressionOpenProgress(b: bytes, s: State)
    requires s.pos <= |b| && s.mode.KeyExpressionOpen?
    ensures Progresses(b, s, KeyExpressionOpenStep(b, s))
  {
    hide Append, NodeTable;
  }

  lemma KeyExpressionFinishProgress(b: bytes, s: State)
    requires s.pos <= |b| && s.mode.KeyExpressionFinish?
    ensures Progresses(b, s, KeyExpressionFinishStep(b, s, s.mode.key))
  {
    hide Append, NodeTable;
  }

  lemma KeyExpressionCloseProgress(b: bytes, s: State)
    requires s.pos <= |b| && s.mode.KeyExpressionClose?
    ensures Progresses(b, s, KeyExpressionCloseStep(b, s, s.mode.key))
  {
    hide Append, NodeTable;
  }

  lemma KeySimpleProgress(b: bytes, s: State)
    requires s.pos <= |b| && s.mode.KeySimple?
    ensures Progresses(b, s, KeySimpleStep(b, s, s.mode.start))
  {
    hide Append, NodeTable;
  }

  lemma KeySimpleEndProgress(b: bytes, s: State)
    requires s.pos <= |b| && s.mode.KeySimpleEnd?
    ensures Progresses(b, s, KeySimpleEndStep(b, s, s.mode.name))
  {
    hide Append, NodeTable;
  }

  function Step(b: bytes, s: State): (r: StepResult)
    requires s.pos <= |b|
    ensures r.Continue? ==> Progress(b, s, r.state)
  {
    if s.comment != NoComment then Continue(CommentStep(b, s))
    else
      match s.mode
      case SeekChild => SeekChildProgress(b, s); SeekChildStep(b, s)
      case SeekValue(k) => SeekValueProgress(b, s); ValueStep(b, s, k)
      case ReadText(_, _, _, _) => ReadTextProgress(b, s); TextStep(b, s)
      case ReadInt(_, _) => ReadIntProgress(b, s); IntStep(b, s)
      case ReadFloat(_, _) => ReadFloatProgress(b, s); FloatStep(b, s)
      case ValueEnd => ValueEndProgress(b, s); ValueEndStep(b, s)
      case KeyExpressionOpen => KeyExpressionOpenProgress(b, s); KeyExpressionOpenStep(b, s)
      case KeyExpressionFinish(k) => KeyExpressionFinishProgress(b, s); KeyExpressionFinishStep(b, s, k)
      case KeyExpressionClose(k) => KeyExpressionCloseProgress(b, s); KeyExpressionCloseStep(b, s, k)
      case KeySimple(start) => KeySimpleProgress(b, s); KeySimpleStep(b, s, start)
      case KeySimpleEnd(k) => KeySimpleEndProgress(b, s); KeySimpleEndStep(b, s, k)
  }

  lemma StepIsInt(b: bytes, s: State)
    requires s.pos <= |b| && s.comment == NoComment && s.mode.ReadInt?
    ensures Step(b, s) == IntStep(b, s)
  {
  }

  lemma StepIsFloat(b: bytes, s: State)
    requires s.pos <= |b| && s.comment == NoComment && s.mode.ReadFloat?
    ensures Step(b, s) == FloatStep(b, s)
  {
  }

  lemma StepIsWordEnd(b: bytes, s: State)
    requires s.pos <= |b| && s.comment == NoComment && s.mode.KeySimpleEnd?
    ensures Step(b, s) == KeySimpleEndStep(b, s, s.mode.name)
  {
  }

  // What is returned once the loop is over.
  function Finish(s: State): Result<Value> {
    if s.stack != [] || s.node.lualen == 0 || s.node.entries == [] then Err
    else Ok(s.node.entries[0].val)
  }

  function Run(b: bytes, s: State): Result<Value>
    requires s.pos <= |b| + 1
    decreases |b| + 1 - s.pos, Rank(s.mode)
  {
    if s.pos > |b| then Finish(s)
    else
      match Step(b, s)
      case Continue(t) => Run(b, t)
      case Stop => Finish(s)
      case Fail => Err
  }

  const INITIAL := State(0, NoComment, SeekChild, ROOT, [])

  // The value that the text b denotes.
  function Parse(b: bytes): Result<Value> {
    Run(b, INITIAL)
  }

  // One step on the way does not change the outcome.
  lemma RunStep(b: bytes, s: State, t: State)
    requires s.pos <= |b| && Step(b, s) == Continue(t)
    ensures t.pos <= |b| + 1 && Run(b, s) == Run(b, t)
  {
  }

  // ---- what every reachable state keeps ----

  // All tables under construction are sorted and counted.
  predicate StateValid(s: State) {
    NodeValid(s.node) && forall i :: 0 <= i < |s.stack| ==> NodeValid(s.stack[i].node)
  }

  lemma InitialValid()
    ensures StateValid(INITIAL)
  {
  }

  ghost predicate AppendedTo(node: Node, next: Node) {
    exists k, v :: next == Append(node, k, v)
  }

  // A step leaves the tables alone, stores a value in the current one, opens a
  // new one, or stores the current one in the one below.
  ghost predicate TablesFollow(s: State, t: State) {
    || (t.node == s.node && t.stack == s.stack)
    || (t.node == CHILD && |t.stack| == |s.stack| + 1 && t.stack[..|s.stack|] == s.stack
        && t.stack[|s.stack|].node == s.node)
    || (t.stack == s.stack && AppendedTo(s.node, t.node))
    || (s.stack != [] && t.stack == s.stack[..|s.stack| - 1]
        && AppendedTo(s.stack[|s.stack| - 1].node, t.node))
  }

  lemma StepTables(b: bytes, s: State)
    requires s.pos <= |b|
    ensures Step(b, s).Continue? ==> TablesFollow(s, Step(b, s).state)
  {
    hide Append, NodeTable, ParseInt, ParseFloat, Unescape, At, IsKeyStart, IsKeyByte, IsSpace, IsDigit, Slice;
  }

  lemma StepValid(b: bytes, s: State)
    requires s.pos <= |b| && StateValid(s)
    ensures Step(b, s).Continue? ==> StateValid(Step(b, s).state)
  {
    hide Step, NodeValid, Append;
    StepTables(b, s);
    forall node: Node, k, v | NodeValid(node) ensures NodeValid(Append(node, k, v)) {
      AppendValid(node, k, v);
    }
    assert NodeValid(CHILD) by { ChildValid(); }
  }

  lemma ChildValid()
    ensures NodeValid(CHILD)
  {
  }

  lemma ValidNonEmpty(node: Node)
    requires NodeValid(node) && node.lualen > 0
    ensures node.entries != []
  {
  }
}
