// The parser as it is written: one loop over the bytes that updates a position,
// a state name and a stack of half-built tables. Its local variables are the
// fields of Parser, and each state's branch of the loop is a method.
module LuaUnserialize {
  import opened Wrappers
  import opened Bytes
  import opened LuaValues
  import opened LuaText
  import opened LuaNodes
  import M = LuaMachine

  datatype StateName =
    | SEEK_CHILD | VALUE | TEXT | INT | FLOAT | VALUE_END
    | KEY_EXPRESSION_OPEN | KEY_EXPRESSION_FINISH | KEY_EXPRESSION_CLOSE
    | KEY_SIMPLE | KEY_SIMPLE_END

  datatype ComponentName = KEY_COMPONENT | VALUE_COMPONENT

  // A dict {"node", "state", "key"} on the stack.
  datatype FrameRef = FrameRef(node: TableNode, state: StateName, key: Option<Key>)

  // How a turn of the loop ends: next turn, break without a message, or an error
  // (break with a message, or an exception).
  datatype Outcome = Going | Broke | Failed

  ghost function Nodes(stack: seq<FrameRef>): set<TableNode> {
    set f | f in stack :: f.node
  }

  // The stack with the contents of its tables at the moment.
  ghost function Contents(stack: seq<FrameRef>): (frames: seq<M.Frame>)
    requires forall f :: f in stack ==> f.key.Some?
    reads Nodes(stack)
    ensures |frames| == |stack|
    ensures forall i :: 0 <= i < |stack| ==> frames[i] == M.Frame(stack[i].node.Contents(), stack[i].key.value)
  {
    seq(|stack|, i requires 0 <= i < |stack| reads Nodes(stack) =>
      (assert stack[i] in stack; M.Frame(stack[i].node.Contents(), stack[i].key.value)))
  }

  // The current node is the root exactly when nothing is stacked, every stacked
  // frame was stacked in state VALUE under a known key, and no table is shared.
  ghost predicate Linked(root: TableNode, node: TableNode, stack: seq<FrameRef>) {
    && (forall f :: f in stack ==> f.state == VALUE && f.key.Some?)
    && (forall i, j :: 0 <= i < j < |stack| ==> stack[i].node != stack[j].node)
    && (forall f :: f in stack ==> f.node != node)
    && root == (if stack == [] then node else stack[0].node)
    && (node.isRoot <==> stack == [])
    && (forall i :: 0 <= i < |stack| ==> (stack[i].node.isRoot <==> i == 0))
  }

  lemma LinkedPop(root: TableNode, node: TableNode, stack: seq<FrameRef>)
    requires Linked(root, node, stack) && stack != []
    ensures Linked(root, stack[|stack| - 1].node, stack[..|stack| - 1])
    ensures stack[|stack| - 1].key.Some? && stack[|stack| - 1].node !in Nodes(stack[..|stack| - 1])
    ensures stack[|stack| - 1].node != node
    ensures Contents(stack[..|stack| - 1]) == Contents(stack)[..|stack| - 1]
    ensures Contents(stack)[|stack| - 1] == M.Frame(stack[|stack| - 1].node.Contents(), stack[|stack| - 1].key.value)
  {
    var rest := stack[..|stack| - 1];
    assert forall f :: f in rest ==> f in stack;
    assert forall i :: 0 <= i < |rest| ==> rest[i] == stack[i];
  }

  lemma NodesPop(stack: seq<FrameRef>)
    requires stack != []
    ensures Nodes(stack[..|stack| - 1]) + {stack[|stack| - 1].node} <= Nodes(stack)
  {
    assert forall f :: f in stack[..|stack| - 1] ==> f in stack;
  }

  lemma LinkedPush(root: TableNode, node: TableNode, stack: seq<FrameRef>, f: FrameRef, child: TableNode)
    requires Linked(root, node, stack) && f.node == node && f.state == VALUE && f.key.Some?
    requires child != node && child !in Nodes(stack) && !child.isRoot
    ensures Linked(root, child, stack + [f])
    ensures Contents(stack + [f]) == Contents(stack) + [M.Frame(node.Contents(), f.key.value)]
  {
    var more := stack + [f];
    forall g | g in more ensures g.state == VALUE && g.key.Some? && g.node != child {
      assert g in stack ==> g.node in Nodes(stack);
    }
    forall i, j | 0 <= i < j < |more| ensures more[i].node != more[j].node {
      assert more[i] in stack;
    }
  }

  class Parser {
    const sbins: bytes
    var pos: nat
    var state: StateName
    var comment: M.Comment
    var root: TableNode
    var node: TableNode
    var stack: seq<FrameRef>
    var key: Option<Key>
    var componentName: ComponentName
    var pos1: nat
    var quotingChar: byte
    var escaping: bool

    // A key is known wherever one is needed.
    ghost predicate KeyKnown()
      reads this
    {
      && (state in {VALUE, KEY_EXPRESSION_FINISH, KEY_EXPRESSION_CLOSE, KEY_SIMPLE_END} ==> key.Some?)
      && (state in {TEXT, INT, FLOAT} && componentName == VALUE_COMPONENT ==> key.Some?)
      && (state == KEY_SIMPLE_END ==> key.value.StrKey?)
      && (escaping ==> state == TEXT)
    }

    ghost predicate Valid()
      reads this
    {
      pos <= |sbins| + 1 && KeyKnown() && Linked(root, node, stack)
    }

    ghost function Component(): M.Component
      requires componentName == VALUE_COMPONENT ==> key.Some?
      reads this
    {
      if componentName == KEY_COMPONENT then M.ForKey else M.ForValue(key.value)
    }

    // The state name together with the variables that matter in it.
    ghost function Mode(): M.Mode
      requires KeyKnown()
      reads this
    {
      match state
      case SEEK_CHILD => M.SeekChild
      case VALUE => M.SeekValue(key.value)
      case TEXT => M.ReadText(Component(), pos1, quotingChar, escaping)
      case INT => M.ReadInt(Component(), pos1)
      case FLOAT => M.ReadFloat(Component(), pos1)
      case VALUE_END => M.ValueEnd
      case KEY_EXPRESSION_OPEN => M.KeyExpressionOpen
      case KEY_EXPRESSION_FINISH => M.KeyExpressionFinish(key.value)
      case KEY_EXPRESSION_CLOSE => M.KeyExpressionClose(key.value)
      case KEY_SIMPLE => M.KeySimple(pos1)
      case KEY_SIMPLE_END => M.KeySimpleEnd(key.value.s)
    }

    ghost function Abstract(): M.State
      requires Valid()
      reads this, node, Nodes(stack)
    {
      M.State(pos, comment, Mode(), node.Contents(), Contents(stack))
    }

    // The turn did what the machine does.
    ghost predicate Took(r: M.StepResult, out: Outcome)
      requires Valid()
      reads this, node, Nodes(stack)
    {
      match r
      case Continue(s) => out == Going && Abstract() == s
      case Stop => out == Broke
      case Fail => out == Failed
    }

    constructor (raw: bytes)
      ensures Valid() && sbins == raw && Abstract() == M.INITIAL
      ensures fresh(node) && stack == []
    {
      sbins := raw;
      var table := new TableNode(true);
      root, node, stack := table, table, [];
      state, comment, pos, key, escaping := SEEK_CHILD, M.NoComment, 0, None, false;
      componentName, pos1, quotingChar := KEY_COMPONENT, 0, QUOTE;
    }

    // The byte at the position; no byte at the end of the input.
    function Current(): Option<byte>
      reads this
    {
      M.Current(sbins, pos)
    }

    predicate CurrentIsSpace()
      reads this
    {
      Current().Some? && IsSpace(Current().value)
    }

    method EnterComment()
      requires Valid() && At(sbins, pos, M.DASHES)
      modifies `comment, `pos
      ensures Valid() && Abstract() == M.EnterComment(sbins, old(Abstract()))
    {
      hide Linked, Contents;
      if At(sbins, pos, M.LONG_COMMENT) {
        comment := M.Multiline;
        pos := pos + 4;
      } else {
        comment := M.Inline;
        pos := pos + 2;
      }
    }

    method InComment()
      requires Valid() && pos <= |sbins| && comment != M.NoComment
      modifies `comment, `pos
      ensures Valid() && Abstract() == M.CommentStep(sbins, old(Abstract()))
    {
      hide Linked, Contents;
      if comment == M.Multiline {
        if At(sbins, pos, M.LONG_CLOSE) {
          comment := M.NoComment;
          pos := pos + 1;
        }
      } else if Current() == Some(NEWLINE) {
        comment := M.NoComment;
      }
      pos := pos + 1;
    }

    // Starts to scan a string or number.
    method Begin(scan: StateName, name: ComponentName, start: nat, quote: byte)
      requires Valid() && pos < |sbins| && scan in {TEXT, INT, FLOAT} && !escaping
      requires name == VALUE_COMPONENT ==> key.Some?
      modifies `state, `componentName, `pos1, `quotingChar, `pos
      ensures Valid()
      ensures var s, c := old(Abstract()), if name == KEY_COMPONENT then M.ForKey else M.ForValue(key.value);
              Abstract() == s.(pos := s.pos + 1, mode :=
                match scan
                case TEXT => M.ReadText(c, start, quote, false)
                case INT => M.ReadInt(c, start)
                case _ => M.ReadFloat(c, start))
    {
      hide Linked, Contents;
      state := scan;
      componentName := name;
      pos1 := start;
      quotingChar := quote;
      pos := pos + 1;
    }

    // node_entries_append on the current node
    method StoreValue(k: Key, val: Value)
      requires Valid()
      modifies `state, `key, `escaping, node
      ensures Valid() && Abstract() == M.Store(old(Abstract()), k, val)
    {
      node.EntriesAppend(k, val);
      state := VALUE_END;
      key := None;
      escaping := false;
    }

    method SeekChild() returns (out: Outcome)
      requires Valid() && pos <= |sbins| && comment == M.NoComment && state == SEEK_CHILD
      modifies this, if stack == [] then {} else {stack[|stack| - 1].node}
      ensures Valid() && Took(M.SeekChildStep(sbins, old(Abstract())), out)
      ensures out == Broke ==> Abstract() == old(Abstract())
      ensures Nodes(stack) + {node} <= old(Nodes(stack) + {node})
    {
      hide Linked, Contents, Append, NodeTable;
      ghost var r := M.SeekChildStep(sbins, Abstract());
      var c := Current();
      if c.None? {
        return Broke;
      }
      if At(sbins, pos, M.DASHES) {
        EnterComment();
        assert Took(r, Going);
      } else if !node.isRoot && IsKeyStart(c.value) {
        state := KEY_SIMPLE;
        pos1 := pos;
        pos := pos + 1;
        assert Took(r, Going);
      } else if !node.isRoot && c.value == LBRACKET {
        state := KEY_EXPRESSION_OPEN;
        pos := pos + 1;
        assert Took(r, Going);
      } else if c.value == RBRACE {
        if |stack| == 0 {
          return Failed;
        }
        CloseTable();
        assert Took(r, Going);
      } else if !CurrentIsSpace() {
        key := Some(IntKey(node.lualen + 1));
        state := VALUE;
        assert Took(r, Going);
      } else {
        pos := pos + 1;
        assert Took(r, Going);
      }
      out := Going;
    }

    // Goes back to the table below.
    method Pop() returns (prev: FrameRef)
      requires Valid() && state == SEEK_CHILD && stack != []
      modifies `stack, `node
      ensures Valid() && prev == old(stack[|stack| - 1]) && prev.key.Some? && node == prev.node
      ensures Nodes(stack) + {node} <= old(Nodes(stack) + {node})
      ensures var s := old(Abstract()); var n := |s.stack|;
              && prev.key.value == s.stack[n - 1].key
              && Abstract() == s.(node := s.stack[n - 1].node, stack := s.stack[..n - 1])
    {
      hide Linked, Contents, Nodes;
      LinkedPop(root, node, stack);
      NodesPop(stack);
      prev := stack[|stack| - 1];
      stack := stack[..|stack| - 1];
      node := prev.node;
    }

    method CloseTable()
      requires Valid() && pos <= |sbins| && comment == M.NoComment && state == SEEK_CHILD && stack != []
      modifies this, stack[|stack| - 1].node
      ensures Valid() && Nodes(stack) + {node} <= old(Nodes(stack) + {node})
      ensures var s := old(Abstract()); var n := |s.stack|;
              Abstract() == M.State(s.pos + 1, M.NoComment, M.ValueEnd,
                                    Append(s.stack[n - 1].node, s.stack[n - 1].key, NodeTable(s.node)), s.stack[..n - 1])
    {
      hide Linked, Contents, Nodes, Append, NodeTable;
      var table := node.ToTable();
      var prev := Pop();
      StoreValue(prev.key.value, table);
      pos := pos + 1;
    }

    method SeekValue() returns (out: Outcome)
      requires Valid() && pos <= |sbins| && comment == M.NoComment && state == VALUE
      modifies this, node
      ensures Valid() && Took(M.ValueStep(sbins, old(Abstract()), old(key).value), out)
      ensures fresh(Nodes(stack) + {node} - old(Nodes(stack) + {node}))
      ensures out != Broke
    {
      hide Linked, Contents, Append, NodeTable;
      ghost var r := M.ValueStep(sbins, Abstract(), key.value);
      var c := Current();
      if c.None? {
        return Failed;
      }
      if At(sbins, pos, M.DASHES) {
        EnterComment();
        assert Took(r, Going);
      } else if c.value == QUOTE || c.value == APOSTROPHE {
        Begin(TEXT, VALUE_COMPONENT, pos + 1, c.value);
        assert Took(r, Going);
      } else if c.value == MINUS || IsDigit(c.value) {
        Begin(INT, VALUE_COMPONENT, pos, quotingChar);
        assert Took(r, Going);
      } else if c.value == DOT {
        Begin(FLOAT, VALUE_COMPONENT, pos, quotingChar);
        assert Took(r, Going);
      } else if At(sbins, pos, TRUE_TEXT) {
        StoreValue(key.value, Bool(true));
        pos := pos + 4;
        assert Took(r, Going);
      } else if At(sbins, pos, FALSE_TEXT) {
        StoreValue(key.value, Bool(false));
        pos := pos + 5;
        assert Took(r, Going);
      } else if c.value == LBRACE {
        OpenTable();
        assert Took(r, Going);
      } else {
        pos := pos + 1;
        assert Took(r, Going);
      }
      out := Going;
    }

    method OpenTable()
      requires Valid() && pos < |sbins| && comment == M.NoComment && state == VALUE
      modifies this
      ensures Valid()
      ensures fresh(Nodes(stack) + {node} - old(Nodes(stack) + {node}))
      ensures var s := old(Abstract());
              Abstract() == M.State(s.pos + 1, M.NoComment, M.SeekChild, CHILD, s.stack + [M.Frame(s.node, old(key).value)])
    {
      hide Linked, Contents;
      var child := new TableNode(false);
      LinkedPush(root, node, stack, FrameRef(node, state, key), child);
      stack := stack + [FrameRef(node, state, key)];
      state := SEEK_CHILD;
      node := child;
      pos := pos + 1;
    }

    method ReadText() returns (out: Outcome)
      requires Valid() && pos <= |sbins| && comment == M.NoComment && state == TEXT
      modifies `state, `key, `escaping, `pos, node
      ensures Valid() && Took(M.TextStep(sbins, old(Abstract())), out)
      ensures out != Broke
    {
      hide Linked, Contents, Append, NodeTable;
      ghost var r := M.TextStep(sbins, Abstract());
      var c := Current();
      if c.None? {
        return Failed;
      }
      if escaping {
        escaping := false;
        pos := pos + 1;
        assert Took(r, Going);
      } else if c.value == BACKSLASH {
        escaping := true;
        pos := pos + 1;
        assert Took(r, Going);
      } else if c.value == quotingChar {
        var data := ReplacePair(Slice(sbins, pos1, pos), BACKSLASH, NEWLINE, NEWLINE);
        data := ReplacePair(data, BACKSLASH, QUOTE, QUOTE);
        data := ReplacePair(data, BACKSLASH, BACKSLASH, BACKSLASH);
        if componentName == KEY_COMPONENT {
          key := Some(StrKey(data));
          state := KEY_EXPRESSION_FINISH;
        } else {
          StoreValue(key.value, Str(data));
        }
        pos := pos + 1;
        assert Took(r, Going);
      } else {
        pos := pos + 1;
        assert Took(r, Going);
      }
      out := Going;
    }

    method ReadInt() returns (out: Outcome)
      requires Valid() && pos <= |sbins| && comment == M.NoComment && state == INT
      modifies `state, `key, `escaping, `pos, node
      ensures Valid() && Took(M.IntStep(sbins, old(Abstract())), out)
      ensures out != Broke
    {
      hide Linked, Contents, Append, NodeTable;
      ghost var r := M.IntStep(sbins, Abstract());
      var c := Current();
      if c == Some(DOT) {
        state := FLOAT;
        pos := pos + 1;
        assert Took(r, Going);
      } else if c.None? || c.value < ZERO || c.value > NINE {
        var data := ParseInt(Slice(sbins, pos1, pos));
        if data.None? {
          return Failed;
        }
        if componentName == KEY_COMPONENT {
          key := Some(IntKey(data.value));
          state := KEY_EXPRESSION_FINISH;
        } else {
          StoreValue(key.value, Int(data.value));
        }
        assert Took(r, Going);
      } else {
        pos := pos + 1;
        assert Took(r, Going);
      }
      out := Going;
    }

    method ReadFloat() returns (out: Outcome)
      requires Valid() && pos <= |sbins| && comment == M.NoComment && state == FLOAT
      modifies `state, `key, `escaping, `pos, node
      ensures Valid() && Took(M.FloatStep(sbins, old(Abstract())), out)
      ensures out != Broke
    {
      hide Linked, Contents, Append, NodeTable;
      ghost var r := M.FloatStep(sbins, Abstract());
      var c := Current();
      if c.None? || c.value < ZERO || c.value > NINE {
        var data := ParseFloat(Slice(sbins, pos1, pos));
        if data.None? {
          return Failed;
        }
        if componentName == KEY_COMPONENT {
          key := Some(FloatKey(data.value));
          state := KEY_EXPRESSION_FINISH;
        } else {
          StoreValue(key.value, Float(data.value));
        }
        assert Took(r, Going);
      } else {
        pos := pos + 1;
        assert Took(r, Going);
      }
      out := Going;
    }

    method ValueEnd() returns (out: Outcome)
      requires Valid() && pos <= |sbins| && comment == M.NoComment && state == VALUE_END
      modifies `state, `key, `comment, `pos
      ensures Valid() && Took(M.ValueEndStep(sbins, old(Abstract())), out)
      ensures out != Broke
    {
      hide Linked, Contents, Append, NodeTable;
      ghost var r := M.ValueEndStep(sbins, Abstract());
      var c := Current();
      if c.None? {
        pos := pos + 1;
        assert Took(r, Going);
      } else if At(sbins, pos, M.DASHES) {
        EnterComment();
        assert Took(r, Going);
      } else if c.value == COMMA {
        state := SEEK_CHILD;
        pos := pos + 1;
        assert Took(r, Going);
      } else if c.value == RBRACE {
        state := SEEK_CHILD;
        assert Took(r, Going);
      } else if !CurrentIsSpace() {
        return Failed;
      } else {
        pos := pos + 1;
        assert Took(r, Going);
      }
      out := Going;
    }

    method KeyExpressionOpen() returns (out: Outcome)
      requires Valid() && pos <= |sbins| && comment == M.NoComment && state == KEY_EXPRESSION_OPEN
      modifies `state, `componentName, `pos1, `quotingChar, `comment, `pos
      ensures Valid() && Took(M.KeyExpressionOpenStep(sbins, old(Abstract())), out)
      ensures out != Broke
    {
      hide Linked, Contents, Append, NodeTable;
      ghost var r := M.KeyExpressionOpenStep(sbins, Abstract());
      var c := Current();
      if c.None? {
        return Failed;
      }
      if At(sbins, pos, M.DASHES) {
        EnterComment();
        assert Took(r, Going);
      } else if c.value == QUOTE || c.value == APOSTROPHE {
        Begin(TEXT, KEY_COMPONENT, pos + 1, c.value);
        assert Took(r, Going);
      } else if c.value == MINUS || IsDigit(c.value) {
        Begin(INT, KEY_COMPONENT, pos, quotingChar);
        assert Took(r, Going);
      } else if c.value == DOT {
        Begin(FLOAT, KEY_COMPONENT, pos, quotingChar);
        assert Took(r, Going);
      } else if At(sbins, pos, TRUE_TEXT) {
        return Failed;
      } else if At(sbins, pos, FALSE_TEXT) {
        return Failed;
      } else if c.value == LBRACE {
        return Failed;
      } else {
        pos := pos + 1;
        assert Took(r, Going);
      }
      out := Going;
    }

    method KeyExpressionFinish() returns (out: Outcome)
      requires Valid() && pos <= |sbins| && comment == M.NoComment && state == KEY_EXPRESSION_FINISH
      modifies `state, `key, `comment, `pos
      ensures Valid() && Took(M.KeyExpressionFinishStep(sbins, old(Abstract()), old(key).value), out)
      ensures out != Broke
    {
      hide Linked, Contents, Append, NodeTable;
      ghost var r := M.KeyExpressionFinishStep(sbins, Abstract(), key.value);
      var c := Current();
      if c.None? {
        return Failed;
      }
      if At(sbins, pos, M.DASHES) {
        EnterComment();
        assert Took(r, Going);
      } else if c.value == RBRACKET {
        state := KEY_EXPRESSION_CLOSE;
        pos := pos + 1;
        assert Took(r, Going);
      } else if !CurrentIsSpace() {
        return Failed;
      } else {
        pos := pos + 1;
        assert Took(r, Going);
      }
      out := Going;
    }

    method KeyExpressionClose() returns (out: Outcome)
      requires Valid() && pos <= |sbins| && comment == M.NoComment && state == KEY_EXPRESSION_CLOSE
      modifies `state, `key, `comment, `pos
      ensures Valid() && Took(M.KeyExpressionCloseStep(sbins, old(Abstract()), old(key).value), out)
      ensures out != Broke
    {
      hide Linked, Contents, Append, NodeTable;
      ghost var r := M.KeyExpressionCloseStep(sbins, Abstract(), key.value);
      var c := Current();
      if c == Some(EQUALS) {
        state := VALUE;
        pos := pos + 1;
        assert Took(r, Going);
      } else if At(sbins, pos, M.DASHES) {
        EnterComment();
        assert Took(r, Going);
      } else if !CurrentIsSpace() {
        return Failed;
      } else {
        pos := pos + 1;
        assert Took(r, Going);
      }
      out := Going;
    }

    method KeySimple() returns (out: Outcome)
      requires Valid() && pos <= |sbins| && comment == M.NoComment && state == KEY_SIMPLE
      modifies `state, `key, `comment, `pos
      ensures Valid() && Took(M.KeySimpleStep(sbins, old(Abstract()), old(pos1)), out)
      ensures out != Broke
    {
      hide Linked, Contents, Append, NodeTable;
      ghost var r := M.KeySimpleStep(sbins, Abstract(), pos1);
      var c := Current();
      if c.None? {
        return Failed;
      }
      if !IsKeyByte(c.value) {
        key := Some(StrKey(Slice(sbins, pos1, pos)));
        state := KEY_SIMPLE_END;
        assert Took(r, Going);
      } else {
        pos := pos + 1;
        assert Took(r, Going);
      }
      out := Going;
    }

    method KeySimpleEnd() returns (out: Outcome)
      requires Valid() && pos <= |sbins| && comment == M.NoComment && state == KEY_SIMPLE_END
      modifies `state, `key, `escaping, `comment, `pos, node
      ensures Valid() && Took(M.KeySimpleEndStep(sbins, old(Abstract()), old(key).value.s), out)
      ensures out != Broke
    {
      hide Linked, Contents, Append, NodeTable;
      ghost var r := M.KeySimpleEndStep(sbins, Abstract(), key.value.s);
      var c := Current();
      if CurrentIsSpace() {
        pos := pos + 1;
        assert Took(r, Going);
      } else if At(sbins, pos, M.DASHES) {
        EnterComment();
        assert Took(r, Going);
      } else if c == Some(EQUALS) {
        state := VALUE;
        pos := pos + 1;
        assert Took(r, Going);
      } else if c == Some(COMMA) || c == Some(RBRACE) {
        if key == Some(StrKey(TRUE_TEXT)) {
          StoreValue(IntKey(node.lualen + 1), Bool(true));
          assert Took(r, Going);
        } else if key == Some(StrKey(FALSE_TEXT)) {
          StoreValue(IntKey(node.lualen + 1), Bool(false));
          assert Took(r, Going);
        } else {
          return Failed;
        }
      } else {
        pos := pos + 1;
        assert Took(r, Going);
      }
      out := Going;
    }

    // One turn of the loop.
    method Turn() returns (out: Outcome)
      requires Valid() && pos <= |sbins|
      modifies this, node, Nodes(stack)
      ensures Valid() && Took(M.Step(sbins, old(Abstract())), out)
      ensures out == Broke ==> Abstract() == old(Abstract())
      ensures fresh(Nodes(stack) + {node} - old(Nodes(stack) + {node}))
    {
      hide Linked, Contents, M.CommentStep, M.SeekChildStep, M.ValueStep, M.TextStep, M.IntStep, M.FloatStep, M.ValueEndStep,
        M.KeyExpressionOpenStep, M.KeyExpressionFinishStep, M.KeyExpressionCloseStep, M.KeySimpleStep, M.KeySimpleEndStep;
      if comment != M.NoComment {
        InComment();
        return Going;
      }
      match state
      case SEEK_CHILD =>
        assert |stack| > 0 ==> stack[|stack| - 1].node in Nodes(stack);
        out := SeekChild();
      case VALUE => out := SeekValue();
      case TEXT => out := ReadText();
      case INT => out := ReadInt();
      case FLOAT => out := ReadFloat();
      case VALUE_END => out := ValueEnd();
      case KEY_EXPRESSION_OPEN => out := KeyExpressionOpen();
      case KEY_EXPRESSION_FINISH => out := KeyExpressionFinish();
      case KEY_EXPRESSION_CLOSE => out := KeyExpressionClose();
      case KEY_SIMPLE => out := KeySimple();
      case KEY_SIMPLE_END => out := KeySimpleEnd();
    }
  }

  // The parser computes what the machine does, on every input; the loop ends
  // although several states hand a byte on without reading it.
  method Unserialize(raw: bytes) returns (r: Result<Value>)
    ensures r == M.Parse(raw)
  {
    hide M.Step, Contents, NodeValid;
    M.InitialValid();
    var p := new Parser(raw);
    var out := Going;
    while out == Going && p.pos <= |raw|
      invariant p.Valid() && p.sbins == raw
      invariant fresh(p) && fresh(Nodes(p.stack) + {p.node})
      invariant out != Failed ==> M.StateValid(p.Abstract())
      invariant out == Going ==> M.Run(raw, p.Abstract()) == M.Parse(raw)
      invariant out == Broke ==> M.Finish(p.Abstract()) == M.Parse(raw)
      invariant out == Failed ==> M.Parse(raw) == Err
      decreases if out == Going then 1 else 0, |raw| + 1 - p.pos, M.Rank(p.Mode())
    {
      M.StepValid(raw, p.Abstract());
      out := p.Turn();
    }
    if out == Failed || |p.stack| != 0 || p.root.lualen == 0 {
      return Err;
    }
    var res: seq<Value> := [];
    for i := 0 to |p.root.entries|
      invariant res == Vals(p.root.entries)[..i]
    {
      res := res + [p.root.entries[i].val];
    }
    M.ValidNonEmpty(p.node.Contents());
    return Ok(res[0]);
  }
}
