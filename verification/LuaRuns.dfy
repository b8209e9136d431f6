// Runs of the parser's machine over the tokens of a text, wherever they stand in the
// input, and over the blanks and comments between them.
module LuaRuns {
  import opened Wrappers
  import opened Bytes
  import opened LuaValues
  import opened LuaText
  import opened LuaNodes
  import M = LuaMachine

  function St(p: nat, mode: M.Mode, node: Node, stack: seq<M.Frame>): M.State {
    M.State(p, M.NoComment, mode, node, stack)
  }

  // ---- blanks and comments ----

  datatype Piece = Blank(c: byte) | Line(x: bytes) | Long(x: bytes)

  type Gap = seq<Piece>

  // A blank; a comment to the end of its line that does not open as a long one; or a
  // long comment, whose closing brackets are the first in it.
  predicate IsPiece(p: Piece) {
    match p
    case Blank(c) => c == 0x20 || c == 0x0D || c == 0x0A || c == 0x09
    case Line(x) => 0x0A !in x && !([0x5B, 0x5B] <= x)
    case Long(x) => forall i :: 0 <= i < |x| ==> !(x[i] == 0x5D && (x + [0x5D])[i + 1] == 0x5D)
  }

  function PieceText(p: Piece): (t: bytes)
    ensures t != []
  {
    match p
    case Blank(c) => [c]
    case Line(x) => [0x2D, 0x2D] + x + [0x0A]
    case Long(x) => [0x2D, 0x2D, 0x5B, 0x5B] + x + [0x5D, 0x5D]
  }

  predicate IsGap(g: Gap) {
    forall i :: 0 <= i < |g| ==> IsPiece(g[i])
  }

  function GapText(g: Gap): bytes {
    if g == [] then [] else PieceText(g[0]) + GapText(g[1..])
  }

  // The states between two tokens.
  predicate TakesGaps(m: M.Mode) {
    || m.SeekChild? || m.SeekValue? || m.ValueEnd?
    || m.KeyExpressionOpen? || m.KeyExpressionFinish? || m.KeyExpressionClose? || m.KeySimpleEnd?
  }

  lemma NoComment(b: bytes, p: nat)
    requires p < |b| && (b[p] != MINUS || p + 1 >= |b| || b[p + 1] != MINUS)
    ensures !M.OpensComment(b, p)
  {
    if M.OpensComment(b, p) {
      AtIndex(b, p, M.DASHES, 0);
      AtIndex(b, p, M.DASHES, 1);
      assert false;
    }
  }

  lemma NoTruth(b: bytes, p: nat)
    requires p < |b| && !IsKeyStart(b[p])
    ensures !At(b, p, TRUE_TEXT) && !At(b, p, FALSE_TEXT)
  {
    if At(b, p, TRUE_TEXT) {
      AtIndex(b, p, TRUE_TEXT, 0);
    }
    if At(b, p, FALSE_TEXT) {
      AtIndex(b, p, FALSE_TEXT, 0);
    }
  }

  lemma RunBlank(b: bytes, p: nat, m: M.Mode, node: Node, stack: seq<M.Frame>)
    requires p < |b| && IsSpace(b[p]) && TakesGaps(m)
    ensures M.Run(b, St(p, m, node, stack)) == M.Run(b, St(p + 1, m, node, stack))
  {
    hide M.Run;
    NoComment(b, p);
    NoTruth(b, p);
    M.RunStep(b, St(p, m, node, stack), St(p + 1, m, node, stack));
  }

  lemma EnterComment(b: bytes, p: nat, m: M.Mode, node: Node, stack: seq<M.Frame>)
    requires At(b, p, M.DASHES) && TakesGaps(m)
    ensures M.Run(b, St(p, m, node, stack)) == M.Run(b, M.EnterComment(b, St(p, m, node, stack)))
  {
    hide M.Run, M.EnterComment;
    AtIndex(b, p, M.DASHES, 0);
    M.RunStep(b, St(p, m, node, stack), M.EnterComment(b, St(p, m, node, stack)));
  }

  lemma {:induction false} RunInline(b: bytes, p: nat, x: bytes, m: M.Mode, node: Node, stack: seq<M.Frame>)
    requires At(b, p, x + [0x0A]) && 0x0A !in x
    ensures M.Run(b, M.State(p, M.Inline, m, node, stack)) == M.Run(b, St(p + |x| + 1, m, node, stack))
    decreases |x|
  {
    hide M.Run;
    var t := x + [0x0A];
    AtIndex(b, p, t, 0);
    var s := M.State(p, M.Inline, m, node, stack);
    if x == [] {
      M.RunStep(b, s, St(p + 1, m, node, stack));
    } else {
      assert t == x[..1] + (x[1..] + [0x0A]);
      AtConcat(b, p, x[..1], x[1..] + [0x0A]);
      M.RunStep(b, s, s.(pos := p + 1));
      RunInline(b, p + 1, x[1..], m, node, stack);
    }
  }

  lemma {:induction false} RunMultiline(b: bytes, p: nat, x: bytes, m: M.Mode, node: Node, stack: seq<M.Frame>)
    requires At(b, p, x + [0x5D, 0x5D]) && IsPiece(Long(x))
    ensures M.Run(b, M.State(p, M.Multiline, m, node, stack)) == M.Run(b, St(p + |x| + 2, m, node, stack))
    decreases |x|
  {
    hide M.Run;
    var s := M.State(p, M.Multiline, m, node, stack);
    if x == [] {
      assert x + [0x5D, 0x5D] == M.LONG_CLOSE;
      M.RunStep(b, s, St(p + 2, m, node, stack));
    } else {
      var rest := x[1..] + [0x5D, 0x5D];
      assert x + [0x5D, 0x5D] == x[..1] + rest;
      AtConcat(b, p, x[..1], rest);
      AtIndex(b, p, x[..1], 0);
      AtIndex(b, p + 1, rest, 0);
      assert rest[0] == (x + [0x5D])[1];
      assert b[p..p + 2] == [b[p], b[p + 1]];
      M.RunStep(b, s, s.(pos := p + 1));
      forall i | 0 <= i < |x[1..]| ensures !(x[1..][i] == 0x5D && (x[1..] + [0x5D])[i + 1] == 0x5D) {
        assert x[i + 1] == x[1..][i] && (x + [0x5D])[i + 2] == (x[1..] + [0x5D])[i + 1];
      }
      RunMultiline(b, p + 1, x[1..], m, node, stack);
    }
  }

  lemma LineIsInline(b: bytes, p: nat, x: bytes)
    requires At(b, p, PieceText(Line(x))) && IsPiece(Line(x))
    ensures At(b, p, M.DASHES) && At(b, p + 2, x + [0x0A]) && !At(b, p, M.LONG_COMMENT)
  {
    assert PieceText(Line(x)) == M.DASHES + (x + [0x0A]);
    AtConcat(b, p, M.DASHES, x + [0x0A]);
    AtIndex(b, p + 2, x + [0x0A], 0);
    if |x| > 0 {
      AtIndex(b, p + 2, x + [0x0A], 1);
    }
    if At(b, p, M.LONG_COMMENT) {
      AtIndex(b, p, M.LONG_COMMENT, 2);
      AtIndex(b, p, M.LONG_COMMENT, 3);
    }
  }

  lemma LongIsMultiline(b: bytes, p: nat, x: bytes)
    requires At(b, p, PieceText(Long(x)))
    ensures At(b, p, M.DASHES) && At(b, p, M.LONG_COMMENT) && At(b, p + 4, x + [0x5D, 0x5D])
  {
    assert PieceText(Long(x)) == M.LONG_COMMENT + (x + [0x5D, 0x5D]);
    AtConcat(b, p, M.LONG_COMMENT, x + [0x5D, 0x5D]);
    assert M.LONG_COMMENT == M.DASHES + [LBRACKET, LBRACKET];
    AtConcat(b, p, M.DASHES, [LBRACKET, LBRACKET]);
  }

  lemma RunPiece(b: bytes, p: nat, c: Piece, m: M.Mode, node: Node, stack: seq<M.Frame>)
    requires IsPiece(c) && At(b, p, PieceText(c)) && TakesGaps(m)
    ensures M.Run(b, St(p, m, node, stack)) == M.Run(b, St(p + |PieceText(c)|, m, node, stack))
  {
    hide M.Run, M.Step, At;
    match c {
      case Blank(_) =>
        AtIndex(b, p, PieceText(c), 0);
        RunBlank(b, p, m, node, stack);
      case Line(x) =>
        LineIsInline(b, p, x);
        EnterComment(b, p, m, node, stack);
        assert M.EnterComment(b, St(p, m, node, stack)) == M.State(p + 2, M.Inline, m, node, stack);
        RunInline(b, p + 2, x, m, node, stack);
      case Long(x) =>
        LongIsMultiline(b, p, x);
        EnterComment(b, p, m, node, stack);
        assert M.EnterComment(b, St(p, m, node, stack)) == M.State(p + 4, M.Multiline, m, node, stack);
        RunMultiline(b, p + 4, x, m, node, stack);
    }
  }

  // Between two tokens, blanks and comments change nothing: the run goes on behind
  // them as it would have without them.
  lemma {:induction false} RunGap(b: bytes, p: nat, g: Gap, m: M.Mode, node: Node, stack: seq<M.Frame>)
    requires IsGap(g) && At(b, p, GapText(g)) && TakesGaps(m)
    ensures M.Run(b, St(p, m, node, stack)) == M.Run(b, St(p + |GapText(g)|, m, node, stack))
    decreases |g|
  {
    hide M.Run, PieceText, IsPiece;
    if g != [] {
      AtConcat(b, p, PieceText(g[0]), GapText(g[1..]));
      RunPiece(b, p, g[0], m, node, stack);
      RunGap(b, p + |PieceText(g[0])|, g[1..], m, node, stack);
    }
  }

  // Where a value, a key in brackets or an assignment is sought, a byte that starts
  // none of what is sought is stepped over.
  predicate IsJunk(b: bytes, p: nat, m: M.Mode) {
    && p < |b| && !(b[p] == 0x2D && p + 1 < |b| && b[p + 1] == 0x2D)
    && if m.KeySimpleEnd? then b[p] != 0x3D && b[p] != 0x2C && b[p] != 0x7D
       else
         && (m.SeekValue? || m.KeyExpressionOpen?)
         && !(0x30 <= b[p] <= 0x39) && b[p] != 0x22 && b[p] != 0x27 && b[p] != 0x2D && b[p] != 0x2E && b[p] != 0x7B
         && !At(b, p, [0x74, 0x72, 0x75, 0x65]) && !At(b, p, [0x66, 0x61, 0x6C, 0x73, 0x65])
  }

  lemma RunJunk(b: bytes, p: nat, m: M.Mode, node: Node, stack: seq<M.Frame>)
    requires IsJunk(b, p, m)
    ensures M.Run(b, St(p, m, node, stack)) == M.Run(b, St(p + 1, m, node, stack))
  {
    hide M.Run;
    NoComment(b, p);
    M.RunStep(b, St(p, m, node, stack), St(p + 1, m, node, stack));
  }

  // ---- within a number, a name or a string ----

  lemma {:induction false} RunDigits(b: bytes, p: nat, ds: bytes, c: M.Component, start: nat, node: Node, stack: seq<M.Frame>)
    requires At(b, p, ds) && AllDigits(ds)
    ensures M.Run(b, St(p, M.ReadInt(c, start), node, stack)) == M.Run(b, St(p + |ds|, M.ReadInt(c, start), node, stack))
    ensures M.Run(b, St(p, M.ReadFloat(c, start), node, stack)) == M.Run(b, St(p + |ds|, M.ReadFloat(c, start), node, stack))
    decreases |ds|
  {
    hide M.Run;
    if ds != [] {
      assert ds == ds[..1] + ds[1..];
      AtConcat(b, p, ds[..1], ds[1..]);
      AtIndex(b, p, ds, 0);
      M.RunStep(b, St(p, M.ReadInt(c, start), node, stack), St(p + 1, M.ReadInt(c, start), node, stack));
      M.RunStep(b, St(p, M.ReadFloat(c, start), node, stack), St(p + 1, M.ReadFloat(c, start), node, stack));
      RunDigits(b, p + 1, ds[1..], c, start, node, stack);
    }
  }

  lemma {:induction false} RunName(b: bytes, p: nat, t: bytes, start: nat, node: Node, stack: seq<M.Frame>)
    requires At(b, p, t) && forall i :: 0 <= i < |t| ==> IsKeyByte(t[i])
    ensures M.Run(b, St(p, M.KeySimple(start), node, stack)) == M.Run(b, St(p + |t|, M.KeySimple(start), node, stack))
    decreases |t|
  {
    hide M.Run;
    if t != [] {
      assert t == t[..1] + t[1..];
      AtConcat(b, p, t[..1], t[1..]);
      AtIndex(b, p, t, 0);
      M.RunStep(b, St(p, M.KeySimple(start), node, stack), St(p + 1, M.KeySimple(start), node, stack));
      RunName(b, p + 1, t[1..], start, node, stack);
    }
  }

  // The string without its quotes: every backslash, quote and newline behind a
  // backslash.
  function Inside(s: bytes): bytes {
    Marked(s, {0x5C, 0x22, 0x0A})
  }

  // A string can stand between quotes, and between apostrophes if it has none.
  predicate CanQuote(quote: byte, s: bytes) {
    quote == 0x22 || (quote == 0x27 && 0x27 !in s)
  }

  // The escaping flag carries the scanner across escaped text: it meets no
  // unescaped quote before the end.
  lemma {:induction false} RunMarked(b: bytes, p: nat, s: bytes, q: byte, c: M.Component, start: nat, node: Node, stack: seq<M.Frame>)
    requires At(b, p, Inside(s)) && CanQuote(q, s)
    ensures M.Run(b, St(p, M.ReadText(c, start, q, false), node, stack))
         == M.Run(b, St(p + |Inside(s)|, M.ReadText(c, start, q, false), node, stack))
    decreases |s|
  {
    hide M.Run;
    if s != [] {
      var special := {0x5C, 0x22, 0x0A};
      var head: bytes := if s[0] in special then [BACKSLASH, s[0]] else [s[0]];
      var s0 := St(p, M.ReadText(c, start, q, false), node, stack);
      AtConcat(b, p, head, Inside(s[1..]));
      AtIndex(b, p, head, 0);
      if s[0] in special {
        AtIndex(b, p, head, 1);
        var s1 := St(p + 1, M.ReadText(c, start, q, true), node, stack);
        M.RunStep(b, s0, s1);
        M.RunStep(b, s1, St(p + 2, M.ReadText(c, start, q, false), node, stack));
      } else {
        M.RunStep(b, s0, St(p + 1, M.ReadText(c, start, q, false), node, stack));
      }
      RunMarked(b, p + |head|, s[1..], q, c, start, node, stack);
    }
  }

  // ---- literals, as values or as keys ----

  datatype Literal =
    | Truth(b: bool)
    | Integer(negative: bool, digits: bytes)
    | Decimal(negative: bool, whole: bytes, fraction: bytes)
    | Quoted(quote: byte, s: bytes)

  predicate IsLiteral(l: Literal) {
    match l
    case Truth(_) => true
    case Integer(_, digits) => digits != [] && AllDigits(digits)
    case Decimal(_, whole, fraction) => whole + fraction != [] && AllDigits(whole) && AllDigits(fraction)
    case Quoted(quote, s) => CanQuote(quote, s)
  }

  function Sign(negative: bool): bytes {
    if negative then [0x2D] else []
  }

  function LiteralText(l: Literal): bytes {
    match l
    case Truth(b) => if b then [0x74, 0x72, 0x75, 0x65] else [0x66, 0x61, 0x6C, 0x73, 0x65]
    case Integer(negative, digits) => Sign(negative) + digits
    case Decimal(negative, whole, fraction) => Sign(negative) + whole + [0x2E] + fraction
    case Quoted(quote, s) => [quote] + Inside(s) + [quote]
  }

  function SignedInt(negative: bool, n: nat): int {
    if negative then -(n as int) else n
  }

  function SignedReal(negative: bool, x: real): real {
    if negative then -x else x
  }

  function LiteralValue(l: Literal): Value
    requires IsLiteral(l)
  {
    match l
    case Truth(b) => Bool(b)
    case Integer(negative, digits) => Int(SignedInt(negative, NatOf(digits)))
    case Decimal(negative, whole, fraction) =>
      Float(SignedReal(negative, Point(whole, fraction)))
    case Quoted(_, s) => Str(s)
  }

  // A key that is not a bool.
  function LiteralKey(l: Literal): Key
    requires IsLiteral(l) && !l.Truth?
  {
    match LiteralValue(l)
    case Int(n) => IntKey(n)
    case Float(r) => FloatKey(r)
    case Str(s) => StrKey(s)
  }

  // A number with so many digits put behind it.
  function Shifted(x: real, digits: nat): real {
    if digits == 0 then x else 10.0 * Shifted(x, digits - 1)
  }

  lemma {:induction false} ShiftedIs(x: real, digits: nat)
    ensures Shifted(x, digits) == x * Scale(digits)
  {
    if digits > 0 {
      ShiftedIs(x, digits - 1);
      Tenfold(x, Scale(digits - 1));
    }
  }

  lemma Tenfold(x: real, scale: real)
    ensures 10.0 * (x * scale) == x * (10.0 * scale)
  {
  }

  lemma {:induction false} NatOfConcat(a: bytes, b: bytes)
    requires AllDigits(a) && AllDigits(b)
    ensures AllDigits(a + b)
    ensures NatOf(a + b) as real == Shifted(NatOf(a) as real, |b|) + NatOf(b) as real
  {
    if b == [] {
      assert a + b == a;
    } else {
      var init := b[..|b| - 1];
      assert (a + b)[..|a + b| - 1] == a + init;
      NatOfConcat(a, init);
    }
  }

  lemma {:induction false} DotBehind(whole: bytes, rest: bytes)
    requires AllDigits(whole)
    ensures DotIndex(whole + [DOT] + rest) == |whole|
  {
    var s := whole + [DOT] + rest;
    if whole != [] {
      assert s[1..] == whole[1..] + [DOT] + rest;
      DotBehind(whole[1..], rest);
    }
  }

  lemma ParseDecimal(l: Literal)
    requires IsLiteral(l) && l.Decimal?
    ensures ParseFloat(LiteralText(l)) == Some(LiteralValue(l).r)
  {
    hide ParseFloat, NatOf, Scale, DotIndex, AllDigits;
    var w, f := l.whole, l.fraction;
    var body := w + [DOT] + f;
    WithoutDot(w, f);
    ParseBody(w, f);
    ParseSigned(l.negative, body);
    assert LiteralText(l) == Sign(l.negative) + body;
  }

  // The real that the digits are with the point behind the first of them.
  function Point(w: bytes, f: bytes): real
    requires AllDigits(w) && AllDigits(f)
  {
    NatOf(w) as real + NatOf(f) as real / Scale(|f|)
  }

  lemma PointIs(w: bytes, f: bytes)
    requires AllDigits(w) && AllDigits(f)
    ensures AllDigits(w + f) && NatOf(w + f) as real / Scale(|f|) == Point(w, f)
  {
    hide AllDigits, NatOf, Scale;
    NatOfConcat(w, f);
    ShiftedIs(NatOf(w) as real, |f|);
    Divide(NatOf(w) as real, NatOf(f) as real, Scale(|f|), NatOf(w + f) as real);
  }

  lemma ParseBody(w: bytes, f: bytes)
    requires w + f != [] && AllDigits(w) && AllDigits(f)
    ensures ParseFloat(w + [DOT] + f) == Some(Point(w, f))
  {
    hide NatOf, Scale, DotIndex, ParseFloat, AllDigits, Point;
    PointIs(w, f);
    WithoutDot(w, f);
    ParseUnsigned(w + [DOT] + f, w + f, |f|);
  }

  lemma WithoutDot(w: bytes, f: bytes)
    requires AllDigits(w)
    ensures var body := w + [DOT] + f;
      && body[0] != MINUS && DotIndex(body) == |w| < |body| && body[..|w|] + body[|w| + 1..] == w + f
      && |body| - |w| - 1 == |f|
  {
    hide DotIndex;
    DotBehind(w, f);
  }

  lemma ParseUnsigned(body: bytes, ds: bytes, digits: nat)
    requires body != [] && body[0] != MINUS && DotIndex(body) < |body|
    requires ds == body[..DotIndex(body)] + body[DotIndex(body) + 1..] && digits == |body| - DotIndex(body) - 1
    requires ds != [] && AllDigits(ds)
    ensures ParseFloat(body) == Some(NatOf(ds) as real / Scale(digits))
  {
    hide NatOf, Scale, DotIndex, AllDigits;
  }

  lemma ParseSigned(negative: bool, body: bytes)
    requires body != [] && body[0] != MINUS && ParseFloat(body).Some?
    ensures ParseFloat(Sign(negative) + body) == Some(SignedReal(negative, ParseFloat(body).value))
  {
    hide NatOf, Scale, DotIndex, AllDigits;
    if negative {
      assert (Sign(negative) + body)[1..] == body;
    } else {
      assert Sign(negative) + body == body;
    }
  }

  lemma Divide(a: real, b: real, d: real, n: real)
    requires d > 0.0 && n == a * d + b
    ensures n / d == a + b / d
  {
  }

  lemma ParseInteger(l: Literal)
    requires IsLiteral(l) && l.Integer?
    ensures ParseInt(LiteralText(l)) == Some(LiteralValue(l).n)
  {
    if l.negative {
      assert LiteralText(l)[1..] == l.digits;
    } else {
      assert LiteralText(l) == l.digits;
    }
  }

  // The state in which a component is looked for, and the one it leads to.
  function Before(c: M.Component): M.Mode {
    match c
    case ForKey => M.KeyExpressionOpen
    case ForValue(k) => M.SeekValue(k)
  }

  // A bool is no key.
  predicate Admits(c: M.Component, l: Literal) {
    IsLiteral(l) && (c.ForKey? ==> !l.Truth?)
  }

  function After(c: M.Component, l: Literal): M.Mode
    requires Admits(c, l)
  {
    match c
    case ForKey => M.KeyExpressionFinish(LiteralKey(l))
    case ForValue(_) => M.ValueEnd
  }

  function NodeAfter(c: M.Component, l: Literal, node: Node): Node
    requires IsLiteral(l)
  {
    match c
    case ForKey => node
    case ForValue(k) => Append(node, k, LiteralValue(l))
  }

  lemma OpenString(b: bytes, p: nat, q: byte, c: M.Component, node: Node, stack: seq<M.Frame>)
    requires p < |b| && b[p] == q && (q == QUOTE || q == APOSTROPHE)
    ensures M.Run(b, St(p, Before(c), node, stack))
         == M.Run(b, St(p + 1, M.ReadText(c, p + 1, q, false), node, stack))
  {
    hide M.Run;
    NoComment(b, p);
    M.RunStep(b, St(p, Before(c), node, stack), St(p + 1, M.ReadText(c, p + 1, q, false), node, stack));
  }

  lemma CloseString(b: bytes, start: nat, p: nat, l: Literal, c: M.Component, node: Node, stack: seq<M.Frame>)
    requires IsLiteral(l) && l.Quoted?
    requires start <= p < |b| && b[p] == l.quote && b[start..p] == Inside(l.s)
    ensures M.Run(b, St(p, M.ReadText(c, start, l.quote, false), node, stack))
         == M.Run(b, St(p + 1, After(c, l), NodeAfter(c, l, node), stack))
  {
    hide M.Run, Escape, Unescape, Inside;
    InsideBack(l.s);
    M.RunStep(b, St(p, M.ReadText(c, start, l.quote, false), node, stack),
              St(p + 1, After(c, l), NodeAfter(c, l, node), stack));
  }

  lemma InsideBack(s: bytes)
    ensures Unescape(Inside(s)) == s
  {
    EscapeIsMarked(s);
    UnescapeEscape(s);
  }

  // From its opening quote the scanner stops at the closing one and yields the string.
  lemma StringLayout(b: bytes, p: nat, l: Literal)
    requires l.Quoted? && At(b, p, LiteralText(l))
    ensures var q := p + 1 + |Inside(l.s)|;
      && p < q < |b| && b[p] == l.quote == b[q] && At(b, p + 1, Inside(l.s)) && b[p + 1..q] == Inside(l.s)
      && q + 1 == p + |LiteralText(l)|
  {
    hide Inside, At;
    var q, e := l.quote, Inside(l.s);
    AtConcat(b, p, [q] + e, [q]);
    AtConcat(b, p, [q], e);
    AtIndex(b, p, [q], 0);
    AtIndex(b, p + 1 + |e|, [q], 0);
    AtSlice(b, p + 1, e);
  }

  lemma RunString(b: bytes, p: nat, l: Literal, c: M.Component, node: Node, stack: seq<M.Frame>)
    requires IsLiteral(l) && l.Quoted? && At(b, p, LiteralText(l))
    ensures M.Run(b, St(p, Before(c), node, stack))
         == M.Run(b, St(p + |LiteralText(l)|, After(c, l), NodeAfter(c, l, node), stack))
  {
    hide M.Run, M.Step, Inside, At, LiteralText, After, NodeAfter;
    StringLayout(b, p, l);
    OpenString(b, p, l.quote, c, node, stack);
    RunMarked(b, p + 1, l.s, l.quote, c, p + 1, node, stack);
    CloseString(b, p + 1, p + 1 + |Inside(l.s)|, l, c, node, stack);
  }

  predicate EndsNumber(b: bytes, p: nat) {
    p < |b| ==> !IsDigit(b[p]) && b[p] != DOT
  }

  lemma OpenDigit(b: bytes, p: nat, c: M.Component, node: Node, stack: seq<M.Frame>)
    requires p < |b| && (IsDigit(b[p]) || (b[p] == MINUS && p + 1 < |b| && b[p + 1] != MINUS))
    ensures M.Run(b, St(p, Before(c), node, stack)) == M.Run(b, St(p + 1, M.ReadInt(c, p), node, stack))
  {
    hide M.Run;
    NoComment(b, p);
    M.RunStep(b, St(p, Before(c), node, stack), St(p + 1, M.ReadInt(c, p), node, stack));
  }

  lemma HeadAndTail(t: bytes, negative: bool, digits: bytes)
    requires AllDigits(digits) && t == Sign(negative) + digits && t != []
    ensures AllDigits(t[1..]) && (IsDigit(t[0]) || (t[0] == MINUS && t[1..] == digits)) && t == t[..1] + t[1..]
  {
    if negative {
      assert t[1..] == digits;
    } else {
      assert t == digits;
    }
  }

  // Over the sign and the digits in front, if there are any.
  lemma OpenNumber(b: bytes, p: nat, t: bytes, negative: bool, digits: bytes, c: M.Component, node: Node, stack: seq<M.Frame>)
    requires AllDigits(digits) && t == Sign(negative) + digits && t != [] && At(b, p, t)
    requires digits == [] ==> p + 1 < |b| && b[p + 1] != MINUS
    ensures M.Run(b, St(p, Before(c), node, stack)) == M.Run(b, St(p + |t|, M.ReadInt(c, p), node, stack))
  {
    hide M.Run, M.Step, AllDigits, At;
    HeadAndTail(t, negative, digits);
    AtConcat(b, p, t[..1], t[1..]);
    AtIndex(b, p, t, 0);
    if t[1..] != [] {
      AtIndex(b, p + 1, t[1..], 0);
      FirstIsDigit(t[1..]);
    }
    OpenDigit(b, p, c, node, stack);
    RunDigits(b, p + 1, t[1..], c, p, node, stack);
  }

  lemma FirstIsDigit(ds: bytes)
    requires AllDigits(ds) && ds != []
    ensures IsDigit(ds[0]) && ds[0] != MINUS
  {
  }

  lemma CloseInt(b: bytes, start: nat, q: nat, l: Literal, c: M.Component, node: Node, stack: seq<M.Frame>)
    requires IsLiteral(l) && l.Integer?
    requires start <= q <= |b| && b[start..q] == LiteralText(l) && EndsNumber(b, q)
    ensures M.Run(b, St(q, M.ReadInt(c, start), node, stack))
         == M.Run(b, St(q, After(c, l), NodeAfter(c, l, node), stack))
  {
    hide M.Run, M.Step, LiteralText, ParseInt, Append;
    ParseInteger(l);
    var s := St(q, M.ReadInt(c, start), node, stack);
    assert Slice(b, start, q) == LiteralText(l);
    M.StepIsInt(b, s);
    M.RunStep(b, s, St(q, After(c, l), NodeAfter(c, l, node), stack));
  }

  // From the first byte of an integer the machine yields it and stops right behind.
  lemma RunInt(b: bytes, p: nat, l: Literal, c: M.Component, node: Node, stack: seq<M.Frame>)
    requires IsLiteral(l) && l.Integer? && At(b, p, LiteralText(l)) && EndsNumber(b, p + |LiteralText(l)|)
    ensures M.Run(b, St(p, Before(c), node, stack))
         == M.Run(b, St(p + |LiteralText(l)|, After(c, l), NodeAfter(c, l, node), stack))
  {
    hide M.Run;
    OpenNumber(b, p, LiteralText(l), l.negative, l.digits, c, node, stack);
    CloseInt(b, p, p + |LiteralText(l)|, l, c, node, stack);
  }

  lemma CloseFloat(b: bytes, start: nat, q: nat, l: Literal, c: M.Component, node: Node, stack: seq<M.Frame>)
    requires IsLiteral(l) && l.Decimal?
    requires start <= q <= |b| && b[start..q] == LiteralText(l) && (q < |b| ==> !IsDigit(b[q]))
    ensures M.Run(b, St(q, M.ReadFloat(c, start), node, stack))
         == M.Run(b, St(q, After(c, l), NodeAfter(c, l, node), stack))
  {
    hide M.Run, M.Step, LiteralText, ParseFloat, Append;
    ParseDecimal(l);
    var s := St(q, M.ReadFloat(c, start), node, stack);
    assert Slice(b, start, q) == LiteralText(l);
    M.StepIsFloat(b, s);
    M.RunStep(b, s, St(q, After(c, l), NodeAfter(c, l, node), stack));
  }

  lemma ReadDot(b: bytes, p: nat, start: nat, c: M.Component, node: Node, stack: seq<M.Frame>)
    requires p < |b| && b[p] == DOT
    ensures M.Run(b, St(p, M.ReadInt(c, start), node, stack)) == M.Run(b, St(p + 1, M.ReadFloat(c, start), node, stack))
    ensures M.Run(b, St(p, Before(c), node, stack)) == M.Run(b, St(p + 1, M.ReadFloat(c, p), node, stack))
  {
    hide M.Run;
    NoComment(b, p);
    M.RunStep(b, St(p, M.ReadInt(c, start), node, stack), St(p + 1, M.ReadFloat(c, start), node, stack));
    M.RunStep(b, St(p, Before(c), node, stack), St(p + 1, M.ReadFloat(c, p), node, stack));
  }

  lemma FloatLayout(b: bytes, p: nat, l: Literal)
    requires l.Decimal? && At(b, p, LiteralText(l))
    ensures var head := Sign(l.negative) + l.whole; var dot := p + |head|; var q := dot + 1 + |l.fraction|;
      && At(b, p, head) && dot < |b| && b[dot] == DOT && At(b, dot + 1, l.fraction)
      && q == p + |LiteralText(l)| && q <= |b| && b[p..q] == LiteralText(l)
  {
    hide Sign, At;
    var head := Sign(l.negative) + l.whole;
    AtConcat(b, p, head + [DOT], l.fraction);
    AtConcat(b, p, head, [DOT]);
    AtIndex(b, p + |head|, [DOT], 0);
    AtSlice(b, p, LiteralText(l));
  }

  // A number with a point, which may come first or last.
  lemma RunFloat(b: bytes, p: nat, l: Literal, c: M.Component, node: Node, stack: seq<M.Frame>)
    requires IsLiteral(l) && l.Decimal? && At(b, p, LiteralText(l))
    requires var q := p + |LiteralText(l)|; q < |b| ==> !IsDigit(b[q])
    ensures M.Run(b, St(p, Before(c), node, stack))
         == M.Run(b, St(p + |LiteralText(l)|, After(c, l), NodeAfter(c, l, node), stack))
  {
    hide M.Run, M.Step, At, AllDigits, NodeAfter, After, LiteralText;
    var head := Sign(l.negative) + l.whole;
    var dot := p + |head|;
    FloatLayout(b, p, l);
    ReadDot(b, dot, p, c, node, stack);
    if head != [] {
      OpenNumber(b, p, head, l.negative, l.whole, c, node, stack);
    }
    RunDigits(b, dot + 1, l.fraction, c, p, node, stack);
    CloseFloat(b, p, p + |LiteralText(l)|, l, c, node, stack);
  }

  lemma AtSlice(b: bytes, p: nat, t: bytes)
    requires At(b, p, t)
    ensures p + |t| <= |b| && b[p..p + |t|] == t
  {
  }

  lemma StoreTruth(b: bytes, p: nat, k: Key, v: bool, node: Node, stack: seq<M.Frame>)
    requires At(b, p, LiteralText(Truth(v)))
    ensures M.ValueStep(b, St(p, M.SeekValue(k), node, stack), k)
         == M.Continue(St(p + |LiteralText(Truth(v))|, M.ValueEnd, Append(node, k, Bool(v)), stack))
  {
    hide Append;
    var t := LiteralText(Truth(v));
    AtIndex(b, p, t, 0);
    NoComment(b, p);
    if !v && At(b, p, TRUE_TEXT) {
      AtIndex(b, p, TRUE_TEXT, 0);
    }
  }

  lemma RunTruth(b: bytes, p: nat, k: Key, v: bool, node: Node, stack: seq<M.Frame>)
    requires At(b, p, LiteralText(Truth(v)))
    ensures M.Run(b, St(p, M.SeekValue(k), node, stack))
         == M.Run(b, St(p + |LiteralText(Truth(v))|, M.ValueEnd, Append(node, k, Bool(v)), stack))
  {
    hide M.Run, M.ValueStep, Append;
    var t := LiteralText(Truth(v));
    StoreTruth(b, p, k, v, node, stack);
    M.RunStep(b, St(p, M.SeekValue(k), node, stack), St(p + |t|, M.ValueEnd, Append(node, k, Bool(v)), stack));
  }

  // The byte belongs to the number in front of it.
  predicate Continues(l: Literal, x: byte) {
    (l.Integer? && (0x30 <= x <= 0x39 || x == 0x2E)) || (l.Decimal? && 0x30 <= x <= 0x39)
  }

  predicate EndsLiteral(l: Literal, b: bytes, p: nat) {
    p < |b| ==> !Continues(l, b[p])
  }

  // The machine crosses a literal, and stores it or has it as a key.
  lemma RunLiteral(b: bytes, p: nat, l: Literal, c: M.Component, node: Node, stack: seq<M.Frame>)
    requires Admits(c, l) && At(b, p, LiteralText(l)) && EndsLiteral(l, b, p + |LiteralText(l)|)
    ensures M.Run(b, St(p, Before(c), node, stack))
         == M.Run(b, St(p + |LiteralText(l)|, After(c, l), NodeAfter(c, l, node), stack))
  {
    hide M.Run, LiteralText, Append;
    match l {
      case Truth(v) => RunTruth(b, p, c.key, v, node, stack);
      case Integer(_, _) => RunInt(b, p, l, c, node, stack);
      case Decimal(_, _, _) => RunFloat(b, p, l, c, node, stack);
      case Quoted(_, _) => RunString(b, p, l, c, node, stack);
    }
  }

  // ---- words, keys and punctuation ----

  // A-Z, a-z and the underscore.
  predicate IsLetter(c: byte) {
    0x41 <= c <= 0x5A || 0x61 <= c <= 0x7A || c == 0x5F
  }

  // What a bare key can be: a letter, then letters and digits.
  predicate IsWord(s: bytes) {
    s != [] && IsLetter(s[0]) && forall i :: 0 <= i < |s| ==> IsLetter(s[i]) || 0x30 <= s[i] <= 0x39
  }

  lemma OpenWord(b: bytes, p: nat, node: Node, stack: seq<M.Frame>)
    requires !node.isRoot && p < |b| && IsKeyStart(b[p])
    ensures M.Run(b, St(p, M.SeekChild, node, stack)) == M.Run(b, St(p + 1, M.KeySimple(p), node, stack))
  {
    hide M.Run;
    NoComment(b, p);
    M.RunStep(b, St(p, M.SeekChild, node, stack), St(p + 1, M.KeySimple(p), node, stack));
  }

  lemma CloseWord(b: bytes, start: nat, q: nat, node: Node, stack: seq<M.Frame>)
    requires start <= q < |b| && !IsKeyByte(b[q])
    ensures M.Run(b, St(q, M.KeySimple(start), node, stack)) == M.Run(b, St(q, M.KeySimpleEnd(b[start..q]), node, stack))
  {
    hide M.Run;
    M.RunStep(b, St(q, M.KeySimple(start), node, stack), St(q, M.KeySimpleEnd(b[start..q]), node, stack));
  }

  // A bare word, up to the byte that ends it.
  lemma RunWord(b: bytes, p: nat, name: bytes, node: Node, stack: seq<M.Frame>)
    requires !node.isRoot && IsWord(name) && At(b, p, name)
    requires p + |name| < |b| && !IsKeyByte(b[p + |name|])
    ensures M.Run(b, St(p, M.SeekChild, node, stack))
         == M.Run(b, St(p + |name|, M.KeySimpleEnd(name), node, stack))
  {
    hide M.Run, M.Step;
    AtIndex(b, p, name, 0);
    OpenWord(b, p, node, stack);
    assert name == name[..1] + name[1..];
    AtConcat(b, p, name[..1], name[1..]);
    RunName(b, p + 1, name[1..], p, node, stack);
    CloseWord(b, p, p + |name|, node, stack);
  }

  // A bool without a key is first taken for a bare key, and recognised by what
  // follows it.
  lemma EndTruthWord(b: bytes, q: nat, v: bool, node: Node, stack: seq<M.Frame>)
    requires q < |b| && (b[q] == COMMA || b[q] == RBRACE)
    ensures M.Run(b, St(q, M.KeySimpleEnd(LiteralText(Truth(v))), node, stack))
         == M.Run(b, St(q, M.ValueEnd, Append(node, IntKey(node.lualen + 1), Bool(v)), stack))
  {
    hide M.Run, M.Step, Append;
    NoComment(b, q);
    assert TRUE_TEXT[0] != FALSE_TEXT[0];
    M.StepIsWordEnd(b, St(q, M.KeySimpleEnd(LiteralText(Truth(v))), node, stack));
    M.RunStep(b, St(q, M.KeySimpleEnd(LiteralText(Truth(v))), node, stack),
              St(q, M.ValueEnd, Append(node, IntKey(node.lualen + 1), Bool(v)), stack));
  }

  lemma AssignWord(b: bytes, q: nat, name: bytes, node: Node, stack: seq<M.Frame>)
    requires q < |b| && b[q] == EQUALS
    ensures M.Run(b, St(q, M.KeySimpleEnd(name), node, stack)) == M.Run(b, St(q + 1, M.SeekValue(StrKey(name)), node, stack))
  {
    hide M.Run;
    NoComment(b, q);
    M.RunStep(b, St(q, M.KeySimpleEnd(name), node, stack), St(q + 1, M.SeekValue(StrKey(name)), node, stack));
  }

  lemma OpenBracket(b: bytes, p: nat, node: Node, stack: seq<M.Frame>)
    requires !node.isRoot && p < |b| && b[p] == LBRACKET
    ensures M.Run(b, St(p, M.SeekChild, node, stack)) == M.Run(b, St(p + 1, M.KeyExpressionOpen, node, stack))
  {
    hide M.Run;
    NoComment(b, p);
    M.RunStep(b, St(p, M.SeekChild, node, stack), St(p + 1, M.KeyExpressionOpen, node, stack));
  }

  lemma CloseBracket(b: bytes, p: nat, k: Key, node: Node, stack: seq<M.Frame>)
    requires p < |b| && b[p] == RBRACKET
    ensures M.Run(b, St(p, M.KeyExpressionFinish(k), node, stack)) == M.Run(b, St(p + 1, M.KeyExpressionClose(k), node, stack))
  {
    hide M.Run;
    NoComment(b, p);
    M.RunStep(b, St(p, M.KeyExpressionFinish(k), node, stack), St(p + 1, M.KeyExpressionClose(k), node, stack));
  }

  lemma AssignKey(b: bytes, p: nat, k: Key, node: Node, stack: seq<M.Frame>)
    requires p < |b| && b[p] == EQUALS
    ensures M.Run(b, St(p, M.KeyExpressionClose(k), node, stack)) == M.Run(b, St(p + 1, M.SeekValue(k), node, stack))
  {
    hide M.Run;
    M.RunStep(b, St(p, M.KeyExpressionClose(k), node, stack), St(p + 1, M.SeekValue(k), node, stack));
  }

  // A byte that can only start a value takes the next number as its key.
  lemma OpenUnnamed(b: bytes, p: nat, node: Node, stack: seq<M.Frame>)
    requires p < |b| && !IsSpace(b[p]) && b[p] != RBRACE && !M.OpensComment(b, p)
    requires !node.isRoot ==> !IsKeyStart(b[p]) && b[p] != LBRACKET
    ensures M.Run(b, St(p, M.SeekChild, node, stack))
         == M.Run(b, St(p, M.SeekValue(IntKey(node.lualen + 1)), node, stack))
  {
    hide M.Run;
    M.RunStep(b, St(p, M.SeekChild, node, stack), St(p, M.SeekValue(IntKey(node.lualen + 1)), node, stack));
  }

  lemma EndByBrace(b: bytes, p: nat, node: Node, stack: seq<M.Frame>)
    requires p < |b| && b[p] == RBRACE
    ensures M.Run(b, St(p, M.ValueEnd, node, stack)) == M.Run(b, St(p, M.SeekChild, node, stack))
  {
    hide M.Run;
    NoComment(b, p);
    M.RunStep(b, St(p, M.ValueEnd, node, stack), St(p, M.SeekChild, node, stack));
  }

  lemma EndByComma(b: bytes, p: nat, node: Node, stack: seq<M.Frame>)
    requires p < |b| && b[p] == COMMA
    ensures M.Run(b, St(p, M.ValueEnd, node, stack)) == M.Run(b, St(p + 1, M.SeekChild, node, stack))
  {
    hide M.Run;
    NoComment(b, p);
    M.RunStep(b, St(p, M.ValueEnd, node, stack), St(p + 1, M.SeekChild, node, stack));
  }

  lemma OpenTable(b: bytes, p: nat, k: Key, node: Node, stack: seq<M.Frame>)
    requires p < |b| && b[p] == LBRACE
    ensures M.Run(b, St(p, M.SeekValue(k), node, stack))
         == M.Run(b, St(p + 1, M.SeekChild, CHILD, stack + [M.Frame(node, k)]))
  {
    hide M.Run;
    NoComment(b, p);
    NoTruth(b, p);
    M.RunStep(b, St(p, M.SeekValue(k), node, stack), St(p + 1, M.SeekChild, CHILD, stack + [M.Frame(node, k)]));
  }

  lemma CloseTable(b: bytes, p: nat, k: Key, child: Node, node: Node, stack: seq<M.Frame>)
    requires p < |b| && b[p] == RBRACE
    ensures M.Run(b, St(p, M.SeekChild, child, stack + [M.Frame(node, k)]))
         == M.Run(b, St(p + 1, M.ValueEnd, Append(node, k, NodeTable(child)), stack))
  {
    hide M.Run, Append, NodeTable;
    NoComment(b, p);
    var outer := stack + [M.Frame(node, k)];
    assert outer[..|outer| - 1] == stack;
    M.RunStep(b, St(p, M.SeekChild, child, outer), St(p + 1, M.ValueEnd, Append(node, k, NodeTable(child)), stack));
  }
}
