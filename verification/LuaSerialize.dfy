// The printer: what it writes, and the imperative code that writes it.
module LuaSerialize {
  import opened Wrappers
  import opened Bytes
  import opened LuaValues
  import opened LuaText

  type Indent = Option<bytes>

  // indent * n
  function Repeat(t: bytes, n: int): bytes
    decreases if n > 0 then n else 0
  {
    if n <= 0 then [] else t + Repeat(t, n - 1)
  }

  function Margin(indent: Indent, level: int): bytes {
    if indent.Some? then Repeat(indent.value, level) else []
  }

  function LineEnd(indent: Indent): bytes {
    if indent.Some? then [NEWLINE] else []
  }

  function Assign(indent: Indent): bytes {
    if indent.Some? then [SPACE, EQUALS, SPACE] else [EQUALS]
  }

  predicate IsName(s: bytes) {
    s != [] && IsKeyStart(s[0]) && forall i :: 0 <= i < |s| ==> IsKeyByte(s[i])
  }

  // What ^[a-zA-Z_][a-zA-Z0-9_]*$ matches: the dollar also matches in front of
  // one final newline.
  predicate MatchesName(s: bytes) {
    IsName(s) || (s != [] && s[|s| - 1] == NEWLINE && IsName(s[..|s| - 1]))
  }

  // Entries 0..i have the keys 1, 2, ..., i + 1, so entry i needs no key.
  predicate Positional(keys: seq<Key>, i: nat)
    requires i < |keys|
  {
    forall j :: 0 <= j <= i ==> keys[j] == IntKey(j + 1)
  }

  function QuotedText(s: bytes): bytes {
    [QUOTE] + Escape(s) + [QUOTE]
  }

  function KeyLiteral(k: Key): bytes
    requires !k.FloatKey?
  {
    match k
    case IntKey(n) => IntText(n)
    case StrKey(s) => QuotedText(s)
  }

  function KeyText(keys: seq<Key>, i: nat, indent: Indent): bytes
    requires i < |keys| && !keys[i].FloatKey?
  {
    var k := keys[i];
    if Positional(keys, i) then []
    else if k.StrKey? && MatchesName(k.s) then k.s + Assign(indent)
    else [LBRACKET] + KeyLiteral(k) + [RBRACKET] + Assign(indent)
  }

  function Separator(n: nat, i: nat, indent: Indent): bytes {
    (if indent.Some? || i + 1 < n then [COMMA] else []) + LineEnd(indent)
  }

  ghost predicate TableShape(keys: seq<Key>, texts: seq<bytes>) {
    |keys| == |texts| && forall i :: 0 <= i < |keys| ==> !keys[i].FloatKey?
  }

  function EntryText(keys: seq<Key>, texts: seq<bytes>, i: nat, indent: Indent, level: int): bytes
    requires TableShape(keys, texts) && i < |keys|
  {
    Margin(indent, level + 1) + KeyText(keys, i, indent) + texts[i] + Separator(|keys|, i, indent)
  }

  // The entries from i on.
  function BodyText(keys: seq<Key>, texts: seq<bytes>, i: nat, indent: Indent, level: int): bytes
    requires TableShape(keys, texts) && i <= |keys|
    decreases |keys| - i
  {
    if i == |keys| then []
    else EntryText(keys, texts, i, indent, level) + BodyText(keys, texts, i + 1, indent, level)
  }

  function TableText(keys: seq<Key>, texts: seq<bytes>, indent: Indent, level: int): bytes
    requires TableShape(keys, texts)
  {
    var full := keys != [];
    [LBRACE] + (if full then LineEnd(indent) else [])
    + BodyText(keys, texts, 0, indent, level)
    + (if full then Margin(indent, level) else []) + [RBRACE]
  }

  function ListKeys(n: nat): (keys: seq<Key>)
    ensures |keys| == n && forall i :: 0 <= i < n ==> keys[i] == IntKey(i + 1)
  {
    seq(n, i => IntKey(i + 1))
  }

  function DictKeys(es: seq<Entry>): (keys: seq<Key>)
    ensures |keys| == |es| && forall i :: 0 <= i < |es| ==> keys[i] == es[i].key
  {
    seq(|es|, i requires 0 <= i < |es| => es[i].key)
  }

  // The text of a value at an indent level.
  function Print(v: Value, indent: Indent, level: int): bytes
    requires Printable(v)
    decreases v
  {
    match v
    case Bool(b) => if b then TRUE_TEXT else FALSE_TEXT
    case Int(n) => IntText(n)
    case Str(s) => QuotedText(s)
    case List(items) =>
      var texts := seq(|items|, i requires 0 <= i < |items| => Print(items[i], indent, level + 1));
      TableText(ListKeys(|items|), texts, indent, level)
    case Dict(es) =>
      var texts := seq(|es|, i requires 0 <= i < |es| => Print(es[i].val, indent, level + 1));
      TableText(DictKeys(es), texts, indent, level)
  }

  // The same for lists and dicts alike.
  function KeysOf(v: Value): (keys: seq<Key>)
    requires IsTable(v)
    ensures |keys| == |Entries(v)| && forall i :: 0 <= i < |keys| ==> keys[i] == Entries(v)[i].key
  {
    if v.List? then ListKeys(|v.items|) else DictKeys(v.entries)
  }

  function TextsOf(v: Value, indent: Indent, level: int): (texts: seq<bytes>)
    requires IsTable(v) && Printable(v)
    ensures |texts| == |Entries(v)|
    ensures forall i :: 0 <= i < |texts| ==> texts[i] == Print(Entries(v)[i].val, indent, level)
  {
    var es := Entries(v);
    seq(|es|, i requires 0 <= i < |es| => Print(es[i].val, indent, level))
  }

  lemma PrintTable(v: Value, indent: Indent, level: int)
    requires IsTable(v) && Printable(v)
    ensures Print(v, indent, level) == TableText(KeysOf(v), TextsOf(v, indent, level + 1), indent, level)
  {
    if v.List? {
      var texts := seq(|v.items|, i requires 0 <= i < |v.items| => Print(v.items[i], indent, level + 1));
      assert texts == TextsOf(v, indent, level + 1);
    } else {
      var es := v.entries;
      var texts := seq(|es|, i requires 0 <= i < |es| => Print(es[i].val, indent, level + 1));
      assert texts == TextsOf(v, indent, level + 1);
    }
  }
}
