// String escaping and decimal numbers, as the printer writes them and the
// parser reads them.
module LuaText {
  import opened Wrappers
  import opened Bytes

  const TRUE_TEXT: bytes := [0x74, 0x72, 0x75, 0x65]
  const FALSE_TEXT: bytes := [0x66, 0x61, 0x6C, 0x73, 0x65]

  // ---- escaping ----

  // s.replace(a, rep) for a one-byte pattern.
  function ReplaceByte(s: bytes, a: byte, rep: bytes): bytes {
    if s == [] then []
    else (if s[0] == a then rep else [s[0]]) + ReplaceByte(s[1..], a, rep)
  }

  // s.replace(a b, c) for a two-byte pattern: left to right, never rescanning
  // what it has written.
  function ReplacePair(s: bytes, a: byte, b: byte, c: byte): bytes {
    if |s| >= 2 && s[0] == a && s[1] == b then [c] + ReplacePair(s[2..], a, b, c)
    else if s == [] then []
    else [s[0]] + ReplacePair(s[1..], a, b, c)
  }

  // The printer's three passes: backslash, then quote, then newline.
  function Escape(s: bytes): bytes {
    ReplaceByte(
      ReplaceByte(
        ReplaceByte(s, BACKSLASH, [BACKSLASH, BACKSLASH]),
        QUOTE, [BACKSLASH, QUOTE]),
      NEWLINE, [BACKSLASH, NEWLINE])
  }

  // The parser's three passes: newline, then quote, then backslash.
  function Unescape(s: bytes): bytes {
    ReplacePair(
      ReplacePair(
        ReplacePair(s, BACKSLASH, NEWLINE, NEWLINE),
        BACKSLASH, QUOTE, QUOTE),
      BACKSLASH, BACKSLASH, BACKSLASH)
  }

  // A set of bytes doubled up with a leading backslash, byte by byte. Every
  // intermediate text of both pass sequences is of this form.
  function Marked(s: bytes, special: set<byte>): bytes {
    if s == [] then []
    else (if s[0] in special then [BACKSLASH, s[0]] else [s[0]]) + Marked(s[1..], special)
  }

  lemma {:induction false} ReplaceByteConcat(s: bytes, t: bytes, a: byte, rep: bytes)
    ensures ReplaceByte(s + t, a, rep) == ReplaceByte(s, a, rep) + ReplaceByte(t, a, rep)
  {
    if s == [] {
      assert s + t == t;
    } else {
      assert (s + t)[1..] == s[1..] + t;
      ReplaceByteConcat(s[1..], t, a, rep);
    }
  }

  lemma {:induction false} MarkOneMore(s: bytes, special: set<byte>, a: byte)
    requires a != BACKSLASH && a !in special
    ensures ReplaceByte(Marked(s, special), a, [BACKSLASH, a]) == Marked(s, special + {a})
  {
    if s != [] {
      var head := if s[0] in special then [BACKSLASH, s[0]] else [s[0]];
      ReplaceByteConcat(head, Marked(s[1..], special), a, [BACKSLASH, a]);
      MarkOneMore(s[1..], special, a);
      if s[0] in special {
        assert head[1..] == [s[0]];
        assert ReplaceByte(head[1..], a, [BACKSLASH, a]) == [s[0]];
      }
    }
  }

  lemma {:induction false} MarkBackslash(s: bytes)
    ensures ReplaceByte(s, BACKSLASH, [BACKSLASH, BACKSLASH]) == Marked(s, {BACKSLASH})
  {
    if s != [] {
      MarkBackslash(s[1..]);
    }
  }

  // The three sequential passes amount to one byte-by-byte marking.
  lemma EscapeIsMarked(s: bytes)
    ensures Escape(s) == Marked(s, {BACKSLASH, QUOTE, NEWLINE})
  {
    MarkBackslash(s);
    MarkOneMore(s, {BACKSLASH}, QUOTE);
    MarkOneMore(s, {BACKSLASH, QUOTE}, NEWLINE);
    assert {BACKSLASH} + {QUOTE} == {BACKSLASH, QUOTE};
    assert {BACKSLASH, QUOTE} + {NEWLINE} == {BACKSLASH, QUOTE, NEWLINE};
  }

  lemma PairHit(s: bytes, a: byte, b: byte, c: byte)
    ensures ReplacePair([a, b] + s, a, b, c) == [c] + ReplacePair(s, a, b, c)
  {
    assert ([a, b] + s)[2..] == s;
  }

  lemma PairMiss(x: byte, s: bytes, a: byte, b: byte, c: byte)
    requires x != a || s == [] || s[0] != b
    ensures ReplacePair([x] + s, a, b, c) == [x] + ReplacePair(s, a, b, c)
  {
    assert ([x] + s)[1..] == s;
  }

  lemma MarkedHead(s: bytes, special: set<byte>)
    ensures var t := Marked(s, special);
            if s == [] then t == []
            else t == (if s[0] in special then [BACKSLASH, s[0]] else [s[0]]) + Marked(s[1..], special)
                 && t[0] == if s[0] in special then BACKSLASH else s[0]
  {
  }

  // One un-escaping pass removes exactly one byte from the marked set, provided
  // doubled backslashes are still doubled (or are what is being removed).
  lemma {:induction false} UnmarkOne(s: bytes, special: set<byte>, a: byte)
    requires a in special && BACKSLASH in special
    requires a == BACKSLASH ==> special == {BACKSLASH}
    ensures ReplacePair(Marked(s, special), BACKSLASH, a, a) == Marked(s, special - {a})
  {
    hide ReplacePair, Marked;
    MarkedHead(s, special);
    MarkedHead(s, special - {a});
    if s == [] {
      assert ReplacePair([], BACKSLASH, a, a) == [] by { PairNone(BACKSLASH, a, a); }
    } else {
      var rest := Marked(s[1..], special);
      UnmarkOne(s[1..], special, a);
      MarkedHead(s[1..], special);
      if s[0] == a {
        PairHit(rest, BACKSLASH, a, a);
      } else if s[0] in special {
        // the second of two backslashes must not pair up with what follows
        PairMiss(s[0], rest, BACKSLASH, a, a);
        PairMiss(BACKSLASH, [s[0]] + rest, BACKSLASH, a, a);
        assert [BACKSLASH, s[0]] + rest == [BACKSLASH] + ([s[0]] + rest);
      } else {
        PairMiss(s[0], rest, BACKSLASH, a, a);
      }
    }
  }

  lemma PairNone(a: byte, b: byte, c: byte)
    ensures ReplacePair([], a, b, c) == []
  {
  }

  lemma {:induction false} MarkedNothing(s: bytes)
    ensures Marked(s, {}) == s
  {
    if s != [] {
      MarkedNothing(s[1..]);
    }
  }

  // Un-escaping undoes escaping, for every byte string.
  lemma UnescapeEscape(s: bytes)
    ensures Unescape(Escape(s)) == s
  {
    EscapeIsMarked(s);
    var all := {BACKSLASH, QUOTE, NEWLINE};
    UnmarkOne(s, all, NEWLINE);
    assert all - {NEWLINE} == {BACKSLASH, QUOTE};
    UnmarkOne(s, {BACKSLASH, QUOTE}, QUOTE);
    assert {BACKSLASH, QUOTE} - {QUOTE} == {BACKSLASH};
    UnmarkOne(s, {BACKSLASH}, BACKSLASH);
    assert {BACKSLASH} - {BACKSLASH} == {};
    MarkedNothing(s);
  }

  // A backslash before any other byte than the three stays.
  lemma {:induction false} PairNowhere(s: bytes, b: byte)
    requires forall i :: 0 <= i < |s| - 1 && s[i] == BACKSLASH ==> s[i + 1] != b
    ensures ReplacePair(s, BACKSLASH, b, b) == s
  {
    if s != [] {
      PairNowhere(s[1..], b);
    }
  }

  lemma UnescapeOther(s: bytes)
    requires forall i :: 0 <= i < |s| - 1 && s[i] == 0x5C ==> s[i + 1] != 0x5C && s[i + 1] != 0x22 && s[i + 1] != 0x0A
    ensures Unescape(s) == s
  {
    PairNowhere(s, NEWLINE);
    PairNowhere(s, QUOTE);
    PairNowhere(s, BACKSLASH);
  }

  // ---- decimal numbers ----

  function DigitsOf(n: nat): (ds: bytes)
    ensures ds != [] && forall i :: 0 <= i < |ds| ==> IsDigit(ds[i])
  {
    if n < 10 then [(0x30 + n) as byte]
    else DigitsOf(n / 10) + [(0x30 + n % 10) as byte]
  }

  // str(n)
  function IntText(n: int): bytes {
    if n < 0 then [MINUS] + DigitsOf(-n) else DigitsOf(n)
  }

  predicate AllDigits(ds: bytes) {
    forall i :: 0 <= i < |ds| ==> IsDigit(ds[i])
  }

  function NatOf(ds: bytes): nat
    requires AllDigits(ds)
  {
    if ds == [] then 0
    else NatOf(ds[..|ds| - 1]) * 10 + (ds[|ds| - 1] as int - 0x30)
  }

  // int(s) on what the INT state collects: an optional minus and digits.
  function ParseInt(s: bytes): Option<int> {
    var negative := s != [] && s[0] == MINUS;
    var ds := if negative then s[1..] else s;
    if ds != [] && AllDigits(ds) then
      var magnitude: int := NatOf(ds);
      Some(if negative then -magnitude else magnitude)
    else None
  }

  lemma {:induction false} NatOfDigits(n: nat)
    ensures NatOf(DigitsOf(n)) == n
  {
    var ds := DigitsOf(n);
    if n < 10 {
      assert ds[..|ds| - 1] == [];
    } else {
      assert ds[..|ds| - 1] == DigitsOf(n / 10);
      NatOfDigits(n / 10);
    }
  }

  // int(str(n)) == n
  lemma ParseIntText(n: int)
    ensures ParseInt(IntText(n)) == Some(n)
  {
    if n < 0 {
      NatOfDigits(-n);
      assert IntText(n)[1..] == DigitsOf(-n);
    } else {
      NatOfDigits(n);
    }
  }

  function Scale(digits: nat): (r: real)
    ensures r > 0.0
  {
    if digits == 0 then 1.0 else 10.0 * Scale(digits - 1)
  }

  function DotIndex(s: bytes): (i: nat)
    ensures i <= |s|
  {
    if s == [] || s[0] == DOT then 0 else 1 + DotIndex(s[1..])
  }

  // float(s) on what the FLOAT state collects: an optional minus, digits, a dot
  // and digits, in exact arithmetic.
  function ParseFloat(s: bytes): Option<real> {
    var negative := s != [] && s[0] == MINUS;
    var body := if negative then s[1..] else s;
    var dot := DotIndex(body);
    var ds := body[..dot] + (if dot < |body| then body[dot + 1..] else []);
    if ds != [] && AllDigits(ds) then
      var magnitude := NatOf(ds) as real / Scale(if dot < |body| then |body| - dot - 1 else 0);
      Some(if negative then -magnitude else magnitude)
    else None
  }
}
