// How a pilot's name becomes a callsign: what the callers of the collation pass to
// it. Strings are bytes; those outside ASCII count as letters.
module PilotCallsigns {
  import opened Wrappers
  import opened Bytes
  import opened Callsigns
  import LuaText

  const BAR: byte := 0x7C
  const MAX_DIGITS := 3

  // "this is" and "request"
  const THIS_IS: bytes := [0x74, 0x68, 0x69, 0x73, 0x20, 0x69, 0x73]
  const REQUEST: bytes := [0x72, 0x65, 0x71, 0x75, 0x65, 0x73, 0x74]

  predicate IsUpper(c: byte) {
    0x41 <= c <= 0x5A
  }

  predicate IsLetter(c: byte) {
    IsUpper(c) || 0x61 <= c <= 0x7A || c >= 0x80
  }

  function Lower(c: byte): byte {
    if IsUpper(c) then c + 0x20 else c
  }

  // ---- Normalize ----

  // strings.Cut at the first bar
  function CutBar(s: bytes): (r: bytes)
    ensures r <= s
  {
    if s == [] || s[0] == BAR then [] else [s[0]] + CutBar(s[1..])
  }

  // What byte i of the text is replaced by.
  function CleanByte(s: bytes, i: nat): bytes
    requires i < |s|
  {
    var c := s[i];
    if c == MINUS || c == UNDERSCORE || (c == DOT && i + 1 < |s| && !IsBlank(s[i + 1])) then [SPACE]
    else if !(IsLetter(c) || IsDigit(c) || IsBlank(c)) then []
    else [Lower(c)] + (if IsLetter(c) && i + 1 < |s| && IsDigit(s[i + 1]) then [SPACE] else [])
  }

  function CleanTo(s: bytes, i: nat): bytes
    requires i <= |s|
  {
    if i == 0 then [] else CleanTo(s, i - 1) + CleanByte(s, i - 1)
  }

  // zero to nine
  function DigitOf(w: bytes): Option<byte> {
    if w == [0x7A, 0x65, 0x72, 0x6F] then Some(0x30)
    else if w == [0x6F, 0x6E, 0x65] then Some(0x31)
    else if w == [0x74, 0x77, 0x6F] then Some(0x32)
    else if w == [0x74, 0x68, 0x72, 0x65, 0x65] then Some(0x33)
    else if w == [0x66, 0x6F, 0x75, 0x72] then Some(0x34)
    else if w == [0x66, 0x69, 0x76, 0x65] then Some(0x35)
    else if w == [0x73, 0x69, 0x78] then Some(0x36)
    else if w == [0x73, 0x65, 0x76, 0x65, 0x6E] then Some(0x37)
    else if w == [0x65, 0x69, 0x67, 0x68, 0x74] then Some(0x38)
    else if w == [0x6E, 0x69, 0x6E, 0x65] then Some(0x39)
    else None
  }

  function DigitWord(w: bytes): bytes {
    if DigitOf(w).Some? then [DigitOf(w).value] else w
  }

  function MapWords(words: seq<bytes>, f: bytes -> bytes): (r: seq<bytes>)
    ensures |r| == |words| && forall i :: 0 <= i < |r| ==> r[i] == f(words[i])
  {
    seq(|words|, i requires 0 <= i < |words| => f(words[i]))
  }

  function DigitWords(s: bytes): bytes {
    JoinWords(MapWords(Fields(s), DigitWord))
  }

  // Normalize; what joins words has no white space to trim.
  function Normalize(s: bytes): bytes {
    var t := CutBar(s);
    DigitWords(CleanTo(t, |t|))
  }

  // ---- SpaceDigits ----

  function SpaceEach(s: bytes): bytes {
    if s == [] then []
    else
      var c := s[|s| - 1];
      SpaceEach(s[..|s| - 1]) + (if IsDigit(c) then [SPACE, c] else [c])
  }

  function SpaceDigits(s: bytes): bytes {
    Normalize(SpaceEach(s))
  }

  // ---- ParsePilotCallsign ----

  // The first ] from i on, on the same line.
  function CloseTag(s: bytes, i: nat): (r: Option<nat>)
    ensures r.Some? ==> i <= r.value < |s|
    decreases |s| - i
  {
    if i >= |s| || s[i] == NEWLINE then None
    else if s[i] == RBRACKET then Some(i)
    else CloseTag(s, i + 1)
  }

  // removeClanTags
  function RemoveTags(s: bytes): bytes
    decreases |s|
  {
    if s == [] then []
    else if s[0] == LBRACKET && CloseTag(s, 1).Some? then RemoveTags(s[CloseTag(s, 1).value + 1..])
    else [s[0]] + RemoveTags(s[1..])
  }

  // strings.ReplaceAll with nothing
  function RemoveAll(s: bytes, t: bytes): bytes
    requires t != []
    decreases |s|
  {
    if s == [] then []
    else if t <= s then RemoveAll(s[|t|..], t)
    else [s[0]] + RemoveAll(s[1..], t)
  }

  // Up to the first occurrence.
  function Before(s: bytes, t: bytes): bytes {
    if s == [] || t <= s then [] else [s[0]] + Before(s[1..], t)
  }

  // won, to, too, tu, tutu, free, tree, for, fore, ate, niner
  function Homophone(w: bytes): Option<bytes> {
    if w == [0x77, 0x6F, 0x6E] then Some([0x31])
    else if w == [0x74, 0x6F] || w == [0x74, 0x6F, 0x6F] || w == [0x74, 0x75] then Some([0x32])
    else if w == [0x74, 0x75, 0x74, 0x75] then Some([0x32, 0x32])
    else if w == [0x66, 0x72, 0x65, 0x65] || w == [0x74, 0x72, 0x65, 0x65] then Some([0x33])
    else if w == [0x66, 0x6F, 0x72] || w == [0x66, 0x6F, 0x72, 0x65] then Some([0x34])
    else if w == [0x61, 0x74, 0x65] then Some([0x38])
    else if w == [0x6E, 0x69, 0x6E, 0x65, 0x72] then Some([0x39])
    else None
  }

  // st, nd, rd, th
  const SUFFIXES: seq<bytes> := [[0x73, 0x74], [0x6E, 0x64], [0x72, 0x64], [0x74, 0x68]]

  function StripFrom(w: bytes, i: nat): bytes
    requires i <= |SUFFIXES|
    decreases |SUFFIXES| - i
  {
    if i == |SUFFIXES| then w
    else if |w| >= 2 && w[|w| - 2..] == SUFFIXES[i] && HasDigit(w[..|w| - 2]) then w[..|w| - 2]
    else StripFrom(w, i + 1)
  }

  // stripOrdinalSuffix
  function StripOrdinal(w: bytes): bytes {
    StripFrom(w, 0)
  }

  predicate IsDigitPosition(w: bytes) {
    HasDigit(w) || Homophone(w).Some?
  }

  function Misheard(w: bytes): bytes {
    StripOrdinal(if Homophone(w).Some? then Homophone(w).value else w)
  }

  // The words, those from the first digit position on replaced.
  function Replaced(words: seq<bytes>): seq<bytes> {
    if words == [] then []
    else if IsDigitPosition(words[0]) then MapWords(words, Misheard)
    else [words[0]] + Replaced(words[1..])
  }

  // replaceDigitHomophones
  function ReplaceHomophones(s: bytes): bytes {
    if exists w :: w in Fields(s) && IsDigitPosition(w) then JoinWords(Replaced(Fields(s))) else s
  }

  // The first i bytes without what follows the first digit, other than digits and
  // blanks, and without what follows the third digit; and the digits so far.
  function Kept(s: bytes, i: nat): (bytes, nat)
    requires i <= |s|
  {
    if i == 0 then ([], 0)
    else
      var (b, n) := Kept(s, i - 1);
      var c := s[i - 1];
      if n >= MAX_DIGITS then (b, n)
      else if IsDigit(c) then (b + [c], n + 1)
      else if n == 0 || IsBlank(c) then (b + [c], n)
      else (b, n)
  }

  function ParsePilot(tx: bytes): Option<bytes> {
    var spaced := SpaceDigits(Normalize(RemoveTags(tx)));
    var heard := ReplaceHomophones(Before(RemoveAll(spaced, THIS_IS), REQUEST));
    var callsign := SpaceDigits(Normalize(Kept(heard, |heard|).0));
    if callsign == [] then None else Some(callsign)
  }

  // ---- the loops ----

  // one turn of the loop: what is written for the byte
  method CleanRune(t: bytes, i: nat) returns (b: bytes)
    requires i < |t|
    ensures b == CleanByte(t, i)
  {
    var c := t[i];
    var isSeparator := c == MINUS || c == UNDERSCORE;
    var isPeriodBeforeNonSpace := c == DOT && i + 1 < |t| && !IsBlank(t[i + 1]);
    if isSeparator || isPeriodBeforeNonSpace {
      return [SPACE];
    }
    b := [];
    if IsLetter(c) || IsDigit(c) || IsBlank(c) {
      b := b + [Lower(c)];
      var isLetterBeforeDigit := IsLetter(c) && i + 1 < |t| && IsDigit(t[i + 1]);
      if isLetterBeforeDigit {
        b := b + [SPACE];
      }
    }
  }

  method NormalizeText(s: bytes) returns (r: bytes)
    ensures r == Normalize(s)
  {
    hide CleanByte, FieldsFrom, JoinWords;
    var t := CutBar(s);
    if t == [] {
      NothingNormal();
      return [];
    }
    var b: bytes := [];
    for i := 0 to |t|
      invariant b == CleanTo(t, i)
    {
      var more := CleanRune(t, i);
      b := b + more;
    }
    r := ReplaceDigitWords(b);
  }

  lemma NothingNormal()
    ensures DigitWords([]) == []
  {
  }

  method ReplaceDigitWords(s: bytes) returns (r: bytes)
    ensures r == DigitWords(s)
  {
    var fields := Fields(s);
    var words := fields;
    for i := 0 to |fields|
      invariant |words| == |fields|
      invariant forall j :: 0 <= j < i ==> words[j] == DigitWord(fields[j])
      invariant forall j :: i <= j < |fields| ==> words[j] == fields[j]
    {
      if DigitOf(fields[i]).Some? {
        words := words[i := [DigitOf(fields[i]).value]];
      }
    }
    assert words == MapWords(fields, DigitWord);
    r := JoinWords(words);
  }

  method SpaceDigitsOf(s: bytes) returns (r: bytes)
    ensures r == SpaceDigits(s)
  {
    var b: bytes := [];
    for i := 0 to |s|
      invariant b == SpaceEach(s[..i])
    {
      assert s[..i + 1][..i] == s[..i];
      if IsDigit(s[i]) {
        b := b + [SPACE];
      }
      b := b + [s[i]];
    }
    assert s[..|s|] == s;
    r := NormalizeText(b);
  }

  method StripOrdinalSuffix(w: bytes) returns (r: bytes)
    ensures r == StripOrdinal(w)
  {
    for i := 0 to |SUFFIXES|
      invariant StripFrom(w, i) == StripOrdinal(w)
    {
      if |w| >= 2 && w[|w| - 2..] == SUFFIXES[i] {
        var prefix := w[..|w| - 2];
        if prefix != [] && HasDigit(prefix) {
          return prefix;
        }
      }
    }
    r := w;
  }

  method ReplaceDigitHomophones(tx: bytes) returns (r: bytes)
    ensures r == ReplaceHomophones(tx)
  {
    var fields := Fields(tx);
    var first := 0;
    while first < |fields| && !IsDigitPosition(fields[first])
      invariant 0 <= first <= |fields|
      invariant forall j :: 0 <= j < first ==> !IsDigitPosition(fields[j])
    {
      first := first + 1;
    }
    if first == |fields| {
      return tx;
    }
    assert fields[first] in fields;
    ReplacedFrom(fields, first);
    var words := fields;
    for i := first to |fields|
      invariant |words| == |fields|
      invariant forall j :: 0 <= j < first ==> words[j] == fields[j]
      invariant forall j :: first <= j < i ==> words[j] == Misheard(fields[j])
      invariant forall j :: i <= j < |fields| ==> words[j] == fields[j]
    {
      if Homophone(fields[i]).Some? {
        words := words[i := Homophone(fields[i]).value];
      }
      var stripped := StripOrdinalSuffix(words[i]);
      words := words[i := stripped];
    }
    assert words == Replaced(fields);
    r := JoinWords(words);
  }

  lemma {:induction false} ReplacedFrom(words: seq<bytes>, first: nat)
    requires first < |words| && IsDigitPosition(words[first])
    requires forall j :: 0 <= j < first ==> !IsDigitPosition(words[j])
    ensures |Replaced(words)| == |words|
    ensures forall j :: 0 <= j < first ==> Replaced(words)[j] == words[j]
    ensures forall j :: first <= j < |words| ==> Replaced(words)[j] == Misheard(words[j])
  {
    hide IsDigitPosition, Misheard;
    if first > 0 {
      ReplacedFrom(words[1..], first - 1);
    }
  }

  method ParsePilotCallsign(tx: bytes) returns (callsign: Option<bytes>)
    ensures callsign == ParsePilot(tx)
  {
    hide Normalize, SpaceDigits, ReplaceHomophones;
    var text := NormalizeText(RemoveTags(tx));
    text := SpaceDigitsOf(text);
    text := ReplaceDigitHomophones(Before(RemoveAll(text, THIS_IS), REQUEST));
    var b: bytes, n := [], 0;
    var i := 0;
    while i < |text| && n < MAX_DIGITS
      invariant 0 <= i <= |text| && (b, n) == Kept(text, i)
    {
      if IsDigit(text[i]) {
        n := n + 1;
      }
      if n == 0 || IsDigit(text[i]) || IsBlank(text[i]) {
        b := b + [text[i]];
      }
      i := i + 1;
    }
    KeptFull(text, i);
    b := NormalizeText(b);
    b := SpaceDigitsOf(b);
    callsign := if b == [] then None else Some(b);
  }

  lemma {:induction false} KeptFull(s: bytes, i: nat)
    requires i <= |s| && (i == |s| || Kept(s, i).1 >= MAX_DIGITS)
    ensures Kept(s, |s|) == Kept(s, i)
    decreases |s| - i
  {
    if i < |s| {
      KeptFull(s, i + 1);
    }
  }

  // ---- the form of a pilot's callsign ----

  predicate SingleDigit(w: bytes) {
    |w| == 1 && IsDigit(w[0])
  }

  predicate SpelledWords(words: seq<bytes>) {
    forall i :: 0 <= i < |words| ==> SingleDigit(words[i]) || !HasDigit(words[i])
  }

  // Words separated by single spaces, each one digit or without digits.
  predicate Spelled(t: bytes) {
    t == JoinWords(Fields(t)) && SpelledWords(Fields(t))
  }

  // The word stands at p, between blanks.
  predicate Placed(t: bytes, p: nat, w: bytes) {
    && p + |w| <= |t| && (forall i :: 0 <= i < |w| ==> t[p + i] == w[i])
    && (p == 0 || IsBlank(t[p - 1])) && (p + |w| == |t| || IsBlank(t[p + |w|]))
  }

  lemma PlacedBehind(a: bytes, t: bytes, p: nat, w: bytes)
    requires Placed(t, p, w) && a != [] && IsBlank(a[|a| - 1])
    ensures Placed(a + t, |a| + p, w)
  {
    var u, q := a + t, |a| + p;
    forall i | 0 <= i < |w| ensures u[q + i] == w[i] {
      assert u[q + i] == t[p + i];
    }
    assert p > 0 ==> u[q - 1] == t[p - 1];
    assert p + |w| < |t| ==> u[q + |w|] == t[p + |w|];
  }

  // The words of a text by its first byte.
  lemma FieldsStep(word: bytes, s: bytes)
    ensures s == [] ==> FieldsFrom(word, s) == if word == [] then [] else [word]
    ensures s != [] && IsBlank(s[0]) ==>
              FieldsFrom(word, s) == (if word == [] then [] else [word]) + FieldsFrom([], s[1..])
    ensures s != [] && !IsBlank(s[0]) ==> FieldsFrom(word, s) == FieldsFrom(word + [s[0]], s[1..])
  {
  }

  lemma {:induction false} FieldPlace(word: bytes, s: bytes, k: nat) returns (p: nat)
    requires k < |FieldsFrom(word, s)|
    ensures Placed(word + s, p, FieldsFrom(word, s)[k])
    decreases |s|
  {
    hide Placed, FieldsFrom, IsBlank;
    FieldsStep(word, s);
    if s == [] {
      p := 0;
      WordPlaced(word, s);
    } else {
      var head := word + [s[0]];
      assert head + s[1..] == word + s;
      if !IsBlank(s[0]) {
        p := FieldPlace(head, s[1..], k);
      } else if word != [] && k == 0 {
        p := 0;
        WordPlaced(word, s);
      } else {
        var j := if word == [] then k else k - 1;
        var q := FieldPlace([], s[1..], j);
        assert [] + s[1..] == s[1..];
        PlacedBehind(head, s[1..], q, FieldsFrom([], s[1..])[j]);
        p := |head| + q;
      }
    }
  }

  lemma WordPlaced(word: bytes, s: bytes)
    requires s == [] || IsBlank(s[0])
    ensures Placed(word + s, 0, word)
  {
  }

  // Lower-case letters, digits and blanks.
  predicate Neat(s: bytes) {
    forall i :: 0 <= i < |s| ==> (IsLetter(s[i]) && !IsUpper(s[i])) || IsDigit(s[i]) || IsBlank(s[i])
  }

  // A digit is followed by digits and blanks only, up to the end.
  predicate DigitsLast(s: bytes) {
    forall i, j :: 0 <= i < j < |s| && IsDigit(s[i]) ==> IsDigit(s[j]) || IsBlank(s[j])
  }

  // No digit has another byte than a digit or a blank right behind it.
  predicate Trails(s: bytes) {
    forall i :: 0 <= i < |s| - 1 && IsDigit(s[i]) ==> IsDigit(s[i + 1]) || IsBlank(s[i + 1])
  }

  // Every digit stands between blanks.
  predicate Alone(s: bytes) {
    forall i :: 0 <= i < |s| && IsDigit(s[i]) ==> (i == 0 || IsBlank(s[i - 1])) && (i == |s| - 1 || IsBlank(s[i + 1]))
  }

  lemma {:induction false} KeptDigitsLast(s: bytes, i: nat)
    requires i <= |s|
    ensures DigitsLast(Kept(s, i).0) && (Kept(s, i).1 == 0 ==> !HasDigit(Kept(s, i).0))
  {
    if i > 0 {
      KeptDigitsLast(s, i - 1);
    }
  }

  lemma CleanByteKeeps(s: bytes, i: nat)
    requires i < |s|
    ensures Neat(CleanByte(s, i)) && (HasDigit(CleanByte(s, i)) ==> IsDigit(s[i]))
    ensures IsDigit(s[i]) || IsBlank(s[i]) ==> CleanByte(s, i) == [s[i]]
  {
  }

  lemma {:induction false} CleanKeeps(s: bytes, i: nat)
    requires i <= |s|
    ensures Neat(CleanTo(s, i))
    ensures HasDigit(CleanTo(s, i)) ==> HasDigit(s[..i])
    ensures DigitsLast(s) ==> DigitsLast(CleanTo(s, i))
  {
    hide CleanByte;
    if i > 0 {
      CleanKeeps(s, i - 1);
      CleanByteKeeps(s, i - 1);
      var before, more, c := CleanTo(s, i - 1), CleanByte(s, i - 1), s[i - 1];
      if HasDigit(before) {
        var k :| 0 <= k < i - 1 && IsDigit(s[..i - 1][k]);
        assert IsDigit(s[..i][k]);
        assert DigitsLast(s) ==> IsDigit(c) || IsBlank(c);
      } else if IsDigit(c) {
        assert IsDigit(s[..i][i - 1]);
      }
      assert HasDigit(before + more) ==> HasDigit(before) || HasDigit(more);
    }
  }

  lemma {:induction false} JoinKeeps(words: seq<bytes>)
    requires forall i :: 0 <= i < |words| ==> Neat(words[i]) && Trails(words[i])
    ensures Neat(JoinWords(words)) && Trails(JoinWords(words))
  {
    if |words| > 1 {
      JoinKeeps(words[1..]);
    }
  }

  lemma FieldKeeps(s: bytes, k: nat)
    requires Neat(s) && DigitsLast(s) && k < |Fields(s)|
    ensures Neat(Fields(s)[k]) && Trails(Fields(s)[k])
  {
    hide FieldsFrom;
    var p := FieldPlace([], s, k);
    assert [] + s == s;
  }

  // A normalised text without letters behind its digits keeps that.
  lemma NormalizeKeeps(s: bytes)
    requires DigitsLast(s)
    ensures Neat(Normalize(s)) && Trails(Normalize(s))
  {
    hide FieldsFrom, JoinWords, CleanTo, DigitOf;
    var t := CutBar(s);
    assert DigitsLast(t);
    var clean := CleanTo(t, |t|);
    CleanKeeps(t, |t|);
    var words := MapWords(Fields(clean), DigitWord);
    forall k | 0 <= k < |words| ensures Neat(words[k]) && Trails(words[k]) {
      FieldKeeps(clean, k);
      DigitOfIsDigit(Fields(clean)[k]);
    }
    JoinKeeps(words);
  }

  lemma DigitOfIsDigit(w: bytes)
    ensures DigitOf(w).Some? ==> IsDigit(DigitOf(w).value)
  {
  }

  lemma AloneSnoc(t: bytes, c: byte)
    requires Neat(t) && Alone(t) && (IsDigit(c) || Neat([c]))
    requires t != [] && IsDigit(t[|t| - 1]) ==> IsDigit(c) || IsBlank(c)
    ensures var u := t + (if IsDigit(c) then [SPACE, c] else [c]); Neat(u) && Alone(u)
  {
    var u := t + (if IsDigit(c) then [SPACE, c] else [c]);
    forall i | 0 <= i < |u| && IsDigit(u[i])
      ensures (i == 0 || IsBlank(u[i - 1])) && (i == |u| - 1 || IsBlank(u[i + 1]))
    {
      assert i < |t| ==> u[i] == t[i];
      assert 0 < i <= |t| ==> u[i - 1] == t[i - 1];
    }
  }

  lemma {:induction false} SpaceEachAlone(s: bytes)
    requires Neat(s) && Trails(s)
    ensures Neat(SpaceEach(s)) && Alone(SpaceEach(s))
    ensures s != [] ==> SpaceEach(s) != [] && SpaceEach(s)[|SpaceEach(s)| - 1] == s[|s| - 1]
  {
    hide Alone;
    if s == [] {
      NothingAlone();
    } else {
      var init, c := s[..|s| - 1], s[|s| - 1];
      SpaceEachAlone(init);
      assert init != [] && IsDigit(init[|init| - 1]) ==> IsDigit(s[|init|]) || IsBlank(s[|init|]);
      AloneSnoc(SpaceEach(init), c);
    }
  }

  lemma NothingAlone()
    ensures Alone([])
  {
  }

  // No letter right before a digit.
  predicate LettersApart(s: bytes) {
    forall i :: 0 <= i < |s| - 1 && IsLetter(s[i]) ==> !IsDigit(s[i + 1])
  }

  lemma AloneApart(s: bytes)
    requires Alone(s)
    ensures LettersApart(s)
  {
    forall i | 0 <= i < |s| - 1 && IsLetter(s[i]) ensures !IsDigit(s[i + 1]) {
      assert IsDigit(s[i + 1]) ==> IsBlank(s[i + 1 - 1]);
    }
  }

  lemma {:induction false} CleanNeat(s: bytes, i: nat)
    requires i <= |s| && Neat(s) && LettersApart(s)
    ensures CleanTo(s, i) == s[..i]
  {
    if i > 0 {
      CleanNeat(s, i - 1);
      assert CleanByte(s, i - 1) == [s[i - 1]];
      assert s[..i] == s[..i - 1] + [s[i - 1]];
    }
  }

  lemma {:induction false} CutNeat(s: bytes)
    requires Neat(s)
    ensures CutBar(s) == s
  {
    if s != [] {
      CutNeat(s[1..]);
    }
  }

  lemma FieldSpelled(s: bytes, k: nat)
    requires Alone(s) && k < |Fields(s)|
    ensures SingleDigit(Fields(s)[k]) || !HasDigit(Fields(s)[k])
  {
    hide FieldsFrom;
    var p := FieldPlace([], s, k);
    assert [] + s == s;
    FieldsAreWords([], s);
    PlacedAlone(s, p, Fields(s)[k]);
  }

  lemma PlacedAlone(s: bytes, p: nat, w: bytes)
    requires Alone(s) && Placed(s, p, w) && IsWord(w)
    ensures SingleDigit(w) || !HasDigit(w)
  {
    if i :| 0 <= i < |w| && IsDigit(w[i]) {
      var left, right := if i > 0 then i - 1 else i, if i < |w| - 1 then i + 1 else i;
      assert s[p + i] == w[i] && s[p + left] == w[left] && s[p + right] == w[right];
    }
  }

  // Every callsign a pilot's name is parsed to is spelled: whatever the name, its
  // digits are words of their own.
  lemma ParsedSpelled(tx: bytes)
    ensures ParsePilot(tx).Some? ==> Spelled(ParsePilot(tx).value)
  {
    hide SpaceDigits, Normalize, Kept, ReplaceHomophones, Spelled;
    var spaced := SpaceDigits(Normalize(RemoveTags(tx)));
    var heard := ReplaceHomophones(Before(RemoveAll(spaced, THIS_IS), REQUEST));
    KeptDigitsLast(heard, |heard|);
    var b := Kept(heard, |heard|).0;
    NormalizeKeeps(b);
    SpaceDigitsSpelled(Normalize(b));
  }

  lemma SpaceDigitsSpelled(s: bytes)
    requires Neat(s) && Trails(s)
    ensures Spelled(SpaceDigits(s))
  {
    hide FieldsFrom, JoinWords, CleanTo, SpaceEach, CutBar, DigitOf;
    var x := SpaceEach(s);
    SpaceEachAlone(s);
    CutNeat(x);
    AloneApart(x);
    CleanNeat(x, |x|);
    assert x[..|x|] == x;
    var fields := Fields(x);
    var words := MapWords(fields, DigitWord);
    FieldsAreWords([], x);
    forall k | 0 <= k < |words| ensures IsWord(words[k]) && (SingleDigit(words[k]) || !HasDigit(words[k])) {
      FieldSpelled(x, k);
      DigitOfIsDigit(fields[k]);
    }
    FieldsOfJoin(words);
  }

  // A spelled callsign that is strict is its own print.
  lemma SpelledCanonical(s: bytes)
    requires Spelled(s) && ParseStrict(s).Some?
    ensures Canonical(s)
  {
    hide FieldsFrom, JoinWords;
    var words := Fields(s);
    var n := |words|;
    var codeword := words[..n - 2];
    SpelledNumber(words[n - 2]);
    SpelledNumber(words[n - 1]);
    assert words == codeword + [words[n - 2]] + [words[n - 1]];
    JoinSnoc(codeword, words[n - 2]);
    JoinSnoc(codeword + [words[n - 2]], words[n - 1]);
  }

  lemma AtoiHasDigit(w: bytes)
    requires Atoi(w).Some?
    ensures HasDigit(w)
  {
    var signed := w[0] == MINUS || w[0] == 0x2B;
    assert IsDigit(w[if signed then 1 else 0]);
  }

  lemma SpelledNumber(w: bytes)
    requires (SingleDigit(w) || !HasDigit(w)) && Atoi(w).Some?
    ensures SingleDigit(w) && Atoi(w).value >= 0 && LuaText.IntText(Atoi(w).value) == w
  {
    AtoiHasDigit(w);
    var n := Atoi(w).value;
    assert w[..|w| - 1] == [] && LuaText.NatOf([]) == 0;
    assert n == (w[0] - 0x30) as int;
    assert LuaText.DigitsOf(n) == w;
  }
}
