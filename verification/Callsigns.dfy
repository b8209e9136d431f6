// Strict callsigns: a codeword and two numbers, parsed from and printed to text.
// Strings are their bytes; spaces and digits are the ASCII ones.
module Callsigns {
  import opened Wrappers
  import opened Bytes
  import opened LuaText

  datatype Strict = Strict(codeword: bytes, flight: int, position: int)

  const MAX_INT64 := 0x7FFF_FFFF_FFFF_FFFF

  // ---- words ----

  predicate IsBlank(c: byte) {
    c == SPACE || 0x09 <= c <= 0x0D
  }

  // The words of a text that continues the given word.
  function FieldsFrom(word: bytes, s: bytes): seq<bytes>
    decreases |s|
  {
    if s == [] then (if word == [] then [] else [word])
    else if IsBlank(s[0]) then (if word == [] then [] else [word]) + FieldsFrom([], s[1..])
    else FieldsFrom(word + [s[0]], s[1..])
  }

  // strings.Fields
  function Fields(s: bytes): seq<bytes> {
    FieldsFrom([], s)
  }

  // strings.Join with a space
  function JoinWords(words: seq<bytes>): bytes {
    if words == [] then []
    else if |words| == 1 then words[0]
    else words[0] + [SPACE] + JoinWords(words[1..])
  }

  predicate IsWord(w: bytes) {
    w != [] && forall i :: 0 <= i < |w| ==> !IsBlank(w[i])
  }

  predicate AreWords(words: seq<bytes>) {
    forall i :: 0 <= i < |words| ==> IsWord(words[i])
  }

  lemma {:induction false} FieldsAreWords(word: bytes, s: bytes)
    requires word == [] || IsWord(word)
    ensures AreWords(FieldsFrom(word, s))
    decreases |s|
  {
    if s != [] {
      if IsBlank(s[0]) {
        FieldsAreWords([], s[1..]);
      } else {
        FieldsAreWords(word + [s[0]], s[1..]);
      }
    }
  }

  lemma {:induction false} FieldsOfWord(word: bytes, w: bytes, rest: bytes)
    requires forall i :: 0 <= i < |w| ==> !IsBlank(w[i])
    ensures FieldsFrom(word, w + rest) == FieldsFrom(word + w, rest)
    decreases |w|
  {
    if w == [] {
      assert w + rest == rest && word + w == word;
    } else {
      assert (w + rest)[1..] == w[1..] + rest;
      FieldsOfWord(word + [w[0]], w[1..], rest);
      assert word + [w[0]] + w[1..] == word + w;
    }
  }

  // Splitting what was joined gives the words back.
  lemma {:induction false} FieldsOfJoin(words: seq<bytes>)
    requires AreWords(words)
    ensures Fields(JoinWords(words)) == words
  {
    if words != [] {
      var w := words[0];
      if |words| == 1 {
        FieldsOfWord([], w, []);
        assert w + [] == w && [] + w == w;
      } else {
        var rest := JoinWords(words[1..]);
        assert JoinWords(words) == w + ([SPACE] + rest);
        FieldsOfWord([], w, [SPACE] + rest);
        assert [] + w == w && ([SPACE] + rest)[1..] == rest;
        FieldsOfJoin(words[1..]);
      }
    }
  }

  // Words are split at each of the six blanks.
  lemma {:induction false} BlankSplits(word: bytes, a: bytes, c: byte, b: bytes)
    requires c == 0x20 || c == 0x09 || c == 0x0A || c == 0x0B || c == 0x0C || c == 0x0D
    ensures FieldsFrom(word, a + [c] + b) == FieldsFrom(word, a) + Fields(b)
    decreases |a|
  {
    var s := a + [c] + b;
    if a == [] {
      assert s[1..] == b;
    } else {
      assert s[1..] == a[1..] + [c] + b;
      if IsBlank(a[0]) {
        BlankSplits([], a[1..], c, b);
      } else {
        BlankSplits(word + [a[0]], a[1..], c, b);
      }
    }
  }

  lemma {:induction false} JoinSnoc(words: seq<bytes>, w: bytes)
    requires words != []
    ensures JoinWords(words + [w]) == JoinWords(words) + [SPACE] + w
  {
    if |words| > 1 {
      assert (words + [w])[1..] == words[1..] + [w];
      JoinSnoc(words[1..], w);
    } else {
      assert (words + [w])[1..] == [w];
    }
  }

  // ---- numbers ----

  // strconv.Atoi
  function Atoi(w: bytes): Option<int> {
    var signed := w != [] && (w[0] == MINUS || w[0] == 0x2B);
    var ds := if signed then w[1..] else w;
    if ds == [] || !AllDigits(ds) then None
    else
      var n: int := if signed && w[0] == MINUS then -(NatOf(ds) as int) else NatOf(ds);
      if -MAX_INT64 - 1 <= n <= MAX_INT64 then Some(n) else None
  }

  // Digits, with a sign or without, are their number if it fits in 64 bits.
  lemma AtoiSigned(ds: bytes)
    requires ds != [] && AllDigits(ds)
    ensures var n := NatOf(ds);
      && Atoi(ds) == (if n <= 9223372036854775807 then Some(n) else None)
      && Atoi([0x2B] + ds) == (if n <= 9223372036854775807 then Some(n) else None)
      && Atoi([0x2D] + ds) == (if n <= 9223372036854775808 then Some(-(n as int)) else None)
  {
    assert ([0x2B] + ds)[1..] == ds && ([0x2D] + ds)[1..] == ds;
    assert IsDigit(ds[0]);
  }

  lemma AtoiOfNat(n: nat)
    requires n <= MAX_INT64
    ensures Atoi(IntText(n)) == Some(n) && IsWord(IntText(n))
  {
    NatOfDigits(n);
  }

  // ---- strict callsigns ----

  predicate HasDigit(s: bytes) {
    exists i :: 0 <= i < |s| && IsDigit(s[i])
  }

  // parseStrictCallsign
  function ParseStrict(s: bytes): Option<Strict> {
    var words := Fields(s);
    if |words| < 3 then None
    else
      var flight, position := Atoi(words[|words| - 2]), Atoi(words[|words| - 1]);
      var codeword := JoinWords(words[..|words| - 2]);
      if flight.None? || flight.value < 0 || position.None? || position.value < 0 then None
      else if codeword == [] || HasDigit(codeword) then None
      else Some(Strict(codeword, flight.value, position.value))
  }

  // String
  function FormatStrict(c: Strict): bytes {
    c.codeword + [SPACE] + IntText(c.flight) + [SPACE] + IntText(c.position)
  }

  // What parsing can produce: a codeword of words separated by single spaces,
  // without digits, and numbers that are not negative and fit.
  predicate Normal(c: Strict) {
    && c.codeword != [] && c.codeword == JoinWords(Fields(c.codeword)) && !HasDigit(c.codeword)
    && 0 <= c.flight <= MAX_INT64 && 0 <= c.position <= MAX_INT64
  }

  // The name of a strict callsign in its own print.
  predicate Canonical(s: bytes) {
    ParseStrict(s).Some? && FormatStrict(ParseStrict(s).value) == s
  }

  lemma ParseNormal(s: bytes)
    ensures ParseStrict(s).Some? ==> Normal(ParseStrict(s).value)
  {
    var words := Fields(s);
    if ParseStrict(s).Some? {
      FieldsAreWords([], s);
      assert AreWords(words[..|words| - 2]);
      FieldsOfJoin(words[..|words| - 2]);
    }
  }

  lemma FormatWords(c: Strict)
    requires Normal(c)
    ensures Fields(FormatStrict(c)) == Fields(c.codeword) + [IntText(c.flight)] + [IntText(c.position)]
    ensures Fields(c.codeword) != []
  {
    hide FieldsFrom, IntText;
    var words := Fields(c.codeword);
    var f, p := IntText(c.flight), IntText(c.position);
    FieldsAreWords([], c.codeword);
    AtoiOfNat(c.flight);
    AtoiOfNat(c.position);
    assert words != [];
    JoinSnoc(words, f);
    JoinSnoc(words + [f], p);
    FieldsOfJoin(words + [f] + [p]);
  }

  // Printing and parsing again is the identity on normal callsigns.
  lemma ParseFormat(c: Strict)
    requires Normal(c)
    ensures ParseStrict(FormatStrict(c)) == Some(c)
  {
    hide Fields, JoinWords, Atoi, FormatStrict, IntText, HasDigit;
    FormatWords(c);
    AtoiOfNat(c.flight);
    AtoiOfNat(c.position);
    var all := Fields(FormatStrict(c));
    assert all[..|all| - 2] == Fields(c.codeword);
    assert all[|all| - 2] == IntText(c.flight) && all[|all| - 1] == IntText(c.position);
  }

  // A text is canonical exactly when it is the print of a normal callsign.
  lemma CanonicalIff(s: bytes)
    ensures Canonical(s) <==> exists c :: Normal(c) && FormatStrict(c) == s
  {
    if Canonical(s) {
      ParseNormal(s);
    }
    if c :| Normal(c) && FormatStrict(c) == s {
      ParseFormat(c);
    }
  }
}
