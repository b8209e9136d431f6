// Two names of pilots and the callsigns they have.
module PilotNames {
  import opened Wrappers
  import opened Bytes
  import opened Callsigns
  import opened PilotCallsigns
  import opened Collation
  import LuaText

  // Normalising words in lower case only replaces the digit words among them.
  lemma NormalizeWords(s: bytes, words: seq<bytes>)
    requires Neat(s) && LettersApart(s) && Fields(s) == words
    ensures Normalize(s) == JoinWords(MapWords(words, DigitWord))
  {
    hide JoinWords, CleanTo, DigitWord, MapWords, Fields;
    CutNeat(s);
    CleanNeat(s, |s|);
    assert s[..|s|] == s;
  }

  // A word, what follows it, and nothing before it.
  lemma WordFirst(w: bytes, s: bytes)
    requires IsWord(w) && (s == [] || IsBlank(s[0]))
    ensures Fields(w + s) == [w] + Fields(s)
  {
    FieldsOfWord([], w, s);
    assert [] + w == w;
    FieldsStep(w, s);
    FieldsStep([], s);
  }

  lemma {:induction false} LeadingBlanks(lead: bytes, s: bytes)
    requires forall i :: 0 <= i < |lead| ==> IsBlank(lead[i])
    ensures Fields(lead + s) == Fields(s)
  {
    if lead == [] {
      assert lead + s == s;
    } else {
      assert (lead + s)[1..] == lead[1..] + s;
      LeadingBlanks(lead[1..], s);
    }
  }

  lemma {:induction false} NoTags(s: bytes)
    requires LBRACKET !in s
    ensures RemoveTags(s) == s
  {
    if s != [] {
      NoTags(s[1..]);
    }
  }

  lemma NotPrefix(t: bytes, s: bytes)
    requires t != [] && s != [] && t[0] != s[0]
    ensures !(t <= s)
  {
  }

  // Where the first byte of t does not occur, t does not.
  lemma {:induction false} Unmatched(a: bytes, s: bytes, t: bytes)
    requires t != [] && t[0] !in a
    ensures RemoveAll(a + s, t) == a + RemoveAll(s, t)
  {
    if a == [] {
      assert a + s == s;
    } else {
      var u := a + s;
      assert u[0] == a[0] && u[1..] == a[1..] + s;
      NotPrefix(t, u);
      Unmatched(a[1..], s, t);
      assert RemoveAll(u, t) == [u[0]] + RemoveAll(u[1..], t);
      assert [a[0]] + (a[1..] + RemoveAll(s, t)) == a + RemoveAll(s, t);
    }
  }

  lemma {:induction false} NotBefore(s: bytes, t: bytes)
    requires t != [] && t[0] !in s
    ensures Before(s, t) == s
  {
    if s != [] {
      NotPrefix(t, s);
      NotBefore(s[1..], t);
    }
  }

  lemma {:induction false} KeptAll(s: bytes, i: nat)
    requires i <= |s| && !HasDigit(s)
    ensures Kept(s, i) == (s[..i], 0)
  {
    if i > 0 {
      KeptAll(s, i - 1);
      assert s[..i] == s[..i - 1] + [s[i - 1]];
    }
  }

  lemma {:induction false} SpaceEachConcat(a: bytes, b: bytes)
    ensures SpaceEach(a + b) == SpaceEach(a) + SpaceEach(b)
  {
    if b == [] {
      assert a + b == a;
    } else {
      assert (a + b)[..|a + b| - 1] == a + b[..|b| - 1];
      SpaceEachConcat(a, b[..|b| - 1]);
    }
  }

  lemma SpaceEachDigit(d: bytes)
    requires SingleDigit(d)
    ensures SpaceEach(d) == [SPACE] + d
  {
    assert d[..0] == [];
  }

  lemma {:induction false} SpaceEachNothing(s: bytes)
    requires !HasDigit(s)
    ensures SpaceEach(s) == s
  {
    if s != [] {
      SpaceEachNothing(s[..|s| - 1]);
      assert s == s[..|s| - 1] + [s[|s| - 1]];
    }
  }

  lemma JoinOne(w: bytes)
    ensures JoinWords([w]) == w
  {
  }

  lemma JoinTwo(v: bytes, w: bytes)
    ensures JoinWords([v, w]) == v + [SPACE] + w
  {
    assert [v, w][1..] == [w];
  }

  const ONE: bytes := [0x31]
  const TWO: bytes := [0x32]
  const NAME_12: bytes := [0x31, 0x32]
  const ONE_TWO: bytes := [0x31, SPACE, 0x32]

  predicate AllSpaces(s: bytes) {
    forall i :: 0 <= i < |s| ==> s[i] == SPACE
  }

  lemma TwelveWords()
    ensures IsWord(ONE) && IsWord(TWO) && IsWord(NAME_12)
    ensures JoinWords([ONE, TWO]) == ONE_TWO && JoinWords([NAME_12]) == NAME_12
    ensures MapWords([ONE, TWO], DigitWord) == [ONE, TWO] && MapWords([NAME_12], DigitWord) == [NAME_12]
    ensures MapWords([ONE, TWO], Misheard) == [ONE, TWO]
    ensures IsDigitPosition(ONE)
  {
    JoinOne(NAME_12);
    JoinTwo(ONE, TWO);
    assert IsDigit(ONE[0]);
  }

  // Both digits with some blanks before them.
  lemma TwelveFields(lead: bytes, gap: bytes)
    requires gap != [] && AllSpaces(lead) && AllSpaces(gap)
    ensures var s := lead + (ONE + (gap + TWO));
      Neat(s) && LettersApart(s) && Fields(s) == [ONE, TWO] && Normalize(s) == ONE_TWO
  {
    hide Normalize, Fields, FieldsFrom, JoinWords;
    var s := lead + (ONE + (gap + TWO));
    TwelveWords();
    assert TWO + [] == TWO;
    WordFirst(TWO, []);
    NoFields();
    LeadingBlanks(gap, TWO);
    assert (gap + TWO)[0] == gap[0];
    WordFirst(ONE, gap + TWO);
    LeadingBlanks(lead, ONE + (gap + TWO));
    NormalizeWords(s, [ONE, TWO]);
  }

  lemma NoFields()
    ensures Fields([]) == []
  {
  }

  lemma TwelveSpaced()
    ensures SpaceDigits(Normalize(NAME_12)) == ONE_TWO
  {
    hide Normalize, JoinWords, Fields;
    TwelveWords();
    assert NAME_12 + [] == NAME_12;
    WordFirst(NAME_12, []);
    NoFields();
    NormalizeWords(NAME_12, [NAME_12]);
    SpaceEachDigit(ONE);
    SpaceEachDigit(TWO);
    SpaceEachConcat(ONE, TWO);
    assert NAME_12 == ONE + TWO;
    assert SpaceEach(NAME_12) == [SPACE] + (ONE + ([SPACE] + TWO));
    TwelveFields([SPACE], [SPACE]);
  }

  lemma TwelveAgain()
    ensures SpaceDigits(Normalize(ONE_TWO)) == ONE_TWO
  {
    hide Normalize, JoinWords, Fields;
    assert ONE_TWO == [] + (ONE + ([SPACE] + TWO));
    TwelveFields([], [SPACE]);
    SpaceEachDigit(ONE);
    SpaceEachDigit(TWO);
    SpaceEachNothing([SPACE]);
    SpaceEachConcat(ONE, [SPACE] + TWO);
    SpaceEachConcat([SPACE], TWO);
    assert ONE_TWO == ONE + ([SPACE] + TWO);
    assert SpaceEach(ONE_TWO) == [SPACE] + (ONE + ([SPACE, SPACE] + TWO));
    TwelveFields([SPACE], [SPACE, SPACE]);
  }

  lemma TwelveHeard()
    ensures ReplaceHomophones(ONE_TWO) == ONE_TWO
    ensures Kept(ONE_TWO, 3).0 == ONE_TWO
  {
    hide JoinWords, Fields;
    TwelveWords();
    assert ONE_TWO == [] + (ONE + ([SPACE] + TWO));
    TwelveFields([], [SPACE]);
    assert [ONE, TWO][0] == ONE;
    assert Kept(ONE_TWO, 0) == ([], 0) && [] + [ONE_TWO[0]] == ONE;
    assert Kept(ONE_TWO, 1) == (ONE, 1);
    assert Kept(ONE_TWO, 2) == (ONE + [SPACE], 1);
    assert Kept(ONE_TWO, 3) == (ONE + [SPACE] + TWO, 2);
  }

  // The pilot "12" has the callsign "1 2".
  lemma TwelveParsed()
    ensures ParsePilot(NAME_12) == Some(ONE_TWO)
  {
    hide SpaceDigits, Normalize, ReplaceHomophones, Kept;
    NoTags(NAME_12);
    TwelveSpaced();
    assert ONE_TWO + [] == ONE_TWO;
    Unmatched(ONE_TWO, [], THIS_IS);
    NotBefore(ONE_TWO, REQUEST);
    TwelveHeard();
    TwelveAgain();
  }

  // eagle, othis, isne, one
  const EAGLE: bytes := [0x65, 0x61, 0x67, 0x6C, 0x65]
  const OTHIS: bytes := [0x6F, 0x74, 0x68, 0x69, 0x73]
  const ISNE: bytes := [0x69, 0x73, 0x6E, 0x65]
  const ONE_WORD: bytes := [0x6F, 0x6E, 0x65]

  const OTHIS_NAME: bytes := EAGLE + ([SPACE] + (OTHIS + ([SPACE] + (ISNE + ([SPACE] + FLIGHT_WORD)))))
  const ONE_NAME: bytes := EAGLE + ([SPACE] + (ONE_WORD + ([SPACE] + FLIGHT_WORD)))
  const ONE_FLIGHT: bytes := EAGLE + ([SPACE] + (ONE + ([SPACE] + FLIGHT_WORD)))

  // A word in lower case that is neither a digit's name nor heard as a digit.
  predicate Plain(w: bytes) {
    IsWord(w) && Neat(w) && !HasDigit(w) && DigitOf(w).None? && !IsDigitPosition(w)
  }

  lemma PlainEagle()
    ensures Plain(EAGLE)
  {
  }

  lemma PlainOthis()
    ensures Plain(OTHIS)
  {
  }

  lemma PlainIsne()
    ensures Plain(ISNE)
  {
  }

  lemma PlainFlight()
    ensures Plain(FLIGHT_WORD)
  {
  }

  lemma OneWord()
    ensures IsWord(ONE_WORD) && Neat(ONE_WORD) && !HasDigit(ONE_WORD) && !IsDigitPosition(ONE_WORD)
    ensures DigitOf(ONE_WORD) == Some(0x31) && IsWord(ONE) && DigitOf(ONE).None?
  {
  }

  lemma ThreeFields(a: bytes, b: bytes, gap: bytes, c: bytes)
    requires IsWord(a) && IsWord(b) && IsWord(c) && gap != [] && AllSpaces(gap)
    ensures Fields(a + (gap + (b + ([SPACE] + c)))) == [a, b, c]
    ensures JoinWords([a, b, c]) == a + ([SPACE] + (b + ([SPACE] + c)))
  {
    hide Fields, FieldsFrom, JoinWords;
    NoFields();
    assert c + [] == c;
    WordFirst(c, []);
    LeadingBlanks([SPACE], c);
    WordFirst(b, [SPACE] + c);
    LeadingBlanks(gap, b + ([SPACE] + c));
    assert (gap + (b + ([SPACE] + c)))[0] == gap[0];
    WordFirst(a, gap + (b + ([SPACE] + c)));
    JoinThree(a, b, c);
  }

  lemma JoinThree(a: bytes, b: bytes, c: bytes)
    ensures JoinWords([a, b, c]) == a + ([SPACE] + (b + ([SPACE] + c)))
  {
    assert [a, b, c][1..] == [b, c];
    JoinTwo(b, c);
  }

  // A text of three words in lower case, the middle one perhaps a digit.
  lemma NormalizeThree(a: bytes, b: bytes, gap: bytes, c: bytes, digit: bytes)
    requires Plain(a) && Plain(c) && IsWord(b) && (SingleDigit(b) || (Neat(b) && !HasDigit(b)))
    requires gap != [] && AllSpaces(gap) && DigitWord(b) == digit
    ensures Normalize(a + (gap + (b + ([SPACE] + c)))) == a + ([SPACE] + (digit + ([SPACE] + c)))
  {
    hide Fields, FieldsFrom, JoinWords, Normalize, DigitOf, DigitWord, IsDigitPosition, MapWords;
    var s := a + (gap + (b + ([SPACE] + c)));
    NeatThree(a, b, gap, c);
    ThreeFields(a, b, gap, c);
    NormalizeWords(s, [a, b, c]);
    PlainStays(a);
    PlainStays(c);
    assert MapWords([a, b, c], DigitWord) == [a, digit, c];
    JoinThree(a, digit, c);
  }

  lemma PlainStays(w: bytes)
    requires Plain(w)
    ensures DigitWord(w) == w
  {
  }

  lemma NeatThree(a: bytes, b: bytes, gap: bytes, c: bytes)
    requires Neat(a) && Neat(c) && (SingleDigit(b) || Neat(b)) && gap != [] && AllSpaces(gap)
    requires !HasDigit(a) && !HasDigit(c) && (SingleDigit(b) || !HasDigit(b))
    ensures var s := a + (gap + (b + ([SPACE] + c))); Neat(s) && LettersApart(s)
  {
    var s := a + (gap + (b + ([SPACE] + c)));
    assert forall i :: 0 <= i < |a| ==> s[i] == a[i] && !IsDigit(s[i]);
    assert forall i :: |a| <= i < |a| + |gap| ==> s[i] == gap[i - |a|] == SPACE;
    assert forall i :: |a| + |gap| <= i < |a| + |gap| + |b| ==> s[i] == b[i - |a| - |gap|];
    assert s[|a| + |gap| + |b|] == SPACE;
    assert forall i :: |a| + |gap| + |b| + 1 <= i < |s| ==> s[i] == c[i - (|a| + |gap| + |b| + 1)] && !IsDigit(s[i]);
    assert forall i :: 0 <= i < |s| && IsDigit(s[i]) ==> i == |a| + |gap|;
  }

  lemma {:induction false} PlainJoin(words: seq<bytes>)
    requires forall i :: 0 <= i < |words| ==> Plain(words[i])
    ensures Neat(JoinWords(words)) && !HasDigit(JoinWords(words))
  {
    hide DigitOf, IsDigitPosition;
    if |words| > 1 {
      PlainJoin(words[1..]);
    }
  }

  // Nothing changes in plain words.
  lemma PlainNormal(words: seq<bytes>)
    requires forall i :: 0 <= i < |words| ==> Plain(words[i])
    ensures var s := JoinWords(words); Normalize(s) == s && SpaceDigits(s) == s
  {
    hide Fields, FieldsFrom, JoinWords, Normalize, DigitOf, DigitWord, IsDigitPosition;
    var s := JoinWords(words);
    PlainJoin(words);
    FieldsOfJoin(words);
    NormalizeWords(s, words);
    forall i | 0 <= i < |words| ensures DigitWord(words[i]) == words[i] {
      PlainStays(words[i]);
    }
    assert MapWords(words, DigitWord) == words;
    SpaceEachNothing(s);
  }

  lemma JoinFour(a: bytes, b: bytes, c: bytes, d: bytes)
    ensures JoinWords([a, b, c, d]) == a + ([SPACE] + (b + ([SPACE] + (c + ([SPACE] + d)))))
  {
    assert [a, b, c, d][1..] == [b, c, d];
    JoinThree(b, c, d);
  }

  lemma OthisSpaced()
    ensures SpaceDigits(Normalize(OTHIS_NAME)) == OTHIS_NAME
  {
    hide Normalize, JoinWords, Plain;
    PlainEagle();
    PlainOthis();
    PlainIsne();
    PlainFlight();
    JoinFour(EAGLE, OTHIS, ISNE, FLIGHT_WORD);
    PlainNormal([EAGLE, OTHIS, ISNE, FLIGHT_WORD]);
  }

  // Taking "this is" out of "othis isne" leaves "one".
  lemma OthisCut()
    ensures RemoveAll(OTHIS_NAME, THIS_IS) == ONE_NAME
  {
    hide RemoveAll;
    var head: bytes, tail: bytes, t: bytes := EAGLE + [SPACE, 0x6F], [0x6E, 0x65, SPACE, 0x66, 0x6C, 0x69, 0x67, 0x68], [0x74];
    assert OTHIS_NAME == head + (THIS_IS + (tail + t));
    Unmatched(head, THIS_IS + (tail + t), THIS_IS);
    Matched(tail + t, THIS_IS);
    Unmatched(tail, t, THIS_IS);
    TooShort(t, THIS_IS);
    assert ONE_NAME == head + (tail + t);
  }

  lemma Matched(s: bytes, t: bytes)
    requires t != []
    ensures RemoveAll(t + s, t) == RemoveAll(s, t)
  {
    assert (t + s)[|t|..] == s;
  }

  lemma TooShort(s: bytes, t: bytes)
    requires |s| == 1 < |t|
    ensures RemoveAll(s, t) == s
  {
    assert s[1..] == [];
  }

  lemma OneHeard()
    ensures ReplaceHomophones(ONE_NAME) == ONE_NAME
    ensures Kept(ONE_NAME, |ONE_NAME|).0 == ONE_NAME
  {
    hide Fields, FieldsFrom, JoinWords;
    PlainEagle();
    PlainFlight();
    OneWord();
    ThreeFields(EAGLE, ONE_WORD, [SPACE], FLIGHT_WORD);
    KeptAll(ONE_NAME, |ONE_NAME|);
  }

  lemma OneAgain()
    ensures SpaceDigits(Normalize(ONE_NAME)) == ONE_FLIGHT
  {
    hide Normalize, Plain, DigitOf;
    PlainEagle();
    PlainFlight();
    OneWord();
    NormalizeThree(EAGLE, ONE_WORD, [SPACE], FLIGHT_WORD, ONE);
    SpaceEachDigit(ONE);
    SpaceEachNothing(EAGLE + [SPACE]);
    SpaceEachNothing([SPACE] + FLIGHT_WORD);
    SpaceEachConcat(EAGLE + [SPACE], ONE + ([SPACE] + FLIGHT_WORD));
    SpaceEachConcat(ONE, [SPACE] + FLIGHT_WORD);
    assert ONE_FLIGHT == EAGLE + [SPACE] + (ONE + ([SPACE] + FLIGHT_WORD));
    assert SpaceEach(ONE_FLIGHT) == EAGLE + ([SPACE, SPACE] + (ONE + ([SPACE] + FLIGHT_WORD)));
    NormalizeThree(EAGLE, ONE, [SPACE, SPACE], FLIGHT_WORD, ONE);
  }

  // The pilot "eagle othis isne flight" has the callsign "eagle 1 flight", which is
  // how the whole of a flight is called.
  lemma OthisParsed()
    ensures ParsePilot(OTHIS_NAME) == Some(ONE_FLIGHT)
    ensures ONE_FLIGHT == Render(WholeFlight(EAGLE, 1))
  {
    hide SpaceDigits, Normalize, ReplaceHomophones, Kept, RemoveAll;
    NoTags(OTHIS_NAME);
    OthisSpaced();
    OthisCut();
    NotBefore(ONE_NAME, REQUEST);
    OneHeard();
    OneAgain();
    assert LuaText.IntText(1) == ONE;
  }
}
