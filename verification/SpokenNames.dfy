// Names as they are spoken: a codeword and up to three digits, each as a digit, as a
// word, or as what is misheard for it. And what about a name does not matter.
module SpokenNames {
  import opened Wrappers
  import opened Bytes
  import opened Callsigns
  import opened PilotCallsigns
  import opened PilotNames

  // ---- words for digits ----

  predicate SaysDigit(w: bytes, d: byte) {
    || w == [d]
    || (d == 0x30 && w == Ascii("zero"))
    || (d == 0x31 && (w == Ascii("one") || w == Ascii("won")))
    || (d == 0x32 && (w == Ascii("two") || w == Ascii("to") || w == Ascii("too") || w == Ascii("tu")))
    || (d == 0x33 && (w == Ascii("three") || w == Ascii("free") || w == Ascii("tree")))
    || (d == 0x34 && (w == Ascii("four") || w == Ascii("for") || w == Ascii("fore")))
    || (d == 0x35 && w == Ascii("five"))
    || (d == 0x36 && w == Ascii("six"))
    || (d == 0x37 && w == Ascii("seven"))
    || (d == 0x38 && (w == Ascii("eight") || w == Ascii("ate")))
    || (d == 0x39 && (w == Ascii("nine") || w == Ascii("niner")))
  }

  // Lower-case letters alone, and no word for digits.
  predicate IsCodeword(w: bytes) {
    && IsWord(w) && Neat(w) && !HasDigit(w) && w != Ascii("tutu")
    && forall d: byte :: IsDigit(d) ==> !SaysDigit(w, d)
  }

  // The word behind the first normalisation: digit words are digits, what is misheard
  // stays.
  predicate IsHeard(w: bytes, d: byte) {
    w == [d] || (Homophone(w) == Some([d]) && DigitOf(w).None? && !HasDigit(w) && Neat(w))
  }

  lemma WordBytes1()
    ensures Ascii("zero") == [0x7A, 0x65, 0x72, 0x6F]
    ensures Ascii("one") == [0x6F, 0x6E, 0x65]
    ensures Ascii("won") == [0x77, 0x6F, 0x6E]
    ensures Ascii("two") == [0x74, 0x77, 0x6F]
    ensures Ascii("to") == [0x74, 0x6F]
    ensures Ascii("too") == [0x74, 0x6F, 0x6F]
    ensures Ascii("tu") == [0x74, 0x75]
  {
  }

  lemma WordBytes2()
    ensures Ascii("tutu") == [0x74, 0x75, 0x74, 0x75]
    ensures Ascii("three") == [0x74, 0x68, 0x72, 0x65, 0x65]
    ensures Ascii("free") == [0x66, 0x72, 0x65, 0x65]
    ensures Ascii("tree") == [0x74, 0x72, 0x65, 0x65]
    ensures Ascii("four") == [0x66, 0x6F, 0x75, 0x72]
    ensures Ascii("for") == [0x66, 0x6F, 0x72]
    ensures Ascii("fore") == [0x66, 0x6F, 0x72, 0x65]
  {
  }

  lemma WordBytes3()
    ensures Ascii("five") == [0x66, 0x69, 0x76, 0x65]
    ensures Ascii("six") == [0x73, 0x69, 0x78]
    ensures Ascii("seven") == [0x73, 0x65, 0x76, 0x65, 0x6E]
    ensures Ascii("eight") == [0x65, 0x69, 0x67, 0x68, 0x74]
    ensures Ascii("ate") == [0x61, 0x74, 0x65]
    ensures Ascii("nine") == [0x6E, 0x69, 0x6E, 0x65]
    ensures Ascii("niner") == [0x6E, 0x69, 0x6E, 0x65, 0x72]
  {
  }

  lemma DigitsSpoken(w: bytes, d: byte)
    requires IsDigit(d) && SaysDigit(w, d)
    ensures IsWord(w) && Neat(w) && (SingleDigit(w) || !HasDigit(w))
    ensures IsHeard(DigitWord(w), d)
  {
    hide Ascii;
    WordBytes1();
    WordBytes2();
    WordBytes3();
    SpokenIs(w, d);
  }

  // In bytes.
  lemma SpokenIs(w: bytes, d: byte)
    requires IsDigit(d) && (w == [d] || DigitOf(w) == Some(d) || Homophone(w) == Some([d]))
    ensures IsWord(w) && Neat(w) && (SingleDigit(w) || !HasDigit(w))
    ensures IsHeard(DigitWord(w), d)
  {
    hide DigitOf, Homophone, HasDigit, Neat, IsWord;
    if w == [d] {
      OneDigitIs(d);
    } else if Homophone(w) == Some([d]) {
      HomophoneIs(w);
      HomophoneNoDigit(w);
    } else {
      DigitWordIs(w);
    }
  }

  lemma OneDigitIs(d: byte)
    requires IsDigit(d)
    ensures IsWord([d]) && Neat([d]) && DigitOf([d]).None?
  {
  }

  lemma DigitWordIs(w: bytes)
    requires DigitOf(w).Some?
    ensures IsWord(w) && Neat(w) && !HasDigit(w)
  {
  }

  lemma HomophoneIs(w: bytes)
    requires Homophone(w).Some?
    ensures IsWord(w) && Neat(w) && !HasDigit(w)
  {
  }

  lemma HomophoneNoDigit(w: bytes)
    requires Homophone(w).Some?
    ensures DigitOf(w).None?
  {
  }

  // No other word stands for a digit.
  lemma CodewordStays(w: bytes)
    requires IsCodeword(w)
    ensures DigitWord(w) == w && !IsDigitPosition(w)
  {
    hide Ascii, SaysDigit;
    if DigitOf(w).Some? {
      DigitSaid(w, DigitOf(w).value);
    }
    if Homophone(w).Some? {
      HomophoneSaid(w);
    }
  }

  lemma DigitSaid(w: bytes, d: byte)
    requires DigitOf(w) == Some(d)
    ensures IsDigit(d) && SaysDigit(w, d)
  {
    hide Ascii;
    WordBytes1();
    WordBytes2();
    WordBytes3();
  }

  lemma HomophoneSaid(w: bytes)
    requires Homophone(w).Some?
    ensures w == Ascii("tutu") || exists d: byte :: IsDigit(d) && SaysDigit(w, d)
  {
    hide Ascii;
    WordBytes1();
    WordBytes2();
    WordBytes3();
    if w != Ascii("tutu") {
      assert SaysDigit(w, Homophone(w).value[0]);
    }
  }

  // ---- words side by side ----

  // A word of lower-case letters, or one digit.
  predicate IsToken(w: bytes) {
    IsWord(w) && Neat(w) && (SingleDigit(w) || !HasDigit(w))
  }

  predicate AreTokens(words: seq<bytes>) {
    forall i :: 0 <= i < |words| ==> IsToken(words[i])
  }

  lemma {:induction false} TokensAlone(words: seq<bytes>)
    requires AreTokens(words)
    ensures var s := JoinWords(words); Neat(s) && Alone(s)
  {
    if |words| == 1 {
      var w := words[0];
      assert forall i :: 0 <= i < |w| && IsDigit(w[i]) ==> |w| == 1;
    } else if |words| > 1 {
      var w, rest := words[0], JoinWords(words[1..]);
      TokensAlone(words[1..]);
      AloneJoin(w, rest);
    }
  }

  lemma AloneJoin(w: bytes, rest: bytes)
    requires IsToken(w) && Neat(rest) && Alone(rest)
    ensures var s := w + [SPACE] + rest; Neat(s) && Alone(s)
  {
    var s := w + [SPACE] + rest;
    var n := |w| + 1;
    assert forall i :: 0 <= i < |w| ==> s[i] == w[i];
    assert s[|w|] == SPACE;
    assert forall i :: n <= i < |s| ==> s[i] == rest[i - n];
    forall i | 0 <= i < |s| && IsDigit(s[i])
      ensures (i == 0 || IsBlank(s[i - 1])) && (i == |s| - 1 || IsBlank(s[i + 1]))
    {
      if i < |w| {
        assert |w| == 1;
      } else {
        assert IsDigit(rest[i - n]);
        assert i > n ==> s[i - 1] == rest[i - n - 1];
      }
    }
  }

  lemma SpacedToken(w: bytes)
    requires IsToken(w)
    ensures SpaceEach(w) == w || SpaceEach(w) == [SPACE] + w
  {
    if SingleDigit(w) {
      SpaceEachDigit(w);
    } else {
      SpaceEachNothing(w);
    }
  }

  lemma SpacedFirst(w: bytes, rest: bytes)
    requires IsToken(w) && (rest == [] || IsBlank(rest[0]))
    ensures Fields(SpaceEach(w) + rest) == [w] + Fields(rest)
  {
    hide FieldsFrom, SpaceEach;
    SpacedToken(w);
    WordFirst(w, rest);
    LeadingBlanks([SPACE], w + rest);
    assert [SPACE] + w + rest == [SPACE] + (w + rest);
  }

  // Spacing the digits out leaves the words as they are.
  lemma {:induction false} SpacedFields(words: seq<bytes>)
    requires AreTokens(words)
    ensures Fields(SpaceEach(JoinWords(words))) == words
  {
    hide FieldsFrom, SpaceEach, IsToken;
    if words == [] {
      assert JoinWords([]) == [];
      SpaceEachNothing([]);
      NoFields();
    } else if |words| == 1 {
      NoFields();
      SpacedFirst(words[0], []);
      assert SpaceEach(words[0]) + [] == SpaceEach(words[0]);
    } else {
      var w, rest := words[0], JoinWords(words[1..]);
      SpacedFields(words[1..]);
      SpaceEachConcat(w + [SPACE], rest);
      SpaceEachConcat(w, [SPACE]);
      SpaceEachNothing([SPACE]);
      SpacedFirst(w, [SPACE] + SpaceEach(rest));
      LeadingBlanks([SPACE], SpaceEach(rest));
      assert SpaceEach(w) + [SPACE] + SpaceEach(rest) == SpaceEach(w) + ([SPACE] + SpaceEach(rest));
    }
  }

  lemma AloneTrails(s: bytes)
    requires Alone(s)
    ensures Trails(s)
  {
  }

  lemma TokensAreWords(words: seq<bytes>)
    requires AreTokens(words)
    ensures AreWords(words)
  {
  }

  // Words in lower case and digits on their own: both normalisations only replace the
  // digit words.
  lemma TokensNormal(words: seq<bytes>)
    requires AreTokens(words)
    ensures var s := JoinWords(words);
      Normalize(s) == SpaceDigits(s) == JoinWords(MapWords(words, DigitWord))
  {
    hide FieldsFrom, Fields, JoinWords, Normalize, SpaceEach, DigitWord, MapWords, IsToken, Alone, Neat;
    var s := JoinWords(words);
    TokensAlone(words);
    TokensAreWords(words);
    FieldsOfJoin(words);
    AloneApart(s);
    NormalizeWords(s, words);
    AloneTrails(s);
    SpaceEachAlone(s);
    AloneApart(SpaceEach(s));
    SpacedFields(words);
    NormalizeWords(SpaceEach(s), words);
  }

  // ---- the stop words ----

  ghost predicate Occurs(s: bytes, t: bytes) {
    exists i: nat :: At(s, i, t)
  }

  lemma NotAtStart(s: bytes, t: bytes)
    requires !Occurs(s, t)
    ensures !(t <= s)
    ensures s != [] ==> !Occurs(s[1..], t)
  {
    if t <= s {
      assert At(s, 0, t);
    }
    if s != [] && Occurs(s[1..], t) {
      var i: nat :| At(s[1..], i, t);
      assert s[i + 1..i + 1 + |t|] == s[1..][i..i + |t|];
      assert At(s, i + 1, t);
    }
  }

  lemma {:induction false} NothingRemoved(s: bytes, t: bytes)
    requires t != [] && !Occurs(s, t)
    ensures RemoveAll(s, t) == s && Before(s, t) == s
  {
    NotAtStart(s, t);
    if s != [] {
      NothingRemoved(s[1..], t);
    }
  }

  // ---- spoken names ----

  predicate AreSpoken(words: seq<bytes>, digits: bytes) {
    |words| == |digits| && forall i :: 0 <= i < |words| ==> IsDigit(digits[i]) && SaysDigit(words[i], digits[i])
  }

  predicate AreCodewords(words: seq<bytes>) {
    forall i :: 0 <= i < |words| ==> IsCodeword(words[i])
  }

  function Each(digits: bytes): (words: seq<bytes>)
    ensures |words| == |digits| && forall i :: 0 <= i < |words| ==> words[i] == [digits[i]]
  {
    seq(|digits|, i requires 0 <= i < |digits| => [digits[i]])
  }

  // The words after digit words have become digits.
  function HeardWords(words: seq<bytes>): seq<bytes> {
    MapWords(words, DigitWord)
  }

  predicate AreHeard(words: seq<bytes>, digits: bytes) {
    |words| == |digits| && forall i :: 0 <= i < |words| ==> IsDigit(digits[i]) && IsHeard(words[i], digits[i])
  }

  lemma CodewordsStay(words: seq<bytes>)
    requires AreCodewords(words)
    ensures MapWords(words, DigitWord) == words && AreTokens(words)
    ensures forall i :: 0 <= i < |words| ==> !IsDigitPosition(words[i])
  {
    hide DigitWord, IsDigitPosition;
    forall i | 0 <= i < |words| ensures DigitWord(words[i]) == words[i] && !IsDigitPosition(words[i]) && IsToken(words[i]) {
      CodewordStays(words[i]);
    }
  }

  lemma SpokenHeard(words: seq<bytes>, digits: bytes)
    requires AreSpoken(words, digits)
    ensures AreTokens(words) && AreHeard(MapWords(words, DigitWord), digits)
  {
    hide SaysDigit, IsHeard, DigitWord;
    forall i | 0 <= i < |words| ensures IsToken(words[i]) && IsHeard(DigitWord(words[i]), digits[i]) {
      DigitsSpoken(words[i], digits[i]);
    }
  }

  lemma HeardIs(w: bytes, d: byte)
    requires IsDigit(d) && IsHeard(w, d)
    ensures IsToken(w) && DigitWord(w) == w && IsDigitPosition(w) && Misheard(w) == [d]
  {
    assert |SUFFIXES| == 4;
    assert Homophone(w).Some? ==> IsWord(w);
    if w == [d] {
      assert IsDigit(w[0]) && HasDigit(w) && Homophone(w).None?;
    }
    assert StripFrom([d], 4) == [d];
    assert StripFrom([d], 3) == [d];
    assert StripFrom([d], 2) == [d];
    assert StripFrom([d], 1) == [d];
  }

  lemma HeardTokens(words: seq<bytes>, digits: bytes)
    requires AreHeard(words, digits)
    ensures AreTokens(words) && MapWords(words, DigitWord) == words && MapWords(words, Misheard) == Each(digits)
    ensures words != [] ==> IsDigitPosition(words[0])
  {
    hide IsHeard, DigitWord, Misheard, IsToken, IsDigitPosition;
    forall i | 0 <= i < |words|
      ensures IsToken(words[i]) && DigitWord(words[i]) == words[i] && IsDigitPosition(words[i]) && Misheard(words[i]) == [digits[i]]
    {
      HeardIs(words[i], digits[i]);
    }
  }

  lemma DigitsHeard(digits: bytes)
    requires forall i :: 0 <= i < |digits| ==> IsDigit(digits[i])
    ensures AreHeard(Each(digits), digits)
  {
  }

  lemma MapConcat(a: seq<bytes>, b: seq<bytes>, f: bytes -> bytes)
    ensures MapWords(a + b, f) == MapWords(a, f) + MapWords(b, f)
  {
  }

  lemma TokensConcat(a: seq<bytes>, b: seq<bytes>)
    requires AreTokens(a) && AreTokens(b)
    ensures AreTokens(a + b)
  {
  }

  // Behind the codewords every word is replaced by its digit.
  lemma HeardReplaced(codeword: seq<bytes>, words: seq<bytes>, digits: bytes)
    requires AreHeard(words, digits) && AreTokens(codeword)
    requires forall i :: 0 <= i < |codeword| ==> !IsDigitPosition(codeword[i])
    ensures ReplaceHomophones(JoinWords(codeword + words)) == JoinWords(codeword + Each(digits))
  {
    hide IsHeard, IsToken, IsDigitPosition, Misheard, JoinWords, Fields, FieldsFrom;
    var all := codeword + words;
    HeardTokens(words, digits);
    TokensConcat(codeword, words);
    TokensAreWords(all);
    FieldsOfJoin(all);
    if words == [] {
      assert all == codeword && codeword + Each(digits) == codeword;
    } else {
      assert all[|codeword|] == words[0] && words[0] in all;
      ReplacedFrom(all, |codeword|);
      forall i | 0 <= i < |all| ensures Replaced(all)[i] == (codeword + Each(digits))[i] {
        if i >= |codeword| {
          assert Misheard(words[i - |codeword|]) == MapWords(words, Misheard)[i - |codeword|];
        }
      }
      assert Replaced(all) == codeword + Each(digits);
    }
  }

  // ---- up to three digits are kept ----

  function CountDigits(s: bytes): nat {
    if s == [] then 0 else CountDigits(s[..|s| - 1]) + (if IsDigit(s[|s| - 1]) then 1 else 0)
  }

  lemma {:induction false} CountConcat(a: bytes, b: bytes)
    ensures CountDigits(a + b) == CountDigits(a) + CountDigits(b)
  {
    if b == [] {
      assert a + b == a;
    } else {
      assert (a + b)[..|a + b| - 1] == a + b[..|b| - 1];
      CountConcat(a, b[..|b| - 1]);
    }
  }

  // The text ends with its last digit, if it has one.
  predicate EndsInDigit(s: bytes) {
    s != [] && IsDigit(s[|s| - 1])
  }

  lemma CountLast(s: bytes, i: nat)
    requires 0 < i <= |s|
    ensures CountDigits(s[..i]) == CountDigits(s[..i - 1]) + (if IsDigit(s[i - 1]) then 1 else 0)
    ensures s[..i] == s[..i - 1] + [s[i - 1]]
    ensures EndsInDigit(s[..i]) <==> IsDigit(s[i - 1])
  {
    assert s[..i][..i - 1] == s[..i - 1] && s[..i][i - 1] == s[i - 1];
  }

  // Behind a digit there are digits and blanks only.
  lemma BehindDigit(s: bytes, i: nat)
    requires DigitsLast(s) && i < |s| && CountDigits(s[..i]) > 0
    ensures IsDigit(s[i]) || IsBlank(s[i])
  {
    HasOne(s[..i]);
    var k :| 0 <= k < i && IsDigit(s[..i][k]);
    assert IsDigit(s[k]);
  }

  lemma {:induction false} KeptWhole(s: bytes, i: nat)
    requires i <= |s| && DigitsLast(s) && CountDigits(s[..i]) <= 3
    requires i < |s| ==> CountDigits(s[..i]) < 3
    requires CountDigits(s[..i]) == 3 ==> EndsInDigit(s[..i])
    ensures Kept(s, i) == (s[..i], CountDigits(s[..i]))
  {
    hide CountDigits, DigitsLast, EndsInDigit;
    if i > 0 {
      CountLast(s, i);
      KeptWhole(s, i - 1);
      if CountDigits(s[..i - 1]) > 0 {
        BehindDigit(s, i - 1);
      }
    } else {
      NothingCounted();
      assert s[..0] == [];
    }
  }

  lemma NothingCounted()
    ensures CountDigits([]) == 0
  {
  }

  lemma {:induction false} HasOne(s: bytes)
    requires CountDigits(s) > 0
    ensures HasDigit(s)
  {
    var init := s[..|s| - 1];
    if !IsDigit(s[|s| - 1]) {
      HasOne(init);
      var k :| 0 <= k < |init| && IsDigit(init[k]);
      assert s[k] == init[k];
    }
  }

  lemma {:induction false} NoneCounted(s: bytes)
    requires !HasDigit(s)
    ensures CountDigits(s) == 0
  {
    if CountDigits(s) > 0 {
      HasOne(s);
    }
  }

  // The digits behind a text without any.
  function Behind(front: bytes, digits: bytes): bytes {
    if digits == [] then front
    else
      var before := Behind(front, digits[..|digits| - 1]);
      (if before == [] then [] else before + [SPACE]) + [digits[|digits| - 1]]
  }

  lemma {:induction false} BehindJoins(codeword: seq<bytes>, digits: bytes)
    requires forall i :: 0 <= i < |codeword| ==> codeword[i] != []
    ensures JoinWords(codeword + Each(digits)) == Behind(JoinWords(codeword), digits)
    ensures codeword + Each(digits) != [] ==> JoinWords(codeword + Each(digits)) != []
  {
    hide JoinWords;
    if digits == [] {
      assert codeword + Each(digits) == codeword;
      if codeword != [] {
        JoinedNotEmpty(codeword);
      }
    } else {
      var init, last := digits[..|digits| - 1], digits[|digits| - 1];
      var words := codeword + Each(init);
      assert codeword + Each(digits) == words + [[last]];
      BehindJoins(codeword, init);
      if words == [] {
        assert words + [[last]] == [[last]];
        JoinOne([last]);
        JoinNothing();
      } else {
        JoinSnoc(words, [last]);
      }
    }
  }

  lemma JoinNothing()
    ensures JoinWords([]) == []
  {
  }

  lemma JoinedNotEmpty(words: seq<bytes>)
    requires words != [] && words[0] != []
    ensures JoinWords(words) != []
  {
  }

  lemma {:induction false} BehindShape(front: bytes, digits: bytes)
    requires !HasDigit(front) && forall i :: 0 <= i < |digits| ==> IsDigit(digits[i])
    ensures var s := Behind(front, digits);
      DigitsLast(s) && CountDigits(s) == |digits| && (digits != [] ==> EndsInDigit(s))
  {
    if digits == [] {
      NoneCounted(front);
    } else {
      var init, last := digits[..|digits| - 1], digits[|digits| - 1];
      var before := Behind(front, init);
      BehindShape(front, init);
      LastCounted(before, last);
    }
  }

  lemma LastCounted(before: bytes, d: byte)
    requires DigitsLast(before) && IsDigit(d)
    ensures var s := (if before == [] then [] else before + [SPACE]) + [d];
      DigitsLast(s) && CountDigits(s) == CountDigits(before) + 1 && EndsInDigit(s)
  {
    var gap: bytes := if before == [] then [] else [SPACE];
    var s := before + gap + [d];
    CountConcat(before + gap, [d]);
    CountConcat(before, gap);
    assert [d][..0] == [] && [SPACE][..0] == [] && CountDigits([]) == 0;
    assert CountDigits([d]) == 1 && CountDigits(gap) == 0;
    forall i, j | 0 <= i < j < |s| && IsDigit(s[i]) ensures IsDigit(s[j]) || IsBlank(s[j]) {
      if j < |before| {
        assert s[i] == before[i] && s[j] == before[j];
      }
    }
  }

  lemma {:induction false} CodewordsPlain(words: seq<bytes>)
    requires AreCodewords(words)
    ensures !HasDigit(JoinWords(words))
  {
    hide SaysDigit;
    if |words| > 1 {
      CodewordsPlain(words[1..]);
    }
  }

  lemma {:induction false} KeptPrefix(s: bytes, i: nat, j: nat)
    requires j <= i <= |s|
    ensures Kept(s, j) == Kept(s[..i], j)
  {
    if j > 0 {
      KeptPrefix(s, i, j - 1);
    }
  }

  lemma {:induction false} BehindPrefix(front: bytes, digits: bytes, n: nat)
    requires n <= |digits|
    ensures Behind(front, digits[..n]) <= Behind(front, digits)
    decreases |digits|
  {
    if n < |digits| {
      var init := digits[..|digits| - 1];
      BehindPrefix(front, init, n);
      assert init[..n] == digits[..n];
    } else {
      assert digits[..n] == digits;
    }
  }

  // The first three of the digits.
  function FirstThree(digits: bytes): bytes {
    if |digits| <= 3 then digits else digits[..3]
  }

  // What stands behind the third digit is dropped.
  lemma KeptThree(front: bytes, digits: bytes)
    requires !HasDigit(front) && forall i :: 0 <= i < |digits| ==> IsDigit(digits[i])
    ensures var s := Behind(front, digits); Kept(s, |s|).0 == Behind(front, FirstThree(digits))
  {
    hide Behind, Kept, HasDigit;
    var s, first := Behind(front, digits), FirstThree(digits);
    var u := Behind(front, first);
    KeptAllDigits(front, first);
    if |digits| > 3 {
      BehindPrefix(front, digits, 3);
      assert s[..|u|] == u;
      KeptPrefix(s, |u|, |u|);
      BehindShape(front, first);
      assert u[..|u|] == u;
      KeptWhole(u, |u|);
      KeptFull(s, |u|);
    }
  }

  lemma KeptAllDigits(front: bytes, digits: bytes)
    requires !HasDigit(front) && |digits| <= 3 && forall i :: 0 <= i < |digits| ==> IsDigit(digits[i])
    ensures var s := Behind(front, digits); Kept(s, |s|).0 == s
  {
    hide Behind;
    var s := Behind(front, digits);
    BehindShape(front, digits);
    assert s[..|s|] == s;
    KeptWhole(s, |s|);
  }

  // ---- the callsign of a spoken name ----

  lemma NoBracket(s: bytes)
    requires Neat(s)
    ensures LBRACKET !in s
  {
  }

  // A name of words and spoken digits is called by the words and the first three
  // digits, unless one of the stop words is heard in it.
  lemma SpokenParsed(codeword: seq<bytes>, words: seq<bytes>, digits: bytes)
    requires AreCodewords(codeword) && AreSpoken(words, digits) && codeword + words != []
    requires var heard := JoinWords(codeword + HeardWords(words));
      !Occurs(heard, Ascii("this is")) && !Occurs(heard, Ascii("request"))
    ensures ParsePilot(JoinWords(codeword + words)) == Some(JoinWords(codeword + Each(FirstThree(digits))))
  {
    hide AreCodewords, AreSpoken, AreTokens, AreHeard, JoinWords, Normalize, SpaceDigits, ReplaceHomophones, Kept, Occurs, Fields, FieldsFrom, IsDigitPosition, FirstThree;
    var name := codeword + words;
    var heard := HeardWords(words);
    var text := JoinWords(codeword + heard);
    CodewordsStay(codeword);
    SpokenHeard(words, digits);
    HeardTokens(heard, digits);
    TokensConcat(codeword, words);
    TokensConcat(codeword, heard);
    MapConcat(codeword, words, DigitWord);
    MapConcat(codeword, heard, DigitWord);
    TokensNormal(name);
    TokensNormal(codeword + heard);
    TokensAlone(name);
    NoBracket(JoinWords(name));
    NoTags(JoinWords(name));
    assert Ascii("this is") == THIS_IS && Ascii("request") == REQUEST;
    NothingRemoved(text, THIS_IS);
    NothingRemoved(text, REQUEST);
    HeardReplaced(codeword, heard, digits);
    CallsignKept(codeword, words, digits);
    SpokenDigits(words, digits);
    FirstAreDigits(digits);
    CallsignStays(codeword, FirstThree(digits));
  }

  lemma FirstAreDigits(digits: bytes)
    requires forall i :: 0 <= i < |digits| ==> IsDigit(digits[i])
    ensures var first := FirstThree(digits);
      (forall i :: 0 <= i < |first| ==> IsDigit(first[i])) && (first == [] <==> digits == [])
  {
  }

  lemma CallsignKept(codeword: seq<bytes>, words: seq<bytes>, digits: bytes)
    requires AreCodewords(codeword) && AreSpoken(words, digits) && codeword + words != []
    ensures var s, first := JoinWords(codeword + Each(digits)), JoinWords(codeword + Each(FirstThree(digits)));
      Kept(s, |s|).0 == first && first != []
  {
    hide IsCodeword, JoinWords, Kept, Behind, SaysDigit, FirstThree;
    CodewordsPlain(codeword);
    forall i | 0 <= i < |codeword| ensures codeword[i] != [] {
      NotEmpty(codeword[i]);
    }
    FirstAreDigits(digits);
    BehindJoins(codeword, digits);
    BehindJoins(codeword, FirstThree(digits));
    KeptThree(JoinWords(codeword), digits);
  }

  lemma SpokenDigits(words: seq<bytes>, digits: bytes)
    requires AreSpoken(words, digits)
    ensures forall i :: 0 <= i < |digits| ==> IsDigit(digits[i])
  {
    hide SaysDigit;
  }

  lemma NotEmpty(w: bytes)
    requires IsCodeword(w)
    ensures w != []
  {
  }

  lemma CallsignStays(codeword: seq<bytes>, digits: bytes)
    requires AreCodewords(codeword) && forall i :: 0 <= i < |digits| ==> IsDigit(digits[i])
    ensures var s := JoinWords(codeword + Each(digits)); Normalize(s) == s && SpaceDigits(s) == s
  {
    hide AreCodewords, AreTokens, AreHeard, JoinWords, Normalize, SpaceDigits, IsDigitPosition;
    CodewordsStay(codeword);
    DigitsHeard(digits);
    HeardTokens(Each(digits), digits);
    TokensConcat(codeword, Each(digits));
    MapConcat(codeword, Each(digits), DigitWord);
    TokensNormal(codeword + Each(digits));
  }

  // ---- what does not matter ----

  function LowerAll(s: bytes): (r: bytes)
    ensures |r| == |s| && forall i :: 0 <= i < |s| ==> r[i] == if 0x41 <= s[i] <= 0x5A then s[i] + 0x20 else s[i]
  {
    seq(|s|, i requires 0 <= i < |s| => if 0x41 <= s[i] <= 0x5A then s[i] + 0x20 else s[i])
  }

  lemma {:induction false} CloseTagLower(s: bytes, i: nat)
    ensures CloseTag(LowerAll(s), i) == CloseTag(s, i)
    decreases |s| - i
  {
    if i < |s| {
      CloseTagLower(s, i + 1);
    }
  }

  lemma {:induction false} TagsLower(s: bytes)
    ensures RemoveTags(LowerAll(s)) == LowerAll(RemoveTags(s))
    decreases |s|
  {
    hide CloseTag, LowerAll;
    if s != [] {
      CloseTagLower(s, 1);
      if s[0] == LBRACKET && CloseTag(s, 1).Some? {
        var k := CloseTag(s, 1).value + 1;
        TagsLower(s[k..]);
        assert LowerAll(s)[k..] == LowerAll(s[k..]);
      } else {
        TagsLower(s[1..]);
        assert LowerAll(s)[1..] == LowerAll(s[1..]);
        assert LowerAll([s[0]] + RemoveTags(s[1..])) == [LowerAll(s)[0]] + LowerAll(RemoveTags(s[1..]));
      }
    }
  }

  lemma LowerTail(s: bytes, r: bytes)
    requires s != []
    ensures var l := LowerAll(s);
      && l != [] && l[1..] == LowerAll(s[1..]) && (l[0] == BAR <==> s[0] == BAR)
      && LowerAll([s[0]] + r) == [l[0]] + LowerAll(r)
  {
  }

  lemma CutNext(s: bytes)
    ensures CutBar(s) == if s == [] || s[0] == BAR then [] else [s[0]] + CutBar(s[1..])
  {
  }

  lemma {:induction false} CutLower(s: bytes)
    ensures CutBar(LowerAll(s)) == LowerAll(CutBar(s))
  {
    hide LowerAll, CutBar;
    CutNext(s);
    CutNext(LowerAll(s));
    if s != [] {
      LowerTail(s, CutBar(s[1..]));
      CutLower(s[1..]);
    }
  }

  lemma {:induction false} CleanLower(s: bytes, i: nat)
    requires i <= |s|
    ensures CleanTo(LowerAll(s), i) == CleanTo(s, i)
  {
    hide CleanByte, LowerAll;
    if i > 0 {
      CleanLower(s, i - 1);
      CleanByteLower(s, i - 1);
    }
  }

  lemma CleanByteLower(s: bytes, i: nat)
    requires i < |s|
    ensures CleanByte(LowerAll(s), i) == CleanByte(s, i)
  {
    var t := LowerAll(s);
    assert Lower(t[i]) == Lower(s[i]);
    if i + 1 < |s| {
      assert IsDigit(t[i + 1]) == IsDigit(s[i + 1]) && IsBlank(t[i + 1]) == IsBlank(s[i + 1]);
    }
  }

  // Upper or lower case does not matter.
  lemma CaseIgnored(tx: bytes)
    ensures ParsePilot(LowerAll(tx)) == ParsePilot(tx)
  {
    hide DigitWords, SpaceDigits, ReplaceHomophones, Kept, RemoveAll, Before;
    TagsLower(tx);
    var s := RemoveTags(tx);
    CutLower(s);
    CleanLower(CutBar(s), |CutBar(s)|);
    assert Normalize(LowerAll(s)) == Normalize(s);
  }

  lemma {:induction false} ClosesAt(tag: bytes, s: bytes, i: nat)
    requires i <= |tag| && RBRACKET !in tag && NEWLINE !in tag
    ensures CloseTag([LBRACKET] + tag + [RBRACKET] + s, i + 1) == Some(|tag| + 1)
    decreases |tag| - i
  {
    var t := [LBRACKET] + tag + [RBRACKET] + s;
    if i < |tag| {
      assert t[i + 1] == tag[i] && tag[i] in tag;
      ClosesAt(tag, s, i + 1);
    } else {
      assert t[|tag| + 1] == RBRACKET;
    }
  }

  // A clan tag in brackets in front does not matter.
  lemma TagIgnored(tag: bytes, s: bytes)
    requires RBRACKET !in tag && NEWLINE !in tag
    ensures ParsePilot([0x5B] + tag + [0x5D] + s) == ParsePilot(s)
  {
    hide ParsePilot, CloseTag;
    var t := [LBRACKET] + tag + [RBRACKET] + s;
    ClosesAt(tag, s, 0);
    assert t[|tag| + 2..] == s;
    assert RemoveTags(t) == RemoveTags(s);
    ParsedWithout(t, s);
  }

  lemma ParsedWithout(t: bytes, s: bytes)
    requires RemoveTags(t) == RemoveTags(s)
    ensures ParsePilot(t) == ParsePilot(s)
  {
  }

  lemma {:induction false} CutAt(s: bytes, x: bytes)
    ensures CutBar(s + [BAR] + x) == CutBar(s)
  {
    var t := s + [BAR] + x;
    if s != [] {
      assert t[1..] == s[1..] + [BAR] + x;
      CutAt(s[1..], x);
    }
  }

  // What stands behind a bar does not matter.
  lemma BarIgnored(s: bytes, x: bytes)
    requires LBRACKET !in s && LBRACKET !in x
    ensures ParsePilot(s + [0x7C] + x) == ParsePilot(s)
  {
    hide DigitWords, SpaceDigits, ReplaceHomophones, Kept, RemoveAll, Before, CutBar, CleanTo;
    NoTags(s);
    NoTags(s + [BAR] + x);
    CutAt(s, x);
    assert Normalize(s + [BAR] + x) == Normalize(s);
  }
}
