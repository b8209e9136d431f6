// Reading a collated call back from its words.
module CollationText {
  import opened Wrappers
  import opened Bytes
  import opened LuaText
  import opened Callsigns
  import opened Orders
  import opened OrderedMaps
  import opened Collation
  import opened CollationMeaning

  // The number a word is, if it is one a callsign can have.
  function Number(w: bytes): Option<int> {
    var n := Atoi(w);
    if n.Some? && n.value < 0 then None else n
  }

  predicate LooksBare(words: seq<bytes>) {
    |words| == 2 && Number(words[0]).Some? && Number(words[1]).Some?
  }

  predicate LooksWhole(words: seq<bytes>) {
    |words| >= 3 && words[|words| - 1] == [0x66, 0x6C, 0x69, 0x67, 0x68, 0x74] && Number(words[|words| - 2]).Some?
    && !HasDigit(JoinWords(words[..|words| - 2]))
  }

  // How a listener takes one entry of a call.
  function Read(text: bytes): Call {
    var words := Fields(text);
    if ParseStrict(text).Some? then Full(ParseStrict(text).value)
    else if LooksBare(words) then Bare(Number(words[0]).value, Number(words[1]).value)
    else if LooksWhole(words) then
      WholeFlight(JoinWords(words[..|words| - 2]), Number(words[|words| - 2]).value)
    else Free(text)
  }

  function ReadAll(texts: seq<bytes>): (r: seq<Call>)
    ensures |r| == |texts| && forall i :: 0 <= i < |r| ==> r[i] == Read(texts[i])
  {
    if texts == [] then [] else [Read(texts[0])] + ReadAll(texts[1..])
  }

  // A name that reads as a call about a flight.
  predicate Ambiguous(name: bytes) {
    LooksBare(Fields(name)) || LooksWhole(Fields(name))
  }

  lemma AmbiguousIsFree(name: bytes)
    ensures Ambiguous(name) ==> ParseStrict(name).None?
  {
    assert Atoi(FLIGHT_WORD).None?;
  }

  // What the walk and the free names put into a call.
  predicate NormalCall(c: Call) {
    match c
    case WholeFlight(codeword, flight) => Normal(Strict(codeword, flight, 0))
    case Full(callsign) => Normal(callsign)
    case Bare(flight, position) => 0 <= flight <= MAX_INT64 && 0 <= position <= MAX_INT64
    case Free(name) => ParseStrict(name).None?
  }

  lemma ReadBare(flight: nat, position: nat)
    requires flight <= MAX_INT64 && position <= MAX_INT64
    ensures Read(Render(Bare(flight, position))) == Bare(flight, position)
  {
    var f, p := IntText(flight), IntText(position);
    AtoiOfNat(flight);
    AtoiOfNat(position);
    var words := [f, p];
    assert words[1..] == [p];
    FieldsOfJoin(words);
  }

  lemma WholeWords(codeword: bytes, flight: nat)
    requires Normal(Strict(codeword, flight, 0))
    ensures var words := Fields(Render(WholeFlight(codeword, flight)));
      && words == Fields(codeword) + [IntText(flight)] + [FLIGHT_WORD]
      && |words| >= 3 && words[..|words| - 2] == Fields(codeword) && JoinWords(Fields(codeword)) == codeword
  {
    hide FieldsFrom, IntText, HasDigit;
    var words := Fields(codeword);
    var f := IntText(flight);
    FieldsAreWords([], codeword);
    AtoiOfNat(flight);
    assert IsWord(FLIGHT_WORD);
    assert words != [];
    JoinSnoc(words, f);
    JoinSnoc(words + [f], FLIGHT_WORD);
    FieldsOfJoin(words + [f] + [FLIGHT_WORD]);
  }

  lemma ReadWhole(codeword: bytes, flight: nat)
    requires Normal(Strict(codeword, flight, 0))
    ensures Read(Render(WholeFlight(codeword, flight))) == WholeFlight(codeword, flight)
    ensures LooksWhole(Fields(Render(WholeFlight(codeword, flight))))
  {
    hide JoinWords, Fields, Atoi, IntText, Render, ParseStrict;
    WholeWords(codeword, flight);
    AtoiOfNat(flight);
    AmbiguousIsFree(Render(WholeFlight(codeword, flight)));
  }

  // A call is read as it was meant, unless it is a free name that looks like
  // something else.
  lemma ReadRender(c: Call)
    requires NormalCall(c)
    ensures Read(Render(c)) == c <==> !(c.Free? && Ambiguous(c.name))
  {
    match c
    case WholeFlight(codeword, flight) => ReadWhole(codeword, flight);
    case Full(callsign) => ParseFormat(callsign);
    case Bare(flight, position) => ReadBare(flight, position);
    case Free(name) =>
  }

  // ---- collated calls are normal ----

  predicate NormalCalls(calls: seq<Call>) {
    forall c :: c in calls ==> NormalCall(c)
  }

  lemma {:induction false} SinglesNormal(codeword: bytes, flight: int, positions: Positions)
    requires forall e :: e in positions ==> Normal(Strict(codeword, flight, e.key))
    ensures NormalCalls(Singles(codeword, flight, positions))
  {
    if positions != [] {
      SinglesNormal(codeword, flight, positions[..|positions| - 1]);
    }
  }

  lemma {:induction false} CodewordNormal(codeword: bytes, flights: Flights)
    requires forall f, e :: f in flights && e in f.value ==> Normal(Strict(codeword, f.key, e.key))
    ensures NormalCalls(CodewordCalls(codeword, flights))
  {
    if flights != [] {
      var init, f := flights[..|flights| - 1], flights[|flights| - 1];
      CodewordNormal(codeword, init);
      SinglesNormal(codeword, f.key, f.value);
      if |f.value| > 1 {
        assert Normal(Strict(codeword, f.key, f.value[0].key));
      }
    }
  }

  lemma {:induction false} TrieNormal(t: Trie)
    requires forall c, f, e :: c in t && f in c.value && e in f.value ==> Normal(Strict(c.key, f.key, e.key))
    ensures NormalCalls(TrieCalls(t))
  {
    if t != [] {
      TrieNormal(t[..|t| - 1]);
      CodewordNormal(t[|t| - 1].key, t[|t| - 1].value);
    }
  }

  lemma CollatedNormal(receivers: seq<bytes>, everyone: seq<bytes>)
    ensures NormalCalls(CollatedCalls(receivers, everyone))
  {
    hide Sort, Roster, Members, TrieOf, TrieCalls, FreeOf, NormalCall, Normal, ParseStrict;
    var sorted := Sort(receivers, TextLess);
    var t := TrieOf(Roster(everyone), sorted);
    CollatedLookup(receivers, everyone, Strict([], 0, 0));
    TextOrder();
    forall c, f, e | c in t && f in c.value && e in f.value ensures Normal(Strict(c.key, f.key, e.key)) {
      var s := Strict(c.key, f.key, e.key);
      GetOfMember(t, TextLess, c);
      GetOfMember(c.value, IntLess, f);
      GetOfMember(f.value, IntLess, e);
      CollatedLookup(receivers, everyone, s);
      var n :| n in everyone && ParseStrict(n) == Some(s);
      ParseNormal(n);
    }
    TrieNormal(t);
    FreeHeard(sorted, {});
    forall c | c in FreeOf(sorted) ensures NormalCall(c) {
      FreeNormal(c);
    }
  }

  lemma FreeNormal(c: Call)
    requires c.Free? && ParseStrict(c.name).None?
    ensures NormalCall(c)
  {
  }

  // ---- the text of a collated call ----

  lemma FreeInMeant(receivers: seq<bytes>, everyone: seq<bytes>, r: bytes)
    ensures Free(r) in Meant(receivers, everyone) <==> r in receivers && ParseStrict(r).None?
  {
    hide Meant, ParseStrict;
    FreeKept(receivers, everyone, r);
    assert r in receivers <==> r in multiset(receivers);
    var calls := Meant(receivers, everyone);
    assert Free(r) in calls <==> Free(r) in multiset(calls);
  }

  lemma CollatedText(receivers: seq<bytes>, everyone: seq<bytes>, i: nat)
    requires |receivers| > 1 && i < |CollatedCalls(receivers, everyone)|
    ensures |ReadAll(Collated(receivers, everyone))| == |CollatedCalls(receivers, everyone)|
    ensures ReadAll(Collated(receivers, everyone))[i] == Read(Render(CollatedCalls(receivers, everyone)[i]))
  {
    hide CollatedCalls, Read, Render, ReadAll, RenderAll;
    var texts := Collated(receivers, everyone);
    RenderAt(CollatedCalls(receivers, everyone), i);
    assert ReadAll(texts)[i] == Read(texts[i]);
  }

  lemma ReadCall(c: Call)
    requires NormalCall(c)
    ensures c.Free? ==> Read(Render(c)) == Read(c.name) && ParseStrict(c.name).None?
    ensures !c.Free? ==> Read(Render(c)) == c
  {
    ReadRender(c);
  }

  // What the words of the returned list read as: what they mean, but for the names
  // that are not strict.
  lemma MeantText(receivers: seq<bytes>, everyone: seq<bytes>)
    ensures var meant, read := Meant(receivers, everyone), ReadAll(Collated(receivers, everyone));
      && |read| == |meant|
      && forall i :: 0 <= i < |meant| ==>
           if meant[i].Free? then read[i] == Read(meant[i].name) && ParseStrict(meant[i].name).None?
           else read[i] == meant[i]
  {
    hide CollatedCalls, Render, RenderAll, NormalCall;
    var meant, read := Meant(receivers, everyone), ReadAll(Collated(receivers, everyone));
    if |receivers| > 1 {
      hide Read, ReadAll, ParseStrict;
      CollatedNormal(receivers, everyone);
      forall i | 0 <= i < |meant|
        ensures if meant[i].Free? then read[i] == Read(meant[i].name) && ParseStrict(meant[i].name).None?
                else read[i] == meant[i]
      {
        assert meant[i] in meant;
        CollatedText(receivers, everyone, i);
        ReadCall(meant[i]);
      }
    }
  }

  // The text of the returned list reads as what it means exactly when no receiver
  // has a name that looks like a flight or a pair of numbers.
  lemma CollatedReads(receivers: seq<bytes>, everyone: seq<bytes>)
    ensures ReadAll(Collated(receivers, everyone)) == Meant(receivers, everyone)
       <==> forall r :: r in receivers ==> !Ambiguous(r)
  {
    hide Meant, Read, Ambiguous, ReadAll, Collated, ParseStrict;
    var meant, read := Meant(receivers, everyone), ReadAll(Collated(receivers, everyone));
    MeantText(receivers, everyone);
    forall r ensures Free(r) in meant <==> r in receivers && ParseStrict(r).None? {
      FreeInMeant(receivers, everyone, r);
    }
    forall i | 0 <= i < |meant| ensures read[i] == meant[i] <==> !(meant[i].Free? && Ambiguous(meant[i].name)) {
      assert meant[i] in meant;
      if meant[i].Free? {
        ReadFree(meant[i].name);
      }
    }
    if r :| r in receivers && Ambiguous(r) {
      AmbiguousIsFree(r);
      var i :| 0 <= i < |meant| && meant[i] == Free(r);
      assert read[i] != meant[i];
    }
  }

  lemma ReadFree(name: bytes)
    requires ParseStrict(name).None?
    ensures Read(name) == Free(name) <==> !Ambiguous(name)
    ensures !Read(name).Full?
  {
  }

  // ---- who hears the text ----

  // What the free names of a read as in b addresses nobody.
  ghost predicate Quiet(a: seq<Call>, b: seq<Call>, roster: set<Strict>)
    requires |a| == |b|
  {
    forall i :: 0 <= i < |a| && a[i].Free? ==> Sense(b[i], ContextOf(b[..i]), roster) == multiset{}
  }

  lemma QuietSnoc(a: seq<Call>, b: seq<Call>, roster: set<Strict>)
    requires |a| == |b| > 0
    ensures var n := |a| - 1;
      Quiet(a, b, roster) <==>
        Quiet(a[..n], b[..n], roster) && (a[n].Free? ==> Sense(b[n], ContextOf(b[..n]), roster) == multiset{})
  {
    hide Sense, ContextOf;
    var n := |a| - 1;
    assert forall i :: 0 <= i < n ==> b[..n][i] == b[i] && a[..n][i] == a[i] && b[..n][..i] == b[..i];
  }

  // A list whose free names may read as something else has the same context, and
  // addresses everyone as often, exactly when those names address nobody.
  lemma {:induction false} HeardCompare(a: seq<Call>, b: seq<Call>, roster: set<Strict>)
    requires |a| == |b| && forall i :: 0 <= i < |a| ==> b[i] == a[i] || (a[i].Free? && !b[i].Full?)
    ensures ContextOf(b) == ContextOf(a) && Heard(a, roster) <= Heard(b, roster)
    ensures Heard(b, roster) == Heard(a, roster) <==> Quiet(a, b, roster)
  {
    if a != [] {
      hide Sense, Quiet;
      var n := |a| - 1;
      HeardCompare(a[..n], b[..n], roster);
      QuietSnoc(a, b, roster);
      FreeSilent(a[n], ContextOf(a[..n]), roster);
      SumsAgree(Heard(a[..n], roster), Heard(b[..n], roster), Sense(b[n], ContextOf(b[..n]), roster));
    }
  }

  lemma FreeSilent(c: Call, context: Option<bytes>, roster: set<Strict>)
    ensures c.Free? ==> Sense(c, context, roster) == multiset{}
  {
  }

  lemma SumsAgree(a: multiset<Strict>, b: multiset<Strict>, extra: multiset<Strict>)
    requires a <= b
    ensures b + extra == a <==> b == a && extra == multiset{}
    ensures b + extra == a + extra <==> b == a
  {
    if b + extra == a {
      assert |b| + |extra| == |b + extra| == |a|;
      assert b == a + (b - a);
      assert |b| == |a| + |b - a|;
    }
    if b + extra == a + extra {
      assert forall s :: b[s] + extra[s] == (b + extra)[s] == (a + extra)[s] == a[s] + extra[s];
    }
  }

  // Behind the last full call the context does not change.
  lemma {:induction false} ContextStays(calls: seq<Call>, i: nat)
    requires i <= |calls| && forall j :: i <= j < |calls| ==> !calls[j].Full?
    ensures ContextOf(calls[..i]) == ContextOf(calls)
    decreases |calls|
  {
    if i < |calls| {
      ContextStays(calls[..|calls| - 1], i);
      assert calls[..|calls| - 1][..i] == calls[..i];
    } else {
      assert calls[..i] == calls;
    }
  }

  // Behind a free name there are only free names.
  lemma FreeAtEnd(receivers: seq<bytes>, everyone: seq<bytes>, i: nat)
    requires var calls := Meant(receivers, everyone); i < |calls| && calls[i].Free?
    ensures var calls := Meant(receivers, everyone); forall j :: i <= j < |calls| ==> calls[j].Free?
  {
    hide Sort, TrieOf, TrieCalls, FreeOf, Roster, Members, Lookup, OrderedTrie, ContextOf, Heard;
    if |receivers| > 1 {
      var sorted := Sort(receivers, TextLess);
      var t := TrieOf(Roster(everyone), sorted);
      CollatedLookup(receivers, everyone, Strict([], 0, 0));
      TrieKinds(t, [], 0);
      FreeHeard(sorted, {});
      var calls, walked, free := CollatedCalls(receivers, everyone), TrieCalls(t), FreeOf(sorted);
      assert forall k :: 0 <= k < |walked| ==> calls[k] in walked;
      forall j | i <= j < |calls| ensures calls[j].Free? {
        assert calls[j] == free[j - |walked|];
        assert calls[j] in free;
      }
    }
  }

  // At every free name the context is that of the whole list.
  lemma TextContext(receivers: seq<bytes>, everyone: seq<bytes>, i: nat)
    requires var calls := Meant(receivers, everyone); i < |calls| && calls[i].Free?
    ensures var read := ReadAll(Collated(receivers, everyone));
      |read| == |Meant(receivers, everyone)| && ContextOf(read[..i]) == ContextOf(Meant(receivers, everyone))
  {
    hide Meant, Collated, Read, ReadAll, ParseStrict, ContextOf, Heard;
    var meant, read := Meant(receivers, everyone), ReadAll(Collated(receivers, everyone));
    MeantText(receivers, everyone);
    forall j | 0 <= j < i ensures read[j] == meant[j] || (meant[j].Free? && !read[j].Full?) {
      if meant[j].Free? {
        ReadFree(meant[j].name);
      }
    }
    HeardCompare(meant[..i], read[..i], {});
    FreeAtEnd(receivers, everyone, i);
    ContextStays(meant, i);
  }

  // A flight's member of the roster has the codeword and the number of the words.
  ghost predicate NamesFlight(words: seq<bytes>, roster: set<Strict>)
    requires LooksWhole(words)
  {
    exists s :: s in roster && s.codeword == JoinWords(words[..|words| - 2]) && s.flight == Number(words[|words| - 2]).value
  }

  // The name addresses someone in the given context.
  ghost predicate Addresses(name: bytes, context: Option<bytes>, roster: set<Strict>) {
    var words := Fields(name);
    (LooksBare(words) && context.Some?) || (LooksWhole(words) && NamesFlight(words, roster))
  }

  lemma FreeSense(name: bytes, context: Option<bytes>, roster: set<Strict>)
    requires ParseStrict(name).None?
    ensures Sense(Read(name), context, roster) != multiset{} <==> Addresses(name, context, roster)
  {
    hide Fields, JoinWords, Number;
    var words := Fields(name);
    if LooksWhole(words) {
      var c := Read(name);
      var members := set s | s in roster && s.codeword == c.codeword && s.flight == c.flight;
      if NamesFlight(words, roster) {
        var s :| s in roster && s.codeword == c.codeword && s.flight == c.flight;
        assert s in members && s in multiset(members);
      } else {
        assert members == {};
      }
    }
  }

  // The text addresses everyone that the list is meant for, at least; and exactly
  // those, once each, just when no name that is not strict addresses anybody.
  lemma TextHeardBy(receivers: seq<bytes>, everyone: seq<bytes>)
    ensures var meant, members := Meant(receivers, everyone), Members(everyone);
      var text := Heard(ReadAll(Collated(receivers, everyone)), members);
      && Heard(meant, members) <= text
      && (text == Heard(meant, members) <==>
            forall r :: r in receivers && ParseStrict(r).None? ==> !Addresses(r, ContextOf(meant), members))
  {
    hide Meant, Collated, Read, ReadAll, ParseStrict, ContextOf, Heard, Members, Sense, Addresses;
    var meant, read, members := Meant(receivers, everyone), ReadAll(Collated(receivers, everyone)), Members(everyone);
    MeantText(receivers, everyone);
    forall j | 0 <= j < |meant| ensures read[j] == meant[j] || (meant[j].Free? && !read[j].Full?) {
      if meant[j].Free? {
        ReadFree(meant[j].name);
      }
    }
    HeardCompare(meant, read, members);
    forall i | 0 <= i < |meant| && meant[i].Free?
      ensures Sense(read[i], ContextOf(read[..i]), members) != multiset{}
         <==> Addresses(meant[i].name, ContextOf(meant), members)
    {
      TextContext(receivers, everyone, i);
      FreeSense(meant[i].name, ContextOf(meant), members);
    }
    forall r ensures Free(r) in meant <==> r in receivers && ParseStrict(r).None? {
      FreeInMeant(receivers, everyone, r);
    }
    if r :| r in receivers && ParseStrict(r).None? && Addresses(r, ContextOf(meant), members) {
      var i :| 0 <= i < |meant| && meant[i] == Free(r);
      assert Sense(read[i], ContextOf(read[..i]), members) != multiset{};
    }
    forall i | 0 <= i < |meant| && meant[i].Free? ensures meant[i].name in receivers && ParseStrict(meant[i].name).None? {
      assert Free(meant[i].name) in meant;
    }
  }

  // Someone of everyone's receives without all of the flight.
  ghost predicate CalledSingly(receivers: seq<bytes>, everyone: seq<bytes>) {
    exists s :: s in Members(everyone) && FormatStrict(s) in receivers
      && !(HasTwo(s.codeword, s.flight, Members(everyone)) && AllAmong(s.codeword, s.flight, Members(everyone), receivers))
  }

  // Someone is heard only as part of a whole flight, or with a full call somewhere.
  lemma {:induction false} HeardNeeds(calls: seq<Call>, roster: set<Strict>, s: Strict)
    requires s in Heard(calls, roster)
    ensures WholeFlight(s.codeword, s.flight) in calls || ContextOf(calls).Some?
  {
    var init, last := calls[..|calls| - 1], calls[|calls| - 1];
    assert calls == init + [last];
    if s in Heard(init, roster) {
      HeardNeeds(init, roster, s);
    }
  }

  lemma {:induction false} LastFull(calls: seq<Call>) returns (i: nat)
    requires ContextOf(calls).Some?
    ensures i < |calls| && calls[i].Full? && calls[i].callsign.codeword == ContextOf(calls).value
  {
    if calls[|calls| - 1].Full? {
      i := |calls| - 1;
    } else {
      i := LastFull(calls[..|calls| - 1]);
    }
  }

  // With several receivers some callsign is called in full exactly when someone is
  // called singly.
  lemma ContextIff(receivers: seq<bytes>, everyone: seq<bytes>)
    requires |receivers| > 1
    ensures ContextOf(Meant(receivers, everyone)).Some? <==> CalledSingly(receivers, everyone)
  {
    hide Meant, Members, FormatStrict, ParseStrict, Heard, HasTwo, AllAmong, ContextOf;
    var calls, members := Meant(receivers, everyone), Members(everyone);
    if ContextOf(calls).Some? {
      var i := LastFull(calls);
      var s := calls[i].callsign;
      HeardAt(calls, members, i);
      assert s in Heard(calls, members);
      CollatedHeard(receivers, everyone, s);
      WholeFlightIff(receivers, everyone, s.codeword, s.flight);
      if WholeFlight(s.codeword, s.flight) in calls {
        var j :| 0 <= j < |calls| && calls[j] == WholeFlight(s.codeword, s.flight);
        assert s in Sense(calls[j], ContextOf(calls[..j]), members) && s in Sense(calls[i], ContextOf(calls[..i]), members);
        HeardTwice(calls, members, if i < j then i else j, if i < j then j else i, s);
      }
    }
    if CalledSingly(receivers, everyone) {
      var s :| s in members && FormatStrict(s) in receivers
        && !(HasTwo(s.codeword, s.flight, members) && AllAmong(s.codeword, s.flight, members, receivers));
      CollatedHeard(receivers, everyone, s);
      assert s in Heard(calls, members);
      HeardNeeds(calls, members, s);
      WholeFlightIff(receivers, everyone, s.codeword, s.flight);
    }
  }

  // The name of a receiver is taken for someone: for a member of the codeword called
  // last in full, if it is two numbers and there is one, or for a flight that exists.
  ghost predicate Mistaken(receivers: seq<bytes>, everyone: seq<bytes>, r: bytes) {
    var words := Fields(r);
    || (LooksBare(words) && |receivers| > 1 && CalledSingly(receivers, everyone))
    || (LooksWhole(words) && NamesFlight(words, Members(everyone)))
  }

  lemma MistakenIff(receivers: seq<bytes>, everyone: seq<bytes>, r: bytes)
    requires r in receivers && ParseStrict(r).None?
    ensures Mistaken(receivers, everyone, r) <==> Addresses(r, ContextOf(Meant(receivers, everyone)), Members(everyone))
  {
    hide ParseStrict, CalledSingly, NamesFlight, Members, CollatedCalls, LooksBare, LooksWhole, Fields;
    if |receivers| > 1 {
      ContextIff(receivers, everyone);
    } else {
      assert receivers == [r] && Meant(receivers, everyone) == [Free(r)];
    }
  }

  // The words of the returned list address every callsign it is meant for once and
  // no other, if and only if no receiver's name is taken for someone.
  lemma TextHeard(receivers: seq<bytes>, everyone: seq<bytes>)
    ensures var text := Heard(ReadAll(Collated(receivers, everyone)), Members(everyone));
      (forall s :: text[s] == Once(Receives(receivers, everyone, s))) <==> forall r :: r in receivers ==> !Mistaken(receivers, everyone, r)
  {
    hide Meant, Collated, ReadAll, ParseStrict, ContextOf, Heard, Members, Addresses, Mistaken, Receives;
    var meant, members := Meant(receivers, everyone), Members(everyone);
    var text := Heard(ReadAll(Collated(receivers, everyone)), members);
    TextHeardBy(receivers, everyone);
    forall s ensures Heard(meant, members)[s] == Once(Receives(receivers, everyone, s)) {
      CollatedHeard(receivers, everyone, s);
    }
    forall r | r in receivers
      ensures Mistaken(receivers, everyone, r) <==> ParseStrict(r).None? && Addresses(r, ContextOf(meant), members)
    {
      if ParseStrict(r).None? {
        MistakenIff(receivers, everyone, r);
      } else {
        MistakenFree(receivers, everyone, r);
      }
    }
    assert text == Heard(meant, members) <==> forall s :: text[s] == Heard(meant, members)[s];
  }

  lemma MistakenFree(receivers: seq<bytes>, everyone: seq<bytes>, r: bytes)
    ensures Mistaken(receivers, everyone, r) ==> ParseStrict(r).None?
  {
    AmbiguousIsFree(r);
  }

  // Nobody the list is meant for is missed, whatever the names.
  lemma NobodyMissed(receivers: seq<bytes>, everyone: seq<bytes>, s: Strict)
    requires Receives(receivers, everyone, s)
    ensures s in Heard(ReadAll(Collated(receivers, everyone)), Members(everyone))
  {
    hide *;
    TextHeardBy(receivers, everyone);
    CollatedHeard(receivers, everyone, s);
    assert Once(true) == 1 by {
      OnceTrue();
    }
  }

  lemma OnceTrue()
    ensures Once(true) == 1
  {
  }

  // A receiver named as a flight, alone or not, calls the whole of that flight,
  // whether its members receive or not.
  lemma NameTakenForFlight(receivers: seq<bytes>, everyone: seq<bytes>, s: Strict)
    requires s in Members(everyone) && Render(WholeFlight(s.codeword, s.flight)) in receivers
    ensures s in Heard(ReadAll(Collated(receivers, everyone)), Members(everyone))
  {
    hide Meant, Collated, Read, ReadAll, Render, Heard, Members, ParseStrict, Normal, LooksWhole;
    var c := WholeFlight(s.codeword, s.flight);
    var name := Render(c);
    MemberPrintNormal(everyone, s);
    ReadWhole(s.codeword, s.flight);
    AmbiguousIsFree(name);
    FreeInMeant(receivers, everyone, name);
    MeantText(receivers, everyone);
    var meant, read := Meant(receivers, everyone), ReadAll(Collated(receivers, everyone));
    var i :| 0 <= i < |meant| && meant[i] == Free(name);
    HeardAt(read, Members(everyone), i);
    assert s in Sense(c, ContextOf(read[..i]), Members(everyone));
  }

  lemma MemberPrintNormal(everyone: seq<bytes>, s: Strict)
    requires s in Members(everyone)
    ensures s.flight >= 0 && Normal(Strict(s.codeword, s.flight, 0))
  {
    var n :| n in everyone && ParseStrict(n) == Some(s);
    ParseNormal(n);
  }

  // A receiver named as two numbers is taken for a member of the flight's codeword
  // that was named last, whether such a member receives or not.
  lemma PairTakenForMember(receivers: seq<bytes>, everyone: seq<bytes>, flight: nat, position: nat)
    requires Render(Bare(flight, position)) in receivers && flight <= MAX_INT64 && position <= MAX_INT64
    requires ContextOf(Meant(receivers, everyone)).Some?
    ensures var codeword := ContextOf(Meant(receivers, everyone)).value;
      Strict(codeword, flight, position) in Heard(ReadAll(Collated(receivers, everyone)), Members(everyone))
  {
    var name := Render(Bare(flight, position));
    ReadBare(flight, position);
    assert ParseStrict(name).None?;
    hide Meant, Collated, Read, Render, ReadAll, ParseStrict, Heard, ContextOf, Members;
    FreeInMeant(receivers, everyone, name);
    var meant := Meant(receivers, everyone);
    var i :| 0 <= i < |meant| && meant[i] == Free(name);
    MeantText(receivers, everyone);
    TextContext(receivers, everyone, i);
    HeardAt(ReadAll(Collated(receivers, everyone)), Members(everyone), i);
  }
}
