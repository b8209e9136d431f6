// Collation at the names its callers pass: the parsed callsigns of pilots.
module CollationCallers {
  import opened Wrappers
  import opened Bytes
  import opened LuaText
  import opened Callsigns
  import opened PilotCallsigns
  import opened PilotNames
  import opened Collation
  import opened CollationMeaning
  import opened CollationText

  // Parsed from the names of pilots.
  ghost predicate FromPilots(names: seq<bytes>) {
    forall n :: n in names ==> exists tx :: ParsePilot(tx) == Some(n)
  }

  // With receivers among everyone, all named as their callers name them, the names
  // addressed are exactly the receivers.
  lemma CallersAddressed(receivers: seq<bytes>, everyone: seq<bytes>, name: bytes)
    ensures FromPilots(receivers) && (forall r :: r in receivers ==> r in everyone) ==>
              (Addressed(receivers, everyone, name) <==> name in receivers)
  {
    hide ParsePilot, ParseStrict, Addressed, Canonical, Spelled;
    AddressedIff(receivers, everyone, name);
    if FromPilots(receivers) && (forall r :: r in receivers ==> r in everyone) && name in receivers && ParseStrict(name).Some? {
      var tx :| ParsePilot(tx) == Some(name);
      ParsedSpelled(tx);
      SpelledCanonical(name);
      assert name in everyone;
    }
  }

  // Their names look like something else only if they are two digits, or a digit
  // before the word flight and no other digit.
  lemma CallersAmbiguous(tx: bytes)
    ensures ParsePilot(tx).Some? ==>
      var name := ParsePilot(tx).value; var words := Fields(name); var n := |words|;
      Ambiguous(name) <==>
        || (n == 2 && SingleDigit(words[0]) && SingleDigit(words[1]))
        || (n >= 3 && words[n - 1] == FLIGHT_WORD && SingleDigit(words[n - 2]) && !HasDigit(JoinWords(words[..n - 2])))
  {
    hide ParsePilot, JoinWords, FieldsFrom, Fields;
    if ParsePilot(tx).Some? {
      ParsedSpelled(tx);
      var words := Fields(ParsePilot(tx).value);
      forall i | 0 <= i < |words| ensures Number(words[i]).Some? <==> SingleDigit(words[i]) {
        DigitIsNumber(words[i]);
        if Atoi(words[i]).Some? {
          SpelledNumber(words[i]);
        }
      }
    }
  }

  lemma DigitIsNumber(w: bytes)
    ensures SingleDigit(w) ==> Number(w).Some?
  {
    if SingleDigit(w) {
      assert w[..|w| - 1] == [] && NatOf([]) == 0;
    }
  }

  // ---- witnesses ----

  // viper
  const VIPER: bytes := [0x76, 0x69, 0x70, 0x65, 0x72]
  const VIPER_11 := Strict(VIPER, 1, 1)
  const VIPER_12 := Strict(VIPER, 1, 2)
  const EAGLE_11 := Strict(EAGLE, 1, 1)

  lemma OneWordNormal(w: bytes, flight: int, position: int)
    requires IsWord(w) && !HasDigit(w) && 0 <= flight <= MAX_INT64 && 0 <= position <= MAX_INT64
    ensures Normal(Strict(w, flight, position))
  {
    hide FieldsFrom;
    JoinOne(w);
    FieldsOfJoin([w]);
  }

  lemma StrictNames()
    ensures Normal(VIPER_11) && Normal(VIPER_12) && Normal(EAGLE_11)
  {
    OneWordNormal(VIPER, 1, 1);
    OneWordNormal(VIPER, 1, 2);
    PlainEagle();
    OneWordNormal(EAGLE, 1, 1);
  }

  // The pilot "12" among the receivers: with viper 1 1 called in full, viper 1 2 is
  // addressed although it does not receive.
  lemma TwelveTakenForViper()
    ensures var receivers, everyone := [FormatStrict(VIPER_11), ONE_TWO], [FormatStrict(VIPER_11), FormatStrict(VIPER_12), ONE_TWO];
      && ParsePilot(NAME_12) == Some(ONE_TWO)
      && FormatStrict(VIPER_12) !in receivers
      && VIPER_12 in Heard(ReadAll(Collated(receivers, everyone)), Members(everyone))
  {
    hide ParsePilot, ParseStrict, FormatStrict, Meant, Collated, ReadAll, Heard, Members, ContextOf, Normal, Render;
    var receivers, everyone := [FormatStrict(VIPER_11), ONE_TWO], [FormatStrict(VIPER_11), FormatStrict(VIPER_12), ONE_TWO];
    TwelveParsed();
    StrictNames();
    TwelveNotStrict();
    ParseFormat(VIPER_11);
    ParseFormat(VIPER_12);
    var calls, members := Meant(receivers, everyone), Members(everyone);
    assert everyone[0] in everyone && everyone[1] in everyone && receivers[0] in receivers && receivers[1] in receivers;
    assert VIPER_11 in members && VIPER_12 in members;
    assert FormatStrict(VIPER_12) !in receivers && FormatStrict(Strict(VIPER, 1, 2)) !in receivers;
    assert CalledSingly(receivers, everyone);
    ContextIff(receivers, everyone);
    var i := LastFull(calls);
    var s := calls[i].callsign;
    HeardAt(calls, members, i);
    assert s in Heard(calls, members);
    CollatedHeard(receivers, everyone, s);
    assert s in members;
    PairTakenForMember(receivers, everyone, 1, 2);
  }

  lemma TwelveNotStrict()
    ensures ParseStrict(ONE_TWO).None? && ONE_TWO == Render(Bare(1, 2))
  {
    assert IntText(1) == ONE && IntText(2) == TWO;
    assert ONE_TWO == ONE + [SPACE] + TWO;
    ReadBare(1, 2);
  }

  // The pilot "eagle othis isne flight" among the receivers: eagle 1 1 is addressed
  // although it does not receive.
  lemma OthisTakenForFlight()
    ensures var receivers, everyone := [FormatStrict(VIPER_11), ONE_FLIGHT], [FormatStrict(VIPER_11), FormatStrict(EAGLE_11), ONE_FLIGHT];
      && ParsePilot(OTHIS_NAME) == Some(ONE_FLIGHT)
      && FormatStrict(EAGLE_11) !in receivers
      && EAGLE_11 in Heard(ReadAll(Collated(receivers, everyone)), Members(everyone))
  {
    hide ParsePilot, ParseStrict, FormatStrict, Meant, Collated, ReadAll, Heard, Members, Normal, Render, LooksWhole;
    var receivers, everyone := [FormatStrict(VIPER_11), ONE_FLIGHT], [FormatStrict(VIPER_11), FormatStrict(EAGLE_11), ONE_FLIGHT];
    OthisParsed();
    StrictNames();
    ParseFormat(VIPER_11);
    ParseFormat(EAGLE_11);
    OneWordNormal(EAGLE, 1, 0) by {
      PlainEagle();
    }
    ReadWhole(EAGLE, 1);
    AmbiguousIsFree(ONE_FLIGHT);
    assert everyone[1] in everyone && receivers[1] in receivers;
    assert EAGLE_11 in Members(everyone);
    NameTakenForFlight(receivers, everyone, EAGLE_11);
  }

  // eagle 01 1, which no pilot's name is parsed to
  const ZERO_ONE: bytes := [0x30, 0x31]
  const EAGLE_011: bytes := EAGLE + ([SPACE] + (ZERO_ONE + ([SPACE] + ONE)))

  // A strict name that is not its own print is addressed if it is the only receiver,
  // and by nothing if there are several.
  lemma LeadingZeroMissed(receivers: seq<bytes>, everyone: seq<bytes>)
    ensures ParseStrict(EAGLE_011) == Some(EAGLE_11) && !Canonical(EAGLE_011)
    ensures |receivers| > 1 ==> !Addressed(receivers, everyone, EAGLE_011)
    ensures receivers == [EAGLE_011] ==> Addressed(receivers, everyone, EAGLE_011)
    ensures !exists tx :: ParsePilot(tx) == Some(EAGLE_011)
  {
    hide FieldsFrom, Fields, JoinWords, Addressed, ParsePilot;
    PlainEagle();
    assert IsDigit(ONE[0]) && IsDigit(ZERO_ONE[0]);
    ThreeFields(EAGLE, ZERO_ONE, [SPACE], ONE);
    var words := [EAGLE, ZERO_ONE, ONE];
    assert words[..1] == [EAGLE] && words[1] == ZERO_ONE && !SingleDigit(ZERO_ONE) && HasDigit(ZERO_ONE);
    JoinOne(EAGLE);
    assert ZERO_ONE[..1] == [0x30] && [0x30][..0] == [] && ONE[..0] == [] && NatOf([]) == 0;
    assert NatOf([0x30]) == 0 && NatOf(ZERO_ONE) == 1 && NatOf(ONE) == 1;
    assert IntText(1) == ONE;
    assert |FormatStrict(EAGLE_11)| == 9 && |EAGLE_011| == 10;
    AddressedIff(receivers, everyone, EAGLE_011);
    if tx :| ParsePilot(tx) == Some(EAGLE_011) {
      ParsedSpelled(tx);
    }
  }
}
