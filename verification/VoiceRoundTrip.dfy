// The encoder's forward pointers and the decoder's backward pointers name the
// same byte ranges, exactly when the packet's length fits in a uint16.
module VoiceRoundTrip {
  import opened Wrappers
  import opened Bytes
  import opened VoicePacket

  // The length fields are those of the contents, without wrap-around.
  predicate Consistent(p: Packet) {
    && p.audioSegmentLength == |p.audioBytes|
    && p.frequenciesSegmentLength == FREQUENCY_LENGTH * |p.frequencies|
    && p.packetLength == HEADER_LENGTH + FIXED_LENGTH + |p.audioBytes| + FREQUENCY_LENGTH * |p.frequencies|
    && |p.relayGUID| == GUID_LENGTH && |p.originGUID| == GUID_LENGTH
  }

  function FrequenciesBytes(fs: seq<Frequency>): (b: bytes)
    ensures |b| == FREQUENCY_LENGTH * |fs|
  {
    if fs == [] then [] else FrequenciesBytes(fs[..|fs| - 1]) + FrequencyBytes(fs[|fs| - 1])
  }

  // The bytes of a packet. One byte between the frequencies and the unit ID
  // belongs to no field.
  function HeaderBytes(p: Packet): (b: bytes)
    ensures |b| == 6
  {
    LE(p.packetLength, 2) + LE(p.audioSegmentLength, 2) + LE(p.frequenciesSegmentLength, 2)
  }

  function FixedBytes(p: Packet): bytes {
    LE(p.unitID, 4) + LE(p.packetID, 8) + [p.hops] + p.relayGUID + p.originGUID
  }

  function Layout(p: Packet): bytes {
    HeaderBytes(p) + p.audioBytes + FrequenciesBytes(p.frequencies) + [0] + FixedBytes(p)
  }

  // ---- encoding ----

  // What is written so far, in a buffer of zeros.
  function Filled(done: bytes, rest: nat): Option<bytes> {
    Some(done + Zeros(rest))
  }

  lemma PutNext(done: bytes, rest: nat, data: bytes)
    requires |data| <= rest
    ensures Put(Filled(done, rest), |done|, |done| + |data|, data) == Filled(done + data, rest - |data|)
  {
    var b := done + Zeros(rest);
    assert b[..|done|] == done && b[|done| + |data|..] == Zeros(rest - |data|);
    assert data[..|data|] == data;
    assert done + data + Zeros(rest - |data|) == (done + data) + Zeros(rest - |data|);
  }

  lemma PutHeaderFilled(p: Packet, rest: nat)
    ensures PutHeader(Some(Zeros(6 + rest)), p) == Filled(HeaderBytes(p), rest)
  {
    hide Put, LE;
    var a, b, c := LE(p.packetLength, 2), LE(p.audioSegmentLength, 2), LE(p.frequenciesSegmentLength, 2);
    assert [] + Zeros(6 + rest) == Zeros(6 + rest);
    PutNext([], 6 + rest, a);
    assert [] + a == a;
    PutNext(a, 4 + rest, b);
    PutNext(a + b, 2 + rest, c);
  }

  lemma PutFrequencyFilled(done: bytes, rest: nat, f: Frequency)
    requires FREQUENCY_LENGTH <= rest
    ensures PutFrequency(Filled(done, rest), |done|, f) == Filled(done + FrequencyBytes(f), rest - FREQUENCY_LENGTH)
  {
    hide Put, LE;
    var bits := LE(f.bits, 8);
    PutNext(done, rest, bits);
    PutNext(done + bits, rest - 8, [f.modulation]);
    PutNext(done + bits + [f.modulation], rest - 9, [f.encryption]);
    assert done + bits + [f.modulation] + [f.encryption] == done + FrequencyBytes(f);
  }

  lemma {:induction false} PutFrequenciesFilled(done: bytes, rest: nat, fs: seq<Frequency>)
    requires FREQUENCY_LENGTH * |fs| <= rest
    ensures PutFrequencies(Filled(done, rest), |done|, fs)
         == Filled(done + FrequenciesBytes(fs), rest - FREQUENCY_LENGTH * |fs|)
  {
    hide PutFrequency;
    if fs == [] {
      assert done + [] == done;
    } else {
      var init, last := fs[..|fs| - 1], fs[|fs| - 1];
      PutFrequenciesFilled(done, rest, init);
      PutFrequencyFilled(done + FrequenciesBytes(init), rest - FREQUENCY_LENGTH * |init|, last);
      assert done + FrequenciesBytes(init) + FrequencyBytes(last) == done + FrequenciesBytes(fs);
    }
  }

  lemma ForwardPointers(n: uint16)
    requires 57 <= n
    ensures var unit := Wrap(n - FIXED_LENGTH + 1); var id := Wrap(unit + 4); var hops := Wrap(id + 8);
            var relay := Wrap(hops + 1); var origin := Wrap(relay + GUID_LENGTH);
            unit == n - 57 && id == n - 53 && hops == n - 45 && relay == n - 44 && origin == n - 22
  {
  }

  // The fixed segment starts one byte late: the byte it skips stays zero.
  lemma PutFixedFilled(done: bytes, p: Packet)
    requires p.packetLength == |done| + FIXED_LENGTH
    requires |p.relayGUID| == GUID_LENGTH && |p.originGUID| == GUID_LENGTH
    ensures PutFixed(Filled(done, FIXED_LENGTH), p) == Some(done + [0] + FixedBytes(p))
  {
    hide Put, LE, Wrap;
    ForwardPointers(p.packetLength);
    var u, i, h := LE(p.unitID, 4), LE(p.packetID, 8), [p.hops];
    var d0 := done + [0];
    assert Filled(done, 58) == Filled(d0, 57) by {
      assert Zeros(58) == [0] + Zeros(57);
      assert done + Zeros(58) == d0 + Zeros(57);
    }
    PutNext(d0, 57, u);
    PutNext(d0 + u, 53, i);
    PutNext(d0 + u + i, 45, h);
    PutNext(d0 + u + i + h, 44, p.relayGUID);
    PutNext(d0 + u + i + h + p.relayGUID, 22, p.originGUID);
    var all := d0 + u + i + h + p.relayGUID + p.originGUID;
    assert all + Zeros(0) == all;
    assert all == d0 + FixedBytes(p);
  }

  lemma EncodeLayout(p: Packet)
    requires Consistent(p)
    ensures Encode(p) == Some(Layout(p))
  {
    hide Put, PutHeader, PutFixed, PutFrequencies;
    var header, audio, frequencies := HeaderBytes(p), p.audioBytes, FrequenciesBytes(p.frequencies);
    PutHeaderFilled(p, p.packetLength - 6);
    PutNext(header, p.packetLength - 6, audio);
    PutFrequenciesFilled(header + audio, p.packetLength - 6 - |audio|, p.frequencies);
    PutFixedFilled(header + audio + frequencies, p);
  }

  // ---- decoding ----

  lemma FrequencyBack(f: Frequency)
    ensures DecodeFrequency(FrequencyBytes(f)) == f
  {
    Widths();
    FromLEOfLE(f.bits, 8);
    assert FrequencyBytes(f)[..8] == LE(f.bits, 8);
  }

  lemma {:induction false} FrequenciesBack(fs: seq<Frequency>)
    ensures DecodeFrequencies(FrequenciesBytes(fs)) == fs
  {
    hide FrequencyBytes, DecodeFrequency;
    if fs != [] {
      var init, last := fs[..|fs| - 1], fs[|fs| - 1];
      var b := FrequenciesBytes(fs);
      FrequenciesBack(init);
      FrequencyBack(last);
      assert b[..|b| - 10] == FrequenciesBytes(init) && b[|b| - 10..] == FrequencyBytes(last);
    }
  }

  lemma GetAt(b: bytes, p: nat, t: bytes)
    requires At(b, p, t)
    ensures Get(b, p, p + |t|) == Some(t)
  {
  }

  lemma HeaderAt(b: bytes, i: nat, x: uint16)
    requires At(b, i, LE(x, 2))
    ensures Header(b, i) == x
  {
    Widths();
    FromLEOfLE(x, 2);
  }

  // Where the fields of a packet are in its bytes.
  lemma FieldsAt(p: Packet)
    requires Consistent(p)
    ensures var b, n := Layout(p), p.packetLength;
            && |b| == n
            && At(b, 0, LE(p.packetLength, 2)) && At(b, 2, LE(p.audioSegmentLength, 2))
            && At(b, 4, LE(p.frequenciesSegmentLength, 2)) && At(b, 6, p.audioBytes)
            && At(b, 6 + |p.audioBytes|, FrequenciesBytes(p.frequencies))
            && At(b, n - 57, LE(p.unitID, 4)) && At(b, n - 53, LE(p.packetID, 8)) && At(b, n - 45, [p.hops])
            && At(b, n - 44, p.relayGUID) && At(b, n - 22, p.originGUID)
  {
    hide LE, FrequenciesBytes;
    var b := Layout(p);
    var l, a, f := LE(p.packetLength, 2), LE(p.audioSegmentLength, 2), LE(p.frequenciesSegmentLength, 2);
    var u, i, h := LE(p.unitID, 4), LE(p.packetID, 8), [p.hops];
    var fs := FrequenciesBytes(p.frequencies);
    assert At(b, 0, b);
    AtConcat(b, 0, HeaderBytes(p) + p.audioBytes + fs + [0], FixedBytes(p));
    AtConcat(b, 0, HeaderBytes(p) + p.audioBytes + fs, [0]);
    AtConcat(b, 0, HeaderBytes(p) + p.audioBytes, fs);
    AtConcat(b, 0, HeaderBytes(p), p.audioBytes);
    AtConcat(b, 0, l + a, f);
    AtConcat(b, 0, l, a);
    var q := p.packetLength - 57;
    AtConcat(b, q, u + i + h + p.relayGUID, p.originGUID);
    AtConcat(b, q, u + i + h, p.relayGUID);
    AtConcat(b, q, u + i, h);
    AtConcat(b, q, u, i);
  }

  // Above 57 no pointer of the decoder wraps around.
  lemma BackwardPointers(n: uint16)
    requires 57 <= n
    ensures var origin := Wrap(n - GUID_LENGTH); var relay := Wrap(origin - GUID_LENGTH);
            var hops := Wrap(relay - 1); var id := Wrap(hops - 8); var unit := Wrap(id - 4);
            && origin == n - 22 && relay == n - 44 && hops == n - 45 && id == n - 53 && unit == n - 57
            && Wrap(relay + GUID_LENGTH) == n - 22 && Wrap(origin + GUID_LENGTH) == n % 0x1_0000
  {
  }

  lemma DecodeLayout(p: Packet)
    requires Consistent(p)
    ensures Decode(Layout(p)) == Some(p)
  {
    hide LE, FromLE, FrequenciesBytes, DecodeFrequencies, Layout, Header, At, Get, Wrap;
    var b, n := Layout(p), p.packetLength;
    FieldsAt(p);
    BackwardPointers(n);
    AudioPointer(|p.audioBytes|);
    HeaderAt(b, 0, p.packetLength);
    HeaderAt(b, 2, p.audioSegmentLength);
    HeaderAt(b, 4, p.frequenciesSegmentLength);
    GetAt(b, 6, p.audioBytes);
    GetAt(b, 6 + |p.audioBytes|, FrequenciesBytes(p.frequencies));
    FrequenciesBack(p.frequencies);
    GetAt(b, n - 57, LE(p.unitID, 4));
    GetAt(b, n - 53, LE(p.packetID, 8));
    GetAt(b, n - 45, [p.hops]);
    GetAt(b, n - 44, p.relayGUID);
    GetAt(b, n - 22, p.originGUID);
    NumbersBack(p);
  }

  lemma NumbersBack(p: Packet)
    ensures FromLE(LE(p.unitID, 4)) == p.unitID && FromLE(LE(p.packetID, 8)) == p.packetID
  {
    Widths();
    FromLEOfLE(p.unitID, 4);
    FromLEOfLE(p.packetID, 8);
  }

  lemma AudioPointer(n: nat)
    requires HEADER_LENGTH + n < 0x1_0000
    ensures Wrap(HEADER_LENGTH + n) == HEADER_LENGTH + n
  {
  }

  // ---- the main results ----

  // A new packet carries the first 65535 bytes of audio, the first 6553 frequencies
  // and all else as given; its lengths agree with each other exactly when everything
  // fits in a uint16.
  lemma NewPacketCarries(audio: bytes, fs: seq<Frequency>, unitID: uint32, packetID: uint64, hops: byte, relay: bytes, origin: bytes)
    ensures var p := NewPacket(audio, fs, unitID, packetID, hops, relay, origin);
            && p.audioBytes <= audio && (p.audioBytes == audio || |p.audioBytes| == 65535)
            && p.frequencies <= fs && (p.frequencies == fs || |p.frequencies| == 6553)
            && p.unitID == unitID && p.packetID == packetID && p.hops == hops
            && p.relayGUID == relay && p.originGUID == origin
            && (Consistent(p) <==>
                  HEADER_LENGTH + FIXED_LENGTH + |audio| + FREQUENCY_LENGTH * |fs| <= MAX_UINT16
                  && |relay| == GUID_LENGTH && |origin| == GUID_LENGTH)
  {
    var p := NewPacket(audio, fs, unitID, packetID, hops, relay, origin);
    assert p.packetLength == Wrap(HEADER_LENGTH + |p.audioBytes| + p.frequenciesSegmentLength + FIXED_LENGTH);
  }

  // Exactly when everything fits in a uint16, a new packet can be encoded at all;
  // otherwise its wrapped length makes the encoder panic.
  lemma EncodesIffFits(audio: bytes, fs: seq<Frequency>, unitID: uint32, packetID: uint64, hops: byte, relay: bytes, origin: bytes)
    ensures Encode(NewPacket(audio, fs, unitID, packetID, hops, relay, origin)).Some?
        <==> HEADER_LENGTH + FIXED_LENGTH + |audio| + FREQUENCY_LENGTH * |fs| <= MAX_UINT16
  {
    hide LE, Put, PutFrequencies;
    var p := NewPacket(audio, fs, unitID, packetID, hops, relay, origin);
    if HEADER_LENGTH + FIXED_LENGTH + |audio| + FREQUENCY_LENGTH * |fs| <= MAX_UINT16 {
      EncodeFits(p);
    } else if Encode(p).Some? {
      EncodeNeeds(p);
      assert false;
    }
  }

  // Without the right GUIDs the buffer is still filled, if the rest fits.
  lemma EncodeFits(p: Packet)
    requires p.audioSegmentLength == |p.audioBytes| && p.frequenciesSegmentLength == FREQUENCY_LENGTH * |p.frequencies|
    requires p.packetLength == HEADER_LENGTH + FIXED_LENGTH + |p.audioBytes| + FREQUENCY_LENGTH * |p.frequencies|
    ensures Encode(p).Some?
  {
    hide LE, FrequenciesBytes, PutHeader, PutFrequencies;
    var header, audio, frequencies := HeaderBytes(p), p.audioBytes, FrequenciesBytes(p.frequencies);
    PutHeaderFilled(p, p.packetLength - 6);
    PutNext(header, p.packetLength - 6, audio);
    PutFrequenciesFilled(header + audio, p.packetLength - 6 - |audio|, p.frequencies);
    FixedFits(header + audio + frequencies, p);
  }

  lemma FixedFits(done: bytes, p: Packet)
    requires p.packetLength == |done| + FIXED_LENGTH
    ensures PutFixed(Filled(done, FIXED_LENGTH), p).Some?
  {
    hide LE;
  }

  // What any successful encoding needs.
  lemma EncodeNeeds(p: Packet)
    requires Encode(p).Some?
    ensures HEADER_LENGTH + |p.audioBytes| <= p.packetLength
    ensures p.frequencies != [] ==>
              HEADER_LENGTH + p.audioSegmentLength + FREQUENCY_LENGTH * |p.frequencies| <= p.packetLength
  {
    hide LE, PutFrequencies;
    var b2 := Put(PutHeader(Some(Zeros(p.packetLength)), p), HEADER_LENGTH, HEADER_LENGTH + |p.audioBytes|, p.audioBytes);
    var b3 := PutFrequencies(b2, HEADER_LENGTH + p.audioSegmentLength, p.frequencies);
    assert b3.Some?;
    FrequenciesNeed(b2, HEADER_LENGTH + p.audioSegmentLength, p.frequencies);
  }

  lemma {:induction false} FrequenciesNeed(b: Option<bytes>, start: int, fs: seq<Frequency>)
    requires PutFrequencies(b, start, fs).Some?
    ensures b.Some? && (fs != [] ==> start + FREQUENCY_LENGTH * |fs| <= |b.value|)
    ensures |PutFrequencies(b, start, fs).value| == |b.value|
  {
    hide LE;
    if fs != [] {
      FrequenciesNeed(b, start, fs[..|fs| - 1]);
    }
  }

  // A new packet survives encoding and decoding exactly when everything fits in a
  // uint16 and the GUIDs have their length.
  lemma PacketRoundTrip(audio: bytes, fs: seq<Frequency>, unitID: uint32, packetID: uint64, hops: byte, relay: bytes, origin: bytes)
    ensures var p := NewPacket(audio, fs, unitID, packetID, hops, relay, origin);
            (Encode(p).Some? && Decode(Encode(p).value) == Some(p))
            <==> HEADER_LENGTH + FIXED_LENGTH + |audio| + FREQUENCY_LENGTH * |fs| <= MAX_UINT16
                 && |relay| == GUID_LENGTH && |origin| == GUID_LENGTH
  {
    hide Encode, Decode, Layout;
    var p := NewPacket(audio, fs, unitID, packetID, hops, relay, origin);
    EncodesIffFits(audio, fs, unitID, packetID, hops, relay, origin);
    if HEADER_LENGTH + FIXED_LENGTH + |audio| + FREQUENCY_LENGTH * |fs| <= MAX_UINT16
       && |relay| == GUID_LENGTH && |origin| == GUID_LENGTH {
      EncodeLayout(p);
      DecodeLayout(p);
    } else if Encode(p).Some? && Decode(Encode(p).value) == Some(p) {
      DecodedGUIDs(Encode(p).value);
    }
  }

  lemma DecodedGUIDs(b: bytes)
    requires Decode(b).Some?
    ensures |Decode(b).value.relayGUID| == GUID_LENGTH && |Decode(b).value.originGUID| == GUID_LENGTH
  {
    hide FromLE, DecodeFrequencies, Header, Get;
  }

  // ---- decoding first ----

  // Bytes decode exactly when the three lengths lie within them and the frequencies
  // segment is a whole number of frequencies. Input longer than 65535 bytes, which
  // is more than a datagram holds, is the only one in which pointers wrap around:
  // the one to the frequencies can, and with a packet length of 44 so do those to
  // the numbers.
  lemma DecodesIff(b: bytes)
    ensures Decode(b).Some? <==>
      && |b| >= HEADER_LENGTH
      && (FIXED_LENGTH - 1 <= Header(b, 0) <= |b| || (Header(b, 0) == 2 * GUID_LENGTH && |b| > MAX_UINT16))
      && HEADER_LENGTH + Header(b, 2) <= |b|
      && Wrap(HEADER_LENGTH + Header(b, 2)) + Header(b, 4) <= |b|
      && Header(b, 4) % FREQUENCY_LENGTH == 0
    ensures |b| <= MAX_UINT16 && Decode(b).Some? ==>
      HEADER_LENGTH + Header(b, 2) + Header(b, 4) <= |b|
  {
    hide FromLE, DecodeFrequencies, Header, Wrap, Get;
    if |b| >= HEADER_LENGTH {
      FixedDecodes(b, Header(b, 0));
      if HEADER_LENGTH + Header(b, 2) <= |b| <= MAX_UINT16 {
        AudioPointer(Header(b, 2));
      }
    }
  }

  // No field of the fixed segment lies outside the input.
  predicate FixedReads(b: bytes, n: int) {
    var originIDPtr := Wrap(n - GUID_LENGTH); var relayIDPtr := Wrap(originIDPtr - GUID_LENGTH);
    var hopsPtr := Wrap(relayIDPtr - 1); var packetIDPtr := Wrap(hopsPtr - 8); var unitIDPtr := Wrap(packetIDPtr - 4);
    && Get(b, unitIDPtr, packetIDPtr).Some? && Get(b, packetIDPtr, hopsPtr).Some? && Get(b, hopsPtr, hopsPtr + 1).Some?
    && Get(b, relayIDPtr, Wrap(relayIDPtr + GUID_LENGTH)).Some?
    && Get(b, originIDPtr, Wrap(originIDPtr + GUID_LENGTH)).Some?
  }

  lemma FixedReadsFar(b: bytes, n: int)
    requires 57 <= n < 0x1_0000
    ensures FixedReads(b, n) <==> n <= |b|
  {
    hide Get, Wrap;
    BackwardPointers(n);
    assert n % 0x1_0000 == n;
  }

  // The numbers before the GUIDs start before the input, and wrap around.
  lemma FixedReadsNear(b: bytes, n: int)
    requires 44 <= n < 57
    ensures FixedReads(b, n) <==> n == 44 && |b| > MAX_UINT16
  {
    hide Get;
    assert Wrap(n - GUID_LENGTH) == n - 22 && Wrap(n - 22 - GUID_LENGTH) == n - 44;
  }

  lemma LowPointers(n: int)
    requires 0 <= n < 44
    ensures n >= 22 ==> Wrap(Wrap(n - GUID_LENGTH) - GUID_LENGTH) == n + 65492 && Wrap(n + 65492 + GUID_LENGTH) == n - 22
    ensures n < 22 ==> Wrap(n - GUID_LENGTH) == n + 65514 && Wrap(n + 65514 + GUID_LENGTH) == n
  {
  }

  lemma FixedReadsLow(b: bytes, n: int)
    requires 0 <= n < 44
    ensures !FixedReads(b, n)
  {
    hide Get, Wrap;
    LowPointers(n);
  }

  lemma FixedDecodes(b: bytes, n: int)
    requires 0 <= n < 0x1_0000
    ensures FixedReads(b, n) <==> FIXED_LENGTH - 1 <= n <= |b| || (n == 2 * GUID_LENGTH && |b| > MAX_UINT16)
  {
    hide FixedReads;
    if n >= 57 {
      FixedReadsFar(b, n);
    } else if n >= 44 {
      FixedReadsNear(b, n);
    } else {
      FixedReadsLow(b, n);
    }
  }

  lemma {:induction false} FrequenciesForth(b: bytes)
    requires |b| % FREQUENCY_LENGTH == 0
    ensures FrequenciesBytes(DecodeFrequencies(b)) == b
    decreases |b|
  {
    if b != [] {
      var init, last := b[..|b| - 10], b[|b| - 10..];
      FrequenciesForth(init);
      FrequencyForth(last);
      var fs := DecodeFrequencies(b);
      assert fs[..|fs| - 1] == DecodeFrequencies(init);
      assert b == init + last;
    }
  }

  lemma FrequencyForth(b: bytes)
    requires |b| == FREQUENCY_LENGTH
    ensures FrequencyBytes(DecodeFrequency(b)) == b
  {
    LEOfFromLE(b[..8]);
    assert b == b[..8] + [b[8]] + [b[9]];
  }

  // ---- encoding what was decoded ----

  // The bytes with those from lo up to hi, if there are any, set to zero.
  function Zeroed(b: bytes, lo: nat, hi: nat): (r: bytes)
    requires hi <= |b|
    ensures |r| == |b| && forall i :: 0 <= i < |b| ==> r[i] == if lo <= i < hi then 0 else b[i]
  {
    if lo < hi then b[..lo] + Zeros(hi - lo) + b[hi..] else b
  }

  // The bytes with those from lo up to hi taken from b.
  function Overlay(o: bytes, b: bytes, lo: nat, hi: nat): (r: bytes)
    requires lo <= hi <= |o| <= |b|
    ensures |r| == |o| && forall i :: 0 <= i < |o| ==> r[i] == if lo <= i < hi then b[i] else o[i]
  {
    o[..lo] + b[lo..hi] + o[hi..]
  }

  lemma PutSame(o: bytes, b: bytes, lo: nat, hi: nat)
    requires lo <= hi <= |o| <= |b|
    ensures Put(Some(o), lo, hi, b[lo..hi]) == Some(Overlay(o, b, lo, hi))
  {
    assert b[lo..hi][..hi - lo] == b[lo..hi];
  }

  lemma OverlayNext(o: bytes, b: bytes, lo: nat, mid: nat, hi: nat)
    requires lo <= mid <= hi <= |o| <= |b|
    ensures Overlay(Overlay(o, b, lo, mid), b, mid, hi) == Overlay(o, b, lo, hi)
  {
    hide Overlay;
    assert Overlay(Overlay(o, b, lo, mid), b, mid, hi) == Overlay(o, b, lo, hi);
  }

  lemma PutAfter(o: bytes, b: bytes, lo: nat, mid: nat, hi: nat)
    requires lo <= mid <= hi <= |o| <= |b|
    ensures Put(Some(Overlay(o, b, lo, mid)), mid, hi, b[mid..hi]) == Some(Overlay(o, b, lo, hi))
  {
    hide Put, Overlay;
    PutSame(Overlay(o, b, lo, mid), b, mid, hi);
    OverlayNext(o, b, lo, mid, hi);
  }

  // Where the fields of a decoded packet come from.
  lemma DecodedFields(b: bytes)
    requires Decode(b).Some? && 57 <= Header(b, 0) && HEADER_LENGTH + Header(b, 2) < 0x1_0000
    ensures var p, n, a, f := Decode(b).value, Header(b, 0), Header(b, 2), Header(b, 4);
      && n <= |b| && 6 + a + f <= |b| && f % FREQUENCY_LENGTH == 0
      && p.packetLength == n && p.audioSegmentLength == a && p.frequenciesSegmentLength == f
      && p.audioBytes == b[6..6 + a] && p.frequencies == DecodeFrequencies(b[6 + a..6 + a + f])
      && p.unitID == FromLE(b[n - 57..n - 53]) && p.packetID == FromLE(b[n - 53..n - 45]) && [p.hops] == b[n - 45..n - 44]
      && p.relayGUID == b[n - 44..n - 22] && p.originGUID == b[n - 22..n]
  {
    hide FromLE, DecodeFrequencies, Wrap, Get, Header;
    BackwardPointers(Header(b, 0));
    AudioPointer(Header(b, 2));
  }

  // The segments before the fixed one are written as they were read.
  lemma SegmentsBack(b: bytes)
    requires Decode(b).Some? && 57 <= Header(b, 0) && HEADER_LENGTH + Header(b, 2) + Header(b, 4) <= Header(b, 0)
    ensures var p, n, w := Decode(b).value, Header(b, 0), HEADER_LENGTH + Header(b, 2) + Header(b, 4);
      && n <= |b| && p.packetLength == n
      && PutFrequencies(Put(PutHeader(Some(Zeros(n)), p), HEADER_LENGTH, HEADER_LENGTH + |p.audioBytes|, p.audioBytes),
                        HEADER_LENGTH + p.audioSegmentLength, p.frequencies)
         == Filled(b[..w], n - w)
  {
    hide FromLE, LE, DecodeFrequencies, FrequenciesBytes, Decode, Header, Put, PutHeader, PutFrequencies, Filled;
    var p, n := Decode(b).value, Header(b, 0);
    var a, f := Header(b, 2), Header(b, 4);
    DecodedFields(b);
    HeaderForth(b);
    assert HeaderBytes(p) == b[..6] by {
      assert b[0..2] + b[2..4] + b[4..6] == b[..6];
    }
    PutHeaderFilled(p, n - 6);
    PutNext(b[..6], n - 6, b[6..6 + a]);
    assert b[..6] + b[6..6 + a] == b[..6 + a];
    FrequenciesForth(b[6 + a..6 + a + f]);
    PutFrequenciesFilled(b[..6 + a], n - 6 - a, p.frequencies);
    assert b[..6 + a] + b[6 + a..6 + a + f] == b[..6 + a + f];
  }

  // The fixed segment is written over the bytes that it was read from.
  lemma FixedBack(b: bytes, o: bytes)
    requires Decode(b).Some? && 57 <= Header(b, 0) && HEADER_LENGTH + Header(b, 2) < 0x1_0000
    requires |o| == Header(b, 0) <= |b|
    ensures PutFixed(Some(o), Decode(b).value) == Some(Overlay(o, b, |o| - 57, |o|))
  {
    hide FromLE, LE, Decode, Header, Put, Wrap, Overlay, DecodeFrequencies;
    var n := |o|;
    DecodedFields(b);
    ForwardPointers(n);
    LEOfFromLE(b[n - 57..n - 53]);
    LEOfFromLE(b[n - 53..n - 45]);
    PutSame(o, b, n - 57, n - 53);
    PutAfter(o, b, n - 57, n - 53, n - 45);
    PutAfter(o, b, n - 57, n - 45, n - 44);
    PutAfter(o, b, n - 57, n - 44, n - 22);
    PutAfter(o, b, n - 57, n - 22, n);
  }

  lemma DecodedLengths(b: bytes)
    requires Decode(b).Some?
    ensures var p := Decode(b).value;
      && p.packetLength == Header(b, 0) && p.audioSegmentLength == Header(b, 2) == |p.audioBytes|
      && FREQUENCY_LENGTH * |p.frequencies| == Header(b, 4)
  {
    hide FromLE, DecodeFrequencies, Wrap, Header, FrequenciesBytes;
    var ptr := Wrap(HEADER_LENGTH + Header(b, 2));
    FrequenciesForth(b[ptr..ptr + Header(b, 4)]);
  }

  // A packet shorter than its fixed segment has no room for it.
  lemma NoRoom(p: Packet)
    requires p.packetLength < 57
    ensures Encode(p).None?
  {
    hide LE, PutFrequencies, PutHeader, Put;
    var b2 := Put(PutHeader(Some(Zeros(p.packetLength)), p), HEADER_LENGTH, HEADER_LENGTH + |p.audioBytes|, p.audioBytes);
    var b3 := PutFrequencies(b2, HEADER_LENGTH + p.audioSegmentLength, p.frequencies);
    if b3.Some? {
      FrequenciesNeed(b2, HEADER_LENGTH + p.audioSegmentLength, p.frequencies);
      HeaderLength(p);
      NoFixed(b3.value, p);
    } else {
      FixedFails(p);
    }
  }

  lemma HeaderLength(p: Packet)
    ensures var b := Put(PutHeader(Some(Zeros(p.packetLength)), p), HEADER_LENGTH, HEADER_LENGTH + |p.audioBytes|, p.audioBytes);
      b.Some? ==> |b.value| == p.packetLength
  {
    hide LE;
  }

  lemma NoFixed(b: bytes, p: Packet)
    requires |b| == p.packetLength < 57
    ensures PutFixed(Some(b), p) == None
  {
    hide LE;
    assert Wrap(p.packetLength - FIXED_LENGTH + 1) == p.packetLength + 65479;
  }

  // Whatever decodes is encoded again just when its audio and frequencies end within
  // its packet length, to the same bytes up to that length with zeros between the
  // frequencies and the fixed segment, if there is anything between them.
  lemma ReencodesBut(b: bytes)
    requires Decode(b).Some?
    ensures var n, w := Header(b, 0), HEADER_LENGTH + Header(b, 2) + Header(b, 4);
      if 57 <= n && w <= n then n <= |b| && Encode(Decode(b).value) == Some(Zeroed(b[..n], w, n - 57))
      else Encode(Decode(b).value) == None
  {
    hide FromLE, LE, Decode, Header, Put, PutHeader, PutFrequencies, PutFixed, Encode;
    var p, n, w := Decode(b).value, Header(b, 0), HEADER_LENGTH + Header(b, 2) + Header(b, 4);
    DecodedLengths(b);
    if n < 57 {
      NoRoom(p);
    } else if w > n {
      if Encode(p).Some? {
        EncodeNeeds(p);
      }
    } else {
      SegmentsBack(b);
      var o := b[..w] + Zeros(n - w);
      FixedBack(b, o);
      assert Overlay(o, b, n - 57, n) == Zeroed(b[..n], w, n - 57);
      EncodeSegments(p);
    }
  }

  lemma EncodeSegments(p: Packet)
    ensures Encode(p) == PutFixed(
              PutFrequencies(Put(PutHeader(Some(Zeros(p.packetLength)), p), HEADER_LENGTH, HEADER_LENGTH + |p.audioBytes|, p.audioBytes),
                             HEADER_LENGTH + p.audioSegmentLength, p.frequencies), p)
  {
  }

  lemma HeaderForth(b: bytes)
    requires HEADER_LENGTH <= |b|
    ensures forall i :: i in {0, 2, 4} ==> LE(Header(b, i), 2) == b[i..i + 2]
  {
    forall i | i in {0, 2, 4} ensures LE(Header(b, i), 2) == b[i..i + 2] {
      LEOfFromLE(b[i..i + 2]);
    }
  }
}
