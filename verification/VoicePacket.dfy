// The SRS voice packet: written forwards into a buffer, read backwards from its
// end, with uint16 pointers that can wrap around.
module VoicePacket {
  import opened Wrappers
  import opened Bytes

  const HEADER_LENGTH := 6
  const FIXED_LENGTH := 58
  const FREQUENCY_LENGTH := 10
  const GUID_LENGTH := 22
  const MAX_UINT16 := 0xFFFF

  type uint16 = x: int | 0 <= x < 0x1_0000
  type uint32 = x: int | 0 <= x < 0x1_0000_0000
  type uint64 = x: int | 0 <= x < 0x1_0000_0000_0000_0000

  // uint16 arithmetic wraps around.
  function Wrap(x: int): (r: int)
    ensures 0 <= r < 0x1_0000
  {
    x % 0x1_0000
  }

  // A frequency in Hz is the 64 bits of its floating-point representation.
  datatype Frequency = Frequency(bits: uint64, modulation: byte, encryption: byte)

  datatype Packet = Packet(
    packetLength: uint16, audioSegmentLength: uint16, frequenciesSegmentLength: uint16,
    audioBytes: bytes, frequencies: seq<Frequency>,
    unitID: uint32, packetID: uint64, hops: byte, relayGUID: bytes, originGUID: bytes)

  // ---- little-endian numbers ----

  function Pow256(n: nat): (p: nat)
    ensures p > 0
  {
    if n == 0 then 1 else 256 * Pow256(n - 1)
  }

  function LE(x: nat, n: nat): (b: bytes)
    ensures |b| == n
  {
    if n == 0 then [] else [(x % 256) as byte] + LE(x / 256, n - 1)
  }

  function FromLE(b: bytes): nat {
    if b == [] then 0 else b[0] as nat + 256 * FromLE(b[1..])
  }

  lemma {:induction false} FromLEOfLE(x: nat, n: nat)
    requires x < Pow256(n)
    ensures FromLE(LE(x, n)) == x
  {
    if n > 0 {
      FromLEOfLE(x / 256, n - 1);
      assert LE(x, n)[1..] == LE(x / 256, n - 1);
    }
  }

  lemma {:induction false} LEOfFromLE(b: bytes)
    ensures FromLE(b) < Pow256(|b|) && LE(FromLE(b), |b|) == b
  {
    if b != [] {
      LEOfFromLE(b[1..]);
      assert b == [b[0]] + b[1..];
    }
  }

  lemma Widths()
    ensures Pow256(2) == 0x1_0000 && Pow256(4) == 0x1_0000_0000 && Pow256(8) == 0x1_0000_0000_0000_0000
  {
    assert Pow256(1) == 256 && Pow256(3) == 0x100_0000;
    assert Pow256(5) == 0x100_0000_0000 && Pow256(6) == 0x1_0000_0000_0000 && Pow256(7) == 0x100_0000_0000_0000;
  }

  // ---- NewPacket ----

  function NewPacket(audioBytes: bytes, frequencies: seq<Frequency>, unitID: uint32, packetID: uint64, hops: byte,
                     relay: bytes, origin: bytes): Packet {
    var audio := if |audioBytes| > MAX_UINT16 then audioBytes[..MAX_UINT16] else audioBytes;
    var tooLong := |frequencies| * FREQUENCY_LENGTH > MAX_UINT16;
    var f: uint16 := if tooLong then MAX_UINT16 else |frequencies| * FREQUENCY_LENGTH;
    var kept := if tooLong then frequencies[..MAX_UINT16 / FREQUENCY_LENGTH] else frequencies;
    Packet(Wrap(HEADER_LENGTH + |audio| + f + FIXED_LENGTH), |audio|, f, audio, kept, unitID, packetID, hops, relay, origin)
  }

  // ---- Encode ----

  function Zeros(n: nat): (b: bytes)
    ensures |b| == n && forall i :: 0 <= i < n ==> b[i] == 0
  {
    seq(n, i => 0)
  }

  // copy(b[lo:hi], data): nothing is left of a buffer whose slicing panics.
  function Put(b: Option<bytes>, lo: int, hi: int, data: bytes): (r: Option<bytes>)
    ensures r.Some? ==> b.Some? && |r.value| == |b.value|
  {
    if b.None? || !(0 <= lo <= hi <= |b.value|) then None
    else
      var n := if |data| <= hi - lo then |data| else hi - lo;
      Some(b.value[..lo] + data[..n] + b.value[lo + n..])
  }

  function FrequencyBytes(f: Frequency): (b: bytes)
    ensures |b| == FREQUENCY_LENGTH
  {
    LE(f.bits, 8) + [f.modulation] + [f.encryption]
  }

  function PutFrequency(b: Option<bytes>, offset: int, f: Frequency): Option<bytes> {
    Put(Put(Put(b, offset, offset + 8, LE(f.bits, 8)), offset + 8, offset + 9, [f.modulation]),
        offset + 9, offset + 10, [f.encryption])
  }

  function PutFrequencies(b: Option<bytes>, start: int, fs: seq<Frequency>): Option<bytes> {
    if fs == [] then b
    else
      PutFrequency(PutFrequencies(b, start, fs[..|fs| - 1]), start + (|fs| - 1) * FREQUENCY_LENGTH, fs[|fs| - 1])
  }

  // The segments in the order they are written.
  function PutHeader(b: Option<bytes>, p: Packet): Option<bytes> {
    Put(Put(Put(b, 0, 2, LE(p.packetLength, 2)), 2, 4, LE(p.audioSegmentLength, 2)), 4, 6,
        LE(p.frequenciesSegmentLength, 2))
  }

  function PutFixed(b: Option<bytes>, p: Packet): Option<bytes> {
    var unitIDPtr := Wrap(p.packetLength - FIXED_LENGTH + 1);
    var packetIDPtr := Wrap(unitIDPtr + 4);
    var hopsPtr := Wrap(packetIDPtr + 8);
    var relayIDPtr := Wrap(hopsPtr + 1);
    var originIDPtr := Wrap(relayIDPtr + GUID_LENGTH);
    var b1 := Put(b, unitIDPtr, packetIDPtr, LE(p.unitID, 4));
    var b2 := Put(b1, packetIDPtr, hopsPtr, LE(p.packetID, 8));
    var b3 := Put(b2, hopsPtr, hopsPtr + 1, [p.hops]);
    var b4 := Put(b3, relayIDPtr, originIDPtr, p.relayGUID);
    Put(b4, originIDPtr, p.packetLength, p.originGUID)
  }

  // Encode, None standing for a panic.
  function Encode(p: Packet): Option<bytes> {
    var b0 := Some(Zeros(p.packetLength));
    var b1 := PutHeader(b0, p);
    var b2 := Put(b1, HEADER_LENGTH, HEADER_LENGTH + |p.audioBytes|, p.audioBytes);
    var b3 := PutFrequencies(b2, HEADER_LENGTH + p.audioSegmentLength, p.frequencies);
    PutFixed(b3, p)
  }

  // ---- Decode ----

  // b[lo:hi], None standing for a panic.
  function Get(b: bytes, lo: int, hi: int): (r: Option<bytes>)
    ensures r.Some? <==> 0 <= lo <= hi <= |b|
    ensures r.Some? ==> r.value == b[lo..hi]
  {
    if 0 <= lo <= hi <= |b| then Some(b[lo..hi]) else None
  }

  function DecodeFrequency(b: bytes): Frequency
    requires |b| == FREQUENCY_LENGTH
  {
    Widths();
    LEOfFromLE(b[..8]);
    Frequency(FromLE(b[..8]), b[8], b[9])
  }

  function DecodeFrequencies(b: bytes): seq<Frequency>
    requires |b| % FREQUENCY_LENGTH == 0
    decreases |b|
  {
    if b == [] then []
    else DecodeFrequencies(b[..|b| - FREQUENCY_LENGTH]) + [DecodeFrequency(b[|b| - FREQUENCY_LENGTH..])]
  }

  function Header(b: bytes, i: nat): (r: int)
    requires i + 2 <= |b|
    ensures 0 <= r < 0x1_0000
  {
    Widths();
    LEOfFromLE(b[i..i + 2]);
    FromLE(b[i..i + 2])
  }

  // A frequencies segment that is not a whole number of frequencies panics on its
  // last, incomplete one.
  function Decode(b: bytes): (r: Option<Packet>)
    ensures r.Some? ==> HEADER_LENGTH <= |b|
  {
    if |b| < HEADER_LENGTH then None
    else
      var packetLength, audioLength, frequenciesLength := Header(b, 0), Header(b, 2), Header(b, 4);
      var originIDPtr := Wrap(packetLength - GUID_LENGTH);
      var relayIDPtr := Wrap(originIDPtr - GUID_LENGTH);
      var hopsPtr := Wrap(relayIDPtr - 1);
      var packetIDPtr := Wrap(hopsPtr - 8);
      var unitIDPtr := Wrap(packetIDPtr - 4);
      var unit := Get(b, unitIDPtr, packetIDPtr);
      var id := Get(b, packetIDPtr, hopsPtr);
      var hops := Get(b, hopsPtr, hopsPtr + 1);
      var relay := Get(b, relayIDPtr, Wrap(relayIDPtr + GUID_LENGTH));
      var origin := Get(b, originIDPtr, Wrap(originIDPtr + GUID_LENGTH));
      var audio := Get(b, HEADER_LENGTH, HEADER_LENGTH + audioLength);
      var frequenciesPtr := Wrap(HEADER_LENGTH + audioLength);
      var frequencies := Get(b, frequenciesPtr, frequenciesPtr + frequenciesLength);
      if unit.None? || id.None? || hops.None? || relay.None? || origin.None? || audio.None? || frequencies.None?
         || frequenciesLength % FREQUENCY_LENGTH != 0
      then None
      else
        FieldWidths(b, unitIDPtr, packetIDPtr, hopsPtr);
        Some(Packet(packetLength, audioLength, frequenciesLength, audio.value, DecodeFrequencies(frequencies.value),
                    FromLE(unit.value), FromLE(id.value), hops.value[0], relay.value, origin.value))
  }

  lemma FieldWidths(b: bytes, unitIDPtr: uint16, packetIDPtr: uint16, hopsPtr: uint16)
    requires unitIDPtr <= packetIDPtr <= hopsPtr <= |b|
    requires packetIDPtr == Wrap(hopsPtr - 8) && unitIDPtr == Wrap(packetIDPtr - 4)
    ensures FromLE(b[unitIDPtr..packetIDPtr]) < 0x1_0000_0000
    ensures FromLE(b[packetIDPtr..hopsPtr]) < 0x1_0000_0000_0000_0000
  {
    Widths();
    LEOfFromLE(b[unitIDPtr..packetIDPtr]);
    LEOfFromLE(b[packetIDPtr..hopsPtr]);
  }

  // ---- the programs ----

  // copy(b[lo:hi], data)
  method Copy(b: array<byte>, lo: int, hi: int, data: bytes) returns (ok: bool)
    modifies b
    ensures Written(b, ok, Put(Some(old(b[..])), lo, hi, data))
  {
    if !(0 <= lo <= hi <= b.Length) {
      return false;
    }
    var n := if |data| <= hi - lo then |data| else hi - lo;
    for i := 0 to n
      invariant b[..lo] == old(b[..lo]) && b[lo..lo + i] == data[..i] && b[lo + i..] == old(b[lo + i..])
    {
      b[lo + i] := data[i];
      assert data[..i + 1] == data[..i] + [data[i]];
    }
    assert b[..] == b[..lo] + b[lo..lo + n] + b[lo + n..];
    ok := true;
  }

  // A failed write stands for a panic: what follows does not happen.
  ghost predicate Written(b: array<byte>, ok: bool, spec: Option<bytes>)
    reads b
  {
    spec == if ok then Some(b[..]) else None
  }

  method EncodeHeader(b: array<byte>, p: Packet) returns (ok: bool)
    modifies b
    ensures Written(b, ok, PutHeader(Some(old(b[..])), p))
  {
    ok := Copy(b, 0, 2, LE(p.packetLength, 2));
    if ok {
      ok := Copy(b, 2, 4, LE(p.audioSegmentLength, 2));
    }
    if ok {
      ok := Copy(b, 4, 6, LE(p.frequenciesSegmentLength, 2));
    }
  }

  method EncodeFrequency(b: array<byte>, offset: int, f: Frequency) returns (ok: bool)
    modifies b
    ensures Written(b, ok, PutFrequency(Some(old(b[..])), offset, f))
  {
    ok := Copy(b, offset, offset + 8, LE(f.bits, 8));
    if ok {
      ok := Copy(b, offset + 8, offset + 9, [f.modulation]);
    }
    if ok {
      ok := Copy(b, offset + 9, offset + 10, [f.encryption]);
    }
  }

  method EncodeFixed(b: array<byte>, p: Packet) returns (ok: bool)
    modifies b
    ensures Written(b, ok, PutFixed(Some(old(b[..])), p))
  {
    hide Put, Wrap, LE;
    forall lo: int, hi: int, data: bytes ensures Put(None, lo, hi, data) == None {
      PutFails(lo, hi, data);
    }
    var fixedSegmentPtr := Wrap(p.packetLength - FIXED_LENGTH + 1);
    var unitIDPtr := fixedSegmentPtr;
    var packetIDPtr := Wrap(unitIDPtr + 4);
    ok := Copy(b, unitIDPtr, packetIDPtr, LE(p.unitID, 4));
    var hopsPtr := Wrap(packetIDPtr + 8);
    if ok {
      ok := Copy(b, packetIDPtr, hopsPtr, LE(p.packetID, 8));
    }
    if ok {
      ok := Copy(b, hopsPtr, hopsPtr + 1, [p.hops]);
    }
    var relayIDPtr := Wrap(hopsPtr + 1);
    var originIDPtr := Wrap(relayIDPtr + GUID_LENGTH);
    if ok {
      ok := Copy(b, relayIDPtr, originIDPtr, p.relayGUID);
    }
    if ok {
      ok := Copy(b, originIDPtr, p.packetLength, p.originGUID);
    }
  }

  method EncodePacket(p: Packet) returns (b: array<byte>, ok: bool)
    ensures fresh(b) && Written(b, ok, Encode(p))
  {
    hide PutHeader, PutFixed, PutFrequency, Put;
    b := new byte[p.packetLength](i => 0);
    assert b[..] == Zeros(p.packetLength);
    ok := EncodeHeader(b, p);
    if ok {
      ok := Copy(b, HEADER_LENGTH, HEADER_LENGTH + |p.audioBytes|, p.audioBytes);
    }
    ghost var start := HEADER_LENGTH + p.audioSegmentLength;
    ghost var b2 := Put(PutHeader(Some(Zeros(p.packetLength)), p), HEADER_LENGTH, HEADER_LENGTH + |p.audioBytes|, p.audioBytes);
    assert Written(b, ok, b2) by {
      PutFails(HEADER_LENGTH, HEADER_LENGTH + |p.audioBytes|, p.audioBytes);
    }
    for i := 0 to |p.frequencies|
      invariant Written(b, ok, PutFrequencies(b2, start, p.frequencies[..i]))
    {
      assert p.frequencies[..i + 1][..i] == p.frequencies[..i];
      var offset := HEADER_LENGTH + p.audioSegmentLength + i * FREQUENCY_LENGTH;
      if ok {
        ok := EncodeFrequency(b, offset, p.frequencies[i]);
      } else {
        FrequencyFails(offset, p.frequencies[i]);
      }
    }
    assert p.frequencies[..|p.frequencies|] == p.frequencies;
    if ok {
      ok := EncodeFixed(b, p);
    } else {
      FixedFails(p);
    }
  }

  lemma PutFails(lo: int, hi: int, data: bytes)
    ensures Put(None, lo, hi, data) == None
  {
  }

  lemma FrequencyFails(offset: int, f: Frequency)
    ensures PutFrequency(None, offset, f) == None
  {
  }

  lemma FixedFails(p: Packet)
    ensures PutFixed(None, p) == None
  {
  }

  lemma DecodeNone()
    ensures DecodeFrequencies([]) == []
  {
  }

  lemma DecodeNext(b: bytes, i: nat)
    requires i % FREQUENCY_LENGTH == 0 && i + FREQUENCY_LENGTH <= |b|
    ensures DecodeFrequencies(b[..i + FREQUENCY_LENGTH])
         == DecodeFrequencies(b[..i]) + [DecodeFrequency(b[i..i + FREQUENCY_LENGTH])]
  {
    hide DecodeFrequency;
    var s := b[..i + FREQUENCY_LENGTH];
    assert s[..i] == b[..i] && s[i..] == b[i..i + FREQUENCY_LENGTH];
  }

  // The loop over the frequencies segment; running off its end panics.
  method DecodeSegment(segment: bytes) returns (fs: seq<Frequency>, ok: bool)
    ensures ok <==> |segment| % FREQUENCY_LENGTH == 0
    ensures ok ==> fs == DecodeFrequencies(segment)
  {
    hide DecodeFrequency, DecodeFrequencies;
    fs := [];
    var i := 0;
    DecodeNone();
    while i < |segment|
      invariant 0 <= i <= |segment| && i % FREQUENCY_LENGTH == 0
      invariant fs == DecodeFrequencies(segment[..i])
    {
      if i + FREQUENCY_LENGTH > |segment| {
        return fs, false;
      }
      DecodeNext(segment, i);
      fs := fs + [DecodeFrequency(segment[i..i + FREQUENCY_LENGTH])];
      i := i + FREQUENCY_LENGTH;
    }
    assert segment[..i] == segment;
    ok := true;
  }

  method DecodePacket(b: bytes) returns (r: Option<Packet>)
    ensures r == Decode(b)
  {
    hide FromLE, LE, Header, DecodeFrequencies, Wrap, Get;
    if |b| < HEADER_LENGTH {
      return None;
    }
    var packetLength := Header(b, 0);
    var originIDPtr := Wrap(packetLength - GUID_LENGTH);
    var relayIDPtr := Wrap(originIDPtr - GUID_LENGTH);
    var hopsPtr := Wrap(relayIDPtr - 1);
    var packetIDPtr := Wrap(hopsPtr - 8);
    var unitIDPtr := Wrap(packetIDPtr - 4);
    var audioLength, frequenciesLength := Header(b, 2), Header(b, 4);
    var unit := Get(b, unitIDPtr, packetIDPtr);
    var id := Get(b, packetIDPtr, hopsPtr);
    var hops := Get(b, hopsPtr, hopsPtr + 1);
    var relay := Get(b, relayIDPtr, Wrap(relayIDPtr + GUID_LENGTH));
    var origin := Get(b, originIDPtr, Wrap(originIDPtr + GUID_LENGTH));
    var audioSegment := Get(b, HEADER_LENGTH, HEADER_LENGTH + audioLength);
    if unit.None? || id.None? || hops.None? || relay.None? || origin.None? || audioSegment.None? {
      return None;
    }
    var frequenciesPtr := Wrap(HEADER_LENGTH + audioLength);
    var segment := Get(b, frequenciesPtr, frequenciesPtr + frequenciesLength);
    if segment.None? {
      return None;
    }
    var fs, ok := DecodeSegment(segment.value);
    if !ok {
      return None;
    }
    FieldWidths(b, unitIDPtr, packetIDPtr, hopsPtr);
    r := Some(Packet(packetLength, audioLength, frequenciesLength, audioSegment.value, fs,
                     FromLE(unit.value), FromLE(id.value), hops.value[0], relay.value, origin.value));
  }
}
