// The voice packet byte by byte: what stands where in the bytes that are written, and
// where the fields come from in the bytes that are read, with plain numbers for offsets.
module VoiceBytes {
  import opened Wrappers
  import opened Bytes
  import opened VoicePacket
  import opened VoiceRoundTrip

  // ---- little-endian numbers ----

  // Byte i of a number counts 256^i.
  lemma {:induction false} LEAt(x: nat, n: nat, i: nat)
    requires i < n
    ensures LE(x, n)[i] as nat == (x / Pow256(i)) % 256
  {
    if i > 0 {
      LEAt(x / 256, n - 1, i - 1);
      DivDiv(x, Pow256(i - 1));
    }
  }

  lemma DivDiv(x: nat, m: nat)
    requires m > 0
    ensures (x / 256) / m == x / (256 * m)
  {
    var q := (x / 256) / m;
    assert q * m <= x / 256 < (q + 1) * m;
    assert 256 * (q * m) <= x < 256 * ((q + 1) * m);
    assert q * (256 * m) <= x < (q + 1) * (256 * m);
    Quotient(x, 256 * m, q);
  }

  lemma Quotient(x: nat, d: nat, q: nat)
    requires d > 0 && q * d <= x < (q + 1) * d
    ensures x / d == q
  {
    var r := x / d;
    assert r * d <= x < (r + 1) * d;
    if r < q {
      Times(r + 1, q, d);
    } else if q < r {
      Times(q + 1, r, d);
    }
  }

  lemma Times(a: nat, b: nat, d: nat)
    requires a <= b
    ensures a * d <= b * d
  {
  }

  function U16(b: bytes, i: nat): (x: nat)
    requires i + 2 <= |b|
    ensures x < 65536
  {
    b[i] as nat + 256 * b[i + 1] as nat
  }

  function U32(b: bytes, i: nat): (x: nat)
    requires i + 4 <= |b|
    ensures x < 4294967296
  {
    U16(b, i) + 65536 * U16(b, i + 2)
  }

  function U64(b: bytes, i: nat): (x: nat)
    requires i + 8 <= |b|
    ensures x < 18446744073709551616
  {
    U32(b, i) + 4294967296 * U32(b, i + 4)
  }

  lemma {:induction false} FromLEConcat(a: bytes, b: bytes)
    ensures FromLE(a + b) == FromLE(a) + Pow256(|a|) * FromLE(b)
  {
    if a == [] {
      assert a + b == b;
    } else {
      assert (a + b)[1..] == a[1..] + b;
      FromLEConcat(a[1..], b);
      assert 256 * (Pow256(|a| - 1) * FromLE(b)) == Pow256(|a|) * FromLE(b);
    }
  }

  lemma Read16(b: bytes, i: nat)
    requires i + 2 <= |b|
    ensures FromLE(b[i..i + 2]) == U16(b, i)
  {
    var s := b[i..i + 2];
    assert s[0] == b[i] && s[1..] == [b[i + 1]] && s[1..][1..] == [];
    assert FromLE(s[1..][1..]) == 0;
    assert FromLE(s[1..]) == b[i + 1] as nat;
  }

  lemma Read32(b: bytes, i: nat)
    requires i + 4 <= |b|
    ensures FromLE(b[i..i + 4]) == U32(b, i)
  {
    hide FromLE, U16;
    Read16(b, i);
    Read16(b, i + 2);
    Widths();
    assert b[i..i + 4] == b[i..i + 2] + b[i + 2..i + 4];
    FromLEConcat(b[i..i + 2], b[i + 2..i + 4]);
  }

  lemma Read64(b: bytes, i: nat)
    requires i + 8 <= |b|
    ensures FromLE(b[i..i + 8]) == U64(b, i)
  {
    hide FromLE, U32;
    Read32(b, i);
    Read32(b, i + 4);
    Widths();
    assert b[i..i + 8] == b[i..i + 4] + b[i + 4..i + 8];
    FromLEConcat(b[i..i + 4], b[i + 4..i + 8]);
  }

  lemma Written16(b: bytes, i: nat, x: uint16)
    requires At(b, i, LE(x, 2))
    ensures i + 2 <= |b| && U16(b, i) == x
  {
    hide LE, FromLE, U16;
    Widths();
    FromLEOfLE(x, 2);
    Read16(b, i);
  }

  lemma Written32(b: bytes, i: nat, x: uint32)
    requires At(b, i, LE(x, 4))
    ensures i + 4 <= |b| && U32(b, i) == x
  {
    hide LE, FromLE, U32;
    Widths();
    FromLEOfLE(x, 4);
    Read32(b, i);
  }

  lemma Written64(b: bytes, i: nat, x: uint64)
    requires At(b, i, LE(x, 8))
    ensures i + 8 <= |b| && U64(b, i) == x
  {
    hide LE, FromLE, U64;
    Widths();
    FromLEOfLE(x, 8);
    Read64(b, i);
  }

  // ---- what is written ----

  // A frequency's ten bytes: the eight of its number, modulation and encryption.
  predicate FrequencyAt(b: bytes, i: nat, f: Frequency) {
    i + 10 <= |b| && U64(b, i) == f.bits && b[i + 8] == f.modulation && b[i + 9] == f.encryption
  }

  lemma FrequencyWritten(b: bytes, i: nat, f: Frequency)
    requires At(b, i, FrequencyBytes(f))
    ensures FrequencyAt(b, i, f)
  {
    hide LE, U64;
    var bits := LE(f.bits, 8);
    AtConcat(b, i, bits + [f.modulation], [f.encryption]);
    AtConcat(b, i, bits, [f.modulation]);
    AtIndex(b, i + 8, [f.modulation], 0);
    AtIndex(b, i + 9, [f.encryption], 0);
    Written64(b, i, f.bits);
  }

  lemma {:induction false} FrequenciesWritten(b: bytes, i: nat, fs: seq<Frequency>, k: nat)
    requires At(b, i, FrequenciesBytes(fs)) && k < |fs|
    ensures FrequencyAt(b, i + 10 * k, fs[k])
  {
    hide FrequencyBytes, FrequencyAt;
    var init, last := fs[..|fs| - 1], fs[|fs| - 1];
    AtConcat(b, i, FrequenciesBytes(init), FrequencyBytes(last));
    if k < |init| {
      FrequenciesWritten(b, i, init, k);
    } else {
      FrequencyWritten(b, i + 10 * k, last);
    }
  }

  // Every byte of a packet whose lengths are those of its contents: little-endian
  // lengths, audio, ten bytes a frequency, one byte that is zero, and the numbers
  // and GUIDs up to the end.
  lemma EncodedBytes(p: Packet)
    requires Consistent(p)
    ensures Encode(p).Some?
    ensures var b, n, a, f := Encode(p).value, p.packetLength, |p.audioBytes|, |p.frequencies|;
      && |b| == n == 64 + a + 10 * f
      && U16(b, 0) == n && U16(b, 2) == a && U16(b, 4) == 10 * f
      && b[6..6 + a] == p.audioBytes
      && (forall k :: 0 <= k < f ==> FrequencyAt(b, 6 + a + 10 * k, p.frequencies[k]))
      && b[n - 58] == 0
      && U32(b, n - 57) == p.unitID && U64(b, n - 53) == p.packetID && b[n - 45] == p.hops
      && b[n - 44..n - 22] == p.relayGUID && b[n - 22..] == p.originGUID
  {
    hide LE, U16, U32, U64, FrequenciesBytes, FrequencyAt, Encode;
    EncodeLayout(p);
    FieldsAt(p);
    var b, n, a := Layout(p), p.packetLength, |p.audioBytes|;
    Written16(b, 0, p.packetLength);
    Written16(b, 2, p.audioSegmentLength);
    Written16(b, 4, p.frequenciesSegmentLength);
    forall k | 0 <= k < |p.frequencies| ensures FrequencyAt(b, 6 + a + 10 * k, p.frequencies[k]) {
      FrequenciesWritten(b, 6 + a, p.frequencies, k);
    }
    GapWritten(p);
    Written32(b, n - 57, p.unitID);
    Written64(b, n - 53, p.packetID);
    AtIndex(b, n - 45, [p.hops], 0);
  }

  lemma GapWritten(p: Packet)
    requires Consistent(p)
    ensures |Layout(p)| == p.packetLength && Layout(p)[p.packetLength - 58] == 0
  {
    hide LE, FrequenciesBytes, HeaderBytes;
    var front := HeaderBytes(p) + p.audioBytes + FrequenciesBytes(p.frequencies);
    assert Layout(p) == front + [0] + FixedBytes(p);
    assert |front| == p.packetLength - 58;
  }

  // ---- what is read ----

  lemma FrequencyRead(b: bytes, x: nat)
    requires x + 10 <= |b|
    ensures FrequencyAt(b, x, DecodeFrequency(b[x..x + 10]))
  {
    hide U64, FromLE;
    assert b[x..x + 10][..8] == b[x..x + 8];
    Read64(b, x);
  }

  lemma LastRead(b: bytes, i: nat, n: nat)
    requires i + n <= |b| && n % 10 == 0 && n > 0
    ensures DecodeFrequencies(b[i..i + n])
         == DecodeFrequencies(b[i..i + (n - 10)]) + [DecodeFrequency(b[i + n - 10..i + n - 10 + 10])]
  {
    hide DecodeFrequency;
    var s := b[i..i + n];
    assert s[..|s| - 10] == b[i..i + (n - 10)] && s[|s| - 10..] == b[i + n - 10..i + n - 10 + 10];
  }

  lemma {:induction false} FrequenciesRead(b: bytes, i: nat, n: nat, k: nat)
    requires i + n <= |b| && n % 10 == 0 && 10 * k < n
    ensures |DecodeFrequencies(b[i..i + n])| == n / 10
    ensures FrequencyAt(b, i + 10 * k, DecodeFrequencies(b[i..i + n])[k])
    decreases n
  {
    hide U64, FromLE, DecodeFrequencies, DecodeFrequency, FrequencyAt;
    LastRead(b, i, n);
    FrequencyRead(b, i + n - 10);
    if n > 10 {
      FrequenciesRead(b, i, n - 10, if 10 * k < n - 10 then k else 0);
    } else {
      NoFrequencies(b, i);
    }
  }

  lemma NoFrequencies(b: bytes, i: nat)
    requires i <= |b|
    ensures DecodeFrequencies(b[i..i]) == []
  {
  }

  // Where an offset x before the end of a packet of n bytes is, the pointers being
  // uint16.
  function FromEnd(n: nat, x: nat): nat
    requires x <= 65536
  {
    (n + 65536 - x) % 65536
  }

  lemma SegmentRead(b: bytes, start: nat, n: nat)
    requires start + n <= |b| && n % 10 == 0
    ensures var fs := DecodeFrequencies(b[start..start + n]);
      |fs| * 10 == n && forall k :: 0 <= k < |fs| ==> FrequencyAt(b, start + 10 * k, fs[k])
  {
    hide DecodeFrequencies, FrequencyAt;
    NoFrequencies(b, start);
    if n > 0 {
      FrequenciesRead(b, start, n, 0);
    }
    forall k | 0 <= 10 * k < n ensures FrequencyAt(b, start + 10 * k, DecodeFrequencies(b[start..start + n])[k]) {
      FrequenciesRead(b, start, n, k);
    }
  }

  // Every field of a packet that was read, with the pointers that wrap around: those
  // from the end, and that to the frequencies.
  lemma DecodedBytes(b: bytes)
    requires Decode(b).Some?
    ensures var p, n, a, f := Decode(b).value, U16(b, 0), U16(b, 2), U16(b, 4);
      && p.packetLength == n && p.audioSegmentLength == a && p.frequenciesSegmentLength == f
      && 6 + a <= |b| && p.audioBytes == b[6..6 + a]
      && |p.frequencies| * 10 == f
      && (forall k :: 0 <= k < |p.frequencies| ==> FrequencyAt(b, (6 + a) % 65536 + 10 * k, p.frequencies[k]))
      && FromEnd(n, 57) + 4 <= |b| && p.unitID == U32(b, FromEnd(n, 57))
      && FromEnd(n, 53) + 8 <= |b| && p.packetID == U64(b, FromEnd(n, 53))
      && FromEnd(n, 45) < |b| && p.hops == b[FromEnd(n, 45)]
      && FromEnd(n, 44) + 22 <= |b| && p.relayGUID == b[FromEnd(n, 44)..FromEnd(n, 44) + 22]
      && FromEnd(n, 22) + 22 <= |b| && p.originGUID == b[FromEnd(n, 22)..FromEnd(n, 22) + 22]
  {
    hide U16, U32, U64, FromLE, DecodeFrequencies, FrequencyAt, Get, Wrap, FromEnd;
    Read16(b, 0);
    Read16(b, 2);
    Read16(b, 4);
    var n, a, f := U16(b, 0), U16(b, 2), U16(b, 4);
    PointersFromEnd(b, n);
    WrapIs(6 + a);
    SegmentRead(b, Wrap(6 + a), f);
    Read32(b, FromEnd(n, 57));
    Read64(b, FromEnd(n, 53));
  }

  lemma WrapIs(x: int)
    ensures Wrap(x) == x % 65536
  {
  }

  lemma PointersFromEnd(b: bytes, n: nat)
    requires n < 65536 && FixedReads(b, n)
    ensures var origin := Wrap(n - GUID_LENGTH); var relay := Wrap(origin - GUID_LENGTH);
            var hops := Wrap(relay - 1); var id := Wrap(hops - 8); var unit := Wrap(id - 4);
      && origin == FromEnd(n, 22) && relay == FromEnd(n, 44) && hops == FromEnd(n, 45)
      && id == FromEnd(n, 53) && unit == FromEnd(n, 57)
      && unit + 4 == id && id + 8 == hops && hops < |b|
      && Wrap(relay + GUID_LENGTH) == relay + 22 <= |b| && Wrap(origin + GUID_LENGTH) == origin + 22 <= |b|
  {
    if n < 57 {
      FixedDecodes(b, n);
    }
  }
}
