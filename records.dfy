/** The packed records the RPLIDAR sends back, as declared with
    `__attribute__((packed))` bit-fields in Core/Inc/rplidar.h, and the
    7-byte response descriptor declared inside `_ParseDescriptor`.

    The driver never decodes these records: it casts the response buffer to
    the structure type. What a field reads as is therefore fixed by the
    compiler's layout (GCC, little-endian ARM): bit-fields are allocated
    from the least significant bit of their storage unit, and multi-byte
    units are stored low byte first. Each record is modelled as a datatype
    with a decoder (what the cast reads) and an encoder (the bytes a sensor
    must send to produce given field values); the two are inverse, which is
    the statement that every bit of a record belongs to exactly one field. */
module Records {
  import opened Wire

  /** Bit-field widths that occur in the records. */
  type bit = x: int | 0 <= x < 2
  type crumb = x: int | 0 <= x < 4
  type sextet = x: int | 0 <= x < 0x40
  type u15 = x: int | 0 <= x < 0x8000
  type u30 = x: int | 0 <= x < 0x4000_0000

  /** `sizeof` of each packed record. */
  const INFO_SIZE: nat := 20
  const HEALTH_SIZE: nat := 3
  const RATE_SIZE: nat := 4
  const MEASUREMENT_SIZE: nat := 5
  const DENSE_SIZE: nat := 84
  const DENSE_DISTANCES: nat := 40
  const DESCRIPTOR_SIZE: nat := 7
  const SERIAL_SIZE: nat := 16

  // ---------------------------------------------------------------------
  // rplidar_info_t

  datatype DeviceInfo = DeviceInfo(
    modelMajor: nibble, modelSub: nibble,
    fwMinor: byte, fwMajor: byte, hardware: byte,
    serial: seq<byte>)
  {
    predicate Valid() { |serial| == SERIAL_SIZE }
  }

  function EncodeInfo(i: DeviceInfo): (b: seq<byte>)
    requires i.Valid()
    ensures |b| == INFO_SIZE
  {
    [PackNibbles(i.modelMajor, i.modelSub), i.fwMinor, i.fwMajor, i.hardware] + i.serial
  }

  /** What a cast of 20 bytes to `rplidar_info_t` reads: `model_major` is
      the low nibble of byte 0 and `model_sub` the high nibble. */
  function DecodeInfo(b: seq<byte>): (i: DeviceInfo)
    requires |b| == INFO_SIZE
    ensures i.Valid()
  {
    DeviceInfo(b[0] % 0x10, b[0] / 0x10, b[1], b[2], b[3], b[4..])
  }

  lemma InfoRoundTrip(i: DeviceInfo)
    requires i.Valid()
    ensures DecodeInfo(EncodeInfo(i)) == i
  {
  }

  lemma InfoBytesRoundTrip(b: seq<byte>)
    requires |b| == INFO_SIZE
    ensures EncodeInfo(DecodeInfo(b)) == b
  {
    assert EncodeInfo(DecodeInfo(b)) == b[..4] + b[4..];
  }

  /** `model_major`, declared first, is the low nibble: a first byte of
      0x41 reads as major 1 and sub-model 4. */
  lemma ModelNibbles(b: seq<byte>)
    requires |b| == INFO_SIZE
    ensures DecodeInfo(b).modelMajor == b[0] % 0x10 && DecodeInfo(b).modelSub == b[0] / 0x10
    ensures b[0] == 0x41 ==> DecodeInfo(b).modelMajor == 1 && DecodeInfo(b).modelSub == 4
  {
  }

  // ---------------------------------------------------------------------
  // rplidar_health_t

  datatype Health = Health(status: byte, errorCode: u16)

  function EncodeHealth(h: Health): (b: seq<byte>)
    ensures |b| == HEALTH_SIZE
  {
    [h.status] + Le16Bytes(h.errorCode)
  }

  function DecodeHealth(b: seq<byte>): Health
    requires |b| == HEALTH_SIZE
  {
    Health(b[0], Le16(b[1], b[2]))
  }

  lemma HealthRoundTrip(h: Health)
    ensures DecodeHealth(EncodeHealth(h)) == h
  {
  }

  lemma HealthBytesRoundTrip(b: seq<byte>)
    requires |b| == HEALTH_SIZE
    ensures EncodeHealth(DecodeHealth(b)) == b
  {
  }

  // ---------------------------------------------------------------------
  // rplidar_samplerate_t

  datatype SampleRate = SampleRate(tStandard: u16, tExpress: u16)

  function EncodeRate(r: SampleRate): (b: seq<byte>)
    ensures |b| == RATE_SIZE
  {
    Le16Bytes(r.tStandard) + Le16Bytes(r.tExpress)
  }

  function DecodeRate(b: seq<byte>): SampleRate
    requires |b| == RATE_SIZE
  {
    SampleRate(Le16(b[0], b[1]), Le16(b[2], b[3]))
  }

  lemma RateRoundTrip(r: SampleRate)
    ensures DecodeRate(EncodeRate(r)) == r
  {
  }

  lemma RateBytesRoundTrip(b: seq<byte>)
    requires |b| == RATE_SIZE
    ensures EncodeRate(DecodeRate(b)) == b
  {
  }

  // ---------------------------------------------------------------------
  // rplidar_measurement_t: `start : 2` and `quality : 6` share byte 0;
  // `check : 1` and `angle : 15` share the little-endian word at bytes 1-2.

  datatype Measurement = Measurement(start: crumb, quality: sextet, check: bit, angle: u15, distance: u16)

  /** The all-zero measurement, as left by `memset` or static initialisation. */
  const ZeroMeasurement := Measurement(0, 0, 0, 0, 0)

  function EncodeMeasurement(m: Measurement): (b: seq<byte>)
    ensures |b| == MEASUREMENT_SIZE
  {
    [m.start + 4 * m.quality] + Le16Bytes(m.check + 2 * m.angle) + Le16Bytes(m.distance)
  }

  function DecodeMeasurement(b: seq<byte>): Measurement
    requires |b| == MEASUREMENT_SIZE
  {
    var w := Le16(b[1], b[2]);
    Measurement(b[0] % 4, b[0] / 4, w % 2, w / 2, Le16(b[3], b[4]))
  }

  lemma MeasurementRoundTrip(m: Measurement)
    ensures DecodeMeasurement(EncodeMeasurement(m)) == m
  {
    var b := EncodeMeasurement(m);
    var w := m.check + 2 * m.angle;
    SplitCrumb(m.start, m.quality);
    SplitBit(m.check, m.angle);
    assert Le16(b[1], b[2]) == w;
    assert Le16(b[3], b[4]) == m.distance;
  }

  lemma MeasurementBytesRoundTrip(b: seq<byte>)
    requires |b| == MEASUREMENT_SIZE
    ensures EncodeMeasurement(DecodeMeasurement(b)) == b
  {
    var m := DecodeMeasurement(b);
    var w: nat := Le16(b[1], b[2]);
    var b0: nat := b[0];
    assert m.start + 4 * m.quality == b0 by {
      assert m.start == b0 % 4 && m.quality == b0 / 4;
    }
    assert m.check + 2 * m.angle == w by {
      assert m.check == w % 2 && m.angle == w / 2;
    }
    MeasurementFromFields(b, m);
  }

  /** A measurement whose packed units equal those of `b` encodes to `b`. */
  lemma MeasurementFromFields(b: seq<byte>, m: Measurement)
    requires |b| == MEASUREMENT_SIZE
    requires m.start + 4 * m.quality == b[0]
    requires m.check + 2 * m.angle == Le16(b[1], b[2])
    requires m.distance == Le16(b[3], b[4])
    ensures EncodeMeasurement(m) == b
  {
    assert Le16Bytes(m.check + 2 * m.angle) == b[1..3];
    assert Le16Bytes(m.distance) == b[3..5];
    assert b == [b[0]] + b[1..3] + b[3..5];
  }

  /** Dividing by 0x8000 separates a 15-bit field from the bit above it. */
  lemma SplitAngle(lo: u15, hi: bit)
    ensures (lo + 0x8000 * hi) % 0x8000 == lo && (lo + 0x8000 * hi) / 0x8000 == hi
  {
  }

  /** Dividing by 4 separates a 2-bit field from the bits above it. */
  lemma SplitCrumb(lo: crumb, hi: nat)
    ensures (lo + 4 * hi) % 4 == lo && (lo + 4 * hi) / 4 == hi
  {
  }

  /** Dividing by 2 separates a 1-bit field from the bits above it. */
  lemma SplitBit(lo: bit, hi: nat)
    ensures (lo + 2 * hi) % 2 == lo && (lo + 2 * hi) / 2 == hi
  {
  }

  // ---------------------------------------------------------------------
  // rplidar_dense_measurements_t: nibble pairs in bytes 0 and 1, `angle : 15`
  // and `start : 1` in the little-endian word at bytes 2-3, then 40
  // little-endian distances.

  datatype DenseMeasurement = DenseMeasurement(
    checksum1: nibble, sync1: nibble,
    checksum2: nibble, sync2: nibble,
    angle: u15, start: bit,
    distances: seq<u16>)
  {
    predicate Valid() { |distances| == DENSE_DISTANCES }
  }

  /** A run of little-endian 16-bit words. */
  function EncodeWords(ws: seq<u16>): (b: seq<byte>)
    ensures |b| == 2 * |ws|
  {
    if ws == [] then [] else Le16Bytes(ws[0]) + EncodeWords(ws[1..])
  }

  function DecodeWords(b: seq<byte>): (ws: seq<u16>)
    requires |b| % 2 == 0
    ensures 2 * |ws| == |b|
    decreases |b|
  {
    if b == [] then [] else [Le16(b[0], b[1])] + DecodeWords(b[2..])
  }

  lemma {:induction false} WordsRoundTrip(ws: seq<u16>)
    ensures DecodeWords(EncodeWords(ws)) == ws
  {
    if ws != [] {
      var b := EncodeWords(ws);
      assert b[2..] == EncodeWords(ws[1..]);
      WordsRoundTrip(ws[1..]);
    }
  }

  lemma {:induction false} WordsBytesRoundTrip(b: seq<byte>)
    requires |b| % 2 == 0
    ensures EncodeWords(DecodeWords(b)) == b
    decreases |b|
  {
    if b != [] {
      var ws := DecodeWords(b);
      assert ws[1..] == DecodeWords(b[2..]);
      WordsBytesRoundTrip(b[2..]);
      assert b == b[..2] + b[2..];
    }
  }

  /** Word `k` of an encoded run is bytes `2k` (low) and `2k+1` (high). */
  lemma {:induction false} EncodeWordsAt(ws: seq<u16>, k: nat)
    requires k < |ws|
    ensures EncodeWords(ws)[2 * k] == ws[k] % 0x100
    ensures EncodeWords(ws)[2 * k + 1] == ws[k] / 0x100
    decreases k
  {
    if k > 0 {
      EncodeWordsAt(ws[1..], k - 1);
      var j := 2 * (k - 1);
      assert EncodeWords(ws) == Le16Bytes(ws[0]) + EncodeWords(ws[1..]);
      assert EncodeWords(ws)[j + 2] == EncodeWords(ws[1..])[j];
      assert EncodeWords(ws)[j + 3] == EncodeWords(ws[1..])[j + 1];
    }
  }

  /** Word `k` of a decoded run is made of bytes `2k` and `2k+1`. */
  lemma DecodeWordsAt(b: seq<byte>, k: nat)
    requires |b| % 2 == 0 && 2 * k < |b|
    ensures DecodeWords(b)[k] == Le16(b[2 * k], b[2 * k + 1])
  {
    var ws := DecodeWords(b);
    WordsBytesRoundTrip(b);
    EncodeWordsAt(ws, k);
  }

  function EncodeDense(d: DenseMeasurement): (b: seq<byte>)
    requires d.Valid()
    ensures |b| == DENSE_SIZE
  {
    [PackNibbles(d.checksum1, d.sync1), PackNibbles(d.checksum2, d.sync2)]
    + Le16Bytes(d.angle + 0x8000 * d.start)
    + EncodeWords(d.distances)
  }

  function DecodeDense(b: seq<byte>): (d: DenseMeasurement)
    requires |b| == DENSE_SIZE
    ensures d.Valid()
  {
    var w := Le16(b[2], b[3]);
    DenseMeasurement(b[0] % 0x10, b[0] / 0x10, b[1] % 0x10, b[1] / 0x10,
                     w % 0x8000, w / 0x8000, DecodeWords(b[4..]))
  }

  lemma DenseRoundTrip(d: DenseMeasurement)
    requires d.Valid()
    ensures DecodeDense(EncodeDense(d)) == d
  {
    var b := EncodeDense(d);
    var w := d.angle + 0x8000 * d.start;
    assert b[4..] == EncodeWords(d.distances);
    WordsRoundTrip(d.distances);
    assert Le16(b[2], b[3]) == w;
    SplitAngle(d.angle, d.start);
    var e := DecodeDense(b);
    assert e.checksum1 == d.checksum1 && e.sync1 == d.sync1;
    assert e.checksum2 == d.checksum2 && e.sync2 == d.sync2;
    assert e.angle == d.angle && e.start == d.start;
    assert e.distances == d.distances;
  }

  lemma DenseBytesRoundTrip(b: seq<byte>)
    requires |b| == DENSE_SIZE
    ensures EncodeDense(DecodeDense(b)) == b
  {
    var d := DecodeDense(b);
    var w: nat := Le16(b[2], b[3]);
    var b0: nat := b[0];
    var b1: nat := b[1];
    assert d.checksum1 + 0x10 * d.sync1 == b0 by {
      assert d.checksum1 == b0 % 0x10 && d.sync1 == b0 / 0x10;
    }
    assert d.checksum2 + 0x10 * d.sync2 == b1 by {
      assert d.checksum2 == b1 % 0x10 && d.sync2 == b1 / 0x10;
    }
    assert d.angle + 0x8000 * d.start == w by {
      assert d.angle == w % 0x8000 && d.start == w / 0x8000;
    }
    WordsBytesRoundTrip(b[4..]);
    DenseFromFields(b, d);
  }

  /** A capsule whose packed units equal those of `b` encodes to `b`. */
  lemma DenseFromFields(b: seq<byte>, d: DenseMeasurement)
    requires |b| == DENSE_SIZE && d.Valid()
    requires d.checksum1 + 0x10 * d.sync1 == b[0]
    requires d.checksum2 + 0x10 * d.sync2 == b[1]
    requires d.angle + 0x8000 * d.start == Le16(b[2], b[3])
    requires EncodeWords(d.distances) == b[4..]
    ensures EncodeDense(d) == b
  {
    assert Le16Bytes(d.angle + 0x8000 * d.start) == b[2..4];
    assert b == [b[0], b[1]] + b[2..4] + b[4..];
  }

  /** Distance `k` of an express-scan capsule is the little-endian word at
      bytes `4 + 2k` and `5 + 2k`. */
  lemma DenseDistanceAt(b: seq<byte>, k: nat)
    requires |b| == DENSE_SIZE && k < DENSE_DISTANCES
    ensures DecodeDense(b).distances[k] == Le16(b[4 + 2 * k], b[5 + 2 * k])
  {
    DecodeWordsAt(b[4..], k);
  }

  // ---------------------------------------------------------------------
  // The response descriptor of rplidar.c's `_ParseDescriptor`: two sync
  // bytes, then `len : 30` and `mode : 2` in one little-endian 32-bit unit,
  // then the type byte.

  datatype Descriptor = Descriptor(sync1: byte, sync2: byte, length: u30, mode: crumb, typ: byte)

  function EncodeDescriptor(d: Descriptor): (b: seq<byte>)
    ensures |b| == DESCRIPTOR_SIZE
  {
    [d.sync1, d.sync2] + Le32Bytes(d.length + 0x4000_0000 * d.mode) + [d.typ]
  }

  function DecodeDescriptor(b: seq<byte>): Descriptor
    requires |b| == DESCRIPTOR_SIZE
  {
    var w := Le32(b[2..6]);
    Descriptor(b[0], b[1], w % 0x4000_0000, w / 0x4000_0000, b[6])
  }

  lemma DescriptorRoundTrip(d: Descriptor)
    ensures DecodeDescriptor(EncodeDescriptor(d)) == d
  {
    var w := d.length + 0x4000_0000 * d.mode;
    Le32RoundTrip(w);
    assert EncodeDescriptor(d)[2..6] == Le32Bytes(w);
  }

  lemma DescriptorBytesRoundTrip(b: seq<byte>)
    requires |b| == DESCRIPTOR_SIZE
    ensures EncodeDescriptor(DecodeDescriptor(b)) == b
  {
    var w := Le32(b[2..6]);
    var d := DecodeDescriptor(b);
    assert d.length + 0x4000_0000 * d.mode == w;
    Le32BytesRoundTrip(b[2..6]);
    assert b == b[..2] + b[2..6] + b[6..];
  }

  /** The mode occupies the top two bits of byte 5; the low 30 bits of the
      little-endian unit at bytes 2-5 are the length, whose low byte is byte 2. */
  lemma DescriptorFieldBytes(b: seq<byte>)
    requires |b| == DESCRIPTOR_SIZE
    ensures DecodeDescriptor(b).mode == b[5] / 0x40
    ensures DecodeDescriptor(b).length % 0x100 == b[2]
  {
    var w := Le32(b[2..6]);
    var b5: nat := b[5];
    var r5 := b5 % 0x40;
    var q5 := b5 / 0x40;
    assert b5 == r5 + 0x40 * q5;
    var rest := b[3] as int + 0x100 * (b[4] as int) + 0x1_0000 * r5;
    var low := b[2] + 0x100 * rest;
    assert low < 0x4000_0000;
    assert w == low + 0x4000_0000 * q5;
    Split30(low, q5);
    SplitLowByte(b[2], rest);
  }

  /** Dividing by 2^30 separates a 30-bit field from the bits above it. */
  lemma Split30(lo: u30, hi: nat)
    ensures (lo + 0x4000_0000 * hi) % 0x4000_0000 == lo && (lo + 0x4000_0000 * hi) / 0x4000_0000 == hi
  {
  }
}
