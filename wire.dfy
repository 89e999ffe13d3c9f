/** Fixed-width unsigned integers of the firmware and their byte layouts.

    The target is a little-endian ARM core, so a packed `uint16_t` or
    `uint32_t` field is stored low byte first. The request side of the
    serial protocol also writes one 32-bit value high byte first, which
    `Be32Bytes` models. */
module Wire {

  datatype Option<+T> = None | Some(value: T)

  type byte = x: int | 0 <= x < 0x100
  type u16 = x: int | 0 <= x < 0x1_0000
  type u32 = x: int | 0 <= x < 0x1_0000_0000

  /** A 4-bit bit-field (`: 4`). */
  type nibble = x: int | 0 <= x < 0x10

  /** A 16-bit word stored low byte first. */
  function Le16(lo: byte, hi: byte): (w: u16)
    ensures w % 0x100 == lo && w / 0x100 == hi
  {
    lo + 0x100 * hi
  }

  /** The two bytes of `w`, low byte first: the inverse of `Le16`. */
  function Le16Bytes(w: u16): (b: seq<byte>)
    ensures |b| == 2 && Le16(b[0], b[1]) == w
  {
    [w % 0x100, w / 0x100]
  }

  /** A 32-bit word stored low byte first. */
  function Le32(b: seq<byte>): (w: u32)
    requires |b| == 4
  {
    b[0] as int + 0x100 * (b[1] as int) + 0x1_0000 * (b[2] as int) + 0x100_0000 * (b[3] as int)
  }

  /** Reading four bytes as a word and writing the word back gives the
      same four bytes. */
  lemma Le32BytesRoundTrip(b: seq<byte>)
    requires |b| == 4
    ensures Le32Bytes(Le32(b)) == b
  {
    var hi := b[1] as int + 0x100 * (b[2] as int) + 0x1_0000 * (b[3] as int);
    var mid := b[2] as int + 0x100 * (b[3] as int);
    assert Le32(b) == b[0] + 0x100 * hi;
    SplitLowByte(b[0], hi);
    assert hi == b[1] + 0x100 * mid;
    SplitLowByte(b[1], mid);
    SplitLowByte(b[2], b[3]);
  }

  /** Dividing by 256 separates the low byte from the rest. */
  lemma SplitLowByte(lo: byte, hi: nat)
    ensures (lo + 0x100 * hi) % 0x100 == lo && (lo + 0x100 * hi) / 0x100 == hi
  {
  }

  /** The four bytes of `w`, low byte first. */
  function Le32Bytes(w: u32): (b: seq<byte>)
    ensures |b| == 4
  {
    var q1 := w / 0x100;
    var q2 := q1 / 0x100;
    [w % 0x100, q1 % 0x100, q2 % 0x100, q2 / 0x100]
  }

  /** The four bytes of `w`, high byte first. */
  function Be32Bytes(w: u32): (b: seq<byte>)
    ensures |b| == 4
  {
    var l := Le32Bytes(w);
    [l[3], l[2], l[1], l[0]]
  }

  /** Reading the high-byte-first layout back to front gives `w` again. */
  lemma Be32RoundTrip(w: u32)
    ensures var b := Be32Bytes(w); Le32([b[3], b[2], b[1], b[0]]) == w
  {
    var b := Be32Bytes(w);
    assert [b[3], b[2], b[1], b[0]] == Le32Bytes(w);
    Le32RoundTrip(w);
  }

  /** Each byte of the high-byte-first layout is the word shifted right and
      masked to eight bits, as C writes it with `>>` and `& 0xFF`. */
  lemma Be32Shifts(w: u32)
    ensures Be32Bytes(w) == [w / 0x100_0000 % 0x100, w / 0x1_0000 % 0x100, w / 0x100 % 0x100, w % 0x100]
  {
    var q1 := w / 0x100;
    var q2 := q1 / 0x100;
    var q3 := q2 / 0x100;
    assert w == w % 0x100 + 0x100 * q1;
    assert q1 == q1 % 0x100 + 0x100 * q2;
    assert q2 == q2 % 0x100 + 0x100 * q3;
    assert w / 0x1_0000 == q2 by {
      assert w == (w % 0x100 + 0x100 * (q1 % 0x100)) + 0x1_0000 * q2;
    }
    assert w / 0x100_0000 == q3 by {
      assert w == (w % 0x100 + 0x100 * (q1 % 0x100) + 0x1_0000 * (q2 % 0x100)) + 0x100_0000 * q3;
    }
  }

  lemma Le32RoundTrip(w: u32)
    ensures Le32(Le32Bytes(w)) == w
  {
    var q1 := w / 0x100;
    var q2 := q1 / 0x100;
    assert w == w % 0x100 + 0x100 * q1;
    assert q1 == q1 % 0x100 + 0x100 * q2;
    assert q2 == q2 % 0x100 + 0x100 * (q2 / 0x100);
  }

  /** Two nibble bit-fields sharing one byte: GCC on a little-endian target
      allocates the first-declared field in the low four bits. */
  function PackNibbles(low: nibble, high: nibble): (b: byte)
    ensures b % 0x10 == low && b / 0x10 == high
  {
    low + 0x10 * high
  }
}
