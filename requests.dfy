/** Request frames sent to the RPLIDAR (Core/Src/rplidar.c, `_SendRequest`,
    `RPLIDAR_StartScanExpress`, `RPLIDAR_RequestConfiguration` and
    `_ComputeChecksum`).

    A request is either the two bytes `A5 <opcode>` or, when it carries a
    payload, `A5 <opcode> <payload length> <payload...> <checksum>`, the
    checksum being the 8-bit wrapping sum of every byte before it. The UART
    transmit is outside the model: each sending method takes the transmit
    call as a function from the frame to "the HAL returned HAL_OK" and
    returns the frame it handed over. */
module Requests {
  import opened Wire

  const START_FLAG: byte := 0xA5

  const REQ_SCAN: byte := 0x20
  const REQ_STOP: byte := 0x25
  const REQ_RESET: byte := 0x40
  const REQ_INFO: byte := 0x50
  const REQ_HEALTH: byte := 0x52
  const REQ_RATE: byte := 0x59
  const REQ_SCAN_EXPR: byte := 0x82
  const REQ_CONF: byte := 0x84

  const REQ_CONF_PAYLOAD_MAX: nat := 16

  // ---------------------------------------------------------------------
  // Checksum

  /** The plain sum of the bytes. */
  function Total(s: seq<byte>): nat
  {
    if s == [] then 0 else Total(s[..|s| - 1]) + s[|s| - 1]
  }

  /** The value of the `uint8_t` accumulator of `_ComputeChecksum` after
      adding every byte of `s` in order (it wraps at each addition).
      Wrapping at every step is the same as wrapping once: the checksum is
      the sum of the bytes modulo 256, so the empty span gives 0. */
  function Checksum(s: seq<byte>): (c: byte)
    ensures c == Total(s) % 0x100
  {
    if s == [] then 0
    else
      ModAbsorb(Total(s[..|s| - 1]), s[|s| - 1]);
      (Checksum(s[..|s| - 1]) + s[|s| - 1]) % 0x100
  }

  /** The plain sum of a concatenation is the sum of the parts' sums. */
  lemma {:induction false} TotalAppend(a: seq<byte>, b: seq<byte>)
    ensures Total(a + b) == Total(a) + Total(b)
    decreases |b|
  {
    if b == [] {
      assert a + b == a;
    } else {
      var b' := b[..|b| - 1];
      assert (a + b)[..|a + b| - 1] == a + b';
      TotalAppend(a, b');
    }
  }

  /** The checksum of a concatenation combines the checksums of the parts,
      so a frame can be summed in pieces. */
  lemma ChecksumAppend(a: seq<byte>, b: seq<byte>)
    ensures Checksum(a + b) == (Checksum(a) as int + Checksum(b)) % 0x100
  {
    TotalAppend(a, b);
    var x, y := Total(a), Total(b);
    ModAbsorb(x, y % 0x100);
    ModAbsorb(y, x);
    assert (x % 0x100 + y % 0x100) % 0x100 == (x + y) % 0x100;
  }

  /** Reducing one addend modulo 256 first does not change the sum modulo 256. */
  lemma ModAbsorb(p: nat, q: nat)
    ensures (p % 0x100 + q) % 0x100 == (p + q) % 0x100
  {
    assert p + q == (p % 0x100 + q) + 0x100 * (p / 0x100);
  }

  /** `_ComputeChecksum`: the accumulator loop over the first `size` bytes. */
  method ComputeChecksum(data: array<byte>, size: nat) returns (checksum: byte)
    requires size <= data.Length
    ensures checksum == Checksum(data[..size])
  {
    checksum := 0;
    var i := 0;
    while i < size
      invariant i <= size
      invariant checksum == Checksum(data[..i])
    {
      assert data[..i + 1][..i] == data[..i];
      checksum := (checksum + data[i]) % 0x100;
      i := i + 1;
    }
  }

  /** `memcpy(&dst[at], src, |src|)`: the bytes of `src` land at `at` and
      every other byte of `dst` keeps its value. */
  method Memcpy(dst: array<byte>, at: nat, src: seq<byte>)
    requires at + |src| <= dst.Length
    modifies dst
    ensures dst[..at] == old(dst[..at]) && dst[at..at + |src|] == src
    ensures dst[at + |src|..] == old(dst[at + |src|..])
  {
    var i := 0;
    while i < |src|
      invariant i <= |src|
      invariant dst[..at] == old(dst[..at]) && dst[at..at + i] == src[..i]
      invariant dst[at + |src|..] == old(dst[at + |src|..])
    {
      dst[at + i] := src[i];
      i := i + 1;
    }
  }

  // ---------------------------------------------------------------------
  // The request format and its decoder

  /** A request that carries a payload: start flag, opcode, payload length,
      payload, checksum of everything before the checksum byte. */
  function RequestFrame(op: byte, payload: seq<byte>): (f: seq<byte>)
    requires |payload| < 0x100
    ensures |f| == |payload| + 4 && f[|f| - 1] == Checksum(f[..|f| - 1])
  {
    var head := [START_FLAG, op, |payload|] + payload;
    assert (head + [Checksum(head)])[..|head|] == head;
    head + [Checksum(head)]
  }

  /** What a receiver of the request format reads from a frame with a
      payload: the opcode and the payload, or nothing when the start flag,
      the length byte or the checksum does not match. */
  function ParseRequest(f: seq<byte>): Option<(byte, seq<byte>)>
  {
    if |f| >= 4 && f[0] == START_FLAG && f[2] == |f| - 4 && f[|f| - 1] == Checksum(f[..|f| - 1])
    then Some((f[1], f[3..|f| - 1]))
    else None
  }

  /** Every payload frame is read back as the opcode and payload it was
      built from, and a frame that is read back as some opcode and payload
      is exactly the frame built from them. */
  lemma RequestFrameRoundTrip(op: byte, payload: seq<byte>, f: seq<byte>)
    requires |payload| < 0x100
    ensures ParseRequest(RequestFrame(op, payload)) == Some((op, payload))
    ensures ParseRequest(f) == Some((op, payload)) ==> f == RequestFrame(op, payload)
  {
    var g := RequestFrame(op, payload);
    assert g[3..|g| - 1] == payload;
    if ParseRequest(f) == Some((op, payload)) {
      assert f == f[..3] + f[3..|f| - 1] + [f[|f| - 1]];
      assert f[..|f| - 1] == [START_FLAG, op, |payload|] + payload;
    }
  }

  // ---------------------------------------------------------------------
  // Requests

  /** `_SendRequest`: the two-byte request `A5 cmd`, with no payload. */
  method SendRequest(cmd: byte, transmit: seq<byte> -> bool) returns (ok: bool, sent: seq<byte>)
    ensures sent == [START_FLAG, cmd]
    ensures ok == transmit(sent)
  {
    var packet := new byte[2];
    packet[0], packet[1] := START_FLAG, cmd;
    sent := packet[..];
    ok := transmit(sent);
  }

  /** The express-scan request: a five-byte zero payload, so nine bytes. */
  method StartScanExpress(transmit: seq<byte> -> bool) returns (ok: bool, sent: seq<byte>)
    ensures sent == RequestFrame(REQ_SCAN_EXPR, [0, 0, 0, 0, 0])
    ensures ok == transmit(sent)
  {
    var packet := new byte[9];
    packet[0], packet[1], packet[2], packet[3], packet[4] := START_FLAG, REQ_SCAN_EXPR, 0x05, 0x00, 0x00;
    packet[5], packet[6], packet[7], packet[8] := 0x00, 0x00, 0x00, 0x22;
    var c := ComputeChecksum(packet, 8);
    assert packet[..8] == [START_FLAG, REQ_SCAN_EXPR, 5] + [0, 0, 0, 0, 0];
    packet[8] := c;
    sent := packet[..];
    assert sent == [START_FLAG, REQ_SCAN_EXPR, 5] + [0, 0, 0, 0, 0] + [c];
    ok := transmit(sent);
  }

  /** The express-scan frame byte by byte. Its last byte is the additive
      checksum 0x2C, which replaces the 0x22 the initialiser puts there. */
  lemma ExpressScanBytes()
    ensures RequestFrame(REQ_SCAN_EXPR, [0, 0, 0, 0, 0]) == [0xA5, 0x82, 0x05, 0x00, 0x00, 0x00, 0x00, 0x00, 0x2C]
  {
    var s1: seq<byte> := [0xA5];
    var s2: seq<byte> := s1 + [0x82];
    var s3: seq<byte> := s2 + [0x05];
    var s8: seq<byte> := s3 + [0, 0, 0, 0, 0];
    assert Checksum(s1) == 0xA5 by { assert s1[..0] == []; }
    assert Checksum(s2) == 0x27 by { assert s2[..1] == s1; }
    assert Checksum(s3) == 0x2C by { assert s3[..2] == s2; }
    ChecksumAppend(s3, [0, 0, 0, 0, 0]);
    var z1: seq<byte> := [0];
    var z2: seq<byte> := z1 + [0];
    var z3: seq<byte> := z2 + [0];
    var z4: seq<byte> := z3 + [0];
    var z5: seq<byte> := z4 + [0];
    assert Checksum(z1) == 0 by { assert z1[..0] == []; }
    assert Checksum(z2) == 0 by { assert z2[..1] == z1; }
    assert Checksum(z3) == 0 by { assert z3[..2] == z2; }
    assert Checksum(z4) == 0 by { assert z4[..3] == z3; }
    assert Checksum(z5) == 0 by { assert z5[..4] == z4; }
    assert z5 == [0, 0, 0, 0, 0];
    assert Checksum(s8) == 0x2C;
    assert [START_FLAG, REQ_SCAN_EXPR, 5] + [0, 0, 0, 0, 0] == s8;
  }

  /** The configuration request: the type id high byte first, then the
      caller's payload, all inside one payload frame whose length byte
      counts both. */
  function ConfigurationRequest(typeId: u32, payload: seq<byte>): (f: seq<byte>)
    requires |payload| <= REQ_CONF_PAYLOAD_MAX
    ensures |f| == |payload| + 8
    ensures f[2] == |payload| + 4 && f[3..7] == Be32Bytes(typeId) && f[7..|f| - 1] == payload
  {
    RequestFrame(REQ_CONF, Be32Bytes(typeId) + payload)
  }

  /** The configuration request is its header and body followed by their
      checksum. */
  lemma ConfigurationRequestBytes(typeId: u32, payload: seq<byte>)
    requires |payload| <= REQ_CONF_PAYLOAD_MAX
    ensures var head := [START_FLAG, REQ_CONF, |payload| + 4] + (Be32Bytes(typeId) + payload);
      ConfigurationRequest(typeId, payload) == head + [Checksum(head)]
  {
  }

  /** A frame whose first bytes are the header and body and whose last byte
      is their checksum is the configuration request. */
  lemma ConfigurationFrame(typeId: u32, payload: seq<byte>, h: seq<byte>, c: byte, f: seq<byte>)
    requires |payload| <= REQ_CONF_PAYLOAD_MAX
    requires h == [START_FLAG, REQ_CONF, |payload| + 4] + (Be32Bytes(typeId) + payload)
    requires c == Checksum(h)
    requires |f| == |h| + 1 && f[..|h|] == h && f[|h|] == c
    ensures f == ConfigurationRequest(typeId, payload)
  {
    ConfigurationRequestBytes(typeId, payload);
    assert f == f[..|h|] + [f[|h|]];
  }

  /** The configuration frame as the source fills it: its length byte is
      `payload_size + 1`, three less than the number of payload bytes that
      follow it. */
  function ConfigurationPacketAsWritten(typeId: u32, payload: seq<byte>): (f: seq<byte>)
    requires |payload| <= REQ_CONF_PAYLOAD_MAX
    ensures |f| == |payload| + 8 && f[2] == |payload| + 1
    ensures f[3..7] == Be32Bytes(typeId) && f[7..|f| - 1] == payload
    ensures f[|f| - 1] == Checksum(f[..|f| - 1])
  {
    var head := [START_FLAG, REQ_CONF, |payload| + 1] + Be32Bytes(typeId) + payload;
    head + [Checksum(head)]
  }

  /** The frame as written is not a valid payload frame for any type id and
      payload: its length byte disagrees with the bytes sent. */
  lemma ConfigurationLengthMismatch(typeId: u32, payload: seq<byte>)
    requires |payload| <= REQ_CONF_PAYLOAD_MAX
    ensures var f := ConfigurationPacketAsWritten(typeId, payload);
      |f| == |payload| + 8 && f[2] + 3 == |f| - 4 && ParseRequest(f) == None
  {
  }

  /** `RPLIDAR_RequestConfiguration`, corrected: a payload over 16 bytes is
      refused and nothing is transmitted; otherwise the 24-byte packet is
      filled and its first `payload_size + 8` bytes are handed to the
      transmit. The length byte written is
      `payload_size + 4`, counting the type id; the frame as written, with
      `payload_size + 1`, is `ConfigurationPacketAsWritten`. */
  method RequestConfiguration(typeId: u32, payload: seq<byte>, transmit: seq<byte> -> bool)
    returns (ok: bool, sent: seq<byte>)
    requires |payload| < 0x1_0000
    ensures |payload| > REQ_CONF_PAYLOAD_MAX ==> !ok && sent == []
    ensures |payload| <= REQ_CONF_PAYLOAD_MAX ==>
      sent == ConfigurationRequest(typeId, payload) && ok == transmit(sent)
  {
    if |payload| > REQ_CONF_PAYLOAD_MAX {
      return false, [];
    }
    var n := |payload|;
    var packet := new byte[REQ_CONF_PAYLOAD_MAX + 8];
    var t := Be32Bytes(typeId);
    var head := [START_FLAG, REQ_CONF, n + 4] + (t + payload);
    packet[0], packet[1], packet[2] := START_FLAG, REQ_CONF, n + 4;
    packet[3], packet[4], packet[5], packet[6] := t[0], t[1], t[2], t[3];
    assert packet[..7] == [START_FLAG, REQ_CONF, n + 4] + t;
    Memcpy(packet, 7, payload);
    ghost var h := packet[..n + 7];
    assert h == head by { assert h == packet[..7] + packet[7..n + 7]; }
    var c := ComputeChecksum(packet, n + 7);
    packet[n + 7] := c;
    sent := packet[..n + 8];
    ConfigurationFrame(typeId, payload, h, c, sent);
    ok := transmit(sent);
  }
}
