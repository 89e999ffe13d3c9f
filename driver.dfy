/** The receive side of Core/Src/rplidar.c as the driver runs it: the
    parser statics and buffers (`rpl_parser_state`, `rpl_desc_buf`,
    `rpl_desc_idx`, `rpl_resp_buf`, `rpl_resp_idx`, `rpl_resp_len`,
    `rpl_resp_type`), the DMA ring `rpl_rx_buf` with its tail `rpl_rx_tail`,
    and the callbacks made so far.

    Every method is proved against the pure parser of module Framing:
    `Abs()` reads the statics as a `Framing.Parser`, and parsing a span of
    the ring is `Framing.Feed` of those bytes. The DMA engine is outside the
    model: it writes `rxBuf` and reports `head`. */
module Driver {
  import opened Wire
  import opened Records
  import opened Framing

  const RX_BUFFER_SIZE: nat := 2048

  /** The ring bytes one RX event hands to the parser: `[tail, head)` when
      the head is ahead, otherwise `[tail, 2048)` followed by `[0, head)`. */
  function RingSpan(buf: seq<byte>, tail: nat, head: nat): (s: seq<byte>)
    requires |buf| == RX_BUFFER_SIZE && tail <= RX_BUFFER_SIZE && head <= RX_BUFFER_SIZE
    ensures |s| == if head > tail then head - tail else RX_BUFFER_SIZE - tail + head
  {
    if head > tail then buf[tail..head] else buf[tail..] + buf[..head]
  }

  /** The ring delivers what arrived: if the DMA engine wrote the bytes `s`
      one after another into the ring starting at `tail` (wrapping at 2048),
      and `head` is where it stopped, the RX event parses exactly `s`, in
      arrival order. This needs at most 2048 bytes between two events; a
      head equal to the tail stands for a full turn of the ring. */
  lemma RingSpanArrivals(buf: seq<byte>, tail: nat, head: nat, s: seq<byte>)
    requires |buf| == RX_BUFFER_SIZE && tail <= RX_BUFFER_SIZE && head <= RX_BUFFER_SIZE
    requires |s| == if head > tail then head - tail else RX_BUFFER_SIZE - tail + head
    requires forall k :: 0 <= k < |s| ==> buf[(tail + k) % RX_BUFFER_SIZE] == s[k]
    ensures RingSpan(buf, tail, head) == s
  {
    var r := RingSpan(buf, tail, head);
    forall k | 0 <= k < |s|
      ensures r[k] == s[k]
    {
      if tail + k < RX_BUFFER_SIZE {
        assert (tail + k) % RX_BUFFER_SIZE == tail + k;
      } else {
        assert (tail + k) % RX_BUFFER_SIZE == tail + k - RX_BUFFER_SIZE;
      }
    }
  }

  /** One RX event's parsing, in the pieces the driver parses: `[tail,
      head)` alone, or `[tail, 2048)` then `[0, head)`, is the whole span. */
  lemma RingFeed(p0: Parser, p1: Parser, p2: Parser, ring: seq<byte>, tail: nat, head: nat)
    requires |ring| == RX_BUFFER_SIZE && tail <= RX_BUFFER_SIZE && head <= RX_BUFFER_SIZE && Inv(p0)
    requires head > tail ==> p2 == Feed(p0, ring[tail..tail + (head - tail)])
    requires head <= tail ==> p1 == Feed(p0, ring[tail..tail + (RX_BUFFER_SIZE - tail)])
    requires head <= tail ==> p2 == Feed(p1, ring[0..0 + head])
    ensures p2 == Feed(p0, RingSpan(ring, tail, head))
  {
    if head <= tail {
      assert ring[tail..tail + (RX_BUFFER_SIZE - tail)] == ring[tail..];
      assert ring[0..0 + head] == ring[..head];
      FeedAppend(p0, ring[tail..], ring[..head]);
    } else {
      assert ring[tail..tail + (head - tail)] == ring[tail..head];
    }
  }

  class Lidar {
    var state: Phase
    const descBuf: array<byte>
    var descIdx: nat
    const respBuf: array<byte>
    var respIdx: nat
    var respLen: byte
    var respType: ResponseType
    const rxBuf: array<byte>
    var rxTail: nat
    /** The `RPLIDAR_On...` calls made so far, oldest first. */
    var callbacks: seq<Callback>

    /** The statics read as the pure parser's state. */
    function Abs(): Parser
      reads this, descBuf, respBuf
      requires descIdx <= descBuf.Length && respIdx <= respBuf.Length
    {
      Parser(state, descBuf[..descIdx], respBuf[..respIdx], respLen, respType, callbacks)
    }

    predicate Valid()
      reads this, descBuf, respBuf
    {
      && descBuf.Length == DESCRIPTOR_SIZE
      && respBuf.Length == RESP_BUFFER_SIZE
      && rxBuf.Length == RX_BUFFER_SIZE
      && descBuf != respBuf && rxBuf != descBuf && rxBuf != respBuf
      && rxTail <= RX_BUFFER_SIZE
      && descIdx <= descBuf.Length && respIdx <= respBuf.Length
      && Inv(Abs())
    }

    /** The statics' initial values; the ring is zero, as a static array is. */
    constructor ()
      ensures Valid() && Abs() == Initial && rxTail == 0
      ensures rxBuf[..] == seq(RX_BUFFER_SIZE, _ => 0)
      ensures fresh(descBuf) && fresh(respBuf) && fresh(rxBuf)
    {
      state := AwaitDescriptor;
      descBuf := new byte[DESCRIPTOR_SIZE](_ => 0);
      descIdx := 0;
      respBuf := new byte[RESP_BUFFER_SIZE](_ => 0);
      respIdx := 0;
      respLen := 0;
      respType := RespUnknown;
      rxBuf := new byte[RX_BUFFER_SIZE](_ => 0);
      rxTail := 0;
      callbacks := [];
    }

    /** `_ParseDescriptor` on the collected descriptor bytes, corrected: it
        adds the check, absent from the source, that the declared length is
        between 1 and the 128-byte response buffer. The decision as written
        is `Framing.ParseDescriptorAsWritten`. */
    method ParseDescriptor() returns (next: Phase)
      requires descBuf.Length == DESCRIPTOR_SIZE
      modifies this`respLen, this`respType
      ensures Armed(next, respLen, respType) == Framing.ParseDescriptor(descBuf[..], old(respLen), old(respType))
    {
      var d := DecodeDescriptor(descBuf[..]);
      if d.sync1 != START_FLAG || d.sync2 != RESP_FLAG {
        return Error;
      }
      respLen := d.length % 0x100;
      respType := ParseRspType(d.typ);
      if d.mode == RESP_MODE_SINGLE {
        next := ResponseSingle;
      } else if d.mode == RESP_MODE_MULTI {
        next := ResponseMulti;
      } else {
        next := Error;
      }
      if next != Error && !(1 <= d.length <= RESP_BUFFER_SIZE) {
        next := Error;
      }
    }

    /** `_ParseResponse` on the `respLen` collected payload bytes, corrected:
        the size check for the response type, then the callback. For a
        configuration response it adds the check, absent from the source,
        that the payload holds at least the 4-byte type id; the size the code
        passes as written is `Framing.ConfigurationSizeAsWritten`, and
        `Framing.ShortConfigurationAsWritten` shows where the two differ. */
    method ParseResponse() returns (ok: bool)
      requires 1 <= respLen <= respBuf.Length
      modifies this`callbacks
      ensures var r := Dispatch(respType, respBuf[..respLen]);
        ok == r.Some? && callbacks == old(callbacks) + (if ok then [r.value] else [])
    {
      var size := respLen as nat;
      var response := respBuf[..size];
      match respType
      case RespInfo =>
        ok := size == INFO_SIZE;
        if ok { callbacks := callbacks + [OnDeviceInfo(DecodeInfo(response))]; }
      case RespHealth =>
        ok := size == HEALTH_SIZE;
        if ok { callbacks := callbacks + [OnHealth(DecodeHealth(response))]; }
      case RespRate =>
        ok := size == RATE_SIZE;
        if ok { callbacks := callbacks + [OnSampleRate(DecodeRate(response))]; }
      case RespConf =>
        ok := size >= 4;
        if ok { callbacks := callbacks + [OnConfiguration(Le32(response[..4]), response[4..])]; }
      case RespScan =>
        ok := size == MEASUREMENT_SIZE;
        if ok { callbacks := callbacks + [OnSingleMeasurement(DecodeMeasurement(response))]; }
      case RespScanExpress =>
        ok := size == DENSE_SIZE;
        if ok { callbacks := callbacks + [OnDenseMeasurements(DecodeDense(response))]; }
      case RespUnknown =>
        ok := false;
    }

    /** One iteration of the `_ParseRX` loop outside the error state. */
    method ParseByte(b: byte)
      requires Valid() && state != Error
      modifies this, descBuf, respBuf
      ensures Valid() && Abs() == Step(old(Abs()), b)
      ensures rxTail == old(rxTail)
    {
      if state == AwaitDescriptor {
        descBuf[descIdx] := b;
        descIdx := descIdx + 1;
        assert descBuf[..descIdx] == old(descBuf[..descIdx]) + [b];
        if descIdx == DESCRIPTOR_SIZE {
          assert descBuf[..] == descBuf[..descIdx];
          state := ParseDescriptor();
          descIdx := 0;
        }
      } else {
        respBuf[respIdx] := b;
        respIdx := respIdx + 1;
        assert respBuf[..respIdx] == old(respBuf[..respIdx]) + [b];
        if respIdx == respLen as nat {
          var ok := ParseResponse();
          if ok {
            if state == ResponseSingle {
              state := AwaitDescriptor;
            }
          } else {
            state := Error;
          }
          respIdx := 0;
        }
      }
    }

    /** `_ParseRX` on the `len` ring bytes from `start`: the parser after it
        is the parser before it fed with those bytes. In the error state the
        loop returns at once, which `Framing.ErrorAbsorbing` shows is the
        same as feeding the rest. */
    method ParseRx(start: nat, len: nat)
      requires Valid() && start + len <= RX_BUFFER_SIZE
      modifies this, descBuf, respBuf
      ensures Valid() && Abs() == Feed(old(Abs()), rxBuf[start..start + len])
      ensures rxTail == old(rxTail)
    {
      ghost var p0 := Abs();
      ghost var input := rxBuf[start..start + len];
      var i := 0;
      while i < len
        invariant 0 <= i <= len
        invariant Valid() && rxTail == old(rxTail)
        invariant rxBuf[start..start + len] == input
        invariant Abs() == Feed(p0, input[..i])
      {
        if state == Error {
          ErrorDropsSuffix(p0, input, i);
          return;
        }
        ParseByte(rxBuf[start + i]);
        FeedPrefixNext(p0, input, i);
        i := i + 1;
      }
      assert input[..len] == input;
    }

    /** `HAL_UARTEx_RxEventCallback`: for this driver's UART, parse the new
        ring span and move the tail to the head; for any other UART, do
        nothing. */
    method RxEvent(head: nat, sameUart: bool)
      requires Valid() && head <= RX_BUFFER_SIZE
      modifies this, descBuf, respBuf
      ensures Valid()
      ensures !sameUart ==> Abs() == old(Abs()) && rxTail == old(rxTail)
      ensures sameUart ==> Abs() == Feed(old(Abs()), RingSpan(rxBuf[..], old(rxTail), head)) && rxTail == head
    {
      if sameUart {
        ghost var p0 := Abs();
        ghost var ring := rxBuf[..];
        ghost var tail := rxTail;
        if head > rxTail {
          ParseRx(rxTail, head - rxTail);
          RingFeed(p0, Abs(), Abs(), ring, tail, head);
        } else {
          ParseRx(rxTail, RX_BUFFER_SIZE - rxTail);
          ghost var p1 := Abs();
          ParseRx(0, head);
          RingFeed(p0, p1, Abs(), ring, tail, head);
        }
        rxTail := head;
      }
    }
  }

  /** The program of test/main.c: a fresh driver, the INFO descriptor
      `A5 5A 14 00 00 00 04` and the payload byte 0xF0 written into the ring
      (the other payload bytes are still zero), then one RX event with head
      27. The device-info callback runs once and reads `model_sub` as 15. */
  method DeviceInfoTest() returns (modelSub: nibble)
    ensures modelSub == 15
  {
    var lidar := new Lidar();
    var frame: seq<byte> := [0xA5, 0x5A, 0x14, 0x00, 0x00, 0x00, 0x04, 0xF0];
    var k := 0;
    while k < |frame|
      invariant 0 <= k <= |frame|
      invariant lidar.Valid() && lidar.Abs() == Initial && lidar.rxTail == 0
      invariant lidar.rxBuf[..k] == frame[..k]
      invariant forall j :: k <= j < RX_BUFFER_SIZE ==> lidar.rxBuf[j] == 0
    {
      lidar.rxBuf[k] := frame[k];
      k := k + 1;
    }
    lidar.RxEvent(27, true);
    var payload: seq<byte> := [0xF0] + seq(19, _ => 0);
    var expected := [0xA5, 0x5A, 0x14, 0x00, 0x00, 0x00, 0x04] + payload;
    forall j | 0 <= j < 27
      ensures lidar.rxBuf[j] == expected[j]
    {
      if j < |frame| {
        assert lidar.rxBuf[..k][j] == frame[..k][j];
      }
    }
    assert RingSpan(lidar.rxBuf[..], 0, 27) == [0xA5, 0x5A, 0x14, 0x00, 0x00, 0x00, 0x04] + payload;
    DeviceInfoScenario();
    var c := lidar.callbacks[0];
    modelSub := c.info.modelSub;
  }
}
