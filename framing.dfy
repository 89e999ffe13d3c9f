/** The response-framing state machine of Core/Src/rplidar.c as a pure
    function of the bytes received (`_ParseRX`, `_ParseDescriptor`,
    `_ParseRspType`, `_ParseResponse`).

    The driver keeps its parser state in statics and advances it one byte at
    a time, so its behaviour is a left fold of `Step` over the received
    bytes; `Feed` is that fold. The callbacks `_ParseResponse` invokes are
    recorded, in order, in the parser value's `log`.

    Two places differ from the code as written, both listed as findings in
    README.md: a descriptor whose 30-bit length is 0 or above the 128-byte
    response buffer sends the parser to `Error` (the code truncates it to
    8 bits and can overrun the buffer), and a configuration response shorter
    than its 4-byte type id is a failed dispatch (the code computes
    `size - 4` in 16 bits). `ParseDescriptorAsWritten` and
    `ConfigurationSizeAsWritten` model the code as written. */
module Framing {
  import opened Wire
  import opened Records

  const RESP_BUFFER_SIZE: nat := 128

  const START_FLAG: byte := 0xA5
  const RESP_FLAG: byte := 0x5A
  const RESP_MODE_SINGLE: crumb := 0
  const RESP_MODE_MULTI: crumb := 1

  const RESP_INFO: byte := 0x04
  const RESP_HEALTH: byte := 0x06
  const RESP_RATE: byte := 0x15
  const RESP_CONF: byte := 0x20
  const RESP_SCAN: byte := 0x81
  const RESP_SCAN_EXPR: byte := 0x85

  datatype Phase = AwaitDescriptor | ResponseSingle | ResponseMulti | Error
  {
    predicate InResponse() { ResponseSingle? || ResponseMulti? }
  }

  datatype ResponseType = RespUnknown | RespInfo | RespHealth | RespRate | RespConf | RespScan | RespScanExpress

  // ---------------------------------------------------------------------
  // Response types

  /** The type byte that announces each known response type. */
  function TypeCode(t: ResponseType): byte
    requires t != RespUnknown
  {
    match t
    case RespInfo => RESP_INFO
    case RespHealth => RESP_HEALTH
    case RespRate => RESP_RATE
    case RespConf => RESP_CONF
    case RespScan => RESP_SCAN
    case RespScanExpress => RESP_SCAN_EXPR
  }

  /** `_ParseRspType`: the six known type bytes, everything else unknown. */
  function ParseRspType(code: byte): (t: ResponseType)
    ensures t == RespUnknown <==> code !in {RESP_INFO, RESP_HEALTH, RESP_RATE, RESP_CONF, RESP_SCAN, RESP_SCAN_EXPR}
    ensures t != RespUnknown ==> TypeCode(t) == code
  {
    if code == RESP_INFO then RespInfo
    else if code == RESP_HEALTH then RespHealth
    else if code == RESP_RATE then RespRate
    else if code == RESP_CONF then RespConf
    else if code == RESP_SCAN then RespScan
    else if code == RESP_SCAN_EXPR then RespScanExpress
    else RespUnknown
  }

  lemma TypeCodeRoundTrip(t: ResponseType)
    requires t != RespUnknown
    ensures ParseRspType(TypeCode(t)) == t
  {
  }

  // ---------------------------------------------------------------------
  // Dispatch (`_ParseResponse`)

  /** A call of one of the weak `RPLIDAR_On...` callbacks, with the record
      the response buffer reads as. */
  datatype Callback =
    | OnDeviceInfo(info: DeviceInfo)
    | OnHealth(health: Health)
    | OnSampleRate(rate: SampleRate)
    | OnConfiguration(typeId: u32, payload: seq<byte>)
    | OnSingleMeasurement(measurement: Measurement)
    | OnDenseMeasurements(dense: DenseMeasurement)
  {
    predicate Valid() {
      match this
      case OnDeviceInfo(i) => i.Valid()
      case OnDenseMeasurements(d) => d.Valid()
      case _ => true
    }

    /** The response type whose payload produces this callback. */
    function Type(): ResponseType
    {
      match this
      case OnDeviceInfo(_) => RespInfo
      case OnHealth(_) => RespHealth
      case OnSampleRate(_) => RespRate
      case OnConfiguration(_, _) => RespConf
      case OnSingleMeasurement(_) => RespScan
      case OnDenseMeasurements(_) => RespScanExpress
    }

    /** The payload bytes a sensor sends to produce this callback; a
        configuration response is its type id, low byte first, then the
        rest of the payload. */
    function Encode(): seq<byte>
      requires Valid()
    {
      match this
      case OnDeviceInfo(i) => EncodeInfo(i)
      case OnHealth(h) => EncodeHealth(h)
      case OnSampleRate(r) => EncodeRate(r)
      case OnConfiguration(t, p) => Le32Bytes(t) + p
      case OnSingleMeasurement(m) => EncodeMeasurement(m)
      case OnDenseMeasurements(d) => EncodeDense(d)
    }
  }

  /** `sizeof` the record each fixed-size response type is cast to. */
  function RecordSize(t: ResponseType): nat
    requires t !in {RespUnknown, RespConf}
  {
    match t
    case RespInfo => INFO_SIZE
    case RespHealth => HEALTH_SIZE
    case RespRate => RATE_SIZE
    case RespScan => MEASUREMENT_SIZE
    case RespScanExpress => DENSE_SIZE
  }

  /** `_ParseResponse`: the callback a complete payload of type `t` produces,
      or `None` when the dispatch fails and the parser must go to `Error`. */
  function Dispatch(t: ResponseType, payload: seq<byte>): (r: Option<Callback>)
    ensures r.Some? <==>
      (t == RespConf && |payload| >= 4) || (t !in {RespUnknown, RespConf} && |payload| == RecordSize(t))
    ensures r.Some? ==> r.value.Type() == t
  {
    match t
    case RespInfo =>
      if |payload| == INFO_SIZE then Some(OnDeviceInfo(DecodeInfo(payload))) else None
    case RespHealth =>
      if |payload| == HEALTH_SIZE then Some(OnHealth(DecodeHealth(payload))) else None
    case RespRate =>
      if |payload| == RATE_SIZE then Some(OnSampleRate(DecodeRate(payload))) else None
    case RespConf =>
      if |payload| >= 4 then
        Some(OnConfiguration(Le32(payload[..4]), payload[4..]))
      else None
    case RespScan =>
      if |payload| == MEASUREMENT_SIZE then Some(OnSingleMeasurement(DecodeMeasurement(payload))) else None
    case RespScanExpress =>
      if |payload| == DENSE_SIZE then Some(OnDenseMeasurements(DecodeDense(payload))) else None
    case RespUnknown => None
  }

  /** A successful dispatch reads every payload byte into exactly one
      field: the callback's record encodes back to the payload. */
  lemma DispatchSound(t: ResponseType, payload: seq<byte>)
    requires Dispatch(t, payload).Some?
    ensures Dispatch(t, payload).value.Valid()
    ensures Dispatch(t, payload).value.Encode() == payload
  {
    match t
    case RespInfo => InfoBytesRoundTrip(payload);
    case RespHealth => HealthBytesRoundTrip(payload);
    case RespRate => RateBytesRoundTrip(payload);
    case RespConf =>
      Le32BytesRoundTrip(payload[..4]);
      assert payload == payload[..4] + payload[4..];
    case RespScan => MeasurementBytesRoundTrip(payload);
    case RespScanExpress => DenseBytesRoundTrip(payload);
  }

  /** Every callback is produced by dispatching its own encoding: the
      dispatcher loses no field of any record. */
  lemma DispatchRoundTrip(c: Callback)
    requires c.Valid()
    ensures Dispatch(c.Type(), c.Encode()) == Some(c)
  {
    match c
    case OnDeviceInfo(i) => InfoRoundTrip(i);
    case OnHealth(h) => HealthRoundTrip(h);
    case OnSampleRate(r) => RateRoundTrip(r);
    case OnConfiguration(t, p) =>
      var b := Le32Bytes(t) + p;
      assert b[..4] == Le32Bytes(t) && b[4..] == p;
      Le32RoundTrip(t);
    case OnSingleMeasurement(m) => MeasurementRoundTrip(m);
    case OnDenseMeasurements(d) => DenseRoundTrip(d);
  }

  /** The configuration payload size the code passes to its callback:
      `size - 4` converted to the callback's `uint16_t` parameter. */
  function ConfigurationSizeAsWritten(size: u16): (r: u16)
    ensures size >= 4 ==> r + 4 == size
    ensures size < 4 ==> r + 4 == size + 0x1_0000
  {
    (size - 4) % 0x1_0000
  }

  /** A configuration response of 1 to 3 bytes reaches the callback, as
      written, with a payload size of at least 65533 bytes. */
  lemma ShortConfigurationAsWritten(size: u16)
    requires 1 <= size < 4
    ensures ConfigurationSizeAsWritten(size) >= 0x1_0000 - 3 > size
    ensures forall payload: seq<byte> :: |payload| == size ==> Dispatch(RespConf, payload) == None
  {
  }

  // ---------------------------------------------------------------------
  // Descriptor (`_ParseDescriptor`)

  /** What `_ParseDescriptor` decides: the next parser state, and the
      response length and type it leaves in `rpl_resp_len` and
      `rpl_resp_type`. */
  datatype Armed = Armed(next: Phase, respLen: byte, respType: ResponseType)

  /** `_ParseDescriptor` as written: a wrong sync pair gives `Error` and
      leaves length and type alone; otherwise the length is truncated to
      the 8-bit `rpl_resp_len`, the type is mapped, and the mode decides. */
  function ParseDescriptorAsWritten(desc: seq<byte>, respLen: byte, respType: ResponseType): (a: Armed)
    requires |desc| == DESCRIPTOR_SIZE
    ensures a.next != AwaitDescriptor
    ensures a.next.InResponse() ==> a.respLen == desc[2] && a.respType == ParseRspType(desc[6])
  {
    DescriptorFieldBytes(desc);
    var d := DecodeDescriptor(desc);
    if d.sync1 != START_FLAG || d.sync2 != RESP_FLAG then Armed(Error, respLen, respType)
    else
      var next := if d.mode == RESP_MODE_SINGLE then ResponseSingle
                  else if d.mode == RESP_MODE_MULTI then ResponseMulti
                  else Error;
      Armed(next, d.length % 0x100, ParseRspType(d.typ))
  }

  /** The decision of `_ParseDescriptor` as written, stated on the raw
      bytes: the sync pair is bytes 0 and 1, the mode the top two bits of
      byte 5, the response length what is left of the 30-bit length in
      8 bits (byte 2), and the type byte 6. */
  lemma DescriptorDecisionAsWritten(desc: seq<byte>, respLen: byte, respType: ResponseType)
    requires |desc| == DESCRIPTOR_SIZE
    ensures var a := ParseDescriptorAsWritten(desc, respLen, respType);
      && (desc[0] != START_FLAG || desc[1] != RESP_FLAG ==> a == Armed(Error, respLen, respType))
      && (desc[0] == START_FLAG && desc[1] == RESP_FLAG ==>
            a.respLen == desc[2] && a.respType == ParseRspType(desc[6])
            && a.next == (if desc[5] / 0x40 == 0 then ResponseSingle
                          else if desc[5] / 0x40 == 1 then ResponseMulti
                          else Error))
  {
    DescriptorFieldBytes(desc);
  }

  /** The declared length fits the response buffer and is not zero. */
  predicate LengthFits(desc: seq<byte>)
    requires |desc| == DESCRIPTOR_SIZE
  {
    1 <= DecodeDescriptor(desc).length <= RESP_BUFFER_SIZE
  }

  /** `_ParseDescriptor` with the length check the response buffer needs:
      a descriptor that would arm a response of 0 or more than 128 bytes
      sends the parser to `Error` instead. It never returns to the
      descriptor phase, and an armed response always fits the buffer. */
  function ParseDescriptor(desc: seq<byte>, respLen: byte, respType: ResponseType): (a: Armed)
    requires |desc| == DESCRIPTOR_SIZE
    ensures a.next != AwaitDescriptor
    ensures a.next.InResponse() ==> 1 <= a.respLen <= RESP_BUFFER_SIZE
  {
    var a := ParseDescriptorAsWritten(desc, respLen, respType);
    if a.next.InResponse() && !LengthFits(desc) then a.(next := Error) else a
  }

  /** The decision of the checked `_ParseDescriptor` on the raw bytes: a
      wrong sync pair gives `Error` with length and type unchanged; mode 0
      arms a single response and mode 1 a multi response exactly when the
      sync pair is right and the declared length fits; an armed response
      has exactly the declared length and the mapped type. */
  lemma DescriptorDecision(desc: seq<byte>, respLen: byte, respType: ResponseType)
    requires |desc| == DESCRIPTOR_SIZE
    ensures var a := ParseDescriptor(desc, respLen, respType);
      && (desc[0] != START_FLAG || desc[1] != RESP_FLAG ==> a == Armed(Error, respLen, respType))
      && (a.next == ResponseSingle <==>
            desc[0] == START_FLAG && desc[1] == RESP_FLAG && desc[5] / 0x40 == 0 && LengthFits(desc))
      && (a.next == ResponseMulti <==>
            desc[0] == START_FLAG && desc[1] == RESP_FLAG && desc[5] / 0x40 == 1 && LengthFits(desc))
      && (a.next.InResponse() ==>
            a.respLen == DecodeDescriptor(desc).length && a.respType == ParseRspType(desc[6]))
  {
    DescriptorDecisionAsWritten(desc, respLen, respType);
  }

  /** The code as written arms a 129-byte response (one byte past the
      128-byte buffer), a 0-byte response and, for a declared length of
      261, a 5-byte response; the checked version sends each of these to
      `Error`. With length 0 the 16-bit response index is compared with 0
      only after it has been incremented, so the 129th payload byte already
      writes past the buffer, as with length 129, and the index meets 0
      again only when it wraps after 65536 bytes: no frame completes
      normally. */
  lemma LengthHazardsAsWritten(len: byte, typ: ResponseType)
    ensures var d := [0xA5, 0x5A, 0x81, 0x00, 0x00, 0x00, RESP_SCAN];
      ParseDescriptorAsWritten(d, len, typ) == Armed(ResponseSingle, 129, RespScan)
      && 129 > RESP_BUFFER_SIZE
      && ParseDescriptor(d, len, typ).next == Error
    ensures var d := [0xA5, 0x5A, 0x00, 0x01, 0x00, 0x00, RESP_SCAN];
      ParseDescriptorAsWritten(d, len, typ) == Armed(ResponseSingle, 0, RespScan)
      && ParseDescriptor(d, len, typ).next == Error
    ensures var d := [0xA5, 0x5A, 0x05, 0x01, 0x00, 0x40, RESP_SCAN];
      ParseDescriptorAsWritten(d, len, typ) == Armed(ResponseMulti, 5, RespScan)
      && DecodeDescriptor(d).length == 261
      && ParseDescriptor(d, len, typ).next == Error
  {
  }

  // ---------------------------------------------------------------------
  // The parser

  /** The parser statics: `rpl_parser_state`, the descriptor bytes
      collected so far (`rpl_desc_buf[..rpl_desc_idx]`), the payload bytes
      collected so far (`rpl_resp_buf[..rpl_resp_idx]`), `rpl_resp_len`,
      `rpl_resp_type`, and the callbacks made so far. */
  datatype Parser = Parser(
    phase: Phase,
    desc: seq<byte>,
    resp: seq<byte>,
    respLen: byte,
    respType: ResponseType,
    log: seq<Callback>)

  /** The statics' initial values. */
  const Initial := Parser(AwaitDescriptor, [], [], 0, RespUnknown, [])

  /** What the statics always satisfy: each partial buffer is strictly
      shorter than its array, only the current phase has a partial buffer,
      and an armed response fits the 128-byte response buffer. */
  predicate Inv(p: Parser)
  {
    && |p.desc| < DESCRIPTOR_SIZE
    && |p.resp| < RESP_BUFFER_SIZE
    && (p.phase != AwaitDescriptor ==> p.desc == [])
    && (!p.phase.InResponse() ==> p.resp == [])
    && (p.phase.InResponse() ==> 1 <= p.respLen <= RESP_BUFFER_SIZE && |p.resp| < p.respLen)
  }

  /** One iteration of the `_ParseRX` loop, for the received byte `b`. */
  function Step(p: Parser, b: byte): (r: Parser)
    requires Inv(p)
    ensures Inv(r)
    ensures p.log <= r.log && |r.log| <= |p.log| + 1
  {
    match p.phase
    case AwaitDescriptor =>
      var desc := p.desc + [b];
      if |desc| == DESCRIPTOR_SIZE then
        var a := ParseDescriptor(desc, p.respLen, p.respType);
        p.(phase := a.next, desc := [], respLen := a.respLen, respType := a.respType)
      else
        p.(desc := desc)
    case ResponseSingle | ResponseMulti =>
      var resp := p.resp + [b];
      if |resp| == p.respLen then
        match Dispatch(p.respType, resp)
        case Some(c) =>
          p.(phase := if p.phase == ResponseSingle then AwaitDescriptor else ResponseMulti,
             resp := [], log := p.log + [c])
        case None =>
          p.(phase := Error, resp := [])
      else
        p.(resp := resp)
    case Error => p
  }

  /** The parser after the bytes `bs`, in order. */
  function Feed(p: Parser, bs: seq<byte>): (r: Parser)
    requires Inv(p)
    ensures Inv(r)
    ensures p.log <= r.log
    decreases |bs|
  {
    if bs == [] then p else Step(Feed(p, bs[..|bs| - 1]), bs[|bs| - 1])
  }

  /** Chunking invariance: feeding `a` and then `b` is feeding `a + b`, so
      the way the receiver splits the stream into spans does not matter. */
  lemma {:induction false} FeedAppend(p: Parser, a: seq<byte>, b: seq<byte>)
    requires Inv(p)
    ensures Feed(p, a + b) == Feed(Feed(p, a), b)
    decreases |b|
  {
    if b == [] {
      assert a + b == a;
    } else {
      var b' := b[..|b| - 1];
      assert (a + b)[..|a + b| - 1] == a + b';
      FeedAppend(p, a, b');
    }
  }

  /** Feeding one more byte is one more step. */
  lemma FeedSnoc(p: Parser, bs: seq<byte>, b: byte)
    requires Inv(p)
    ensures Feed(p, bs + [b]) == Step(Feed(p, bs), b)
  {
    assert (bs + [b])[..|bs|] == bs;
  }

  /** Once the parser is in `Error`, the bytes after that point change
      nothing: `_ParseRX` may return without reading them. */
  lemma ErrorDropsRest(p: Parser, a: seq<byte>, b: seq<byte>)
    requires Inv(p) && Feed(p, a).phase == Error
    ensures Feed(p, a + b) == Feed(p, a)
  {
    FeedAppend(p, a, b);
    ErrorAbsorbing(Feed(p, a), b);
  }

  /** Feeding one more byte of `bs`: the prefix of length `i + 1` is the
      prefix of length `i` and then `bs[i]`. */
  lemma FeedPrefixNext(p: Parser, bs: seq<byte>, i: nat)
    requires Inv(p) && i < |bs|
    ensures Feed(p, bs[..i + 1]) == Step(Feed(p, bs[..i]), bs[i])
  {
    assert bs[..i + 1] == bs[..i] + [bs[i]];
    FeedSnoc(p, bs[..i], bs[i]);
  }

  /** Once the parser fed with a prefix of `bs` is in `Error`, the rest of
      `bs` changes nothing. */
  lemma ErrorDropsSuffix(p: Parser, bs: seq<byte>, i: nat)
    requires Inv(p) && i <= |bs| && Feed(p, bs[..i]).phase == Error
    ensures Feed(p, bs) == Feed(p, bs[..i])
  {
    SplitAt(bs, i);
    ErrorDropsRest(p, bs[..i], bs[i..]);
  }

  lemma SplitAt(bs: seq<byte>, i: nat)
    requires i <= |bs|
    ensures bs[..i] + bs[i..] == bs
  {
  }

  /** `Error` absorbs: every later byte is dropped and nothing changes,
      including the callbacks. */
  lemma {:induction false} ErrorAbsorbing(p: Parser, bs: seq<byte>)
    requires Inv(p) && p.phase == Error
    ensures Feed(p, bs) == p
    decreases |bs|
  {
    if bs != [] {
      ErrorAbsorbing(p, bs[..|bs| - 1]);
    }
  }

  /** The first six descriptor bytes are only collected. */
  lemma {:induction false} CollectDescriptorPrefix(p: Parser, bs: seq<byte>, k: nat)
    requires Inv(p) && p.phase == AwaitDescriptor && p.desc == []
    requires k < DESCRIPTOR_SIZE && k <= |bs|
    ensures Feed(p, bs[..k]) == p.(desc := bs[..k])
  {
    if k > 0 {
      CollectDescriptorPrefix(p, bs, k - 1);
      assert bs[..k][..k - 1] == bs[..k - 1];
    }
  }

  /** Seven bytes in the descriptor phase are decoded as one descriptor:
      the index returns to 0 and `ParseDescriptor` decides the next state. */
  lemma CollectDescriptor(p: Parser, bs: seq<byte>)
    requires Inv(p) && p.phase == AwaitDescriptor && p.desc == []
    requires |bs| == DESCRIPTOR_SIZE
    ensures var a := ParseDescriptor(bs, p.respLen, p.respType);
      Feed(p, bs) == p.(phase := a.next, respLen := a.respLen, respType := a.respType)
  {
    CollectDescriptorPrefix(p, bs, 6);
    assert bs[..6] + [bs[6]] == bs;
  }

  /** Payload bytes before the last one are only collected. */
  lemma {:induction false} CollectPayloadPrefix(p: Parser, payload: seq<byte>, k: nat)
    requires Inv(p) && p.phase.InResponse() && p.resp == []
    requires k < p.respLen && k <= |payload|
    ensures Feed(p, payload[..k]) == p.(resp := payload[..k])
  {
    if k > 0 {
      CollectPayloadPrefix(p, payload, k - 1);
      assert payload[..k][..k - 1] == payload[..k - 1];
    }
  }

  /** The parser after one complete payload that began at an empty
      response buffer: `Dispatch` runs exactly once on exactly those bytes,
      the buffer is emptied, and the state follows the dispatch result. */
  function AfterPayload(p: Parser, payload: seq<byte>): Parser
  {
    match Dispatch(p.respType, payload)
    case Some(c) =>
      p.(phase := if p.phase == ResponseSingle then AwaitDescriptor else ResponseMulti,
         log := p.log + [c])
    case None => p.(phase := Error)
  }

  /** When `rpl_resp_len` payload bytes have arrived, the dispatcher runs
      once with them: success in single mode returns to the descriptor
      phase, success in multi mode stays in multi mode, failure gives `Error`. */
  lemma CollectPayload(p: Parser, payload: seq<byte>)
    requires Inv(p) && p.phase.InResponse() && p.resp == []
    requires |payload| == p.respLen
    ensures Feed(p, payload) == AfterPayload(p, payload)
  {
    var n := |payload|;
    var init := payload[..n - 1];
    CollectPayloadPrefix(p, payload, n - 1);
    var q := p.(resp := init);
    assert init + [payload[n - 1]] == payload;
    FeedSnoc(p, init, payload[n - 1]);
    assert Feed(p, payload) == Step(q, payload[n - 1]);
  }

  /** A complete exchange from the descriptor phase: a well-formed
      descriptor for a response of `d.length` bytes, then that many payload
      bytes, produces exactly one dispatch of those bytes. */
  lemma FeedFrame(p: Parser, d: Descriptor, payload: seq<byte>)
    requires Inv(p) && p.phase == AwaitDescriptor && p.desc == []
    requires d.sync1 == START_FLAG && d.sync2 == RESP_FLAG
    requires d.mode in {RESP_MODE_SINGLE, RESP_MODE_MULTI}
    requires 1 <= d.length <= RESP_BUFFER_SIZE && |payload| == d.length
    ensures var armed := p.(phase := if d.mode == RESP_MODE_SINGLE then ResponseSingle else ResponseMulti,
                            respLen := d.length, respType := ParseRspType(d.typ));
      Feed(p, EncodeDescriptor(d) + payload) == AfterPayload(armed, payload)
  {
    var bs := EncodeDescriptor(d);
    var armed := ArmDescriptor(p, d);
    FeedAppend(p, bs, payload);
    CollectPayload(armed, payload);
  }

  /** A well-formed descriptor arms a response of its declared length and
      type, in the mode it names. */
  lemma ArmDescriptor(p: Parser, d: Descriptor) returns (armed: Parser)
    requires Inv(p) && p.phase == AwaitDescriptor && p.desc == []
    requires d.sync1 == START_FLAG && d.sync2 == RESP_FLAG
    requires d.mode in {RESP_MODE_SINGLE, RESP_MODE_MULTI}
    requires 1 <= d.length <= RESP_BUFFER_SIZE
    ensures armed == p.(phase := if d.mode == RESP_MODE_SINGLE then ResponseSingle else ResponseMulti,
                        respLen := d.length, respType := ParseRspType(d.typ))
    ensures Inv(armed) && armed.resp == [] && Feed(p, EncodeDescriptor(d)) == armed
  {
    var bs := EncodeDescriptor(d);
    DescriptorRoundTrip(d);
    var next := if d.mode == RESP_MODE_SINGLE then ResponseSingle else ResponseMulti;
    assert ParseDescriptorAsWritten(bs, p.respLen, p.respType) == Armed(next, d.length, ParseRspType(d.typ));
    assert ParseDescriptor(bs, p.respLen, p.respType) == Armed(next, d.length, ParseRspType(d.typ));
    CollectDescriptor(p, bs);
    armed := p.(phase := next, respLen := d.length, respType := ParseRspType(d.typ));
  }

  /** The concatenation of a sequence of frames. */
  function Concat(frames: seq<seq<byte>>): seq<byte>
  {
    if frames == [] then [] else Concat(frames[..|frames| - 1]) + frames[|frames| - 1]
  }

  /** Every frame is a complete payload that dispatches as type `t`. */
  predicate AllDispatch(t: ResponseType, frames: seq<seq<byte>>)
  {
    forall i :: 0 <= i < |frames| ==> Dispatch(t, frames[i]).Some?
  }

  /** The callbacks a sequence of frames of one type produces, when every
      frame dispatches. */
  function Callbacks(t: ResponseType, frames: seq<seq<byte>>): seq<Callback>
    requires AllDispatch(t, frames)
  {
    if frames == [] then []
    else Callbacks(t, frames[..|frames| - 1]) + [Dispatch(t, frames[|frames| - 1]).value]
  }

  /** Streaming: in multi mode no descriptor separates the frames, so any
      number of `rpl_resp_len`-byte frames that all dispatch produce one
      callback each, in order, and leave the parser in multi mode. */
  lemma {:induction false} MultiStream(p: Parser, frames: seq<seq<byte>>)
    requires Inv(p) && p.phase == ResponseMulti && p.resp == []
    requires forall i :: 0 <= i < |frames| ==> |frames[i]| == p.respLen
    requires AllDispatch(p.respType, frames)
    ensures Feed(p, Concat(frames)) == p.(log := p.log + Callbacks(p.respType, frames))
    decreases |frames|
  {
    if frames != [] {
      var init := frames[..|frames| - 1];
      var last := frames[|frames| - 1];
      assert forall i :: 0 <= i < |init| ==> init[i] == frames[i];
      assert AllDispatch(p.respType, init);
      MultiStream(p, init);
      var q := p.(log := p.log + Callbacks(p.respType, init));
      assert Concat(frames) == Concat(init) + last;
      FeedAppend(p, Concat(init), last);
      MultiFrame(q, last);
      var c := Dispatch(p.respType, last).value;
      assert Callbacks(p.respType, frames) == Callbacks(p.respType, init) + [c];
      assert q.log + [c] == p.log + Callbacks(p.respType, frames);
    }
  }

  /** One frame in multi mode adds its callback and stays in multi mode. */
  lemma MultiFrame(q: Parser, frame: seq<byte>)
    requires Inv(q) && q.phase == ResponseMulti && q.resp == []
    requires |frame| == q.respLen && Dispatch(q.respType, frame).Some?
    ensures Feed(q, frame) == q.(log := q.log + [Dispatch(q.respType, frame).value])
  {
    CollectPayload(q, frame);
  }

  // ---------------------------------------------------------------------
  // Scenarios

  /** The scenario of test/main.c: an INFO descriptor for 20 bytes, then a
      payload whose first byte is 0xF0 and whose other bytes are zero. The
      device-info callback runs once and sees `model_sub` 15 (the high
      nibble) and `model_major` 0. */
  lemma DeviceInfoScenario()
    ensures var payload := [0xF0] + seq(19, _ => 0);
      var r := Feed(Initial, [0xA5, 0x5A, 0x14, 0x00, 0x00, 0x00, 0x04] + payload);
      r.phase == AwaitDescriptor && |r.log| == 1 && r.log[0].OnDeviceInfo?
      && r.log[0].info.modelSub == 15 && r.log[0].info.modelMajor == 0
  {
    var payload: seq<byte> := [0xF0] + seq(19, _ => 0);
    var d := Descriptor(0xA5, 0x5A, 20, RESP_MODE_SINGLE, RESP_INFO);
    assert EncodeDescriptor(d) == [0xA5, 0x5A, 0x14, 0x00, 0x00, 0x00, 0x04];
    FeedFrame(Initial, d, payload);
  }

  /** A multi-mode scan descriptor followed by one measurement whose
      quality is 60, check bit 1, angle 1200 (18.75 degrees) and distance
      8150 (2037.5 mm): exactly one measurement callback with those values,
      and the parser stays in multi mode for the next sample. */
  lemma MeasurementScenario()
    ensures var r := Feed(Initial, [0xA5, 0x5A, 0x05, 0x00, 0x00, 0x40, 0x81] + [0xF0, 0x61, 0x09, 0xD6, 0x1F]);
      r.phase == ResponseMulti
      && r.log == [OnSingleMeasurement(Measurement(0, 60, 1, 1200, 8150))]
  {
    var d := Descriptor(0xA5, 0x5A, 5, RESP_MODE_MULTI, RESP_SCAN);
    assert EncodeDescriptor(d) == [0xA5, 0x5A, 0x05, 0x00, 0x00, 0x40, 0x81];
    var m := Measurement(0, 60, 1, 1200, 8150);
    assert EncodeMeasurement(m) == [0xF0, 0x61, 0x09, 0xD6, 0x1F];
    MeasurementRoundTrip(m);
    FeedFrame(Initial, d, [0xF0, 0x61, 0x09, 0xD6, 0x1F]);
  }
}
