/**
 * The server's per-connection protocol handler: bytes from the socket go
 * through the SLIP decoder; each complete frame is checked as a TLVC
 * envelope and dispatched. Tag 0 carries the joystick configuration (taken
 * once), tag 1 a report that is fanned out into input events. Writing an
 * event to the virtual device is modelled as appending it to a log.
 */
module Netstickd {
  import opened Bytes
  import opened Wrappers
  import opened Input
  import opened Slip
  import opened Tlvc
  import opened Joystick

  /** Capacity of each connection's SLIP decoder. */
  const RAW_SIZE: nat := 32768

  /** The largest report a configuration with counts in range describes. */
  const MAX_REPORT_SIZE: nat := 4 * ABS_CNT + 4 * REL_CNT + KEY_CNT

  const TAG_CONFIG: uint16 := 0
  const TAG_REPORT: uint16 := 1

  /**
   * The virtual device `joystick_create` builds, seen only through the
   * configuration it keeps. A configuration whose counts exceed the arrays
   * (or are negative) yields no device.
   */
  predicate DeviceOk(cfg: JsConfig)
  {
    cfg.WellFormed() && cfg.CountsInRange()
  }

  function CreateDevice(cfg: JsConfig): (r: Option<JsConfig>)
    ensures r.Some? <==> DeviceOk(cfg)
    ensures r.Some? ==> r.value == cfg
  {
    if DeviceOk(cfg) then Some(cfg) else None
  }

  /** `jsproxy_client_context_t` plus the log of events written to its device. */
  datatype ConnState = ConnState(decoder: DecoderState, configSet: bool,
                                 device: Option<JsConfig>, emitted: seq<InputEvent>)

  predicate ConnInv(c: ConnState)
  {
    && |c.decoder.raw| == RAW_SIZE && c.decoder.index <= RAW_SIZE
    && (c.device.Some? ==> DeviceOk(c.device.value))
  }

  /** The state `jsproxy_connect` sets up. */
  function Connected(): (c: ConnState)
    ensures ConnInv(c) && c.decoder.index == 0 && !c.decoder.inEscape
    ensures !c.configSet && c.device.None? && c.emitted == []
  {
    ConnState(DecoderState(Zeros(RAW_SIZE), 0, false), false, None, [])
  }

  const SYN_EVENT: InputEvent := InputEvent(EV_SYN, 0, 0)

  /** One EV_ABS event per axis, its value the `int32_t` at offset 4i of the report. */
  function AbsEvents(cfg: JsConfig, data: seq<uint8>): (r: seq<InputEvent>)
    requires DeviceOk(cfg) && MAX_REPORT_SIZE <= |data|
    ensures |r| == cfg.absAxisCount as int
  {
    seq(cfg.absAxisCount as int, i requires 0 <= i < cfg.absAxisCount as int =>
      InputEvent(EV_ABS, ToU16(cfg.absAxis[i]), I32Of(data[4 * i..4 * i + 4])))
  }

  /** One EV_REL event per axis, read after the abs values. */
  function RelEvents(cfg: JsConfig, data: seq<uint8>): (r: seq<InputEvent>)
    requires DeviceOk(cfg) && MAX_REPORT_SIZE <= |data|
    ensures |r| == cfg.relAxisCount as int
  {
    var at := 4 * cfg.absAxisCount as int;
    seq(cfg.relAxisCount as int, i requires 0 <= i < cfg.relAxisCount as int =>
      InputEvent(EV_REL, ToU16(cfg.relAxis[i]), I32Of(data[at + 4 * i..at + 4 * i + 4])))
  }

  /** One EV_KEY event per button, one byte each, after the rel values. */
  function KeyEvents(cfg: JsConfig, data: seq<uint8>): (r: seq<InputEvent>)
    requires DeviceOk(cfg) && MAX_REPORT_SIZE <= |data|
    ensures |r| == cfg.buttonCount as int
  {
    var at := 4 * cfg.absAxisCount as int + 4 * cfg.relAxisCount as int;
    seq(cfg.buttonCount as int, i requires 0 <= i < cfg.buttonCount as int =>
      InputEvent(EV_KEY, ToU16(cfg.buttons[i]), data[at + i] as int32))
  }

  /** The events one report produces, in emission order, closed by EV_SYN. */
  function ReportEvents(cfg: JsConfig, data: seq<uint8>): seq<InputEvent>
    requires DeviceOk(cfg) && MAX_REPORT_SIZE <= |data|
  {
    AbsEvents(cfg, data) + RelEvents(cfg, data) + KeyEvents(cfg, data) + [SYN_EVENT]
  }

  /**
   * `jsproxy_handle_message`. `data` is the decoder buffer from the start
   * of the payload on, of which `dataSize` bytes are the payload; a report
   * is read from it at the offsets the configuration implies, whatever
   * `dataSize` says.
   */
  function Handle(c: ConnState, tag: uint16, data: seq<uint8>, dataSize: nat): (r: ConnState)
    requires ConnInv(c) && dataSize <= |data| && MAX_REPORT_SIZE <= |data|
    ensures ConnInv(r) && r.decoder == c.decoder
  {
    if tag == TAG_CONFIG then
      if c.configSet then c
      else if dataSize != CONFIG_SIZE then c
      else c.(device := CreateDevice(ParseConfig(data[..CONFIG_SIZE])), configSet := true)
    else if tag == TAG_REPORT then
      if !c.configSet || c.device.None? then c
      else c.(emitted := c.emitted + ReportEvents(c.device.value, data))
    else c
  }

  /**
   * One byte of `jsproxy_read`'s loop: decode it; on end of frame dispatch
   * the buffer if it is a valid envelope; on end of frame or any error
   * restart the decoder.
   */
  function ProcessByte(c: ConnState, b: uint8): (r: ConnState)
    requires ConnInv(c)
    ensures ConnInv(r)
  {
    var step := DecodeStep(c.decoder, b);
    var d := step.0;
    if step.1 == DecodeEndOfFrame then
      var env := Decode(d.raw[..d.index]);
      var c1 := c.(decoder := d);
      var c2 := if env.Some? then Handle(c1, env.value.header.tag, d.raw[HEADER_SIZE..], env.value.header.length as int) else c1;
      c2.(decoder := DecodeBegin(d))
    else if step.1 != DecodeOk then c.(decoder := DecodeBegin(d))
    else c.(decoder := d)
  }

  /** The effect of a stream of received bytes. */
  function Process(c: ConnState, bs: seq<uint8>): (r: ConnState)
    requires ConnInv(c)
    ensures ConnInv(r)
  {
    if bs == [] then c else ProcessByte(Process(c, bs[..|bs| - 1]), bs[|bs| - 1])
  }

  // ----------------------------------------------------------------------
  // Properties of the handler

  /** The configuration lifecycle and the report guard, message by message. */
  lemma HandleMessageCases(c: ConnState, tag: uint16, data: seq<uint8>, dataSize: nat)
    requires ConnInv(c) && dataSize <= |data| && MAX_REPORT_SIZE <= |data|
    ensures tag == TAG_CONFIG && c.configSet ==> Handle(c, tag, data, dataSize) == c
    ensures tag == TAG_CONFIG && dataSize != CONFIG_SIZE ==> Handle(c, tag, data, dataSize) == c
    ensures tag == TAG_CONFIG && !c.configSet && dataSize == CONFIG_SIZE ==>
      Handle(c, tag, data, dataSize) == c.(configSet := true, device := CreateDevice(ParseConfig(data[..CONFIG_SIZE])))
    ensures tag == TAG_REPORT && !c.configSet ==> Handle(c, tag, data, dataSize) == c
    ensures tag != TAG_CONFIG && tag != TAG_REPORT ==> Handle(c, tag, data, dataSize) == c
    ensures tag == TAG_REPORT && c.configSet && c.device.Some? ==>
      |Handle(c, tag, data, dataSize).emitted| == |c.emitted| + c.device.value.absAxisCount as int
        + c.device.value.relAxisCount as int + c.device.value.buttonCount as int + 1
  {
  }

  lemma {:induction false} ProcessAppend(c: ConnState, a: seq<uint8>, b: seq<uint8>)
    requires ConnInv(c)
    ensures Process(c, a + b) == Process(Process(c, a), b)
    decreases |b|
  {
    if b == [] {
      assert a + b == a;
    } else {
      SnocSplit(a, b);
      ProcessAppend(c, a, b[..|b| - 1]);
    }
  }

  lemma ProcessOne(c: ConnState, b: uint8)
    requires ConnInv(c)
    ensures Process(c, [b]) == ProcessByte(c, b)
  {
    assert [b][..0] == [];
  }

  lemma ProcessSnoc(c: ConnState, a: seq<uint8>, b: uint8)
    requires ConnInv(c)
    ensures Process(c, a + [b]) == ProcessByte(Process(c, a), b)
  {
    assert (a + [b])[..|a|] == a;
  }

  /**
   * Over any byte stream: once configured a connection stays configured
   * with the same device, and the event log only grows.
   */
  lemma {:induction false} ProcessMonotone(c: ConnState, bs: seq<uint8>)
    requires ConnInv(c)
    ensures c.configSet ==> Process(c, bs).configSet && Process(c, bs).device == c.device
    ensures c.emitted <= Process(c, bs).emitted
    decreases |bs|
  {
    if bs != [] {
      ProcessMonotone(c, bs[..|bs| - 1]);
    }
  }

  /** Bytes the decoder accepts with Ok touch nothing but the decoder. */
  lemma {:induction false} ProcessDecoderOnly(c: ConnState, bs: seq<uint8>)
    requires ConnInv(c) && AllDecodeOk(DecodeFeed(c.decoder, bs).1)
    ensures Process(c, bs) == c.(decoder := DecodeFeed(c.decoder, bs).0)
    decreases |bs|
  {
    if bs != [] {
      var n := |bs| - 1;
      var rs := DecodeFeed(c.decoder, bs).1;
      assert rs[..n] == DecodeFeed(c.decoder, bs[..n]).1;
      assert rs[n] == DecodeOk;
      ProcessDecoderOnly(c, bs[..n]);
    }
  }

  /** The bytes on the wire for one message. */
  function WireFrame(tag: uint16, payload: seq<uint8>): seq<uint8>
  {
    var e := Encode(tag, payload);
    Frame(Serialize(e.header, payload, e.footer))
  }

  /** END at the start of a frame closes an empty frame, which is not an envelope. */
  lemma OpeningEnd(c: ConnState)
    requires ConnInv(c) && c.decoder.index == 0 && !c.decoder.inEscape
    ensures ProcessByte(c, END) == c
  {
    assert c.decoder.raw[..0] == [];
  }

  /** END after a complete envelope dispatches it and restarts the decoder. */
  lemma ClosingEnd(c: ConnState, tag: uint16, payload: seq<uint8>)
    requires ConnInv(c) && !c.decoder.inEscape
    requires var e := Encode(tag, payload);
      var env := Serialize(e.header, payload, e.footer);
      && |env| < RAW_SIZE && c.decoder.index == |env| && c.decoder.raw[..|env|] == env
    requires |payload| < 0x1_0000
    ensures ProcessByte(c, END) ==
      Handle(c, tag, c.decoder.raw[HEADER_SIZE..], |payload|).(decoder := c.decoder.(index := 0))
    ensures ProcessByte(c, END).decoder == c.decoder.(index := 0)
    ensures c.decoder.raw[HEADER_SIZE..HEADER_SIZE + |payload|] == payload
  {
    RoundTrip(tag, payload);
    var e := Encode(tag, payload);
    var env := Serialize(e.header, payload, e.footer);
    assert c.decoder.raw[HEADER_SIZE..HEADER_SIZE + |payload|] == env[HEADER_SIZE..|env| - FOOTER_SIZE];
  }

  /** The handler neither reads nor writes the decoder. */
  lemma HandleIgnoresDecoder(c: ConnState, d: DecoderState, tag: uint16, data: seq<uint8>, dataSize: nat)
    requires ConnInv(c) && ConnInv(c.(decoder := d)) && dataSize <= |data| && MAX_REPORT_SIZE <= |data|
    ensures Handle(c.(decoder := d), tag, data, dataSize) == Handle(c, tag, data, dataSize).(decoder := d)
  {
  }

  /** The opening END and the escaped envelope only fill the decoder. */
  lemma {:induction false} FrameBodyDecoded(c: ConnState, env: seq<uint8>)
    requires ConnInv(c) && c.decoder.index == 0 && !c.decoder.inEscape
    requires |env| < RAW_SIZE
    ensures var r := Process(c, [END] + EscapeAll(env));
      && r == c.(decoder := r.decoder)
      && r.decoder.index == |env| && !r.decoder.inEscape && r.decoder.raw[..|env|] == env
  {
    var body := EscapeAll(env);
    ProcessAppend(c, [END], body);
    ProcessOne(c, END);
    OpeningEnd(c);
    DecodeEscaped(c.decoder, env);
    ProcessDecoderOnly(c, body);
  }

  /** After a complete frame the decoder is ready for the next one, the envelope still in its buffer. */
  lemma {:induction false} FrameResetsDecoder(c: ConnState, tag: uint16, payload: seq<uint8>)
    requires ConnInv(c) && c.decoder.index == 0 && !c.decoder.inEscape
    requires |payload| + HEADER_SIZE + FOOTER_SIZE < RAW_SIZE
    ensures Process(c, WireFrame(tag, payload)).decoder.index == 0
    ensures !Process(c, WireFrame(tag, payload)).decoder.inEscape
    ensures Process(c, WireFrame(tag, payload)).decoder.raw[HEADER_SIZE..HEADER_SIZE + |payload|] == payload
  {
    var e := Encode(tag, payload);
    var env := Serialize(e.header, payload, e.footer);
    var front := [END] + EscapeAll(env);
    assert WireFrame(tag, payload) == front + [END];
    FrameBodyDecoded(c, env);
    var c2 := Process(c, front);
    ProcessSnoc(c, front, END);
    ClosingEnd(c2, tag, payload);
  }

  /** A complete frame is dispatched once, with its tag and its payload size. */
  lemma {:induction false} FrameDispatched(c: ConnState, tag: uint16, payload: seq<uint8>)
    requires ConnInv(c) && c.decoder.index == 0 && !c.decoder.inEscape
    requires |payload| + HEADER_SIZE + FOOTER_SIZE < RAW_SIZE
    ensures var r := Process(c, WireFrame(tag, payload));
      r.(decoder := c.decoder) == Handle(c, tag, r.decoder.raw[HEADER_SIZE..], |payload|)
  {
    var e := Encode(tag, payload);
    var env := Serialize(e.header, payload, e.footer);
    var front := [END] + EscapeAll(env);
    assert WireFrame(tag, payload) == front + [END];
    FrameBodyDecoded(c, env);
    var c2 := Process(c, front);
    ProcessSnoc(c, front, END);
    ClosingEnd(c2, tag, payload);
    HandleIgnoresDecoder(c, c2.decoder, tag, c2.decoder.raw[HEADER_SIZE..], |payload|);
  }

  /**
   * A complete frame received on a connection whose decoder is at the start
   * of a frame is dispatched exactly once, with its tag and with the
   * payload at the front of the data view, and leaves the decoder ready for
   * the next frame.
   */
  lemma FrameDelivers(c: ConnState, tag: uint16, payload: seq<uint8>)
    requires ConnInv(c) && c.decoder.index == 0 && !c.decoder.inEscape
    requires |payload| + HEADER_SIZE + FOOTER_SIZE < RAW_SIZE
    ensures var r := Process(c, WireFrame(tag, payload));
      && r.decoder.index == 0 && !r.decoder.inEscape
      && r.decoder.raw[HEADER_SIZE..HEADER_SIZE + |payload|] == payload
      && r.(decoder := c.decoder) == Handle(c, tag, r.decoder.raw[HEADER_SIZE..], |payload|)
  {
    FrameResetsDecoder(c, tag, payload);
    FrameDispatched(c, tag, payload);
  }

  /** A configuration sent to a fresh connection is installed, unchanged. */
  lemma ConfigDelivered(cfg: JsConfig)
    requires cfg.WellFormed()
    ensures var r := Process(Connected(), WireFrame(TAG_CONFIG, ConfigBytes(cfg)));
      && r.configSet && r.device == CreateDevice(cfg) && r.emitted == []
      && r.decoder.index == 0 && !r.decoder.inEscape
  {
    ConfigRoundTrip(cfg);
    var c := Connected();
    var p := ConfigBytes(cfg);
    FrameDelivers(c, TAG_CONFIG, p);
    var r := Process(c, WireFrame(TAG_CONFIG, p));
    assert r.decoder.raw[HEADER_SIZE..][..CONFIG_SIZE] == r.decoder.raw[HEADER_SIZE..HEADER_SIZE + CONFIG_SIZE];
  }

  /** The events a report of these slot values should produce, read off the values themselves. */
  function ExpectedEvents(cfg: JsConfig, abs: seq<int32>, rel: seq<int32>, buttons: seq<uint8>): seq<InputEvent>
    requires DeviceOk(cfg)
    requires |abs| == cfg.absAxisCount as int && |rel| == cfg.relAxisCount as int
    requires |buttons| == cfg.buttonCount as int
  {
    seq(|abs|, i requires 0 <= i < |abs| => InputEvent(EV_ABS, ToU16(cfg.absAxis[i]), abs[i]))
    + seq(|rel|, i requires 0 <= i < |rel| => InputEvent(EV_REL, ToU16(cfg.relAxis[i]), rel[i]))
    + seq(|buttons|, i requires 0 <= i < |buttons| => InputEvent(EV_KEY, ToU16(cfg.buttons[i]), buttons[i] as int32))
    + [SYN_EVENT]
  }

  lemma SuffixSlice(s: seq<uint8>, a: nat, c: nat, d: nat)
    requires a <= |s| && c <= d <= |s| - a
    ensures s[a..][c..d] == s[a + c..a + d]
  {
    assert forall k :: 0 <= k < d - c ==> s[a..][c..d][k] == s[a + c + k];
  }

  /** The `i`th rel event of a report read at `offset` of a buffer. */
  lemma RelEventAt(cfg: JsConfig, s: seq<uint8>, offset: nat, i: nat)
    requires DeviceOk(cfg) && offset + MAX_REPORT_SIZE <= |s| && i < cfg.relAxisCount as int
    ensures var at := offset + 4 * cfg.absAxisCount as int + 4 * i;
      RelEvents(cfg, s[offset..])[i] == InputEvent(EV_REL, ToU16(cfg.relAxis[i]), I32Of(s[at..at + 4]))
  {
    var a := cfg.absAxisCount as int;
    SuffixSlice(s, offset, 4 * a + 4 * i, 4 * a + 4 * i + 4);
  }

  lemma {:induction false} AbsEventsOfReport(cfg: JsConfig, abs: seq<int32>, data: seq<uint8>)
    requires DeviceOk(cfg) && |abs| == cfg.absAxisCount as int && MAX_REPORT_SIZE <= |data|
    requires data[..4 * |abs|] == PackI32(abs)
    ensures AbsEvents(cfg, data) == seq(|abs|, i requires 0 <= i < |abs| => InputEvent(EV_ABS, ToU16(cfg.absAxis[i]), abs[i]))
  {
    forall i | 0 <= i < |abs|
      ensures I32Of(data[4 * i..4 * i + 4]) == abs[i]
    {
      PackI32Slice(abs, i);
      assert data[4 * i..4 * i + 4] == data[..4 * |abs|][4 * i..4 * i + 4];
      I32RoundTrip(abs[i]);
    }
  }

  lemma {:induction false} RelEventsOfReport(cfg: JsConfig, rel: seq<int32>, data: seq<uint8>)
    requires DeviceOk(cfg) && |rel| == cfg.relAxisCount as int && MAX_REPORT_SIZE <= |data|
    requires data[4 * cfg.absAxisCount as int..4 * cfg.absAxisCount as int + 4 * |rel|] == PackI32(rel)
    ensures RelEvents(cfg, data) == seq(|rel|, i requires 0 <= i < |rel| => InputEvent(EV_REL, ToU16(cfg.relAxis[i]), rel[i]))
  {
    var at := 4 * cfg.absAxisCount as int;
    forall i | 0 <= i < |rel|
      ensures I32Of(data[at + 4 * i..at + 4 * i + 4]) == rel[i]
    {
      PackedSlot(data, at, rel, i);
    }
  }

  lemma {:induction false} KeyEventsOfReport(cfg: JsConfig, buttons: seq<uint8>, data: seq<uint8>)
    requires DeviceOk(cfg) && |buttons| == cfg.buttonCount as int && MAX_REPORT_SIZE <= |data|
    requires var at := 4 * cfg.absAxisCount as int + 4 * cfg.relAxisCount as int;
      data[at..at + |buttons|] == buttons
    ensures KeyEvents(cfg, data) == seq(|buttons|, i requires 0 <= i < |buttons| => InputEvent(EV_KEY, ToU16(cfg.buttons[i]), buttons[i] as int32))
  {
    var at := 4 * cfg.absAxisCount as int + 4 * cfg.relAxisCount as int;
    forall i | 0 <= i < |buttons|
      ensures data[at + i] == buttons[i]
    {
      assert data[at + i] == data[at..at + |buttons|][i];
    }
  }

  /** Reading a serialised report at the server's offsets gives back the slot values. */
  lemma {:induction false} ReportEventsOfReport(cfg: JsConfig, abs: seq<int32>, rel: seq<int32>, buttons: seq<uint8>,
                             rest: seq<uint8>)
    requires DeviceOk(cfg)
    requires |abs| == cfg.absAxisCount as int && |rel| == cfg.relAxisCount as int
    requires |buttons| == cfg.buttonCount as int
    requires MAX_REPORT_SIZE <= |ReportBytes(abs, rel, buttons) + rest|
    ensures ReportEvents(cfg, ReportBytes(abs, rel, buttons) + rest) == ExpectedEvents(cfg, abs, rel, buttons)
  {
    var data := ReportBytes(abs, rel, buttons) + rest;
    var pa, pr := PackI32(abs), PackI32(rel);
    assert data == pa + pr + buttons + rest;
    assert data[..|pa|] == pa;
    assert data[|pa|..|pa| + |pr|] == pr;
    assert data[|pa| + |pr|..|pa| + |pr| + |buttons|] == buttons;
    AbsEventsOfReport(cfg, abs, data);
    RelEventsOfReport(cfg, rel, data);
    KeyEventsOfReport(cfg, buttons, data);
  }

  /**
   * The report case reads the slot values at the offsets the configuration
   * gives and never compares the payload size with the report size: the
   * outcome is the same whatever size the envelope declared.
   */
  lemma ReportIgnoresDataSize(c: ConnState, data: seq<uint8>, n1: nat, n2: nat)
    requires ConnInv(c) && n1 <= |data| && n2 <= |data| && MAX_REPORT_SIZE <= |data|
    ensures Handle(c, TAG_REPORT, data, n1) == Handle(c, TAG_REPORT, data, n2)
  {
  }

  /** A report on a configured connection appends its events and changes nothing else. */
  lemma HandleReport(c: ConnState, data: seq<uint8>, dataSize: nat)
    requires ConnInv(c) && dataSize <= |data| && MAX_REPORT_SIZE <= |data|
    requires c.configSet && c.device.Some?
    ensures Handle(c, TAG_REPORT, data, dataSize) == c.(emitted := c.emitted + ReportEvents(c.device.value, data))
  {
  }

  /** A report sent on a configured connection writes exactly the expected events to the device. */
  lemma ReportDelivered(c: ConnState, abs: seq<int32>, rel: seq<int32>, buttons: seq<uint8>)
    requires ConnInv(c) && c.decoder.index == 0 && !c.decoder.inEscape
    requires c.configSet && c.device.Some?
    requires |abs| == c.device.value.absAxisCount as int && |rel| == c.device.value.relAxisCount as int
    requires |buttons| == c.device.value.buttonCount as int
    ensures var r := Process(c, WireFrame(TAG_REPORT, ReportBytes(abs, rel, buttons)));
      && r.configSet && r.device == c.device && r.decoder.index == 0 && !r.decoder.inEscape
      && r.emitted == c.emitted + ExpectedEvents(c.device.value, abs, rel, buttons)
  {
    var p := ReportBytes(abs, rel, buttons);
    FrameDelivers(c, TAG_REPORT, p);
    var r := Process(c, WireFrame(TAG_REPORT, p));
    var data := r.decoder.raw[HEADER_SIZE..];
    WindowSplit(r.decoder.raw, HEADER_SIZE, p);
    HandleReport(c, data, |p|);
    ReportEventsOfReport(c.device.value, abs, rel, buttons, r.decoder.raw[HEADER_SIZE + |p|..]);
  }

  // ----------------------------------------------------------------------
  // The connection object

  /** What `read` reported when the loop stopped: end of stream, or an error. */
  datatype ReadEnd = Closed | Failed(errno: int)

  class ClientContext {
    const decoder: SlipDecoder
    var configSet: bool
    var device: Option<JsConfig>
    /** Events written to the virtual device, oldest first. */
    var emitted: seq<InputEvent>

    ghost predicate Valid()
      reads this, decoder
    {
      && decoder.Valid() && decoder.rawSize == RAW_SIZE
      && (device.Some? ==> DeviceOk(device.value))
    }

    function State(): ConnState
      reads this, decoder, decoder.raw
    {
      ConnState(decoder.State(), configSet, device, emitted)
    }

    /** `jsproxy_connect` */
    constructor Connect(clientFd: int)
      ensures Valid() && fresh(decoder) && fresh(decoder.raw)
      ensures State() == Connected()
    {
      decoder := new SlipDecoder.Create(RAW_SIZE);
      new;
      decoder.Begin();
      configSet := false;
      device := None;
      emitted := [];
    }

    /**
     * The logical part of `jsproxy_disconnect`: the device is destroyed
     * exactly when the connection was configured and has one.
     */
    method Disconnect() returns (released: Option<JsConfig>)
      requires Valid()
      ensures released.Some? <==> configSet && device.Some?
      ensures released.Some? ==> released == device
    {
      released := if configSet && device.Some? then device else None;
    }

    /** `jsproxy_handle_message` with the payload at `data[offset..]`. */
    method HandleMessage(tag: uint16, data: array<uint8>, offset: nat, dataSize: nat)
      requires Valid() && offset + dataSize <= data.Length && offset + MAX_REPORT_SIZE <= data.Length
      modifies this
      ensures Valid()
      ensures State() == Handle(old(State()), tag, data[offset..], dataSize)
    {
      if tag == TAG_CONFIG {
        if configSet {
          return;
        }
        if dataSize != CONFIG_SIZE {
          return;
        }
        device := CreateDevice(ParseConfig(data[offset..offset + CONFIG_SIZE]));
        configSet := true;
        assert data[offset..offset + CONFIG_SIZE] == data[offset..][..CONFIG_SIZE];
      } else if tag == TAG_REPORT {
        if !configSet || device.None? {
          return;
        }
        EmitReport(device.value, data, offset);
      }
    }

    /** The report case: abs, rel and key events, then EV_SYN. */
    method EmitReport(cfg: JsConfig, data: array<uint8>, offset: nat)
      requires DeviceOk(cfg) && offset + MAX_REPORT_SIZE <= data.Length
      modifies this
      ensures emitted == old(emitted) + ReportEvents(cfg, data[offset..])
      ensures configSet == old(configSet) && device == old(device)
    {
      ghost var d := data[offset..];
      EmitAbs(cfg, data, offset);
      EmitRel(cfg, data, offset);
      EmitKeys(cfg, data, offset);
      Emit(SYN_EVENT);
      assert emitted == old(emitted) + AbsEvents(cfg, d) + RelEvents(cfg, d) + KeyEvents(cfg, d) + [SYN_EVENT];
    }

    /** The loop over the abs axes. */
    method EmitAbs(cfg: JsConfig, data: array<uint8>, offset: nat)
      requires DeviceOk(cfg) && offset + MAX_REPORT_SIZE <= data.Length
      modifies this
      ensures emitted == old(emitted) + AbsEvents(cfg, data[offset..])
      ensures configSet == old(configSet) && device == old(device)
    {
      ghost var evs := AbsEvents(cfg, data[offset..]);
      var a := cfg.absAxisCount as int;
      for i := 0 to a
        invariant emitted == old(emitted) + evs[..i]
        invariant configSet == old(configSet) && device == old(device)
      {
        SuffixSlice(data[..], offset, 4 * i, 4 * i + 4);
        Emit(InputEvent(EV_ABS, ToU16(cfg.absAxis[i]), I32Of(data[offset + 4 * i..offset + 4 * i + 4])));
        assert evs[..i + 1] == evs[..i] + [evs[i]];
      }
      assert evs[..a] == evs;
    }

    /** The loop over the rel axes, whose values follow the abs values. */
    method EmitRel(cfg: JsConfig, data: array<uint8>, offset: nat)
      requires DeviceOk(cfg) && offset + MAX_REPORT_SIZE <= data.Length
      modifies this
      ensures emitted == old(emitted) + RelEvents(cfg, data[offset..])
      ensures configSet == old(configSet) && device == old(device)
    {
      ghost var evs := RelEvents(cfg, data[offset..]);
      var a, r := cfg.absAxisCount as int, cfg.relAxisCount as int;
      for i := 0 to r
        invariant emitted == old(emitted) + evs[..i]
        invariant configSet == old(configSet) && device == old(device)
      {
        var at := offset + 4 * a + 4 * i;
        RelEventAt(cfg, data[..], offset, i);
        Emit(InputEvent(EV_REL, ToU16(cfg.relAxis[i]), I32Of(data[at..at + 4])));
        assert evs[..i + 1] == evs[..i] + [evs[i]];
      }
      assert evs[..r] == evs;
    }

    /** The loop over the buttons, one byte each after the rel values. */
    method EmitKeys(cfg: JsConfig, data: array<uint8>, offset: nat)
      requires DeviceOk(cfg) && offset + MAX_REPORT_SIZE <= data.Length
      modifies this
      ensures emitted == old(emitted) + KeyEvents(cfg, data[offset..])
      ensures configSet == old(configSet) && device == old(device)
    {
      ghost var evs := KeyEvents(cfg, data[offset..]);
      var a, r, k := cfg.absAxisCount as int, cfg.relAxisCount as int, cfg.buttonCount as int;
      for i := 0 to k
        invariant emitted == old(emitted) + evs[..i]
        invariant configSet == old(configSet) && device == old(device)
      {
        Emit(InputEvent(EV_KEY, ToU16(cfg.buttons[i]), data[offset + 4 * a + 4 * r + i] as int32));
        assert evs[..i + 1] == evs[..i] + [evs[i]];
      }
      assert evs[..k] == evs;
    }

    /** `emit`: the event goes to the device; a failed write is reported and ignored. */
    method Emit(ev: InputEvent)
      modifies this
      ensures emitted == old(emitted) + [ev]
      ensures configSet == old(configSet) && device == old(device)
    {
      emitted := emitted + [ev];
    }

    /**
     * `jsproxy_read`: `chunks` are what successive `read` calls returned
     * (each 1 to 256 bytes) before one returned `last`. The connection is
     * kept unless the peer closed it; bad frames never close it.
     */
    method Read(chunks: seq<seq<uint8>>, last: ReadEnd) returns (keep: bool)
      requires Valid()
      requires forall k :: 0 <= k < |chunks| ==> 0 < |chunks[k]| <= 256
      modifies this, decoder, decoder.raw
      ensures Valid()
      ensures State() == Process(old(State()), Flatten(chunks))
      ensures keep <==> !last.Closed?
    {
      for k := 0 to |chunks|
        invariant Valid()
        invariant State() == Process(old(State()), Flatten(chunks[..k]))
      {
        ReadChunk(chunks[k]);
        assert chunks[..k + 1][..k] == chunks[..k];
        ProcessAppend(old(State()), Flatten(chunks[..k]), chunks[k]);
      }
      assert chunks[..|chunks|] == chunks;
      keep := !last.Closed?;
    }

    /** The inner loop of `jsproxy_read`, over the bytes one `read` returned. */
    method ReadChunk(buf: seq<uint8>)
      requires Valid()
      modifies this, decoder, decoder.raw
      ensures Valid()
      ensures State() == Process(old(State()), buf)
    {
      for i := 0 to |buf|
        invariant Valid()
        invariant State() == Process(old(State()), buf[..i])
      {
        ReadByte(buf[i]);
        ProcessSnoc(old(State()), buf[..i], buf[i]);
        assert buf[..i + 1] == buf[..i] + [buf[i]];
      }
      assert buf[..|buf|] == buf;
    }

    /** The body of `jsproxy_read`'s inner loop, for one byte. */
    method ReadByte(b: uint8)
      requires Valid()
      modifies this, decoder, decoder.raw
      ensures Valid()
      ensures State() == ProcessByte(old(State()), b)
    {
      var rc := decoder.DecodeByte(b);
      if rc == DecodeEndOfFrame {
        var tlvc := DecodeData(decoder.raw, decoder.index);
        if tlvc.Some? {
          HandleMessage(tlvc.value.header.tag, tlvc.value.data, tlvc.value.dataOffset, tlvc.value.dataLen);
        }
        decoder.Begin();
      } else if rc != DecodeOk {
        decoder.Begin();
      }
    }
  }
}
