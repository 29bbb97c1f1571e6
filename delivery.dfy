/**
 * Client and server together: what a client session puts on the wire,
 * fed to a fresh server connection, ends up on the virtual device.
 */
module Delivery {
  import opened Bytes
  import opened Input
  import opened Joystick
  import opened Netstickd
  import opened Netstick

  /** A report with the slot counts of `cfg`. */
  predicate Shaped(cfg: JsConfig, v: Report)
  {
    |v.abs| == cfg.absAxisCount as int && |v.rel| == cfg.relAxisCount as int && |v.buttons| == cfg.buttonCount as int
  }

  /** The events the server should write for these reports, one report after the other. */
  function SessionEvents(cfg: JsConfig, snaps: seq<Report>): seq<InputEvent>
    requires DeviceOk(cfg) && forall k :: 0 <= k < |snaps| ==> Shaped(cfg, snaps[k])
    decreases |snaps|
  {
    if snaps == [] then []
    else
      var v := snaps[0];
      assert Shaped(cfg, v);
      ExpectedEvents(cfg, v.abs, v.rel, v.buttons) + SessionEvents(cfg, snaps[1..])
  }

  /** Report frames arriving one after the other on a configured connection each write their events, in order. */
  lemma {:induction false} ReportsDelivered(c: ConnState, snaps: seq<Report>)
    requires ConnInv(c) && c.decoder.index == 0 && !c.decoder.inEscape
    requires c.configSet && c.device.Some?
    requires forall k :: 0 <= k < |snaps| ==> Shaped(c.device.value, snaps[k])
    ensures var r := Process(c, ReportFrames(snaps));
      && r.configSet && r.device == c.device && r.decoder.index == 0 && !r.decoder.inEscape
      && r.emitted == c.emitted + SessionEvents(c.device.value, snaps)
    decreases |snaps|
  {
    if snaps != [] {
      var v, rest := snaps[0], snaps[1..];
      var f := WireFrame(TAG_REPORT, v.Bytes());
      assert ReportFrames(snaps) == f + ReportFrames(rest);
      ProcessAppend(c, f, ReportFrames(rest));
      ReportDelivered(c, v.abs, v.rel, v.buttons);
      var c1 := Process(c, f);
      assert forall k :: 0 <= k < |rest| ==> rest[k] == snaps[k + 1];
      ReportsDelivered(c1, rest);
      var e0 := ExpectedEvents(c.device.value, v.abs, v.rel, v.buttons);
      var r1 := Process(c1, ReportFrames(rest));
      assert Process(c, ReportFrames(snaps)) == r1;
      EventsAfter(c.emitted, e0, SessionEvents(c.device.value, rest));
    }
  }

  lemma EventsAfter(a: seq<InputEvent>, b: seq<InputEvent>, c: seq<InputEvent>)
    ensures (a + b) + c == a + (b + c)
  {
  }

  /** A configuration and then reports, sent to a fresh connection. */
  lemma SessionDelivered(cfg: JsConfig, snaps: seq<Report>)
    requires DeviceOk(cfg) && forall k :: 0 <= k < |snaps| ==> Shaped(cfg, snaps[k])
    ensures Process(Connected(), WireFrame(TAG_CONFIG, ConfigBytes(cfg)) + ReportFrames(snaps)).emitted
      == SessionEvents(cfg, snaps)
  {
    var w := WireFrame(TAG_CONFIG, ConfigBytes(cfg));
    ProcessAppend(Connected(), w, ReportFrames(snaps));
    ConfigDelivered(cfg);
    ReportsDelivered(Process(Connected(), w), snaps);
  }

  /** Every report the loop snapshots, and the one it ends with, keep the counts of the one it started from. */
  lemma {:induction false} TrackShaped(cfg: JsConfig, v: Report, m: IndexMaps, evs: seq<InputEvent>)
    requires Shaped(cfg, v)
    ensures Shaped(cfg, Track(v, m, evs).0)
    ensures forall k :: 0 <= k < |Track(v, m, evs).1| ==> Shaped(cfg, Track(v, m, evs).1[k])
    decreases |evs|
  {
    if evs != [] {
      if evs[0].evType == EV_SYN {
        TrackShaped(cfg, v, m, evs[1..]);
        assert Track(v, m, evs).1 == [v] + Track(v, m, evs[1..]).1;
      } else {
        TrackShaped(cfg, ApplyEvent(v, m, evs[0]), m, evs[1..]);
      }
    }
  }

  /**
   * When every transmit of a client session succeeds, no `write` gives
   * EINTR or EAGAIN, and every frame fits the encoder its transmit creates,
   * a fresh server connection fed the session's wire writes to its virtual
   * device exactly the events of each report the client sent, in order.
   * This holds for any record the server accepts and any index map.
   */
  lemma ClientToServer(cfg: JsConfig, m: IndexMaps, batches: seq<EventRead>, replies: seq<WriteReply>)
    requires DeviceOk(cfg) && NoTransient(replies) && ClientSession(cfg, m, batches, replies).running
    requires Fits(TAG_CONFIG, ConfigBytes(cfg)) && AllFit(SessionReports(cfg, m, batches))
    ensures var snaps := SessionReports(cfg, m, batches);
      && (forall k :: 0 <= k < |snaps| ==> Shaped(cfg, snaps[k]))
      && Process(Connected(), ClientSession(cfg, m, batches, replies).wire).emitted == SessionEvents(cfg, snaps)
  {
    TrackShaped(cfg, InitialReport(cfg), m, ReadEvents(batches));
    SessionFrames(cfg, m, batches, replies);
    var w := WireFrame(TAG_CONFIG, ConfigBytes(cfg));
    assert w[..|w|] == w;
    SentFramesWhole(SessionReports(cfg, m, batches));
    SessionDelivered(cfg, SessionReports(cfg, m, batches));
  }

  /** The record the client builds from any device is one the server accepts. */
  lemma EnumeratedAccepted(vid: uint16, pid: uint16, devName: seq<uint8>, bits: seq<seq<uint8>>, info: seq<AbsAxisInfo>)
    requires |devName| == 256 && Capabilities(bits) && |info| == ABS_CNT
    ensures DeviceOk(ClientConfig(vid, pid, devName, bits, info))
  {
    ClientMapsFit(vid, pid, devName, bits, info);
  }
}
