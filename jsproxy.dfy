/**
 * The earlier one-program version of client and server. Its server half,
 * its index map and its enumeration are the same code as in the separate
 * server and client, and the models of those stand for both. What differs
 * is modelled here: `encode_and_transmit` makes a single `write` and never
 * retries what it left out, and the client never looks at whether a
 * transmit succeeded, neither for the record nor for a report.
 */
module Jsproxy {
  import opened Bytes
  import opened Input
  import opened Slip
  import opened Tlvc
  import opened Joystick
  import opened Netstickd
  import opened Netstick

  /** The bytes of frame `w` that one `write` puts on the socket. */
  function WriteOnce(w: seq<uint8>, reply: WriteReply): seq<uint8>
  {
    if reply.Wrote? then w[..Min(reply.count, |w|)] else []
  }

  /**
   * One `write` against the retrying loop of the separate client given the
   * same reply first: the bytes on the wire agree, the loop ends "sent"
   * exactly when this write took the whole frame, and "died" exactly when
   * the reply is fatal.
   */
  lemma OnceAgainstLoop(w: seq<uint8>, reply: WriteReply)
    requires w != []
    ensures var (st, n, u) := WriteLoop(w, 0, [reply]);
      && WriteOnce(w, reply) == w[..n]
      && (st == Sent <==> WriteOnce(w, reply) == w)
      && (st == Died <==> Fatal(reply))
  {
    var (st, n, u) := WriteLoop(w, 0, [reply]);
    if !Fatal(reply) {
      var next := if reply.Wrote? then Min(reply.count, |w|) else 0;
      assert [reply][1..] == [];
      assert WriteLoop(w, next, []) == (if next == |w| then Sent else Stalled, next, 0);
    }
  }

  /** A write that takes part of the frame counts as success: the rest of the frame is lost. */
  lemma PartialWriteAccepted(w: seq<uint8>, k: nat)
    requires 0 < k < |w|
    ensures !Fatal(Wrote(k)) && WriteOnce(w, Wrote(k)) == w[..k] && WriteOnce(w, Wrote(k)) != w
  {
  }

  /**
   * `encode_and_transmit`: the envelope framed as in the separate client,
   * by an encoder sized for the payload alone (jsproxy.c:31), then a single
   * `write` whose reply is `reply`. The result is false only
   * for 0 bytes or an error other than EINTR/EAGAIN.
   */
  method TransmitOnce(tag: uint16, data: array<uint8>, reply: WriteReply) returns (ok: bool, wire: seq<uint8>)
    ensures wire == WriteOnce(SentFrame(tag, data[..]), reply)
    ensures ok <==> !Fatal(reply)
  {
    var frame := FrameMessage(tag, data, data.Length);
    var n := if reply.Wrote? then Min(reply.count, |frame|) else 0;
    wire := frame[..n];
    ok := !(reply == Wrote(0) || (reply.WriteError? && reply.errno != EINTR && reply.errno != EAGAIN));
  }

  // ----------------------------------------------------------------------
  // The client loop (jsproxy.c:247-289)

  /**
   * The older client between two events: the report's slot values, what
   * has gone onto the socket, and how many transmits it has made. The
   * replies of its `write` calls are indexed by transmit.
   */
  datatype JsClient = JsClient(report: Report, wire: seq<uint8>, sent: nat)

  /** One event: EV_SYN transmits the report, whatever comes of it; any other event updates it. */
  function JsStep(c: JsClient, m: IndexMaps, replies: nat -> WriteReply, ev: InputEvent): JsClient
  {
    if ev.evType == EV_SYN then
      c.(wire := c.wire + WriteOnce(SentFrame(TAG_REPORT, c.report.Bytes()), replies(c.sent)), sent := c.sent + 1)
    else c.(report := ApplyEvent(c.report, m, ev))
  }

  function JsRun(c: JsClient, m: IndexMaps, replies: nat -> WriteReply, evs: seq<InputEvent>): JsClient
    decreases |evs|
  {
    if evs == [] then c else JsRun(JsStep(c, m, replies, evs[0]), m, replies, evs[1..])
  }

  /** What the transmits numbered `k`, `k + 1`, ... of the reports `snaps` put on the wire. */
  function OnceFrames(snaps: seq<Report>, replies: nat -> WriteReply, k: nat): seq<uint8>
    decreases |snaps|
  {
    if snaps == [] then []
    else WriteOnce(SentFrame(TAG_REPORT, snaps[0].Bytes()), replies(k)) + OnceFrames(snaps[1..], replies, k + 1)
  }

  /**
   * No reply stops the older client: the report follows every event, and
   * one transmit is made per EV_SYN.
   */
  lemma {:induction false} JsRunTracks(c: JsClient, m: IndexMaps, replies: nat -> WriteReply, evs: seq<InputEvent>)
    ensures var r, t := JsRun(c, m, replies, evs), Track(c.report, m, evs);
      r.report == t.0 && r.sent == c.sent + |t.1|
    decreases |evs|
  {
    if evs != [] {
      JsRunTracks(JsStep(c, m, replies, evs[0]), m, replies, evs[1..]);
      if evs[0].evType == EV_SYN {
        TrackSyn(c.report, m, evs);
      }
    }
  }

  /**
   * Each transmit of the older client puts on the wire what its single
   * write took of the frame of the report as it stood at that EV_SYN.
   */
  lemma {:induction false} JsRunWire(c: JsClient, m: IndexMaps, replies: nat -> WriteReply, evs: seq<InputEvent>)
    ensures JsRun(c, m, replies, evs).wire == c.wire + OnceFrames(Track(c.report, m, evs).1, replies, c.sent)
    decreases |evs|
  {
    if evs != [] {
      var c1 := JsStep(c, m, replies, evs[0]);
      JsRunWire(c1, m, replies, evs[1..]);
      if evs[0].evType == EV_SYN {
        var t1 := Track(c.report, m, evs[1..]).1;
        var f := WriteOnce(SentFrame(TAG_REPORT, c.report.Bytes()), replies(c.sent));
        assert Track(c.report, m, evs).1 == [c.report] + t1;
        OnceFramesCons(c.report, t1, replies, c.sent);
        AppendAssoc(c.wire, f, OnceFrames(t1, replies, c.sent + 1));
      }
    }
  }

  lemma OnceFramesCons(v: Report, snaps: seq<Report>, replies: nat -> WriteReply, k: nat)
    ensures OnceFrames([v] + snaps, replies, k)
      == WriteOnce(SentFrame(TAG_REPORT, v.Bytes()), replies(k)) + OnceFrames(snaps, replies, k + 1)
  {
    assert ([v] + snaps)[1..] == snaps;
  }

  /** A reply that takes a frame of `n` bytes whole. */
  predicate Whole(reply: WriteReply, n: nat)
  {
    reply.Wrote? && n <= reply.count
  }

  /** Transmits `k`, `k + 1`, ... each take the frame of their report whole. */
  predicate AllWhole(snaps: seq<Report>, replies: nat -> WriteReply, k: nat)
  {
    forall i :: 0 <= i < |snaps| ==> Whole(replies(k + i), |SentFrame(TAG_REPORT, snaps[i].Bytes())|)
  }

  lemma AllWholeTail(snaps: seq<Report>, replies: nat -> WriteReply, k: nat)
    requires snaps != [] && AllWhole(snaps, replies, k)
    ensures Whole(replies(k), |SentFrame(TAG_REPORT, snaps[0].Bytes())|)
    ensures AllWhole(snaps[1..], replies, k + 1)
  {
    assert Whole(replies(k + 0), |SentFrame(TAG_REPORT, snaps[0].Bytes())|);
    forall i | 0 <= i < |snaps[1..]|
      ensures Whole(replies(k + 1 + i), |SentFrame(TAG_REPORT, snaps[1..][i].Bytes())|)
    {
      assert snaps[1..][i] == snaps[i + 1];
      assert k + 1 + i == k + (i + 1);
    }
  }

  /** When every write takes its frame whole, the older client sends exactly the frames the newer one does. */
  lemma {:induction false} OnceFramesWhole(snaps: seq<Report>, replies: nat -> WriteReply, k: nat)
    requires AllWhole(snaps, replies, k)
    ensures OnceFrames(snaps, replies, k) == SentFrames(snaps)
    decreases |snaps|
  {
    if snaps != [] {
      var w := SentFrame(TAG_REPORT, snaps[0].Bytes());
      AllWholeTail(snaps, replies, k);
      WholeWrite(w, replies(k));
      OnceFramesWhole(snaps[1..], replies, k + 1);
      assert OnceFrames(snaps, replies, k) == WriteOnce(w, replies(k)) + OnceFrames(snaps[1..], replies, k + 1);
      assert SentFrames(snaps) == w + SentFrames(snaps[1..]);
    }
  }

  lemma WholeWrite(w: seq<uint8>, reply: WriteReply)
    requires Whole(reply, |w|)
    ensures WriteOnce(w, reply) == w
  {
    assert w[..|w|] == w;
  }

  /** One event of the loop; the result of a transmit is dropped. */
  method JsHandleEvent(indexMap: IndexMap, report: ReportBuffer, ev: InputEvent, wire: seq<uint8>, sent: nat,
                       replies: nat -> WriteReply)
    returns (wire': seq<uint8>, sent': nat)
    requires indexMap.Valid() && report.Valid() && MapsFit(indexMap.State(), report.values) && CodeInMap(ev)
    modifies report, report.raw
    ensures report.Valid() && MapsFit(indexMap.State(), report.values)
    ensures JsStep(JsClient(old(report.values), wire, sent), indexMap.State(), replies, ev)
      == JsClient(report.values, wire', sent')
  {
    if ev.evType == EV_SYN {
      var _, out := TransmitOnce(TAG_REPORT, report.raw, replies(sent));
      wire', sent' := wire + out, sent + 1;
    } else {
      UpdateReport(indexMap, report, ev);
      wire', sent' := wire, sent;
    }
  }

  /** The events of one batch, in order. */
  method JsHandleBatch(indexMap: IndexMap, report: ReportBuffer, evs: seq<InputEvent>, wire: seq<uint8>, sent: nat,
                       replies: nat -> WriteReply)
    returns (wire': seq<uint8>, sent': nat)
    requires indexMap.Valid() && report.Valid() && MapsFit(indexMap.State(), report.values) && EventsInMap(evs)
    modifies report, report.raw
    ensures report.Valid() && MapsFit(indexMap.State(), report.values)
    ensures JsRun(JsClient(old(report.values), wire, sent), indexMap.State(), replies, evs)
      == JsClient(report.values, wire', sent')
  {
    ghost var m := indexMap.State();
    ghost var target := JsRun(JsClient(report.values, wire, sent), m, replies, evs);
    wire', sent' := wire, sent;
    for j := 0 to |evs|
      invariant report.Valid() && MapsFit(m, report.values) && indexMap.State() == m
      invariant target == JsRun(JsClient(report.values, wire', sent'), m, replies, evs[j..])
    {
      assert evs[j..][1..] == evs[j + 1..];
      wire', sent' := JsHandleEvent(indexMap, report, evs[j], wire', sent', replies);
    }
  }

  lemma {:induction false} JsRunAppend(c: JsClient, m: IndexMaps, replies: nat -> WriteReply,
                                       a: seq<InputEvent>, b: seq<InputEvent>)
    ensures JsRun(c, m, replies, a + b) == JsRun(JsRun(c, m, replies, a), m, replies, b)
    decreases |a|
  {
    if a == [] {
      assert a + b == b;
    } else {
      assert (a + b)[0] == a[0] && (a + b)[1..] == a[1..] + b;
      JsRunAppend(JsStep(c, m, replies, a[0]), m, replies, a[1..], b);
    }
  }

  /** The `while (1)` loop: batches are handled until a read ends it; transmits never do. */
  method JsEventLoop(indexMap: IndexMap, report: ReportBuffer, batches: seq<EventRead>, sent: nat,
                     replies: nat -> WriteReply)
    returns (wire: seq<uint8>, sent': nat)
    requires indexMap.Valid() && report.Valid() && MapsFit(indexMap.State(), report.values) && BatchesInMap(batches)
    modifies report, report.raw
    ensures report.Valid()
    ensures JsRun(JsClient(old(report.values), [], sent), indexMap.State(), replies, ReadEvents(batches))
      == JsClient(report.values, wire, sent')
  {
    ghost var m := indexMap.State();
    ReadEventsInMap(batches);
    ghost var target := JsRun(JsClient(report.values, [], sent), m, replies, ReadEvents(batches));
    wire, sent' := [], sent;
    var i := 0;
    while i < |batches|
      invariant i <= |batches| && report.Valid() && MapsFit(m, report.values)
      invariant indexMap.State() == m
      invariant target == JsRun(JsClient(report.values, wire, sent'), m, replies, ReadEvents(batches[i..]))
    {
      if batches[i].ReadStop? {
        return;
      }
      var evs := batches[i].evs;
      assert ReadEvents(batches[i..]) == evs + ReadEvents(batches[i + 1..]) by {
        assert batches[i..][1..] == batches[i + 1..];
      }
      JsRunAppend(JsClient(report.values, wire, sent'), m, replies, evs, ReadEvents(batches[i + 1..]));
      assert EventsInMap(evs) by {
        assert batches[i].Events?;
      }
      wire, sent' := JsHandleBatch(indexMap, report, evs, wire, sent', replies);
      i := i + 1;
    }
  }

  // ----------------------------------------------------------------------
  // The whole older client (jsproxy.c:140-290)

  /**
   * The record goes out as transmit 0 and the loop runs whatever that
   * transmit did; the reports are transmits 1, 2, ...
   */
  function JsSession(cfg: JsConfig, m: IndexMaps, batches: seq<EventRead>, replies: nat -> WriteReply): JsClient
    requires cfg.CountsInRange()
  {
    var w := WriteOnce(SentFrame(TAG_CONFIG, ConfigBytes(cfg)), replies(0));
    var r := JsRun(JsClient(InitialReport(cfg), [], 1), m, replies, ReadEvents(batches));
    r.(wire := w + r.wire)
  }

  /**
   * A failed transmit of the record does not stop the older client: it
   * makes one transmit per EV_SYN after the record's, whatever the replies,
   * and sends the same reports the newer client would.
   */
  lemma JsSessionIgnoresFailures(cfg: JsConfig, m: IndexMaps, batches: seq<EventRead>, replies: nat -> WriteReply)
    requires cfg.CountsInRange()
    ensures var r := JsSession(cfg, m, batches, replies);
      && r.sent == 1 + |SessionReports(cfg, m, batches)|
      && r.wire == WriteOnce(SentFrame(TAG_CONFIG, ConfigBytes(cfg)), replies(0))
                   + OnceFrames(SessionReports(cfg, m, batches), replies, 1)
  {
    var c0 := JsClient(InitialReport(cfg), [], 1);
    var r := JsRun(c0, m, replies, ReadEvents(batches));
    var w := WriteOnce(SentFrame(TAG_CONFIG, ConfigBytes(cfg)), replies(0));
    assert JsSession(cfg, m, batches, replies) == r.(wire := w + r.wire);
    JsRunTracks(c0, m, replies, ReadEvents(batches));
    JsRunWire(c0, m, replies, ReadEvents(batches));
    assert r.wire == OnceFrames(SessionReports(cfg, m, batches), replies, 1);
  }

  /** The record's transmit; its result is dropped. */
  method JsSendConfig(config: JsConfig, reply: WriteReply) returns (wire: seq<uint8>)
    requires config.WellFormed()
    ensures wire == WriteOnce(SentFrame(TAG_CONFIG, ConfigBytes(config)), reply)
  {
    ConfigRoundTrip(config);
    var bytes := ConfigBytes(config);
    var data := new uint8[|bytes|](k requires 0 <= k < |bytes| => bytes[k]);
    assert data[..] == bytes;
    var _, out := TransmitOnce(TAG_CONFIG, data, reply);
    wire := out;
  }

  /** The older client once the record and the index maps exist: the record, then the event loop. */
  method JsServe(config: JsConfig, indexMap: IndexMap, batches: seq<EventRead>, replies: nat -> WriteReply)
    returns (wire: seq<uint8>)
    requires config.WellFormed() && config.CountsInRange() && indexMap.Valid() && BatchesInMap(batches)
    requires MapsFit(indexMap.State(), InitialReport(config))
    ensures wire == JsSession(config, indexMap.State(), batches, replies).wire
  {
    var first := JsSendConfig(config, replies(0));
    var report := new ReportBuffer.Create(config);
    var rest, _ := JsEventLoop(indexMap, report, batches, 1, replies);
    wire := first + rest;
    ghost var r := JsRun(JsClient(InitialReport(config), [], 1), indexMap.State(), replies, ReadEvents(batches));
    assert JsSession(config, indexMap.State(), batches, replies) == r.(wire := first + r.wire);
  }

  /** The older client from the enumeration on. */
  method JsClientRun(vid: uint16, pid: uint16, devName: seq<uint8>, bits: seq<seq<uint8>>, info: seq<AbsAxisInfo>,
                     batches: seq<EventRead>, replies: nat -> WriteReply) returns (wire: seq<uint8>)
    requires |devName| == 256 && Capabilities(bits) && |info| == ABS_CNT && BatchesInMap(batches)
    ensures var cfg := ClientConfig(vid, pid, devName, bits, info);
      cfg.CountsInRange() && wire == JsSession(cfg, ClientMaps(bits), batches, replies).wire
  {
    var config, indexMap := Enumerate(vid, pid, devName, bits, info);
    ClientMapsFit(vid, pid, devName, bits, info);
    wire := JsServe(config, indexMap, batches, replies);
  }
}
