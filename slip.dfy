/**
 * SLIP byte stuffing (RFC 1055, section "Protocol"): an incremental encoder
 * into a fixed-capacity buffer and a per-byte decoding state machine.
 *
 * The spec functions (EncodeStep, DecodeStep, ...) describe one call of the
 * C API on a value of the encoder or decoder state; the classes SlipEncoder
 * and SlipDecoder hold the same state in place and are proved against them.
 */
module Slip {
  import opened Bytes

  const END: uint8 := 0xC0
  const ESC: uint8 := 0xDB
  const ESC_END: uint8 := 0xDC
  const ESC_ESC: uint8 := 0xDD

  datatype EncodeResult = EncodeOk | EncodeTooBig
  datatype DecodeResult = DecodeOk | DecodeTooBig | DecodeInvalidFrame | DecodeEndOfFrame

  function Min(a: int, b: int): int { if a <= b then a else b }

  // ----------------------------------------------------------------------
  // Reference definition of the wire form

  /** The wire bytes that stand for one raw byte. */
  function Escape(b: uint8): seq<uint8>
  {
    if b == END then [ESC, ESC_END] else if b == ESC then [ESC, ESC_ESC] else [b]
  }

  function EscapeAll(bs: seq<uint8>): seq<uint8>
  {
    if bs == [] then [] else EscapeAll(bs[..|bs| - 1]) + Escape(bs[|bs| - 1])
  }

  /** A complete frame: END, the escaped body, END. */
  function Frame(bs: seq<uint8>): seq<uint8>
  {
    [END] + EscapeAll(bs) + [END]
  }

  /** Number of bytes of `bs` that need a two-byte escape. */
  function Specials(bs: seq<uint8>): nat
  {
    if bs == [] then 0
    else Specials(bs[..|bs| - 1]) + (if bs[|bs| - 1] == END || bs[|bs| - 1] == ESC then 1 else 0)
  }

  lemma {:induction false} EscapeAllAppend(a: seq<uint8>, b: seq<uint8>)
    ensures EscapeAll(a + b) == EscapeAll(a) + EscapeAll(b)
    decreases |b|
  {
    if b == [] {
      assert a + b == a;
    } else {
      var n := |b| - 1;
      SnocSplit(a, b);
      EscapeAllAppend(a, b[..n]);
      AppendAssoc(EscapeAll(a), EscapeAll(b[..n]), Escape(b[n]));
    }
  }

  lemma {:induction false} EscapeAllLength(bs: seq<uint8>)
    ensures |EscapeAll(bs)| == |bs| + Specials(bs) <= 2 * |bs|
    decreases |bs|
  {
    if bs != [] {
      EscapeAllLength(bs[..|bs| - 1]);
    }
  }

  lemma {:induction false} SpecialsAppend(a: seq<uint8>, b: seq<uint8>)
    ensures Specials(a + b) == Specials(a) + Specials(b)
    decreases |b|
  {
    if b == [] {
      assert a + b == a;
    } else {
      SnocSplit(a, b);
      SpecialsAppend(a, b[..|b| - 1]);
    }
  }

  /** No byte stuffed into a frame body is END, so END only delimits. */
  lemma {:induction false} EscapeAllHasNoEnd(bs: seq<uint8>)
    ensures forall i :: 0 <= i < |EscapeAll(bs)| ==> EscapeAll(bs)[i] != END
    decreases |bs|
  {
    if bs != [] {
      EscapeAllHasNoEnd(bs[..|bs| - 1]);
    }
  }

  // ----------------------------------------------------------------------
  // Encoder state and the effect of each call (slip.c:32-75)

  /** `slip_encode_message_t`: the buffer (its length is `encodedSize`) and the write index. */
  datatype EncoderState = EncoderState(encoded: seq<uint8>, index: nat)

  /** The bytes written so far. */
  function Written(s: EncoderState): seq<uint8>
    requires s.index <= |s.encoded|
  {
    s.encoded[..s.index]
  }

  function Put(s: EncoderState, v: uint8): EncoderState
    requires s.index < |s.encoded|
  {
    EncoderState(s.encoded[s.index := v], s.index + 1)
  }

  /** `slip_encode_begin`: writes END at index 0, unchecked. */
  function EncodeBegin(s: EncoderState): EncoderState
    requires 1 <= |s.encoded|
  {
    EncoderState(s.encoded[0 := END], 1)
  }

  /** `slip_encode_finish` */
  function EncodeFinish(s: EncoderState): (EncoderState, EncodeResult)
  {
    if s.index >= |s.encoded| then (s, EncodeTooBig) else (Put(s, END), EncodeOk)
  }

  /** `slip_encode_byte`: an escape pair may be cut after its ESC. */
  function EncodeStep(s: EncoderState, b: uint8): (EncoderState, EncodeResult)
  {
    if s.index >= |s.encoded| then (s, EncodeTooBig)
    else if b == END || b == ESC then
      var s1 := Put(s, ESC);
      if s1.index >= |s1.encoded| then (s1, EncodeTooBig)
      else (Put(s1, if b == END then ESC_END else ESC_ESC), EncodeOk)
    else (Put(s, b), EncodeOk)
  }

  /** Successive `slip_encode_byte` calls, with the return code of each. */
  function EncodeFeed(s: EncoderState, bs: seq<uint8>): (r: (EncoderState, seq<EncodeResult>))
    ensures |r.1| == |bs|
  {
    if bs == [] then (s, [])
    else
      var f := EncodeFeed(s, bs[..|bs| - 1]);
      var g := EncodeStep(f.0, bs[|bs| - 1]);
      (g.0, f.1 + [g.1])
  }

  predicate AllEncodeOk(rs: seq<EncodeResult>)
  {
    forall i :: 0 <= i < |rs| ==> rs[i] == EncodeOk
  }

  lemma {:induction false} EncodeFeedAppend(s: EncoderState, a: seq<uint8>, b: seq<uint8>)
    ensures EncodeFeed(s, a + b).0 == EncodeFeed(EncodeFeed(s, a).0, b).0
    decreases |b|
  {
    if b == [] {
      assert a + b == a;
    } else {
      var n := |b| - 1;
      SnocSplit(a, b);
      EncodeFeedAppend(s, a, b[..n]);
    }
  }

  /**
   * One call writes the next bytes of the byte's escape, stopping at the
   * capacity: the buffer so far is always a prefix of what an unbounded
   * encoder would have produced, and the call succeeds exactly when the
   * whole escape fitted.
   */
  lemma EncodeStepPrefix(s: EncoderState, b: uint8)
    requires s.index <= |s.encoded|
    ensures var (t, rc) := EncodeStep(s, b);
      && |t.encoded| == |s.encoded| && t.index <= |t.encoded|
      && Written(t) == (Written(s) + Escape(b))[..Min(s.index + |Escape(b)|, |s.encoded|)]
      && (rc == EncodeOk <==> s.index + |Escape(b)| <= |s.encoded|)
  {
    var (t, rc) := EncodeStep(s, b);
    if s.index < |s.encoded| && (b == END || b == ESC) && s.index + 1 < |s.encoded| {
      assert Written(t) == Written(s) + Escape(b);
    }
  }

  /** Feeding a whole sequence: the output is the escaped input cut at the capacity. */
  lemma {:induction false} EncodeFeedPrefix(s: EncoderState, bs: seq<uint8>)
    requires s.index <= |s.encoded|
    ensures |EncodeFeed(s, bs).0.encoded| == |s.encoded|
    ensures EncodeFeed(s, bs).0.index == Min(s.index + |EscapeAll(bs)|, |s.encoded|)
    ensures Written(EncodeFeed(s, bs).0) == (Written(s) + EscapeAll(bs))[..EncodeFeed(s, bs).0.index]
    ensures AllEncodeOk(EncodeFeed(s, bs).1) <==> s.index + |EscapeAll(bs)| <= |s.encoded|
    decreases |bs|
  {
    if bs != [] {
      var n := |bs| - 1;
      var s1 := EncodeFeed(s, bs[..n]).0;
      var rs1 := EncodeFeed(s, bs[..n]).1;
      EncodeFeedPrefix(s, bs[..n]);
      EncodeStepPrefix(s1, bs[n]);
      var t := EncodeStep(s1, bs[n]).0;
      var rc := EncodeStep(s1, bs[n]).1;
      EncodeFeedLast(s, bs);
      FeedStepCombine(s, s1, rs1, t, rc, EscapeAll(bs[..n]), Escape(bs[n]));
    }
  }

  /** The inductive step of `EncodeFeedPrefix`, over the states and escapes it names. */
  lemma FeedStepCombine(s: EncoderState, s1: EncoderState, rs1: seq<EncodeResult>, t: EncoderState,
                        rc: EncodeResult, e1: seq<uint8>, e: seq<uint8>)
    requires s.index <= |s.encoded| && 1 <= |e|
    requires |s1.encoded| == |s.encoded| && s1.index == Min(s.index + |e1|, |s.encoded|)
    requires Written(s1) == (Written(s) + e1)[..s1.index]
    requires AllEncodeOk(rs1) <==> s.index + |e1| <= |s.encoded|
    requires |t.encoded| == |s1.encoded| && t.index <= |t.encoded|
    requires Written(t) == (Written(s1) + e)[..Min(s1.index + |e|, |s1.encoded|)]
    requires rc == EncodeOk <==> s1.index + |e| <= |s1.encoded|
    ensures |t.encoded| == |s.encoded| && t.index == Min(s.index + |e1 + e|, |s.encoded|)
    ensures Written(t) == (Written(s) + (e1 + e))[..t.index]
    ensures AllEncodeOk(rs1 + [rc]) <==> s.index + |e1 + e| <= |s.encoded|
  {
    EncodeFeedWritten(s.index, |s.encoded|, Written(s), e1, e, Written(s1), Written(t));
    EncodeFeedOk(s.index, |s.encoded|, |e1|, |e|, rs1, rc);
    assert |Written(t)| == t.index;
  }

  /** One more byte: the feed is the feed of the prefix followed by one step. */
  lemma EncodeFeedLast(s: EncoderState, bs: seq<uint8>)
    requires bs != []
    ensures var f := EncodeFeed(s, bs[..|bs| - 1]);
            var g := EncodeStep(f.0, bs[|bs| - 1]);
            EncodeFeed(s, bs) == (g.0, f.1 + [g.1])
    ensures EscapeAll(bs) == EscapeAll(bs[..|bs| - 1]) + Escape(bs[|bs| - 1])
  {
  }

  lemma EncodeFeedWritten(i: nat, size: nat, w: seq<uint8>, e1: seq<uint8>, e: seq<uint8>,
                          w1: seq<uint8>, w2: seq<uint8>)
    requires |w| == i <= size
    requires w1 == (w + e1)[..Min(i + |e1|, size)]
    requires w2 == (w1 + e)[..Min(|w1| + |e|, size)]
    ensures w2 == (w + (e1 + e))[..Min(i + |e1 + e|, size)]
  {
    if i + |e1| <= size {
      assert w1 == w + e1;
      assert (w + e1) + e == w + (e1 + e);
    } else {
      assert (w + e1)[..size] == (w + (e1 + e))[..size];
    }
  }

  lemma EncodeFeedOk(i: nat, size: nat, n1: nat, n2: nat, rs1: seq<EncodeResult>, rc: EncodeResult)
    requires AllEncodeOk(rs1) <==> i + n1 <= size
    requires rc == EncodeOk <==> Min(i + n1, size) + n2 <= size
    requires 1 <= n2
    ensures AllEncodeOk(rs1 + [rc]) <==> i + n1 + n2 <= size
  {
    var rs := rs1 + [rc];
    if i + n1 + n2 <= size {
      assert AllEncodeOk(rs);
    } else if i + n1 <= size {
      assert rs[|rs1|] == rc;
    } else {
      var k :| 0 <= k < |rs1| && rs1[k] != EncodeOk;
      assert rs[k] == rs1[k];
    }
  }

  /**
   * Begin, one `slip_encode_byte` per byte of `bs`, finish: the state after
   * the whole message, the per-byte return codes and that of finish.
   */
  function EncodeMessage(s: EncoderState, bs: seq<uint8>): (EncoderState, seq<EncodeResult>, EncodeResult)
    requires 1 <= |s.encoded|
  {
    var f := EncodeFeed(EncodeBegin(s), bs);
    var g := EncodeFinish(f.0);
    (g.0, f.1, g.1)
  }

  /**
   * From any buffer with capacity `size >= 1`, the buffer ends up holding
   * the frame of `bs` cut at the capacity, and every call returned Ok
   * exactly when the whole frame fitted.
   */
  lemma {:induction false} EncodeFramePrefix(s: EncoderState, bs: seq<uint8>)
    requires 1 <= |s.encoded|
    ensures |EncodeMessage(s, bs).0.encoded| == |s.encoded|
    ensures EncodeMessage(s, bs).0.index == Min(|Frame(bs)|, |s.encoded|)
    ensures Written(EncodeMessage(s, bs).0) == Frame(bs)[..Min(|Frame(bs)|, |s.encoded|)]
    ensures AllEncodeOk(EncodeMessage(s, bs).1) && EncodeMessage(s, bs).2 == EncodeOk
            <==> |Frame(bs)| <= |s.encoded|
  {
    var s1 := EncodeBegin(s);
    assert Written(s1) == [END];
    EncodeFeedPrefix(s1, bs);
    var s2 := EncodeFeed(s1, bs).0;
    var s3 := EncodeFinish(s2).0;
    var f := [END] + EscapeAll(bs);
    assert Written(s2) == f[..s2.index];
    assert Frame(bs) == f + [END];
    if 1 + |EscapeAll(bs)| < |s.encoded| {
      assert Written(s3) == Written(s2) + [END];
    } else {
      assert s3 == s2;
      assert Frame(bs)[..|s.encoded|] == f[..|s.encoded|];
    }
  }

  /** `slip_encode_message_create(n)` leaves room for any `n` raw bytes. */
  lemma EncoderCapacitySuffices(s: EncoderState, bs: seq<uint8>)
    requires |s.encoded| == 2 * |bs| + 2
    ensures AllEncodeOk(EncodeMessage(s, bs).1) && EncodeMessage(s, bs).2 == EncodeOk
    ensures Written(EncodeMessage(s, bs).0) == Frame(bs)
  {
    EncodeFramePrefix(s, bs);
    EscapeAllLength(bs);
  }

  // ----------------------------------------------------------------------
  // Decoder state and the effect of each call (slip.c:99-147)

  /** `slip_decode_message_t`: the buffer (its length is `rawSize`), write index and escape flag. */
  datatype DecoderState = DecoderState(raw: seq<uint8>, index: nat, inEscape: bool)

  /** The bytes decoded so far in the current frame. */
  function Decoded(s: DecoderState): seq<uint8>
    requires s.index <= |s.raw|
  {
    s.raw[..s.index]
  }

  function Append(s: DecoderState, v: uint8): DecoderState
    requires s.index < |s.raw|
  {
    s.(raw := s.raw[s.index := v], index := s.index + 1)
  }

  /** `slip_decode_begin`: resets the index only; the escape flag survives. */
  function DecodeBegin(s: DecoderState): DecoderState
  {
    s.(index := 0)
  }

  /**
   * `slip_decode_byte`. The capacity test comes first, so a full buffer
   * answers TooBig even to END; after ESC only ESC_END and ESC_ESC are
   * accepted (RFC 1055 would pass any other byte through).
   */
  function DecodeStep(s: DecoderState, b: uint8): (DecoderState, DecodeResult)
  {
    if s.index >= |s.raw| then (s, DecodeTooBig)
    else if b == END then (s.(inEscape := false), DecodeEndOfFrame)
    else if b == ESC then
      if s.inEscape then (s, DecodeInvalidFrame) else (s.(inEscape := true), DecodeOk)
    else if b == ESC_END then
      if s.inEscape then (Append(s.(inEscape := false), END), DecodeOk) else (Append(s, b), DecodeOk)
    else if b == ESC_ESC then
      if s.inEscape then (Append(s.(inEscape := false), ESC), DecodeOk) else (Append(s, b), DecodeOk)
    else if s.inEscape then (s, DecodeInvalidFrame)
    else (Append(s, b), DecodeOk)
  }

  /** Successive `slip_decode_byte` calls, with the return code of each. */
  function DecodeFeed(s: DecoderState, bs: seq<uint8>): (r: (DecoderState, seq<DecodeResult>))
    ensures |r.1| == |bs|
  {
    if bs == [] then (s, [])
    else
      var f := DecodeFeed(s, bs[..|bs| - 1]);
      var g := DecodeStep(f.0, bs[|bs| - 1]);
      (g.0, f.1 + [g.1])
  }

  predicate AllDecodeOk(rs: seq<DecodeResult>)
  {
    forall i :: 0 <= i < |rs| ==> rs[i] == DecodeOk
  }

  /** The per-byte rules of the decoder, case by case. */
  lemma DecodeStepCases(s: DecoderState, b: uint8)
    ensures s.index >= |s.raw| ==> DecodeStep(s, b) == (s, DecodeTooBig)
    ensures s.index < |s.raw| && b == END ==>
      DecodeStep(s, b) == (DecoderState(s.raw, s.index, false), DecodeEndOfFrame)
    ensures s.index < |s.raw| && s.inEscape && b != END && b != ESC_END && b != ESC_ESC ==>
      DecodeStep(s, b) == (s, DecodeInvalidFrame)
    ensures s.index < |s.raw| && !s.inEscape && b == ESC ==>
      DecodeStep(s, b) == (DecoderState(s.raw, s.index, true), DecodeOk)
    ensures s.index < |s.raw| && !s.inEscape && b != END && b != ESC ==>
      DecodeStep(s, b) == (DecoderState(s.raw[s.index := b], s.index + 1, false), DecodeOk)
    ensures s.index < |s.raw| && s.inEscape && b == ESC_END ==>
      DecodeStep(s, b) == (DecoderState(s.raw[s.index := END], s.index + 1, false), DecodeOk)
    ensures s.index < |s.raw| && s.inEscape && b == ESC_ESC ==>
      DecodeStep(s, b) == (DecoderState(s.raw[s.index := ESC], s.index + 1, false), DecodeOk)
  {
  }

  lemma {:induction false} DecodeFeedAppend(s: DecoderState, a: seq<uint8>, b: seq<uint8>)
    ensures DecodeFeed(s, a + b).0 == DecodeFeed(DecodeFeed(s, a).0, b).0
    ensures DecodeFeed(s, a + b).1 == DecodeFeed(s, a).1 + DecodeFeed(DecodeFeed(s, a).0, b).1
    decreases |b|
  {
    if b == [] {
      assert a + b == a;
    } else {
      var n := |b| - 1;
      SnocSplit(a, b);
      DecodeFeedAppend(s, a, b[..n]);
    }
  }

  /** Once the buffer is full every byte, END included, is refused and changes nothing. */
  lemma {:induction false} FullDecoderRefusesAll(s: DecoderState, bs: seq<uint8>)
    requires s.index >= |s.raw|
    ensures DecodeFeed(s, bs).0 == s
    ensures forall i :: 0 <= i < |bs| ==> DecodeFeed(s, bs).1[i] == DecodeTooBig
    decreases |bs|
  {
    if bs != [] {
      FullDecoderRefusesAll(s, bs[..|bs| - 1]);
    }
  }

  /** One escaped byte, outside an escape, appends that byte. */
  lemma DecodeOneEscaped(s: DecoderState, b: uint8)
    requires !s.inEscape && s.index < |s.raw|
    ensures DecodeFeed(s, Escape(b)).0 == Append(s, b)
    ensures AllDecodeOk(DecodeFeed(s, Escape(b)).1)
  {
    var e := Escape(b);
    if b == END || b == ESC {
      var p := e[..|e| - 1];
      assert p[..|p| - 1] == [];
      assert DecodeFeed(s, p[..|p| - 1]) == (s, []);
      assert p[|p| - 1] == ESC && e[|e| - 1] == (if b == END then ESC_END else ESC_ESC);
      var s1 := s.(inEscape := true);
      var g1 := DecodeStep(s, p[|p| - 1]);
      assert g1 == (s1, DecodeOk);
      assert DecodeFeed(s, p) == (g1.0, [] + [g1.1]);
      var g2 := DecodeStep(s1, e[|e| - 1]);
      assert g2 == (Append(s, b), DecodeOk);
      assert DecodeFeed(s, p).0 == s1;
      assert DecodeFeed(s, p).1 == [DecodeOk];
      assert DecodeFeed(s, e) == (g2.0, [DecodeOk] + [g2.1]);
    } else {
      assert e[..|e| - 1] == [];
      assert DecodeFeed(s, e[..|e| - 1]) == (s, []);
    }
  }

  /** Storing one more byte after a decoded prefix extends the prefix. */
  lemma StoreExtends(r0: seq<uint8>, i0: nat, r1: seq<uint8>, pre: seq<uint8>, b: uint8)
    requires |r1| == |r0| && i0 + |pre| < |r0|
    requires r1[..i0 + |pre|] == r0[..i0] + pre
    requires r1[i0 + |pre|..] == r0[i0 + |pre|..]
    ensures r1[i0 + |pre| := b][..i0 + |pre| + 1] == r0[..i0] + (pre + [b])
    ensures r1[i0 + |pre| := b][i0 + |pre| + 1..] == r0[i0 + |pre| + 1..]
  {
    var j := i0 + |pre|;
    var r2 := r1[j := b];
    assert r2[..j + 1] == r1[..j] + [b];
    assert r2[j + 1..] == r1[j..][1..];
  }

  /**
   * Decoding the escaped form of `bs` outside an escape appends exactly
   * `bs`, with every call returning Ok, provided it fits.
   */
  lemma {:induction false} DecodeEscaped(s: DecoderState, bs: seq<uint8>)
    requires !s.inEscape && s.index + |bs| <= |s.raw|
    ensures !DecodeFeed(s, EscapeAll(bs)).0.inEscape
    ensures |DecodeFeed(s, EscapeAll(bs)).0.raw| == |s.raw|
    ensures DecodeFeed(s, EscapeAll(bs)).0.index == s.index + |bs|
    ensures DecodeFeed(s, EscapeAll(bs)).0.raw[..s.index + |bs|] == s.raw[..s.index] + bs
    ensures DecodeFeed(s, EscapeAll(bs)).0.raw[s.index + |bs|..] == s.raw[s.index + |bs|..]
    ensures AllDecodeOk(DecodeFeed(s, EscapeAll(bs)).1)
    decreases |bs|
  {
    if bs == [] {
      assert s.raw[..s.index] + bs == s.raw[..s.index];
    } else {
      var n := |bs| - 1;
      var b := bs[n];
      var pre := bs[..n];
      assert bs == pre + [b];
      DecodeEscaped(s, pre);
      DecodeFeedAppend(s, EscapeAll(pre), Escape(b));
      assert EscapeAll(bs) == EscapeAll(pre) + Escape(b);
      var f1 := DecodeFeed(s, EscapeAll(pre));
      var s1 := f1.0;
      DecodeOneEscaped(s1, b);
      var f2 := DecodeFeed(s1, Escape(b));
      assert DecodeFeed(s, EscapeAll(bs)) == (f2.0, f1.1 + f2.1);
      assert f2.0 == DecoderState(s1.raw[s1.index := b], s1.index + 1, false);
      StoreExtends(s.raw, s.index, s1.raw, pre, b);
      assert AllDecodeOk(f1.1 + f2.1);
    }
  }

  /**
   * Round trip: from index 0 outside an escape, the escaped body of `bs`
   * followed by END ends the frame with exactly `bs` decoded, if `bs` is
   * shorter than the buffer.
   */
  lemma DecodeRoundTrip(raw: seq<uint8>, bs: seq<uint8>)
    requires |bs| < |raw|
    ensures var (t, rs) := DecodeFeed(DecoderState(raw, 0, false), EscapeAll(bs) + [END]);
      && |t.raw| == |raw| && t.index == |bs| && Decoded(t) == bs && !t.inEscape
      && AllDecodeOk(rs[..|rs| - 1]) && rs[|rs| - 1] == DecodeEndOfFrame
  {
    var s := DecoderState(raw, 0, false);
    DecodeEscaped(s, bs);
    DecodeFeedAppend(s, EscapeAll(bs), [END]);
    var (t1, rs1) := DecodeFeed(s, EscapeAll(bs));
    assert [END][..0] == [];
    var rs := DecodeFeed(s, EscapeAll(bs) + [END]).1;
    assert rs == rs1 + [DecodeEndOfFrame];
    assert rs[..|rs| - 1] == rs1;
  }

  // ----------------------------------------------------------------------
  // The encoder and decoder objects

  class SlipEncoder {
    const encodedSize: nat
    const encoded: array<uint8>
    var index: nat

    ghost predicate Valid()
      reads this
    {
      encoded.Length == encodedSize && 1 <= encodedSize && index <= encodedSize
    }

    function State(): EncoderState
      reads this, encoded
    {
      EncoderState(encoded[..], index)
    }

    /** `slip_encode_message_create`: a zeroed buffer of `2 * rawSize + 2` bytes. */
    constructor Create(rawSize: nat)
      ensures Valid() && fresh(encoded)
      ensures encodedSize == 2 * rawSize + 2
      ensures State() == EncoderState(Zeros(2 * rawSize + 2), 0)
    {
      encodedSize := 2 * rawSize + 2;
      encoded := new uint8[2 * rawSize + 2](_ => 0);
      index := 0;
    }

    /** `slip_encode_begin` */
    method Begin()
      requires Valid()
      modifies this, encoded
      ensures Valid() && State() == EncodeBegin(old(State()))
    {
      index := 0;
      encoded[index] := END;
      index := index + 1;
    }

    /** `slip_encode_finish` */
    method Finish() returns (rc: EncodeResult)
      requires Valid()
      modifies this, encoded
      ensures Valid() && (State(), rc) == EncodeFinish(old(State()))
    {
      if index >= encodedSize {
        return EncodeTooBig;
      }
      encoded[index] := END;
      index := index + 1;
      rc := EncodeOk;
    }

    /** `slip_encode_byte` */
    method EncodeByte(b: uint8) returns (rc: EncodeResult)
      requires Valid()
      modifies this, encoded
      ensures Valid() && (State(), rc) == EncodeStep(old(State()), b)
    {
      if index >= encodedSize {
        return EncodeTooBig;
      }
      if b == END || b == ESC {
        encoded[index] := ESC;
        index := index + 1;
        if index >= encodedSize {
          return EncodeTooBig;
        }
        encoded[index] := if b == END then ESC_END else ESC_ESC;
        index := index + 1;
      } else {
        encoded[index] := b;
        index := index + 1;
      }
      rc := EncodeOk;
    }
  }

  class SlipDecoder {
    const rawSize: nat
    const raw: array<uint8>
    var inEscape: bool
    var index: nat

    ghost predicate Valid()
      reads this
    {
      raw.Length == rawSize && index <= rawSize
    }

    function State(): DecoderState
      reads this, raw
    {
      DecoderState(raw[..], index, inEscape)
    }

    /** `slip_decode_message_create`: a zeroed buffer of `rawSize` bytes, not escaping. */
    constructor Create(rawSize: nat)
      ensures Valid() && fresh(raw) && this.rawSize == rawSize
      ensures State() == DecoderState(Zeros(rawSize), 0, false)
    {
      this.rawSize := rawSize;
      raw := new uint8[rawSize](_ => 0);
      inEscape := false;
      index := 0;
    }

    /** `slip_decode_begin` */
    method Begin()
      requires Valid()
      modifies this
      ensures Valid() && State() == DecodeBegin(old(State()))
    {
      index := 0;
    }

    /** `slip_decode_byte` */
    method DecodeByte(b: uint8) returns (rc: DecodeResult)
      requires Valid()
      modifies this, raw
      ensures Valid() && (State(), rc) == DecodeStep(old(State()), b)
    {
      if index >= rawSize {
        return DecodeTooBig;
      }
      if b == END {
        inEscape := false;
        return DecodeEndOfFrame;
      } else if b == ESC {
        if inEscape {
          return DecodeInvalidFrame;
        }
        inEscape := true;
      } else if b == ESC_END {
        if inEscape {
          inEscape := false;
          raw[index] := END;
        } else {
          raw[index] := b;
        }
        index := index + 1;
      } else if b == ESC_ESC {
        if inEscape {
          inEscape := false;
          raw[index] := ESC;
        } else {
          raw[index] := b;
        }
        index := index + 1;
      } else {
        if inEscape {
          return DecodeInvalidFrame;
        }
        raw[index] := b;
        index := index + 1;
      }
      rc := DecodeOk;
    }
  }
}
