/**
 * The joystick configuration record as it crosses the wire, and the report
 * slots of a virtual joystick: clamped, guarded slot updates, the
 * previous <- current copy and the serialisation of a report.
 */
module Joystick {
  import opened Bytes
  import opened Input

  /** `js_config_t`, field by field. */
  datatype JsConfig = JsConfig(
    name: seq<uint8>, vid: uint16, pid: uint16,
    absAxisCount: int32, relAxisCount: int32, buttonCount: int32,
    absAxis: seq<uint32>, absAxisMin: seq<int32>, absAxisMax: seq<int32>,
    absAxisFuzz: seq<int32>, absAxisFlat: seq<int32>, absAxisResolution: seq<int32>,
    relAxis: seq<uint32>, buttons: seq<uint32>)
  {
    /** Every array field has its declared capacity. */
    predicate WellFormed()
    {
      && |name| == 256
      && |absAxis| == ABS_CNT && |absAxisMin| == ABS_CNT && |absAxisMax| == ABS_CNT
      && |absAxisFuzz| == ABS_CNT && |absAxisFlat| == ABS_CNT && |absAxisResolution| == ABS_CNT
      && |relAxis| == REL_CNT && |buttons| == KEY_CNT
    }

    /** The counts index within the arrays they describe. */
    predicate CountsInRange()
    {
      && 0 <= absAxisCount as int <= ABS_CNT
      && 0 <= relAxisCount as int <= REL_CNT
      && 0 <= buttonCount as int <= KEY_CNT
    }
  }

  /** Widths of the fields of the packed record, in declaration order. */
  const CONFIG_WIDTHS: seq<nat> :=
    [256, 2, 2, 4, 4, 4, 4 * ABS_CNT, 4 * ABS_CNT, 4 * ABS_CNT, 4 * ABS_CNT, 4 * ABS_CNT,
     4 * ABS_CNT, 4 * REL_CNT, 4 * KEY_CNT]

  /** `sizeof(js_config_t)` */
  const CONFIG_SIZE: nat := 4944

  lemma ConfigSizeIsTotal()
    ensures Total(CONFIG_WIDTHS) == CONFIG_SIZE
  {
    var w := CONFIG_WIDTHS;
    assert w[..0] == [];
    assert w[..1][..0] == w[..0];
    assert Total(w[..1]) == 256;
    assert w[..2][..1] == w[..1];
    assert Total(w[..2]) == 258;
    assert w[..3][..2] == w[..2];
    assert Total(w[..3]) == 260;
    assert w[..4][..3] == w[..3];
    assert Total(w[..4]) == 264;
    assert w[..5][..4] == w[..4];
    assert Total(w[..5]) == 268;
    assert w[..6][..5] == w[..5];
    assert Total(w[..6]) == 272;
    assert w[..7][..6] == w[..6];
    assert Total(w[..7]) == 528;
    assert w[..8][..7] == w[..7];
    assert Total(w[..8]) == 784;
    assert w[..9][..8] == w[..8];
    assert Total(w[..9]) == 1040;
    assert w[..10][..9] == w[..9];
    assert Total(w[..10]) == 1296;
    assert w[..11][..10] == w[..10];
    assert Total(w[..11]) == 1552;
    assert w[..12][..11] == w[..11];
    assert Total(w[..12]) == 1808;
    assert w[..13][..12] == w[..12];
    assert Total(w[..13]) == 1872;
    assert w[..14] == w;
    assert w[..14][..13] == w[..13];
  }

  function ConfigFields(c: JsConfig): seq<seq<uint8>>
  {
    [c.name, U16Bytes(c.vid), U16Bytes(c.pid),
     I32Bytes(c.absAxisCount), I32Bytes(c.relAxisCount), I32Bytes(c.buttonCount),
     PackU32(c.absAxis), PackI32(c.absAxisMin), PackI32(c.absAxisMax),
     PackI32(c.absAxisFuzz), PackI32(c.absAxisFlat), PackI32(c.absAxisResolution),
     PackU32(c.relAxis), PackU32(c.buttons)]
  }

  /** The record's memory image, as sent with tag 0. */
  function ConfigBytes(c: JsConfig): seq<uint8>
  {
    Flatten(ConfigFields(c))
  }

  /** Reading the record out of a 4944-byte message (the cast of the payload pointer). */
  function ParseConfig(bs: seq<uint8>): JsConfig
    requires |bs| == CONFIG_SIZE
  {
    ConfigSizeIsTotal();
    var f := Split(bs, CONFIG_WIDTHS);
    FlattenSplit(bs, CONFIG_WIDTHS);
    JsConfig(f[0], U16Of(f[1]), U16Of(f[2]),
             I32Of(f[3]), I32Of(f[4]), I32Of(f[5]),
             UnpackU32(f[6], ABS_CNT), UnpackI32(f[7], ABS_CNT), UnpackI32(f[8], ABS_CNT),
             UnpackI32(f[9], ABS_CNT), UnpackI32(f[10], ABS_CNT), UnpackI32(f[11], ABS_CNT),
             UnpackU32(f[12], REL_CNT), UnpackU32(f[13], KEY_CNT))
  }

  /** A well-formed record has exactly the declared size and reads back unchanged. */
  lemma ConfigRoundTrip(c: JsConfig)
    requires c.WellFormed()
    ensures |ConfigBytes(c)| == CONFIG_SIZE
    ensures ParseConfig(ConfigBytes(c)) == c
  {
    ConfigSizeIsTotal();
    SplitFlatten(ConfigFields(c), CONFIG_WIDTHS);
    U16RoundTrip(c.vid);
    U16RoundTrip(c.pid);
    I32RoundTrip(c.absAxisCount);
    I32RoundTrip(c.relAxisCount);
    I32RoundTrip(c.buttonCount);
    UnpackPackU32(c.absAxis);
    UnpackPackI32(c.absAxisMin);
    UnpackPackI32(c.absAxisMax);
    UnpackPackI32(c.absAxisFuzz);
    UnpackPackI32(c.absAxisFlat);
    UnpackPackI32(c.absAxisResolution);
    UnpackPackU32(c.relAxis);
    UnpackPackU32(c.buttons);
  }

  /** Every 4944-byte message is the image of the record it is read as. */
  lemma ParseConfigRoundTrip(bs: seq<uint8>)
    requires |bs| == CONFIG_SIZE
    ensures ParseConfig(bs).WellFormed()
    ensures ConfigBytes(ParseConfig(bs)) == bs
  {
    ConfigSizeIsTotal();
    var f := Split(bs, CONFIG_WIDTHS);
    FlattenSplit(bs, CONFIG_WIDTHS);
    assert f == [f[0], f[1], f[2], f[3], f[4], f[5], f[6], f[7], f[8], f[9], f[10], f[11], f[12], f[13]];
    ParsedFields(f[0], f[1], f[2], f[3], f[4], f[5], f[6], f[7], f[8], f[9], f[10], f[11], f[12], f[13]);
  }

  /** The fields of a record read from fields of the declared widths are those fields again. */
  lemma ParsedFields(name: seq<uint8>, vid: seq<uint8>, pid: seq<uint8>,
                     absCount: seq<uint8>, relCount: seq<uint8>, buttonCount: seq<uint8>,
                     absAxis: seq<uint8>, absMin: seq<uint8>, absMax: seq<uint8>,
                     absFuzz: seq<uint8>, absFlat: seq<uint8>, absRes: seq<uint8>,
                     relAxis: seq<uint8>, buttons: seq<uint8>)
    requires |name| == 256 && |vid| == 2 && |pid| == 2
    requires |absCount| == 4 && |relCount| == 4 && |buttonCount| == 4
    requires |absAxis| == 4 * ABS_CNT && |absMin| == 4 * ABS_CNT && |absMax| == 4 * ABS_CNT
    requires |absFuzz| == 4 * ABS_CNT && |absFlat| == 4 * ABS_CNT && |absRes| == 4 * ABS_CNT
    requires |relAxis| == 4 * REL_CNT && |buttons| == 4 * KEY_CNT
    ensures var c := JsConfig(name, U16Of(vid), U16Of(pid),
                              I32Of(absCount), I32Of(relCount), I32Of(buttonCount),
                              UnpackU32(absAxis, ABS_CNT), UnpackI32(absMin, ABS_CNT), UnpackI32(absMax, ABS_CNT),
                              UnpackI32(absFuzz, ABS_CNT), UnpackI32(absFlat, ABS_CNT), UnpackI32(absRes, ABS_CNT),
                              UnpackU32(relAxis, REL_CNT), UnpackU32(buttons, KEY_CNT));
            c.WellFormed()
            && ConfigFields(c) == [name, vid, pid, absCount, relCount, buttonCount, absAxis, absMin, absMax,
                                   absFuzz, absFlat, absRes, relAxis, buttons]
  {
    U16BytesOf(vid);
    U16BytesOf(pid);
    I32BytesOf(absCount);
    I32BytesOf(relCount);
    I32BytesOf(buttonCount);
    PackUnpackU32(absAxis, ABS_CNT);
    PackUnpackI32(absMin, ABS_CNT);
    PackUnpackI32(absMax, ABS_CNT);
    PackUnpackI32(absFuzz, ABS_CNT);
    PackUnpackI32(absFlat, ABS_CNT);
    PackUnpackI32(absRes, ABS_CNT);
    PackUnpackU32(relAxis, REL_CNT);
    PackUnpackU32(buttons, KEY_CNT);
  }

  // ----------------------------------------------------------------------
  // Reports

  /**
   * `joystick_get_report_size`: the counts are converted to `size_t`, so the
   * sum is taken modulo 2^64.
   */
  function ReportSize(c: JsConfig): nat
  {
    (c.buttonCount as int + 4 * c.absAxisCount as int + 4 * c.relAxisCount as int) % 0x1_0000_0000_0000_0000
  }

  /** Serialised report: abs values, rel values (4 bytes each), then one byte per button. */
  function ReportBytes(abs: seq<int32>, rel: seq<int32>, buttons: seq<uint8>): (r: seq<uint8>)
    ensures |r| == 4 * |abs| + 4 * |rel| + |buttons|
  {
    PackI32(abs) + PackI32(rel) + buttons
  }

  /** With counts in range the reported size is the length of the serialised report. */
  lemma ReportSizeIsLength(c: JsConfig, abs: seq<int32>, rel: seq<int32>, buttons: seq<uint8>)
    requires c.CountsInRange()
    requires |abs| == c.absAxisCount as int && |rel| == c.relAxisCount as int
    requires |buttons| == c.buttonCount as int
    ensures ReportSize(c) == |ReportBytes(abs, rel, buttons)|
    ensures ReportSize(c) == c.buttonCount as int + 4 * c.absAxisCount as int + 4 * c.relAxisCount as int
  {
  }

  /** The clamping of `joystick_update_abs_axis`: first raise to `lo`, then lower to `hi`. */
  function Clamp(v: int32, lo: int32, hi: int32): (r: int32)
    ensures lo <= hi ==> lo <= r <= hi
    ensures lo <= v <= hi ==> r == v
    ensures hi < lo ==> r == hi
    ensures r == v || r == lo || r == hi
  {
    var a := if v < lo then lo else v;
    if a > hi then hi else a
  }

  /** Three copies laid end to end from offset 0 leave their concatenation in front and the rest alone. */
  lemma CopiesCompose(d0: seq<uint8>, d1: seq<uint8>, d2: seq<uint8>, d3: seq<uint8>,
                      a: seq<uint8>, b: seq<uint8>, c: seq<uint8>)
    requires |a| + |b| + |c| <= |d0|
    requires d1 == d0[..0] + a + d0[|a|..]
    requires d2 == d1[..|a|] + b + d1[|a| + |b|..]
    requires d3 == d2[..|a| + |b|] + c + d2[|a| + |b| + |c|..]
    ensures d3[..|a| + |b| + |c|] == a + b + c
    ensures d3[|a| + |b| + |c|..] == d0[|a| + |b| + |c|..]
  {
    assert d1[..|a|] == a;
    assert d2[..|a| + |b|] == a + b;
  }

  /** One of the byte-copy loops of `joystick_serialize_report`: `src` copied to `data` from `dst` on. */
  method CopyBytes(data: array<uint8>, dst: nat, src: seq<uint8>)
    requires dst + |src| <= data.Length
    modifies data
    ensures data[..] == old(data[..dst]) + src + old(data[dst + |src|..])
  {
    for i := 0 to |src|
      invariant data[..] == old(data[..dst]) + src[..i] + old(data[dst + i..])
    {
      data[dst + i] := src[i];
    }
  }

  /** `js_context_t`: the stored configuration and the two reports. */
  class JoystickContext {
    const config: JsConfig
    const curAbs: array<int32>
    const curRel: array<int32>
    const curButtons: array<uint8>
    const prevAbs: array<int32>
    const prevRel: array<int32>
    const prevButtons: array<uint8>

    ghost predicate Valid()
      reads this
    {
      && config.WellFormed() && config.CountsInRange()
      && curAbs.Length == config.absAxisCount as int && prevAbs.Length == curAbs.Length
      && curRel.Length == config.relAxisCount as int && prevRel.Length == curRel.Length
      && curButtons.Length == config.buttonCount as int && prevButtons.Length == curButtons.Length
      && curAbs != prevAbs && curAbs != curRel && curAbs != prevRel
      && prevAbs != curRel && prevAbs != prevRel && curRel != prevRel
      && curButtons != prevButtons
    }

    /**
     * The allocation part of `joystick_create_context`: one current and one
     * previous slot array per class, sized by the counts.
     */
    constructor Create(config: JsConfig)
      requires config.WellFormed() && config.CountsInRange()
      ensures Valid() && this.config == config
      ensures fresh(curAbs) && fresh(curRel) && fresh(curButtons)
      ensures fresh(prevAbs) && fresh(prevRel) && fresh(prevButtons)
    {
      this.config := config;
      curAbs := new int32[config.absAxisCount](_ => 0);
      prevAbs := new int32[config.absAxisCount](_ => 0);
      curRel := new int32[config.relAxisCount](_ => 0);
      prevRel := new int32[config.relAxisCount](_ => 0);
      curButtons := new uint8[config.buttonCount](_ => 0);
      prevButtons := new uint8[config.buttonCount](_ => 0);
    }

    /** `joystick_begin_update`: previous := current for every non-empty class. */
    method BeginUpdate()
      requires Valid()
      modifies prevAbs, prevRel, prevButtons
      ensures Valid()
      ensures prevAbs[..] == curAbs[..] && prevRel[..] == curRel[..]
      ensures prevButtons[..] == curButtons[..]
      ensures curAbs[..] == old(curAbs[..]) && curRel[..] == old(curRel[..])
      ensures curButtons[..] == old(curButtons[..])
    {
      if config.buttonCount > 0 {
        forall i | 0 <= i < curButtons.Length {
          prevButtons[i] := curButtons[i];
        }
      }
      if config.absAxisCount > 0 {
        forall i | 0 <= i < curAbs.Length {
          prevAbs[i] := curAbs[i];
        }
      }
      if config.relAxisCount > 0 {
        forall i | 0 <= i < curRel.Length {
          prevRel[i] := curRel[i];
        }
      }
    }

    /** `joystick_update_button`: stores 0 or 1; an index past the count is ignored. */
    method UpdateButton(button: int, pressed: uint8)
      requires Valid() && 0 <= button
      modifies curButtons
      ensures Valid()
      ensures button >= config.buttonCount as int ==> curButtons[..] == old(curButtons[..])
      ensures button < config.buttonCount as int ==>
        curButtons[..] == old(curButtons[..])[button := if pressed != 0 then 1 else 0]
    {
      if button >= config.buttonCount as int {
        return;
      }
      curButtons[button] := if pressed != 0 then 1 else 0;
    }

    /** `joystick_update_abs_axis`: stores the value clamped to the axis range. */
    method UpdateAbsAxis(axis: int, value: int32)
      requires Valid() && 0 <= axis
      modifies curAbs
      ensures Valid()
      ensures axis >= config.absAxisCount as int ==> curAbs[..] == old(curAbs[..])
      ensures axis < config.absAxisCount as int ==>
        curAbs[..] == old(curAbs[..])[axis := Clamp(value, config.absAxisMin[axis], config.absAxisMax[axis])]
    {
      if axis >= config.absAxisCount as int {
        return;
      }
      var v := value;
      if v < config.absAxisMin[axis] {
        v := config.absAxisMin[axis];
      }
      if v > config.absAxisMax[axis] {
        v := config.absAxisMax[axis];
      }
      curAbs[axis] := v;
    }

    /** `joystick_update_rel_axis`: stores the value verbatim. */
    method UpdateRelAxis(axis: int, value: int32)
      requires Valid() && 0 <= axis
      modifies curRel
      ensures Valid()
      ensures axis >= config.relAxisCount as int ==> curRel[..] == old(curRel[..])
      ensures axis < config.relAxisCount as int ==> curRel[..] == old(curRel[..])[axis := value]
    {
      if axis >= config.relAxisCount as int {
        return;
      }
      curRel[axis] := value;
    }

    /** `joystick_get_report_size` */
    function GetReportSize(): (r: nat)
      reads this
      requires Valid()
      ensures r == curAbs.Length * 4 + curRel.Length * 4 + curButtons.Length
    {
      ReportSize(config)
    }

    /**
     * `joystick_serialize_report`: copies the bytes of the current report
     * into `data`, leaving the rest of `data` alone.
     */
    method SerializeReport(data: array<uint8>)
      requires Valid() && data != curButtons
      requires data.Length >= GetReportSize()
      modifies data
      ensures data[..GetReportSize()] == ReportBytes(curAbs[..], curRel[..], curButtons[..])
      ensures data[GetReportSize()..] == old(data[GetReportSize()..])
    {
      ghost var p := ReportBytes(curAbs[..], curRel[..], curButtons[..]);
      ghost var d0 := data[..];
      var na, nr := 4 * curAbs.Length, 4 * curRel.Length;
      CopyBytes(data, 0, PackI32(curAbs[..]));
      ghost var d1 := data[..];
      CopyBytes(data, na, PackI32(curRel[..]));
      ghost var d2 := data[..];
      CopyBytes(data, na + nr, curButtons[..]);
      CopiesCompose(d0, d1, d2, data[..], PackI32(curAbs[..]), PackI32(curRel[..]), curButtons[..]);
    }
  }
}
