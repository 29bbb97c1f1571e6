/**
 * The client: it maps the ids of an input device's axes and buttons to
 * consecutive slots of a configuration record, keeps a raw report of the
 * slot values up to date as input events arrive, and sends the record and
 * each report to the server as SLIP-framed TLVC envelopes.
 */
module Netstick {
  import opened Bytes
  import opened Wrappers
  import opened Input
  import opened Slip
  import opened Tlvc
  import opened Joystick
  import opened Netstickd

  // ----------------------------------------------------------------------
  // Capability bitmaps

  function Pow2(k: nat): (r: nat)
    ensures 1 <= r
  {
    if k == 0 then 1 else 2 * Pow2(k - 1)
  }

  lemma LowBit(b: uint8)
    ensures ((b as bv8) & 1 != 0) <==> b % 2 == 1
  {
  }

  lemma HalfByte(b: uint8)
    ensures (b as bv8) >> 1 == (b / 2) as bv8
  {
  }

  lemma MaskShift(x: bv8, k: nat)
    requires 1 <= k < 8
    ensures (x & ((1 as bv8) << k) != 0) <==> ((x >> 1) & ((1 as bv8) << (k - 1)) != 0)
  {
  }

  lemma HalfPow(b: uint8, k: nat)
    requires 1 <= k < 8
    ensures b / Pow2(k) == (b / 2) / Pow2(k - 1)
  {
    assert Pow2(1) == 2 && Pow2(2) == 4 && Pow2(3) == 8 && Pow2(4) == 16;
    assert Pow2(5) == 32 && Pow2(6) == 64 && Pow2(7) == 128;
  }

  /** The mask `1 << k` selects bit `k` of a byte. */
  lemma {:induction false} BitTest(b: uint8, k: nat)
    requires k < 8
    ensures ((b as bv8) & ((1 as bv8) << k) != 0) <==> (b / Pow2(k)) % 2 == 1
  {
    if k == 0 {
      LowBit(b);
    } else {
      MaskShift(b as bv8, k);
      HalfByte(b);
      BitTest(b / 2, k - 1);
      HalfPow(b, k);
    }
  }

  /** `is_bit_set`: tests `array[i / 8] & (1 << (i % 8))`. */
  function IsBitSet(bits: seq<uint8>, i: nat): bool
    requires i / 8 < |bits|
  {
    (bits[i / 8] as bv8) & ((1 as bv8) << (i % 8)) != 0
  }

  /** Bit `i` of a bitmap is bit `i % 8` of byte `i / 8`, least significant bit first. */
  lemma IsBitSetMeaning(bits: seq<uint8>, i: nat)
    requires i / 8 < |bits|
    ensures IsBitSet(bits, i) <==> (bits[i / 8] / Pow2(i % 8)) % 2 == 1
  {
    BitTest(bits[i / 8], i % 8);
  }

  // ----------------------------------------------------------------------
  // The id -> slot index map (netstick.c:101-130)

  /** The contents of `js_index_map_t`: per class, the slot of each id below `KEY_MAX`, or -1. */
  datatype IndexMaps = IndexMaps(abs: seq<int>, rel: seq<int>, keys: seq<int>)
  {
    predicate Sized()
    {
      |abs| == KEY_MAX && |rel| == KEY_MAX && |keys| == KEY_MAX
    }
  }

  /** A table in which no id has a slot. */
  function Unmapped(): (r: seq<int>)
    ensures |r| == KEY_MAX && forall id :: 0 <= id < KEY_MAX ==> r[id] == -1
  {
    seq(KEY_MAX, _ => -1)
  }

  /** `js_index_map_get_index` on the tables: classes other than abs, rel and key have no slots. */
  function Lookup(m: IndexMaps, evType: int, id: int): int
    requires m.Sized() && 0 <= id < KEY_MAX
  {
    if evType == EV_ABS as int then m.abs[id]
    else if evType == EV_REL as int then m.rel[id]
    else if evType == EV_KEY as int then m.keys[id]
    else -1
  }

  /** `js_index_map_set` on the tables: a class other than abs, rel and key is ignored. */
  function Store(m: IndexMaps, evType: int, id: int, index: int): (r: IndexMaps)
    requires m.Sized() && 0 <= id < KEY_MAX
    ensures r.Sized()
  {
    if evType == EV_ABS as int then m.(abs := m.abs[id := index])
    else if evType == EV_REL as int then m.(rel := m.rel[id := index])
    else if evType == EV_KEY as int then m.(keys := m.keys[id := index])
    else m
  }

  /** A lookup after a store sees the stored slot at that class and id, and the old tables elsewhere. */
  lemma LookupStore(m: IndexMaps, evType: int, id: int, index: int, evType2: int, id2: int)
    requires m.Sized() && 0 <= id < KEY_MAX && 0 <= id2 < KEY_MAX
    ensures Lookup(Store(m, evType, id, index), evType2, id2) ==
      if evType2 == evType && id2 == id && (evType == EV_ABS as int || evType == EV_REL as int || evType == EV_KEY as int)
      then index else Lookup(m, evType2, id2)
  {
  }

  /** `js_index_map_t` */
  class IndexMap {
    const absAxis: array<int>
    const relAxis: array<int>
    const buttons: array<int>

    ghost predicate Valid()
      reads this
    {
      && absAxis.Length == KEY_MAX && relAxis.Length == KEY_MAX && buttons.Length == KEY_MAX
      && absAxis != relAxis && absAxis != buttons && relAxis != buttons
    }

    function State(): (m: IndexMaps)
      reads this, absAxis, relAxis, buttons
      requires Valid()
      ensures m.Sized()
    {
      IndexMaps(absAxis[..], relAxis[..], buttons[..])
    }

    /** The `malloc` of the map: its contents are undetermined until `Init`. */
    constructor Create()
      ensures Valid() && fresh(absAxis) && fresh(relAxis) && fresh(buttons)
    {
      absAxis := new int[KEY_MAX];
      relAxis := new int[KEY_MAX];
      buttons := new int[KEY_MAX];
    }

    /** `js_index_map_init`: every id of every class maps to -1. */
    method Init()
      requires Valid()
      modifies absAxis, relAxis, buttons
      ensures Valid() && State() == IndexMaps(Unmapped(), Unmapped(), Unmapped())
    {
      for i := 0 to KEY_MAX
        invariant forall j :: 0 <= j < i ==> absAxis[j] == -1 && relAxis[j] == -1 && buttons[j] == -1
      {
        absAxis[i] := -1;
        relAxis[i] := -1;
        buttons[i] := -1;
      }
      assert absAxis[..] == Unmapped() && relAxis[..] == Unmapped() && buttons[..] == Unmapped();
    }

    /** `js_index_map_set` */
    method Set(evType: int, id: int, index: int)
      requires Valid() && 0 <= id < KEY_MAX
      modifies absAxis, relAxis, buttons
      ensures Valid() && State() == Store(old(State()), evType, id, index)
    {
      if evType == EV_ABS as int {
        absAxis[id] := index;
      } else if evType == EV_REL as int {
        relAxis[id] := index;
      } else if evType == EV_KEY as int {
        buttons[id] := index;
      }
    }

    /** `js_index_map_get_index` */
    function GetIndex(evType: int, id: int): (r: int)
      reads this, absAxis, relAxis, buttons
      requires Valid() && 0 <= id < KEY_MAX
      ensures r == Lookup(State(), evType, id)
    {
      if evType == EV_ABS as int then absAxis[id]
      else if evType == EV_REL as int then relAxis[id]
      else if evType == EV_KEY as int then buttons[id]
      else -1
    }
  }

  // ----------------------------------------------------------------------
  // Enumeration of the device's capabilities (netstick.c:164-218)

  /** Bytes per capability bitmap row, `(KEY_MAX + 7) / 8`. */
  const BITMAP_BYTES: nat := (KEY_MAX + 7) / 8

  /** The resolution the client gives every abs axis. */
  const ABS_RESOLUTION: int32 := 100

  /** `abs_axis_info_t`, in the field order the client declares. */
  datatype AbsAxisInfo = AbsAxisInfo(value: int32, minimum: int32, maximum: int32, flat: int32, fuzz: int32)

  predicate Increasing(s: seq<nat>)
  {
    forall k, l :: 0 <= k < l < |s| ==> s[k] < s[l]
  }

  /** The ids below `n` whose bit is set in `row`, ascending. */
  function SetBits(row: seq<uint8>, n: nat): seq<nat>
    requires n <= 8 * |row|
  {
    if n == 0 then []
    else SetBits(row, n - 1) + if IsBitSet(row, n - 1) then [n - 1] else []
  }

  /** The ids listed are exactly the set bits below `n`, in ascending order. */
  lemma SetBitsSpec(row: seq<uint8>, n: nat)
    requires n <= 8 * |row|
    ensures var r := SetBits(row, n);
      && (forall k :: 0 <= k < |r| ==> r[k] < n && IsBitSet(row, r[k]))
      && (forall j :: 0 <= j < n && IsBitSet(row, j) ==> j in r)
      && Increasing(r)
  {
    SetBitsSound(row, n);
    SetBitsComplete(row, n);
    SetBitsIncreasing(row, n);
  }

  lemma {:induction false} SetBitsSound(row: seq<uint8>, n: nat)
    requires n <= 8 * |row|
    ensures forall k :: 0 <= k < |SetBits(row, n)| ==> SetBits(row, n)[k] < n && IsBitSet(row, SetBits(row, n)[k])
  {
    if n > 0 {
      SetBitsSound(row, n - 1);
      var p := SetBits(row, n - 1);
      var tail: seq<nat> := if IsBitSet(row, n - 1) then [n - 1] else [];
      assert SetBits(row, n) == p + tail;
      forall k | 0 <= k < |p + tail|
        ensures (p + tail)[k] < n && IsBitSet(row, (p + tail)[k])
      {
        if k < |p| {
          assert (p + tail)[k] == p[k];
        } else {
          assert (p + tail)[k] == n - 1;
        }
      }
    }
  }

  lemma {:induction false} SetBitsComplete(row: seq<uint8>, n: nat)
    requires n <= 8 * |row|
    ensures forall j :: 0 <= j < n && IsBitSet(row, j) ==> j in SetBits(row, n)
  {
    if n > 0 {
      SetBitsComplete(row, n - 1);
      var p := SetBits(row, n - 1);
      var tail: seq<nat> := if IsBitSet(row, n - 1) then [n - 1] else [];
      assert SetBits(row, n) == p + tail;
      forall j | 0 <= j < n && IsBitSet(row, j)
        ensures j in p + tail
      {
        if j < n - 1 {
          assert j in p;
        } else {
          assert (p + tail)[|p|] == j;
        }
      }
    }
  }

  lemma {:induction false} SetBitsIncreasing(row: seq<uint8>, n: nat)
    requires n <= 8 * |row|
    ensures Increasing(SetBits(row, n))
  {
    if n > 0 {
      SetBitsIncreasing(row, n - 1);
      SetBitsSound(row, n - 1);
      var p := SetBits(row, n - 1);
      var tail: seq<nat> := if IsBitSet(row, n - 1) then [n - 1] else [];
      assert SetBits(row, n) == p + tail;
      forall k, l | 0 <= k < l < |p + tail|
        ensures (p + tail)[k] < (p + tail)[l]
      {
        assert (p + tail)[k] == p[k];
        if l >= |p| {
          assert (p + tail)[l] == n - 1;
        } else {
          assert (p + tail)[l] == p[l];
        }
      }
    }
  }

  /** An increasing sequence of ids below `n` has at most `n` of them. */
  lemma {:induction false} IncreasingBound(s: seq<nat>, n: nat)
    requires Increasing(s) && forall k :: 0 <= k < |s| ==> s[k] < n
    ensures |s| <= n
    decreases |s|
  {
    if s != [] {
      var last := s[|s| - 1];
      IncreasingBound(s[..|s| - 1], last);
    }
  }

  /** `|ids|` ids, each below `cap`. */
  predicate IdsFit(ids: seq<nat>, cap: nat)
  {
    |ids| <= cap && forall k :: 0 <= k < |ids| ==> ids[k] < cap
  }

  /** The kernel reports no id of the class at or past `cap`. */
  predicate NoBitsFrom(row: seq<uint8>, cap: nat)
    requires |row| == BITMAP_BYTES
  {
    forall j :: cap <= j < KEY_MAX ==> !IsBitSet(row, j)
  }

  lemma FitSnoc(ids: seq<nat>, j: nat, cap: nat)
    requires IdsFit(ids + [j], cap)
    ensures |ids| < cap && j < cap
  {
    assert (ids + [j])[|ids|] == j;
  }

  lemma SetBitsFit(row: seq<uint8>, n: nat, cap: nat)
    requires |row| == BITMAP_BYTES && n <= KEY_MAX && cap <= KEY_MAX && NoBitsFrom(row, cap)
    ensures IdsFit(SetBits(row, n), cap)
  {
    SetBitsSpec(row, n);
    IncreasingBound(SetBits(row, n), cap);
  }

  /**
   * The bitmaps `EVIOCGBIT` fills: row 0 the supported classes, row `i`
   * the supported ids of class `i`. The kernel never sets an abs or rel id
   * past that class's code count.
   */
  predicate Capabilities(bits: seq<seq<uint8>>)
  {
    && |bits| == EV_MAX
    && (forall i :: 0 <= i < EV_MAX ==> |bits[i]| == BITMAP_BYTES)
    && NoBitsFrom(bits[EV_ABS], ABS_CNT) && NoBitsFrom(bits[EV_REL], REL_CNT)
  }

  /** The ids of class `t` the enumeration visits, ascending; none when the class is unsupported. */
  function ClassIds(bits: seq<seq<uint8>>, t: nat): (r: seq<nat>)
    requires Capabilities(bits) && 0 < t <= EV_ABS as int
    ensures t == EV_ABS as int ==> IdsFit(r, ABS_CNT)
    ensures t == EV_REL as int ==> IdsFit(r, REL_CNT)
    ensures t == EV_KEY as int ==> IdsFit(r, KEY_MAX)
  {
    SetBitsFit(bits[t], KEY_MAX, if t == EV_ABS as int then ABS_CNT else if t == EV_REL as int then REL_CNT else KEY_MAX);
    if IsBitSet(bits[0], t) then SetBits(bits[t], KEY_MAX) else []
  }

  /** `strncpy(dst, src, n)`: the bytes of `src` up to its first NUL, then NULs, `n` in all. */
  function StrNCpy(src: seq<uint8>, n: nat): (r: seq<uint8>)
    requires n <= |src|
    ensures |r| == n
    ensures forall k :: 0 <= k < n ==> r[k] == if 0 in src[..k] then 0 else src[k]
  {
    if n == 0 then []
    else
      var p := StrNCpy(src, n - 1);
      assert src[..n] == src[..n - 1] + [src[n - 1]];
      p + [if 0 in src[..n - 1] then 0 else src[n - 1]]
  }

  /** `js_config_t config = {}` */
  function ZeroConfig(): (c: JsConfig)
    ensures c.WellFormed() && c.absAxisCount == 0 && c.relAxisCount == 0 && c.buttonCount == 0
  {
    var u: uint32 := 0;
    var z: int32 := 0;
    JsConfig(Zeros(256), 0, 0, 0, 0, 0,
             seq(ABS_CNT, _ => u), seq(ABS_CNT, _ => z), seq(ABS_CNT, _ => z),
             seq(ABS_CNT, _ => z), seq(ABS_CNT, _ => z), seq(ABS_CNT, _ => z),
             seq(REL_CNT, _ => u), seq(KEY_CNT, _ => u))
  }

  /** The abs slots filled for `ids`: the id, its range, fuzz and flat from `EVIOCGABS`, resolution 100. */
  function WithAbs(c: JsConfig, ids: seq<nat>, info: seq<AbsAxisInfo>): (r: JsConfig)
    requires c.WellFormed() && IdsFit(ids, ABS_CNT) && |info| == ABS_CNT
    ensures r.WellFormed()
  {
    var n := |ids|;
    c.(absAxisCount := n as int32,
       absAxis := seq(ABS_CNT, k requires 0 <= k < ABS_CNT => if k < n then ids[k] as uint32 else c.absAxis[k]),
       absAxisMin := seq(ABS_CNT, k requires 0 <= k < ABS_CNT => if k < n then info[ids[k]].minimum else c.absAxisMin[k]),
       absAxisMax := seq(ABS_CNT, k requires 0 <= k < ABS_CNT => if k < n then info[ids[k]].maximum else c.absAxisMax[k]),
       absAxisFuzz := seq(ABS_CNT, k requires 0 <= k < ABS_CNT => if k < n then info[ids[k]].fuzz else c.absAxisFuzz[k]),
       absAxisFlat := seq(ABS_CNT, k requires 0 <= k < ABS_CNT => if k < n then info[ids[k]].flat else c.absAxisFlat[k]),
       absAxisResolution := seq(ABS_CNT, k requires 0 <= k < ABS_CNT => if k < n then ABS_RESOLUTION else c.absAxisResolution[k]))
  }

  /** The rel slots filled for `ids`. */
  function WithRel(c: JsConfig, ids: seq<nat>): (r: JsConfig)
    requires c.WellFormed() && IdsFit(ids, REL_CNT)
    ensures r.WellFormed()
  {
    var n := |ids|;
    c.(relAxisCount := n as int32,
       relAxis := seq(REL_CNT, k requires 0 <= k < REL_CNT => if k < n then ids[k] as uint32 else c.relAxis[k]))
  }

  /** The button slots filled for `ids`. */
  function WithKeys(c: JsConfig, ids: seq<nat>): (r: JsConfig)
    requires c.WellFormed() && IdsFit(ids, KEY_MAX)
    ensures r.WellFormed()
  {
    var n := |ids|;
    c.(buttonCount := n as int32,
       buttons := seq(KEY_CNT, k requires 0 <= k < KEY_CNT => if k < n then ids[k] as uint32 else c.buttons[k]))
  }

  /** The record after the classes below `i` have been scanned (key is 1, rel 2, abs 3). */
  function Scanned(c0: JsConfig, bits: seq<seq<uint8>>, info: seq<AbsAxisInfo>, i: nat): (r: JsConfig)
    requires c0.WellFormed() && Capabilities(bits) && |info| == ABS_CNT
    ensures r.WellFormed()
  {
    var k := if EV_KEY as int < i && IsBitSet(bits[0], EV_KEY as int) then WithKeys(c0, ClassIds(bits, EV_KEY as int)) else c0;
    var r := if EV_REL as int < i && IsBitSet(bits[0], EV_REL as int) then WithRel(k, ClassIds(bits, EV_REL as int)) else k;
    if EV_ABS as int < i && IsBitSet(bits[0], EV_ABS as int) then WithAbs(r, ClassIds(bits, EV_ABS as int), info) else r
  }

  /** The table giving each id its position in `ids`, -1 for the others. */
  function Slots(ids: seq<nat>): (r: seq<int>)
    ensures |r| == KEY_MAX
  {
    seq(KEY_MAX, x requires 0 <= x < KEY_MAX => SlotOf(ids, x))
  }

  /** The position of `x` in `ids`, or -1. */
  function SlotOf(ids: seq<nat>, x: nat): (r: int)
    ensures -1 <= r < |ids|
    ensures r == -1 <==> x !in ids
    ensures 0 <= r ==> ids[r] == x
  {
    if ids == [] then -1
    else if ids[|ids| - 1] == x then |ids| - 1
    else SlotOf(ids[..|ids| - 1], x)
  }

  /** The index map after the classes below `i` have been scanned. */
  function ScannedMaps(bits: seq<seq<uint8>>, i: nat): (m: IndexMaps)
    requires Capabilities(bits)
    ensures m.Sized()
  {
    IndexMaps(if EV_ABS as int < i then Slots(ClassIds(bits, EV_ABS as int)) else Unmapped(),
              if EV_REL as int < i then Slots(ClassIds(bits, EV_REL as int)) else Unmapped(),
              if EV_KEY as int < i then Slots(ClassIds(bits, EV_KEY as int)) else Unmapped())
  }

  /** The record the client builds for a device: identity, name and the slots of every class. */
  function ClientConfig(vid: uint16, pid: uint16, devName: seq<uint8>, bits: seq<seq<uint8>>,
                        info: seq<AbsAxisInfo>): (c: JsConfig)
    requires |devName| == 256 && Capabilities(bits) && |info| == ABS_CNT
    ensures c.WellFormed()
  {
    Scanned(ZeroConfig().(vid := vid, pid := pid, name := StrNCpy(devName, 256)), bits, info, EV_MAX)
  }

  /** The index map the client builds for a device. */
  function ClientMaps(bits: seq<seq<uint8>>): (m: IndexMaps)
    requires Capabilities(bits)
    ensures m.Sized()
  {
    ScannedMaps(bits, EV_MAX)
  }

  /** The effect of scanning class `t` with the ids `ids`. */
  function ScanOf(c: JsConfig, t: nat, ids: seq<nat>, info: seq<AbsAxisInfo>): (r: JsConfig)
    requires c.WellFormed() && |info| == ABS_CNT
    requires t == EV_ABS as int ==> IdsFit(ids, ABS_CNT)
    requires t == EV_REL as int ==> IdsFit(ids, REL_CNT)
    requires t == EV_KEY as int ==> IdsFit(ids, KEY_MAX)
  {
    if t == EV_ABS as int then WithAbs(c, ids, info)
    else if t == EV_REL as int then WithRel(c, ids)
    else if t == EV_KEY as int then WithKeys(c, ids)
    else c
  }

  function ScanMapsOf(m: IndexMaps, t: nat, ids: seq<nat>): (r: IndexMaps)
    requires m.Sized()
    ensures r.Sized()
  {
    if t == EV_ABS as int then m.(abs := Slots(ids))
    else if t == EV_REL as int then m.(rel := Slots(ids))
    else if t == EV_KEY as int then m.(keys := Slots(ids))
    else m
  }

  lemma SlotsNone()
    ensures Slots([]) == Unmapped()
  {
  }

  /** Scanning no id leaves an empty class as it is. */
  lemma ScanNothing(c: JsConfig, t: nat, info: seq<AbsAxisInfo>, m: IndexMaps)
    requires c.WellFormed() && |info| == ABS_CNT && m.Sized()
    requires t == EV_ABS as int ==> c.absAxisCount == 0 && m.abs == Unmapped()
    requires t == EV_REL as int ==> c.relAxisCount == 0 && m.rel == Unmapped()
    requires t == EV_KEY as int ==> c.buttonCount == 0 && m.keys == Unmapped()
    ensures ScanOf(c, t, [], info) == c && ScanMapsOf(m, t, []) == m
  {
    SlotsNone();
    if t == EV_ABS as int {
      var r := WithAbs(c, [], info);
      assert r.absAxis == c.absAxis && r.absAxisMin == c.absAxisMin && r.absAxisMax == c.absAxisMax;
      assert r.absAxisFuzz == c.absAxisFuzz && r.absAxisFlat == c.absAxisFlat;
      assert r.absAxisResolution == c.absAxisResolution;
    } else if t == EV_REL as int {
      assert WithRel(c, []).relAxis == c.relAxis;
    } else if t == EV_KEY as int {
      assert WithKeys(c, []).buttons == c.buttons;
    }
  }

  lemma SlotsSnoc(ids: seq<nat>, j: nat)
    requires j < KEY_MAX
    ensures Slots(ids + [j]) == Slots(ids)[j := |ids|]
  {
    assert (ids + [j])[..|ids|] == ids;
  }

  /** Appending an abs id fills slot `|ids|` and nothing else. */
  lemma WithAbsSnoc(c: JsConfig, ids: seq<nat>, j: nat, info: seq<AbsAxisInfo>)
    requires c.WellFormed() && IdsFit(ids, ABS_CNT) && |ids| < ABS_CNT && j < ABS_CNT && |info| == ABS_CNT
    ensures IdsFit(ids + [j], ABS_CNT)
    ensures var p := WithAbs(c, ids, info);
      var n := |ids|;
      var a := info[j];
      WithAbs(c, ids + [j], info) ==
        p.(absAxisMin := p.absAxisMin[n := a.minimum], absAxisMax := p.absAxisMax[n := a.maximum],
           absAxisFuzz := p.absAxisFuzz[n := a.fuzz], absAxisFlat := p.absAxisFlat[n := a.flat],
           absAxisResolution := p.absAxisResolution[n := ABS_RESOLUTION],
           absAxis := p.absAxis[n := j as uint32], absAxisCount := (n + 1) as int32)
  {
    assert forall k :: 0 <= k < |ids| ==> (ids + [j])[k] == ids[k];
    var p := WithAbs(c, ids, info);
    var q := WithAbs(c, ids + [j], info);
    var n := |ids|;
    assert q.absAxis == p.absAxis[n := j as uint32];
    assert q.absAxisMin == p.absAxisMin[n := info[j].minimum];
    assert q.absAxisMax == p.absAxisMax[n := info[j].maximum];
    assert q.absAxisFuzz == p.absAxisFuzz[n := info[j].fuzz];
    assert q.absAxisFlat == p.absAxisFlat[n := info[j].flat];
    assert q.absAxisResolution == p.absAxisResolution[n := ABS_RESOLUTION];
  }

  lemma WithRelSnoc(c: JsConfig, ids: seq<nat>, j: nat)
    requires c.WellFormed() && IdsFit(ids, REL_CNT) && |ids| < REL_CNT && j < REL_CNT
    ensures IdsFit(ids + [j], REL_CNT)
    ensures var p := WithRel(c, ids);
      WithRel(c, ids + [j]) == p.(relAxis := p.relAxis[|ids| := j as uint32], relAxisCount := (|ids| + 1) as int32)
  {
    assert forall k :: 0 <= k < |ids| ==> (ids + [j])[k] == ids[k];
    assert WithRel(c, ids + [j]).relAxis == WithRel(c, ids).relAxis[|ids| := j as uint32];
  }

  lemma WithKeysSnoc(c: JsConfig, ids: seq<nat>, j: nat)
    requires c.WellFormed() && IdsFit(ids, KEY_MAX) && |ids| < KEY_MAX && j < KEY_MAX
    ensures IdsFit(ids + [j], KEY_MAX)
    ensures var p := WithKeys(c, ids);
      WithKeys(c, ids + [j]) == p.(buttons := p.buttons[|ids| := j as uint32], buttonCount := (|ids| + 1) as int32)
  {
    assert forall k :: 0 <= k < |ids| ==> (ids + [j])[k] == ids[k];
    assert WithKeys(c, ids + [j]).buttons == WithKeys(c, ids).buttons[|ids| := j as uint32];
  }

  /** The abs branch of the enumeration's inner loop: id `j` gets the next abs slot. */
  method AssignAbs(indexMap: IndexMap, j: nat, info: seq<AbsAxisInfo>, config: JsConfig,
                   ghost c: JsConfig, ghost ids: seq<nat>) returns (r: JsConfig)
    requires indexMap.Valid() && c.WellFormed() && |info| == ABS_CNT
    requires IdsFit(ids, ABS_CNT) && |ids| < ABS_CNT && j < ABS_CNT
    requires config == WithAbs(c, ids, info)
    modifies indexMap.absAxis, indexMap.relAxis, indexMap.buttons
    ensures IdsFit(ids + [j], ABS_CNT)
    ensures r == WithAbs(c, ids + [j], info)
    ensures indexMap.State() == old(indexMap.State()).(abs := old(indexMap.State()).abs[j := |ids|])
  {
    WithAbsSnoc(c, ids, j, info);
    var n := config.absAxisCount as int;
    var a := info[j];
    r := config.(absAxisMin := config.absAxisMin[n := a.minimum]);
    r := r.(absAxisMax := r.absAxisMax[n := a.maximum]);
    r := r.(absAxisFuzz := r.absAxisFuzz[n := a.fuzz]);
    r := r.(absAxisFlat := r.absAxisFlat[n := a.flat]);
    r := r.(absAxisResolution := r.absAxisResolution[n := ABS_RESOLUTION]);
    r := r.(absAxis := r.absAxis[n := j as uint32]);
    indexMap.Set(EV_ABS as int, j, n);
    r := r.(absAxisCount := (n + 1) as int32);
  }

  /** The rel branch: `relAxis[relAxisCount++] = j`. */
  method AssignRel(indexMap: IndexMap, j: nat, config: JsConfig, ghost c: JsConfig, ghost ids: seq<nat>)
    returns (r: JsConfig)
    requires indexMap.Valid() && c.WellFormed()
    requires IdsFit(ids, REL_CNT) && |ids| < REL_CNT && j < REL_CNT
    requires config == WithRel(c, ids)
    modifies indexMap.absAxis, indexMap.relAxis, indexMap.buttons
    ensures IdsFit(ids + [j], REL_CNT)
    ensures r == WithRel(c, ids + [j])
    ensures indexMap.State() == old(indexMap.State()).(rel := old(indexMap.State()).rel[j := |ids|])
  {
    WithRelSnoc(c, ids, j);
    var n := config.relAxisCount as int;
    indexMap.Set(EV_REL as int, j, n);
    r := config.(relAxis := config.relAxis[n := j as uint32], relAxisCount := (n + 1) as int32);
  }

  /** The key branch: `buttons[buttonCount++] = j`. */
  method AssignKey(indexMap: IndexMap, j: nat, config: JsConfig, ghost c: JsConfig, ghost ids: seq<nat>)
    returns (r: JsConfig)
    requires indexMap.Valid() && c.WellFormed()
    requires IdsFit(ids, KEY_MAX) && |ids| < KEY_MAX && j < KEY_MAX
    requires config == WithKeys(c, ids)
    modifies indexMap.absAxis, indexMap.relAxis, indexMap.buttons
    ensures IdsFit(ids + [j], KEY_MAX)
    ensures r == WithKeys(c, ids + [j])
    ensures indexMap.State() == old(indexMap.State()).(keys := old(indexMap.State()).keys[j := |ids|])
  {
    WithKeysSnoc(c, ids, j);
    var n := config.buttonCount as int;
    indexMap.Set(EV_KEY as int, j, n);
    r := config.(buttons := config.buttons[n := j as uint32], buttonCount := (n + 1) as int32);
  }

  /** The cap on the ids of class `t`. */
  function Cap(t: nat): nat
  {
    if t == EV_ABS as int then ABS_CNT else if t == EV_REL as int then REL_CNT else KEY_MAX
  }

  /**
   * The inner loop of the enumeration over the ids of class `t`: the k-th
   * supported id (ascending) gets slot k of the record and of the map. The
   * source tests the class inside the loop over the ids; here the test
   * picks one loop per class, which visits the ids in the same order.
   */
  method ScanClass(indexMap: IndexMap, t: nat, row: seq<uint8>, info: seq<AbsAxisInfo>, c: JsConfig)
    returns (config: JsConfig)
    requires indexMap.Valid() && c.WellFormed() && |row| == BITMAP_BYTES && |info| == ABS_CNT
    requires NoBitsFrom(row, Cap(t))
    requires t == EV_ABS as int ==> c.absAxisCount == 0 && indexMap.State().abs == Unmapped()
    requires t == EV_REL as int ==> c.relAxisCount == 0 && indexMap.State().rel == Unmapped()
    requires t == EV_KEY as int ==> c.buttonCount == 0 && indexMap.State().keys == Unmapped()
    modifies indexMap.absAxis, indexMap.relAxis, indexMap.buttons
    ensures indexMap.Valid() && IdsFit(SetBits(row, KEY_MAX), Cap(t))
    ensures config == ScanOf(c, t, SetBits(row, KEY_MAX), info)
    ensures indexMap.State() == ScanMapsOf(old(indexMap.State()), t, SetBits(row, KEY_MAX))
  {
    SetBitsFit(row, KEY_MAX, Cap(t));
    if t == EV_ABS as int {
      config := ScanAbs(indexMap, row, info, c);
    } else if t == EV_REL as int {
      config := ScanRel(indexMap, row, c);
    } else if t == EV_KEY as int {
      config := ScanKeys(indexMap, row, c);
    } else {
      config := c;
    }
  }

  method ScanAbs(indexMap: IndexMap, row: seq<uint8>, info: seq<AbsAxisInfo>, c: JsConfig)
    returns (config: JsConfig)
    requires indexMap.Valid() && c.WellFormed() && |row| == BITMAP_BYTES && |info| == ABS_CNT
    requires NoBitsFrom(row, ABS_CNT) && c.absAxisCount == 0 && indexMap.State().abs == Unmapped()
    modifies indexMap.absAxis, indexMap.relAxis, indexMap.buttons
    ensures IdsFit(SetBits(row, KEY_MAX), ABS_CNT)
    ensures config == WithAbs(c, SetBits(row, KEY_MAX), info)
    ensures indexMap.State() == old(indexMap.State()).(abs := Slots(SetBits(row, KEY_MAX)))
  {
    config := c;
    ghost var m0 := indexMap.State();
    ScanNothing(c, EV_ABS as int, info, m0);
    for j := 0 to KEY_MAX
      invariant IdsFit(SetBits(row, j), ABS_CNT)
      invariant config == WithAbs(c, SetBits(row, j), info)
      invariant indexMap.State() == m0.(abs := Slots(SetBits(row, j)))
    {
      config := VisitAbs(indexMap, row, j, info, config, c, m0);
    }
  }

  /** One more id of the scan: the facts each turn of the three id loops needs. */
  lemma SetBitsStep(row: seq<uint8>, j: nat, cap: nat)
    requires |row| == BITMAP_BYTES && j < KEY_MAX && cap <= KEY_MAX && NoBitsFrom(row, cap)
    ensures IdsFit(SetBits(row, j + 1), cap)
    ensures IsBitSet(row, j) ==> var ids := SetBits(row, j);
      && SetBits(row, j + 1) == ids + [j] && |ids| < cap && j < cap
      && Slots(SetBits(row, j + 1)) == Slots(ids)[j := |ids|]
    ensures !IsBitSet(row, j) ==> SetBits(row, j + 1) == SetBits(row, j)
  {
    var ids := SetBits(row, j);
    SetBitsFit(row, j + 1, cap);
    if IsBitSet(row, j) {
      assert SetBits(row, j + 1) == ids + [j];
      FitSnoc(ids, j, cap);
      SlotsSnoc(ids, j);
    } else {
      assert SetBits(row, j + 1) == ids;
    }
  }

  /** One turn of the loop over the abs ids. */
  method VisitAbs(indexMap: IndexMap, row: seq<uint8>, j: nat, info: seq<AbsAxisInfo>, config: JsConfig,
                  ghost c: JsConfig, ghost m0: IndexMaps)
    returns (r: JsConfig)
    requires indexMap.Valid() && c.WellFormed() && |row| == BITMAP_BYTES && j < KEY_MAX && |info| == ABS_CNT
    requires NoBitsFrom(row, ABS_CNT)
    requires IdsFit(SetBits(row, j), ABS_CNT) && config == WithAbs(c, SetBits(row, j), info)
    requires indexMap.State() == m0.(abs := Slots(SetBits(row, j)))
    modifies indexMap.absAxis, indexMap.relAxis, indexMap.buttons
    ensures IdsFit(SetBits(row, j + 1), ABS_CNT) && r == WithAbs(c, SetBits(row, j + 1), info)
    ensures indexMap.State() == m0.(abs := Slots(SetBits(row, j + 1)))
  {
    ghost var ids := SetBits(row, j);
    SetBitsStep(row, j, ABS_CNT);
    if IsBitSet(row, j) {
      r := AssignAbs(indexMap, j, info, config, c, ids);
    } else {
      r := config;
    }
  }

  method ScanRel(indexMap: IndexMap, row: seq<uint8>, c: JsConfig) returns (config: JsConfig)
    requires indexMap.Valid() && c.WellFormed() && |row| == BITMAP_BYTES
    requires NoBitsFrom(row, REL_CNT) && c.relAxisCount == 0 && indexMap.State().rel == Unmapped()
    modifies indexMap.absAxis, indexMap.relAxis, indexMap.buttons
    ensures IdsFit(SetBits(row, KEY_MAX), REL_CNT)
    ensures config == WithRel(c, SetBits(row, KEY_MAX))
    ensures indexMap.State() == old(indexMap.State()).(rel := Slots(SetBits(row, KEY_MAX)))
  {
    config := c;
    ghost var m0 := indexMap.State();
    ScanNothing(c, EV_REL as int, seq(ABS_CNT, _ => AbsAxisInfo(0, 0, 0, 0, 0)), m0);
    for j := 0 to KEY_MAX
      invariant IdsFit(SetBits(row, j), REL_CNT)
      invariant config == WithRel(c, SetBits(row, j))
      invariant indexMap.State() == m0.(rel := Slots(SetBits(row, j)))
    {
      config := VisitRel(indexMap, row, j, config, c, m0);
    }
  }

  /** One turn of the loop over the rel ids. */
  method VisitRel(indexMap: IndexMap, row: seq<uint8>, j: nat, config: JsConfig, ghost c: JsConfig, ghost m0: IndexMaps)
    returns (r: JsConfig)
    requires indexMap.Valid() && c.WellFormed() && |row| == BITMAP_BYTES && j < KEY_MAX && NoBitsFrom(row, REL_CNT)
    requires IdsFit(SetBits(row, j), REL_CNT) && config == WithRel(c, SetBits(row, j))
    requires indexMap.State() == m0.(rel := Slots(SetBits(row, j)))
    modifies indexMap.absAxis, indexMap.relAxis, indexMap.buttons
    ensures IdsFit(SetBits(row, j + 1), REL_CNT) && r == WithRel(c, SetBits(row, j + 1))
    ensures indexMap.State() == m0.(rel := Slots(SetBits(row, j + 1)))
  {
    ghost var ids := SetBits(row, j);
    SetBitsStep(row, j, REL_CNT);
    if IsBitSet(row, j) {
      r := AssignRel(indexMap, j, config, c, ids);
    } else {
      r := config;
    }
  }

  method ScanKeys(indexMap: IndexMap, row: seq<uint8>, c: JsConfig) returns (config: JsConfig)
    requires indexMap.Valid() && c.WellFormed() && |row| == BITMAP_BYTES
    requires c.buttonCount == 0 && indexMap.State().keys == Unmapped()
    modifies indexMap.absAxis, indexMap.relAxis, indexMap.buttons
    ensures IdsFit(SetBits(row, KEY_MAX), KEY_MAX)
    ensures config == WithKeys(c, SetBits(row, KEY_MAX))
    ensures indexMap.State() == old(indexMap.State()).(keys := Slots(SetBits(row, KEY_MAX)))
  {
    config := c;
    ghost var m0 := indexMap.State();
    ScanNothing(c, EV_KEY as int, seq(ABS_CNT, _ => AbsAxisInfo(0, 0, 0, 0, 0)), m0);
    for j := 0 to KEY_MAX
      invariant IdsFit(SetBits(row, j), KEY_MAX)
      invariant config == WithKeys(c, SetBits(row, j))
      invariant indexMap.State() == m0.(keys := Slots(SetBits(row, j)))
    {
      config := VisitKey(indexMap, row, j, config, c, m0);
    }
  }

  /** One turn of the loop over the key ids: id `j` gets the next slot when its bit is set. */
  method VisitKey(indexMap: IndexMap, row: seq<uint8>, j: nat, config: JsConfig, ghost c: JsConfig, ghost m0: IndexMaps)
    returns (r: JsConfig)
    requires indexMap.Valid() && c.WellFormed() && |row| == BITMAP_BYTES && j < KEY_MAX
    requires IdsFit(SetBits(row, j), KEY_MAX) && config == WithKeys(c, SetBits(row, j))
    requires indexMap.State() == m0.(keys := Slots(SetBits(row, j)))
    modifies indexMap.absAxis, indexMap.relAxis, indexMap.buttons
    ensures IdsFit(SetBits(row, j + 1), KEY_MAX) && r == WithKeys(c, SetBits(row, j + 1))
    ensures indexMap.State() == m0.(keys := Slots(SetBits(row, j + 1)))
  {
    ghost var ids := SetBits(row, j);
    SetBitsStep(row, j, KEY_MAX);
    if IsBitSet(row, j) {
      r := AssignKey(indexMap, j, config, c, ids);
    } else {
      r := config;
    }
  }

  /** One step of the outer loop of the enumeration. */
  lemma ScannedStep(c0: JsConfig, bits: seq<seq<uint8>>, info: seq<AbsAxisInfo>, i: nat)
    requires c0.WellFormed() && Capabilities(bits) && |info| == ABS_CNT && i < EV_MAX
    requires c0.absAxisCount == 0 && c0.relAxisCount == 0 && c0.buttonCount == 0
    ensures var c := Scanned(c0, bits, info, i);
      && (i == EV_ABS as int ==> c.absAxisCount == 0)
      && (i == EV_REL as int ==> c.relAxisCount == 0)
      && (i == EV_KEY as int ==> c.buttonCount == 0)
    ensures 0 < i <= EV_ABS as int ==> IdsFit(SetBits(bits[i], KEY_MAX), Cap(i))
    ensures Scanned(c0, bits, info, i + 1) ==
      if 0 < i <= EV_ABS as int && IsBitSet(bits[0], i)
      then ScanOf(Scanned(c0, bits, info, i), i, SetBits(bits[i], KEY_MAX), info)
      else Scanned(c0, bits, info, i)
    ensures ScannedMaps(bits, i + 1) ==
      if 0 < i <= EV_ABS as int && IsBitSet(bits[0], i)
      then ScanMapsOf(ScannedMaps(bits, i), i, SetBits(bits[i], KEY_MAX))
      else ScannedMaps(bits, i)
  {
    SlotsNone();
    if 0 < i <= EV_ABS as int {
      SetBitsFit(bits[i], KEY_MAX, Cap(i));
    }
  }

  /** One turn of the enumeration's outer loop, for event class `i`; EV_SYN is skipped. */
  method VisitClass(indexMap: IndexMap, i: nat, bits: seq<seq<uint8>>, info: seq<AbsAxisInfo>,
                    config: JsConfig, ghost c0: JsConfig) returns (r: JsConfig)
    requires indexMap.Valid() && Capabilities(bits) && |info| == ABS_CNT && i < EV_MAX
    requires c0.WellFormed() && c0.absAxisCount == 0 && c0.relAxisCount == 0 && c0.buttonCount == 0
    requires config == Scanned(c0, bits, info, i) && indexMap.State() == ScannedMaps(bits, i)
    modifies indexMap.absAxis, indexMap.relAxis, indexMap.buttons
    ensures r == Scanned(c0, bits, info, i + 1) && indexMap.State() == ScannedMaps(bits, i + 1)
  {
    ScannedStep(c0, bits, info, i);
    r := config;
    if IsBitSet(bits[0], i) {
      if i == EV_SYN as int {
        return;
      }
      r := ScanClass(indexMap, i, bits[i], info, config);
    }
  }

  /**
   * The set-up part of `jsproxy_client_uinput`: a fresh index map, cleared,
   * and the configuration record filled from the device's identity, name
   * and capability bitmaps; EV_SYN is skipped.
   */
  method Enumerate(vid: uint16, pid: uint16, devName: seq<uint8>, bits: seq<seq<uint8>>,
                   info: seq<AbsAxisInfo>) returns (config: JsConfig, indexMap: IndexMap)
    requires |devName| == 256 && Capabilities(bits) && |info| == ABS_CNT
    ensures fresh(indexMap) && fresh(indexMap.absAxis) && fresh(indexMap.relAxis) && fresh(indexMap.buttons) && indexMap.Valid()
    ensures config == ClientConfig(vid, pid, devName, bits, info)
    ensures indexMap.State() == ClientMaps(bits)
  {
    indexMap := new IndexMap.Create();
    indexMap.Init();
    config := ZeroConfig();
    config := config.(pid := pid, vid := vid);
    config := config.(name := StrNCpy(devName, 256));
    ghost var c0 := config;
    assert c0 == ZeroConfig().(vid := vid, pid := pid, name := StrNCpy(devName, 256));
    for i := 0 to EV_MAX
      invariant indexMap.Valid()
      invariant config == Scanned(c0, bits, info, i)
      invariant indexMap.State() == ScannedMaps(bits, i)
    {
      config := VisitClass(indexMap, i, bits, info, config, c0);
    }
  }

  /** Position `k` of the ids of a class holds the k-th set bit, and the table maps it back to `k`. */
  lemma SlotsInvert(ids: seq<nat>, id: nat)
    requires Increasing(ids) && id < KEY_MAX
    ensures Slots(ids)[id] == -1 <==> id !in ids
    ensures 0 <= Slots(ids)[id] ==> ids[Slots(ids)[id]] == id
    ensures forall k :: 0 <= k < |ids| && ids[k] < KEY_MAX ==> Slots(ids)[ids[k]] == k
  {
  }

  /** The abs part of the record the enumeration builds. */
  lemma ClientAbs(vid: uint16, pid: uint16, devName: seq<uint8>, bits: seq<seq<uint8>>, info: seq<AbsAxisInfo>)
    requires |devName| == 256 && Capabilities(bits) && |info| == ABS_CNT
    ensures var c, abs := ClientConfig(vid, pid, devName, bits, info), ClassIds(bits, EV_ABS as int);
      && c.absAxisCount as int == |abs|
      && (forall k :: 0 <= k < |abs| ==>
            && c.absAxis[k] as int == abs[k] && c.absAxisResolution[k] == ABS_RESOLUTION
            && c.absAxisMin[k] == info[abs[k]].minimum && c.absAxisMax[k] == info[abs[k]].maximum
            && c.absAxisFuzz[k] == info[abs[k]].fuzz && c.absAxisFlat[k] == info[abs[k]].flat)
  {
    var c0 := ZeroConfig().(vid := vid, pid := pid, name := StrNCpy(devName, 256));
    var r := Scanned(c0, bits, info, EV_ABS as int);
    assert r.absAxisCount == 0;
  }

  /** The identity fields and the rel slots of the record the enumeration builds. */
  lemma ClientRel(vid: uint16, pid: uint16, devName: seq<uint8>, bits: seq<seq<uint8>>, info: seq<AbsAxisInfo>)
    requires |devName| == 256 && Capabilities(bits) && |info| == ABS_CNT
    ensures var c, rel := ClientConfig(vid, pid, devName, bits, info), ClassIds(bits, EV_REL as int);
      && c.vid == vid && c.pid == pid && c.name == StrNCpy(devName, 256)
      && c.relAxisCount as int == |rel|
      && (forall k :: 0 <= k < |rel| ==> c.relAxis[k] as int == rel[k])
  {
    var c0 := ZeroConfig().(vid := vid, pid := pid, name := StrNCpy(devName, 256));
    var k := Scanned(c0, bits, info, EV_REL as int);
    assert k.relAxisCount == 0;
    var r := Scanned(c0, bits, info, EV_ABS as int);
    assert r.relAxis == ClientConfig(vid, pid, devName, bits, info).relAxis;
  }

  /** The key slots of the record the enumeration builds. */
  lemma ClientKeys(vid: uint16, pid: uint16, devName: seq<uint8>, bits: seq<seq<uint8>>, info: seq<AbsAxisInfo>)
    requires |devName| == 256 && Capabilities(bits) && |info| == ABS_CNT
    ensures var c, keys := ClientConfig(vid, pid, devName, bits, info), ClassIds(bits, EV_KEY as int);
      && c.buttonCount as int == |keys|
      && (forall k :: 0 <= k < |keys| ==> c.buttons[k] as int == keys[k])
  {
    var c0 := ZeroConfig().(vid := vid, pid := pid, name := StrNCpy(devName, 256));
    var k := Scanned(c0, bits, info, EV_REL as int);
    assert k.buttons == ClientConfig(vid, pid, devName, bits, info).buttons;
  }

  /**
   * What the enumeration builds: for each of abs, rel and key, the count is
   * the number of supported ids, slot k holds the k-th supported id in
   * ascending order, and the index map sends each supported id back to its
   * slot and every other id to -1. Abs slots carry the axis range, fuzz and
   * flat of that id and resolution 100.
   */
  lemma EnumerationSlots(vid: uint16, pid: uint16, devName: seq<uint8>, bits: seq<seq<uint8>>,
                         info: seq<AbsAxisInfo>)
    requires |devName| == 256 && Capabilities(bits) && |info| == ABS_CNT
    ensures var c, m := ClientConfig(vid, pid, devName, bits, info), ClientMaps(bits);
      var abs, rel, keys := ClassIds(bits, EV_ABS as int), ClassIds(bits, EV_REL as int), ClassIds(bits, EV_KEY as int);
      && c.absAxisCount as int == |abs| && c.relAxisCount as int == |rel| && c.buttonCount as int == |keys|
      && (forall id :: 0 <= id < KEY_MAX ==>
            && (m.abs[id] == -1 <==> id !in abs) && (0 <= m.abs[id] ==> c.absAxis[m.abs[id]] as int == id)
            && (m.rel[id] == -1 <==> id !in rel) && (0 <= m.rel[id] ==> c.relAxis[m.rel[id]] as int == id)
            && (m.keys[id] == -1 <==> id !in keys) && (0 <= m.keys[id] ==> c.buttons[m.keys[id]] as int == id))
  {
    ClientAbs(vid, pid, devName, bits, info);
    ClientRel(vid, pid, devName, bits, info);
    ClientKeys(vid, pid, devName, bits, info);
    var abs, rel, keys := ClassIds(bits, EV_ABS as int), ClassIds(bits, EV_REL as int), ClassIds(bits, EV_KEY as int);
    var m := ClientMaps(bits);
    assert m.abs == Slots(abs) && m.rel == Slots(rel) && m.keys == Slots(keys);
    ClassIdsIncreasing(bits, EV_ABS as int);
    ClassIdsIncreasing(bits, EV_REL as int);
    ClassIdsIncreasing(bits, EV_KEY as int);
    forall id | 0 <= id < KEY_MAX
      ensures (m.abs[id] == -1 <==> id !in abs) && (0 <= m.abs[id] ==> abs[m.abs[id]] == id)
      ensures (m.rel[id] == -1 <==> id !in rel) && (0 <= m.rel[id] ==> rel[m.rel[id]] == id)
      ensures (m.keys[id] == -1 <==> id !in keys) && (0 <= m.keys[id] ==> keys[m.keys[id]] == id)
    {
      SlotsInvert(abs, id);
      SlotsInvert(rel, id);
      SlotsInvert(keys, id);
    }
  }

  /** A class is enumerated exactly when its bit is set in row 0; its ids are then the set bits of its row. */
  lemma ClassIdsMeaning(bits: seq<seq<uint8>>, t: nat, id: nat)
    requires Capabilities(bits) && 0 < t <= EV_ABS as int && id < KEY_MAX
    ensures id in ClassIds(bits, t) <==> IsBitSet(bits[0], t) && IsBitSet(bits[t], id)
  {
    SetBitsSpec(bits[t], KEY_MAX);
  }

  /** The ids of a class are listed in ascending order. */
  lemma ClassIdsIncreasing(bits: seq<seq<uint8>>, t: nat)
    requires Capabilities(bits) && 0 < t <= EV_ABS as int
    ensures Increasing(ClassIds(bits, t))
  {
    SetBitsSpec(bits[t], KEY_MAX);
  }

  // ----------------------------------------------------------------------
  // The raw report and its update per input event (netstick.c:248-298)

  /** The slot values a raw report holds: abs values, rel values, button states. */
  datatype Report = Report(abs: seq<int32>, rel: seq<int32>, buttons: seq<uint8>)
  {
    function Bytes(): (r: seq<uint8>)
      ensures |r| == 4 * |abs| + 4 * |rel| + |buttons|
    {
      ReportBytes(abs, rel, buttons)
    }
  }

  /** `calloc(1, rawReportSize)`: every slot zero. */
  function ZeroReport(a: nat, r: nat, b: nat): (v: Report)
    ensures |v.abs| == a && |v.rel| == r && |v.buttons| == b
  {
    var z: int32 := 0;
    Report(seq(a, _ => z), seq(r, _ => z), Zeros(b))
  }

  lemma {:induction false} PackZeros(n: nat)
    ensures PackI32(seq(n, _ => 0 as int32)) == Zeros(4 * n)
  {
    if n > 0 {
      var xs: seq<int32> := seq(n, _ => 0);
      assert xs[..n - 1] == seq(n - 1, _ => 0 as int32);
      PackZeros(n - 1);
      assert I32Bytes(0) == [0, 0, 0, 0];
    }
  }

  /** A zeroed buffer holds the all-zero report. */
  lemma ZeroReportBytes(a: nat, r: nat, b: nat)
    ensures ZeroReport(a, r, b).Bytes() == Zeros(4 * a + 4 * r + b)
  {
    PackZeros(a);
    PackZeros(r);
  }

  /** Four bytes of `s` replaced, starting at `at`. */
  function Put4(s: seq<uint8>, at: nat, b: seq<uint8>): (r: seq<uint8>)
    requires at + 4 <= |s| && |b| == 4
    ensures |r| == |s|
  {
    s[at := b[0]][at + 1 := b[1]][at + 2 := b[2]][at + 3 := b[3]]
  }

  /** Storing one `int32_t` of a packed array rewrites its four bytes and nothing else. */
  lemma PackI32Update(xs: seq<int32>, i: nat, v: int32)
    requires i < |xs|
    ensures PackI32(xs[i := v]) == Put4(PackI32(xs), 4 * i, I32Bytes(v))
  {
    var p, q := PackI32(xs), PackI32(xs[i := v]);
    forall j | 0 <= j < |p|
      ensures q[j] == Put4(p, 4 * i, I32Bytes(v))[j]
    {
      PackI32At(xs[i := v], j / 4, j % 4);
      PackI32At(xs, j / 4, j % 4);
    }
  }

  /** `report.absAxis[index] = value` on the raw buffer. */
  lemma SetAbsBytes(v: Report, i: nat, x: int32)
    requires i < |v.abs|
    ensures v.(abs := v.abs[i := x]).Bytes() == Put4(v.Bytes(), 4 * i, I32Bytes(x))
  {
    PackI32Update(v.abs, i, x);
    var p := PackI32(v.abs);
    assert Put4(p, 4 * i, I32Bytes(x)) + PackI32(v.rel) + v.buttons
      == Put4(p + PackI32(v.rel) + v.buttons, 4 * i, I32Bytes(x));
  }

  /** `report.relAxis[index] = value`: the rel values start at `4 * absAxisCount`. */
  lemma SetRelBytes(v: Report, i: nat, x: int32)
    requires i < |v.rel|
    ensures v.(rel := v.rel[i := x]).Bytes() == Put4(v.Bytes(), 4 * |v.abs| + 4 * i, I32Bytes(x))
  {
    PackI32Update(v.rel, i, x);
    var pa, pr := PackI32(v.abs), PackI32(v.rel);
    assert pa + Put4(pr, 4 * i, I32Bytes(x)) + v.buttons
      == Put4(pa + pr + v.buttons, |pa| + 4 * i, I32Bytes(x));
  }

  /** `report.buttons[index] = b`: the buttons start at `4 * (absAxisCount + relAxisCount)`. */
  lemma SetButtonBytes(v: Report, i: nat, x: uint8)
    requires i < |v.buttons|
    ensures v.(buttons := v.buttons[i := x]).Bytes() == v.Bytes()[4 * |v.abs| + 4 * |v.rel| + i := x]
  {
    var pa, pr := PackI32(v.abs), PackI32(v.rel);
    assert pa + pr + v.buttons[i := x] == (pa + pr + v.buttons)[|pa| + |pr| + i := x];
  }

  /**
   * The client's raw report: one buffer holding the abs values, then the rel
   * values, then the buttons, which `report.absAxis`, `report.relAxis` and
   * `report.buttons` point into.
   */
  class ReportBuffer {
    const absCount: nat
    const relCount: nat
    const buttonCount: nat
    const raw: array<uint8>
    /** The slot values the buffer holds. */
    ghost var values: Report

    ghost predicate Valid()
      reads this, raw
    {
      && |values.abs| == absCount && |values.rel| == relCount && |values.buttons| == buttonCount
      && raw[..] == values.Bytes()
    }

    /** `calloc(1, joystick_get_report_size(&config))` and the three views into it. */
    constructor Create(config: JsConfig)
      requires config.CountsInRange()
      ensures Valid() && fresh(raw)
      ensures absCount == config.absAxisCount as int && relCount == config.relAxisCount as int
      ensures buttonCount == config.buttonCount as int
      ensures raw.Length == ReportSize(config)
      ensures values == ZeroReport(absCount, relCount, buttonCount)
    {
      absCount, relCount, buttonCount := config.absAxisCount as int, config.relAxisCount as int, config.buttonCount as int;
      raw := new uint8[ReportSize(config)](_ => 0);
      values := ZeroReport(config.absAxisCount as int, config.relAxisCount as int, config.buttonCount as int);
      new;
      ZeroReportBytes(absCount, relCount, buttonCount);
      assert raw[..] == Zeros(ReportSize(config));
    }

    /** `report.absAxis[index] = value` */
    method SetAbs(index: nat, value: int32)
      requires Valid() && index < absCount
      modifies this, raw
      ensures Valid() && values == old(values).(abs := old(values).abs[index := value])
    {
      var b := I32Bytes(value);
      SetAbsBytes(values, index, value);
      raw[4 * index] := b[0];
      raw[4 * index + 1] := b[1];
      raw[4 * index + 2] := b[2];
      raw[4 * index + 3] := b[3];
      values := values.(abs := values.abs[index := value]);
    }

    /** `report.relAxis[index] = value` */
    method SetRel(index: nat, value: int32)
      requires Valid() && index < relCount
      modifies this, raw
      ensures Valid() && values == old(values).(rel := old(values).rel[index := value])
    {
      var b := I32Bytes(value);
      var at := 4 * absCount + 4 * index;
      SetRelBytes(values, index, value);
      raw[at] := b[0];
      raw[at + 1] := b[1];
      raw[at + 2] := b[2];
      raw[at + 3] := b[3];
      values := values.(rel := values.rel[index := value]);
    }

    /** `report.buttons[index] = value` */
    method SetButton(index: nat, value: uint8)
      requires Valid() && index < buttonCount
      modifies this, raw
      ensures Valid() && values == old(values).(buttons := old(values).buttons[index := value])
    {
      SetButtonBytes(values, index, value);
      raw[4 * absCount + 4 * relCount + index] := value;
      values := values.(buttons := values.buttons[index := value]);
    }
  }

  /** Every slot the index map hands out lies inside the report. */
  predicate MapsFit(m: IndexMaps, v: Report)
  {
    && m.Sized()
    && (forall id :: 0 <= id < KEY_MAX ==> m.abs[id] < |v.abs|)
    && (forall id :: 0 <= id < KEY_MAX ==> m.rel[id] < |v.rel|)
    && (forall id :: 0 <= id < KEY_MAX ==> m.keys[id] < |v.buttons|)
  }

  /** The event's code can be looked up: the map holds `KEY_MAX` entries per class. */
  predicate CodeInMap(ev: InputEvent)
  {
    (ev.evType == EV_KEY || ev.evType == EV_ABS || ev.evType == EV_REL) ==> ev.code < KEY_MAX
  }

  /**
   * The effect of one input event other than EV_SYN on the report: a key
   * stores 0 or 1, an axis its value verbatim, at the slot the map gives;
   * an unmapped id and any other class change nothing.
   */
  function ApplyEvent(v: Report, m: IndexMaps, ev: InputEvent): (r: Report)
    ensures |r.abs| == |v.abs| && |r.rel| == |v.rel| && |r.buttons| == |v.buttons|
  {
    if !m.Sized() || !CodeInMap(ev) then v
    else if ev.evType == EV_KEY then
      var index := Lookup(m, ev.evType as int, ev.code as int);
      if index < 0 || |v.buttons| <= index then v
      else v.(buttons := v.buttons[index := if ev.value != 0 then 1 else 0])
    else if ev.evType == EV_ABS then
      var index := Lookup(m, ev.evType as int, ev.code as int);
      if index < 0 || |v.abs| <= index then v else v.(abs := v.abs[index := ev.value])
    else if ev.evType == EV_REL then
      var index := Lookup(m, ev.evType as int, ev.code as int);
      if index < 0 || |v.rel| <= index then v else v.(rel := v.rel[index := ev.value])
    else v
  }

  /**
   * Each event touches at most the one slot its id maps to: a key press
   * stores exactly 0 or 1, an axis value is kept verbatim, and every other
   * slot keeps its value.
   */
  lemma ApplyEventSlot(v: Report, m: IndexMaps, ev: InputEvent)
    requires MapsFit(m, v) && CodeInMap(ev)
    ensures var r := ApplyEvent(v, m, ev);
      && (ev.evType == EV_KEY && 0 <= m.keys[ev.code] ==>
            r == v.(buttons := v.buttons[m.keys[ev.code] := if ev.value == 0 then 0 else 1]))
      && (ev.evType == EV_ABS && 0 <= m.abs[ev.code] ==> r == v.(abs := v.abs[m.abs[ev.code] := ev.value]))
      && (ev.evType == EV_REL && 0 <= m.rel[ev.code] ==> r == v.(rel := v.rel[m.rel[ev.code] := ev.value]))
      && (ev.evType == EV_KEY && m.keys[ev.code] < 0 ==> r == v)
      && (ev.evType == EV_ABS && m.abs[ev.code] < 0 ==> r == v)
      && (ev.evType == EV_REL && m.rel[ev.code] < 0 ==> r == v)
      && (ev.evType != EV_KEY && ev.evType != EV_ABS && ev.evType != EV_REL ==> r == v)
  {
  }

  /** The map the enumeration builds fits the report sized by the record it builds. */
  lemma ClientMapsFit(vid: uint16, pid: uint16, devName: seq<uint8>, bits: seq<seq<uint8>>, info: seq<AbsAxisInfo>)
    requires |devName| == 256 && Capabilities(bits) && |info| == ABS_CNT
    ensures var c := ClientConfig(vid, pid, devName, bits, info);
      && c.CountsInRange()
      && MapsFit(ClientMaps(bits), ZeroReport(c.absAxisCount as int, c.relAxisCount as int, c.buttonCount as int))
  {
    EnumerationSlots(vid, pid, devName, bits, info);
    var c := ClientConfig(vid, pid, devName, bits, info);
    assert c.CountsInRange();
  }

  /** The body of the event loop for an event other than EV_SYN. */
  method UpdateReport(indexMap: IndexMap, report: ReportBuffer, ev: InputEvent)
    requires indexMap.Valid() && report.Valid() && MapsFit(indexMap.State(), report.values) && CodeInMap(ev)
    requires ev.evType != EV_SYN
    modifies report, report.raw
    ensures report.Valid() && report.values == ApplyEvent(old(report.values), indexMap.State(), ev)
  {
    if ev.evType == EV_KEY {
      var index := indexMap.GetIndex(ev.evType as int, ev.code as int);
      if index < 0 {
        return;
      }
      report.SetButton(index, if ev.value != 0 then 1 else 0);
    } else if ev.evType == EV_ABS {
      var index := indexMap.GetIndex(ev.evType as int, ev.code as int);
      if index < 0 {
        return;
      }
      report.SetAbs(index, ev.value);
    } else if ev.evType == EV_REL {
      var index := indexMap.GetIndex(ev.evType as int, ev.code as int);
      if index < 0 {
        return;
      }
      report.SetRel(index, ev.value);
    }
  }

  // ----------------------------------------------------------------------
  // Framing a message (netstick.c:49-71)

  /**
   * The first half of `encode_and_transmit`: the envelope of `data` (header,
   * payload, footer) fed byte by byte through a fresh encoder created with
   * `rawSize`. The result is the encoder's buffer up to its index: the wire
   * frame of the envelope, cut at the encoder's capacity `2 * rawSize + 2`.
   */
  method FrameMessage(tag: uint16, data: array<uint8>, rawSize: nat) returns (frame: seq<uint8>)
    ensures var w := WireFrame(tag, data[..]);
      frame == w[..Min(|w|, 2 * rawSize + 2)]
  {
    var tlvc := EncodeData(tag, data.Length, data);
    assert data[..data.Length] == data[..];
    var encode := new SlipEncoder.Create(rawSize);
    ghost var s0 := encode.State();
    encode.Begin();
    ghost var b := encode.State();
    var header := HeaderBytes(tlvc.header);
    var footer := U16Bytes(tlvc.footer.checksum);
    EncodeBytes(encode, header);
    EncodeBytes(encode, data[..tlvc.dataLen]);
    EncodeBytes(encode, footer);
    var _ := encode.Finish();
    frame := encode.encoded[..encode.index];
    EnvelopeFramed(s0, tag, data[..], tlvc.footer.checksum, header, footer);
  }

  /** One of the byte loops of `encode_and_transmit`: `slip_encode_byte` on each byte in turn. */
  method EncodeBytes(encode: SlipEncoder, bs: seq<uint8>)
    requires encode.Valid()
    modifies encode, encode.encoded
    ensures encode.Valid() && encode.State() == EncodeFeed(old(encode.State()), bs).0
  {
    ghost var s := encode.State();
    for i := 0 to |bs|
      invariant encode.Valid() && encode.State() == EncodeFeed(s, bs[..i]).0
    {
      assert bs[..i + 1][..i] == bs[..i];
      var _ := encode.EncodeByte(bs[i]);
    }
    assert bs[..|bs|] == bs;
  }

  /** The bytes fed in are the serialised envelope, so the buffer holds its wire frame. */
  lemma EnvelopeFramed(s0: EncoderState, tag: uint16, payload: seq<uint8>, checksum: uint16,
                       header: seq<uint8>, footer: seq<uint8>)
    requires 1 <= |s0.encoded|
    requires header == HeaderBytes(TlvcHeader(tag, ToU16(|payload|)))
    requires checksum == Checksum(header + payload) && footer == U16Bytes(checksum)
    ensures var b := EncodeBegin(s0);
      var t := EncodeFinish(EncodeFeed(EncodeFeed(EncodeFeed(b, header).0, payload).0, footer).0).0;
      var w := WireFrame(tag, payload);
      t.index <= |t.encoded| && Written(t) == w[..Min(|w|, |s0.encoded|)]
  {
    var b := EncodeBegin(s0);
    EncodeFeedAppend(b, header, payload);
    EncodeFeedAppend(b, header + payload, footer);
    EncodeFramePrefix(s0, header + payload + footer);
  }

  /** The wire frame is the envelope escaped between two ENDs: 8 bytes plus the payload plus one per escape. */
  lemma WireFrameLength(tag: uint16, payload: seq<uint8>)
    ensures var e := Encode(tag, payload);
      |WireFrame(tag, payload)| == |payload| + 8 + Specials(Serialize(e.header, payload, e.footer))
      <= 2 * (|payload| + HEADER_SIZE + FOOTER_SIZE) + 2
  {
    var e := Encode(tag, payload);
    EscapeAllLength(Serialize(e.header, payload, e.footer));
  }

  /**
   * `encode_and_transmit` sizes its encoder for the payload alone
   * (`slip_encode_message_create(dataLen_)`), so its capacity is
   * `2 * |payload| + 2` while the frame carries the 6 envelope bytes too:
   * the frame goes out whole only when the envelope has at most
   * `|payload| - 6` bytes needing an escape.
   */
  lemma PayloadSizedEncoder(tag: uint16, payload: seq<uint8>)
    ensures var e := Encode(tag, payload);
      var w := WireFrame(tag, payload);
      w[..Min(|w|, 2 * |payload| + 2)] == w
      <==> Specials(Serialize(e.header, payload, e.footer)) + 6 <= |payload|
  {
    WireFrameLength(tag, payload);
  }

  /**
   * A payload shorter than 6 bytes (the report of a device with no axes and
   * at most five buttons) is never sent whole: the frame is cut before its
   * closing END, and the tail of the envelope is lost.
   */
  lemma ShortPayloadCut(tag: uint16, payload: seq<uint8>)
    requires |payload| < 6
    ensures var w := WireFrame(tag, payload);
      var sent := w[..Min(|w|, 2 * |payload| + 2)];
      sent != w && |sent| == 2 * |payload| + 2 && sent[|sent| - 1] != END
  {
    var e := Encode(tag, payload);
    var env := Serialize(e.header, payload, e.footer);
    PayloadSizedEncoder(tag, payload);
    WireFrameLength(tag, payload);
    var w := WireFrame(tag, payload);
    var n := 2 * |payload| + 2;
    EscapeAllHasNoEnd(env);
    assert w == [END] + EscapeAll(env) + [END];
    assert w[n - 1] == EscapeAll(env)[n - 2];
  }

  /** An encoder sized for the whole envelope (`dataLen_ + 6`) always holds the complete frame. */
  lemma EnvelopeSizedEncoder(tag: uint16, payload: seq<uint8>)
    ensures var w := WireFrame(tag, payload);
      w[..Min(|w|, 2 * (|payload| + HEADER_SIZE + FOOTER_SIZE) + 2)] == w
  {
    WireFrameLength(tag, payload);
  }

  // ----------------------------------------------------------------------
  // Writing a frame to the socket (netstick.c:73-97)

  const EINTR: int := 4
  const EAGAIN: int := 11

  /** What one `write` call returned: a byte count, or -1 with `errno`. */
  datatype WriteReply = Wrote(count: nat) | WriteError(errno: int)

  /** A reply that ends the loop as "socket died": 0 bytes, or an error other than EINTR/EAGAIN. */
  predicate Fatal(r: WriteReply)
  {
    r == Wrote(0) || (r.WriteError? && r.errno != EINTR && r.errno != EAGAIN)
  }

  /** A reply after which the loop simply tries again. */
  predicate Transient(r: WriteReply)
  {
    r.WriteError? && (r.errno == EINTR || r.errno == EAGAIN)
  }

  /** `Stalled`: the replies ran out before the loop ended (the real call would block). */
  datatype SendStatus = Sent | Died | Stalled

  /**
   * The write loop with `buf[..pos]` already on the wire: the status, how
   * far into `buf` the wire got, and how many replies were used. A reply
   * counts at most the bytes still pending, as `write` never reports more
   * than it was asked for; a transient error retries the same bytes.
   */
  function WriteLoop(buf: seq<uint8>, pos: nat, replies: seq<WriteReply>): (r: (SendStatus, nat, nat))
    requires pos <= |buf|
    ensures pos <= r.1 <= |buf| && r.2 <= |replies|
    decreases |replies|
  {
    if pos == |buf| then (Sent, pos, 0)
    else if replies == [] then (Stalled, pos, 0)
    else if Fatal(replies[0]) then (Died, pos, 1)
    else
      var next := if replies[0].Wrote? then pos + Min(replies[0].count, |buf| - pos) else pos;
      var (st, n, u) := WriteLoop(buf, next, replies[1..]);
      (st, n, u + 1)
  }

  /** The bytes the replies report written, in all. */
  function Accepted(replies: seq<WriteReply>): nat
  {
    if replies == [] then 0
    else Accepted(replies[..|replies| - 1]) + (if replies[|replies| - 1].Wrote? then replies[|replies| - 1].count else 0)
  }

  lemma {:induction false} AcceptedCons(r: WriteReply, rest: seq<WriteReply>)
    ensures Accepted([r] + rest) == (if r.Wrote? then r.count else 0) + Accepted(rest)
    decreases |rest|
  {
    if rest != [] {
      var n := |rest| - 1;
      assert ([r] + rest)[..|[r] + rest| - 1] == [r] + rest[..n];
      AcceptedCons(r, rest[..n]);
    } else {
      assert [r] + rest == [r];
      assert [r][..0] == [];
    }
  }

  /**
   * The outcome of the loop: it reports Sent exactly when the whole buffer
   * went out; it dies on the first fatal reply and on no other; and it
   * stalls only when every reply was used and none was fatal.
   */
  lemma {:induction false} WriteLoopOutcome(buf: seq<uint8>, pos: nat, replies: seq<WriteReply>)
    requires pos <= |buf|
    ensures var (st, n, u) := WriteLoop(buf, pos, replies);
      && (st == Sent <==> n == |buf|)
      && (st == Died ==> 1 <= u && Fatal(replies[u - 1]))
      && (forall i :: 0 <= i < u - 1 ==> !Fatal(replies[i]))
      && (st == Stalled ==> u == |replies|)
      && (st != Died ==> forall i :: 0 <= i < u ==> !Fatal(replies[i]))
    decreases |replies|
  {
    var (st, n, u) := WriteLoop(buf, pos, replies);
    if pos < |buf| && replies != [] && !Fatal(replies[0]) {
      var r := replies[0];
      var next := if r.Wrote? then pos + Min(r.count, |buf| - pos) else pos;
      WriteLoopOutcome(buf, next, replies[1..]);
      forall i | 0 <= i < u
        ensures (i < u - 1 || st != Died) ==> !Fatal(replies[i])
      {
        if i > 0 {
          assert replies[i] == replies[1..][i - 1];
        }
      }
    }
  }

  /** The wire holds as many bytes as the used replies accepted, up to the buffer's end. */
  lemma {:induction false} WriteLoopAccepted(buf: seq<uint8>, pos: nat, replies: seq<WriteReply>)
    requires pos <= |buf|
    ensures var (st, n, u) := WriteLoop(buf, pos, replies);
      n == Min(|buf|, pos + Accepted(replies[..u]))
    decreases |replies|
  {
    var (st, n, u) := WriteLoop(buf, pos, replies);
    if pos == |buf| {
      assert replies[..0] == [];
    } else if replies == [] {
    } else if Fatal(replies[0]) {
      assert replies[..1] == [replies[0]] + [];
      AcceptedCons(replies[0], []);
    } else {
      var r := replies[0];
      var next := if r.Wrote? then pos + Min(r.count, |buf| - pos) else pos;
      WriteLoopAccepted(buf, next, replies[1..]);
      var (st1, n1, u1) := WriteLoop(buf, next, replies[1..]);
      assert replies[..u] == [r] + replies[1..][..u1];
      AcceptedCons(r, replies[1..][..u1]);
    }
  }

  /** A result of the loop as written, with `pre` put before its wire and `k` added to its replies. */
  function After(pre: seq<uint8>, k: nat, r: Option<(SendStatus, seq<uint8>, nat)>): Option<(SendStatus, seq<uint8>, nat)>
  {
    match r
    case None => None
    case Some((st, wire, u)) => Some((st, pre + wire, k + u))
  }

  lemma AfterNothing(r: Option<(SendStatus, seq<uint8>, nat)>)
    ensures After([], 0, r) == r
  {
    if r.Some? {
      assert [] + r.value.1 == r.value.1;
    }
  }

  lemma AfterAfter(pre: seq<uint8>, seg: seq<uint8>, k: nat, r: Option<(SendStatus, seq<uint8>, nat)>)
    ensures After(pre, k, After(seg, 1, r)) == After(pre + seg, k + 1, r)
  {
    if r.Some? {
      AppendAssoc(pre, seg, r.value.1);
    }
  }

  /**
   * The loop exactly as `encode_and_transmit` writes it, with `raw` at
   * `buf[p]` and `toWrite == |buf| - p`: on -1 with EINTR or EAGAIN,
   * `toWrite -= nWritten; raw += nWritten` moves the pointer one byte
   * back. The result is the status, the bytes put on the wire, and the
   * replies used; None when the pointer has left the buffer (the next
   * `write` would read before it).
   */
  function WriteLoopAsWritten(buf: seq<uint8>, p: int, replies: seq<WriteReply>): (r: Option<(SendStatus, seq<uint8>, nat)>)
    requires p <= |buf|
    ensures r.Some? ==> r.value.2 <= |replies|
    ensures r.Some? && r.value.0 == Stalled ==> r.value.2 == |replies|
    decreases |replies|
  {
    if p == |buf| then Some((Sent, [], 0))
    else if p < 0 then None
    else if replies == [] then Some((Stalled, [], 0))
    else if Fatal(replies[0]) then Some((Died, [], 1))
    else if replies[0].WriteError? then After([], 1, WriteLoopAsWritten(buf, p - 1, replies[1..]))
    else
      var k := Min(replies[0].count, |buf| - p);
      After(buf[p..p + k], 1, WriteLoopAsWritten(buf, p + k, replies[1..]))
  }

  /**
   * The discrepancy: two bytes written, an EAGAIN, then the rest. The loop
   * as written reports success having put the second byte on the wire
   * twice; the corrected loop sends the buffer once.
   */
  lemma RetryRepeatsByte()
    ensures var buf: seq<uint8> := [END, 5, 7, END];
      var replies := [Wrote(2), WriteError(EAGAIN), Wrote(3)];
      && WriteLoopAsWritten(buf, 0, replies) == Some((Sent, [END, 5, 5, 7, END], 3))
      && WriteLoop(buf, 0, replies) == (Sent, |buf|, 3)
  {
    var buf: seq<uint8> := [END, 5, 7, END];
    var replies := [Wrote(2), WriteError(EAGAIN), Wrote(3)];
    assert replies[1..] == [WriteError(EAGAIN), Wrote(3)];
    assert replies[1..][1..] == [Wrote(3)];
    assert replies[1..][1..][1..] == [];
    assert buf[0..2] == [END, 5];
    assert buf[1..4] == [5, 7, END];
    assert WriteLoopAsWritten(buf, 4, []) == Some((Sent, [], 0));
    assert [Wrote(3)][1..] == [];
    assert buf[1..4] + [] == [5, 7, END];
    assert WriteLoopAsWritten(buf, 1, [Wrote(3)]) == Some((Sent, [5, 7, END], 1));
    assert [] + [5, 7, END] == [5, 7, END];
    assert WriteLoopAsWritten(buf, 2, [WriteError(EAGAIN), Wrote(3)]) == Some((Sent, [5, 7, END], 2));
    assert [END, 5] + [5, 7, END] == [END, 5, 5, 7, END];
    assert WriteLoop(buf, 4, []) == (Sent, 4, 0);
    assert WriteLoop(buf, 2, [Wrote(3)]) == (Sent, 4, 1);
  }

  /** No reply is an EINTR or EAGAIN. */
  predicate NoTransient(replies: seq<WriteReply>)
  {
    forall i :: 0 <= i < |replies| ==> !Transient(replies[i])
  }

  /**
   * Without transient errors the loop as written and the corrected loop
   * agree: same status, same replies used, and the wire carries exactly
   * the bytes the corrected loop got through.
   */
  lemma {:induction false} AsWrittenAgrees(buf: seq<uint8>, pos: nat, replies: seq<WriteReply>)
    requires pos <= |buf|
    requires NoTransient(replies)
    ensures var (st, n, u) := WriteLoop(buf, pos, replies);
      WriteLoopAsWritten(buf, pos, replies) == Some((st, buf[pos..n], u))
    decreases |replies|
  {
    if pos < |buf| && replies != [] && !Fatal(replies[0]) {
      assert !Transient(replies[0]);
      var k := Min(replies[0].count, |buf| - pos);
      var rest := replies[1..];
      assert NoTransient(rest) by {
        assert forall i :: 0 <= i < |rest| ==> rest[i] == replies[i + 1];
      }
      AsWrittenAgrees(buf, pos + k, rest);
      var (st, n, u) := WriteLoop(buf, pos + k, rest);
      assert WriteLoop(buf, pos, replies) == (st, n, u + 1);
      assert WriteLoopAsWritten(buf, pos, replies) == Some((st, buf[pos..pos + k] + buf[pos + k..n], u + 1));
      assert buf[pos..pos + k] + buf[pos + k..n] == buf[pos..n];
    } else {
      assert buf[pos..pos] == [];
    }
  }

  /** A suffix of replies free of EINTR and EAGAIN is free of them too. */
  lemma NoTransientSuffix(replies: seq<WriteReply>, u: nat)
    requires u <= |replies| && NoTransient(replies)
    ensures NoTransient(replies[u..])
  {
    forall i | 0 <= i < |replies| - u
      ensures !Transient(replies[u..][i])
    {
      assert replies[u..][i] == replies[u + i];
    }
  }

  /**
   * The write loop of `encode_and_transmit` as written (netstick.c:73-89):
   * `raw` is the index `p`, and a -1 reply is subtracted from both
   * `toWrite` and `raw`. `defined` is false once `p` has walked before the
   * buffer; otherwise the status, the bytes that reached the socket, and
   * the replies used.
   */
  method WriteAllAsWritten(buf: seq<uint8>, replies: seq<WriteReply>)
    returns (defined: bool, status: SendStatus, wire: seq<uint8>, used: nat)
    ensures var r := WriteLoopAsWritten(buf, 0, replies);
      (defined <==> r.Some?) && (defined ==> r.value == (status, wire, used))
  {
    var toWrite: int := |buf|;
    var p: int := 0;
    defined, status, wire, used := true, Sent, [], 0;
    AfterNothing(WriteLoopAsWritten(buf, 0, replies));
    while toWrite > 0
      invariant 0 <= toWrite && p + toWrite == |buf| && used <= |replies|
      invariant WriteLoopAsWritten(buf, 0, replies) == After(wire, used, WriteLoopAsWritten(buf, p, replies[used..]))
      decreases |replies| - used
    {
      assert wire + [] == wire;
      if p < 0 {
        defined := false;
        return;
      }
      if used == |replies| {
        status := Stalled;
        return;
      }
      var reply := replies[used];
      assert replies[used..][1..] == replies[used + 1..];
      used := used + 1;
      if Fatal(reply) {
        status := Died;
        return;
      }
      var nWritten := if reply.Wrote? then Min(reply.count, toWrite) else -1;
      ghost var seg := if reply.Wrote? then buf[p..p + nWritten] else [];
      AfterAfter(wire, seg, used - 1, WriteLoopAsWritten(buf, p + nWritten, replies[used..]));
      if reply.Wrote? {
        wire := wire + buf[p..p + nWritten];
      } else {
        assert wire + seg == wire;
      }
      toWrite := toWrite - nWritten;
      p := p + nWritten;
    }
    assert wire + [] == wire;
  }

  /** The frame `encode_and_transmit` hands to `write`: the wire frame cut at the encoder's capacity `2 * |payload| + 2`. */
  function SentFrame(tag: uint16, payload: seq<uint8>): (f: seq<uint8>)
    ensures f <= WireFrame(tag, payload)
  {
    var w := WireFrame(tag, payload);
    w[..Min(|w|, 2 * |payload| + 2)]
  }

  /** The wire frame fits the encoder created for the payload alone (netstick.c:53). */
  predicate Fits(tag: uint16, payload: seq<uint8>)
  {
    |WireFrame(tag, payload)| <= 2 * |payload| + 2
  }

  /** What `encode_and_transmit` as written does: the status, the bytes on the socket, and the replies used; None for undefined behaviour. */
  function TransmitAsWritten(tag: uint16, payload: seq<uint8>, replies: seq<WriteReply>): Option<(SendStatus, seq<uint8>, nat)>
  {
    WriteLoopAsWritten(SentFrame(tag, payload), 0, replies)
  }

  /**
   * Without EINTR/EAGAIN replies the transmit as written is defined and
   * puts a prefix of the cut frame on the socket, all of it exactly when it
   * reports success; and the complete wire frame goes out exactly when it
   * fits the encoder.
   */
  lemma TransmitWire(tag: uint16, payload: seq<uint8>, replies: seq<WriteReply>)
    requires NoTransient(replies)
    ensures var r := TransmitAsWritten(tag, payload, replies);
      && r.Some?
      && r.value.1 <= SentFrame(tag, payload)
      && (r.value.0 == Sent <==> r.value.1 == SentFrame(tag, payload))
      && (r.value.0 == Sent ==> (r.value.1 == WireFrame(tag, payload) <==> Fits(tag, payload)))
  {
    var f := SentFrame(tag, payload);
    AsWrittenAgrees(f, 0, replies);
    WriteLoopOutcome(f, 0, replies);
    var n := WriteLoop(f, 0, replies).1;
    assert f[0..|f|] == f;
    if n < |f| {
      assert |f[0..n]| < |f|;
    }
  }

  /**
   * `encode_and_transmit` as written: the encoder sized for the payload
   * alone (netstick.c:53), then the write loop as written.
   */
  method Transmit(tag: uint16, data: array<uint8>, replies: seq<WriteReply>)
    returns (defined: bool, status: SendStatus, wire: seq<uint8>, used: nat)
    ensures var r := TransmitAsWritten(tag, data[..], replies);
      (defined <==> r.Some?) && (defined ==> r.value == (status, wire, used))
  {
    var frame := FrameMessage(tag, data, data.Length);
    defined, status, wire, used := WriteAllAsWritten(frame, replies);
  }

  /**
   * The write loop with the pointer kept in place on EINTR/EAGAIN (the
   * corrected loop), over the replies of successive `write` calls.
   */
  method WriteAll(buf: seq<uint8>, replies: seq<WriteReply>) returns (status: SendStatus, written: nat, used: nat)
    ensures (status, written, used) == WriteLoop(buf, 0, replies)
  {
    var toWrite := |buf|;
    written, used := 0, 0;
    while toWrite > 0
      invariant 0 <= toWrite && written + toWrite == |buf| && used <= |replies|
      invariant var (st, n, u) := WriteLoop(buf, written, replies[used..]);
        WriteLoop(buf, 0, replies) == (st, n, used + u)
      decreases |replies| - used
    {
      if used == |replies| {
        return Stalled, written, used;
      }
      var reply := replies[used];
      assert replies[used..][1..] == replies[used + 1..];
      used := used + 1;
      if Fatal(reply) {
        return Died, written, used;
      }
      if reply.Wrote? {
        var n := Min(reply.count, toWrite);
        toWrite := toWrite - n;
        written := written + n;
      }
    }
    status := Sent;
  }

  /**
   * `encode_and_transmit` with both corrections: the encoder sized for the
   * whole envelope, and the write loop that retries in place. `wire` is what
   * reached the socket.
   */
  method EncodeAndTransmit(tag: uint16, data: array<uint8>, replies: seq<WriteReply>)
    returns (status: SendStatus, wire: seq<uint8>, used: nat)
    ensures var w := WireFrame(tag, data[..]);
      var (st, n, u) := WriteLoop(w, 0, replies);
      status == st && wire == w[..n] && used == u
    ensures status == Sent ==> wire == WireFrame(tag, data[..])
  {
    var frame := FrameMessage(tag, data, data.Length + HEADER_SIZE + FOOTER_SIZE);
    EnvelopeSizedEncoder(tag, data[..]);
    var written;
    status, written, used := WriteAll(frame, replies);
    wire := frame[..written];
    WriteLoopOutcome(frame, 0, replies);
  }

  // ----------------------------------------------------------------------
  // The client's event loop (netstick.c:256-300)

  /** Every event's code can be looked up in the index map. */
  predicate EventsInMap(evs: seq<InputEvent>)
  {
    forall i :: 0 <= i < |evs| ==> CodeInMap(evs[i])
  }

  /**
   * The client between two events: the report's slot values, what has gone
   * onto the socket, the `write` replies still to come, and whether the
   * loop is still running (it returns once a transmit fails).
   */
  datatype Client = Client(report: Report, wire: seq<uint8>, replies: seq<WriteReply>, running: bool)

  /**
   * One event: EV_SYN transmits the report as it stands, and the loop
   * returns if that fails (or stops where the transmit is undefined); any
   * other event updates the report.
   */
  function ClientStep(c: Client, m: IndexMaps, ev: InputEvent): (r: Client)
  {
    if !c.running then c
    else if ev.evType == EV_SYN then
      match TransmitAsWritten(TAG_REPORT, c.report.Bytes(), c.replies)
      case None => c.(running := false)
      case Some((st, out, u)) => c.(wire := c.wire + out, replies := c.replies[u..], running := st == Sent)
    else c.(report := ApplyEvent(c.report, m, ev))
  }

  /** The events in order. */
  function ClientRun(c: Client, m: IndexMaps, evs: seq<InputEvent>): (r: Client)
    decreases |evs|
  {
    if evs == [] then c
    else ClientRun(ClientStep(c, m, evs[0]), m, evs[1..])
  }

  /** Once the loop has returned, further events change nothing. */
  lemma {:induction false} StoppedStays(c: Client, m: IndexMaps, evs: seq<InputEvent>)
    requires !c.running
    ensures ClientRun(c, m, evs) == c
    decreases |evs|
  {
    if evs != [] {
      StoppedStays(c, m, evs[1..]);
    }
  }

  /** How the events are split between batches does not matter. */
  lemma {:induction false} ClientRunAppend(c: Client, m: IndexMaps, a: seq<InputEvent>, b: seq<InputEvent>)
    ensures ClientRun(c, m, a + b) == ClientRun(ClientRun(c, m, a), m, b)
    decreases |a|
  {
    if a == [] {
      assert a + b == b;
    } else {
      assert (a + b)[0] == a[0] && (a + b)[1..] == a[1..] + b;
      ClientRunAppend(ClientStep(c, m, a[0]), m, a[1..], b);
    }
  }

  /**
   * The reference behaviour, free of the socket: the report after all the
   * events, and the report as it stood at each EV_SYN.
   */
  function Track(v: Report, m: IndexMaps, evs: seq<InputEvent>): (r: (Report, seq<Report>))
    decreases |evs|
  {
    if evs == [] then (v, [])
    else if evs[0].evType == EV_SYN then
      var (f, snaps) := Track(v, m, evs[1..]);
      (f, [v] + snaps)
    else Track(ApplyEvent(v, m, evs[0]), m, evs[1..])
  }

  /** The frames of a sequence of reports, one after the other. */
  function ReportFrames(snaps: seq<Report>): seq<uint8>
    decreases |snaps|
  {
    if snaps == [] then [] else WireFrame(TAG_REPORT, snaps[0].Bytes()) + ReportFrames(snaps[1..])
  }

  /** The frames `encode_and_transmit` hands to `write` for a sequence of reports. */
  function SentFrames(snaps: seq<Report>): seq<uint8>
    decreases |snaps|
  {
    if snaps == [] then [] else SentFrame(TAG_REPORT, snaps[0].Bytes()) + SentFrames(snaps[1..])
  }

  /** Every report's frame fits the encoder its transmit creates. */
  predicate AllFit(snaps: seq<Report>)
  {
    forall k :: 0 <= k < |snaps| ==> Fits(TAG_REPORT, snaps[k].Bytes())
  }

  /**
   * The frames handed to `write` are the complete wire frames exactly when
   * every one fits: a cut frame is shorter than its wire frame.
   */
  lemma {:induction false} SentFramesWhole(snaps: seq<Report>)
    ensures SentFrames(snaps) == ReportFrames(snaps) <==> AllFit(snaps)
    decreases |snaps|
  {
    if snaps != [] {
      var w := WireFrame(TAG_REPORT, snaps[0].Bytes());
      var f := SentFrame(TAG_REPORT, snaps[0].Bytes());
      SentFramesWhole(snaps[1..]);
      assert w[..|w|] == w;
      assert AllFit(snaps) <==> Fits(TAG_REPORT, snaps[0].Bytes()) && AllFit(snaps[1..]) by {
        assert forall k :: 0 <= k < |snaps| - 1 ==> snaps[1..][k] == snaps[k + 1];
      }
      if f + SentFrames(snaps[1..]) == w + ReportFrames(snaps[1..]) {
        assert |f| == |w| by {
          SentFramesShorter(snaps[1..]);
        }
        assert f == (f + SentFrames(snaps[1..]))[..|f|];
      }
    }
  }

  /** A cut frame is never longer than its wire frame, so neither is their concatenation. */
  lemma {:induction false} SentFramesShorter(snaps: seq<Report>)
    ensures |SentFrames(snaps)| <= |ReportFrames(snaps)|
    decreases |snaps|
  {
    if snaps != [] {
      SentFramesShorter(snaps[1..]);
    }
  }

  /**
   * If the loop is still running after the events (no transmit failed) and
   * no `write` gave EINTR or EAGAIN, the socket got exactly one frame per
   * EV_SYN, the report as it stood then cut at its encoder's capacity, and
   * the report holds every update.
   */
  lemma {:induction false} ClientRunDelivers(c: Client, m: IndexMaps, evs: seq<InputEvent>)
    requires c.running && NoTransient(c.replies)
    requires ClientRun(c, m, evs).running
    ensures ClientRun(c, m, evs).wire == c.wire + SentFrames(Track(c.report, m, evs).1)
    ensures ClientRun(c, m, evs).report == Track(c.report, m, evs).0
    decreases |evs|
  {
    if evs != [] {
      var c1 := ClientStep(c, m, evs[0]);
      if !c1.running {
        StoppedStays(c1, m, evs[1..]);
      } else {
        ClientRunDelivers(c1, m, evs[1..]);
        if evs[0].evType == EV_SYN {
          DeliversSyn(c, m, evs);
        } else {
          DeliversOther(c, m, evs);
        }
      }
    }
  }

  /** The step of `ClientRunDelivers` for an EV_SYN in front. */
  lemma DeliversSyn(c: Client, m: IndexMaps, evs: seq<InputEvent>)
    requires c.running && NoTransient(c.replies) && evs != [] && evs[0].evType == EV_SYN
    requires ClientStep(c, m, evs[0]).running
    requires var c1 := ClientStep(c, m, evs[0]);
      ClientRun(c1, m, evs[1..]).wire == c1.wire + SentFrames(Track(c1.report, m, evs[1..]).1)
    ensures ClientRun(c, m, evs).wire == c.wire + SentFrames(Track(c.report, m, evs).1)
  {
    var c1 := ClientStep(c, m, evs[0]);
    assert ClientRun(c, m, evs) == ClientRun(c1, m, evs[1..]);
    SynSent(c, m, evs[0]);
    TrackSyn(c.report, m, evs);
    AppendAssoc(c.wire, SentFrame(TAG_REPORT, c.report.Bytes()), SentFrames(Track(c.report, m, evs[1..]).1));
  }

  /** The step of `ClientRunDelivers` for any other event in front. */
  lemma DeliversOther(c: Client, m: IndexMaps, evs: seq<InputEvent>)
    requires c.running && evs != [] && evs[0].evType != EV_SYN
    requires var c1 := ClientStep(c, m, evs[0]);
      && ClientRun(c1, m, evs[1..]).wire == c1.wire + SentFrames(Track(c1.report, m, evs[1..]).1)
      && ClientRun(c1, m, evs[1..]).report == Track(c1.report, m, evs[1..]).0
    ensures ClientRun(c, m, evs).wire == c.wire + SentFrames(Track(c.report, m, evs).1)
    ensures ClientRun(c, m, evs).report == Track(c.report, m, evs).0
  {
    TrackOther(c.report, m, evs);
  }

  lemma TrackSyn(v: Report, m: IndexMaps, evs: seq<InputEvent>)
    requires evs != [] && evs[0].evType == EV_SYN
    ensures Track(v, m, evs).0 == Track(v, m, evs[1..]).0
    ensures SentFrames(Track(v, m, evs).1) == SentFrame(TAG_REPORT, v.Bytes()) + SentFrames(Track(v, m, evs[1..]).1)
  {
    var snaps := Track(v, m, evs[1..]).1;
    assert Track(v, m, evs).1 == [v] + snaps;
    assert ([v] + snaps)[1..] == snaps;
  }

  lemma TrackOther(v: Report, m: IndexMaps, evs: seq<InputEvent>)
    requires evs != [] && evs[0].evType != EV_SYN
    ensures Track(v, m, evs) == Track(ApplyEvent(v, m, evs[0]), m, evs[1..])
  {
  }

  /** A transmit that succeeded put the whole cut frame of the report on the wire. */
  lemma SynSent(c: Client, m: IndexMaps, ev: InputEvent)
    requires c.running && NoTransient(c.replies) && ev.evType == EV_SYN
    requires ClientStep(c, m, ev).running
    ensures ClientStep(c, m, ev).wire == c.wire + SentFrame(TAG_REPORT, c.report.Bytes())
    ensures ClientStep(c, m, ev).report == c.report
    ensures NoTransient(ClientStep(c, m, ev).replies)
  {
    TransmitWire(TAG_REPORT, c.report.Bytes(), c.replies);
    NoTransientSuffix(c.replies, TransmitAsWritten(TAG_REPORT, c.report.Bytes(), c.replies).value.2);
  }

  /** What one `read` of the input device gave: whole events, or the end (0 bytes, or an error). */
  datatype EventRead = Events(evs: seq<InputEvent>) | ReadStop

  /** The events the loop sees: those of the batches before the first stop. */
  function ReadEvents(batches: seq<EventRead>): (r: seq<InputEvent>)
    decreases |batches|
  {
    if batches == [] || batches[0].ReadStop? then [] else batches[0].evs + ReadEvents(batches[1..])
  }

  predicate BatchesInMap(batches: seq<EventRead>)
  {
    forall k :: 0 <= k < |batches| && batches[k].Events? ==> EventsInMap(batches[k].evs)
  }

  lemma {:induction false} ReadEventsInMap(batches: seq<EventRead>)
    requires BatchesInMap(batches)
    ensures EventsInMap(ReadEvents(batches))
    decreases |batches|
  {
    if batches != [] && batches[0].Events? {
      ReadEventsInMap(batches[1..]);
      var a, b := batches[0].evs, ReadEvents(batches[1..]);
      assert forall i :: |a| <= i < |a + b| ==> (a + b)[i] == b[i - |a|];
    }
  }

  /** One event of the loop: EV_SYN transmits the report, any other event updates it in place. */
  method HandleEvent(indexMap: IndexMap, report: ReportBuffer, ev: InputEvent, wire: seq<uint8>, pending: seq<WriteReply>)
    returns (wire': seq<uint8>, pending': seq<WriteReply>, running: bool)
    requires indexMap.Valid() && report.Valid() && MapsFit(indexMap.State(), report.values) && CodeInMap(ev)
    modifies report, report.raw
    ensures report.Valid() && MapsFit(indexMap.State(), report.values)
    ensures ClientStep(Client(old(report.values), wire, pending, true), indexMap.State(), ev)
      == Client(report.values, wire', pending', running)
  {
    if ev.evType == EV_SYN {
      var defined, status, sent, used := Transmit(TAG_REPORT, report.raw, pending);
      if defined {
        wire', pending', running := wire + sent, pending[used..], status == Sent;
      } else {
        wire', pending', running := wire, pending, false;
      }
    } else {
      UpdateReport(indexMap, report, ev);
      wire', pending', running := wire, pending, true;
    }
  }

  /** The events of one batch, in order, until a transmit fails. */
  method HandleBatch(indexMap: IndexMap, report: ReportBuffer, evs: seq<InputEvent>, wire: seq<uint8>,
                     pending: seq<WriteReply>)
    returns (wire': seq<uint8>, pending': seq<WriteReply>, running: bool)
    requires indexMap.Valid() && report.Valid() && MapsFit(indexMap.State(), report.values) && EventsInMap(evs)
    modifies report, report.raw
    ensures report.Valid() && MapsFit(indexMap.State(), report.values)
    ensures ClientRun(Client(old(report.values), wire, pending, true), indexMap.State(), evs)
      == Client(report.values, wire', pending', running)
  {
    ghost var m := indexMap.State();
    ghost var target := ClientRun(Client(report.values, wire, pending, true), m, evs);
    wire', pending' := wire, pending;
    for j := 0 to |evs|
      invariant report.Valid() && MapsFit(m, report.values) && indexMap.State() == m
      invariant target == ClientRun(Client(report.values, wire', pending', true), m, evs[j..])
    {
      assert evs[j..][1..] == evs[j + 1..];
      wire', pending', running := HandleEvent(indexMap, report, evs[j], wire', pending');
      if !running {
        StoppedStays(Client(report.values, wire', pending', false), m, evs[j + 1..]);
        return;
      }
    }
    running := true;
  }

  /**
   * The `while (1)` loop over the batches: every event other than EV_SYN
   * updates the report in place; EV_SYN transmits it, and a failed transmit
   * returns. `wire` is what reached the socket.
   */
  method EventLoop(indexMap: IndexMap, report: ReportBuffer, batches: seq<EventRead>, replies: seq<WriteReply>)
    returns (wire: seq<uint8>)
    requires indexMap.Valid() && report.Valid() && MapsFit(indexMap.State(), report.values) && BatchesInMap(batches)
    modifies report, report.raw
    ensures report.Valid()
    ensures EventsInMap(ReadEvents(batches))
    ensures var r := ClientRun(Client(old(report.values), [], replies, true), indexMap.State(), ReadEvents(batches));
      report.values == r.report && wire == r.wire
  {
    ghost var m := indexMap.State();
    ReadEventsInMap(batches);
    ghost var target := ClientRun(Client(report.values, [], replies, true), m, ReadEvents(batches));
    wire := [];
    var pending := replies;
    var i := 0;
    while i < |batches|
      invariant i <= |batches| && report.Valid() && MapsFit(m, report.values)
      invariant indexMap.State() == m
      invariant target == ClientRun(Client(report.values, wire, pending, true), m, ReadEvents(batches[i..]))
    {
      if batches[i].ReadStop? {
        return;
      }
      var evs := batches[i].evs;
      assert ReadEvents(batches[i..]) == evs + ReadEvents(batches[i + 1..]) by {
        assert batches[i..][1..] == batches[i + 1..];
      }
      ghost var c := Client(report.values, wire, pending, true);
      ClientRunAppend(c, m, evs, ReadEvents(batches[i + 1..]));
      var running;
      wire, pending, running := HandleBatch(indexMap, report, evs, wire, pending);
      if !running {
        StoppedStays(Client(report.values, wire, pending, false), m, ReadEvents(batches[i + 1..]));
        return;
      }
      i := i + 1;
    }
  }

  // ----------------------------------------------------------------------
  // The whole client (netstick.c:151-300)

  /** `calloc(1, rawReportSize)` for the record's counts: every slot zero. */
  function InitialReport(cfg: JsConfig): (v: Report)
    requires cfg.CountsInRange()
    ensures |v.abs| == cfg.absAxisCount as int && |v.rel| == cfg.relAxisCount as int
    ensures |v.buttons| == cfg.buttonCount as int
  {
    ZeroReport(cfg.absAxisCount as int, cfg.relAxisCount as int, cfg.buttonCount as int)
  }

  /**
   * `jsproxy_client_uinput` once the record `cfg` and the map `m` are
   * built: the record goes out as tag 0, and the client returns if that
   * transmit fails (or stops where it is undefined); otherwise the event
   * loop runs from a zeroed report. The result is the client when the loop
   * ends.
   */
  function ClientSession(cfg: JsConfig, m: IndexMaps, batches: seq<EventRead>, replies: seq<WriteReply>): Client
    requires cfg.CountsInRange()
  {
    match TransmitAsWritten(TAG_CONFIG, ConfigBytes(cfg), replies)
    case None => Client(InitialReport(cfg), [], replies, false)
    case Some((st, out, u)) =>
      if st != Sent then Client(InitialReport(cfg), out, replies[u..], false)
      else
        var r := ClientRun(Client(InitialReport(cfg), [], replies[u..], true), m, ReadEvents(batches));
        r.(wire := out + r.wire)
  }

  /** The reports the session's event loop sends, one per EV_SYN, as they stood then. */
  function SessionReports(cfg: JsConfig, m: IndexMaps, batches: seq<EventRead>): seq<Report>
    requires cfg.CountsInRange()
  {
    Track(InitialReport(cfg), m, ReadEvents(batches)).1
  }

  /**
   * A session whose transmits all succeed, with no EINTR or EAGAIN from
   * `write`, puts on the wire the cut frame of the record and then one cut
   * report frame per EV_SYN, nothing else.
   */
  lemma SessionFrames(cfg: JsConfig, m: IndexMaps, batches: seq<EventRead>, replies: seq<WriteReply>)
    requires cfg.CountsInRange() && NoTransient(replies) && ClientSession(cfg, m, batches, replies).running
    ensures ClientSession(cfg, m, batches, replies).wire
      == SentFrame(TAG_CONFIG, ConfigBytes(cfg)) + SentFrames(SessionReports(cfg, m, batches))
  {
    TransmitWire(TAG_CONFIG, ConfigBytes(cfg), replies);
    var u := TransmitAsWritten(TAG_CONFIG, ConfigBytes(cfg), replies).value.2;
    NoTransientSuffix(replies, u);
    var c0 := Client(InitialReport(cfg), [], replies[u..], true);
    var r := ClientRun(c0, m, ReadEvents(batches));
    assert ClientSession(cfg, m, batches, replies) == r.(wire := SentFrame(TAG_CONFIG, ConfigBytes(cfg)) + r.wire);
    ClientRunDelivers(c0, m, ReadEvents(batches));
    assert r.wire == SentFrames(SessionReports(cfg, m, batches));
  }

  /** The record's transmit: `encode_and_transmit(sockFd, 0, &config, sizeof(config))`. */
  method SendConfig(config: JsConfig, replies: seq<WriteReply>)
    returns (defined: bool, status: SendStatus, wire: seq<uint8>, used: nat)
    requires config.WellFormed()
    ensures var r := TransmitAsWritten(TAG_CONFIG, ConfigBytes(config), replies);
      (defined <==> r.Some?) && (defined ==> r.value == (status, wire, used))
  {
    ConfigRoundTrip(config);
    var bytes := ConfigBytes(config);
    var data := new uint8[|bytes|](k requires 0 <= k < |bytes| => bytes[k]);
    assert data[..] == bytes;
    defined, status, wire, used := Transmit(TAG_CONFIG, data, replies);
  }

  /**
   * The client once the record and the index maps exist: send the record,
   * and on success run the event loop over a fresh report buffer. `wire`
   * is everything that reached the socket.
   */
  method Serve(config: JsConfig, indexMap: IndexMap, batches: seq<EventRead>, replies: seq<WriteReply>)
    returns (wire: seq<uint8>)
    requires config.WellFormed() && config.CountsInRange() && indexMap.Valid() && BatchesInMap(batches)
    requires MapsFit(indexMap.State(), InitialReport(config))
    ensures wire == ClientSession(config, indexMap.State(), batches, replies).wire
  {
    var defined, status, sent, used := SendConfig(config, replies);
    if !defined {
      return [];
    }
    if status != Sent {
      return sent;
    }
    var report := new ReportBuffer.Create(config);
    var rest := EventLoop(indexMap, report, batches, replies[used..]);
    wire := sent + rest;
  }

  /** `jsproxy_client_uinput` from the enumeration on: build the record and the index map, then serve. */
  method Session(vid: uint16, pid: uint16, devName: seq<uint8>, bits: seq<seq<uint8>>, info: seq<AbsAxisInfo>,
                 batches: seq<EventRead>, replies: seq<WriteReply>) returns (wire: seq<uint8>)
    requires |devName| == 256 && Capabilities(bits) && |info| == ABS_CNT && BatchesInMap(batches)
    ensures var cfg := ClientConfig(vid, pid, devName, bits, info);
      cfg.CountsInRange() && wire == ClientSession(cfg, ClientMaps(bits), batches, replies).wire
  {
    var config, indexMap := Enumerate(vid, pid, devName, bits, info);
    ClientMapsFit(vid, pid, devName, bits, info);
    wire := Serve(config, indexMap, batches, replies);
  }
}
