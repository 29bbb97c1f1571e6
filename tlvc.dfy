/**
 * The TLVC envelope: a packed header `{tag: u16, length: u16}`, the payload
 * and a footer `{checksum: u16}`, where the checksum is the 16-bit
 * wrap-around sum of the header and payload bytes.
 */
module Tlvc {
  import opened Bytes
  import opened Wrappers

  const HEADER_SIZE: nat := 4
  const FOOTER_SIZE: nat := 2

  datatype TlvcHeader = TlvcHeader(tag: uint16, length: uint16)
  datatype TlvcFooter = TlvcFooter(checksum: uint16)

  /**
   * `tlvc_data_t`. The payload is not copied: `data` and `dataOffset` say
   * where in which buffer it lies, and `dataLen` how long it is.
   */
  datatype TlvcData = TlvcData(header: TlvcHeader, footer: TlvcFooter,
                               data: array<uint8>, dataOffset: nat, dataLen: nat)

  /** A decoded envelope: its header and footer, the payload being bytes 4 .. 4 + length. */
  datatype Envelope = Envelope(header: TlvcHeader, footer: TlvcFooter)

  function HeaderBytes(h: TlvcHeader): (r: seq<uint8>)
    ensures |r| == HEADER_SIZE
  {
    U16Bytes(h.tag) + U16Bytes(h.length)
  }

  /** The 16-bit wrap-around byte sum both sides compute. */
  function Checksum(bs: seq<uint8>): uint16
  {
    ToU16(Sum(bs))
  }

  /** The envelope on the wire: header, payload, footer. */
  function Serialize(h: TlvcHeader, payload: seq<uint8>, f: TlvcFooter): (r: seq<uint8>)
    ensures |r| == HEADER_SIZE + |payload| + FOOTER_SIZE
  {
    HeaderBytes(h) + payload + U16Bytes(f.checksum)
  }

  /** The header and footer `tlvc_encode_data` computes for a payload. */
  function Encode(tag: uint16, payload: seq<uint8>): Envelope
  {
    var h := TlvcHeader(tag, ToU16(|payload|));
    Envelope(h, TlvcFooter(Checksum(HeaderBytes(h) + payload)))
  }

  /**
   * What `tlvc_decode_data` accepts: at least 6 bytes, a length field equal
   * to the payload size, and a footer equal to the checksum of the rest.
   */
  function Decode(bs: seq<uint8>): Option<Envelope>
  {
    if |bs| < HEADER_SIZE + FOOTER_SIZE then None
    else
      var h := TlvcHeader(U16Of(bs[0..2]), U16Of(bs[2..4]));
      if h.length as int != |bs| - FOOTER_SIZE - HEADER_SIZE then None
      else
        var f := TlvcFooter(U16Of(bs[|bs| - 2..]));
        if f.checksum != Checksum(bs[..|bs| - 2]) then None
        else Some(Envelope(h, f))
  }

  /** The payload view of an accepted buffer. */
  function Payload(bs: seq<uint8>): seq<uint8>
    requires |bs| >= HEADER_SIZE + FOOTER_SIZE
  {
    bs[HEADER_SIZE..|bs| - FOOTER_SIZE]
  }

  /** The sum of a prefix grows by the next byte, and so does its 16-bit remainder. */
  lemma SumStep(s: seq<uint8>, i: nat)
    requires i < |s|
    ensures Sum(s[..i + 1]) == Sum(s[..i]) + s[i]
    ensures (Sum(s[..i]) % 0x1_0000 + s[i]) % 0x1_0000 == Sum(s[..i + 1]) % 0x1_0000
  {
    assert s[..i + 1][..i] == s[..i];
    ModAdd(Sum(s[..i]), s[i]);
  }

  /** Adding to a 16-bit remainder and reducing again is reducing the sum. */
  lemma ModAdd(a: nat, b: nat)
    ensures (a % 0x1_0000 + b) % 0x1_0000 == (a + b) % 0x1_0000
  {
    var q := a / 0x1_0000;
    assert a == q * 0x1_0000 + a % 0x1_0000;
    assert a + b == (a % 0x1_0000 + b) + q * 0x1_0000;
  }

  /** One more byte added into a running checksum that started from `a`. */
  lemma ChecksumStep(c: int, a: nat, s: seq<uint8>, i: nat)
    requires i < |s| && c == (a + Sum(s[..i])) % 0x1_0000
    ensures (c + s[i]) % 0x1_0000 == (a + Sum(s[..i + 1])) % 0x1_0000
  {
    SumStep(s, i);
    ModAdd(a + Sum(s[..i]), s[i]);
  }

  /** `tlvc_encode_data`: fills in the header and checksum; `data` is the caller's buffer. */
  method EncodeData(tag: uint16, dataLen: nat, data: array<uint8>) returns (t: TlvcData)
    requires dataLen <= data.Length
    ensures t.header == TlvcHeader(tag, ToU16(dataLen))
    ensures t.data == data && t.dataOffset == 0 && t.dataLen == dataLen
    ensures t.footer.checksum == Checksum(HeaderBytes(t.header) + data[..dataLen])
  {
    var header := TlvcHeader(tag, ToU16(dataLen));
    var checksum: uint16 := 0;
    var raw := HeaderBytes(header);
    for i := 0 to HEADER_SIZE
      invariant checksum == (0 + Sum(raw[..i])) % 0x1_0000
    {
      ChecksumStep(checksum, 0, raw, i);
      checksum := (checksum + raw[i]) % 0x1_0000;
    }
    assert raw[..HEADER_SIZE] == raw;
    ghost var d := data[..];
    for i := 0 to dataLen
      invariant checksum == (Sum(raw) + Sum(d[..i])) % 0x1_0000
    {
      ChecksumStep(checksum, Sum(raw), d, i);
      checksum := (checksum + data[i]) % 0x1_0000;
    }
    assert d[..dataLen] == data[..dataLen];
    SumAppend(raw, data[..dataLen]);
    t := TlvcData(header, TlvcFooter(checksum), data, 0, dataLen);
  }

  /**
   * `tlvc_decode_data` over the first `dataLen` bytes of `buf`. On success
   * the payload is left in place at offset 4.
   */
  method DecodeData(buf: array<uint8>, dataLen: nat) returns (r: Option<TlvcData>)
    requires dataLen <= buf.Length
    ensures r.None? <==> Decode(buf[..dataLen]).None?
    ensures r.Some? ==>
      && r.value.header == Decode(buf[..dataLen]).value.header
      && r.value.footer == Decode(buf[..dataLen]).value.footer
      && r.value.data == buf && r.value.dataOffset == HEADER_SIZE
      && r.value.dataLen == r.value.header.length as int
  {
    if dataLen < FOOTER_SIZE + HEADER_SIZE {
      return None;
    }
    var bs := buf[..dataLen];
    var header := TlvcHeader(buf[0] as int + 0x100 * buf[1] as int, buf[2] as int + 0x100 * buf[3] as int);
    assert bs[0..2] == [buf[0], buf[1]] && bs[2..4] == [buf[2], buf[3]];
    if header.length as int != dataLen - FOOTER_SIZE - HEADER_SIZE {
      return None;
    }
    var checksum: uint16 := 0;
    for i := 0 to dataLen - 2
      invariant checksum == Sum(bs[..i]) % 0x1_0000
    {
      SumStep(bs, i);
      checksum := (checksum + buf[i]) % 0x1_0000;
    }
    var at := HEADER_SIZE + header.length as int;
    var footer := TlvcFooter(buf[at] as int + 0x100 * buf[at + 1] as int);
    assert bs[|bs| - 2..] == [buf[at], buf[at + 1]];
    if footer.checksum != checksum {
      return None;
    }
    r := Some(TlvcData(header, footer, buf, HEADER_SIZE, header.length as int));
  }

  /** Round trip: what encode produces, serialized, decodes to the same tag and payload. */
  lemma RoundTrip(tag: uint16, payload: seq<uint8>)
    requires |payload| < 0x1_0000
    ensures var e := Encode(tag, payload);
      && Decode(Serialize(e.header, payload, e.footer)) == Some(e)
      && e.header.tag == tag && e.header.length as int == |payload|
      && Payload(Serialize(e.header, payload, e.footer)) == payload
  {
    var e := Encode(tag, payload);
    var bs := Serialize(e.header, payload, e.footer);
    var hb := HeaderBytes(e.header);
    assert bs[0..2] == U16Bytes(tag) && bs[2..4] == U16Bytes(e.header.length);
    U16RoundTrip(tag);
    U16RoundTrip(e.header.length);
    assert bs[|bs| - 2..] == U16Bytes(e.footer.checksum);
    U16RoundTrip(e.footer.checksum);
    assert bs[..|bs| - 2] == hb + payload;
    assert Payload(bs) == payload;
  }

  /** Soundness: an accepted buffer is exactly an envelope around its payload with a matching checksum. */
  lemma DecodeSound(bs: seq<uint8>)
    requires Decode(bs).Some?
    ensures var e := Decode(bs).value;
      && e.header.length as int == |Payload(bs)|
      && e.footer.checksum == Checksum(HeaderBytes(e.header) + Payload(bs))
      && bs == Serialize(e.header, Payload(bs), e.footer)
      && e == Encode(e.header.tag, Payload(bs))
  {
    var e := Decode(bs).value;
    U16BytesOf(bs[0..2]);
    U16BytesOf(bs[2..4]);
    U16BytesOf(bs[|bs| - 2..]);
    assert bs[..4] == bs[0..2] + bs[2..4];
    assert bs[..|bs| - 2] == HeaderBytes(e.header) + Payload(bs);
    assert bs == bs[..|bs| - 2] + bs[|bs| - 2..];
  }

  /** Two 2-byte fields with equal values are equal. */
  lemma U16OfInjective(a: seq<uint8>, b: seq<uint8>)
    requires |a| == 2 && |b| == 2 && U16Of(a) == U16Of(b)
    ensures a == b
  {
    U16BytesOf(a);
    U16BytesOf(b);
  }

  /**
   * Error detection: changing any one byte of an accepted buffer makes it
   * rejected. A changed length field fails the length test; any other
   * changed header or payload byte moves the byte sum by 1 .. 255, which
   * the 16-bit checksum sees; a changed footer byte changes the stored value.
   */
  lemma SingleByteCorruptionDetected(bs: seq<uint8>, k: nat, v: uint8)
    requires Decode(bs).Some? && k < |bs| && v != bs[k]
    ensures Decode(bs[k := v]).None?
  {
    var cs := bs[k := v];
    var n := |bs|;
    if 2 <= k < 4 {
      assert cs[0..2] == bs[0..2];
      assert cs[2..4][k - 2] != bs[2..4][k - 2];
      if U16Of(cs[2..4]) == U16Of(bs[2..4]) {
        U16OfInjective(cs[2..4], bs[2..4]);
      }
    } else if k < n - 2 {
      assert cs[2..4] == bs[2..4];
      assert cs[n - 2..] == bs[n - 2..];
      assert cs[..n - 2] == bs[..n - 2][k := v];
      SumUpdate(bs[..n - 2], k, v);
      var a, b := Sum(bs[..n - 2]), Sum(cs[..n - 2]);
      assert b == a - bs[k] + v;
      assert ToU16(a) != ToU16(b) by {
        ModDistinct(a, b);
      }
    } else {
      assert cs[2..4] == bs[2..4];
      assert cs[..n - 2] == bs[..n - 2];
      assert cs[n - 2..][k - (n - 2)] != bs[n - 2..][k - (n - 2)];
      if U16Of(cs[n - 2..]) == U16Of(bs[n - 2..]) {
        U16OfInjective(cs[n - 2..], bs[n - 2..]);
      }
    }
  }

  /** Two naturals closer than 2^16 but different differ modulo 2^16. */
  lemma ModDistinct(a: nat, b: nat)
    requires a != b && a - b < 0x1_0000 && b - a < 0x1_0000
    ensures a % 0x1_0000 != b % 0x1_0000
  {
  }
}
