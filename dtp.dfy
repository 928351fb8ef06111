/**
  Dynamic Trunking Protocol (DTP) decoder.

  A DTP packet is one version byte followed by Type-Length-Value records:
  a big-endian 16-bit type, a big-endian 16-bit length, then that many
  value bytes. The decoder is tolerant in the way Python's slicing is:
  a value that runs past the end of the buffer is cut short silently, while
  one to three bytes left where a type/length prefix is expected is an error.
 */
module Dtp {

  type byte = x: int | 0 <= x < 0x100
  type uint16 = x: int | 0 <= x < 0x1_0000

  /** TLV type of the trunk (VTP domain) name. Never inspected by the decoder. */
  const TRUNK_NAME: uint16 := 0x01
  /** TLV type of the sender's MAC address. Never inspected by the decoder. */
  const MAC_ADDR: uint16 := 0x04

  /** One decoded record; the length field is not kept, only its effect. */
  datatype Tlv = Tlv(tlvType: uint16, value: seq<byte>)

  /** A decoded packet: the header byte and the records in wire order. */
  datatype Packet = Packet(version: byte, records: seq<Tlv>)

  /**
    Ways decoding can fail. The tolerant decoder of this module produces only
    the first two; TruncatedTlvValue belongs to the strict variant in DtpLemmas.
   */
  datatype Error = TruncatedHeader | TruncatedTlvPrefix | TruncatedTlvValue

  datatype Result<T> = Ok(value: T) | Err(error: Error)

  function Min(a: int, b: int): int { if a <= b then a else b }

  /** The unsigned big-endian value of two bytes (one half of struct format '>HH'). */
  function Be16(hi: byte, lo: byte): (n: uint16)
    ensures 256 * hi <= n < 256 * (hi + 1) && n - 256 * hi == lo
  {
    hi * 256 + lo
  }

  /** Puts a record list in front of the outcome of decoding the rest. */
  function Prepend(rs: seq<Tlv>, r: Result<seq<Tlv>>): Result<seq<Tlv>>
  {
    match r
    case Ok(tail) => Ok(rs + tail)
    case Err(e) => Err(e)
  }

  /** Bytes a record list occupies on the wire: a 4-byte prefix plus the value, per record. */
  function WireSize(rs: seq<Tlv>): nat
  {
    if rs == [] then 0 else 4 + |rs[0].value| + WireSize(rs[1..])
  }

  /**
    The TLV loop as a function of the bytes after the version byte: read the
    prefix at the cursor, take up to `l` value bytes, advance past them (or to
    the end of the buffer), repeat until nothing is left. The decoded records
    always account for every byte, and the only failure is a short prefix.
   */
  function DecodeRecords(rest: seq<byte>): (r: Result<seq<Tlv>>)
    ensures r.Err? ==> r.error == TruncatedTlvPrefix
    decreases |rest|
  {
    if |rest| == 0 then Ok([])
    else if |rest| < 4 then Err(TruncatedTlvPrefix)
    else
      var t := Be16(rest[0], rest[1]);
      var l: int := Be16(rest[2], rest[3]);
      var end := Min(4 + l, |rest|);
      Prepend([Tlv(t, rest[4..end])], DecodeRecords(rest[end..]))
  }

  /** The whole packet: byte 0 is the version, the TLV loop runs on the bytes after it. */
  function Decode(buf: seq<byte>): (r: Result<Packet>)
    ensures |buf| == 0 <==> r == Err(TruncatedHeader)
    ensures r.Ok? ==> r.value.version == buf[0]
  {
    if |buf| == 0 then Err(TruncatedHeader)
    else
      match DecodeRecords(buf[1..])
      case Ok(rs) => Ok(Packet(buf[0], rs))
      case Err(e) => Err(e)
  }

  /**
    The `while buf:` loop: `buf` is reassigned to what follows each record,
    and each record is appended to `tvs`.
   */
  method ParseTlvs(rest: seq<byte>) returns (r: Result<seq<Tlv>>)
    ensures r == DecodeRecords(rest)
  {
    var tvs: seq<Tlv> := [];
    var buf := rest;
    assert DecodeRecords(rest).Ok? ==> [] + DecodeRecords(rest).value == DecodeRecords(rest).value;
    while |buf| > 0
      invariant DecodeRecords(rest) == Prepend(tvs, DecodeRecords(buf))
      decreases |buf|
    {
      if |buf| < 4 {
        assert DecodeRecords(buf) == Err(TruncatedTlvPrefix);
        return Err(TruncatedTlvPrefix);
      }
      var t := Be16(buf[0], buf[1]);
      var l: int := Be16(buf[2], buf[3]);
      var end := Min(4 + l, |buf|);
      DecodeStep(buf);
      PrependTwice(tvs, [Tlv(t, buf[4..end])], DecodeRecords(buf[end..]));
      tvs := tvs + [Tlv(t, buf[4..end])];
      buf := buf[end..];
    }
    assert tvs + [] == tvs;
    r := Ok(tvs);
  }

  /** One turn of the TLV loop: the record at the front, then the loop on what follows it. */
  lemma DecodeStep(buf: seq<byte>)
    requires |buf| >= 4
    ensures var end := Min(4 + Be16(buf[2], buf[3]), |buf|);
      DecodeRecords(buf) == Prepend([Tlv(Be16(buf[0], buf[1]), buf[4..end])], DecodeRecords(buf[end..]))
  {
  }

  lemma PrependTwice(a: seq<Tlv>, b: seq<Tlv>, r: Result<seq<Tlv>>)
    ensures Prepend(a, Prepend(b, r)) == Prepend(a + b, r)
  {
    if r.Ok? {
      assert a + (b + r.value) == (a + b) + r.value;
    }
  }

  /** What `self.data` holds: the raw bytes after the header, or, once decoded, the records. */
  datatype Payload = Bytes(raw: seq<byte>) | Tlvs(records: seq<Tlv>)

  /** The DTP packet object: the header field `v` and the body `data`. */
  class DtpPacket {
    var v: byte
    var data: Payload

    constructor ()
      ensures v == 0 && data == Bytes([])
    {
      v := 0;
      data := Bytes([]);
    }

    /**
      Splits off the version byte (the base class's header unpack), then
      replaces `data` by the decoded records. On a short prefix the header
      has already been stored and `data` still holds the raw bytes; on an
      empty buffer nothing changes.
     */
    method Unpack(buf: seq<byte>) returns (err: Result<()>)
      modifies this
      ensures err.Err? <==> Decode(buf).Err?
      ensures err.Err? ==> err.error == Decode(buf).error
      ensures |buf| == 0 ==> v == old(v) && data == old(data)
      ensures |buf| > 0 ==> v == buf[0]
      ensures Decode(buf).Ok? ==> data == Tlvs(Decode(buf).value.records)
      ensures |buf| > 0 && Decode(buf).Err? ==> data == Bytes(buf[1..])
    {
      if |buf| == 0 {
        return Err(TruncatedHeader);
      }
      v := buf[0];
      data := Bytes(buf[1..]);
      var r := ParseTlvs(data.raw);
      match r
      case Ok(tvs) =>
        data := Tlvs(tvs);
        err := Ok(());
      case Err(e) =>
        err := Err(e);
    }
  }
}
