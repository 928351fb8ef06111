/**
  Properties of the DTP decoder: an encoder used only as a proof aid, the
  round trip through it, the edge cases of the TLV loop (empty record list,
  zero-length values, a short prefix, a short value), and a strict decoder
  that rejects short values, with the inputs on which the two agree.
 */
module DtpLemmas {
  import opened Dtp

  /** The two big-endian bytes of a 16-bit value. */
  function ToBe16(n: uint16): (s: seq<byte>)
    ensures |s| == 2 && Be16(s[0], s[1]) == n
  {
    [(n / 256) as byte, (n % 256) as byte]
  }

  /** Reading two bytes and writing them back gives the same two bytes. */
  lemma Be16RoundTrip(hi: byte, lo: byte)
    ensures ToBe16(Be16(hi, lo)) == [hi, lo]
  {
    var n := Be16(hi, lo);
    assert n / 256 == hi as int;
    assert n % 256 == lo as int;
  }

  /** A record whose value fits the 16-bit length field. */
  predicate WellFormed(x: Tlv)
  {
    |x.value| < 0x1_0000
  }

  predicate AllWellFormed(rs: seq<Tlv>)
  {
    forall i :: 0 <= i < |rs| ==> WellFormed(rs[i])
  }

  /** The wire bytes of one record whose length field says `l`, followed by the value bytes `v`. */
  function Frame(t: uint16, l: uint16, v: seq<byte>): (s: seq<byte>)
    ensures |s| == 4 + |v|
  {
    ToBe16(t) + ToBe16(l) + v
  }

  function EncodeRecord(x: Tlv): seq<byte>
    requires WellFormed(x)
  {
    Frame(x.tlvType, |x.value|, x.value)
  }

  function EncodeRecords(rs: seq<Tlv>): (s: seq<byte>)
    requires AllWellFormed(rs)
    ensures |s| == WireSize(rs)
  {
    if rs == [] then [] else EncodeRecord(rs[0]) + EncodeRecords(rs[1..])
  }

  function Encode(p: Packet): seq<byte>
    requires AllWellFormed(p.records)
  {
    [p.version] + EncodeRecords(p.records)
  }

  // ---------------------------------------------------------------------
  // The header byte

  /** Changing the version byte changes nothing but the version. */
  lemma VersionIndependent(a: byte, b: byte, rest: seq<byte>)
    ensures Decode([a] + rest).Ok? <==> Decode([b] + rest).Ok?
    ensures Decode([a] + rest).Ok? ==>
      Decode([b] + rest) == Ok(Packet(b, Decode([a] + rest).value.records))
  {
    assert ([a] + rest)[1..] == rest;
    assert ([b] + rest)[1..] == rest;
  }

  /** A buffer holding only the version byte decodes to an empty record list. */
  lemma HeaderOnly(ver: byte)
    ensures Decode([ver]) == Ok(Packet(ver, []))
  {
    assert [ver][1..] == [];
  }

  // ---------------------------------------------------------------------
  // One record at the cursor

  /** The three parts of a frame followed by more bytes, as the decoder slices them. */
  lemma FrameParts(t: uint16, l: uint16, v: seq<byte>, tail: seq<byte>)
    ensures var s := Frame(t, l, v) + tail;
      |s| >= 4 && Be16(s[0], s[1]) == t && Be16(s[2], s[3]) == l &&
      s[4..4 + |v|] == v && s[4 + |v|..] == tail
  {
    var s := Frame(t, l, v) + tail;
    assert s[0] == ToBe16(t)[0] && s[1] == ToBe16(t)[1];
    assert s[2] == ToBe16(l)[0] && s[3] == ToBe16(l)[1];
    assert s[4..4 + |v|] == v;
    assert s[4 + |v|..] == tail;
  }

  /**
    A record with a correct length field is decoded as itself, and the loop
    goes on with whatever follows it.
   */
  lemma DecodeFrameExact(x: Tlv, tail: seq<byte>)
    requires WellFormed(x)
    ensures DecodeRecords(EncodeRecord(x) + tail) == Prepend([x], DecodeRecords(tail))
  {
    FrameParts(x.tlvType, |x.value|, x.value, tail);
  }

  /** A zero-length value gives an empty value and does not stop the loop. */
  lemma ZeroLengthContinues(t: uint16, rest: seq<byte>)
    ensures DecodeRecords(Frame(t, 0, []) + rest) == Prepend([Tlv(t, [])], DecodeRecords(rest))
  {
    DecodeFrameExact(Tlv(t, []), rest);
  }

  /**
    A length field larger than what is left yields the remaining bytes as the
    value, shorter than declared, and the loop ends without an error.
   */
  lemma DecodeFrameShort(t: uint16, l: uint16, v: seq<byte>)
    requires |v| < l
    ensures DecodeRecords(Frame(t, l, v)) == Ok([Tlv(t, v)])
  {
    FrameParts(t, l, v, []);
    var s := Frame(t, l, v) + [];
    assert s == Frame(t, l, v);
    assert Min(4 + l, |s|) == |s|;
    assert s[4..|s|] == v;
    assert s[|s|..] == [];
    assert [Tlv(t, v)] + [] == [Tlv(t, v)];
  }

  /**
    The decoder never looks at the type field: writing another type, TRUNK_NAME,
    MAC_ADDR or any other, into the first two bytes changes only that record's type.
   */
  lemma TypeNotInspected(s: seq<byte>, u: uint16)
    requires |s| >= 4
    ensures var a := DecodeRecords(s);
      var b := DecodeRecords(ToBe16(u) + s[2..]);
      a.Ok? == b.Ok? &&
      (a.Ok? ==> b.value == [Tlv(u, a.value[0].value)] + a.value[1..])
  {
    var s' := ToBe16(u) + s[2..];
    var end := Min(4 + Be16(s[2], s[3]), |s|);
    SameAfterType(s, s', end);
    DecodeStep(s);
    DecodeStep(s');
    var r := DecodeRecords(s[end..]);
    if r.Ok? {
      assert DecodeRecords(s).value == [Tlv(Be16(s[0], s[1]), s[4..end])] + r.value;
      assert DecodeRecords(s).value[0].value == s[4..end];
      assert DecodeRecords(s).value[1..] == r.value;
    }
  }

  lemma SameAfterType(s: seq<byte>, s': seq<byte>, end: nat)
    requires |s| >= 4 && |s'| == |s| && s'[2..] == s[2..] && 4 <= end <= |s|
    ensures s'[2] == s[2] && s'[3] == s[3] && s'[4..end] == s[4..end] && s'[end..] == s[end..]
  {
    assert s'[2] == s'[2..][0] && s[2] == s[2..][0];
    assert s'[3] == s'[2..][1] && s[3] == s[2..][1];
    forall k | 4 <= k < |s| ensures s'[k] == s[k] {
      assert s'[k] == s'[2..][k - 2] && s[k] == s[2..][k - 2];
    }
    assert s'[4..end] == s[4..end];
    assert s'[end..] == s[end..];
  }

  // ---------------------------------------------------------------------
  // Whole record lists

  /**
    Decoding encoded records followed by any bytes yields those records, in
    order and unfiltered, in front of whatever the following bytes decode to.
   */
  lemma {:induction false} DecodeRecordsAppend(rs: seq<Tlv>, tail: seq<byte>)
    requires AllWellFormed(rs)
    ensures DecodeRecords(EncodeRecords(rs) + tail) == Prepend(rs, DecodeRecords(tail))
  {
    if rs == [] {
      assert EncodeRecords(rs) + tail == tail;
      var r := DecodeRecords(tail);
      if r.Ok? { assert rs + r.value == r.value; }
    } else {
      assert WellFormed(rs[0]);
      var more := EncodeRecords(rs[1..]) + tail;
      assert EncodeRecords(rs) + tail == EncodeRecord(rs[0]) + more;
      DecodeFrameExact(rs[0], more);
      DecodeRecordsAppend(rs[1..], tail);
      PrependTwice([rs[0]], rs[1..], DecodeRecords(tail));
      assert [rs[0]] + rs[1..] == rs;
    }
  }

  lemma RecordsRoundTrip(rs: seq<Tlv>)
    requires AllWellFormed(rs)
    ensures DecodeRecords(EncodeRecords(rs)) == Ok(rs)
  {
    DecodeRecordsAppend(rs, []);
    assert EncodeRecords(rs) + [] == EncodeRecords(rs);
    assert rs + [] == rs;
  }

  /** Decoding an encoded packet gives back its version and its records in order. */
  lemma RoundTrip(p: Packet)
    requires AllWellFormed(p.records)
    ensures Decode(Encode(p)) == Ok(p)
  {
    assert Encode(p)[1..] == EncodeRecords(p.records);
    RecordsRoundTrip(p.records);
  }

  /** Bytes left over after the last whole record that cannot hold a prefix fail the decode. */
  lemma TrailingBytesFail(ver: byte, rs: seq<Tlv>, tail: seq<byte>)
    requires AllWellFormed(rs)
    requires 1 <= |tail| < 4
    ensures Decode([ver] + EncodeRecords(rs) + tail) == Err(TruncatedTlvPrefix)
  {
    assert ([ver] + EncodeRecords(rs) + tail)[1..] == EncodeRecords(rs) + tail;
    DecodeRecordsAppend(rs, tail);
  }

  /**
    A last record whose length field overstates what is left is kept, with the
    bytes that are there as its value; the records before it are unaffected.
   */
  lemma TruncatedLastValue(ver: byte, rs: seq<Tlv>, t: uint16, l: uint16, v: seq<byte>)
    requires AllWellFormed(rs)
    requires |v| < l
    ensures Decode([ver] + EncodeRecords(rs) + Frame(t, l, v)) == Ok(Packet(ver, rs + [Tlv(t, v)]))
  {
    assert ([ver] + EncodeRecords(rs) + Frame(t, l, v))[1..] == EncodeRecords(rs) + Frame(t, l, v);
    DecodeRecordsAppend(rs, Frame(t, l, v));
    DecodeFrameShort(t, l, v);
  }

  /** The bytes that remain of the last record once the final byte of its encoding is dropped. */
  function CutLast(x: Tlv): seq<byte>
    requires WellFormed(x)
  {
    if x.value == [] then ToBe16(x.tlvType) + [0]
    else Frame(x.tlvType, |x.value|, x.value[..|x.value| - 1])
  }

  /** An encoded packet without its last byte: whole records, then the cut last record. */
  lemma DropLastSplit(ver: byte, rs: seq<Tlv>)
    requires AllWellFormed(rs) && rs != []
    ensures AllWellFormed(rs[..|rs| - 1])
    ensures var b := Encode(Packet(ver, rs));
      b[..|b| - 1] == [ver] + EncodeRecords(rs[..|rs| - 1]) + CutLast(rs[|rs| - 1])
  {
    var init := rs[..|rs| - 1];
    var last := rs[|rs| - 1];
    EncodeSnoc(rs);
    CutLastIsPrefix(last);
    var e := EncodeRecord(last);
    var b := Encode(Packet(ver, rs));
    assert b == ([ver] + EncodeRecords(init)) + e;
    assert b[..|b| - 1] == ([ver] + EncodeRecords(init)) + e[..|e| - 1];
  }

  /** The encoding of a non-empty list is that of all but its last record, then the last record. */
  lemma {:induction false} EncodeSnoc(rs: seq<Tlv>)
    requires AllWellFormed(rs) && rs != []
    ensures AllWellFormed(rs[..|rs| - 1]) && WellFormed(rs[|rs| - 1])
    ensures EncodeRecords(rs) == EncodeRecords(rs[..|rs| - 1]) + EncodeRecord(rs[|rs| - 1])
  {
    WellFormedSplit(rs);
    assert WellFormed(rs[0]);
    if |rs| == 1 {
      assert rs[..0] == [];
      assert rs[1..] == [];
    } else {
      var tl := rs[1..];
      assert AllWellFormed(tl) by {
        forall i | 0 <= i < |tl| ensures WellFormed(tl[i]) { assert tl[i] == rs[i + 1]; }
      }
      EncodeSnoc(tl);
      var init := rs[..|rs| - 1];
      assert init[0] == rs[0] && init[1..] == tl[..|tl| - 1];
      assert tl[|tl| - 1] == rs[|rs| - 1];
    }
  }

  /** A well-formed record in front of a well-formed list, and its encoding. */
  lemma WellFormedCons(x: Tlv, rs: seq<Tlv>)
    requires WellFormed(x) && AllWellFormed(rs)
    ensures AllWellFormed([x] + rs)
    ensures EncodeRecords([x] + rs) == EncodeRecord(x) + EncodeRecords(rs)
  {
    var xs := [x] + rs;
    forall i | 0 <= i < |xs| ensures WellFormed(xs[i]) {
      if i > 0 { assert xs[i] == rs[i - 1]; }
    }
    assert xs[0] == x && xs[1..] == rs;
  }

  lemma WellFormedSplit(rs: seq<Tlv>)
    requires AllWellFormed(rs) && rs != []
    ensures AllWellFormed(rs[..|rs| - 1]) && WellFormed(rs[|rs| - 1])
  {
    var init := rs[..|rs| - 1];
    forall i | 0 <= i < |init| ensures WellFormed(init[i]) { assert init[i] == rs[i]; }
  }

  lemma CutLastIsPrefix(x: Tlv)
    requires WellFormed(x)
    ensures var e := EncodeRecord(x); e[..|e| - 1] == CutLast(x)
  {
    var e := EncodeRecord(x);
    if x.value == [] {
      assert ToBe16(0) == [0, 0];
      assert e == ToBe16(x.tlvType) + [0, 0];
    } else {
      var v := x.value[..|x.value| - 1];
      assert x.value == v + [x.value[|x.value| - 1]];
      assert e == Frame(x.tlvType, |x.value|, v) + [x.value[|x.value| - 1]];
    }
  }

  /**
    Dropping the last byte of an encoded packet: if the last value was not
    empty, the decode still succeeds, with that value one byte shorter; if it
    was empty, three prefix bytes are left over and the decode fails.
   */
  lemma DropLastByte(ver: byte, rs: seq<Tlv>)
    requires AllWellFormed(rs) && rs != []
    ensures var b := Encode(Packet(ver, rs));
      var last := rs[|rs| - 1];
      Decode(b[..|b| - 1]) ==
        if last.value == [] then Err(TruncatedTlvPrefix)
        else Ok(Packet(ver, rs[..|rs| - 1] + [Tlv(last.tlvType, last.value[..|last.value| - 1])]))
  {
    var init := rs[..|rs| - 1];
    var last := rs[|rs| - 1];
    DropLastSplit(ver, rs);
    if last.value == [] {
      TrailingBytesFail(ver, init, CutLast(last));
    } else {
      TruncatedLastValue(ver, init, last.tlvType, |last.value|, last.value[..|last.value| - 1]);
    }
  }

  // ---------------------------------------------------------------------
  // Consumption and declared lengths

  /** The length field of each record the loop reads, in order. */
  ghost function DeclaredLengths(rest: seq<byte>): seq<uint16>
    decreases |rest|
  {
    if |rest| < 4 then []
    else
      var l: int := Be16(rest[2], rest[3]);
      [l] + DeclaredLengths(rest[Min(4 + l, |rest|)..])
  }

  /**
    A successful decode accounts for every byte: the prefixes and values of the
    records add up to the length of the buffer, so nothing is ignored.
   */
  lemma {:induction false} DecodeConsumesAll(rest: seq<byte>)
    requires DecodeRecords(rest).Ok?
    ensures WireSize(DecodeRecords(rest).value) == |rest|
    decreases |rest|
  {
    if |rest| > 0 {
      var l: int := Be16(rest[2], rest[3]);
      var end := Min(4 + l, |rest|);
      var rs := DecodeRecords(rest).value;
      DecodeConsumesAll(rest[end..]);
      assert rs[1..] == DecodeRecords(rest[end..]).value;
    }
  }

  /**
    Every value is at most as long as its length field, and only the last
    record's value can be shorter than declared.
   */
  lemma {:induction false} ValuesWithinDeclared(rest: seq<byte>)
    requires DecodeRecords(rest).Ok?
    ensures var rs := DecodeRecords(rest).value;
      |DeclaredLengths(rest)| == |rs| &&
      forall i :: 0 <= i < |rs| ==>
        |rs[i].value| <= DeclaredLengths(rest)[i] &&
        (i < |rs| - 1 ==> |rs[i].value| == DeclaredLengths(rest)[i])
    decreases |rest|
  {
    if |rest| > 0 {
      var l: int := Be16(rest[2], rest[3]);
      var end := Min(4 + l, |rest|);
      var rs := DecodeRecords(rest).value;
      var ds := DeclaredLengths(rest);
      ValuesWithinDeclared(rest[end..]);
      var rs' := DecodeRecords(rest[end..]).value;
      var ds' := DeclaredLengths(rest[end..]);
      assert rs == [Tlv(Be16(rest[0], rest[1]), rest[4..end])] + rs';
      assert ds == [l] + ds';
      if end < 4 + l {
        assert rest[end..] == [];
      }
      forall i | 0 <= i < |rs|
        ensures |rs[i].value| <= ds[i] && (i < |rs| - 1 ==> |rs[i].value| == ds[i])
      {
        if i > 0 { assert rs[i] == rs'[i - 1] && ds[i] == ds'[i - 1]; }
      }
    }
  }

  // ---------------------------------------------------------------------
  // A strict decoder that rejects short values

  /** Like DecodeRecords, but a length field larger than what is left is an error. */
  function DecodeRecordsStrict(rest: seq<byte>): Result<seq<Tlv>>
    decreases |rest|
  {
    if |rest| == 0 then Ok([])
    else if |rest| < 4 then Err(TruncatedTlvPrefix)
    else
      var t := Be16(rest[0], rest[1]);
      var l: int := Be16(rest[2], rest[3]);
      if |rest| - 4 < l then Err(TruncatedTlvValue)
      else Prepend([Tlv(t, rest[4..4 + l])], DecodeRecordsStrict(rest[4 + l..]))
  }

  function DecodeStrict(buf: seq<byte>): Result<Packet>
  {
    if |buf| == 0 then Err(TruncatedHeader)
    else
      match DecodeRecordsStrict(buf[1..])
      case Ok(rs) => Ok(Packet(buf[0], rs))
      case Err(e) => Err(e)
  }

  /** Wherever the strict decoder succeeds, the tolerant one gives the same records. */
  lemma {:induction false} StrictAgreesWithTolerant(rest: seq<byte>)
    requires DecodeRecordsStrict(rest).Ok?
    ensures DecodeRecords(rest) == DecodeRecordsStrict(rest)
    decreases |rest|
  {
    if |rest| > 0 {
      var l: int := Be16(rest[2], rest[3]);
      assert Min(4 + l, |rest|) == 4 + l;
      StrictAgreesWithTolerant(rest[4 + l..]);
    }
  }

  /** The strict counterpart of DecodeFrameExact. */
  lemma StrictFrameExact(x: Tlv, tail: seq<byte>)
    requires WellFormed(x)
    ensures DecodeRecordsStrict(EncodeRecord(x) + tail) == Prepend([x], DecodeRecordsStrict(tail))
  {
    FrameParts(x.tlvType, |x.value|, x.value, tail);
  }

  lemma {:induction false} StrictAppend(rs: seq<Tlv>, tail: seq<byte>)
    requires AllWellFormed(rs)
    ensures DecodeRecordsStrict(EncodeRecords(rs) + tail) == Prepend(rs, DecodeRecordsStrict(tail))
  {
    if rs == [] {
      assert EncodeRecords(rs) + tail == tail;
      var r := DecodeRecordsStrict(tail);
      if r.Ok? { assert rs + r.value == r.value; }
    } else {
      assert WellFormed(rs[0]);
      var more := EncodeRecords(rs[1..]) + tail;
      assert EncodeRecords(rs) + tail == EncodeRecord(rs[0]) + more;
      StrictFrameExact(rs[0], more);
      StrictAppend(rs[1..], tail);
      PrependTwice([rs[0]], rs[1..], DecodeRecordsStrict(tail));
      assert [rs[0]] + rs[1..] == rs;
    }
  }

  /** Bytes that hold a whole record at the front are that record's frame followed by the rest. */
  lemma FrameOfBytes(rest: seq<byte>, l: uint16)
    requires 4 + l <= |rest| && l == Be16(rest[2], rest[3])
    ensures rest == Frame(Be16(rest[0], rest[1]), l, rest[4..4 + l]) + rest[4 + l..]
  {
    Be16RoundTrip(rest[0], rest[1]);
    Be16RoundTrip(rest[2], rest[3]);
    assert rest[..4] == ToBe16(Be16(rest[0], rest[1])) + ToBe16(l);
    assert rest == rest[..4] + rest[4..4 + l] + rest[4 + l..];
  }

  /** What the strict decoder consumes is an encoding of what it returns, and only that. */
  lemma {:induction false} StrictOnlyEncodings(rest: seq<byte>)
    requires DecodeRecordsStrict(rest).Ok?
    ensures AllWellFormed(DecodeRecordsStrict(rest).value)
    ensures rest == EncodeRecords(DecodeRecordsStrict(rest).value)
    decreases |rest|
  {
    if |rest| > 0 {
      var l: uint16 := Be16(rest[2], rest[3]);
      var x := Tlv(Be16(rest[0], rest[1]), rest[4..4 + l]);
      var after := rest[4 + l..];
      StrictOnlyEncodings(after);
      var rs' := DecodeRecordsStrict(after).value;
      var rs := DecodeRecordsStrict(rest).value;
      assert rs == [x] + rs';
      WellFormedCons(x, rs');
      FrameOfBytes(rest, l);
      assert rest == EncodeRecord(x) + after;
      assert after == EncodeRecords(rs');
      assert EncodeRecords(rs) == EncodeRecord(x) + EncodeRecords(rs');
    }
  }

  /**
    The strict decoder accepts exactly the encodings of well-formed record
    lists, and returns the list that was encoded.
   */
  lemma StrictExact(rest: seq<byte>, rs: seq<Tlv>)
    ensures DecodeRecordsStrict(rest) == Ok(rs) <==> AllWellFormed(rs) && rest == EncodeRecords(rs)
  {
    if DecodeRecordsStrict(rest) == Ok(rs) {
      StrictOnlyEncodings(rest);
    }
    if AllWellFormed(rs) && rest == EncodeRecords(rs) {
      StrictAppend(rs, []);
      assert EncodeRecords(rs) + [] == EncodeRecords(rs);
      assert rs + [] == rs;
    }
  }

  /** On an encoded packet the strict and the tolerant decoder give the same packet. */
  lemma StrictAndTolerantAgreeOnEncodings(p: Packet)
    requires AllWellFormed(p.records)
    ensures DecodeStrict(Encode(p)) == Decode(Encode(p)) == Ok(p)
  {
    RoundTrip(p);
    assert Encode(p)[1..] == EncodeRecords(p.records);
    StrictExact(EncodeRecords(p.records), p.records);
  }

  /**
    The strict decoder rejects an encoded packet with its last byte dropped:
    a short prefix if the last value was empty, a short value otherwise.
   */
  lemma StrictRejectsDropLastByte(ver: byte, rs: seq<Tlv>)
    requires AllWellFormed(rs) && rs != []
    ensures var b := Encode(Packet(ver, rs));
      DecodeStrict(b[..|b| - 1]) ==
        Err(if rs[|rs| - 1].value == [] then TruncatedTlvPrefix else TruncatedTlvValue)
  {
    var b := Encode(Packet(ver, rs));
    var init := rs[..|rs| - 1];
    var last := rs[|rs| - 1];
    var cut := CutLast(last);
    DropLastSplit(ver, rs);
    assert b[..|b| - 1][1..] == EncodeRecords(init) + cut;
    StrictAppend(init, cut);
    StrictRejectsCut(last);
  }

  lemma StrictRejectsCut(x: Tlv)
    requires WellFormed(x)
    ensures DecodeRecordsStrict(CutLast(x)) ==
      Err(if x.value == [] then TruncatedTlvPrefix else TruncatedTlvValue)
  {
    if x.value != [] {
      FrameParts(x.tlvType, |x.value|, x.value[..|x.value| - 1], []);
      assert CutLast(x) + [] == CutLast(x);
    }
  }

  // ---------------------------------------------------------------------
  // Concrete packets

  /** A packet with one trunk-name record. */
  lemma ExampleOneRecord()
    ensures Decode([1, 0, 1, 0, 3, 65, 66, 67]) == Ok(Packet(1, [Tlv(TRUNK_NAME, [65, 66, 67])]))
  {
    var x := Tlv(TRUNK_NAME, [65, 66, 67]);
    assert ToBe16(1) == [0, 1] && ToBe16(3) == [0, 3];
    assert EncodeRecord(x) == Frame(1, 3, [65, 66, 67]) == [0, 1] + [0, 3] + [65, 66, 67];
    assert EncodeRecord(x) == [0, 1, 0, 3, 65, 66, 67];
    assert [x][1..] == [];
    assert EncodeRecords([x]) == EncodeRecord(x) + EncodeRecords([]);
    assert Encode(Packet(1, [x])) == [1, 0, 1, 0, 3, 65, 66, 67];
    RoundTrip(Packet(1, [x]));
  }

  /** A length field promising five bytes with two left: kept by the decoder, refused by the strict one. */
  lemma ExampleShortValue()
    ensures Decode([1, 0, 1, 0, 5, 65, 66]) == Ok(Packet(1, [Tlv(TRUNK_NAME, [65, 66])]))
    ensures DecodeStrict([1, 0, 1, 0, 5, 65, 66]) == Err(TruncatedTlvValue)
  {
    assert ToBe16(1) == [0, 1] && ToBe16(5) == [0, 5];
    assert Frame(TRUNK_NAME, 5, [65, 66]) == [0, 1] + [0, 5] + [65, 66];
    assert Frame(TRUNK_NAME, 5, [65, 66]) == [0, 1, 0, 5, 65, 66];
    assert EncodeRecords([]) == [];
    assert [1, 0, 1, 0, 5, 65, 66] == [1] + EncodeRecords([]) + Frame(TRUNK_NAME, 5, [65, 66]);
    TruncatedLastValue(1, [], TRUNK_NAME, 5, [65, 66]);
    assert [] + [Tlv(TRUNK_NAME, [65, 66])] == [Tlv(TRUNK_NAME, [65, 66])];
    var b: seq<byte> := [1, 0, 1, 0, 5, 65, 66];
    assert b[1..] == [0, 1, 0, 5, 65, 66];
  }

  /** Five bytes after the header: a zero-length record, then one stray byte that fails the decode. */
  lemma ExampleTrailingByte()
    ensures Decode([1, 0, 1, 0, 0, 0xAA]) == Err(TruncatedTlvPrefix)
  {
    assert ToBe16(1) == [0, 1] && ToBe16(0) == [0, 0];
    assert Frame(TRUNK_NAME, 0, []) == [0, 1, 0, 0];
    var b: seq<byte> := [1, 0, 1, 0, 0, 0xAA];
    assert b[1..] == Frame(TRUNK_NAME, 0, []) + [0xAA];
    ZeroLengthContinues(TRUNK_NAME, [0xAA]);
  }
}
