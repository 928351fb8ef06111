# DTP decoder model

A Dafny model of the Dynamic Trunking Protocol decoder of pypacker
(`DTP.unpack` in `pypacker/layer12/dtp.py`). A DTP packet is one version byte
followed by Type-Length-Value records. Each record has a big-endian 16-bit type,
a big-endian 16-bit length and then that many value bytes. Decoding yields the
version and the ordered list of `(type, value)` pairs.

The model follows the code's slicing behaviour exactly:

- The header unpack of the base class takes byte 0 as the version `v`. An empty
  buffer cannot supply it, so the decode fails (`TruncatedHeader`).
- `struct.unpack('>HH', buf[:4])` fails when one to three bytes remain at the
  cursor (`TruncatedTlvPrefix`).
- `buf[4:4+l]` takes fewer than `l` bytes without complaint when the buffer is
  short. That value is kept and the loop ends, because `buf[4+l:]` is empty.
- A zero length gives an empty value and the loop goes on.
- Record types are never filtered. `TRUNK_NAME` (0x01) and `MAC_ADDR` (0x04)
  are declared as constants, and the decoder never looks at them.

Files:

- `dtp.dfy`, module `Dtp`: the byte and 16-bit types, the records and the
  packet, the TLV loop as the recursive function `DecodeRecords`, and the whole
  packet as `Decode`. `ParseTlvs` is the `while buf:` loop as a method. It
  reassigns `buf` to the rest after each record and appends to `tvs`, and it is
  proved equal to `DecodeRecords`. The class `DtpPacket` holds the fields `v`
  and `data`. Its `Unpack` stores the header and then replaces `data` with the
  records, as line 21 does.
- `dtp_lemmas.dfy`, module `DtpLemmas`: an encoder that is used only in proofs
  (the file has no serialiser). It also holds the round trip, the edge cases of
  the loop, byte accounting, bounds from the declared lengths, and a strict
  decoder that rejects short values, with the inputs on which the two decoders
  agree.

A strict reading of the TLV format would differ from the code in two places.
The model follows the code:

- A strict reading would reject any value shorter than its length field
  (`TruncatedTlvValue`), so dropping the last byte of an encoded packet would
  always fail. The code keeps the short value instead. `DropLastByte` shows that
  such a packet still decodes when the last value was not empty. The strict
  reading is modelled separately as `DecodeRecordsStrict`/`DecodeStrict`
  (`StrictRejectsDropLastByte`). `ExampleShortValue` shows both behaviours on
  `01 00 01 00 05 'A' 'B'`.
- A strict reading would reject bytes left after the last record. In the code,
  one to three trailing bytes fail (`TrailingBytesFail`). Four or more start
  another record, and decoding goes on by the same rules. That record can in
  turn leave a short prefix: `ExampleTrailingByte` shows
  `01 00 01 00 00 AA` failing after a zero-length record.

## Model

| member | source | states |
|---|---|---|
| `Dtp.Be16` | pypacker/layer12/dtp.py:18 | the first byte is the high byte and the second the low byte of the unsigned 16-bit result (`'>H'`); `DtpLemmas.ToBe16` and `DtpLemmas.Be16RoundTrip` give the inverse in both directions |
| `Dtp.DecodeRecords` | pypacker/layer12/dtp.py:16-20 | the TLV loop over the bytes after the header; the only failure it can produce is a short type/length prefix |
| `Dtp.Decode` | pypacker/layer12/dtp.py:13-21 | an empty buffer, and only an empty buffer, fails with TruncatedHeader; on success the version is byte 0 |
| `Dtp.ParseTlvs` | pypacker/layer12/dtp.py:15-20 | the `while buf:` loop that reassigns `buf` and appends to `tvs` returns exactly what `DecodeRecords` specifies, including the failure on a short prefix |
| `Dtp.DtpPacket.Unpack` | pypacker/layer12/dtp.py:13-21 | an empty buffer changes nothing and fails; otherwise `v` becomes byte 0; on success `data` becomes the decoded records, on a short prefix it keeps the raw bytes after the header |
| `Dtp.DtpPacket.constructor` | pypacker/layer12/dtp.py:9-10 | a new packet object has the header field `v` at its default 0 and no body bytes |
| `DtpLemmas.Be16RoundTrip` | pypacker/layer12/dtp.py:18 | the big-endian reading of two bytes is undone by writing the value back as two bytes |
| `DtpLemmas.VersionIndependent` | pypacker/layer12/dtp.py:9-15 | changing the version byte changes neither the outcome nor the records, only the version |
| `DtpLemmas.HeaderOnly` | pypacker/layer12/dtp.py:16-21 | a buffer holding only the version byte gives an empty record list, not a failure |
| `DtpLemmas.DecodeFrameExact` | pypacker/layer12/dtp.py:17-20 | a record whose length field matches its value decodes as itself, whatever its type, and decoding goes on with the bytes after it |
| `DtpLemmas.ZeroLengthContinues` | pypacker/layer12/dtp.py:17-20 | length 0 gives an empty value, and the records after it are still decoded |
| `DtpLemmas.DecodeFrameShort` | pypacker/layer12/dtp.py:19 | a length field that exceeds the bytes left gives those bytes as the value and ends decoding without an error |
| `DtpLemmas.TypeNotInspected` | pypacker/layer12/dtp.py:17-24 | writing any other type (TRUNK_NAME = 0x01, MAC_ADDR = 0x04 or an unknown one) into a record's type bytes changes only that record's type: same outcome, same value, same later records |
| `DtpLemmas.DecodeRecordsAppend` | pypacker/layer12/dtp.py:16-20 | encoded records followed by any bytes decode to those records, in wire order and unfiltered, in front of whatever the following bytes decode to |
| `DtpLemmas.RecordsRoundTrip` | pypacker/layer12/dtp.py:16-20 | decoding the encoding of a record list gives back that list |
| `DtpLemmas.RoundTrip` | pypacker/layer12/dtp.py:13-21 | decoding `[ver] + encoding of the records` gives back the version and exactly the records, in order |
| `DtpLemmas.TrailingBytesFail` | pypacker/layer12/dtp.py:17-18 | one to three bytes after the last whole record make the whole decode fail with TruncatedTlvPrefix |
| `DtpLemmas.TruncatedLastValue` | pypacker/layer12/dtp.py:19 | after whole records, a last record whose length overstates the bytes left is kept with the bytes that remain, and the earlier records are unchanged |
| `DtpLemmas.DropLastByte` | pypacker/layer12/dtp.py:17-19 | a packet with its last byte dropped still decodes, with the last value one byte shorter, unless that value was empty; then it fails with TruncatedTlvPrefix |
| `DtpLemmas.DecodeConsumesAll` | pypacker/layer12/dtp.py:17-19 | on success the 4-byte prefixes and the values of the records add up to the length of the bytes after the header |
| `DtpLemmas.ValuesWithinDeclared` | pypacker/layer12/dtp.py:18-19 | there is one decoded record per length field read; each value is at most its declared length, and only the last one can be shorter |
| `DtpLemmas.StrictAgreesWithTolerant` | pypacker/layer12/dtp.py:19 | whenever the strict decoder succeeds, the code's decoder returns the same records |
| `DtpLemmas.StrictOnlyEncodings` | pypacker/layer12/dtp.py:17-20 | what the strict decoder accepts is exactly the encoding of the well-formed records it returns |
| `DtpLemmas.StrictExact` | pypacker/layer12/dtp.py:17-20 | the strict decoder returns `rs` if and only if the input is the encoding of the well-formed list `rs` |
| `DtpLemmas.StrictAndTolerantAgreeOnEncodings` | pypacker/layer12/dtp.py:13-21 | on an encoded packet the strict decoder and the code's decoder both return that packet |
| `DtpLemmas.StrictRejectsDropLastByte` | pypacker/layer12/dtp.py:19 | the strict decoder rejects a packet with its last byte dropped: a short prefix if the last value was empty, a short value otherwise |
| `DtpLemmas.ExampleOneRecord` | pypacker/layer12/dtp.py:13-21 | `01 00 01 00 03 'A' 'B' 'C'` decodes to version 1 and one TRUNK_NAME record with value "ABC" |
| `DtpLemmas.ExampleTrailingByte` | pypacker/layer12/dtp.py:17-20 | `01 00 01 00 00 AA` reads a zero-length record and then fails with TruncatedTlvPrefix on the one byte left |
| `DtpLemmas.ExampleShortValue` | pypacker/layer12/dtp.py:19 | `01 00 01 00 05 'A' 'B'` decodes to one record with value "AB"; the strict decoder fails with TruncatedTlvValue |

## Left out

- The `pypacker.Packet` base class is not part of this model. Only its effect is
  modelled: byte 0 goes to `v`, the rest to `data`, and an empty buffer fails.
  Header-format strings, field defaults beyond `v = 0` in the constructor,
  protocol dispatch and registration are not modelled.
- `struct` is modelled only for the `'>HH'` format: two big-endian unsigned
  16-bit values read from 4 bytes (`Be16`).
- Python exceptions are modelled as `Err` results. Only the fields `v` and
  `data` are kept after a failure. What the exception type and message are is
  not modelled.
- Bytes are modelled as integers from 0 to 255 (`byte`), not as bit-vectors.
  No arithmetic on bytes wraps, so nothing is lost.
- The meaning of a value by its type (trunk name, MAC address) is not modelled;
  the decoder does not interpret values either.
- There is no serialiser in the source. `Encode` and `Frame` are used only to
  state the round-trip and truncation lemmas.
