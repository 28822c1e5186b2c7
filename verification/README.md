# go-chia-lib streamable codec, modelled in Dafny

go-chia-lib speaks Chia's peer protocol. Its core is a reflection-driven binary codec
(`streamable.Marshal` / `streamable.Unmarshal`). The codec walks a Go struct's fields in
declaration order. It skips every field without a `streamable` tag. In the wire format the
codec targets, which the library's test vectors fix, each remaining field is written or read
by its reflect kind:

- a uint8 is one byte;
- a uint16 is two bytes, big-endian;
- a string, a `[]byte` or a slice of structs is a 4-byte big-endian count, then the elements;
- a pointer tagged `optional` is a presence byte (0 or 1), then the pointee.

The protocol types on top of the codec are also modelled:

- the message envelope `Message{type uint8, ID *uint16 optional, Data []byte}`;
- `MakeMessage` and `MakeMessageBytes`;
- `Handshake` with its `Capability` list and the `NodeType` / `CapabilityType` constants;
- `RequestPeers`, `RespondPeers` and `TimestampedPeerInfo`;
- the byte helpers `ShiftNBytes` and `Uint8/16/32ToBytes`;
- the golden vectors of the library's tests.

Reflection becomes a field table. A struct type is a `seq<Field>`. Each `Field` has a `Kind`
(`U8`, `U16`, `Str`, `ByteSeq`, `RecordSeq(fields)`, `Unsupported`), a `tagged` flag and an
`optional` flag. A struct value is a `seq<Value>` that conforms to its table.

Unmarshal works in place, as in Go. It takes the destination record and returns it updated. An
untagged field or an absent optional field keeps the destination's value. Errors are a
`Result`, with these constructors:

- `InvalidUnmarshal`: a nil or by-value destination;
- `NonStruct`: a non-struct target;
- `Unimplemented`: "unimplemented type";
- `InsufficientBytes`: "requested more bytes than available".

The modules are:

- `Wrappers`: `Option`, `Result`.
- `Bytes`: `ShiftNBytes`.
- `Uints`: big-endian encoders and readers.
- `Streamable`: the codec.
- `StreamableLaws`: its laws.
- `Messages`: the envelope.
- `Protocols`: `MakeMessage` / `MakeMessageBytes`.
- `Handshakes`: the handshake types.
- `Peers`: the peer-exchange payloads.
- `Vectors`: the golden vectors.
- `AsWritten`: the codec exactly as `streamable.go` is written; see Findings.

The codec in `Streamable` finishes four arms that `streamable.go` leaves as stubs. The library's
own golden vectors need those arms:

- the uint16 arms;
- the string arms;
- the elements of a slice of structs;
- the pointee of a present optional pointer on decode.

The code leaves the other arms empty or returns "unimplemented type" from them. So
`Streamable` implements the wire format those vectors fix. `AsWritten` models the code as it
stands, and its lemmas show where, and on which vector, the two differ. Where the code is
finished, `AsWritten` and `Streamable` agree (`AsWritten.MarshalAgreesWhenFinished`,
`AsWritten.UnmarshalAgreesWhenFinished`).

## Model

| member | source | states |
|---|---|---|
| Bytes.ShiftNBytes | pkg/util/bytes.go:11-20 | fails exactly when fewer than numBytes bytes remain, and then returns an empty prefix and the buffer untouched; otherwise the prefix has numBytes bytes and prefix followed by rest is the input |
| Bytes.ShiftPrefix | pkg/util/bytes.go:16-19 | shifting the length of a known prefix splits the buffer exactly at that prefix |
| Uints.Uint8ToBytes | pkg/util/uints.go:9-11 | one byte whose big-endian value is the number |
| Uints.Uint16ToBytes | pkg/util/uints.go:14-19 | two bytes whose big-endian value is the number |
| Uints.Uint32ToBytes | pkg/util/uints.go:22-27 | four bytes whose big-endian value is the number |
| Uints.Uint16RoundTrip | pkg/util/uints.go:14-19 | reading a 16-bit encoding back gives the number, and encoding any two bytes read back gives those bytes |
| Uints.Uint32RoundTrip | pkg/util/uints.go:22-27 | the same for 32 bits and four bytes |
| Uints.BigEndianInjective | pkg/util/uints.go:14-27 | two equal-length byte strings with the same big-endian value are equal |
| Uints.ReadUint16 | pkg/streamable/streamable.go:91-93 | the reader the model adds for the empty uint16 decode arm: two bytes give their big-endian value, below 2^16; it is the inverse of Uint16ToBytes (pkg/util/uints.go:14-19), as Uint16RoundTrip states |
| Uints.ReadUint32 | pkg/streamable/streamable.go:100 | `binary.BigEndian.Uint32` of the four count bytes is their big-endian value |
| Uints.UintEncodingsInjective | pkg/util/uints.go:9-27 | each width has a fixed length and distinct numbers have distinct encodings |
| Streamable.Count | pkg/streamable/streamable.go:188 | `uint32(len)` is the length modulo 2^32, hence the length itself below 2^32 |
| Streamable.MarshalKind | pkg/streamable/streamable.go:176-199 | succeeds exactly when the value's kind, and every nested element's, has an arm; otherwise "unimplemented type" |
| Streamable.MarshalField | pkg/streamable/streamable.go:151-174 | an untagged field writes nothing; a nil optional field writes the single byte 0; failure is "unimplemented type" and happens exactly when the field is not encodable |
| Streamable.MarshalFields | pkg/streamable/streamable.go:147-200 | succeeds exactly when every field is encodable; the only error is "unimplemented type" |
| Streamable.MarshalRecords | pkg/streamable/streamable.go:185-196 | the elements of a slice of structs encode exactly when each element does |
| Streamable.UnmarshalRecords | pkg/streamable/streamable.go:95-121 | the element loop of the slice-of-structs decode arm, completed as the handshake vector needs: success reads exactly `count` records, each into a fresh record, and never more bytes than given; errors are only too short or "unimplemented type" |
| Streamable.Marshal | pkg/streamable/streamable.go:131-141 | a non-struct is refused; a struct encodes exactly when all its fields are encodable |
| Streamable.UnmarshalKind | pkg/streamable/streamable.go:76-124 | never consumes more than it is given; fails only as too short or "unimplemented type"; a kind without an arm is always "unimplemented type" |
| Streamable.UnmarshalField | pkg/streamable/streamable.go:49-75 | an untagged field is left as it was and nothing is read; an optional field with no flag byte is too short; a zero flag leaves the field and consumes one byte |
| Streamable.UnmarshalFields | pkg/streamable/streamable.go:48-125 | on success returns one value per field and never more bytes than given; errors are only too short or "unimplemented type" |
| Streamable.Unmarshal | pkg/streamable/streamable.go:31-45 | a nil or by-value destination is an invalid-unmarshal error, a non-struct target is refused, and success yields a record with one value per field |
| Streamable.ZeroRecordFields | pkg/streamable/streamable.go:53-57 | the fresh destination holds each field's zero value and conforms to the table |
| StreamableLaws.MarshalKindLayout | pkg/streamable/streamable.go:179-196 | a uint8 is its byte; a uint16 two big-endian bytes; a string or []byte a 4-byte count of its length, then its bytes; a slice of structs a count, then the elements |
| StreamableLaws.MarshalFieldLayout | pkg/streamable/streamable.go:163-172 | a present optional field is the byte 1 followed by its pointee's encoding |
| StreamableLaws.MarshalFieldsAppend | pkg/streamable/streamable.go:147-149 | the encoding of two concatenated field lists is the concatenation of their encodings, so the wire order is the declaration order |
| StreamableLaws.UnmarshalFixedLayout | pkg/streamable/streamable.go:81-93 | reading a uint8 succeeds exactly with one byte and takes it; a uint16 exactly with two and takes them big-endian |
| StreamableLaws.UnmarshalCountedLayout | pkg/streamable/streamable.go:95-121 | a string or []byte needs a 4-byte count n and then n bytes; it fails exactly when fewer are present and otherwise takes exactly those |
| StreamableLaws.UnmarshalOptionalLayout | pkg/streamable/streamable.go:65-74 | a missing flag is too short, a zero flag leaves the field, and any non-zero flag reads the pointee |
| StreamableLaws.ZeroRecordHasNilOptionals | pkg/streamable/streamable.go:53-57 | a fresh destination has every optional field nil |
| StreamableLaws.KindRoundTrip | pkg/streamable/streamable.go:81-123 | decoding a value's encoding, followed by any bytes, gives the value back and leaves exactly those bytes |
| StreamableLaws.FieldRoundTrip | pkg/streamable/streamable.go:49-75 | the same for one field, into a destination slot that can rebuild it |
| StreamableLaws.FieldsRoundTrip | pkg/streamable/streamable.go:48-57 | the same for a whole field list, read in declaration order |
| StreamableLaws.RecordsRoundTrip | pkg/streamable/streamable.go:104-121 | the elements of a slice of structs read back, each into a fresh record |
| StreamableLaws.RoundTrip | pkg/streamable/streamable.go:31-203 | every encodable record with counts below 2^32 encodes, and Unmarshal of its encoding into a destination that can rebuild it gives it back whatever follows |
| StreamableLaws.DecodedFields | pkg/streamable/streamable.go:48-125 | whatever a decode produces is well typed, encodable, and encodes to exactly as many bytes as were read |
| StreamableLaws.ReencodeDecoded | pkg/streamable/streamable.go:31-203 | a decoded record encodes again, into no more bytes than the input |
| StreamableLaws.SupportedEncodable | pkg/streamable/streamable.go:176-199 | over a table with an arm for every kind, every well-typed record encodes |
| StreamableLaws.SupportedUnderflows | pkg/streamable/streamable.go:76-124 | over such a table the only way decoding fails is running out of bytes |
| StreamableLaws.TruncatedInputFails | pkg/streamable/streamable.go:83-85 | any strict prefix of a record's encoding is refused as too short |
| Messages.MessageValues | pkg/streamable/message.go:19-24 | a Message is a well-typed and always encodable record of the Message table |
| Messages.MessageOf | pkg/streamable/message.go:19-24 | a well-typed record is read back as the Message whose record it is |
| Messages.EncodeMessage | pkg/protocols/message.go:7-12 | the encoding is 6 bytes plus the data, or 8 plus the data when the id is present |
| Messages.EncodeMessageLayout | pkg/protocols/message.go:7-12 | the type byte, then the presence flag and the id big-endian when present, then the data's 4-byte count and the data |
| Messages.DecodeMessage | pkg/protocols/message.go:7-12 | decoding a Message fails only as too short, and success reads a message whose encoding fits in the input |
| Messages.MessageRoundTrip | pkg/protocols/message.go:7-12 | a Message with data below 2^32 bytes decodes from its encoding, whatever follows |
| Messages.MessageTruncated | pkg/protocols/message.go:7-12 | any strict prefix of a Message's encoding is refused as too short |
| Protocols.MakeMessage | pkg/protocols/message.go:14-28 | succeeds exactly when the payload is an encodable struct, with the given type, no id, and Marshal's bytes of the payload as its data; otherwise returns Marshal's error |
| Protocols.MakeMessageBytes | pkg/protocols/message.go:30-38 | succeeds exactly when MakeMessage does and otherwise returns its error |
| Protocols.MakeMessageBytesLayout | pkg/protocols/message.go:30-38 | the bytes are the type, the flag 0, the payload encoding's count and the payload encoding |
| Protocols.MakeMessageBytesDecodes | pkg/protocols/message.go:30-38 | decoding the bytes gives back the message MakeMessage made |
| Protocols.PayloadRoundTrip | pkg/protocols/message.go:14-38 | the envelope decodes with the given type and no id, and its data decodes back to the payload |
| Handshakes.NodeTypeOf | pkg/streamable/handshake.go:5-25 | a byte names a node type exactly when it is 1 to 6, and then that type's code is the byte |
| Handshakes.NodeTypeRoundTrip | pkg/streamable/handshake.go:5-25 | every node type is recognised back from its code |
| Handshakes.HandshakeSupported | pkg/streamable/handshake.go:35-50 | every kind in the Handshake and Capability tables has an arm |
| Handshakes.HandshakeOf | pkg/streamable/handshake.go:42-50 | a well-typed record is read back as the Handshake whose record it is |
| Handshakes.CapabilitiesOfValues | pkg/streamable/handshake.go:35-40 | a capability list read back from its records is that list |
| Handshakes.HandshakeOfValues | pkg/streamable/handshake.go:42-50 | a Handshake read back from its record is that Handshake |
| Handshakes.EncodeHandshake | pkg/streamable/handshake.go:42-50 | a handshake's encoding is at least the four counts, port, node type, and 6 bytes per capability |
| Handshakes.CapabilityLayout | pkg/streamable/handshake.go:37-40 | a Capability encodes as its two big-endian uint16 bytes, followed by its string's 4-byte count and bytes |
| Handshakes.CapabilitiesLayout | pkg/streamable/handshake.go:35-40 | the capability list is, per capability, its two big-endian bytes, then its value's count and bytes |
| Handshakes.EncodeHandshakeLayout | pkg/streamable/handshake.go:42-50 | the three counted strings, the port big-endian, the node type byte, the capability count and the capabilities |
| Handshakes.HandshakeFitsIff | pkg/streamable/handshake.go:42-50 | a handshake can be rebuilt from its encoding exactly when every string and the capability list are below 2^32 in length |
| Handshakes.DecodeHandshake | pkg/streamable/handshake.go:42-50 | decoding a Handshake fails only as too short, and success reads a handshake that fits and whose encoding fits in the input |
| Handshakes.HandshakeRoundTrip | pkg/streamable/handshake.go:42-50 | a handshake that fits decodes from its encoding, whatever follows |
| Handshakes.HandshakeTruncated | pkg/streamable/handshake.go:42-50 | any strict prefix of a handshake's encoding is refused as too short |
| Peers.PeerValues | pkg/types/peerinfo.go:4-8 | a host and a port make a well-typed TimestampedPeerInfo record |
| Peers.RequestPeersCodec | pkg/protocols/fullnode.go:7-8 | RequestPeers encodes to nothing, and any bytes decode into it without being read |
| Peers.PeerInfoNeverEncodes | pkg/types/peerinfo.go:4-8 | no TimestampedPeerInfo encodes: its uint64 timestamp has no arm |
| Peers.PeerInfoNeverDecodes | pkg/types/peerinfo.go:4-8 | no TimestampedPeerInfo decodes: "unimplemented type" once the host and port are read, too short before |
| Peers.RespondPeersEncoding | pkg/protocols/fullnode.go:10-13 | RespondPeers encodes exactly when its list is empty, as the count 0 |
| Peers.RespondPeersDecoding | pkg/protocols/fullnode.go:10-13 | decoding RespondPeers succeeds exactly when the leading count is 0, giving the empty list; under 4 bytes it is too short |
| Vectors.MarshalMessage1 | pkg/streamable/streamable_test.go:71-85 | the message with type 1, no id and the sample text encodes to encodedHex1 |
| Vectors.UnmarshalMessage1 | pkg/streamable/streamable_test.go:44-69 | encodedHex1 is refused for a nil or by-value destination, decodes to that message, and re-encodes to itself |
| Vectors.MarshalMessage2 | pkg/streamable/streamable_test.go:130-144 | the message with id 35256 encodes to encodedHex2 |
| Vectors.UnmarshalMessage2 | pkg/streamable/streamable_test.go:103-128 | encodedHex2 decodes to that message with id 35256 and re-encodes to itself |
| Vectors.MarshalHandshake1 | pkg/streamable/streamable_test.go:29-41 | the test's handshake encodes to the payload of encodedHexHandshake |
| Vectors.UnmarshalHandshake1 | pkg/streamable/streamable_test.go:162-202 | encodedHexHandshake decodes to type 1 with no id, and its data to "mainnet", "0.0.33", "1.2.11", 8444, a full node and one base capability "1" |
| Vectors.RemarshalHandshake1 | pkg/streamable/streamable_test.go:205-223 | MakeMessageBytes of that handshake gives encodedHexHandshake back |
| Vectors.TruncatedMessage1 | pkg/streamable/streamable_test.go:20 | encodedHex1 without its last byte is refused as too short |
| AsWritten.MarshalKindAsWritten | pkg/streamable/streamable.go:176-199 | as written, the only failure is "unimplemented type" |
| AsWritten.MarshalFieldAsWritten | pkg/streamable/streamable.go:151-174 | as written, a field is written exactly when it is untagged, a nil optional, or of a kind with an arm; an untagged field writes nothing, a nil optional the byte 0, and a uint16 nothing beyond its presence flag |
| AsWritten.MarshalFieldsAsWritten | pkg/streamable/streamable.go:147-200 | as written, Marshal succeeds exactly when every field is writable in that sense, and fails only with "unimplemented type" |
| AsWritten.UnmarshalKindAsWritten | pkg/streamable/streamable.go:76-124 | as written, a kind read never consumes more than given, fails only as too short or "unimplemented type", panics exactly on a slice with fewer than 4 count bytes, reads nothing for a uint16, and for a slice of structs takes the count only |
| AsWritten.UnmarshalFieldAsWritten | pkg/streamable/streamable.go:49-80 | as written, an untagged field is skipped, and an optional field consumes its flag byte and nothing else, panicking when the flag byte is missing |
| AsWritten.UnmarshalFieldsAsWritten | pkg/streamable/streamable.go:48-125 | as written, success gives one value per field and never more bytes than given; failure is only too short or "unimplemented type" |
| AsWritten.MarshalAgreesWhenFinished | pkg/streamable/streamable.go:131-203 | on tables of uint8, []byte and arm-less kinds, Marshal as written is the model's Marshal |
| AsWritten.UnmarshalAgreesWhenFinished | pkg/streamable/streamable.go:31-128 | on such tables without optional fields, tagged or not, Unmarshal as written gives the model's result, except that it panics where the model reports a short count |
| AsWritten.MessageWritten | pkg/streamable/streamable.go:183-184 | as written, a Message goes out as type, presence flag, count and data, with no id bytes |
| AsWritten.MarshalDropsUint16 | pkg/streamable/streamable.go:183-184 | as written, Message 2 encodes to two bytes fewer than encodedHex2 |
| AsWritten.UnmarshalSkipsPointee | pkg/streamable/streamable.go:77-80 | as written, encodedHex2 fails to decode as too short |
| AsWritten.MarshalRejectsString | pkg/streamable/streamable.go:197-198 | as written, the test's handshake cannot be encoded |
| AsWritten.UnmarshalRejectsString | pkg/streamable/streamable.go:122-123 | as written, the handshake payload cannot be decoded |
| AsWritten.RecordElementsDropped | pkg/streamable/streamable.go:191-196 | as written, a one-element slice of structs encodes as its count alone and decodes as empty, where the model writes and reads the element |
| AsWritten.ShortFlagPanics | pkg/streamable/streamable.go:67-69 | as written, a message cut off after its type byte panics at the presence flag, where the model reports it as too short |

## Left out

- Reflection. Struct types are given as explicit field tables. Field names, tag parsing beyond
  presence and the substring "optional", and Go's type identity are not modelled.
- `log.Println` calls. They are diagnostic only.
- The panic at pkg/streamable/streamable.go:177-178. `reflect.Indirect` removes one level of
  pointer only, so a field that is a pointer to a pointer would reach this panic. No modelled
  field is a pointer to a pointer, and `Kind` has no constructor for one.
- `Marshal(nil)`: `tv.Type()` at pkg/streamable/streamable.go:137 panics on the zero value. The
  model's `Marshal` takes a `Root`, which has no nil value, so this case cannot be expressed.
- An `optional` tag on a non-pointer field. In the model `Field.optional` stands for a pointer
  field, so these cases cannot be expressed. In the code, Unmarshal
  (pkg/streamable/streamable.go:65-90) never calls `IsNil`: a non-pointer optional uint8 is read
  as a flag byte, then the value, without a panic. In Marshal, `IsNil` at :165 accepts slices,
  so an optional `[]byte` is written as a flag, then its count and bytes. Only Marshal of an
  optional field that cannot be nil (uint8, uint16, string, struct) panics there.
- The settable check at pkg/streamable/streamable.go:87-89 and :111-113. Every modelled field is
  exported; the one unexported field, the peer timestamp, fails earlier as "unimplemented type".
- Partial writes on failure. Go may have filled some destination fields before an error. The
  model returns only the error, and callers discard the destination on error.
- The uint64 timestamp of TimestampedPeerInfo. It is the `Unsupported` kind, matching the code,
  which has no arm for it. No uint64 arm is added.
- Slices of elements other than bytes or structs, such as `[]uint16`. The code's slice arms at
  pkg/streamable/streamable.go:95-121 and :185-196 write and read only their count. No modelled
  type has such a field, so `Kind` has no constructor for them.
- Error message texts. They are an `Error` constructor each.
- Transport, connections, and the rest of the protocol's message types. These are outside the
  codec.
- Streamable.UnmarshalField and Streamable.UnmarshalKind: a failed shift at
  pkg/streamable/streamable.go:68 and :99 is reported as too short. The code instead ignores that
  error and indexes the nil slice, so it panics. `AsWritten.ShortFlagPanics` shows that behaviour.
- Streamable.UnmarshalKind, Streamable.MarshalKind and Streamable.UnmarshalField implement the
  uint16, string, slice-of-structs and present-pointer arms that the code leaves as stubs; see
  Findings.
- StreamableLaws.ReencodeDecoded: states equal-or-shorter length, not byte identity. The code
  accepts any non-zero presence flag, but writes the flag as 1 again.
- StreamableLaws.TruncatedInputFails: stated for prefixes of encodings of rebuildable records
  only, not for arbitrary inputs.
- StreamableLaws.RoundTrip: requires every string and slice below 2^32 elements. Longer counts
  wrap in `uint32(len)`, as `Streamable.Count` states.

## Findings

| source | as written | input that shows it | evidently intended | confidence | as-written member | corrected member |
|---|---|---|---|---|---|---|
| pkg/streamable/streamable.go:183-184 | the uint16 arm of Marshal writes nothing | Message with id 35256 (encodedHex2 of the tests) | two bytes, big-endian: 89 b8 | high; not executed | AsWritten.MarshalDropsUint16 | Vectors.MarshalMessage2 |
| pkg/streamable/streamable.go:77-80 | Unmarshal of a present optional pointer only logs and reads no pointee | encodedHex2 | the flag is followed by the pointee, read into a new pointer | high; not executed | AsWritten.UnmarshalSkipsPointee | Vectors.UnmarshalMessage2 |
| pkg/streamable/streamable.go:197-198 | a string field takes the "unimplemented type" arm in Marshal | the handshake of TestUnmarshal_Remarshal_Handshake | a 4-byte count, then the string's bytes | high; not executed | AsWritten.MarshalRejectsString | Vectors.RemarshalHandshake1 |
| pkg/streamable/streamable.go:122-123 | a string field takes the "unimplemented type" arm in Unmarshal | the payload of encodedHexHandshake | a 4-byte count, then that many bytes | high; not executed | AsWritten.UnmarshalRejectsString | Vectors.UnmarshalHandshake1 |
| pkg/streamable/streamable.go:191-196 | a slice of structs writes its count but not its elements, and Unmarshal reads the count only | a one-element list of one-byte records | the elements, back to back, after the count | high; not executed | AsWritten.RecordElementsDropped | StreamableLaws.RecordsRoundTrip |
| pkg/streamable/streamable.go:67-69 | the presence flag's shift error is ignored and the nil prefix indexed | the one byte 01 read as a Message | the shift's error returned | high; not executed | AsWritten.ShortFlagPanics | Messages.DecodeMessage |
