/** The protocol message envelope of pkg/streamable/message.go and pkg/protocols/message.go:
    a one-byte message type, an optional 16-bit id, and the payload bytes. */
module Messages {
  import opened Wrappers
  import opened Bytes
  import opened Uints
  import opened Streamable
  import opened StreamableLaws

  /** ProtocolMessageType values the library names (message.go:6-17). */
  const HandshakeType: byte := 1
  const RequestPeersType: byte := 43
  const RespondPeersType: byte := 44

  /** The field table of Message: a tagged uint8, a tagged optional *uint16, a tagged []byte. */
  const MessageFields: seq<Field> := [Field(U8, true, false), Field(U16, true, true), Field(ByteSeq, true, false)]

  datatype Message = Message(messageType: byte, id: Option<uint16>, data: seq<byte>)

  /** The record a Message is, field by field. */
  function MessageValues(m: Message): (r: seq<Value>)
    ensures Conforms(MessageFields, r) && Encodable(MessageFields, r)
  {
    [U8Val(m.messageType), if m.id.Some? then PtrVal(U16Val(m.id.value)) else NilVal, BytesVal(m.data)]
  }

  /** The Message a well-typed record is. */
  function MessageOf(r: seq<Value>): (m: Message)
    requires Conforms(MessageFields, r)
    ensures MessageValues(m) == r
  {
    assert FieldValue(MessageFields[0], r[0]) && FieldValue(MessageFields[1], r[1]) && FieldValue(MessageFields[2], r[2]);
    Message(r[0].u8, if r[1].PtrVal? then Some(r[1].pointee.u16) else None, r[2].bytes)
  }

  lemma MessageOfValues(m: Message)
    ensures MessageOf(MessageValues(m)) == m
  {
  }

  /** Marshal of a *Message. Every field kind has an arm, so it never fails. */
  function EncodeMessage(m: Message): (r: seq<byte>)
    ensures |r| == (if m.id.Some? then 8 else 6) + |m.data|
  {
    EncodeMessageLayout(m);
    Marshal(Struct(MessageFields, MessageValues(m))).value
  }

  /** The bytes on the wire: the type byte, the id's presence flag and (when present) the id
      big-endian, then the payload's 4-byte count and the payload. */
  lemma EncodeMessageLayout(m: Message)
    ensures var e := Marshal(Struct(MessageFields, MessageValues(m)));
      && e.Ok?
      && e.value == [m.messageType]
                    + (if m.id.Some? then [1] + Uint16ToBytes(m.id.value) else [0])
                    + Uint32ToBytes(Count(|m.data|)) + m.data
  {
    var fs, r := MessageFields, MessageValues(m);
    MarshalFieldsStep(fs, r);
    MarshalFieldsStep(fs[1..], r[1..]);
    MarshalFieldsStep(fs[2..], r[2..]);
    assert fs[3..] == [];
    MarshalFieldLayout(fs[0], r[0]);
    MarshalFieldLayout(fs[1], r[1]);
    MarshalFieldLayout(fs[2], r[2]);
    assert fs[1..][0] == fs[1] && r[1..][0] == r[1];
    assert fs[2..][0] == fs[2] && r[2..][0] == r[2];
  }

  /** Unmarshal into a fresh `&Message{}`, read back as a Message. */
  function DecodeMessage(b: seq<byte>): (res: Result<Message, Error>)
    ensures res.Err? ==> res.error == InsufficientBytes
    ensures res.Ok? ==> |res.value.data| < 0x1_0000_0000 && |EncodeMessage(res.value)| <= |b|
  {
    var dest := ZeroRecord(MessageFields);
    DecodedMessage(b);
    match Unmarshal(b, ByPointer(Struct(MessageFields, dest)))
    case Err(e) => Err(e)
    case Ok(r) => Ok(MessageOf(r))
  }

  /** What Unmarshal makes of any bytes with a fresh Message destination: a well-typed
      record whose payload count fits in 32 bits and whose encoding is no longer than the
      input; and the only possible failure is running out of bytes. */
  lemma DecodedMessage(b: seq<byte>)
    ensures var u := Unmarshal(b, ByPointer(Struct(MessageFields, ZeroRecord(MessageFields))));
      && (u.Err? ==> u.error == InsufficientBytes)
      && (u.Ok? ==>
            && Conforms(MessageFields, u.value)
            && |u.value[2].bytes| < 0x1_0000_0000
            && |Marshal(Struct(MessageFields, u.value)).value| <= |b|)
  {
    var dest := ZeroRecord(MessageFields);
    ZeroRecordFields(MessageFields);
    ZeroRecordHasNilOptionals(MessageFields);
    var u := Unmarshal(b, ByPointer(Struct(MessageFields, dest)));
    if u.Ok? {
      ReencodeDecoded(MessageFields, dest, b);
      DecodedFields(MessageFields, b, dest);
      assert FieldRebuildable(MessageFields[2], u.value[2], dest[2]);
    } else {
      SupportedUnderflows(MessageFields, b, dest);
    }
  }

  /** Decoding an encoded message, followed by any bytes, gives the message back: Go's
      Unmarshal ignores what follows the last field. */
  lemma MessageRoundTrip(m: Message, rest: seq<byte>)
    requires |m.data| < 0x1_0000_0000
    ensures DecodeMessage(EncodeMessage(m) + rest) == Ok(m)
  {
    var dest := ZeroRecord(MessageFields);
    ZeroRecordFields(MessageFields);
    RoundTrip(MessageFields, MessageValues(m), dest, rest);
  }

  /** Every strict prefix of an encoded message is rejected as too short. */
  lemma MessageTruncated(m: Message, n: nat)
    requires |m.data| < 0x1_0000_0000 && n < |EncodeMessage(m)|
    ensures DecodeMessage(EncodeMessage(m)[..n]) == Err(InsufficientBytes)
  {
    var dest := ZeroRecord(MessageFields);
    ZeroRecordFields(MessageFields);
    TruncatedInputFails(MessageFields, MessageValues(m), dest, n);
  }
}
