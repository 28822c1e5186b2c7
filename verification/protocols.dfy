/** The message helpers of pkg/protocols/message.go: wrap a payload record into a Message
    with no id, and encode the whole envelope. */
module Protocols {
  import opened Wrappers
  import opened Bytes
  import opened Uints
  import opened Streamable
  import opened StreamableLaws
  import opened Messages

  /** MakeMessage (message.go:14-28): the payload's encoding becomes the message's data; a
      payload Marshal rejects is rejected with the same error, and no message is made. */
  function MakeMessage(messageType: byte, payload: Root): (res: Result<Message, Error>)
    requires payload.Struct? ==> Conforms(payload.fields, payload.values)
    ensures res.Ok? <==> payload.Struct? && Encodable(payload.fields, payload.values)
    ensures res.Ok? ==> res.value.messageType == messageType && res.value.id == None
    ensures res.Ok? ==> res.value.data == Marshal(payload).value
    ensures res.Err? ==> res.error == (if payload.Struct? then Unimplemented else NonStruct)
  {
    match Marshal(payload)
    case Err(e) => Err(e)
    case Ok(data) => Ok(Message(messageType, None, data))
  }

  /** MakeMessageBytes (message.go:30-38): MakeMessage, then Marshal of the message. */
  function MakeMessageBytes(messageType: byte, payload: Root): (res: Result<seq<byte>, Error>)
    requires payload.Struct? ==> Conforms(payload.fields, payload.values)
    ensures res.Ok? <==> MakeMessage(messageType, payload).Ok?
    ensures res.Err? ==> res.error == MakeMessage(messageType, payload).error
  {
    match MakeMessage(messageType, payload)
    case Err(e) => Err(e)
    case Ok(m) => Ok(EncodeMessage(m))
  }

  /** A message without an id: the type, the flag 0, the data's count, the data. */
  lemma EncodeWithoutId(messageType: byte, data: seq<byte>)
    ensures EncodeMessage(Message(messageType, None, data)) == [messageType, 0] + Uint32ToBytes(Count(|data|)) + data
  {
    var m, u := Message(messageType, None, data), Uint32ToBytes(Count(|data|));
    var t, flag, head: seq<byte> := [messageType], [0], [messageType, 0];
    assert t + flag == head;
    EncodeMessageLayout(m);
    assert EncodeMessage(m) == t + flag + u + data;
  }

  /** Bytes laid out as a message without an id decode to that message. */
  lemma DecodeWithoutId(messageType: byte, data: seq<byte>, bytes: seq<byte>)
    requires |data| < 0x1_0000_0000
    requires bytes == [messageType, 0] + Uint32ToBytes(Count(|data|)) + data
    ensures DecodeMessage(bytes) == Ok(Message(messageType, None, data))
  {
    EncodeWithoutId(messageType, data);
    MessageRoundTrip(Message(messageType, None, data), []);
    assert bytes + [] == bytes;
  }

  /** The bytes MakeMessageBytes produces: the type, the flag 0 for the absent id, the
      payload's 4-byte count, and the payload's own encoding. */
  lemma MakeMessageBytesLayout(messageType: byte, fs: seq<Field>, r: seq<Value>)
    requires Conforms(fs, r) && Encodable(fs, r)
    ensures var p := Marshal(Struct(fs, r)).value;
      MakeMessageBytes(messageType, Struct(fs, r)) == Ok([messageType, 0] + Uint32ToBytes(Count(|p|)) + p)
  {
    var p := Marshal(Struct(fs, r)).value;
    assert MakeMessage(messageType, Struct(fs, r)) == Ok(Message(messageType, None, p));
    EncodeWithoutId(messageType, p);
  }

  /** Reading the envelope back gives the message MakeMessage made, whatever follows it. */
  lemma MakeMessageBytesDecodes(messageType: byte, payload: Root, rest: seq<byte>)
    requires payload.Struct? ==> Conforms(payload.fields, payload.values)
    requires MakeMessage(messageType, payload).Ok?
    requires |MakeMessage(messageType, payload).value.data| < 0x1_0000_0000
    ensures DecodeMessage(MakeMessageBytes(messageType, payload).value + rest) == MakeMessage(messageType, payload)
  {
    MessageRoundTrip(MakeMessage(messageType, payload).value, rest);
  }

  /** End to end: decode the envelope, then decode its data into a destination that can
      rebuild the payload, and the payload comes back. */
  lemma PayloadRoundTrip(messageType: byte, fs: seq<Field>, r: seq<Value>, dest: seq<Value>, rest: seq<byte>)
    requires Conforms(fs, r) && Conforms(fs, dest) && Encodable(fs, r) && Rebuildable(fs, r, dest)
    requires |Marshal(Struct(fs, r)).value| < 0x1_0000_0000
    ensures var m := DecodeMessage(MakeMessageBytes(messageType, Struct(fs, r)).value + rest);
      && m.Ok? && m.value.messageType == messageType && m.value.id == None
      && Unmarshal(m.value.data, ByPointer(Struct(fs, dest))) == Ok(r)
  {
    var p := Marshal(Struct(fs, r)).value;
    MakeMessageBytesDecodes(messageType, Struct(fs, r), rest);
    RoundTrip(fs, r, dest, []);
    assert p + [] == p;
  }
}
