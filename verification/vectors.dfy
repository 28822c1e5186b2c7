/** The golden vectors of pkg/streamable/streamable_test.go, produced by the reference
    implementation, stated as facts about the model: each encodes to the recorded bytes,
    the recorded bytes decode to it, and decoding then re-encoding gives the bytes back. */
module Vectors {
  import opened Wrappers
  import opened Bytes
  import opened Uints
  import opened Streamable
  import opened StreamableLaws
  import opened Messages
  import opened Handshakes
  import opened Protocols

  /** "This is a sample message to decode", 34 bytes. */
  const SampleText: seq<byte> :=
    [ 0x54, 0x68, 0x69, 0x73, 0x20, 0x69, 0x73, 0x20, 0x61, 0x20, 0x73, 0x61,
      0x6d, 0x70, 0x6c, 0x65, 0x20, 0x6d, 0x65, 0x73, 0x73, 0x61, 0x67, 0x65,
      0x20, 0x74, 0x6f, 0x20, 0x64, 0x65, 0x63, 0x6f, 0x64, 0x65 ]

  /** encodedHex1: type 1, no id, the sample text. */
  const Vector1: seq<byte> := [0x01, 0x00, 0x00, 0x00, 0x00, 0x22] + SampleText

  /** encodedHex2: type 1, id 35256 (0x89b8), the sample text. */
  const Vector2: seq<byte> := [0x01, 0x01, 0x89, 0xb8, 0x00, 0x00, 0x00, 0x22] + SampleText

  /** The handshake payload inside encodedHexHandshake, 45 bytes, grouped as the network id,
      the protocol version, the software version, and port, node type and capabilities. */
  const HandshakeBytes: seq<byte> :=
    [0x00, 0x00, 0x00, 0x07, 0x6d, 0x61, 0x69, 0x6e, 0x6e, 0x65, 0x74]
    + [0x00, 0x00, 0x00, 0x06, 0x30, 0x2e, 0x30, 0x2e, 0x33, 0x33]
    + [0x00, 0x00, 0x00, 0x06, 0x31, 0x2e, 0x32, 0x2e, 0x31, 0x31]
    + [0x20, 0xfc, 0x01, 0x00, 0x00, 0x00, 0x01, 0x00, 0x01, 0x00, 0x00, 0x00, 0x01, 0x31]

  /** encodedHexHandshake: type 1, no id, the handshake payload (0x2d bytes). */
  const Vector3: seq<byte> := [0x01, 0x00, 0x00, 0x00, 0x00, 0x2d] + HandshakeBytes

  const Message1: Message := Message(HandshakeType, None, SampleText)
  const Message2: Message := Message(HandshakeType, Some(35256), SampleText)

  /** Handshake("mainnet", "0.0.33", "1.2.11", 8444, full node, [(base, "1")]). */
  const Handshake1: Handshake :=
    Handshake([0x6d, 0x61, 0x69, 0x6e, 0x6e, 0x65, 0x74], [0x30, 0x2e, 0x30, 0x2e, 0x33, 0x33],
              [0x31, 0x2e, 0x32, 0x2e, 0x31, 0x31], 8444, NodeTypeCode(FullNode),
              [Capability(CapabilityTypeBase, [0x31])])

  // ---------------------------------------------------------------------------------------
  // Message 1: no id

  /** TestMarshal_Message1 (streamable_test.go:71-85). */
  lemma MarshalMessage1()
    ensures EncodeMessage(Message1) == Vector1
  {
    EncodeWithoutId(HandshakeType, SampleText);
    Uint32Bytes(34, 0, 0, 0, 34);
  }

  /** TestUnmarshal_Message1 and TestUnmarshal_Remarshal_Message1 (streamable_test.go:44-69,
      88-101): a nil or by-value destination is refused, a pointer to a fresh Message gets
      type 1, no id and the sample text, and encoding that again gives the same bytes. */
  lemma UnmarshalMessage1()
    ensures Unmarshal(Vector1, NilDestination) == Err(InvalidUnmarshal)
    ensures Unmarshal(Vector1, ByValue(Struct(MessageFields, ZeroRecord(MessageFields)))) == Err(InvalidUnmarshal)
    ensures DecodeMessage(Vector1) == Ok(Message1)
    ensures EncodeMessage(DecodeMessage(Vector1).value) == Vector1
  {
    MarshalMessage1();
    MessageRoundTrip(Message1, []);
    assert Vector1 + [] == Vector1;
  }

  // ---------------------------------------------------------------------------------------
  // Message 2: id 35256

  /** TestMarshal_Message2 (streamable_test.go:130-144). */
  lemma MarshalMessage2()
    ensures EncodeMessage(Message2) == Vector2
  {
    EncodeMessageLayout(Message2);
    Uint16Bytes(35256, 0x89, 0xb8);
    Uint32Bytes(34, 0, 0, 0, 34);
    var head: seq<byte> := [0x01, 0x01, 0x89, 0xb8, 0x00, 0x00, 0x00, 0x22];
    assert [HandshakeType] + ([1] + [0x89, 0xb8]) + [0x00, 0x00, 0x00, 0x22] == head;
  }

  /** TestUnmarshal_Message2 and TestUnmarshal_Remarshal_Message2 (streamable_test.go:103-128,
      147-160): the id comes back as a present 35256. */
  lemma UnmarshalMessage2()
    ensures Unmarshal(Vector2, NilDestination) == Err(InvalidUnmarshal)
    ensures Unmarshal(Vector2, ByValue(Struct(MessageFields, ZeroRecord(MessageFields)))) == Err(InvalidUnmarshal)
    ensures DecodeMessage(Vector2) == Ok(Message2)
    ensures EncodeMessage(DecodeMessage(Vector2).value) == Vector2
  {
    MarshalMessage2();
    MessageRoundTrip(Message2, []);
    assert Vector2 + [] == Vector2;
  }

  // ---------------------------------------------------------------------------------------
  // The handshake message

  const NetworkIdBytes: seq<byte> := [0x00, 0x00, 0x00, 0x07, 0x6d, 0x61, 0x69, 0x6e, 0x6e, 0x65, 0x74]
  const ProtocolVersionBytes: seq<byte> := [0x00, 0x00, 0x00, 0x06, 0x30, 0x2e, 0x30, 0x2e, 0x33, 0x33]
  const SoftwareVersionBytes: seq<byte> := [0x00, 0x00, 0x00, 0x06, 0x31, 0x2e, 0x32, 0x2e, 0x31, 0x31]
  const HandshakeTailBytes: seq<byte> :=
    [0x20, 0xfc, 0x01, 0x00, 0x00, 0x00, 0x01, 0x00, 0x01, 0x00, 0x00, 0x00, 0x01, 0x31]

  /** The three strings: each a 4-byte count, then its text. */
  lemma HandshakeStrings1(h: Handshake)
    requires h == Handshake1
    ensures WireString(h.networkId) == NetworkIdBytes
    ensures WireString(h.protocolVersion) == ProtocolVersionBytes
    ensures WireString(h.softwareVersion) == SoftwareVersionBytes
  {
    Uint32Bytes(7, 0, 0, 0, 7);
    Uint32Bytes(6, 0, 0, 0, 6);
  }

  /** Port 8444 as 0x20fc, node type 1, one capability: (0x0001, "1"). */
  lemma HandshakeTail1(h: Handshake)
    requires h == Handshake1
    ensures Uint16ToBytes(h.serverPort) + [h.nodeType] + Uint32ToBytes(Count(|h.capabilities|))
            + WireCapabilities(h.capabilities) == HandshakeTailBytes
  {
    Uint32Bytes(1, 0, 0, 0, 1);
    Uint16Bytes(8444, 0x20, 0xfc);
    Uint16Bytes(1, 0, 1);
    var c := h.capabilities[0];
    var caps: seq<byte> := [0x00, 0x01, 0x00, 0x00, 0x00, 0x01, 0x31];
    assert h.capabilities[1..] == [];
    assert WireCapabilities(h.capabilities) == caps by {
      assert WireCapabilities(h.capabilities) == Uint16ToBytes(c.capability) + WireString(c.value) + [];
    }
    assert [0x20, 0xfc] + [h.nodeType] + [0x00, 0x00, 0x00, 0x01] + caps == HandshakeTailBytes;
  }

  /** A handshake's encoding is the concatenation of its pieces' wire forms. */
  lemma HandshakePieces(h: Handshake, a: seq<byte>, b: seq<byte>, c: seq<byte>, d: seq<byte>)
    requires WireString(h.networkId) == a && WireString(h.protocolVersion) == b
    requires WireString(h.softwareVersion) == c
    requires Uint16ToBytes(h.serverPort) + [h.nodeType] + Uint32ToBytes(Count(|h.capabilities|))
             + WireCapabilities(h.capabilities) == d
    ensures EncodeHandshake(h) == a + b + c + d
  {
    EncodeHandshakeLayout(h);
  }

  /** The handshake's fields, piece by piece, are the recorded payload. */
  lemma MarshalHandshake1(h: Handshake)
    requires h == Handshake1
    ensures EncodeHandshake(h) == HandshakeBytes
  {
    HandshakeStrings1(h);
    HandshakeTail1(h);
    HandshakePieces(h, NetworkIdBytes, ProtocolVersionBytes, SoftwareVersionBytes, HandshakeTailBytes);
  }

  /** TestUnmarshal_Handshake (streamable_test.go:162-202): the envelope has type 1 and no id,
      and its data decodes into a fresh Handshake as "mainnet", "0.0.33", "1.2.11", port 8444,
      a full node, and the one base capability "1". */
  lemma UnmarshalHandshake1(h: Handshake)
    requires h == Handshake1
    ensures DecodeMessage(Vector3) == Ok(Message(HandshakeType, None, HandshakeBytes))
    ensures DecodeHandshake(HandshakeBytes) == Ok(h)
    ensures NodeTypeOf(h.nodeType) == Some(FullNode)
  {
    UnmarshalEnvelope3(HandshakeBytes);
    MarshalHandshake1(h);
    HandshakeRoundTrip(h, []);
    assert HandshakeBytes + [] == HandshakeBytes;
  }

  lemma UnmarshalEnvelope3(data: seq<byte>)
    requires data == HandshakeBytes
    ensures DecodeMessage(Vector3) == Ok(Message(HandshakeType, None, data))
  {
    Uint32Bytes(45, 0, 0, 0, 0x2d);
    var head: seq<byte> := [HandshakeType, 0];
    assert head + [0x00, 0x00, 0x00, 0x2d] == [0x01, 0x00, 0x00, 0x00, 0x00, 0x2d];
    DecodeWithoutId(HandshakeType, data, Vector3);
  }

  /** TestUnmarshal_Remarshal_Handshake (streamable_test.go:205-223): MakeMessageBytes of the
      decoded handshake, with the decoded type, gives the recorded bytes back. */
  lemma RemarshalHandshake1(h: Handshake)
    requires h == Handshake1
    ensures MakeMessageBytes(HandshakeType, Struct(HandshakeFields, HandshakeValues(h))) == Ok(Vector3)
  {
    EncodeHandshakeLayout(h);
    MarshalHandshake1(h);
    assert Marshal(Struct(HandshakeFields, HandshakeValues(h))).value == HandshakeBytes;
    MakeMessageBytesLayout(HandshakeType, HandshakeFields, HandshakeValues(h));
    Uint32Bytes(45, 0, 0, 0, 0x2d);
    var head: seq<byte> := [HandshakeType, 0];
    assert head + [0x00, 0x00, 0x00, 0x2d] == [0x01, 0x00, 0x00, 0x00, 0x00, 0x2d];
  }

  /** Cutting the last byte off the first vector leaves the payload one byte short. */
  lemma TruncatedMessage1()
    ensures DecodeMessage(Vector1[..39]) == Err(InsufficientBytes)
  {
    MarshalMessage1();
    MessageTruncated(Message1, 39);
  }
}
