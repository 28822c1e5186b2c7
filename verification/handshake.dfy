/** The handshake payload of pkg/streamable/handshake.go: the peer's node type, its
    capabilities, and the Handshake record every connection starts with. */
module Handshakes {
  import opened Wrappers
  import opened Bytes
  import opened Uints
  import opened Streamable
  import opened StreamableLaws

  // ---------------------------------------------------------------------------------------
  // Node types and capability types

  /** The kinds of peer the library names (handshake.go:5-25). On the wire a node type is
      just a uint8: Handshake carries it as a byte, and nothing checks it is one of these. */
  datatype NodeType = FullNode | Harvester | Farmer | Timelord | Introducer | Wallet

  function NodeTypeCode(t: NodeType): byte
  {
    match t
    case FullNode => 1
    case Harvester => 2
    case Farmer => 3
    case Timelord => 4
    case Introducer => 5
    case Wallet => 6
  }

  /** The named node type a byte stands for: exactly the codes 1 through 6 name one. */
  function NodeTypeOf(b: byte): (t: Option<NodeType>)
    ensures t.Some? <==> 1 <= b <= 6
    ensures t.Some? ==> NodeTypeCode(t.value) == b
  {
    if b == 1 then Some(FullNode)
    else if b == 2 then Some(Harvester)
    else if b == 3 then Some(Farmer)
    else if b == 4 then Some(Timelord)
    else if b == 5 then Some(Introducer)
    else if b == 6 then Some(Wallet)
    else None
  }

  /** Each node type has its own code, and reading the code back gives the node type. */
  lemma NodeTypeRoundTrip(t: NodeType, u: NodeType)
    ensures NodeTypeOf(NodeTypeCode(t)) == Some(t)
    ensures NodeTypeCode(t) == NodeTypeCode(u) ==> t == u
  {
  }

  /** CapabilityType (handshake.go:28-33); the library names only the base capability. */
  const CapabilityTypeBase: uint16 := 1

  // ---------------------------------------------------------------------------------------
  // Field tables and typed records

  /** Capability: a tagged CapabilityType (uint16) and a tagged string (handshake.go:37-40). */
  const CapabilityFields: seq<Field> := [Field(U16, true, false), Field(Str, true, false)]

  /** Handshake: three tagged strings, a tagged uint16, a tagged NodeType (uint8) and a tagged
      []Capability (handshake.go:43-50). */
  const HandshakeFields: seq<Field> :=
    [ Field(Str, true, false), Field(Str, true, false), Field(Str, true, false)
    , Field(U16, true, false), Field(U8, true, false), Field(RecordSeq(CapabilityFields), true, false) ]

  datatype Capability = Capability(capability: uint16, value: seq<byte>)

  datatype Handshake = Handshake(
    networkId: seq<byte>,
    protocolVersion: seq<byte>,
    softwareVersion: seq<byte>,
    serverPort: uint16,
    nodeType: byte,
    capabilities: seq<Capability>)

  /** Both tables have an arm for every field kind. */
  lemma HandshakeSupported()
    ensures AllSupported(CapabilityFields) && AllSupported(HandshakeFields)
  {
    assert FieldSupported(HandshakeFields[5]) by {
      assert AllSupported(CapabilityFields);
    }
  }

  function CapabilityValues(c: Capability): (r: seq<Value>)
    ensures Conforms(CapabilityFields, r)
  {
    [U16Val(c.capability), StrVal(c.value)]
  }

  /** The capability records, element by element. */
  function CapabilitiesValues(cs: seq<Capability>): (rs: seq<seq<Value>>)
    ensures |rs| == |cs|
    ensures forall i :: 0 <= i < |cs| ==> rs[i] == CapabilityValues(cs[i])
  {
    if cs == [] then [] else [CapabilityValues(cs[0])] + CapabilitiesValues(cs[1..])
  }

  function HandshakeValues(h: Handshake): (r: seq<Value>)
    ensures Conforms(HandshakeFields, r)
  {
    [ StrVal(h.networkId), StrVal(h.protocolVersion), StrVal(h.softwareVersion)
    , U16Val(h.serverPort), U8Val(h.nodeType), RecordsVal(CapabilitiesValues(h.capabilities)) ]
  }

  function CapabilityOf(r: seq<Value>): (c: Capability)
    requires Conforms(CapabilityFields, r)
    ensures CapabilityValues(c) == r
  {
    assert FieldValue(CapabilityFields[0], r[0]) && FieldValue(CapabilityFields[1], r[1]);
    Capability(r[0].u16, r[1].text)
  }

  function CapabilitiesOf(rs: seq<seq<Value>>): (cs: seq<Capability>)
    requires forall i :: 0 <= i < |rs| ==> Conforms(CapabilityFields, rs[i])
    ensures CapabilitiesValues(cs) == rs
  {
    if rs == [] then []
    else
      var cs := [CapabilityOf(rs[0])] + CapabilitiesOf(rs[1..]);
      assert CapabilitiesValues(cs)[1..] == CapabilitiesValues(cs[1..]);
      assert cs[1..] == CapabilitiesOf(rs[1..]);
      cs
  }

  function HandshakeOf(r: seq<Value>): (h: Handshake)
    requires Conforms(HandshakeFields, r)
    ensures HandshakeValues(h) == r
  {
    assert forall i :: 0 <= i < 6 ==> FieldValue(HandshakeFields[i], r[i]);
    assert KindValue(RecordSeq(CapabilityFields), r[5]);
    Handshake(r[0].text, r[1].text, r[2].text, r[3].u16, r[4].u8, CapabilitiesOf(r[5].records))
  }

  lemma {:induction false} CapabilitiesOfValues(cs: seq<Capability>)
    ensures CapabilitiesOf(CapabilitiesValues(cs)) == cs
  {
    if cs != [] {
      assert CapabilitiesValues(cs)[1..] == CapabilitiesValues(cs[1..]);
      CapabilitiesOfValues(cs[1..]);
    }
  }

  /** Reading a handshake's record back gives the handshake: the two views are one. */
  lemma HandshakeOfValues(h: Handshake)
    ensures HandshakeOf(HandshakeValues(h)) == h
  {
    CapabilitiesOfValues(h.capabilities);
  }

  // ---------------------------------------------------------------------------------------
  // Wire form

  /** A Go string or []byte on the wire: its 4-byte big-endian count, then its bytes. */
  function WireString(s: seq<byte>): seq<byte>
  {
    Uint32ToBytes(Count(|s|)) + s
  }

  /** The capabilities back to back, each its uint16 then its string. */
  function WireCapabilities(cs: seq<Capability>): seq<byte>
  {
    if cs == [] then [] else Uint16ToBytes(cs[0].capability) + WireString(cs[0].value) + WireCapabilities(cs[1..])
  }

  /** Marshal of a *Handshake. Every field kind has an arm, so it never fails. */
  function EncodeHandshake(h: Handshake): (e: seq<byte>)
    ensures |e| >= 4 * 4 + 2 + 1 + 6 * |h.capabilities|
  {
    EncodeHandshakeLayout(h);
    WireCapabilitiesLength(h.capabilities);
    Marshal(Struct(HandshakeFields, HandshakeValues(h))).value
  }

  lemma {:induction false} WireCapabilitiesLength(cs: seq<Capability>)
    ensures |WireCapabilities(cs)| >= 6 * |cs|
  {
    if cs != [] {
      WireCapabilitiesLength(cs[1..]);
    }
  }

  lemma CapabilityLayout(c: Capability)
    ensures MarshalFields(CapabilityFields, CapabilityValues(c)) == Ok(Uint16ToBytes(c.capability) + WireString(c.value))
  {
    var fs, r := CapabilityFields, CapabilityValues(c);
    HandshakeSupported();
    SupportedEncodable(fs, r);
    MarshalFieldsAt(fs, r, 0);
    MarshalFieldsAt(fs, r, 1);
    assert fs[0..] == fs && r[0..] == r && fs[2..] == [] && r[2..] == [];
    assert MarshalField(fs[0], r[0]).value == Uint16ToBytes(c.capability);
    assert MarshalField(fs[1], r[1]).value == WireString(c.value);
    assert MarshalFields(fs[2..], r[2..]).value == [];
    assert WireString(c.value) + [] == WireString(c.value);
  }

  /** The elements of a []Capability go on the wire back to back, with nothing between. */
  lemma {:induction false} CapabilitiesLayout(cs: seq<Capability>)
    ensures MarshalRecords(CapabilityFields, CapabilitiesValues(cs)) == Ok(WireCapabilities(cs))
  {
    if cs != [] {
      var rs := CapabilitiesValues(cs);
      assert rs[1..] == CapabilitiesValues(cs[1..]);
      CapabilityLayout(cs[0]);
      CapabilitiesLayout(cs[1..]);
    }
  }

  /** The three strings that open a handshake. */
  lemma HandshakeHeadLayout(h: Handshake)
    ensures Encodable(HandshakeFields, HandshakeValues(h))
    ensures Marshal(Struct(HandshakeFields, HandshakeValues(h))).value
            == WireString(h.networkId) + WireString(h.protocolVersion) + WireString(h.softwareVersion)
               + MarshalFields(HandshakeFields[3..], HandshakeValues(h)[3..]).value
  {
    var fs, r := HandshakeFields, HandshakeValues(h);
    HandshakeSupported();
    SupportedEncodable(fs, r);
    MarshalFieldsAt(fs, r, 0);
    MarshalFieldsAt(fs, r, 1);
    MarshalFieldsAt(fs, r, 2);
    assert fs[0..] == fs && r[0..] == r;
    assert MarshalField(fs[0], r[0]).value == WireString(h.networkId);
    assert MarshalField(fs[1], r[1]).value == WireString(h.protocolVersion);
    assert MarshalField(fs[2], r[2]).value == WireString(h.softwareVersion);
  }

  /** The port, the node type and the capabilities that close a handshake. */
  lemma HandshakeTailLayout(h: Handshake)
    ensures Encodable(HandshakeFields, HandshakeValues(h))
    ensures Encodable(HandshakeFields[3..], HandshakeValues(h)[3..])
    ensures MarshalFields(HandshakeFields[3..], HandshakeValues(h)[3..]).value
            == Uint16ToBytes(h.serverPort) + [h.nodeType]
               + Uint32ToBytes(Count(|h.capabilities|)) + WireCapabilities(h.capabilities)
  {
    var fs, r := HandshakeFields, HandshakeValues(h);
    HandshakeSupported();
    SupportedEncodable(fs, r);
    MarshalFieldsAt(fs, r, 3);
    MarshalFieldsAt(fs, r, 4);
    MarshalFieldsAt(fs, r, 5);
    assert fs[6..] == [] && r[6..] == [];
    assert MarshalField(fs[3], r[3]).value == Uint16ToBytes(h.serverPort);
    assert MarshalField(fs[4], r[4]).value == [h.nodeType];
    CapabilityListField(h);
  }

  /** The capability list field: its 4-byte count, then the capabilities. */
  lemma CapabilityListField(h: Handshake)
    ensures FieldValue(HandshakeFields[5], HandshakeValues(h)[5])
    ensures MarshalField(HandshakeFields[5], HandshakeValues(h)[5])
            == Ok(Uint32ToBytes(Count(|h.capabilities|)) + WireCapabilities(h.capabilities))
  {
    CapabilitiesLayout(h.capabilities);
  }

  /** The bytes on the wire: the three strings, the port big-endian, the node type byte, the
      capability count and then the capabilities. */
  lemma EncodeHandshakeLayout(h: Handshake)
    ensures var e := Marshal(Struct(HandshakeFields, HandshakeValues(h)));
      && e.Ok?
      && e.value == WireString(h.networkId) + WireString(h.protocolVersion) + WireString(h.softwareVersion)
                    + Uint16ToBytes(h.serverPort) + [h.nodeType]
                    + Uint32ToBytes(Count(|h.capabilities|)) + WireCapabilities(h.capabilities)
  {
    HandshakeHeadLayout(h);
    HandshakeTailLayout(h);
  }

  // ---------------------------------------------------------------------------------------
  // Decoding

  /** Every length the wire carries fits its 4-byte count. */
  predicate HandshakeFits(h: Handshake)
  {
    && |h.networkId| < 0x1_0000_0000
    && |h.protocolVersion| < 0x1_0000_0000
    && |h.softwareVersion| < 0x1_0000_0000
    && |h.capabilities| < 0x1_0000_0000
    && forall i :: 0 <= i < |h.capabilities| ==> |h.capabilities[i].value| < 0x1_0000_0000
  }

  lemma CapabilityFitsIff(c: Capability)
    ensures |c.value| < 0x1_0000_0000 <==> Rebuildable(CapabilityFields, CapabilityValues(c), ZeroRecord(CapabilityFields))
  {
    var fs, r, z := CapabilityFields, CapabilityValues(c), ZeroRecord(CapabilityFields);
    ZeroRecordFields(fs);
    assert FieldRebuildable(fs[0], r[0], z[0]);
    assert FieldRebuildable(fs[1], r[1], z[1]) <==> |c.value| < 0x1_0000_0000;
  }

  lemma CapabilitiesFitIff(cs: seq<Capability>)
    ensures KindRebuildable(RecordSeq(CapabilityFields), RecordsVal(CapabilitiesValues(cs)))
            <==> |cs| < 0x1_0000_0000 && forall i :: 0 <= i < |cs| ==> |cs[i].value| < 0x1_0000_0000
  {
    var rs, z := CapabilitiesValues(cs), ZeroRecord(CapabilityFields);
    forall i | 0 <= i < |cs|
      ensures |cs[i].value| < 0x1_0000_0000 <==> Rebuildable(CapabilityFields, rs[i], z)
    {
      CapabilityFitsIff(cs[i]);
    }
    assert KindRebuildable(RecordSeq(CapabilityFields), RecordsVal(rs))
           <==> |rs| < 0x1_0000_0000 && forall i :: 0 <= i < |rs| ==> Rebuildable(CapabilityFields, rs[i], z);
  }

  /** A handshake fits exactly when decoding its encoding into a fresh `&Handshake{}` rebuilds
      it: the 32-bit counts are the only thing that can go wrong. */
  lemma HandshakeFitsIff(h: Handshake)
    ensures HandshakeFits(h) <==> Rebuildable(HandshakeFields, HandshakeValues(h), ZeroRecord(HandshakeFields))
  {
    var fs, r, z := HandshakeFields, HandshakeValues(h), ZeroRecord(HandshakeFields);
    ZeroRecordFields(fs);
    CapabilitiesFitIff(h.capabilities);
    assert FieldRebuildable(fs[0], r[0], z[0]) <==> |h.networkId| < 0x1_0000_0000;
    assert FieldRebuildable(fs[1], r[1], z[1]) <==> |h.protocolVersion| < 0x1_0000_0000;
    assert FieldRebuildable(fs[2], r[2], z[2]) <==> |h.softwareVersion| < 0x1_0000_0000;
    assert FieldRebuildable(fs[3], r[3], z[3]) && FieldRebuildable(fs[4], r[4], z[4]);
    assert FieldRebuildable(fs[5], r[5], z[5])
           <==> KindRebuildable(RecordSeq(CapabilityFields), RecordsVal(CapabilitiesValues(h.capabilities)));
    assert Rebuildable(fs, r, z) <==> forall i :: 0 <= i < 6 ==> FieldRebuildable(fs[i], r[i], z[i]);
  }

  /** Unmarshal into a fresh `&Handshake{}`, read back as a Handshake. */
  function DecodeHandshake(b: seq<byte>): (res: Result<Handshake, Error>)
    ensures res.Err? ==> res.error == InsufficientBytes
    ensures res.Ok? ==> HandshakeFits(res.value) && |EncodeHandshake(res.value)| <= |b|
  {
    var dest := ZeroRecord(HandshakeFields);
    DecodedHandshake(b);
    match Unmarshal(b, ByPointer(Struct(HandshakeFields, dest)))
    case Err(e) => Err(e)
    case Ok(r) =>
      HandshakeFitsIff(HandshakeOf(r));
      Ok(HandshakeOf(r))
  }

  /** What Unmarshal makes of any bytes with a fresh Handshake destination: a well-typed
      record that decoding its own encoding rebuilds, encoding to no more bytes than were
      read; and the only possible failure is running out of bytes. */
  lemma DecodedHandshake(b: seq<byte>)
    ensures var u := Unmarshal(b, ByPointer(Struct(HandshakeFields, ZeroRecord(HandshakeFields))));
      && (u.Err? ==> u.error == InsufficientBytes)
      && (u.Ok? ==>
            && Conforms(HandshakeFields, u.value)
            && Encodable(HandshakeFields, u.value)
            && Rebuildable(HandshakeFields, u.value, ZeroRecord(HandshakeFields))
            && |Marshal(Struct(HandshakeFields, u.value)).value| <= |b|)
  {
    var dest := ZeroRecord(HandshakeFields);
    ZeroRecordFields(HandshakeFields);
    ZeroRecordHasNilOptionals(HandshakeFields);
    var u := Unmarshal(b, ByPointer(Struct(HandshakeFields, dest)));
    if u.Ok? {
      DecodedFields(HandshakeFields, b, dest);
    } else {
      HandshakeSupported();
      SupportedUnderflows(HandshakeFields, b, dest);
    }
  }

  /** Decoding an encoded handshake, followed by any bytes, gives the handshake back. */
  lemma HandshakeRoundTrip(h: Handshake, rest: seq<byte>)
    requires HandshakeFits(h)
    ensures DecodeHandshake(EncodeHandshake(h) + rest) == Ok(h)
  {
    var dest := ZeroRecord(HandshakeFields);
    ZeroRecordFields(HandshakeFields);
    HandshakeFitsIff(h);
    HandshakeSupported();
    SupportedEncodable(HandshakeFields, HandshakeValues(h));
    RoundTrip(HandshakeFields, HandshakeValues(h), dest, rest);
    HandshakeOfValues(h);
  }

  /** Every strict prefix of an encoded handshake is rejected as too short. */
  lemma HandshakeTruncated(h: Handshake, n: nat)
    requires HandshakeFits(h) && n < |EncodeHandshake(h)|
    ensures DecodeHandshake(EncodeHandshake(h)[..n]) == Err(InsufficientBytes)
  {
    var dest := ZeroRecord(HandshakeFields);
    ZeroRecordFields(HandshakeFields);
    HandshakeFitsIff(h);
    HandshakeSupported();
    SupportedEncodable(HandshakeFields, HandshakeValues(h));
    TruncatedInputFails(HandshakeFields, HandshakeValues(h), dest, n);
  }
}
