/** The peer-exchange payloads of pkg/protocols/fullnode.go and the peer record of
    pkg/types/peerinfo.go. TimestampedPeerInfo ends in a uint64 timestamp, a kind the codec
    has no arm for, so with the elements of a slice of structs written and read, a peer list
    can only cross the wire when it is empty. As pkg/streamable/streamable.go is written, a
    slice of structs is its count alone (AsWritten.RecordElementsDropped), so a non-empty
    RespondPeers goes out as a bare count and any count is accepted back. */
module Peers {
  import opened Wrappers
  import opened Bytes
  import opened Uints
  import opened Streamable
  import opened StreamableLaws

  /** TimestampedPeerInfo: a tagged string, a tagged uint16 and a tagged uint64
      (peerinfo.go:4-8). */
  const PeerInfoFields: seq<Field> := [Field(Str, true, false), Field(U16, true, false), Field(Unsupported, true, false)]

  /** RequestPeers has no fields (fullnode.go:7-8). */
  const RequestPeersFields: seq<Field> := []

  /** RespondPeers: one tagged []TimestampedPeerInfo (fullnode.go:10-13). */
  const RespondPeersFields: seq<Field> := [Field(RecordSeq(PeerInfoFields), true, false)]

  /** A peer as a record: host, port, and the timestamp the engine cannot represent. */
  function PeerValues(host: seq<byte>, port: uint16): (r: seq<Value>)
    ensures Conforms(PeerInfoFields, r)
  {
    [StrVal(host), U16Val(port), OpaqueVal]
  }

  /** A RequestPeers message body is empty, and Unmarshal of any bytes into a RequestPeers
      succeeds without reading anything. */
  lemma RequestPeersCodec(b: seq<byte>)
    ensures Marshal(Struct(RequestPeersFields, [])) == Ok([])
    ensures Unmarshal(b, ByPointer(Struct(RequestPeersFields, []))) == Ok([])
  {
  }

  /** No TimestampedPeerInfo encodes: its timestamp has no arm. */
  lemma PeerInfoNeverEncodes(r: seq<Value>)
    requires Conforms(PeerInfoFields, r)
    ensures Marshal(Struct(PeerInfoFields, r)) == Err(Unimplemented)
  {
    assert !FieldEncodable(PeerInfoFields[2], r[2]);
  }

  /** No TimestampedPeerInfo decodes either: reading stops with "unimplemented type" at the
      timestamp once the host and the port are there, and as too short before that. */
  lemma PeerInfoNeverDecodes(b: seq<byte>, dest: seq<Value>)
    requires |dest| == |PeerInfoFields|
    ensures UnmarshalFields(PeerInfoFields, b, dest).Err?
    ensures var host := UnmarshalKind(Str, b);
      UnmarshalFields(PeerInfoFields, b, dest).error
        == if host.Ok? && |host.value.1| >= 2 then Unimplemented else InsufficientBytes
  {
    var fs := PeerInfoFields;
    var host := UnmarshalKind(Str, b);
    FieldRequiredStep(fs[0], b, dest[0]);
    if host.Err? {
      FieldsHeadFails(fs, b, dest, host.error);
    } else {
      var (v, mid) := host.value;
      assert fs[1..] == [Field(U16, true, false), Field(Unsupported, true, false)];
      var fs1, d1 := fs[1..], dest[1..];
      FieldRequiredStep(fs1[0], mid, d1[0]);
      UnmarshalFixedLayout(mid);
      if |mid| < 2 {
        FieldsHeadFails(fs1, mid, d1, InsufficientBytes);
        FieldsTailFails(fs, b, dest, v, mid, InsufficientBytes);
      } else {
        var (p, rest) := UnmarshalKind(U16, mid).value;
        var fs2, d2 := fs1[1..], d1[1..];
        assert fs2 == [Field(Unsupported, true, false)];
        FieldRequiredStep(fs2[0], rest, d2[0]);
        FieldsHeadFails(fs2, rest, d2, Unimplemented);
        FieldsTailFails(fs1, mid, d1, p, rest, Unimplemented);
        FieldsTailFails(fs, b, dest, v, mid, Unimplemented);
      }
    }
  }

  lemma EmptyRespondPeersEncoding()
    ensures Marshal(Struct(RespondPeersFields, [RecordsVal([])])) == Ok([0, 0, 0, 0])
  {
    var f, r, zero: seq<byte> := RespondPeersFields[0], [RecordsVal([])], [0, 0, 0, 0];
    assert FieldValue(f, r[0]);
    assert zero + [] == zero;
    assert MarshalRecords(PeerInfoFields, []) == Ok([]);
    Uint32Bytes(Count(0), 0, 0, 0, 0);
    assert MarshalKind(f.kind, r[0]) == Ok(zero);
    MarshalFieldLayout(f, r[0]);
    assert MarshalFields(RespondPeersFields[1..], r[1..]) == Ok([]);
  }

  /** A RespondPeers encodes only when its peer list is empty, as the 4-byte count 0;
      a non-empty list is "unimplemented type". */
  lemma RespondPeersEncoding(peers: seq<seq<Value>>)
    requires forall i :: 0 <= i < |peers| ==> Conforms(PeerInfoFields, peers[i])
    ensures Conforms(RespondPeersFields, [RecordsVal(peers)])
    ensures Marshal(Struct(RespondPeersFields, [RecordsVal(peers)]))
            == if peers == [] then Ok([0, 0, 0, 0]) else Err(Unimplemented)
  {
    var r := [RecordsVal(peers)];
    assert FieldValue(RespondPeersFields[0], r[0]);
    if peers == [] {
      EmptyRespondPeersEncoding();
    } else {
      PeerInfoNeverEncodes(peers[0]);
      assert !FieldEncodable(RespondPeersFields[0], r[0]);
      assert !Encodable(RespondPeersFields, r);
    }
  }

  /** Unmarshal into a fresh `&RespondPeers{}` succeeds exactly when the 4-byte count in
      front is 0, giving the empty list; a non-zero count fails at the first peer. */
  lemma RespondPeersDecoding(b: seq<byte>)
    ensures var u := Unmarshal(b, ByPointer(Struct(RespondPeersFields, ZeroRecord(RespondPeersFields))));
      && (u.Ok? <==> |b| >= 4 && BigEndian(b[..4]) == 0)
      && (u.Ok? ==> u.value == [RecordsVal([])])
      && (|b| < 4 ==> u == Err(InsufficientBytes))
  {
    var fs, z := RespondPeersFields, ZeroRecord(RespondPeersFields);
    var u := Unmarshal(b, ByPointer(Struct(fs, z)));
    var k := RecordSeq(PeerInfoFields);
    FieldRequiredStep(fs[0], b, z[0]);
    assert fs[1..] == [] && z[1..] == [];
    var c := ShiftNBytes(4, b);
    if c.failed {
      FieldsHeadFails(fs, b, z, InsufficientBytes);
    } else {
      assert c.taken == b[..4];
      var n := ReadUint32(c.taken);
      if n == 0 {
        assert UnmarshalKind(k, b) == Ok((RecordsVal([]), c.rest));
        FieldsStep(fs, b, z, RecordsVal([]), c.rest, [], c.rest);
      } else {
        PeerInfoNeverDecodes(c.rest, ZeroRecord(PeerInfoFields));
        var e := UnmarshalFields(PeerInfoFields, c.rest, ZeroRecord(PeerInfoFields)).error;
        RecordsHeadFails(PeerInfoFields, n, c.rest, e);
        assert UnmarshalKind(k, b) == Err(e);
        FieldsHeadFails(fs, b, z, e);
      }
    }
  }
}
