/** The codec exactly as pkg/streamable/streamable.go is written, including its unfinished
    arms: a uint16 writes and reads nothing, a string is "unimplemented type", a slice of
    structs carries its count but no elements, a present optional pointer is only logged,
    and a short buffer at a presence flag or a slice count is indexed anyway and panics.

    The rest of the model uses the finished codec of Streamable; the lemmas here show where
    the two part (each on one of the library's own test vectors) and that they agree on the
    arms the code does finish. */
module AsWritten {
  import opened Wrappers
  import opened Bytes
  import opened Uints
  import opened Streamable
  import opened StreamableLaws
  import opened Messages
  import opened Handshakes
  import opened Vectors

  /** A decode that can also panic (an index into the nil slice a failed shift returns). */
  datatype Outcome<+T> = Done(value: T) | Failed(error: Error) | Panicked

  // ---------------------------------------------------------------------------------------
  // Marshal as written (streamable.go:131-203)

  function MarshalKindAsWritten(k: Kind, v: Value): (res: Result<seq<byte>, Error>)
    requires KindValue(k, v)
    ensures res.Err? ==> res.error == Unimplemented
  {
    match k
    case U8 => Ok(Uint8ToBytes(v.u8))                               // :179-182
    case U16 => Ok([])                                               // :183-184
    case ByteSeq => Ok(Uint32ToBytes(Count(|v.bytes|)) + v.bytes)    // :185-195
    case RecordSeq(_) => Ok(Uint32ToBytes(Count(|v.records|)))       // :188-189, :191-196
    case Str => Err(Unimplemented)                                   // :197-198
    case Unsupported => Err(Unimplemented)                           // :197-198
  }

  /** The kinds Marshal as written has an arm for: all but strings and the arm-less kinds. */
  predicate WrittenKind(k: Kind)
  {
    k != Str && k != Unsupported
  }

  /** A field Marshal as written gets through: untagged, a nil optional, or a kind with an arm
      (a slice of structs whatever its elements, since they are never visited). */
  predicate FieldWritable(f: Field, v: Value)
  {
    !f.tagged || (f.optional && v.NilVal?) || WrittenKind(f.kind)
  }

  function MarshalFieldAsWritten(f: Field, v: Value): (res: Result<seq<byte>, Error>)
    requires FieldValue(f, v)
    ensures res.Ok? <==> FieldWritable(f, v)
    ensures res.Err? ==> res.error == Unimplemented
    ensures !f.tagged ==> res == Ok([])
    ensures f.tagged && f.optional && v.NilVal? ==> res == Ok([0])
    ensures f.tagged && f.kind == U16 && !v.NilVal? ==> res == Ok(if f.optional then [1] else [])
  {
    if !f.tagged then Ok([])
    else if f.optional then
      if v.NilVal? then Ok([0])
      else
        match MarshalKindAsWritten(f.kind, v.pointee)
        case Err(e) => Err(e)
        case Ok(bytes) =>
          assert bytes == [] ==> [1] + bytes == [1];
          Ok([1] + bytes)
    else MarshalKindAsWritten(f.kind, v)
  }

  function MarshalFieldsAsWritten(fs: seq<Field>, r: seq<Value>): (res: Result<seq<byte>, Error>)
    requires Conforms(fs, r)
    ensures res.Ok? <==> forall i :: 0 <= i < |fs| ==> FieldWritable(fs[i], r[i])
    ensures res.Err? ==> res.error == Unimplemented
  {
    if fs == [] then Ok([])
    else
      assert forall i :: 0 <= i < |fs| - 1 ==> fs[1..][i] == fs[i + 1] && r[1..][i] == r[i + 1];
      match MarshalFieldAsWritten(fs[0], r[0])
      case Err(e) => Err(e)
      case Ok(head) =>
        match MarshalFieldsAsWritten(fs[1..], r[1..])
        case Err(e) => Err(e)
        case Ok(tail) => Ok(head + tail)
  }

  // ---------------------------------------------------------------------------------------
  // Unmarshal as written (streamable.go:31-128)

  function UnmarshalKindAsWritten(k: Kind, b: seq<byte>, prior: Value): (res: Outcome<(Value, seq<byte>)>)
    ensures res.Done? ==> |res.value.1| <= |b|
    ensures res.Failed? ==> res.error == InsufficientBytes || res.error == Unimplemented
    ensures res.Panicked? <==> (k == ByteSeq || k.RecordSeq?) && |b| < 4
    ensures k == U16 ==> res == Done((prior, b))
    ensures k == Str || k == Unsupported ==> res == Failed(Unimplemented)
    ensures k.RecordSeq? && |b| >= 4 ==> res == Done((prior, b[4..]))
  {
    match k
    case U8 =>                                                       // :81-90
      var s := ShiftNBytes(1, b);
      if s.failed then Failed(InsufficientBytes) else Done((U8Val(s.taken[0]), s.rest))
    case U16 => Done((prior, b))                                     // :91-93
    case ByteSeq =>                                                  // :95-121
      var c := ShiftNBytes(4, b);
      if c.failed then Panicked
      else
        var s := ShiftNBytes(ReadUint32(c.taken), c.rest);
        if s.failed then Failed(InsufficientBytes) else Done((BytesVal(s.taken), s.rest))
    case RecordSeq(_) =>                                             // :98-100, :104
      var c := ShiftNBytes(4, b);
      if c.failed then Panicked else Done((prior, c.rest))
    case Str => Failed(Unimplemented)                                // :122-123
    case Unsupported => Failed(Unimplemented)                        // :122-123
  }

  function UnmarshalFieldAsWritten(f: Field, b: seq<byte>, prior: Value): (res: Outcome<(Value, seq<byte>)>)
    ensures res.Done? ==> |res.value.1| <= |b|
    ensures res.Failed? ==> res.error == InsufficientBytes || res.error == Unimplemented
    ensures !f.tagged ==> res == Done((prior, b))
    ensures f.tagged && f.optional ==> res == if b == [] then Panicked else Done((prior, b[1..]))
  {
    if !f.tagged then Done((prior, b))
    else if f.optional then
      // :65-74, then the pointer arm :77-80, which only logs: the pointee stays unread
      var flag := ShiftNBytes(1, b);
      if flag.failed then Panicked else Done((prior, flag.rest))
    else UnmarshalKindAsWritten(f.kind, b, prior)
  }

  function UnmarshalFieldsAsWritten(fs: seq<Field>, b: seq<byte>, dest: seq<Value>): (res: Outcome<(seq<Value>, seq<byte>)>)
    requires |dest| == |fs|
    ensures res.Done? ==> |res.value.0| == |fs| && |res.value.1| <= |b|
    ensures res.Failed? ==> res.error == InsufficientBytes || res.error == Unimplemented
  {
    if fs == [] then Done(([], b))
    else
      match UnmarshalFieldAsWritten(fs[0], b, dest[0])
      case Failed(e) => Failed(e)
      case Panicked => Panicked
      case Done((v, rest)) =>
        match UnmarshalFieldsAsWritten(fs[1..], rest, dest[1..])
        case Failed(e) => Failed(e)
        case Panicked => Panicked
        case Done((vs, rest')) => Done(([v] + vs, rest'))
  }

  // ---------------------------------------------------------------------------------------
  // Where the code is finished, it is the model

  /** Field kinds whose Marshal and Unmarshal arms the code completes. */
  predicate Finished(fs: seq<Field>)
  {
    forall i :: 0 <= i < |fs| ==> fs[i].kind == U8 || fs[i].kind == ByteSeq || fs[i].kind == Unsupported
  }

  /** On tables of finished kinds Marshal as written and the model's Marshal agree exactly,
      optional fields included. */
  lemma {:induction false} MarshalAgreesWhenFinished(fs: seq<Field>, r: seq<Value>)
    requires Conforms(fs, r) && Finished(fs)
    ensures MarshalFieldsAsWritten(fs, r) == MarshalFields(fs, r)
  {
    if fs != [] {
      assert Conforms(fs[1..], r[1..]) && Finished(fs[1..]) by {
        forall i | 0 <= i < |fs| - 1
          ensures FieldValue(fs[1..][i], r[1..][i]) && (fs[1..][i].kind in {U8, ByteSeq, Unsupported})
        {
          assert fs[1..][i] == fs[i + 1] && r[1..][i] == r[i + 1];
        }
      }
      assert FieldValue(fs[0], r[0]);
      assert MarshalFieldAsWritten(fs[0], r[0]) == MarshalField(fs[0], r[0]);
      MarshalAgreesWhenFinished(fs[1..], r[1..]);
    }
  }

  /** One finished kind read as written: the same outcome as the model's reader, except
      that a short count panics where the model reports the short buffer. */
  lemma KindAgreesWhenFinished(k: Kind, b: seq<byte>, prior: Value)
    requires k == U8 || k == ByteSeq || k == Unsupported
    ensures var model := UnmarshalKind(k, b);
      match UnmarshalKindAsWritten(k, b, prior)
      case Done(x) => model == Ok(x)
      case Failed(e) => model == Err(e)
      case Panicked => model == Err(InsufficientBytes)
  {
  }

  /** One non-optional field of a finished kind, tagged or not, read as written: the same
      outcome as the model's reader, a panic standing for its short-buffer error. */
  lemma FieldAgreesWhenFinished(f: Field, b: seq<byte>, prior: Value)
    requires (f.kind == U8 || f.kind == ByteSeq || f.kind == Unsupported) && !f.optional
    ensures var model := UnmarshalField(f, b, prior);
      match UnmarshalFieldAsWritten(f, b, prior)
      case Done(x) => model == Ok(x)
      case Failed(e) => model == Err(e)
      case Panicked => model == Err(InsufficientBytes)
  {
    if f.tagged {
      FieldRequiredStep(f, b, prior);
      KindAgreesWhenFinished(f.kind, b, prior);
    }
  }

  /** On tables of finished, non-optional kinds Unmarshal as written agrees with the model,
      except that where the model reports a short buffer at a slice count the code panics. */
  lemma {:induction false} UnmarshalAgreesWhenFinished(fs: seq<Field>, b: seq<byte>, dest: seq<Value>)
    requires |dest| == |fs| && Finished(fs)
    requires forall i :: 0 <= i < |fs| ==> !fs[i].optional
    ensures var model := UnmarshalFields(fs, b, dest);
      match UnmarshalFieldsAsWritten(fs, b, dest)
      case Done(x) => model == Ok(x)
      case Failed(e) => model == Err(e)
      case Panicked => model == Err(InsufficientBytes)
  {
    if fs != [] {
      var f := fs[0];
      assert (f.kind == U8 || f.kind == ByteSeq || f.kind == Unsupported) && !f.optional;
      assert Finished(fs[1..]) && forall i :: 0 <= i < |fs| - 1 ==> !fs[1..][i].optional by {
        forall i | 0 <= i < |fs| - 1
          ensures (fs[1..][i].kind == U8 || fs[1..][i].kind == ByteSeq || fs[1..][i].kind == Unsupported)
                  && !fs[1..][i].optional
        {
          assert fs[1..][i] == fs[i + 1];
        }
      }
      FieldAgreesWhenFinished(f, b, dest[0]);
      match UnmarshalFieldAsWritten(f, b, dest[0])
      case Failed(e) =>
        FieldsHeadFails(fs, b, dest, e);
      case Panicked =>
        FieldsHeadFails(fs, b, dest, InsufficientBytes);
      case Done((v, mid)) =>
        UnmarshalAgreesWhenFinished(fs[1..], mid, dest[1..]);
        match UnmarshalFieldsAsWritten(fs[1..], mid, dest[1..])
        case Failed(e) =>
          FieldsTailFails(fs, b, dest, v, mid, e);
        case Panicked =>
          FieldsTailFails(fs, b, dest, v, mid, InsufficientBytes);
        case Done((vs, rest)) =>
          FieldsStep(fs, b, dest, v, mid, vs, rest);
    }
  }

  // ---------------------------------------------------------------------------------------
  // One step of the readers and writers as written

  lemma WrittenStep(fs: seq<Field>, r: seq<Value>, head: seq<byte>, tail: seq<byte>)
    requires Conforms(fs, r) && fs != [] && Conforms(fs[1..], r[1..])
    requires FieldValue(fs[0], r[0]) && MarshalFieldAsWritten(fs[0], r[0]) == Ok(head)
    requires MarshalFieldsAsWritten(fs[1..], r[1..]) == Ok(tail)
    ensures MarshalFieldsAsWritten(fs, r) == Ok(head + tail)
  {
  }

  lemma ReadStep(fs: seq<Field>, b: seq<byte>, dest: seq<Value>, v: Value, mid: seq<byte>)
    requires |dest| == |fs| && fs != []
    requires UnmarshalFieldAsWritten(fs[0], b, dest[0]) == Done((v, mid))
    ensures UnmarshalFieldsAsWritten(fs, b, dest)
            == match UnmarshalFieldsAsWritten(fs[1..], mid, dest[1..])
               case Done((vs, rest)) => Done(([v] + vs, rest))
               case Failed(e) => Failed(e)
               case Panicked => Panicked
  {
  }

  // ---------------------------------------------------------------------------------------
  // Where the code parts from the wire format, on the library's own vectors

  lemma ConformsTail(fs: seq<Field>, r: seq<Value>)
    requires Conforms(fs, r) && fs != []
    ensures FieldValue(fs[0], r[0]) && Conforms(fs[1..], r[1..])
  {
    assert FieldValue(fs[0], r[0]);
    forall i | 0 <= i < |fs| - 1
      ensures FieldValue(fs[1..][i], r[1..][i])
    {
      assert fs[1..][i] == fs[i + 1] && r[1..][i] == r[i + 1];
    }
  }

  /** streamable.go:183-184: as written, any Message goes out as its type, the id's presence
      flag, the payload's count and the payload; the id itself is never written. */
  lemma MessageWritten(m: Message)
    ensures MarshalFieldsAsWritten(MessageFields, MessageValues(m))
            == Ok([m.messageType] + [if m.id.Some? then 1 else 0] + Uint32ToBytes(Count(|m.data|)) + m.data)
  {
    var fs, r := MessageFields, MessageValues(m);
    var t, flag, body: seq<byte> := [m.messageType], [if m.id.Some? then 1 else 0], Uint32ToBytes(Count(|m.data|)) + m.data;
    ConformsTail(fs, r);
    ConformsTail(fs[1..], r[1..]);
    ConformsTail(fs[2..], r[2..]);
    assert fs[1..][0] == fs[1] && r[1..][0] == r[1] && fs[2..][0] == fs[2] && r[2..][0] == r[2];
    assert fs[1..][1..] == fs[2..] && r[1..][1..] == r[2..] && fs[2..][1..] == [] && r[2..][1..] == [];
    assert MarshalFieldAsWritten(fs[2], r[2]) == Ok(body);
    WrittenStep(fs[2..], r[2..], body, []);
    assert MarshalFieldAsWritten(fs[1], r[1]) == Ok(flag) by {
      assert flag + [] == flag;
    }
    WrittenStep(fs[1..], r[1..], flag, body + []);
    assert MarshalFieldAsWritten(fs[0], r[0]) == Ok(t);
    WrittenStep(fs, r, t, flag + (body + []));
    assert t + (flag + (body + [])) == t + flag + Uint32ToBytes(Count(|m.data|)) + m.data;
  }

  /** On Message 2 of the library's tests, id 35256 is dropped: the bytes written are two
      shorter than encodedHex2. */
  lemma MarshalDropsUint16(m: Message)
    requires m == Message2
    ensures MarshalFieldsAsWritten(MessageFields, MessageValues(m)).Ok?
    ensures |MarshalFieldsAsWritten(MessageFields, MessageValues(m)).value| == |Vector2| - 2
  {
    MessageWritten(m);
  }

  /** streamable.go:77-80: reading encodedHex2, the present id is left unread, so its two
      bytes and two count bytes are taken as the payload's count 0x89b80000, far more than
      the 36 bytes that remain. */
  lemma UnmarshalSkipsPointee(b: seq<byte>)
    requires b == Vector2
    ensures UnmarshalFieldsAsWritten(MessageFields, b, ZeroRecord(MessageFields)) == Failed(InsufficientBytes)
  {
    var fs, z := MessageFields, ZeroRecord(MessageFields);
    ZeroRecordFields(fs);
    var count: seq<byte> := [0x89, 0xb8, 0x00, 0x00];
    Uint32Bytes(0x89b8_0000, 0x89, 0xb8, 0x00, 0x00);
    Uint32RoundTrip(0x89b8_0000, count);
    var head: seq<byte> := [0x01, 0x01, 0x89, 0xb8, 0x00, 0x00, 0x00, 0x22];
    assert b == head + SampleText && |b| == 42;
    assert b[0] == 1 && b[1] == 1 && b[2] == 0x89 && b[3] == 0xb8 && b[4] == 0 && b[5] == 0;
    assert b[2..][..4] == count by {
      assert b[2..][..4] == [b[2], b[3], b[4], b[5]];
    }
    assert |b[2..][4..]| == 36;
    assert UnmarshalFieldAsWritten(fs[2], b[2..], z[2]) == Failed(InsufficientBytes);
    assert fs[1..][0] == fs[1] && fs[2..][0] == fs[2] && z[1..][0] == z[1] && z[2..][0] == z[2];
    assert fs[1..][1..] == fs[2..] && z[1..][1..] == z[2..];
    assert UnmarshalFieldsAsWritten(fs[2..], b[2..], z[2..]) == Failed(InsufficientBytes);
    assert UnmarshalFieldAsWritten(fs[1], b[1..], z[1]) == Done((z[1], b[1..][1..]));
    assert b[1..][1..] == b[2..];
    ReadStep(fs[1..], b[1..], z[1..], z[1], b[2..]);
    assert UnmarshalFieldAsWritten(fs[0], b, z[0]) == Done((U8Val(1), b[1..]));
    ReadStep(fs, b, z, U8Val(1), b[1..]);
  }

  /** streamable.go:197-198: a Handshake starts with a string, which has no arm, so the
      handshake of the test vector cannot be written at all. */
  lemma MarshalRejectsString(h: Handshake)
    requires h == Handshake1
    ensures MarshalFieldsAsWritten(HandshakeFields, HandshakeValues(h)) == Err(Unimplemented)
  {
    var fs, r := HandshakeFields, HandshakeValues(h);
    assert MarshalFieldAsWritten(fs[0], r[0]) == Err(Unimplemented);
  }

  /** streamable.go:122-123: nor can the handshake payload of encodedHexHandshake be read. */
  lemma UnmarshalRejectsString(b: seq<byte>)
    requires b == HandshakeBytes
    ensures UnmarshalFieldsAsWritten(HandshakeFields, b, ZeroRecord(HandshakeFields)) == Failed(Unimplemented)
  {
    var fs, z := HandshakeFields, ZeroRecord(HandshakeFields);
    assert UnmarshalFieldAsWritten(fs[0], b, z[0]) == Failed(Unimplemented);
  }

  /** A record holding one []struct{ B uint8 }, the smallest slice of structs. */
  const OneByteRecord: seq<Field> := [Field(U8, true, false)]
  const ListOfRecords: seq<Field> := [Field(RecordSeq(OneByteRecord), true, false)]

  /** streamable.go:191-196 and :104-121: the elements of a slice of structs are neither
      written nor read. The list [{7}] is written as its count alone, and reading the full
      wire form back leaves the list empty and the element's byte unconsumed. */
  lemma RecordElementsDropped(r: seq<Value>, wire: seq<byte>)
    requires r == [RecordsVal([[U8Val(7)]])] && wire == [0, 0, 0, 1, 7]
    ensures Conforms(ListOfRecords, r)
    ensures MarshalFieldsAsWritten(ListOfRecords, r) == Ok([0, 0, 0, 1])
    ensures MarshalFields(ListOfRecords, r) == Ok(wire)
    ensures UnmarshalFieldsAsWritten(ListOfRecords, wire, ZeroRecord(ListOfRecords)) == Done(([RecordsVal([])], [7]))
    ensures UnmarshalFields(ListOfRecords, wire, ZeroRecord(ListOfRecords)) == Ok((r, []))
  {
    RecordListWritten(r);
    RecordListRead(wire);
  }

  lemma RecordListWritten(r: seq<Value>)
    requires r == [RecordsVal([[U8Val(7)]])]
    ensures Conforms(ListOfRecords, r)
    ensures MarshalFieldsAsWritten(ListOfRecords, r) == Ok([0, 0, 0, 1])
    ensures MarshalFields(ListOfRecords, r) == Ok([0, 0, 0, 1, 7])
  {
    var fs := ListOfRecords;
    var element := [U8Val(7)];
    assert Conforms(OneByteRecord, element);
    assert FieldValue(fs[0], r[0]);
    var count, seven: seq<byte> := [0, 0, 0, 1], [7];
    Uint32Bytes(1, 0, 0, 0, 1);
    assert fs[1..] == [] && r[1..] == [];
    assert MarshalFieldAsWritten(fs[0], r[0]) == Ok(count);
    WrittenStep(fs, r, count, []);
    assert count + [] == count;
    assert MarshalFields(OneByteRecord, element) == Ok(seven) by {
      assert OneByteRecord[1..] == [] && element[1..] == [];
      assert seven + [] == seven;
    }
    assert MarshalRecords(OneByteRecord, [element]) == Ok(seven + []) by {
      var one: seq<seq<Value>> := [element];
      assert one[1..] == [];
    }
    assert MarshalField(fs[0], r[0]) == Ok(count + seven);
    assert count + seven + [] == [0, 0, 0, 1, 7];
  }

  lemma RecordListRead(wire: seq<byte>)
    requires wire == [0, 0, 0, 1, 7]
    ensures UnmarshalFieldsAsWritten(ListOfRecords, wire, ZeroRecord(ListOfRecords)) == Done(([RecordsVal([])], [7]))
    ensures UnmarshalFields(ListOfRecords, wire, ZeroRecord(ListOfRecords)) == Ok(([RecordsVal([[U8Val(7)]])], []))
  {
    var fs, z := ListOfRecords, ZeroRecord(ListOfRecords);
    ZeroRecordFields(fs);
    var count: seq<byte> := [0, 0, 0, 1];
    Uint32Bytes(1, 0, 0, 0, 1);
    Uint32RoundTrip(1, count);
    assert wire[..4] == count && wire[4..] == [7];
    assert fs[1..] == [] && z[1..] == [];
    assert UnmarshalFieldAsWritten(fs[0], wire, z[0]) == Done((RecordsVal([]), [7]));
    ReadStep(fs, wire, z, RecordsVal([]), [7]);
    assert UnmarshalFieldsAsWritten(fs[1..], [7], z[1..]) == Done(([], [7]));
    assert [RecordsVal([])] + [] == [RecordsVal([])];
    RecordsStepOne([7]);
    FieldRequiredStep(fs[0], wire, z[0]);
    assert UnmarshalKind(fs[0].kind, wire) == Ok((RecordsVal([[U8Val(7)]]), []));
    assert UnmarshalFields(fs[1..], [], z[1..]) == Ok(([], []));
    FieldsStep(fs, wire, z, RecordsVal([[U8Val(7)]]), [], [], []);
    assert [RecordsVal([[U8Val(7)]])] + [] == [RecordsVal([[U8Val(7)]])];
  }

  /** One element of the one-byte record, read from `[7]`. */
  lemma RecordsStepOne(b: seq<byte>)
    requires b == [7]
    ensures UnmarshalRecords(OneByteRecord, 1, b) == Ok(([[U8Val(7)]], []))
  {
    var fs, z := OneByteRecord, ZeroRecord(OneByteRecord);
    ZeroRecordFields(fs);
    assert fs[1..] == [] && z[1..] == [];
    FieldRequiredStep(fs[0], b, z[0]);
    UnmarshalFixedLayout(b);
    assert b[1..] == [];
    FieldsStep(fs, b, z, U8Val(7), [], [], []);
    assert [U8Val(7)] + [] == [U8Val(7)];
    assert UnmarshalRecords(fs, 0, []) == Ok(([], []));
    RecordsStep(fs, 1, b, [U8Val(7)], [], [], []);
    assert [[U8Val(7)]] + [] == [[U8Val(7)]];
  }

  /** streamable.go:68-69: a message cut off right after its type byte makes the code index
      the nil flag slice and panic, where the model reports a short buffer. */
  lemma ShortFlagPanics(b: seq<byte>)
    requires b == [0x01]
    ensures UnmarshalFieldsAsWritten(MessageFields, b, ZeroRecord(MessageFields)) == Panicked
    ensures DecodeMessage(b) == Err(InsufficientBytes)
  {
    var fs, z := MessageFields, ZeroRecord(MessageFields);
    ZeroRecordFields(fs);
    assert b[1..] == [];
    assert UnmarshalFieldAsWritten(fs[0], b, z[0]) == Done((U8Val(1), []));
    assert fs[1..][0] == fs[1] && z[1..][0] == z[1];
    assert UnmarshalFieldAsWritten(fs[1], [], z[1]) == Panicked;
    UnmarshalOptionalLayout(fs[1], [], z[1]);
    FieldsTailFails(fs, b, z, U8Val(1), [], InsufficientBytes);
  }
}
