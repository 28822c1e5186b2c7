/** Laws of the streamable codec: declaration-order concatenation, the round trip
    decode(encode(x)) == x, independence from trailing bytes, failure on every truncation,
    and re-encoding of whatever was decoded. */
module StreamableLaws {
  import opened Wrappers
  import opened Bytes
  import opened Uints
  import opened Streamable

  // ---------------------------------------------------------------------------------------
  // When decoding rebuilds a value exactly: every count fits its 4-byte prefix, an untagged
  // or absent field already holds in the destination what it should end up holding, and the
  // elements of a record sequence (decoded into fresh zero records) agree with zero on their
  // untagged fields.

  predicate KindRebuildable(k: Kind, v: Value)
    decreases k
  {
    match k
    case Str => v.StrVal? ==> |v.text| < 0x1_0000_0000
    case ByteSeq => v.BytesVal? ==> |v.bytes| < 0x1_0000_0000
    case RecordSeq(fs) =>
      v.RecordsVal? ==>
        && |v.records| < 0x1_0000_0000
        && forall i :: 0 <= i < |v.records| ==> Rebuildable(fs, v.records[i], ZeroRecord(fs))
    case _ => true
  }

  predicate FieldRebuildable(f: Field, v: Value, prior: Value)
    decreases f
  {
    if !f.tagged then v == prior
    else if f.optional then (v.NilVal? ==> prior.NilVal?) && (v.PtrVal? ==> KindRebuildable(f.kind, v.pointee))
    else KindRebuildable(f.kind, v)
  }

  /** Decoding `r`'s encoding into `dest` gives back `r`. */
  predicate Rebuildable(fs: seq<Field>, r: seq<Value>, dest: seq<Value>)
    decreases fs, 0
  {
    |fs| == |r| == |dest| && forall i :: 0 <= i < |fs| ==> FieldRebuildable(fs[i], r[i], dest[i])
  }

  /** The tagged optional fields of `dest` are nil, as in a freshly allocated struct. */
  predicate NilOptionals(fs: seq<Field>, dest: seq<Value>)
  {
    |fs| == |dest| && forall i :: 0 <= i < |fs| && fs[i].tagged && fs[i].optional ==> dest[i].NilVal?
  }

  lemma ZeroRecordHasNilOptionals(fs: seq<Field>)
    ensures NilOptionals(fs, ZeroRecord(fs))
  {
    ZeroRecordFields(fs);
  }

  // ---------------------------------------------------------------------------------------
  // Wire layout of one value and one field, in terms of the reference big-endian reading.

  /** A uint8 is its one byte; a uint16 is two bytes big-endian; a string or []byte is a
      4-byte big-endian count (the length truncated to 32 bits) followed by its bytes; a slice
      of records is a 4-byte count followed by the elements' encodings back to back. */
  lemma MarshalKindLayout(k: Kind, v: Value)
    requires KindValue(k, v) && KindEncodable(k, v)
    ensures var e := MarshalKind(k, v).value;
      && (k == U8 ==> e == [v.u8])
      && (k == U16 ==> |e| == 2 && BigEndian(e) == v.u16)
      && (k == Str ==> |e| == 4 + |v.text| && BigEndian(e[..4]) == Count(|v.text|) && e[4..] == v.text)
      && (k == ByteSeq ==> |e| == 4 + |v.bytes| && BigEndian(e[..4]) == Count(|v.bytes|) && e[4..] == v.bytes)
      && (k.RecordSeq? ==>
            && |e| >= 4 && BigEndian(e[..4]) == Count(|v.records|)
            && e[4..] == MarshalRecords(k.elem, v.records).value)
  {
    var e := MarshalKind(k, v).value;
    match k
    case U8 =>
    case U16 =>
    case Str =>
      assert e == Uint32ToBytes(Count(|v.text|)) + v.text;
      assert e[..4] == Uint32ToBytes(Count(|v.text|));
    case ByteSeq =>
      assert e == Uint32ToBytes(Count(|v.bytes|)) + v.bytes;
      assert e[..4] == Uint32ToBytes(Count(|v.bytes|));
    case RecordSeq(fs) =>
      var body := MarshalRecords(fs, v.records).value;
      assert e == Uint32ToBytes(Count(|v.records|)) + body;
      assert e[..4] == Uint32ToBytes(Count(|v.records|));
    case Unsupported =>
  }

  /** An untagged field writes nothing; a nil optional field writes the flag 0; a present
      optional field writes the flag 1 and then its value; any other tagged field writes
      just its value. */
  lemma MarshalFieldLayout(f: Field, v: Value)
    requires FieldValue(f, v) && FieldEncodable(f, v)
    ensures !f.tagged ==> MarshalField(f, v).value == []
    ensures f.tagged && f.optional && v.NilVal? ==> MarshalField(f, v).value == [0]
    ensures f.tagged && f.optional && v.PtrVal? ==>
      MarshalField(f, v).value == [1] + MarshalKind(f.kind, v.pointee).value
    ensures f.tagged && !f.optional ==> MarshalField(f, v).value == MarshalKind(f.kind, v).value
  {
  }

  /** The encoding of a record is its first field's encoding followed by the rest's. */
  lemma MarshalFieldsStep(fs: seq<Field>, r: seq<Value>)
    requires Conforms(fs, r) && Encodable(fs, r) && fs != []
    ensures Conforms(fs[1..], r[1..]) && Encodable(fs[1..], r[1..])
    ensures MarshalFields(fs, r).value == MarshalField(fs[0], r[0]).value + MarshalFields(fs[1..], r[1..]).value
  {
    assert Conforms(fs[1..], r[1..]) && Encodable(fs[1..], r[1..]) by {
      forall i | 0 <= i < |fs| - 1
        ensures FieldValue(fs[1..][i], r[1..][i]) && FieldEncodable(fs[1..][i], r[1..][i])
      {
        assert fs[1..][i] == fs[i + 1] && r[1..][i] == r[i + 1];
      }
    }
  }

  /** The same step at any position k: the encoding of fields k.. is field k's encoding
      followed by the encoding of fields k+1.. */
  lemma MarshalFieldsAt(fs: seq<Field>, r: seq<Value>, k: nat)
    requires Conforms(fs, r) && Encodable(fs, r) && k < |fs|
    ensures Conforms(fs[k..], r[k..]) && Encodable(fs[k..], r[k..])
    ensures Conforms(fs[k + 1..], r[k + 1..]) && Encodable(fs[k + 1..], r[k + 1..])
    ensures MarshalFields(fs[k..], r[k..]).value
            == MarshalField(fs[k], r[k]).value + MarshalFields(fs[k + 1..], r[k + 1..]).value
  {
    assert Conforms(fs[k..], r[k..]) && Encodable(fs[k..], r[k..]) by {
      forall i | 0 <= i < |fs| - k
        ensures FieldValue(fs[k..][i], r[k..][i]) && FieldEncodable(fs[k..][i], r[k..][i])
      {
        assert fs[k..][i] == fs[k + i] && r[k..][i] == r[k + i];
      }
    }
    MarshalFieldsStep(fs[k..], r[k..]);
    assert fs[k..][1..] == fs[k + 1..] && r[k..][1..] == r[k + 1..];
    assert fs[k..][0] == fs[k] && r[k..][0] == r[k];
  }

  /** Reading a uint8 takes one byte; reading a uint16 takes two, big-endian. */
  lemma UnmarshalFixedLayout(b: seq<byte>)
    ensures UnmarshalKind(U8, b).Ok? <==> |b| >= 1
    ensures |b| >= 1 ==> UnmarshalKind(U8, b).value == (U8Val(b[0]), b[1..])
    ensures UnmarshalKind(U16, b).Ok? <==> |b| >= 2
    ensures |b| >= 2 ==> UnmarshalKind(U16, b).value == (U16Val(BigEndian(b[..2])), b[2..])
  {
  }

  /** Reading a string or a []byte takes a 4-byte big-endian count n and then exactly n
      bytes; with fewer than 4 + n bytes it is the cursor's underflow error. */
  lemma UnmarshalCountedLayout(b: seq<byte>)
    ensures |b| < 4 ==> UnmarshalKind(Str, b) == Err(InsufficientBytes) && UnmarshalKind(ByteSeq, b) == Err(InsufficientBytes)
    ensures |b| >= 4 ==>
      var n := BigEndian(b[..4]);
      && (UnmarshalKind(ByteSeq, b).Ok? <==> |b| >= 4 + n)
      && (UnmarshalKind(Str, b).Ok? <==> |b| >= 4 + n)
      && (|b| >= 4 + n ==> UnmarshalKind(ByteSeq, b).value == (BytesVal(b[4..4 + n]), b[4 + n..]))
      && (|b| >= 4 + n ==> UnmarshalKind(Str, b).value == (StrVal(b[4..4 + n]), b[4 + n..]))
  {
    CountedReadLayout(Str, b);
    CountedReadLayout(ByteSeq, b);
  }

  lemma CountedReadLayout(k: Kind, b: seq<byte>)
    requires k == Str || k == ByteSeq
    ensures |b| < 4 ==> UnmarshalKind(k, b) == Err(InsufficientBytes)
    ensures |b| >= 4 ==>
      var n := BigEndian(b[..4]);
      && (UnmarshalKind(k, b).Ok? <==> |b| >= 4 + n)
      && (|b| >= 4 + n ==> UnmarshalKind(k, b).value
                            == (if k == Str then StrVal(b[4..4 + n]) else BytesVal(b[4..4 + n]), b[4 + n..]))
  {
    if |b| >= 4 {
      var n := BigEndian(b[..4]);
      if |b| >= 4 + n {
        assert b[4..][..n] == b[4..4 + n] && b[4..][n..] == b[4 + n..];
      }
    }
  }

  /** A present optional field is read as a flag byte then the value; ANY non-zero flag is
      taken as present. A zero flag leaves the destination's slot as it was. */
  lemma UnmarshalOptionalLayout(f: Field, b: seq<byte>, prior: Value)
    requires f.tagged && f.optional
    ensures b == [] ==> UnmarshalField(f, b, prior) == Err(InsufficientBytes)
    ensures b != [] && b[0] == 0 ==> UnmarshalField(f, b, prior) == Ok((prior, b[1..]))
    ensures b != [] && b[0] != 0 ==>
      && (UnmarshalField(f, b, prior).Ok? <==> UnmarshalKind(f.kind, b[1..]).Ok?)
      && (UnmarshalField(f, b, prior).Ok? ==>
            UnmarshalField(f, b, prior).value
              == (PtrVal(UnmarshalKind(f.kind, b[1..]).value.0), UnmarshalKind(f.kind, b[1..]).value.1))
  {
  }

  // ---------------------------------------------------------------------------------------
  // Declaration order

  /** The encoding of a record is the encoding of its leading fields followed by the encoding
      of the rest, so the wire order is exactly the declaration order. */
  lemma {:induction false} MarshalFieldsAppend(fs1: seq<Field>, r1: seq<Value>, fs2: seq<Field>, r2: seq<Value>)
    requires Conforms(fs1, r1) && Conforms(fs2, r2)
    ensures Conforms(fs1 + fs2, r1 + r2)
    ensures MarshalFields(fs1 + fs2, r1 + r2).Ok? <==> MarshalFields(fs1, r1).Ok? && MarshalFields(fs2, r2).Ok?
    ensures MarshalFields(fs1 + fs2, r1 + r2).Ok? ==>
      MarshalFields(fs1 + fs2, r1 + r2).value == MarshalFields(fs1, r1).value + MarshalFields(fs2, r2).value
    decreases |fs1|
  {
    assert Conforms(fs1 + fs2, r1 + r2) by {
      forall i | 0 <= i < |fs1 + fs2|
        ensures FieldValue((fs1 + fs2)[i], (r1 + r2)[i])
      {
        if i < |fs1| {
          assert FieldValue(fs1[i], r1[i]);
        } else {
          assert FieldValue(fs2[i - |fs1|], r2[i - |fs1|]);
        }
      }
    }
    if fs1 != [] {
      assert (fs1 + fs2)[1..] == fs1[1..] + fs2 && (r1 + r2)[1..] == r1[1..] + r2;
      MarshalFieldsAppend(fs1[1..], r1[1..], fs2, r2);
      var whole := MarshalFields(fs1 + fs2, r1 + r2);
      var head := MarshalField(fs1[0], r1[0]);
      if head.Ok? && MarshalFields(fs1[1..], r1[1..]).Ok? && MarshalFields(fs2, r2).Ok? {
        assert whole.value == head.value + MarshalFields(fs1[1..] + fs2, r1[1..] + r2).value;
        assert MarshalFields(fs1, r1).value == head.value + MarshalFields(fs1[1..], r1[1..]).value;
      }
    } else {
      assert fs1 + fs2 == fs2 && r1 + r2 == r2;
    }
  }

  // ---------------------------------------------------------------------------------------
  // Round trip

  /** A 4-byte count followed by that many bytes reads back as those bytes. */
  lemma CountedRoundTrip(body: seq<byte>, rest: seq<byte>)
    requires |body| < 0x1_0000_0000
    ensures var c := ShiftNBytes(4, Uint32ToBytes(|body|) + body + rest);
      && !c.failed && ReadUint32(c.taken) == |body|
      && ShiftNBytes(ReadUint32(c.taken), c.rest) == Shifted(body, rest, false)
  {
    var count := Uint32ToBytes(|body|);
    assert count + body + rest == count + (body + rest);
    ShiftPrefix(count, body + rest);
    Uint32RoundTrip(|body|, count);
    ShiftPrefix(body, rest);
  }

  lemma StrRoundTrip(text: seq<byte>, rest: seq<byte>)
    requires |text| < 0x1_0000_0000
    ensures UnmarshalKind(Str, MarshalKind(Str, StrVal(text)).value + rest) == Ok((StrVal(text), rest))
  {
    assert MarshalKind(Str, StrVal(text)).value == Uint32ToBytes(|text|) + text;
    CountedRoundTrip(text, rest);
  }

  lemma BytesRoundTrip(bytes: seq<byte>, rest: seq<byte>)
    requires |bytes| < 0x1_0000_0000
    ensures UnmarshalKind(ByteSeq, MarshalKind(ByteSeq, BytesVal(bytes)).value + rest) == Ok((BytesVal(bytes), rest))
  {
    assert MarshalKind(ByteSeq, BytesVal(bytes)).value == Uint32ToBytes(|bytes|) + bytes;
    CountedRoundTrip(bytes, rest);
  }

  lemma {:induction false} KindRoundTrip(k: Kind, v: Value, rest: seq<byte>)
    requires KindValue(k, v) && KindEncodable(k, v) && KindRebuildable(k, v)
    ensures UnmarshalKind(k, MarshalKind(k, v).value + rest) == Ok((v, rest))
    decreases k
  {
    match k
    case U8 =>
      ShiftPrefix([v.u8], rest);
    case U16 =>
      var e := Uint16ToBytes(v.u16);
      ShiftPrefix(e, rest);
      Uint16RoundTrip(v.u16, e);
    case Str =>
      StrRoundTrip(v.text, rest);
    case ByteSeq =>
      BytesRoundTrip(v.bytes, rest);
    case RecordSeq(fs) =>
      var count := Uint32ToBytes(|v.records|);
      var body := MarshalRecords(fs, v.records).value;
      assert MarshalKind(k, v).value == count + body;
      assert count + body + rest == count + (body + rest);
      ShiftPrefix(count, body + rest);
      Uint32RoundTrip(|v.records|, count);
      RecordsRoundTrip(fs, v.records, rest);
  }

  lemma {:induction false} FieldRoundTrip(f: Field, v: Value, prior: Value, rest: seq<byte>)
    requires FieldValue(f, v) && FieldValue(f, prior)
    requires FieldEncodable(f, v) && FieldRebuildable(f, v, prior)
    ensures UnmarshalField(f, MarshalField(f, v).value + rest, prior) == Ok((v, rest))
    decreases f
  {
    if f.tagged {
      if f.optional {
        if v.PtrVal? {
          var e := MarshalKind(f.kind, v.pointee).value;
          assert MarshalField(f, v).value == [1] + e;
          assert MarshalField(f, v).value + rest == [1] + (e + rest);
          ShiftPrefix([1], e + rest);
          KindRoundTrip(f.kind, v.pointee, rest);
        } else {
          ShiftPrefix([0], rest);
        }
      } else {
        assert MarshalField(f, v) == MarshalKind(f.kind, v);
        KindRoundTrip(f.kind, v, rest);
      }
    } else {
      assert MarshalField(f, v).value + rest == rest;
      assert v == prior;
    }
  }

  lemma {:induction false} FieldsRoundTrip(fs: seq<Field>, r: seq<Value>, dest: seq<Value>, rest: seq<byte>)
    requires Conforms(fs, r) && Conforms(fs, dest)
    requires Encodable(fs, r) && Rebuildable(fs, r, dest)
    ensures UnmarshalFields(fs, MarshalFields(fs, r).value + rest, dest) == Ok((r, rest))
    decreases fs, 0
  {
    if fs != [] {
      var head := MarshalField(fs[0], r[0]).value;
      var tail := MarshalFields(fs[1..], r[1..]).value;
      assert MarshalFields(fs, r).value == head + tail;
      assert MarshalFields(fs, r).value + rest == head + (tail + rest);
      FieldRoundTrip(fs[0], r[0], dest[0], tail + rest);
      FieldsRoundTrip(fs[1..], r[1..], dest[1..], rest);
      FieldsStep(fs, head + (tail + rest), dest, r[0], tail + rest, r[1..], rest);
      assert [r[0]] + r[1..] == r;
    } else {
      assert MarshalFields(fs, r).value + rest == rest && r == [];
    }
  }

  lemma {:induction false} RecordsRoundTrip(fs: seq<Field>, rs: seq<seq<Value>>, rest: seq<byte>)
    requires forall i :: 0 <= i < |rs| ==> Conforms(fs, rs[i])
    requires forall i :: 0 <= i < |rs| ==> Encodable(fs, rs[i]) && Rebuildable(fs, rs[i], ZeroRecord(fs))
    ensures UnmarshalRecords(fs, |rs|, MarshalRecords(fs, rs).value + rest) == Ok((rs, rest))
    decreases fs, 1, |rs|
  {
    if rs != [] {
      var head := MarshalFields(fs, rs[0]).value;
      var tail := MarshalRecords(fs, rs[1..]).value;
      assert MarshalRecords(fs, rs).value == head + tail;
      assert MarshalRecords(fs, rs).value + rest == head + (tail + rest);
      ZeroRecordFields(fs);
      FieldsRoundTrip(fs, rs[0], ZeroRecord(fs), tail + rest);
      RecordsRoundTrip(fs, rs[1..], rest);
      RecordsStep(fs, |rs|, head + (tail + rest), rs[0], tail + rest, rs[1..], rest);
      assert [rs[0]] + rs[1..] == rs;
    } else {
      assert MarshalRecords(fs, rs).value + rest == rest;
    }
  }

  /** Unmarshal(Marshal(x)) == x: decoding a record's encoding, followed by any bytes at all,
      into a destination that already agrees on the untagged and absent fields rebuilds the
      record and leaves the trailing bytes unread. */
  lemma RoundTrip(fs: seq<Field>, r: seq<Value>, dest: seq<Value>, rest: seq<byte>)
    requires Conforms(fs, r) && Conforms(fs, dest)
    requires Encodable(fs, r) && Rebuildable(fs, r, dest)
    ensures Marshal(Struct(fs, r)).Ok?
    ensures UnmarshalFields(fs, Marshal(Struct(fs, r)).value + rest, dest) == Ok((r, rest))
    ensures Unmarshal(Marshal(Struct(fs, r)).value + rest, ByPointer(Struct(fs, dest))) == Ok(r)
  {
    FieldsRoundTrip(fs, r, dest, rest);
  }

  // ---------------------------------------------------------------------------------------
  // One step of the sequential readers, stated once so that proofs need not unfold them.

  lemma FieldRequiredStep(f: Field, b: seq<byte>, prior: Value)
    requires f.tagged && !f.optional
    ensures UnmarshalField(f, b, prior) == UnmarshalKind(f.kind, b)
  {
  }

  lemma FieldPresentStep(f: Field, b: seq<byte>, prior: Value, v: Value, rest: seq<byte>)
    requires f.tagged && f.optional && b != [] && b[0] != 0
    requires UnmarshalKind(f.kind, b[1..]) == Ok((v, rest))
    ensures UnmarshalField(f, b, prior) == Ok((PtrVal(v), rest))
  {
  }

  lemma FieldsStep(fs: seq<Field>, b: seq<byte>, dest: seq<Value>, v: Value, mid: seq<byte>, vs: seq<Value>, rest: seq<byte>)
    requires |dest| == |fs| && fs != []
    requires UnmarshalField(fs[0], b, dest[0]) == Ok((v, mid))
    requires UnmarshalFields(fs[1..], mid, dest[1..]) == Ok((vs, rest))
    ensures UnmarshalFields(fs, b, dest) == Ok(([v] + vs, rest))
  {
  }

  lemma RecordsStep(fs: seq<Field>, count: nat, b: seq<byte>, r: seq<Value>, mid: seq<byte>, rs: seq<seq<Value>>, rest: seq<byte>)
    requires count > 0
    requires UnmarshalFields(fs, b, ZeroRecord(fs)) == Ok((r, mid))
    requires UnmarshalRecords(fs, count - 1, mid) == Ok((rs, rest))
    ensures UnmarshalRecords(fs, count, b) == Ok(([r] + rs, rest))
  {
  }

  lemma FieldsHeadFails(fs: seq<Field>, b: seq<byte>, dest: seq<Value>, e: Error)
    requires |dest| == |fs| && fs != []
    requires UnmarshalField(fs[0], b, dest[0]) == Err(e)
    ensures UnmarshalFields(fs, b, dest) == Err(e)
  {
  }

  lemma FieldsTailFails(fs: seq<Field>, b: seq<byte>, dest: seq<Value>, v: Value, mid: seq<byte>, e: Error)
    requires |dest| == |fs| && fs != []
    requires UnmarshalField(fs[0], b, dest[0]) == Ok((v, mid))
    requires UnmarshalFields(fs[1..], mid, dest[1..]) == Err(e)
    ensures UnmarshalFields(fs, b, dest) == Err(e)
  {
  }

  lemma RecordsHeadFails(fs: seq<Field>, count: nat, b: seq<byte>, e: Error)
    requires count > 0
    requires UnmarshalFields(fs, b, ZeroRecord(fs)) == Err(e)
    ensures UnmarshalRecords(fs, count, b) == Err(e)
  {
  }

  lemma RecordsTailFails(fs: seq<Field>, count: nat, b: seq<byte>, r: seq<Value>, mid: seq<byte>, e: Error)
    requires count > 0
    requires UnmarshalFields(fs, b, ZeroRecord(fs)) == Ok((r, mid))
    requires UnmarshalRecords(fs, count - 1, mid) == Err(e)
    ensures UnmarshalRecords(fs, count, b) == Err(e)
  {
  }

  // ---------------------------------------------------------------------------------------
  // What decoding produces can be encoded again: it is well typed, every present field has
  // a kind with an arm, every count fits, and its encoding is exactly as long as what was
  // read (the presence flag is one byte whatever its value).

  /** A record built from a well-behaved first field and well-behaved remaining fields. */
  lemma ConsRecord(fs: seq<Field>, v: Value, vs: seq<Value>, dest: seq<Value>)
    requires fs != [] && |dest| == |fs|
    requires FieldValue(fs[0], v) && FieldEncodable(fs[0], v) && FieldRebuildable(fs[0], v, dest[0])
    requires Conforms(fs[1..], vs) && Encodable(fs[1..], vs) && Rebuildable(fs[1..], vs, dest[1..])
    ensures Conforms(fs, [v] + vs) && Encodable(fs, [v] + vs) && Rebuildable(fs, [v] + vs, dest)
  {
    var r := [v] + vs;
    forall i | 1 <= i < |fs|
      ensures FieldValue(fs[i], r[i]) && FieldEncodable(fs[i], r[i]) && FieldRebuildable(fs[i], r[i], dest[i])
    {
      assert fs[i] == fs[1..][i - 1] && r[i] == vs[i - 1] && dest[i] == dest[1..][i - 1];
    }
  }

  lemma {:induction false} DecodedKind(k: Kind, b: seq<byte>)
    requires UnmarshalKind(k, b).Ok?
    ensures var (v, rest) := UnmarshalKind(k, b).value;
      && KindValue(k, v) && KindEncodable(k, v) && KindRebuildable(k, v)
      && |MarshalKind(k, v).value| == |b| - |rest|
    decreases k
  {
    match k
    case U8 =>
    case U16 =>
    case Str =>
    case ByteSeq =>
    case RecordSeq(fs) =>
      var c := ShiftNBytes(4, b);
      DecodedRecords(fs, ReadUint32(c.taken), c.rest);
  }

  lemma {:induction false} DecodedField(f: Field, b: seq<byte>, prior: Value)
    requires FieldValue(f, prior) && (f.tagged && f.optional ==> prior.NilVal?)
    requires UnmarshalField(f, b, prior).Ok?
    ensures var (v, rest) := UnmarshalField(f, b, prior).value;
      && FieldValue(f, v) && FieldEncodable(f, v) && FieldRebuildable(f, v, prior)
      && |MarshalField(f, v).value| == |b| - |rest|
    decreases f
  {
    if f.tagged && !f.optional {
      FieldRequiredStep(f, b, prior);
      DecodedKind(f.kind, b);
    } else if f.tagged && b[0] != 0 {
      var (p, rest) := UnmarshalKind(f.kind, b[1..]).value;
      FieldPresentStep(f, b, prior, p, rest);
      DecodedKind(f.kind, b[1..]);
      assert MarshalField(f, PtrVal(p)).value == [1] + MarshalKind(f.kind, p).value;
    }
  }

  lemma {:induction false} DecodedFields(fs: seq<Field>, b: seq<byte>, dest: seq<Value>)
    requires Conforms(fs, dest) && NilOptionals(fs, dest)
    requires UnmarshalFields(fs, b, dest).Ok?
    ensures var (r, rest) := UnmarshalFields(fs, b, dest).value;
      && Conforms(fs, r) && Encodable(fs, r) && Rebuildable(fs, r, dest)
      && |MarshalFields(fs, r).value| == |b| - |rest|
    decreases fs, 0
  {
    if fs != [] {
      var (v, mid) := UnmarshalField(fs[0], b, dest[0]).value;
      var (vs, rest) := UnmarshalFields(fs[1..], mid, dest[1..]).value;
      FieldsStep(fs, b, dest, v, mid, vs, rest);
      DecodedField(fs[0], b, dest[0]);
      assert Conforms(fs[1..], dest[1..]) && NilOptionals(fs[1..], dest[1..]) by {
        forall i | 0 <= i < |fs| - 1
          ensures FieldValue(fs[1..][i], dest[1..][i])
          ensures fs[1..][i].tagged && fs[1..][i].optional ==> dest[1..][i].NilVal?
        {
          assert fs[1..][i] == fs[i + 1] && dest[1..][i] == dest[i + 1];
        }
      }
      DecodedFields(fs[1..], mid, dest[1..]);
      ConsRecord(fs, v, vs, dest);
      assert ([v] + vs)[1..] == vs;
    }
  }

  lemma {:induction false} DecodedRecords(fs: seq<Field>, count: nat, b: seq<byte>)
    requires UnmarshalRecords(fs, count, b).Ok?
    ensures var (rs, rest) := UnmarshalRecords(fs, count, b).value;
      && (forall i :: 0 <= i < |rs| ==> Conforms(fs, rs[i]))
      && (forall i :: 0 <= i < |rs| ==> Encodable(fs, rs[i]) && Rebuildable(fs, rs[i], ZeroRecord(fs)))
      && |MarshalRecords(fs, rs).value| == |b| - |rest|
    decreases fs, 1, count
  {
    if count != 0 {
      var z := ZeroRecord(fs);
      var (r, mid) := UnmarshalFields(fs, b, z).value;
      var (rs, rest) := UnmarshalRecords(fs, count - 1, mid).value;
      RecordsStep(fs, count, b, r, mid, rs, rest);
      ZeroRecordFields(fs);
      ZeroRecordHasNilOptionals(fs);
      DecodedFields(fs, b, z);
      DecodedRecords(fs, count - 1, mid);
      ConsRecords(fs, r, rs);
    }
  }

  /** A record sequence built from a well-behaved first element and well-behaved others. */
  lemma ConsRecords(fs: seq<Field>, r: seq<Value>, rs: seq<seq<Value>>)
    requires Conforms(fs, r) && Encodable(fs, r) && Rebuildable(fs, r, ZeroRecord(fs))
    requires forall i :: 0 <= i < |rs| ==> Conforms(fs, rs[i])
    requires forall i :: 0 <= i < |rs| ==> Encodable(fs, rs[i]) && Rebuildable(fs, rs[i], ZeroRecord(fs))
    ensures forall i :: 0 <= i < |[r] + rs| ==> Conforms(fs, ([r] + rs)[i])
    ensures forall i :: 0 <= i < |[r] + rs| ==> Encodable(fs, ([r] + rs)[i]) && Rebuildable(fs, ([r] + rs)[i], ZeroRecord(fs))
    ensures ([r] + rs)[1..] == rs
  {
    var all := [r] + rs;
    assert forall i :: 1 <= i < |all| ==> all[i] == rs[i - 1];
  }

  /** Whatever Unmarshal decodes into a fresh-looking destination (well typed, optional
      fields nil) encodes again, to as many bytes as were read, and that encoding decodes
      back to the same record: decode, encode, decode is decode. */
  lemma ReencodeDecoded(fs: seq<Field>, dest: seq<Value>, b: seq<byte>)
    requires Conforms(fs, dest) && NilOptionals(fs, dest)
    requires Unmarshal(b, ByPointer(Struct(fs, dest))).Ok?
    ensures var r := Unmarshal(b, ByPointer(Struct(fs, dest))).value;
      && Conforms(fs, r)
      && Marshal(Struct(fs, r)).Ok?
      && |Marshal(Struct(fs, r)).value| <= |b|
      && Unmarshal(Marshal(Struct(fs, r)).value, ByPointer(Struct(fs, dest))) == Ok(r)
  {
    var (r, rest) := UnmarshalFields(fs, b, dest).value;
    DecodedFields(fs, b, dest);
    RoundTrip(fs, r, dest, []);
    assert Marshal(Struct(fs, r)).value + [] == Marshal(Struct(fs, r)).value;
  }

  // ---------------------------------------------------------------------------------------
  // Field tables with an arm for every kind: Marshal never fails on them and Unmarshal can
  // only fail by running out of bytes.

  predicate KindSupported(k: Kind)
    decreases k
  {
    match k
    case Unsupported => false
    case RecordSeq(fs) => AllSupported(fs)
    case _ => true
  }

  predicate FieldSupported(f: Field)
    decreases f
  {
    KindSupported(f.kind)
  }

  /** No field of the table, at any depth, has a kind without an arm. */
  predicate AllSupported(fs: seq<Field>)
    decreases fs, 0
  {
    forall i :: 0 <= i < |fs| ==> FieldSupported(fs[i])
  }

  lemma {:induction false} SupportedKindEncodable(k: Kind, v: Value)
    requires KindSupported(k) && KindValue(k, v)
    ensures KindEncodable(k, v)
    decreases k
  {
    match k
    case RecordSeq(fs) =>
      forall i | 0 <= i < |v.records|
        ensures Encodable(fs, v.records[i])
      {
        SupportedEncodable(fs, v.records[i]);
      }
    case _ =>
  }

  /** Over a fully supported table every well-typed record encodes. */
  lemma {:induction false} SupportedEncodable(fs: seq<Field>, r: seq<Value>)
    requires AllSupported(fs) && Conforms(fs, r)
    ensures Encodable(fs, r)
    decreases fs, 0
  {
    forall i | 0 <= i < |fs|
      ensures FieldEncodable(fs[i], r[i])
    {
      SupportedFieldEncodable(fs[i], r[i]);
    }
  }

  lemma {:induction false} SupportedFieldEncodable(f: Field, v: Value)
    requires FieldSupported(f) && FieldValue(f, v)
    ensures FieldEncodable(f, v)
    decreases f
  {
    if f.optional {
      if v.PtrVal? {
        SupportedKindEncodable(f.kind, v.pointee);
      }
    } else {
      SupportedKindEncodable(f.kind, v);
    }
  }

  lemma {:induction false} SupportedKindUnderflows(k: Kind, b: seq<byte>)
    requires KindSupported(k)
    ensures UnmarshalKind(k, b).Err? ==> UnmarshalKind(k, b).error == InsufficientBytes
    decreases k
  {
    match k
    case RecordSeq(fs) =>
      var c := ShiftNBytes(4, b);
      if !c.failed {
        SupportedRecordsUnderflow(fs, ReadUint32(c.taken), c.rest);
      }
    case _ =>
  }

  lemma {:induction false} SupportedFieldUnderflows(f: Field, b: seq<byte>, prior: Value)
    requires FieldSupported(f)
    ensures UnmarshalField(f, b, prior).Err? ==> UnmarshalField(f, b, prior).error == InsufficientBytes
    decreases f
  {
    if f.tagged && !f.optional {
      FieldRequiredStep(f, b, prior);
      SupportedKindUnderflows(f.kind, b);
    } else if f.tagged && b != [] && b[0] != 0 {
      SupportedKindUnderflows(f.kind, b[1..]);
    }
  }

  /** Over a fully supported table the only way Unmarshal fails is running out of bytes. */
  lemma {:induction false} SupportedUnderflows(fs: seq<Field>, b: seq<byte>, dest: seq<Value>)
    requires AllSupported(fs) && |dest| == |fs|
    ensures UnmarshalFields(fs, b, dest).Err? ==> UnmarshalFields(fs, b, dest).error == InsufficientBytes
    decreases fs, 0
  {
    if fs != [] {
      assert FieldSupported(fs[0]);
      SupportedFieldUnderflows(fs[0], b, dest[0]);
      var head := UnmarshalField(fs[0], b, dest[0]);
      if head.Ok? {
        assert AllSupported(fs[1..]) by {
          forall i | 0 <= i < |fs| - 1
            ensures FieldSupported(fs[1..][i])
          {
            assert fs[1..][i] == fs[i + 1];
          }
        }
        SupportedUnderflows(fs[1..], head.value.1, dest[1..]);
      }
    }
  }

  lemma {:induction false} SupportedRecordsUnderflow(fs: seq<Field>, count: nat, b: seq<byte>)
    requires AllSupported(fs)
    ensures UnmarshalRecords(fs, count, b).Err? ==> UnmarshalRecords(fs, count, b).error == InsufficientBytes
    decreases fs, 1, count
  {
    if count != 0 {
      SupportedUnderflows(fs, b, ZeroRecord(fs));
      var head := UnmarshalFields(fs, b, ZeroRecord(fs));
      if head.Ok? {
        SupportedRecordsUnderflow(fs, count - 1, head.value.1);
      }
    }
  }

  // ---------------------------------------------------------------------------------------
  // Truncation: every strict prefix of an encoding fails to decode with the byte cursor's
  // underflow error, at every level of nesting.

  lemma CountedTruncated(body: seq<byte>, n: nat)
    requires |body| < 0x1_0000_0000 && n < 4 + |body|
    ensures var c := ShiftNBytes(4, (Uint32ToBytes(|body|) + body)[..n]);
      c.failed || ShiftNBytes(ReadUint32(c.taken), c.rest).failed
  {
    var count := Uint32ToBytes(|body|);
    if n >= 4 {
      var e := (count + body)[..n];
      assert e == count + body[..n - 4];
      ShiftPrefix(count, body[..n - 4]);
      Uint32RoundTrip(|body|, count);
    }
  }

  lemma StrTruncated(text: seq<byte>, n: nat)
    requires |text| < 0x1_0000_0000 && n < |MarshalKind(Str, StrVal(text)).value|
    ensures UnmarshalKind(Str, MarshalKind(Str, StrVal(text)).value[..n]) == Err(InsufficientBytes)
  {
    assert MarshalKind(Str, StrVal(text)).value == Uint32ToBytes(|text|) + text;
    CountedTruncated(text, n);
  }

  lemma BytesTruncated(bytes: seq<byte>, n: nat)
    requires |bytes| < 0x1_0000_0000 && n < |MarshalKind(ByteSeq, BytesVal(bytes)).value|
    ensures UnmarshalKind(ByteSeq, MarshalKind(ByteSeq, BytesVal(bytes)).value[..n]) == Err(InsufficientBytes)
  {
    assert MarshalKind(ByteSeq, BytesVal(bytes)).value == Uint32ToBytes(|bytes|) + bytes;
    CountedTruncated(bytes, n);
  }

  lemma {:induction false} KindTruncated(k: Kind, v: Value, n: nat)
    requires KindValue(k, v) && KindEncodable(k, v) && KindRebuildable(k, v)
    requires n < |MarshalKind(k, v).value|
    ensures UnmarshalKind(k, MarshalKind(k, v).value[..n]) == Err(InsufficientBytes)
    decreases k
  {
    match k
    case U8 =>
    case U16 =>
    case Str =>
      StrTruncated(v.text, n);
    case ByteSeq =>
      BytesTruncated(v.bytes, n);
    case RecordSeq(fs) =>
      RecordSeqTruncated(fs, v.records, n);
  }

  lemma {:induction false} RecordSeqTruncated(fs: seq<Field>, rs: seq<seq<Value>>, n: nat)
    requires KindValue(RecordSeq(fs), RecordsVal(rs)) && KindEncodable(RecordSeq(fs), RecordsVal(rs))
    requires KindRebuildable(RecordSeq(fs), RecordsVal(rs))
    requires n < |MarshalKind(RecordSeq(fs), RecordsVal(rs)).value|
    ensures UnmarshalKind(RecordSeq(fs), MarshalKind(RecordSeq(fs), RecordsVal(rs)).value[..n]) == Err(InsufficientBytes)
    decreases fs, 2
  {
    var count := Uint32ToBytes(|rs|);
    var body := MarshalRecords(fs, rs).value;
    var e := MarshalKind(RecordSeq(fs), RecordsVal(rs)).value;
    assert e == count + body;
    if n >= 4 {
      assert e[..n] == count + body[..n - 4];
      ShiftPrefix(count, body[..n - 4]);
      Uint32RoundTrip(|rs|, count);
      RecordsTruncated(fs, rs, n - 4);
    }
  }

  lemma {:induction false} FieldTruncated(f: Field, v: Value, prior: Value, n: nat)
    requires FieldValue(f, v) && FieldEncodable(f, v) && FieldRebuildable(f, v, prior)
    requires n < |MarshalField(f, v).value|
    ensures UnmarshalField(f, MarshalField(f, v).value[..n], prior) == Err(InsufficientBytes)
    decreases f
  {
    var e := MarshalField(f, v).value;
    if f.tagged && !f.optional {
      assert e == MarshalKind(f.kind, v).value;
      KindTruncated(f.kind, v, n);
    } else if f.tagged && v.PtrVal? && n > 0 {
      var ek := MarshalKind(f.kind, v.pointee).value;
      assert e == [1] + ek;
      assert e[..n] == [1] + ek[..n - 1];
      KindTruncated(f.kind, v.pointee, n - 1);
      ShiftPrefix([1], ek[..n - 1]);
    }
  }

  lemma {:induction false} FieldsTruncated(fs: seq<Field>, r: seq<Value>, dest: seq<Value>, n: nat)
    requires Conforms(fs, r) && Conforms(fs, dest)
    requires Encodable(fs, r) && Rebuildable(fs, r, dest)
    requires n < |MarshalFields(fs, r).value|
    ensures UnmarshalFields(fs, MarshalFields(fs, r).value[..n], dest) == Err(InsufficientBytes)
    decreases fs, 0
  {
    var e0 := MarshalField(fs[0], r[0]).value;
    var e1 := MarshalFields(fs[1..], r[1..]).value;
    var e := MarshalFields(fs, r).value;
    assert e == e0 + e1;
    if n < |e0| {
      assert e[..n] == e0[..n];
      FieldTruncated(fs[0], r[0], dest[0], n);
      FieldsHeadFails(fs, e[..n], dest, InsufficientBytes);
    } else {
      var m := n - |e0|;
      assert e[..n] == e0 + e1[..m];
      FieldRoundTrip(fs[0], r[0], dest[0], e1[..m]);
      FieldsTruncated(fs[1..], r[1..], dest[1..], m);
      FieldsTailFails(fs, e[..n], dest, r[0], e1[..m], InsufficientBytes);
    }
  }

  lemma {:induction false} RecordsTruncated(fs: seq<Field>, rs: seq<seq<Value>>, n: nat)
    requires forall i :: 0 <= i < |rs| ==> Conforms(fs, rs[i])
    requires forall i :: 0 <= i < |rs| ==> Encodable(fs, rs[i]) && Rebuildable(fs, rs[i], ZeroRecord(fs))
    requires n < |MarshalRecords(fs, rs).value|
    ensures UnmarshalRecords(fs, |rs|, MarshalRecords(fs, rs).value[..n]) == Err(InsufficientBytes)
    decreases fs, 1, |rs|
  {
    var z := ZeroRecord(fs);
    ZeroRecordFields(fs);
    var e0 := MarshalFields(fs, rs[0]).value;
    var e1 := MarshalRecords(fs, rs[1..]).value;
    var e := MarshalRecords(fs, rs).value;
    assert e == e0 + e1;
    if n < |e0| {
      assert e[..n] == e0[..n];
      FieldsTruncated(fs, rs[0], z, n);
      RecordsHeadFails(fs, |rs|, e[..n], InsufficientBytes);
    } else {
      var m := n - |e0|;
      assert e[..n] == e0 + e1[..m];
      FieldsRoundTrip(fs, rs[0], z, e1[..m]);
      RecordsTruncated(fs, rs[1..], m);
      RecordsTailFails(fs, |rs|, e[..n], rs[0], e1[..m], InsufficientBytes);
    }
  }

  /** Any strict prefix of a record's encoding is rejected as too short. */
  lemma TruncatedInputFails(fs: seq<Field>, r: seq<Value>, dest: seq<Value>, n: nat)
    requires Conforms(fs, r) && Conforms(fs, dest)
    requires Encodable(fs, r) && Rebuildable(fs, r, dest)
    requires n < |Marshal(Struct(fs, r)).value|
    ensures Unmarshal(Marshal(Struct(fs, r)).value[..n], ByPointer(Struct(fs, dest))) == Err(InsufficientBytes)
  {
    FieldsTruncated(fs, r, dest, n);
  }
}
