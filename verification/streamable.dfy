/** The streamable codec of pkg/streamable/streamable.go: Marshal walks a record's fields in
    declaration order and appends each tagged field's wire bytes; Unmarshal consumes the same
    layout from the front of a buffer and writes the values into a destination record.

    Go discovers the fields by reflection and struct tags; here every record shape is an
    explicit table of `Field` descriptors and a record value is a sequence of `Value`s, one
    per field, in the same order. */
module Streamable {
  import opened Wrappers
  import opened Bytes
  import opened Uints

  /** The kind the engine dispatches on: the reflect.Kind of a field, or of a slice's element. */
  datatype Kind =
    | U8                          // uint8 and named uint8 types such as ProtocolMessageType
    | U16                         // uint16 and named uint16 types such as CapabilityType
    | Str                         // string
    | ByteSeq                     // []byte
    | RecordSeq(elem: seq<Field>) // []T for a struct T, with T's own field table
    | Unsupported                 // a kind no arm handles, such as uint64

  /** One struct field: its kind, whether it carries the `streamable` tag, and whether the
      tag contains "optional" (such a field is a pointer, nil meaning absent). */
  datatype Field = Field(kind: Kind, tagged: bool, optional: bool)

  /** The Go value held by one field. */
  datatype Value =
    | U8Val(u8: byte)
    | U16Val(u16: uint16)
    | StrVal(text: seq<byte>)            // a Go string is its UTF-8 bytes; nothing validates them
    | BytesVal(bytes: seq<byte>)
    | RecordsVal(records: seq<seq<Value>>)
    | OpaqueVal                          // the value of a field of an Unsupported kind
    | NilVal                             // a nil pointer in an optional field
    | PtrVal(pointee: Value)             // a non-nil pointer in an optional field

  datatype Error =
    | InsufficientBytes   // "requested more bytes than available", from ShiftNBytes
    | InvalidUnmarshal    // InvalidUnmarshalError: the destination is nil or not a pointer
    | NonStruct           // "streamable can't marshal a non-struct type" (and unmarshal)
    | Unimplemented       // "unimplemented type"

  /** The value handed to Marshal, or pointed to by Unmarshal's destination. Marshal
      dereferences a pointer first, so whether the root is behind one does not matter. */
  datatype Root = Struct(fields: seq<Field>, values: seq<Value>) | NonStructRoot

  /** Unmarshal's `v interface{}`: nil (or a nil pointer), a struct passed by value, or a
      non-nil pointer to the record to fill in. */
  datatype Destination = NilDestination | ByValue(root: Root) | ByPointer(target: Root)

  /** `uint32(len(x))`: the count in front of a slice, truncated to 32 bits as Go converts. */
  function Count(n: nat): (c: uint32)
    ensures n < 0x1_0000_0000 ==> c == n
    ensures c == n % 0x1_0000_0000
  {
    n % 0x1_0000_0000
  }

  // ---------------------------------------------------------------------------------------
  // Well-typed records: the Go type system guarantees these of every struct value.

  predicate KindValue(k: Kind, v: Value)
    decreases k
  {
    match k
    case U8 => v.U8Val?
    case U16 => v.U16Val?
    case Str => v.StrVal?
    case ByteSeq => v.BytesVal?
    case RecordSeq(fs) => v.RecordsVal? && forall i :: 0 <= i < |v.records| ==> Conforms(fs, v.records[i])
    case Unsupported => v.OpaqueVal?
  }

  predicate FieldValue(f: Field, v: Value)
    decreases f
  {
    if f.optional then v.NilVal? || (v.PtrVal? && KindValue(f.kind, v.pointee))
    else KindValue(f.kind, v)
  }

  /** `r` is a value of the struct type whose field table is `fs`. */
  predicate Conforms(fs: seq<Field>, r: seq<Value>)
    decreases fs, 0
  {
    |fs| == |r| && forall i :: 0 <= i < |fs| ==> FieldValue(fs[i], r[i])
  }

  // ---------------------------------------------------------------------------------------
  // Zero values: what a freshly allocated destination (`&T{}`) holds.

  function ZeroOfKind(k: Kind): (v: Value)
    ensures KindValue(k, v)
  {
    match k
    case U8 => U8Val(0)
    case U16 => U16Val(0)
    case Str => StrVal([])
    case ByteSeq => BytesVal([])
    case RecordSeq(_) => RecordsVal([])
    case Unsupported => OpaqueVal
  }

  function ZeroValue(f: Field): (v: Value)
    ensures FieldValue(f, v)
  {
    if f.optional then NilVal else ZeroOfKind(f.kind)
  }

  /** `&T{}`'s fields, in order; its field-by-field meaning is ZeroRecordFields. */
  function ZeroRecord(fs: seq<Field>): (r: seq<Value>)
    ensures |r| == |fs|
  {
    if fs == [] then [] else [ZeroValue(fs[0])] + ZeroRecord(fs[1..])
  }

  lemma {:induction false} ZeroRecordFields(fs: seq<Field>)
    ensures forall i :: 0 <= i < |fs| ==> ZeroRecord(fs)[i] == ZeroValue(fs[i])
    ensures Conforms(fs, ZeroRecord(fs))
  {
    if fs != [] {
      ZeroRecordFields(fs[1..]);
      assert forall i :: 1 <= i < |fs| ==> ZeroRecord(fs)[i] == ZeroRecord(fs[1..])[i - 1];
    }
  }

  // ---------------------------------------------------------------------------------------
  // Encodability: which values Marshal accepts. A tagged field that is present on the wire
  // must have a kind with an arm, recursively through record sequences.

  predicate KindEncodable(k: Kind, v: Value)
    decreases k
  {
    match k
    case Unsupported => false
    case RecordSeq(fs) =>
      v.RecordsVal? && forall i :: 0 <= i < |v.records| ==> Encodable(fs, v.records[i])
    case _ => true
  }

  predicate FieldEncodable(f: Field, v: Value)
    decreases f
  {
    || !f.tagged
    || (f.optional && !v.PtrVal?)
    || (f.optional && KindEncodable(f.kind, v.pointee))
    || (!f.optional && KindEncodable(f.kind, v))
  }

  predicate Encodable(fs: seq<Field>, r: seq<Value>)
    decreases fs, 0
  {
    |fs| == |r| && forall i :: 0 <= i < |fs| ==> FieldEncodable(fs[i], r[i])
  }

  // ---------------------------------------------------------------------------------------
  // Marshal

  /** The wire bytes of one value of kind `k`, with no presence flag. */
  function MarshalKind(k: Kind, v: Value): (res: Result<seq<byte>, Error>)
    requires KindValue(k, v)
    ensures res.Ok? <==> KindEncodable(k, v)
    ensures res.Err? ==> res.error == Unimplemented
    decreases k
  {
    match k
    case U8 =>
      // streamable.go:179-182
      Ok(Uint8ToBytes(v.u8))
    case U16 =>
      // streamable.go:183-184 leaves this arm empty; the wire format shared with the
      // reference implementation writes two bytes big-endian.
      Ok(Uint16ToBytes(v.u16))
    case Str =>
      // streamable.go:197-198 sends a string to the "unimplemented type" arm; the wire format
      // writes a 4-byte big-endian byte count and then the bytes.
      Ok(Uint32ToBytes(Count(|v.text|)) + v.text)
    case ByteSeq =>
      // streamable.go:185-195
      Ok(Uint32ToBytes(Count(|v.bytes|)) + v.bytes)
    case RecordSeq(fs) =>
      // streamable.go:188-189 writes the count; streamable.go:191-196 then writes nothing for
      // a non-byte element, where the wire format has each element's fields back to back.
      (match MarshalRecords(fs, v.records)
       case Err(e) => Err(e)
       case Ok(body) => Ok(Uint32ToBytes(Count(|v.records|)) + body))
    case Unsupported =>
      // streamable.go:197-198
      Err(Unimplemented)
  }

  /** One field's contribution to the record's bytes (streamable.go:151-199). */
  function MarshalField(f: Field, v: Value): (res: Result<seq<byte>, Error>)
    requires FieldValue(f, v)
    ensures res.Ok? <==> FieldEncodable(f, v)
    ensures res.Err? ==> res.error == Unimplemented
    ensures !f.tagged ==> res == Ok([])
    ensures f.tagged && f.optional && v.NilVal? ==> res == Ok([0])
    decreases f
  {
    if !f.tagged then Ok([])
    else if f.optional then
      if v.NilVal? then Ok([0])
      else
        match MarshalKind(f.kind, v.pointee)
        case Err(e) => Err(e)
        case Ok(bytes) => Ok([1] + bytes)
    else MarshalKind(f.kind, v)
  }

  /** The fields' contributions concatenated in declaration order; the first error wins. */
  function MarshalFields(fs: seq<Field>, r: seq<Value>): (res: Result<seq<byte>, Error>)
    requires Conforms(fs, r)
    ensures res.Ok? <==> Encodable(fs, r)
    ensures res.Err? ==> res.error == Unimplemented
    decreases fs, 0
  {
    if fs == [] then Ok([])
    else
      match MarshalField(fs[0], r[0])
      case Err(e) => Err(e)
      case Ok(head) =>
        match MarshalFields(fs[1..], r[1..])
        case Err(e) => Err(e)
        case Ok(tail) => Ok(head + tail)
  }

  /** The elements of a record sequence, back to back with no separator. */
  function MarshalRecords(fs: seq<Field>, rs: seq<seq<Value>>): (res: Result<seq<byte>, Error>)
    requires forall i :: 0 <= i < |rs| ==> Conforms(fs, rs[i])
    ensures res.Ok? <==> forall i :: 0 <= i < |rs| ==> Encodable(fs, rs[i])
    ensures res.Err? ==> res.error == Unimplemented
    decreases fs, 1, |rs|
  {
    if rs == [] then Ok([])
    else
      match MarshalFields(fs, rs[0])
      case Err(e) => Err(e)
      case Ok(head) =>
        match MarshalRecords(fs, rs[1..])
        case Err(e) => Err(e)
        case Ok(tail) => Ok(head + tail)
  }

  /** Marshal (streamable.go:131-203). */
  function Marshal(v: Root): (res: Result<seq<byte>, Error>)
    requires v.Struct? ==> Conforms(v.fields, v.values)
    ensures v.NonStructRoot? ==> res == Err(NonStruct)
    ensures v.Struct? ==> (res.Ok? <==> Encodable(v.fields, v.values))
    ensures v.Struct? && res.Err? ==> res.error == Unimplemented
  {
    match v
    case NonStructRoot => Err(NonStruct)
    case Struct(fs, r) => MarshalFields(fs, r)
  }

  // ---------------------------------------------------------------------------------------
  // Unmarshal

  /** Reads one value of kind `k` from the front of `bytes`; returns it and what is left. */
  function UnmarshalKind(k: Kind, bytes: seq<byte>): (res: Result<(Value, seq<byte>), Error>)
    ensures res.Ok? ==> |res.value.1| <= |bytes|
    ensures res.Err? ==> res.error == InsufficientBytes || res.error == Unimplemented
    ensures k == Unsupported ==> res == Err(Unimplemented)
    decreases k
  {
    match k
    case U8 =>
      // streamable.go:81-90
      var s := ShiftNBytes(1, bytes);
      if s.failed then Err(InsufficientBytes) else Ok((U8Val(s.taken[0]), s.rest))
    case U16 =>
      // streamable.go:91-93 leaves this arm empty; the wire format reads two bytes big-endian.
      var s := ShiftNBytes(2, bytes);
      if s.failed then Err(InsufficientBytes) else Ok((U16Val(ReadUint16(s.taken)), s.rest))
    case Str =>
      // streamable.go:122-123 sends a string to the "unimplemented type" arm; the wire format
      // reads a 4-byte count and then that many bytes.
      var c := ShiftNBytes(4, bytes);
      if c.failed then Err(InsufficientBytes)
      else
        var s := ShiftNBytes(ReadUint32(c.taken), c.rest);
        if s.failed then Err(InsufficientBytes) else Ok((StrVal(s.taken), s.rest))
    case ByteSeq =>
      // streamable.go:95-121. The error of the count's shift is dropped at streamable.go:99
      // and the nil prefix then indexed; here it is the decode error ShiftNBytes reports.
      var c := ShiftNBytes(4, bytes);
      if c.failed then Err(InsufficientBytes)
      else
        var s := ShiftNBytes(ReadUint32(c.taken), c.rest);
        if s.failed then Err(InsufficientBytes) else Ok((BytesVal(s.taken), s.rest))
    case RecordSeq(fs) =>
      // streamable.go:98-100 reads the count; streamable.go:104-121 then reads nothing for a
      // non-byte element, where the wire format has that many elements back to back.
      var c := ShiftNBytes(4, bytes);
      if c.failed then Err(InsufficientBytes)
      else
        (match UnmarshalRecords(fs, ReadUint32(c.taken), c.rest)
         case Err(e) => Err(e)
         case Ok((rs, rest)) => Ok((RecordsVal(rs), rest)))
    case Unsupported =>
      // streamable.go:122-123
      Err(Unimplemented)
  }

  /** Reads one field into the destination's slot `prior` (streamable.go:49-124). An untagged
      field and an absent optional field leave the slot as it was. */
  function UnmarshalField(f: Field, bytes: seq<byte>, prior: Value): (res: Result<(Value, seq<byte>), Error>)
    ensures res.Ok? ==> |res.value.1| <= |bytes|
    ensures res.Err? ==> res.error == InsufficientBytes || res.error == Unimplemented
    ensures !f.tagged ==> res == Ok((prior, bytes))
    ensures f.tagged && f.optional && bytes == [] ==> res == Err(InsufficientBytes)
    ensures f.tagged && f.optional && bytes != [] && bytes[0] == 0 ==> res == Ok((prior, bytes[1..]))
    decreases f
  {
    if !f.tagged then Ok((prior, bytes))
    else if f.optional then
      // streamable.go:65-74. The flag's shift error is dropped at streamable.go:68 and the nil
      // prefix indexed; here it is a decode error. Any non-zero flag counts as present.
      var flag := ShiftNBytes(1, bytes);
      if flag.failed then Err(InsufficientBytes)
      else if flag.taken[0] == 0 then Ok((prior, flag.rest))
      else
        // streamable.go:77-80 only logs for a pointer field; the wire format reads the pointee.
        match UnmarshalKind(f.kind, flag.rest)
        case Err(e) => Err(e)
        case Ok((v, rest)) => Ok((PtrVal(v), rest))
    else UnmarshalKind(f.kind, bytes)
  }

  /** Reads the fields in declaration order into `dest`; the first error wins and nothing
      requires the buffer to be used up. */
  function UnmarshalFields(fs: seq<Field>, bytes: seq<byte>, dest: seq<Value>)
    : (res: Result<(seq<Value>, seq<byte>), Error>)
    requires |dest| == |fs|
    ensures res.Ok? ==> |res.value.0| == |fs| && |res.value.1| <= |bytes|
    ensures res.Err? ==> res.error == InsufficientBytes || res.error == Unimplemented
    decreases fs, 0
  {
    if fs == [] then Ok(([], bytes))
    else
      match UnmarshalField(fs[0], bytes, dest[0])
      case Err(e) => Err(e)
      case Ok((v, rest)) =>
        match UnmarshalFields(fs[1..], rest, dest[1..])
        case Err(e) => Err(e)
        case Ok((vs, rest')) => Ok(([v] + vs, rest'))
  }

  /** Reads `count` elements, each into a fresh zero record. */
  function UnmarshalRecords(fs: seq<Field>, count: nat, bytes: seq<byte>)
    : (res: Result<(seq<seq<Value>>, seq<byte>), Error>)
    ensures res.Ok? ==> |res.value.0| == count && |res.value.1| <= |bytes|
    ensures res.Err? ==> res.error == InsufficientBytes || res.error == Unimplemented
    decreases fs, 1, count
  {
    if count == 0 then Ok(([], bytes))
    else
      match UnmarshalFields(fs, bytes, ZeroRecord(fs))
      case Err(e) => Err(e)
      case Ok((r, rest)) =>
        match UnmarshalRecords(fs, count - 1, rest)
        case Err(e) => Err(e)
        case Ok((rs, rest')) => Ok(([r] + rs, rest'))
  }

  /** Unmarshal (streamable.go:31-128): returns the destination record as it stands after
      decoding. Bytes left over after the last field are ignored. */
  function Unmarshal(bytes: seq<byte>, dest: Destination): (res: Result<seq<Value>, Error>)
    requires dest.ByPointer? && dest.target.Struct? ==> |dest.target.values| == |dest.target.fields|
    ensures !dest.ByPointer? ==> res == Err(InvalidUnmarshal)
    ensures dest.ByPointer? && dest.target.NonStructRoot? ==> res == Err(NonStruct)
    ensures res.Ok? ==> dest.ByPointer? && dest.target.Struct? && |res.value| == |dest.target.fields|
    ensures res.Err? ==> res.error != InvalidUnmarshal || !dest.ByPointer?
  {
    match dest
    case NilDestination => Err(InvalidUnmarshal)
    case ByValue(_) => Err(InvalidUnmarshal)
    case ByPointer(NonStructRoot) => Err(NonStruct)
    case ByPointer(Struct(fs, r)) =>
      match UnmarshalFields(fs, bytes, r)
      case Err(e) => Err(e)
      case Ok((vs, _)) => Ok(vs)
  }
}
