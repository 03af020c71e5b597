/** The payloads the generic adapters of this file carry (`InRefValue<X>`, `Arc<X>`,
    `ChildCell<T>`, `write_to_new_cell`, `construct_from`), as one sum of the codec types the file
    defines, each written and read by its own codec. */
module Values {
  import opened Bits
  import opened Cells
  import opened Scalars
  import VI = VarInteger
  import VP = VarIntegerPrim
  import NN = NumberN

  /** Which codec a payload has. */
  datatype Kind =
    | KUnsigned(w: nat)
    | KSigned(w: nat)
    | KBool
    | KVarUInt(n: nat)
    | KVarUIntPrim(n: nat, width: nat)
    | KNumber(n: nat)
    | KUnixTime32

  /** One payload: u8..u128, i8..i32, bool, Grams / VarUInteger32, VarUInteger3 / VarUInteger7,
      Number5..Number32, UnixTime32. */
  datatype Value =
    | Unsigned(w: nat, u: nat)
    | Signed(w: nat, i: int)
    | Boolean(b: bool)
    | VarUInt(n: nat, x: int)
    | VarUIntPrim(n: nat, width: nat, p: nat)
    | Number(n: nat, num: nat)
    | UnixTime32(t: nat)

  /** The kinds that exist: the widths and N of the instantiated types. */
  predicate ValidKind(k: Kind)
  {
    match k
    case KUnsigned(w) => UnsignedWidth(w)
    case KSigned(w) => SignedWidth(w)
    case KBool => true
    case KVarUInt(n) => n == VI.GramsN || n == VI.VarUInteger32N
    case KVarUIntPrim(n, width) => VP.IsInstance(n, width)
    case KNumber(n) => NN.IsInstance(n)
    case KUnixTime32 => true
  }

  /** The kinds with a reader (`Deserializable`): all but u128. */
  predicate Readable(k: Kind)
  {
    ValidKind(k) && !(k.KUnsigned? && k.w == 128)
  }

  function KindOf(v: Value): Kind
  {
    match v
    case Unsigned(w, _) => KUnsigned(w)
    case Signed(w, _) => KSigned(w)
    case Boolean(_) => KBool
    case VarUInt(n, _) => KVarUInt(n)
    case VarUIntPrim(n, width, _) => KVarUIntPrim(n, width)
    case Number(n, _) => KNumber(n)
    case UnixTime32(_) => KUnixTime32
  }

  /** A payload of an existing kind, within the range of its Rust type (a BigInt has none). */
  predicate WellFormed(v: Value)
  {
    && ValidKind(KindOf(v))
    && match v
       case Unsigned(w, u) => u < Pow2(w)
       case Signed(w, i) => InSignedRange(i, w)
       case Boolean(_) => true
       case VarUInt(_, _) => true
       case VarUIntPrim(_, width, p) => p < Pow2(width)
       case Number(_, num) => num < Pow2(32)
       case UnixTime32(t) => t < Pow2(32)
  }

  /** The bits a payload's `write_to` appends, or the error its codec raises. */
  function EncodeValue(v: Value): (r: Result<seq<bool>>)
    requires WellFormed(v)
    ensures r.Err? ==> v.VarUInt? || v.VarUIntPrim?
    ensures r.Err? && v.VarUInt? ==> r.error == RangeCheckError
    ensures r.Err? && v.VarUIntPrim? ==> r.error == IntegerOverflow
  {
    match v
    case Unsigned(w, u) => Ok(UIntBits(u, w))
    case Signed(w, i) => Ok(EncodeSigned(i, w))
    case Boolean(x) => Ok([x])
    case VarUInt(n, x) => VI.EncodeVarUInt(n, x)
    case VarUIntPrim(n, width, p) => VP.EncodePrim(n, width, p)
    case Number(n, num) => Ok(UIntBits(num, n))
    case UnixTime32(t) => Ok(UIntBits(t, 32))
  }

  /** Every encoding fits in one cell: the widest is a full VarUInteger32, 5 + 8 * 31 bits. */
  lemma EncodingFitsInCell(v: Value)
    requires WellFormed(v) && EncodeValue(v).Ok?
    ensures |EncodeValue(v).value| <= 253 < MaxDataBits
  {
    if v.VarUInt? {
      VarUIntFits(v.n, v.x);
    } else if v.VarUIntPrim? {
      PrimFits(v.n, v.width, v.p);
    } else {
      FixedFits(v);
    }
  }

  lemma VarUIntFits(n: VI.Width, x: int)
    requires VI.EncodeVarUInt(n, x).Ok?
    ensures |VI.EncodeVarUInt(n, x).value| <= 253
  {
    VI.LenLenValues();
  }

  lemma PrimFits(n: nat, width: nat, p: nat)
    requires VP.IsInstance(n, width) && p < Pow2(width) && VP.EncodePrim(n, width, p).Ok?
    ensures |VP.EncodePrim(n, width, p).value| <= 3 + 8 * 7
  {
    assert p < Pow2(8 * n);
    VP.ByteCountFits(p, width, n);
    VP.LenBitsValues();
  }

  lemma FixedFits(v: Value)
    requires WellFormed(v) && !v.VarUInt? && !v.VarUIntPrim?
    ensures EncodeValue(v).Ok? && |EncodeValue(v).value| <= 128
  {
  }

  /** What a payload's `read_from` consumes and yields from the remaining bits s. */
  function DecodeValue(k: Kind, s: seq<bool>): (r: Read<Value>)
    requires Readable(k)
    ensures r.used <= |s|
    ensures r.result.Ok? ==> KindOf(r.result.value) == k && WellFormed(r.result.value)
  {
    if k.KVarUInt? || k.KVarUIntPrim? then DecodeVariableWidth(k, s) else DecodeFixedWidth(k, s)
  }

  function DecodeFixedWidth(k: Kind, s: seq<bool>): (r: Read<Value>)
    requires Readable(k) && !k.KVarUInt? && !k.KVarUIntPrim?
    ensures r.used <= |s|
    ensures r.result.Ok? ==> KindOf(r.result.value) == k && WellFormed(r.result.value)
  {
    match k
    case KUnsigned(w) =>
      var x := ReadUInt(s, w);
      Read(if x.result.Ok? then Ok(Unsigned(w, x.result.value)) else Err(x.result.error), x.used)
    case KSigned(w) =>
      var x := DecodeSigned(s, w);
      Read(if x.result.Ok? then Ok(Signed(w, x.result.value)) else Err(x.result.error), x.used)
    case KBool =>
      var x := ReadBits(s, 1);
      Read(if x.result.Ok? then Ok(Boolean(x.result.value[0])) else Err(x.result.error), x.used)
    case KNumber(n) =>
      var x := ReadUInt(s, n);
      NN.WithinWord(n);
      Read(if x.result.Ok? then Ok(Number(n, x.result.value)) else Err(x.result.error), x.used)
    case KUnixTime32 =>
      var x := ReadUInt(s, 32);
      Read(if x.result.Ok? then Ok(UnixTime32(x.result.value)) else Err(x.result.error), x.used)
  }

  function DecodeVariableWidth(k: Kind, s: seq<bool>): (r: Read<Value>)
    requires Readable(k) && (k.KVarUInt? || k.KVarUIntPrim?)
    ensures r.used <= |s|
    ensures r.result.Ok? ==> KindOf(r.result.value) == k && WellFormed(r.result.value)
  {
    if k.KVarUInt? then
      var x := VI.DecodeVarUInt(k.n, s);
      Read(if x.result.Ok? then Ok(VarUInt(k.n, x.result.value)) else Err(x.result.error), x.used)
    else
      var x := VP.DecodePrim(k.n, k.width, s);
      VP.DecodedFits(k.n, k.width, s);
      VP.WordHolds(k.n, k.width);
      Read(if x.result.Ok? then Ok(VarUIntPrim(k.n, k.width, x.result.value)) else Err(x.result.error), x.used)
  }

  /** What reading a payload back gives: a BigInt comes back as its magnitude, a NumberN as its
      low N bits, everything else unchanged. */
  function Normalize(v: Value): (r: Value)
    requires WellFormed(v)
    ensures KindOf(r) == KindOf(v) && WellFormed(r)
    ensures !v.VarUInt? && !v.Number? ==> r == v
  {
    match v
    case VarUInt(n, x) => VarUInt(n, VI.Abs(x))
    case Number(n, num) =>
      NN.WithinWord(n);
      Number(n, num % Pow2(n))
    case _ => v
  }

  /** Normalizing twice is normalizing once. */
  lemma NormalizeIdempotent(v: Value)
    requires WellFormed(v)
    ensures Normalize(Normalize(v)) == Normalize(v)
  {
    if v.Number? {
      DivModUnique(v.num % Pow2(v.n), Pow2(v.n), 0, v.num % Pow2(v.n));
    }
  }

  /** Every payload that encodes reads back normalized, consuming exactly the bits written,
      whatever follows them. */
  lemma ValueRoundTrip(v: Value, rest: seq<bool>)
    requires WellFormed(v) && Readable(KindOf(v)) && EncodeValue(v).Ok?
    ensures DecodeValue(KindOf(v), EncodeValue(v).value + rest)
         == Read(Ok(Normalize(v)), |EncodeValue(v).value|)
  {
    if v.VarUInt? || v.VarUIntPrim? {
      VariableWidthRoundTrip(v, rest);
    } else {
      FixedWidthRoundTrip(v, rest);
    }
  }

  lemma FixedWidthRoundTrip(v: Value, rest: seq<bool>)
    requires WellFormed(v) && Readable(KindOf(v)) && !v.VarUInt? && !v.VarUIntPrim?
    ensures DecodeValue(KindOf(v), EncodeValue(v).value + rest)
         == Read(Ok(Normalize(v)), |EncodeValue(v).value|)
  {
    if v.Unsigned? || v.Signed? || v.Boolean? {
      ScalarRoundTrip(v, rest);
    } else {
      WordValueRoundTrip(v, rest);
    }
  }

  lemma ScalarRoundTrip(v: Value, rest: seq<bool>)
    requires WellFormed(v) && Readable(KindOf(v)) && (v.Unsigned? || v.Signed? || v.Boolean?)
    ensures DecodeFixedWidth(KindOf(v), EncodeValue(v).value + rest)
         == Read(Ok(Normalize(v)), |EncodeValue(v).value|)
  {
    match v
    case Unsigned(w, u) =>
      UnsignedCodecRoundTrip(u, w, rest);
    case Signed(w, i) =>
      SignedCodecRoundTrip(i, w, rest);
    case Boolean(x) =>
      assert ([x] + rest)[..1] == [x];
  }

  lemma WordValueRoundTrip(v: Value, rest: seq<bool>)
    requires WellFormed(v) && (v.Number? || v.UnixTime32?)
    ensures DecodeFixedWidth(KindOf(v), EncodeValue(v).value + rest)
         == Read(Ok(Normalize(v)), |EncodeValue(v).value|)
  {
    if v.Number? {
      NN.NumberRoundTrip(v.n, v.num, rest);
      NN.WithinWord(v.n);
      assert EncodeValue(v).value == UIntBits(v.num, v.n);
    } else {
      UnsignedCodecRoundTrip(v.t, 32, rest);
    }
  }

  lemma VariableWidthRoundTrip(v: Value, rest: seq<bool>)
    requires WellFormed(v) && (v.VarUInt? || v.VarUIntPrim?) && EncodeValue(v).Ok?
    ensures DecodeValue(KindOf(v), EncodeValue(v).value + rest)
         == Read(Ok(Normalize(v)), |EncodeValue(v).value|)
  {
    if v.VarUInt? {
      VI.VarUIntRoundTrip(v.n, v.x, rest);
    } else {
      VP.PrimRoundTrip(v.n, v.width, v.p, rest);
    }
  }

  /** The writer of a Grams or VarUInteger32 value, through a number object holding it. */
  method WriteVarUInt(n: VI.Width, x: int, b: Builder) returns (r: Outcome)
    requires b.Valid()
    modifies b
    ensures b.Valid() && b.refs == old(b.refs)
    ensures VI.EncodeVarUInt(n, x).Err? ==> r == Fail(RangeCheckError) && b.data == old(b.data)
    ensures VI.EncodeVarUInt(n, x).Ok? ==>
      var enc := VI.EncodeVarUInt(n, x).value;
      && r == (if |enc| <= old(b.Room()) then Pass else Fail(CellOverflow))
      && b.data == (if r.Pass? then old(b.data) + enc else old(b.data))
  {
    var number := new VI.VarUInteger.Zero(n);
    number.value := x;
    r := number.WriteTo(b);
  }

  /** The reader of a Grams or VarUInteger32 value, into a number object. */
  method ReadVarUInt(n: VI.Width, s: Slice) returns (r: Result<int>)
    requires s.Valid()
    modifies s`pos
    ensures s.Valid() && s.refPos == old(s.refPos)
    ensures r == VI.DecodeVarUInt(n, old(s.Remaining())).result
    ensures s.pos == old(s.pos) + VI.DecodeVarUInt(n, old(s.Remaining())).used
  {
    var number := new VI.VarUInteger.Zero(n);
    var x := number.ReadFrom(s);
    r := if x.Pass? then Ok(number.value) else Err(x.error);
  }

  /** The writer of a NumberN, through a number object holding the word. */
  method WriteNumber(n: nat, num: nat, b: Builder) returns (r: Outcome)
    requires NN.IsInstance(n) && num < Pow2(32) && b.Valid()
    modifies b
    ensures b.Valid() && b.refs == old(b.refs)
    ensures r == (if n <= old(b.Room()) then Pass else Fail(CellOverflow))
    ensures b.data == (if r.Pass? then old(b.data) + UIntBits(num, n) else old(b.data))
  {
    var number := new NN.Number.Default(n);
    number.value := num;
    r := number.WriteTo(b);
  }

  /** The reader of a NumberN, into a number object. */
  method ReadNumber(n: nat, s: Slice) returns (r: Result<nat>)
    requires NN.IsInstance(n) && s.Valid()
    modifies s`pos
    ensures s.Valid() && s.refPos == old(s.refPos)
    ensures r == ReadUInt(old(s.Remaining()), n).result
    ensures s.pos == old(s.pos) + ReadUInt(old(s.Remaining()), n).used
  {
    var number := new NN.Number.Default(n);
    var x := number.ReadFrom(s);
    r := if x.Pass? then Ok(number.value) else Err(x.error);
  }

  /** The effect of writing v into a builder holding `before` with `room` bits free: all of its
      encoding or the codec's error; on failure nothing is left behind but, for the primitive
      variant out of room, its length field when that alone fitted. */
  ghost predicate WroteValue(v: Value, before: seq<bool>, room: int, r: Outcome, after: seq<bool>)
    requires WellFormed(v)
  {
    && (EncodeValue(v).Err? ==> r == Fail(EncodeValue(v).error) && after == before)
    && (EncodeValue(v).Ok? ==>
          r == (if |EncodeValue(v).value| <= room then Pass else Fail(CellOverflow)))
    && (r.Pass? ==> after == before + EncodeValue(v).value)
    && (r.Fail? && !v.VarUIntPrim? ==> after == before)
    && (r.Fail? && v.VarUIntPrim? ==>
          after == (if r == Fail(CellOverflow) && VP.LenBits(v.n) <= room
                    then before + VP.LengthField(v.n, v.width, v.p) else before))
  }

  /** A payload's `write_to`, dispatched to its own codec. */
  method WriteValue(v: Value, b: Builder) returns (r: Outcome)
    requires WellFormed(v) && b.Valid()
    modifies b
    ensures b.Valid() && b.refs == old(b.refs)
    ensures WroteValue(v, old(b.data), old(b.Room()), r, b.data)
  {
    if v.VarUInt? || v.VarUIntPrim? {
      r := WriteVariableWidth(v, b);
    } else {
      r := WriteFixedWidth(v, b);
    }
  }

  /** The payloads with a length field, which can also fail on their range. */
  method WriteVariableWidth(v: Value, b: Builder) returns (r: Outcome)
    requires WellFormed(v) && (v.VarUInt? || v.VarUIntPrim?) && b.Valid()
    modifies b
    ensures b.Valid() && b.refs == old(b.refs)
    ensures WroteValue(v, old(b.data), old(b.Room()), r, b.data)
  {
    if v.VarUInt? {
      r := WriteVarUInt(v.n, v.x, b);
    } else {
      r := VP.WriteTo(v.n, v.width, v.p, b);
    }
  }

  /** The payloads of a fixed width, which never fail but for want of room. */
  method WriteFixedWidth(v: Value, b: Builder) returns (r: Outcome)
    requires WellFormed(v) && !v.VarUInt? && !v.VarUIntPrim? && b.Valid()
    modifies b
    ensures b.Valid() && b.refs == old(b.refs)
    ensures WroteValue(v, old(b.data), old(b.Room()), r, b.data)
  {
    match v
    case Unsigned(w, u) =>
      r := WriteUnsigned(u, w, b);
    case Signed(w, i) =>
      r := WriteSigned(i, w, b);
    case Boolean(x) =>
      r := WriteBool(x, b);
    case Number(n, num) =>
      r := WriteNumber(n, num, b);
    case UnixTime32(t) =>
      r := WriteUnixTime32(t, b);
  }

  /** A payload's `read_from` (after `default()`), dispatched to its own codec. */
  method ReadValue(k: Kind, s: Slice) returns (r: Result<Value>)
    requires Readable(k) && s.Valid()
    modifies s`pos
    ensures s.Valid() && s.refPos == old(s.refPos)
    ensures r == DecodeValue(k, old(s.Remaining())).result
    ensures s.pos == old(s.pos) + DecodeValue(k, old(s.Remaining())).used
  {
    match k
    case KUnsigned(w) =>
      var x := ReadUnsigned(w, s);
      r := if x.Ok? then Ok(Unsigned(w, x.value)) else Err(x.error);
    case KSigned(w) =>
      var x;
      if w == 8 {
        x := ReadI8(s);
      } else {
        x := ReadSigned(w, s);
      }
      r := if x.Ok? then Ok(Signed(w, x.value)) else Err(x.error);
    case KBool =>
      ghost var rest := s.Remaining();
      var x := ReadBool(s);
      assert 1 <= |rest| ==> rest[..1] == [rest[0]];
      r := if x.Ok? then Ok(Boolean(x.value)) else Err(x.error);
    case KVarUInt(n) =>
      var x := ReadVarUInt(n, s);
      r := if x.Ok? then Ok(VarUInt(n, x.value)) else Err(x.error);
    case KVarUIntPrim(n, width) =>
      var x := VP.ReadFrom(n, width, s);
      r := if x.Ok? then Ok(VarUIntPrim(n, width, x.value)) else Err(x.error);
    case KNumber(n) =>
      var x := ReadNumber(n, s);
      r := if x.Ok? then Ok(Number(n, x.value)) else Err(x.error);
    case KUnixTime32 =>
      var x := ReadUnixTime32(s);
      r := if x.Ok? then Ok(UnixTime32(x.value)) else Err(x.error);
  }

  /** `write_to_new_cell`: the payload alone in a new ordinary cell. It never overflows, so it
      fails only when the payload's own codec rejects the value. */
  method WriteToNewCell(v: Value) returns (r: Result<Cell>)
    requires WellFormed(v)
    ensures r.Ok? <==> EncodeValue(v).Ok?
    ensures r.Ok? ==> r.value == Cell(Ordinary, EncodeValue(v).value, [])
    ensures r.Err? ==> r.error == EncodeValue(v).error
  {
    var b := new Builder();
    var written := WriteValue(v, b);
    assert WroteValue(v, [], MaxDataBits, written, b.data);
    if EncodeValue(v).Err? {
      return Err(written.error);
    }
    EncodingFitsInCell(v);
    assert written.Pass? && b.data == EncodeValue(v).value;
    return Ok(b.ToCell());
  }

  /** `construct_from` on a whole cell: a slice over it, then the payload's reader. */
  method ConstructFrom(k: Kind, c: Cell) returns (r: Result<Value>)
    requires Readable(k)
    ensures r == DecodeValue(k, c.data).result
  {
    var s := new Slice(c);
    assert s.Remaining() == c.data;
    r := ReadValue(k, s);
  }

  /** A payload written to a new cell and constructed back from it. */
  method NewCellRoundTrip(v: Value) returns (r: Result<Value>)
    requires WellFormed(v) && Readable(KindOf(v))
    ensures EncodeValue(v).Ok? ==> r == Ok(Normalize(v))
    ensures EncodeValue(v).Err? ==> r == Err(EncodeValue(v).error)
  {
    var c := WriteToNewCell(v);
    if c.Err? {
      return Err(c.error);
    }
    ValueRoundTrip(v, []);
    assert EncodeValue(v).value + [] == EncodeValue(v).value;
    r := ConstructFrom(KindOf(v), c.value);
  }

  /** `InRefValue<X>`: a payload kept in a child cell of its own. */
  class InRefValue {
    const kind: Kind
    var payload: Value

    ghost predicate Valid()
      reads this
    {
      Readable(kind) && WellFormed(payload) && KindOf(payload) == kind
    }

    constructor (v: Value)
      requires WellFormed(v) && Readable(KindOf(v))
      ensures Valid() && kind == KindOf(v) && payload == v
    {
      kind := KindOf(v);
      payload := v;
    }

    /** `Serializable::write_to`: one new reference, no data bits. */
    method WriteTo(b: Builder) returns (r: Outcome)
      requires Valid() && b.Valid() && |b.refs| < MaxRefs
      modifies b
      ensures b.Valid() && b.data == old(b.data)
      ensures r.Pass? <==> EncodeValue(payload).Ok?
      ensures r.Pass? ==> b.refs == old(b.refs) + [Cell(Ordinary, EncodeValue(payload).value, [])]
      ensures r.Fail? ==> r.error == EncodeValue(payload).error && b.refs == old(b.refs)
    {
      var c := WriteToNewCell(payload);
      if c.Err? {
        return Fail(c.error);
      }
      b.AppendReference(c.value);
      r := Pass;
    }

    /** `Deserializable::read_from`: drains one reference and decodes the payload from it; the
        reference stays drained when decoding fails. */
    method ReadFrom(s: Slice) returns (r: Outcome)
      requires Valid() && s.Valid()
      modifies this`payload, s`refPos
      ensures Valid() && s.Valid() && s.pos == old(s.pos)
      ensures old(s.refPos) >= |s.cell.refs| ==>
        r == Fail(CellUnderflow) && payload == old(payload) && s.refPos == old(s.refPos)
      ensures old(s.refPos) < |s.cell.refs| ==>
        var decoded := DecodeValue(kind, s.cell.refs[old(s.refPos)].data).result;
        && s.refPos == old(s.refPos) + 1
        && (decoded.Ok? ==> r == Pass && payload == decoded.value)
        && (decoded.Err? ==> r == Fail(decoded.error) && payload == old(payload))
    {
      var child := s.DrainReference();
      if child.Err? {
        return Fail(child.error);
      }
      var x := ConstructFrom(kind, child.value);
      if x.Err? {
        return Fail(x.error);
      }
      payload := x.value;
      r := Pass;
    }
  }

  /** An `InRefValue` written into a cell and read back from it. */
  method InRefRoundTrip(v: Value) returns (r: Result<Value>)
    requires WellFormed(v) && Readable(KindOf(v)) && EncodeValue(v).Ok?
    ensures r == Ok(Normalize(v))
  {
    var holder := new InRefValue(v);
    var b := new Builder();
    var written := holder.WriteTo(b);
    var s := new Slice(b.ToCell());
    var reader := new InRefValue(v);
    ValueRoundTrip(v, []);
    assert EncodeValue(v).value + [] == EncodeValue(v).value;
    var read := reader.ReadFrom(s);
    r := Ok(reader.payload);
  }

  /** `Arc<X>`: a shared, immutable payload. */
  class Arc {
    const pointee: Value

    ghost predicate Valid()
    {
      WellFormed(pointee)
    }

    constructor (v: Value)
      requires WellFormed(v)
      ensures Valid() && pointee == v
    {
      pointee := v;
    }

    /** `Serializable::write_to`: the pointee's own. */
    method WriteTo(b: Builder) returns (r: Outcome)
      requires Valid() && b.Valid()
      modifies b
      ensures b.Valid() && b.refs == old(b.refs)
      ensures WroteValue(pointee, old(b.data), old(b.Room()), r, b.data)
      ensures r.Pass? <==> EncodeValue(pointee).Ok? && |EncodeValue(pointee).value| <= old(b.Room())
    {
      r := WriteValue(pointee, b);
    }

    /** `Deserializable::read_from`: the payload read from the same slice, in a new `Arc`. */
    static method ReadFrom(k: Kind, s: Slice) returns (r: Result<Arc>)
      requires Readable(k) && s.Valid()
      modifies s`pos
      ensures s.Valid() && s.refPos == old(s.refPos)
      ensures s.pos == old(s.pos) + DecodeValue(k, old(s.Remaining())).used
      ensures r.Ok? <==> DecodeValue(k, old(s.Remaining())).result.Ok?
      ensures r.Ok? ==> fresh(r.value) && r.value.Valid()
                        && r.value.pointee == DecodeValue(k, old(s.Remaining())).result.value
      ensures r.Err? ==> r.error == DecodeValue(k, old(s.Remaining())).result.error
    {
      var x := ReadValue(k, s);
      if x.Err? {
        return Err(x.error);
      }
      var a := new Arc(x.value);
      return Ok(a);
    }
  }
}
