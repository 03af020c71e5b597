/** Variable-length unsigned integers over machine words: VarUInteger3 (a u32, at most 3 bytes)
    and VarUInteger7 (a u64, at most 7 bytes). The byte count is stored in a field as wide as the
    bit length of n, then that many big-endian bytes of the value. */
module VarIntegerPrim {
  import opened Bits
  import opened Cells

  /** (n, word width) of the two instances. */
  predicate IsInstance(n: nat, width: nat)
  {
    (n == 3 && width == 32) || (n == 7 && width == 64)
  }

  /** `leading_zeros` of a width-bit word. */
  function LeadingZeros(v: nat, width: nat): (z: nat)
    requires v < Pow2(width)
    ensures z + BitLength(v) == width
  {
    BitLengthBound(v, width);
    width - BitLength(v)
  }

  /** `8 - (n as u8).leading_zeros()`: the narrowest field that holds n. */
  function LenBits(n: nat): (bits: nat)
    requires 1 <= n < 0x100
    ensures n < Pow2(bits)
    ensures bits >= 1 && Pow2(bits - 1) <= n
  {
    Pow2Byte();
    BitLengthBound(n, 8);
    BitLengthBound(n, BitLength(n));
    BitLengthBound(n, BitLength(n) - 1);
    8 - LeadingZeros(n, 8)
  }

  lemma LenBitsValues()
    ensures LenBits(3) == 2 && Pow2(2) == 4
    ensures LenBits(7) == 3 && Pow2(3) == 8
  {
    assert BitLength(3) == 2;
    assert BitLength(7) == 3;
  }

  /** `leading_zeros(0) / 8 - leading_zeros(v) / 8`: the bytes v needs, that is
      ceil(BitLength(v) / 8). */
  function ByteCount(v: nat, width: nat): (bytes: nat)
    requires width % 8 == 0 && v < Pow2(width)
    ensures bytes == (BitLength(v) + 7) / 8
    ensures v < Pow2(8 * bytes)
  {
    BitLengthBound(v, 8 * ((BitLength(v) + 7) / 8));
    LeadingZeros(0, width) / 8 - LeadingZeros(v, width) / 8
  }

  /** A word needs at most k bytes exactly when it is below 2^(8 k). */
  lemma ByteCountFits(v: nat, width: nat, k: nat)
    requires width % 8 == 0 && v < Pow2(width)
    ensures ByteCount(v, width) <= k <==> v < Pow2(8 * k)
  {
    BitLengthBound(v, 8 * k);
  }

  /** The bits `write_to` appends: byte count, then the bytes; more than n bytes overflows. */
  function EncodePrim(n: nat, width: nat, v: nat): (r: Result<seq<bool>>)
    requires IsInstance(n, width) && v < Pow2(width)
    ensures r.Err? <==> !(v < Pow2(8 * n))
    ensures r.Err? ==> r.error == IntegerOverflow
    ensures r.Ok? ==> |r.value| == LenBits(n) + 8 * ByteCount(v, width)
  {
    ByteCountFits(v, width, n);
    var bytes := ByteCount(v, width);
    if bytes > n then Err(IntegerOverflow)
    else Ok(UIntBits(bytes, LenBits(n)) + UIntBits(v, 8 * bytes))
  }

  /** What `read_from` consumes and yields. It checks no range: the field cannot name more than
      n bytes, so every decoded value fits the word and encodes again (`DecodedFits`). */
  function DecodePrim(n: nat, width: nat, s: seq<bool>): (r: Read<nat>)
    requires IsInstance(n, width)
    ensures r.used <= |s|
    ensures r.result.Err? ==> r.result.error == CellUnderflow
  {
    var bits := LenBits(n);
    var field := ReadUInt(s, bits);
    if field.result.Err? then Read(Err(CellUnderflow), 0)
    else
      var bytes := field.result.value;
      var x := ReadUInt(s[bits..], 8 * bytes);
      if x.result.Err? then Read(Err(CellUnderflow), bits)
      else Read(Ok(x.result.value), bits + 8 * bytes)
  }

  /** A successful decode read a byte count `bytes` and then the value from the next 8 bytes bits. */
  lemma DecodedPrimParts(n: nat, width: nat, s: seq<bool>)
    requires IsInstance(n, width) && DecodePrim(n, width, s).result.Ok?
    ensures var bits := LenBits(n);
            var bytes := BitsToNat(s[..bits]);
            && bits + 8 * bytes == DecodePrim(n, width, s).used <= |s|
            && DecodePrim(n, width, s).result.value == BitsToNat(s[bits..bits + 8 * bytes])
  {
    var bits := LenBits(n);
    var bytes := BitsToNat(s[..bits]);
    assert s[bits..][..8 * bytes] == s[bits..bits + 8 * bytes];
  }

  /** Whatever is decoded is below 2^(8 n), so it fits the word (`WordHolds`). */
  lemma DecodedFits(n: nat, width: nat, s: seq<bool>)
    requires IsInstance(n, width)
    ensures DecodePrim(n, width, s).result.Ok? ==> DecodePrim(n, width, s).result.value < Pow2(8 * n)
  {
    var r := DecodePrim(n, width, s);
    if r.result.Ok? {
      DecodedPrimParts(n, width, s);
      var field := s[..LenBits(n)];
      ValueBitsFit(n, width, field, s[LenBits(n)..LenBits(n) + 8 * BitsToNat(field)]);
    }
  }

  /** n bytes are fewer bits than the word has. */
  lemma WordHolds(n: nat, width: nat)
    requires IsInstance(n, width)
    ensures Pow2(8 * n) < Pow2(width)
  {
    BelowWord(8 * n, width);
  }

  /** The byte-count field cannot name more than n bytes (it is LenBits(n) wide and n + 1 is a
      power of two), so the bytes it names hold less than 2^(8 n). */
  lemma ValueBitsFit(n: nat, width: nat, field: seq<bool>, x: seq<bool>)
    requires IsInstance(n, width) && |field| == LenBits(n) && |x| == 8 * BitsToNat(field)
    ensures BitsToNat(x) < Pow2(8 * n)
  {
    LenBitsValues();
    assert BitsToNat(field) <= n;
    Pow2Monotone(|x|, 8 * n);
  }

  /** A byte count a and value bits b of that many bytes decode to the value, whatever follows. */
  lemma DecodeOfParts(n: nat, width: nat, a: seq<bool>, b: seq<bool>, rest: seq<bool>)
    requires IsInstance(n, width) && |a| == LenBits(n) && |b| == 8 * BitsToNat(a)
    ensures DecodePrim(n, width, a + b + rest) == Read(Ok(BitsToNat(b)), |a| + |b|)
  {
    var s := a + b + rest;
    assert s[..|a|] == a;
    assert s[|a|..] == b + rest;
    assert (b + rest)[..|b|] == b;
    assert ReadUInt(s, |a|) == Read(Ok(BitsToNat(a)), |a|);
    assert ReadUInt(b + rest, |b|) == Read(Ok(BitsToNat(b)), |b|);
  }

  /** Round trip for every value that encodes, consuming exactly what was written. */
  lemma PrimRoundTrip(n: nat, width: nat, v: nat, rest: seq<bool>)
    requires IsInstance(n, width) && v < Pow2(width)
    requires EncodePrim(n, width, v).Ok?
    ensures DecodePrim(n, width, EncodePrim(n, width, v).value + rest)
         == Read(Ok(v), |EncodePrim(n, width, v).value|)
  {
    var bits, bytes := LenBits(n), ByteCount(v, width);
    var a, b := UIntBits(bytes, bits), UIntBits(v, 8 * bytes);
    EncodePrimParts(n, width, v);
    LenBitsValues();
    assert bytes < Pow2(bits);
    UIntBitsFits(bytes, bits);
    UIntBitsFits(v, 8 * bytes);
    DecodeOfParts(n, width, a, b, rest);
  }

  /** Encoding overflows exactly for the words above n bytes: from 2^24 for VarUInteger3 and
      from 2^56 for VarUInteger7. */
  lemma OverflowBoundary(n: nat, width: nat)
    requires IsInstance(n, width)
    ensures Pow2(8 * n) < Pow2(width)
    ensures EncodePrim(n, width, Pow2(8 * n) - 1).Ok?
    ensures EncodePrim(n, width, Pow2(8 * n)) == Err(IntegerOverflow)
  {
    BelowWord(8 * n, width);
  }

  /** A word of exactly n bytes (from 2^16 for VarUInteger3, from 2^48 for VarUInteger7) is
      written with n itself in its length field, which the TL-B rule `len:(#< n)` quoted at the
      head of the file forbids, and it is read back all the same. */
  lemma FullLengthAccepted(n: nat, width: nat)
    requires IsInstance(n, width)
    ensures var v := Pow2(8 * (n - 1));
            && v < Pow2(width)
            && ByteCount(v, width) == n
            && EncodePrim(n, width, v).Ok?
            && LengthField(n, width, v) == UIntBits(n, LenBits(n))
            && DecodePrim(n, width, EncodePrim(n, width, v).value).result == Ok(v)
  {
    var v := Pow2(8 * (n - 1));
    BelowWord(8 * (n - 1), 8 * n);
    WordHolds(n, width);
    ByteCountFits(v, width, n);
    ByteCountFits(v, width, n - 1);
    PrimRoundTrip(n, width, v, []);
    assert EncodePrim(n, width, v).value + [] == EncodePrim(n, width, v).value;
  }

  lemma BelowWord(k: nat, width: nat)
    requires k < width
    ensures Pow2(k) < Pow2(width)
  {
    Pow2Monotone(k + 1, width);
    assert Pow2(k + 1) == 2 * Pow2(k);
  }

  /** The two pieces of an encoding that succeeds. */
  lemma EncodePrimParts(n: nat, width: nat, v: nat)
    requires IsInstance(n, width) && v < Pow2(width)
    ensures EncodePrim(n, width, v).Err? <==> ByteCount(v, width) > n
    ensures EncodePrim(n, width, v).Ok? ==>
      EncodePrim(n, width, v).value
        == UIntBits(ByteCount(v, width), LenBits(n)) + UIntBits(v, 8 * ByteCount(v, width))
  {
  }

  /** The length field alone: what the first of the two appends writes. */
  function LengthField(n: nat, width: nat, v: nat): (f: seq<bool>)
    requires IsInstance(n, width) && v < Pow2(width)
    ensures |f| == LenBits(n)
    ensures EncodePrim(n, width, v).Ok? ==> f == EncodePrim(n, width, v).value[..LenBits(n)]
  {
    var head := UIntBits(ByteCount(v, width), LenBits(n));
    EncodePrimParts(n, width, v);
    assert EncodePrim(n, width, v).Ok? ==>
      EncodePrim(n, width, v).value == head + UIntBits(v, 8 * ByteCount(v, width));
    assert forall tail: seq<bool> :: (head + tail)[..|head|] == head;
    head
  }

  /** Two `append_bits` calls in a row: the first one's bits stay when the second one overflows. */
  method AppendTwice(b: Builder, x: nat, xw: nat, y: nat, yw: nat) returns (r: Outcome)
    requires b.Valid()
    modifies b
    ensures b.Valid() && b.refs == old(b.refs)
    ensures r == (if xw + yw <= old(b.Room()) then Pass else Fail(CellOverflow))
    ensures b.data == (if r.Pass? then old(b.data) + (UIntBits(x, xw) + UIntBits(y, yw))
                       else if xw <= old(b.Room()) then old(b.data) + UIntBits(x, xw)
                       else old(b.data))
  {
    r := b.AppendBits(x, xw);
    if r.Fail? {
      return;
    }
    r := b.AppendBits(y, yw);
  }

  /** `Serializable::write_to`: two separate appends, so a builder with room for the byte count
      but not the bytes keeps the byte count. */
  method WriteTo(n: nat, width: nat, v: nat, b: Builder) returns (r: Outcome)
    requires IsInstance(n, width) && v < Pow2(width) && b.Valid()
    modifies b
    ensures b.Valid() && b.refs == old(b.refs)
    ensures EncodePrim(n, width, v).Err? ==> r == Fail(IntegerOverflow) && b.data == old(b.data)
    ensures EncodePrim(n, width, v).Ok? ==>
      r == (if |EncodePrim(n, width, v).value| <= old(b.Room()) then Pass else Fail(CellOverflow))
    ensures r.Pass? ==> b.data == old(b.data) + EncodePrim(n, width, v).value
    ensures r == Fail(CellOverflow) ==>
      b.data == (if LenBits(n) <= old(b.Room()) then old(b.data) + LengthField(n, width, v) else old(b.data))
  {
    var bits := LenBits(n);
    var bytes := ByteCount(v, width);
    EncodePrimParts(n, width, v);
    if bytes > n {
      return Fail(IntegerOverflow);
    }
    r := AppendTwice(b, bytes, bits, v, 8 * bytes);
  }

  /** `Deserializable::read_from`. */
  method ReadFrom(n: nat, width: nat, s: Slice) returns (r: Result<nat>)
    requires IsInstance(n, width) && s.Valid()
    modifies s`pos
    ensures s.Valid() && s.refPos == old(s.refPos)
    ensures r == DecodePrim(n, width, old(s.Remaining())).result
    ensures s.pos == old(s.pos) + DecodePrim(n, width, old(s.Remaining())).used
  {
    ghost var rest := s.Remaining();
    var bits := LenBits(n);
    var bytes := s.GetNextInt(bits);
    if bytes.Err? {
      return Err(bytes.error);
    }
    assert s.Remaining() == rest[bits..];
    var x := s.GetNextInt(bytes.value * 8);
    if x.Err? {
      return Err(x.error);
    }
    r := Ok(x.value);
  }
}
