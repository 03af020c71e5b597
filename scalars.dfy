/** The fixed-width codecs of the machine scalars: u8, u16, u32, u64 and u128 as big-endian
    unsigned words, i8, i16 and i32 in two's complement, bool as one bit, and `UnixTime32` as
    its u32. */
module Scalars {
  import opened Bits
  import opened Cells

  /** Widths with an unsigned writer: u8, u16, u32, u64, u128. */
  predicate UnsignedWidth(w: nat)
  {
    w == 8 || w == 16 || w == 32 || w == 64 || w == 128
  }

  /** Widths with an unsigned reader: u128 has none. */
  predicate ReadableUnsignedWidth(w: nat)
  {
    w == 8 || w == 16 || w == 32 || w == 64
  }

  /** Widths of the signed types: i8, i16, i32. */
  predicate SignedWidth(w: nat)
  {
    w == 8 || w == 16 || w == 32
  }

  /** The range of a w-bit signed integer. */
  predicate InSignedRange(x: int, w: nat)
    requires w >= 1
  {
    -(Pow2(w - 1) as int) <= x < Pow2(w - 1)
  }

  /** The w-bit word that holds x in two's complement. */
  function TwosComplement(x: int, w: nat): (u: nat)
    requires w >= 1 && InSignedRange(x, w)
    ensures u < Pow2(w)
    ensures x >= 0 <==> u < Pow2(w - 1)
    ensures (u - x) % Pow2(w) == 0
  {
    Pow2Add(w - 1, 1);
    if x >= 0 then
      DivModUnique(0, Pow2(w), 0, 0);
      x
    else
      DivModUnique(Pow2(w), Pow2(w), 1, 0);
      x + Pow2(w)
  }

  /** The signed reading of a w-bit word (`as i8`, `get_next_i16`, `get_next_i32`). */
  function FromTwosComplement(u: nat, w: nat): (x: int)
    requires w >= 1 && u < Pow2(w)
    ensures InSignedRange(x, w)
    ensures x >= 0 <==> u < Pow2(w - 1)
    ensures (u - x) % Pow2(w) == 0
  {
    Pow2Add(w - 1, 1);
    if u < Pow2(w - 1) then
      DivModUnique(0, Pow2(w), 0, 0);
      u
    else
      DivModUnique(Pow2(w), Pow2(w), 1, 0);
      u - Pow2(w)
  }

  /** Writing a signed integer as a word and reading the word back gives the integer. */
  lemma SignedRoundTrip(x: int, w: nat)
    requires w >= 1 && InSignedRange(x, w)
    ensures FromTwosComplement(TwosComplement(x, w), w) == x
  {
    Pow2Add(w - 1, 1);
  }

  /** Every word is the image of exactly one signed integer. */
  lemma WordRoundTrip(u: nat, w: nat)
    requires w >= 1 && u < Pow2(w)
    ensures TwosComplement(FromTwosComplement(u, w), w) == u
  {
    Pow2Add(w - 1, 1);
  }

  /** The bits a signed integer is written as. */
  function EncodeSigned(x: int, w: nat): (bits: seq<bool>)
    requires w >= 1 && InSignedRange(x, w)
    ensures |bits| == w
    ensures BitsToNat(bits) == TwosComplement(x, w)
  {
    UIntBitsFits(TwosComplement(x, w), w);
    UIntBits(TwosComplement(x, w), w)
  }

  /** What a signed reader consumes and yields. */
  function DecodeSigned(s: seq<bool>, w: nat): (r: Read<int>)
    requires w >= 1
    ensures r.result.Ok? <==> w <= |s|
    ensures r.result.Ok? ==> r.used == w && InSignedRange(r.result.value, w)
    ensures r.result.Err? ==> r.result.error == CellUnderflow && r.used == 0
  {
    var u := ReadUInt(s, w);
    if u.result.Err? then Read(Err(u.result.error), 0)
    else Read(Ok(FromTwosComplement(u.result.value, w)), w)
  }

  /** Signed round trip, consuming exactly the width. */
  lemma SignedCodecRoundTrip(x: int, w: nat, rest: seq<bool>)
    requires w >= 1 && InSignedRange(x, w)
    ensures DecodeSigned(EncodeSigned(x, w) + rest, w) == Read(Ok(x), w)
  {
    UIntBitsFits(TwosComplement(x, w), w);
    ReadUIntOfBits(TwosComplement(x, w), w, rest);
    DivModUnique(TwosComplement(x, w), Pow2(w), 0, TwosComplement(x, w));
    SignedRoundTrip(x, w);
  }

  /** Unsigned round trip, consuming exactly the width. */
  lemma UnsignedCodecRoundTrip(v: nat, w: nat, rest: seq<bool>)
    requires v < Pow2(w)
    ensures ReadUInt(UIntBits(v, w) + rest, w) == Read(Ok(v), w)
  {
    ReadUIntOfBits(v, w, rest);
    DivModUnique(v, Pow2(w), 0, v);
  }

  /** `append_u8` ... `append_u128`: the word in its own width. */
  method WriteUnsigned(v: nat, w: nat, b: Builder) returns (r: Outcome)
    requires UnsignedWidth(w) && v < Pow2(w) && b.Valid()
    modifies b
    ensures b.Valid() && b.refs == old(b.refs)
    ensures r == (if w <= old(b.Room()) then Pass else Fail(CellOverflow))
    ensures b.data == (if r.Pass? then old(b.data) + UIntBits(v, w) else old(b.data))
  {
    r := b.AppendBits(v, w);
  }

  /** `get_next_byte`, `get_next_u16`, `get_next_u32`, `get_next_u64`. */
  method ReadUnsigned(w: nat, s: Slice) returns (r: Result<nat>)
    requires ReadableUnsignedWidth(w) && s.Valid()
    modifies s`pos
    ensures s.Valid() && s.refPos == old(s.refPos)
    ensures r == ReadUInt(old(s.Remaining()), w).result
    ensures r.Ok? ==> r.value < Pow2(w)
    ensures s.pos == old(s.pos) + ReadUInt(old(s.Remaining()), w).used
  {
    r := s.GetNextInt(w);
  }

  /** `append_i8`, `append_i16`, `append_i32`. */
  method WriteSigned(x: int, w: nat, b: Builder) returns (r: Outcome)
    requires SignedWidth(w) && InSignedRange(x, w) && b.Valid()
    modifies b
    ensures b.Valid() && b.refs == old(b.refs)
    ensures r == (if w <= old(b.Room()) then Pass else Fail(CellOverflow))
    ensures b.data == (if r.Pass? then old(b.data) + EncodeSigned(x, w) else old(b.data))
  {
    r := b.AppendBits(TwosComplement(x, w), w);
  }

  /** `get_next_i16`, `get_next_i32`. */
  method ReadSigned(w: nat, s: Slice) returns (r: Result<int>)
    requires (w == 16 || w == 32) && s.Valid()
    modifies s`pos
    ensures s.Valid() && s.refPos == old(s.refPos)
    ensures r == DecodeSigned(old(s.Remaining()), w).result
    ensures s.pos == old(s.pos) + DecodeSigned(old(s.Remaining()), w).used
  {
    var u := s.GetNextInt(w);
    if u.Err? {
      return Err(u.error);
    }
    r := Ok(FromTwosComplement(u.value, w));
  }

  /** i8's reader: `get_next_byte` reinterpreted with `as i8`, which is the signed reading of
      the byte. */
  method ReadI8(s: Slice) returns (r: Result<int>)
    requires s.Valid()
    modifies s`pos
    ensures s.Valid() && s.refPos == old(s.refPos)
    ensures r == DecodeSigned(old(s.Remaining()), 8).result
    ensures s.pos == old(s.pos) + DecodeSigned(old(s.Remaining()), 8).used
  {
    var byte := ReadUnsigned(8, s);
    if byte.Err? {
      return Err(byte.error);
    }
    r := Ok(FromTwosComplement(byte.value, 8));
  }

  /** `append_bit_bool`. */
  method WriteBool(x: bool, b: Builder) returns (r: Outcome)
    requires b.Valid()
    modifies b
    ensures b.Valid() && b.refs == old(b.refs)
    ensures r == (if 1 <= old(b.Room()) then Pass else Fail(CellOverflow))
    ensures b.data == (if r.Pass? then old(b.data) + [x] else old(b.data))
  {
    r := b.AppendRaw([x]);
  }

  /** `get_next_bit`. */
  method ReadBool(s: Slice) returns (r: Result<bool>)
    requires s.Valid()
    modifies s`pos
    ensures s.Valid() && s.refPos == old(s.refPos)
    ensures r.Ok? <==> 1 <= |old(s.Remaining())|
    ensures r.Ok? ==> r.value == old(s.Remaining())[0] && s.pos == old(s.pos) + 1
    ensures r.Err? ==> r.error == CellUnderflow && s.pos == old(s.pos)
  {
    var bit := s.GetNextBits(1);
    if bit.Err? {
      return Err(bit.error);
    }
    r := Ok(bit.value[0]);
  }

  /** `UnixTime32`'s writer: its u32. */
  method WriteUnixTime32(t: nat, b: Builder) returns (r: Outcome)
    requires t < Pow2(32) && b.Valid()
    modifies b
    ensures b.Valid() && b.refs == old(b.refs)
    ensures r == (if 32 <= old(b.Room()) then Pass else Fail(CellOverflow))
    ensures b.data == (if r.Pass? then old(b.data) + UIntBits(t, 32) else old(b.data))
  {
    r := WriteUnsigned(t, 32, b);
  }

  /** `UnixTime32`'s reader: its u32. */
  method ReadUnixTime32(s: Slice) returns (r: Result<nat>)
    requires s.Valid()
    modifies s`pos
    ensures s.Valid() && s.refPos == old(s.refPos)
    ensures r == ReadUInt(old(s.Remaining()), 32).result
    ensures s.pos == old(s.pos) + ReadUInt(old(s.Remaining()), 32).used
  {
    r := ReadUnsigned(32, s);
  }
}
