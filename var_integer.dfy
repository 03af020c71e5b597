/** Self-describing variable-length unsigned integers over arbitrary-precision values: the TL-B
    type `var_uint$_ {n:#} len:(#< n) value:(uint (len * 8)) = VarUInteger n`, instantiated as
    Grams (n = 16, the currency amount) and VarUInteger32 (n = 32). A value is stored as a length
    field of LenLen(n) bits holding the byte count `len`, then `len` big-endian magnitude bytes. */
module VarInteger {
  import opened Bits
  import opened Cells

  const GramsN: nat := 16
  const VarUInteger32N: nat := 32

  /** The byte bounds the family is instantiated with. */
  type Width = n: nat | n == GramsN || n == VarUInteger32N witness GramsN

  function Abs(v: int): nat
  {
    if v < 0 then -v else v
  }

  lemma LenOfBitLength(x: nat)
    ensures x < Pow2(8 * ((BitLength(x) + 7) / 8))
    ensures (BitLength(x) + 7) / 8 > 0 ==> Pow2(8 * ((BitLength(x) + 7) / 8 - 1)) <= x
    ensures BitLength(x) == 0 <==> x == 0
  {
    BytesAbove(x, BitLength(x));
    BytesBelow(x, BitLength(x));
    BitLengthBound(x, 0);
  }

  lemma BytesAbove(x: nat, bl: nat)
    requires bl == BitLength(x)
    ensures x < Pow2(8 * ((bl + 7) / 8))
  {
    var len := (bl + 7) / 8;
    assert 8 * len <= bl + 7 < 8 * len + 8;
    BitLengthBound(x, 8 * len);
  }

  lemma BytesBelow(x: nat, bl: nat)
    requires bl == BitLength(x)
    ensures (bl + 7) / 8 > 0 ==> Pow2(8 * ((bl + 7) / 8 - 1)) <= x
  {
    var len := (bl + 7) / 8;
    assert 8 * len <= bl + 7 < 8 * len + 8;
    if len > 0 {
      BitLengthBound(x, 8 * (len - 1));
    }
  }

  /** `get_len`: the number of bytes of the magnitude, the least l with |v| < 2^(8 l). */
  function GetLen(v: int): (len: nat)
    ensures Abs(v) < Pow2(8 * len)
    ensures len > 0 ==> Pow2(8 * (len - 1)) <= Abs(v)
    ensures len == 0 <==> v == 0
  {
    LenOfBitLength(Abs(v));
    (BitLength(Abs(v)) + 7) / 8
  }

  /** The length field can name any bound k: |v| fits k bytes exactly when GetLen(v) <= k. */
  lemma GetLenFits(v: int, k: nat)
    ensures GetLen(v) <= k <==> Abs(v) < Pow2(8 * k)
  {
    if GetLen(v) <= k {
      Pow2Monotone(8 * GetLen(v), 8 * k);
    } else {
      Pow2Monotone(8 * k, 8 * (GetLen(v) - 1));
    }
  }

  /** `check_owerflow`: rejects only a magnitude of more than n bytes. */
  function CheckOverflow(n: Width, v: int): (r: Outcome)
    ensures r.Pass? <==> Abs(v) < Pow2(8 * n)
    ensures r.Fail? ==> r.error == InvalidArg
  {
    GetLenFits(v, n);
    if GetLen(v) > n then Fail(InvalidArg) else Pass
  }

  function Log2Floor(x: nat): nat
    requires x >= 1
  {
    if x == 1 then 0 else 1 + Log2Floor(x / 2)
  }

  lemma {:induction false} Log2FloorBitLength(x: nat)
    requires x >= 1
    ensures Log2Floor(x) + 1 == BitLength(x)
  {
    if x > 1 {
      Log2FloorBitLength(x / 2);
    }
  }

  /** `get_len_len`: floor(log2(n - 1)) + 1, the narrowest field that can hold every len < n. */
  function LenLen(n: Width): (ll: nat)
    ensures n - 1 < Pow2(ll)
    ensures ll >= 1 && Pow2(ll - 1) <= n - 1
  {
    Log2FloorBitLength(n - 1);
    BitLengthBound(n - 1, Log2Floor(n - 1) + 1);
    BitLengthBound(n - 1, Log2Floor(n - 1));
    Log2Floor(n - 1) + 1
  }

  lemma LenLenValues()
    ensures LenLen(GramsN) == 4 && LenLen(VarUInteger32N) == 5
    ensures Pow2(LenLen(GramsN)) == GramsN && Pow2(LenLen(VarUInteger32N)) == VarUInteger32N
  {
    assert Log2Floor(15) == 3;
    assert Log2Floor(31) == 4;
  }

  /** The bits `write_to_cell` produces: the length field, then the magnitude; a value needing
      n bytes or more is out of range. */
  function EncodeVarUInt(n: Width, v: int): (r: Result<seq<bool>>)
    ensures r.Err? <==> !(Abs(v) < Pow2(8 * (n - 1)))
    ensures r.Err? ==> r.error == RangeCheckError
    ensures r.Ok? ==> |r.value| == LenLen(n) + 8 * GetLen(v) && |r.value| <= LenLen(n) + 8 * (n - 1)
  {
    GetLenFits(v, n - 1);
    var len := GetLen(v);
    if len >= n then Err(RangeCheckError)
    else Ok(UIntBits(len, LenLen(n)) + UIntBits(Abs(v), 8 * len))
  }

  /** The bits `read_from_cell` consumes and the value it returns, from the remaining bits s. */
  function DecodeVarUInt(n: Width, s: seq<bool>): (r: Read<int>)
    ensures r.used <= |s|
    ensures r.result.Ok? ==> r.result.value >= 0
  {
    var ll := LenLen(n);
    var field := ReadUInt(s, ll);
    if field.result.Err? then Read(Err(CellUnderflow), 0)
    else
      var len := field.result.value;
      if len >= n then Read(Err(RangeCheckError), ll)
      else
        var bytes := ReadBits(s[ll..], 8 * len);
        if bytes.result.Err? then Read(Err(CellUnderflow), ll)
        else Read(Ok(BitsToNat(bytes.result.value)), ll + 8 * len)
  }

  /** Round trip: what the encoder writes, the decoder reads back as the magnitude, consuming
      exactly the bits written, whatever follows them. */
  lemma VarUIntRoundTrip(n: Width, v: int, rest: seq<bool>)
    requires EncodeVarUInt(n, v).Ok?
    ensures DecodeVarUInt(n, EncodeVarUInt(n, v).value + rest)
         == Read(Ok(Abs(v)), LenLen(n) + 8 * GetLen(v))
  {
    var ll, len := LenLen(n), GetLen(v);
    var a, b := UIntBits(len, ll), UIntBits(Abs(v), 8 * len);
    assert EncodeVarUInt(n, v).value == a + b;
    GetLenFits(v, n - 1);
    LenLenFits(n, len);
    UIntBitsFits(len, ll);
    UIntBitsFits(Abs(v), 8 * len);
    DecodeOfParts(n, a, b, rest);
  }

  /** A length field below n can be written in LenLen(n) bits. */
  lemma LenLenFits(n: Width, len: nat)
    requires len < n
    ensures len < Pow2(LenLen(n))
  {
    LenLenValues();
  }

  /** A length field a below n and value bits b of the length it names decode to the value,
      whatever follows. */
  lemma DecodeOfParts(n: Width, a: seq<bool>, b: seq<bool>, rest: seq<bool>)
    requires |a| == LenLen(n) && BitsToNat(a) < n && |b| == 8 * BitsToNat(a)
    ensures DecodeVarUInt(n, a + b + rest) == Read(Ok(BitsToNat(b)), |a| + |b|)
  {
    var s := a + b + rest;
    assert s[..|a|] == a;
    assert s[|a|..] == b + rest;
    assert (b + rest)[..|b|] == b;
  }

  /** Zero is a length field of zeros and nothing else. */
  lemma VarUIntZero(n: Width)
    ensures EncodeVarUInt(n, 0) == Ok(seq(LenLen(n), _ => false))
  {
    ZeroBits(LenLen(n));
    assert UIntBits(0, LenLen(n)) + UIntBits(0, 0) == UIntBits(0, LenLen(n));
  }

  /** Four zero bits are a zero amount of Grams. */
  lemma GramsZero()
    ensures EncodeVarUInt(GramsN, 0) == Ok([false, false, false, false])
  {
    VarUIntZero(GramsN);
    LenLenValues();
    assert seq(4, _ => false) == [false, false, false, false];
  }

  /** 256 needs two bytes: length 0010, then 00000001 00000000. */
  lemma Grams256()
    ensures EncodeVarUInt(GramsN, 256)
         == Ok([false, false, true, false] + [false, false, false, false, false, false, false, true]
               + [false, false, false, false, false, false, false, false])
  {
    var len := [false, false, true, false];
    var high := [false, false, false, false, false, false, false, true];
    var low := [false, false, false, false, false, false, false, false];
    LenLenValues();
    TwoBytesFor256();
    Bits256();
    assert UIntBits(2, 4) == len;
    assert EncodeVarUInt(GramsN, 256) == Ok(len + (high + low));
    assert len + (high + low) == len + high + low;
  }

  lemma TwoBytesFor256()
    ensures GetLen(256) == 2
  {
    assert BitLength(256) == 9;
  }

  lemma Bits256()
    ensures UIntBits(256, 16)
         == [false, false, false, false, false, false, false, true]
            + [false, false, false, false, false, false, false, false]
  {
    Pow2Byte();
    UIntBitsShift(1, 8, 8);
    assert UIntBits(1, 8) == [false, false, false, false, false, false, false, true];
    assert seq(8, _ => false) == [false, false, false, false, false, false, false, false];
  }

  /** The decoder never reports a range error for the two instances: n is a power of two, so
      the length field cannot hold n or more. */
  lemma DecodeNeverOutOfRange(n: Width, s: seq<bool>)
    ensures DecodeVarUInt(n, s).result != Err(RangeCheckError)
  {
    LenLenValues();
    if |s| >= LenLen(n) {
      assert BitsToNat(s[..LenLen(n)]) < Pow2(LenLen(n)) == n;
    }
  }

  /** A successful decode read a length field `len` below n, then the value from the next 8 len
      bits, which is at least as many as the value needs. */
  lemma DecodedParts(n: Width, s: seq<bool>)
    requires DecodeVarUInt(n, s).result.Ok?
    ensures var ll := LenLen(n);
            var len := BitsToNat(s[..ll]);
            && ll + 8 * len == DecodeVarUInt(n, s).used <= |s|
            && DecodeVarUInt(n, s).result.value == BitsToNat(s[ll..ll + 8 * len])
            && GetLen(DecodeVarUInt(n, s).result.value) <= len < n
  {
    var ll := LenLen(n);
    var len := BitsToNat(s[..ll]);
    assert s[ll..][..8 * len] == s[ll..ll + 8 * len];
    GetLenFits(BitsToNat(s[ll..ll + 8 * len]), len);
  }

  /** A decoded value re-encodes to the bits consumed exactly when its length field was minimal. */
  lemma VarUIntCanonical(n: Width, s: seq<bool>)
    requires DecodeVarUInt(n, s).result.Ok?
    ensures var x := DecodeVarUInt(n, s).result.value;
            EncodeVarUInt(n, x) == Ok(s[..DecodeVarUInt(n, s).used])
            <==> BitsToNat(s[..LenLen(n)]) == GetLen(x)
  {
    DecodedParts(n, s);
    var ll := LenLen(n);
    var len := BitsToNat(s[..ll]);
    var u := DecodeVarUInt(n, s).used;
    var a, b := s[..ll], s[ll..u];
    assert s[..u] == a + b;
    CanonicalParts(n, a, b);
  }

  /** A length field a and value bits b of the length it names are the encoding of the value
      exactly when that length is minimal. */
  lemma CanonicalParts(n: Width, a: seq<bool>, b: seq<bool>)
    requires |a| == LenLen(n) && BitsToNat(a) < n && |b| == 8 * BitsToNat(a)
    ensures EncodeVarUInt(n, BitsToNat(b)) == Ok(a + b) <==> BitsToNat(a) == GetLen(BitsToNat(b))
  {
    var len, x := BitsToNat(a), BitsToNat(b);
    var enc := EncodeVarUInt(n, x);
    if len == GetLen(x) {
      BitsRoundTrip(a);
      BitsRoundTrip(b);
      assert Abs(x) == x;
      assert enc == Ok(UIntBits(len, LenLen(n)) + UIntBits(x, 8 * len));
    } else if enc.Ok? {
      assert |enc.value| != |a + b|;
    }
  }

  /** The decoder accepts a non-minimal length: zero written as one zero byte. */
  lemma NonCanonicalZeroAccepted()
    ensures DecodeVarUInt(GramsN, [false, false, false, true] + seq(8, _ => false)) == Read(Ok(0), 12)
    ensures EncodeVarUInt(GramsN, 0) != Ok([false, false, false, true] + seq(8, _ => false))
  {
    var a, b := [false, false, false, true], seq(8, _ => false);
    LenLenValues();
    ZeroBits(3);
    assert a == UIntBits(1, 4);
    UIntBitsFits(1, 4);
    ZeroBits(8);
    UIntBitsFits(0, 8);
    DecodeOfParts(GramsN, a, b, []);
    assert a + b + [] == a + b;
    GramsZero();
  }

  /** Construction checks len <= n but encoding needs len < n: they disagree on exactly the values
      whose magnitude needs n bytes. */
  lemma ConstructionVersusEncodeBound(n: Width, v: int)
    ensures (CheckOverflow(n, v).Pass? && EncodeVarUInt(n, v).Err?) <==> GetLen(v) == n
  {
    GetLenFits(v, n);
    GetLenFits(v, n - 1);
  }

  /** The smallest such value exists for every instance: 2^(8n - 1). */
  lemma FullWidthValue(n: Width)
    ensures CheckOverflow(n, Pow2(8 * n - 1)).Pass?
    ensures EncodeVarUInt(n, Pow2(8 * n - 1)) == Err(RangeCheckError)
  {
    BitLengthOfPow2(8 * n - 1);
    assert GetLen(Pow2(8 * n - 1)) == n;
    ConstructionVersusEncodeBound(n, Pow2(8 * n - 1));
  }

  /** A two-digit number in base p: its digits, and a bound from its high digit. */
  lemma TwoDigits(hi: nat, lo: nat, p: nat, q: nat)
    requires lo < p
    ensures hi < q ==> hi * p + lo < q * p
    ensures hi >= q ==> hi * p + lo >= q * p
    ensures (hi * p + lo) / p == hi && (hi * p + lo) % p == lo
  {
    if hi < q {
      MulAtLeast(p, q - hi);
      assert p * (q - hi) == q * p - hi * p;
    } else if hi > q {
      MulAtLeast(p, hi - q);
      assert p * (hi - q) == hi * p - q * p;
    }
    DivModUnique(hi * p + lo, p, hi, lo);
  }

  /** The value `from_two_u128` assembles: hi shifted left by 128 bits, or-ed with lo. */
  function TwoU128(hi: nat, lo: nat): (v: nat)
    requires hi < Pow2(128) && lo < Pow2(128)
    ensures v < Pow2(256)
    ensures v / Pow2(128) == hi && v % Pow2(128) == lo
  {
    Pow2Add(128, 128);
    TwoDigits(hi, lo, Pow2(128), Pow2(128));
    hi * Pow2(128) + lo
  }

  /** For Grams `from_two_u128` succeeds exactly when the high half is zero. */
  lemma GramsFromTwoU128(hi: nat, lo: nat)
    requires hi < Pow2(128) && lo < Pow2(128)
    ensures CheckOverflow(GramsN, TwoU128(hi, lo)).Pass? <==> hi == 0
  {
    TwoDigits(hi, lo, Pow2(128), 1);
  }

  /** For VarUInteger32 `from_two_u128` always succeeds, yet a high half of 2^120 or more gives a
      value that cannot be encoded. */
  lemma VarUInteger32FromTwoU128(hi: nat, lo: nat)
    requires hi < Pow2(128) && lo < Pow2(128)
    ensures CheckOverflow(VarUInteger32N, TwoU128(hi, lo)).Pass?
    ensures EncodeVarUInt(VarUInteger32N, TwoU128(hi, lo)).Ok? <==> hi < Pow2(120)
  {
    Pow2Add(120, 128);
    TwoDigits(hi, lo, Pow2(128), Pow2(120));
  }

  /** Accumulation is unchecked: two amounts that each encode can sum to one that does not. */
  lemma AddCanLeaveRange()
    ensures EncodeVarUInt(GramsN, Pow2(119)).Ok?
    ensures EncodeVarUInt(GramsN, Pow2(119) + Pow2(119)) == Err(RangeCheckError)
  {
    assert Pow2(120) == Pow2(119) + Pow2(119);
  }

  /** `Ord::cmp` on the numbers themselves. */
  datatype Ordering = Less | Equal | Greater

  function Compare(a: int, b: int): (r: Ordering)
    ensures r == Less <==> a < b
    ensures r == Equal <==> a == b
    ensures r == Greater <==> a > b
  {
    if a < b then Less else if a == b then Equal else Greater
  }

  /** `write_to_cell`: the encoding in a new builder. */
  method WriteToCell(n: Width, v: int) returns (r: Result<Builder>)
    ensures EncodeVarUInt(n, v).Err? ==> r == Err(RangeCheckError)
    ensures EncodeVarUInt(n, v).Ok? ==>
      r.Ok? && fresh(r.value) && r.value.Valid()
      && r.value.data == EncodeVarUInt(n, v).value && r.value.refs == []
  {
    var len := GetLen(v);
    if len >= n {
      return Err(RangeCheckError);
    }
    var cell := new Builder();
    var lenWritten := cell.AppendBits(len, LenLen(n));
    assert lenWritten.Pass?;
    var magWritten := cell.AppendRaw(UIntBits(Abs(v), len * 8));
    assert magWritten.Pass?;
    return Ok(cell);
  }

  /** `read_from_cell`: the length field, its range check, then the magnitude bytes. */
  method ReadFromCell(n: Width, s: Slice) returns (r: Result<int>)
    requires s.Valid()
    modifies s`pos
    ensures s.Valid() && s.refPos == old(s.refPos)
    ensures r == DecodeVarUInt(n, old(s.Remaining())).result
    ensures s.pos == old(s.pos) + DecodeVarUInt(n, old(s.Remaining())).used
  {
    ghost var bits := s.Remaining();
    var len := s.GetNextInt(LenLen(n));
    if len.Err? {
      return Err(len.error);
    }
    if len.value >= n {
      return Err(RangeCheckError);
    }
    assert s.Remaining() == bits[LenLen(n)..];
    var bytes := s.GetNextBits(len.value * 8);
    if bytes.Err? {
      return Err(bytes.error);
    }
    r := Ok(BitsToNat(bytes.value));
  }

  /** One value of the family (`Grams`, `VarUInteger32`): a number updated in place. */
  class VarUInteger {
    const n: Width
    var value: int

    /** `zero()` and `default()`. */
    constructor Zero(n: Width)
      ensures this.n == n && value == 0
    {
      this.n := n;
      value := 0;
    }

    /** `one()`. */
    constructor One(n: Width)
      ensures this.n == n && value == 1
    {
      this.n := n;
      value := 1;
    }

    /** `From<T>`: panics with "Integer overflow" when `check_owerflow` fails, so the caller
        must pass a value of at most n bytes. */
    constructor From(n: Width, v: int)
      requires CheckOverflow(n, v).Pass?
      ensures this.n == n && value == v
    {
      this.n := n;
      value := v;
    }

    /** `from_two_u128`. */
    static method FromTwoU128(n: Width, hi: nat, lo: nat) returns (r: Result<VarUInteger>)
      requires hi < Pow2(128) && lo < Pow2(128)
      ensures r.Ok? <==> CheckOverflow(n, TwoU128(hi, lo)).Pass?
      ensures r.Err? ==> r.error == InvalidArg
      ensures r.Ok? ==> fresh(r.value) && r.value.n == n && r.value.value == TwoU128(hi, lo)
    {
      var v := TwoU128(hi, lo);
      var check := CheckOverflow(n, v);
      if check.Fail? {
        return Err(check.error);
      }
      var x := new VarUInteger.From(n, v);
      return Ok(x);
    }

    /** `is_zero`: the number whose encoding is a bare length field. */
    function IsZero(): (z: bool)
      reads this
      ensures z <==> GetLen(value) == 0
    {
      value == 0
    }

    /** `AddSub::add`: always succeeds, even when the sum no longer encodes. */
    method Add(other: VarUInteger) returns (r: Outcome)
      requires other.n == n
      modifies this`value
      ensures r == Pass && value == old(value) + old(other.value)
    {
      value := value + other.value;
      r := Pass;
    }

    /** `AddSub::sub`: subtracts only when the result stays non-negative, and says whether it did. */
    method Sub(other: VarUInteger) returns (r: Result<bool>)
      requires other.n == n
      modifies this`value
      ensures r.Ok? && (r.value <==> old(value) >= old(other.value))
      ensures value == (if r.value then old(value) - old(other.value) else old(value))
      ensures old(value) >= 0 ==> value >= 0
    {
      if value >= other.value {
        value := value - other.value;
        r := Ok(true);
      } else {
        r := Ok(false);
      }
    }

    /** `Augmentable::calc`, defined for Grams only: the running sum of the augmented map. */
    method Calc(other: VarUInteger) returns (r: Outcome)
      requires n == GramsN && other.n == n
      modifies this`value
      ensures r == Pass && value == old(value) + old(other.value)
    {
      value := value + other.value;
      r := Pass;
    }

    /** `Ord::cmp`: the numbers alone decide. */
    function Cmp(other: VarUInteger): (r: Ordering)
      reads this, other
      requires other.n == n
      ensures r == Equal <==> value == other.value
      ensures r == Less <==> value < other.value
    {
      Compare(value, other.value)
    }

    /** `PartialEq::eq`, through `cmp`. */
    function Equals(other: VarUInteger): (e: bool)
      reads this, other
      requires other.n == n
      ensures e <==> value == other.value
    {
      Cmp(other) == Equal
    }

    /** `Serializable::write_to`: the encoding is built apart, then appended whole. */
    method WriteTo(b: Builder) returns (r: Outcome)
      requires b.Valid()
      modifies b
      ensures b.Valid()
      ensures EncodeVarUInt(n, value).Err? ==>
        r == Fail(RangeCheckError) && b.data == old(b.data) && b.refs == old(b.refs)
      ensures EncodeVarUInt(n, value).Ok? ==>
        var enc := EncodeVarUInt(n, value).value;
        && r == (if |enc| <= old(b.Room()) then Pass else Fail(CellOverflow))
        && b.data == (if r.Pass? then old(b.data) + enc else old(b.data))
        && b.refs == old(b.refs)
    {
      var data := WriteToCell(n, value);
      if data.Err? {
        return Fail(data.error);
      }
      r := b.AppendBuilder(data.value);
    }

    /** `Deserializable::read_from`: the decoded value replaces this one; on failure it stays. */
    method ReadFrom(s: Slice) returns (r: Outcome)
      requires s.Valid()
      modifies this`value, s`pos
      ensures s.Valid() && s.refPos == old(s.refPos)
      ensures s.pos == old(s.pos) + DecodeVarUInt(n, old(s.Remaining())).used
      ensures DecodeVarUInt(n, old(s.Remaining())).result.Ok? ==>
        r == Pass && value == DecodeVarUInt(n, old(s.Remaining())).result.value
      ensures DecodeVarUInt(n, old(s.Remaining())).result.Err? ==>
        r == Fail(DecodeVarUInt(n, old(s.Remaining())).result.error) && value == old(value)
    {
      var x := ReadFromCell(n, s);
      if x.Err? {
        return Fail(x.error);
      }
      value := x.value;
      r := Pass;
    }
  }
}
