/** Fixed-width bounded numbers `NumberN` (N in 5, 8, 9, 12, 13, 16, 32): a 32-bit word written
    as exactly N bits, with no length field. */
module NumberN {
  import opened Bits
  import opened Cells

  /** The widths the family is instantiated with. */
  predicate IsInstance(n: nat)
  {
    n == 5 || n == 8 || n == 9 || n == 12 || n == 13 || n == 16 || n == 32
  }

  /** Every instance is at most a word wide. */
  lemma WithinWord(n: nat)
    requires IsInstance(n)
    ensures n <= 32 && Pow2(n) <= Pow2(32)
  {
    Pow2Monotone(n, 32);
  }

  /** The check of `from_u32`: the bound is the caller's, not N's. */
  function CheckBound(v: nat, max: nat): (r: Result<nat>)
    requires v < Pow2(32) && max < Pow2(32)
    ensures r.Ok? <==> v <= max
    ensures r.Ok? ==> r.value == v
    ensures r.Err? ==> r.error == InvalidArg
  {
    if v > max then Err(InvalidArg) else Ok(v)
  }

  /** `get_max_len`: the largest N-bit number, all N bits set. */
  function GetMaxLen(n: nat): (m: nat)
    requires IsInstance(n)
    ensures m < Pow2(n) && BitLength(m) == n
    ensures m < Pow2(32)
  {
    Pow2Monotone(n, 32);
    BitLengthBound(Pow2(n) - 1, n);
    BitLengthBound(Pow2(n) - 1, n - 1);
    Pow2(n) - 1
  }

  /** Every N-bit number is at most `get_max_len`, and nothing above it fits in N bits. */
  lemma MaxLenIsLargest(n: nat, v: nat)
    requires IsInstance(n)
    ensures v < Pow2(n) <==> v <= GetMaxLen(n)
  {
  }

  /** Writing N bits and reading N bits back keeps the word modulo 2^N, and consumes N bits. */
  lemma NumberRoundTrip(n: nat, v: nat, rest: seq<bool>)
    requires IsInstance(n)
    ensures ReadUInt(UIntBits(v, n) + rest, n) == Read(Ok(v % Pow2(n)), n)
  {
    ReadUIntOfBits(v, n, rest);
  }

  /** A number built with `get_max_len` as its bound reads back exactly. */
  lemma BoundedRoundTrip(n: nat, v: nat, rest: seq<bool>)
    requires IsInstance(n) && v < Pow2(32)
    requires CheckBound(v, GetMaxLen(n)).Ok?
    ensures ReadUInt(UIntBits(v, n) + rest, n) == Read(Ok(v), n)
  {
    ReadUIntOfBits(v, n, rest);
    DivModUnique(v, Pow2(n), 0, v);
  }

  /** Number5: `get_max_len` is 31, and with that bound 31 is accepted and 32 is not; but the
      caller's bound can exceed what 5 bits hold, and `from_u32(40, 100)` succeeds. */
  lemma Number5Bounds()
    ensures Pow2(5) == 32 && GetMaxLen(5) == 31
    ensures CheckBound(31, 31) == Ok(31) && CheckBound(32, 31) == Err(InvalidArg)
    ensures CheckBound(40, 100) == Ok(40)
  {
    Pow2Monotone(7, 32);
  }

  /** Number5: the 40 accepted above reads back as 8. */
  lemma Number5Truncates()
    ensures ReadUInt(UIntBits(40, 5), 5) == Read(Ok(8), 5)
  {
    NumberRoundTrip(5, 40, []);
    assert UIntBits(40, 5) + [] == UIntBits(40, 5);
  }

  /** One number (`Number5`, ..., `Number32`): a word that `read_from` replaces in place. */
  class Number {
    const n: nat
    var value: nat

    ghost predicate Valid()
      reads this
    {
      IsInstance(n) && value < Pow2(32)
    }

    /** `default()`. */
    constructor Default(n: nat)
      requires IsInstance(n)
      ensures Valid() && this.n == n && value == 0
    {
      this.n := n;
      value := 0;
    }

    /** `from_u32` as a constructor of the number. */
    static method FromU32(n: nat, v: nat, max: nat) returns (r: Result<Number>)
      requires IsInstance(n) && v < Pow2(32) && max < Pow2(32)
      ensures r.Ok? <==> v <= max
      ensures r.Err? ==> r.error == InvalidArg
      ensures r.Ok? ==> fresh(r.value) && r.value.Valid() && r.value.n == n && r.value.value == v
    {
      var checked := CheckBound(v, max);
      if checked.Err? {
        return Err(checked.error);
      }
      var x := new Number.Default(n);
      x.value := checked.value;
      return Ok(x);
    }

    /** `Serializable::write_to`: the low N bits of the word. */
    method WriteTo(b: Builder) returns (r: Outcome)
      requires Valid() && b.Valid()
      modifies b
      ensures b.Valid() && b.refs == old(b.refs)
      ensures r == (if n <= old(b.Room()) then Pass else Fail(CellOverflow))
      ensures b.data == (if r.Pass? then old(b.data) + UIntBits(value, n) else old(b.data))
    {
      r := b.AppendBits(value, n);
    }

    /** `Deserializable::read_from`: exactly N bits; on underflow the number stays. */
    method ReadFrom(s: Slice) returns (r: Outcome)
      requires Valid() && s.Valid()
      modifies this`value, s`pos
      ensures Valid() && s.Valid() && s.refPos == old(s.refPos)
      ensures r.Pass? <==> n <= |old(s.Remaining())|
      ensures r.Pass? ==> value == BitsToNat(old(s.Remaining())[..n]) && s.pos == old(s.pos) + n
      ensures r.Fail? ==> r.error == CellUnderflow && value == old(value) && s.pos == old(s.pos)
    {
      var x := s.GetNextInt(n);
      if x.Err? {
        return Fail(x.error);
      }
      WithinWord(n);
      value := x.value;
      r := Pass;
    }
  }
}
