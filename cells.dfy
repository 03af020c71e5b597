/** The cell collaborator that every codec writes to and reads from: an immutable cell value,
    a builder that appends to a bit-string and a list of child references, and a slice that
    drains them from the front. Only the behaviour the codecs rely on is modelled. */
module Cells {
  import opened Bits

  /** Capacity of one cell: 1023 data bits and four references. */
  const MaxDataBits: nat := 1023
  const MaxRefs: nat := 4

  /** The failures the codecs return: those of the cell layer (overflow of the builder,
      underflow of the slice) and those the codecs raise themselves. */
  datatype Error =
    | CellOverflow
    | CellUnderflow
    | RangeCheckError
    | IntegerOverflow
    | InvalidArg
    | PrunedCellAccess(typeName: string)

  datatype Result<T> = Ok(value: T) | Err(error: Error)

  datatype Outcome = Pass | Fail(error: Error)

  /** What a decoder produces from the remaining bits of a slice: its result, and how many bits
      it consumed (also when it failed part-way). */
  datatype Read<T> = Read(result: Result<T>, used: nat)

  /** An ordinary cell, or a pruned-branch stub left in a Merkle proof in place of a subtree. */
  datatype CellKind = Ordinary | PrunedBranch

  datatype Cell = Cell(kind: CellKind, data: seq<bool>, refs: seq<Cell>)

  const EmptyCell: Cell := Cell(Ordinary, [], [])

  /** Taking w bits from the front of s. */
  function ReadBits(s: seq<bool>, w: nat): (r: Read<seq<bool>>)
    ensures r.result.Ok? <==> w <= |s|
    ensures r.result.Ok? ==> r.used == w && |r.result.value| == w && r.result.value + s[w..] == s
    ensures r.result.Err? ==> r.result.error == CellUnderflow && r.used == 0
  {
    if w <= |s| then Read(Ok(s[..w]), w) else Read(Err(CellUnderflow), 0)
  }

  /** Taking a w-bit unsigned integer from the front of s (`get_next_int`). */
  function ReadUInt(s: seq<bool>, w: nat): (r: Read<nat>)
    ensures r.result.Ok? <==> w <= |s|
    ensures r.result.Ok? ==> r.used == w && r.result.value < Pow2(w)
    ensures r.result.Err? ==> r.result.error == CellUnderflow && r.used == 0
  {
    if w <= |s| then Read(Ok(BitsToNat(s[..w])), w) else Read(Err(CellUnderflow), 0)
  }

  /** Reading back a w-bit image of v, followed by anything. */
  lemma ReadUIntOfBits(v: nat, w: nat, rest: seq<bool>)
    ensures ReadUInt(UIntBits(v, w) + rest, w) == Read(Ok(v % Pow2(w)), w)
  {
    assert (UIntBits(v, w) + rest)[..w] == UIntBits(v, w);
    UIntBitsRoundTrip(v, w);
  }

  /** The builder (`BuilderData`). */
  class Builder {
    var data: seq<bool>
    var refs: seq<Cell>

    ghost predicate Valid()
      reads this
    {
      |data| <= MaxDataBits && |refs| <= MaxRefs
    }

    constructor ()
      ensures Valid() && data == [] && refs == []
    {
      data := [];
      refs := [];
    }

    /** Data bits still free in this builder. */
    function Room(): nat
      reads this
      requires Valid()
    {
      MaxDataBits - |data|
    }

    predicate IsEmpty()
      reads this
    {
      data == [] && refs == []
    }

    /** Finishing the builder into an ordinary cell. */
    function ToCell(): Cell
      reads this
    {
      Cell(Ordinary, data, refs)
    }

    /** `append_raw`: all bits or none. */
    method AppendRaw(bits: seq<bool>) returns (r: Outcome)
      requires Valid()
      modifies this
      ensures Valid() && refs == old(refs)
      ensures r == (if |bits| <= old(Room()) then Pass else Fail(CellOverflow))
      ensures data == (if r.Pass? then old(data) + bits else old(data))
    {
      if |data| + |bits| <= MaxDataBits {
        data := data + bits;
        r := Pass;
      } else {
        r := Fail(CellOverflow);
      }
    }

    /** `append_bits`: the low w bits of v, most significant first. */
    method AppendBits(v: nat, w: nat) returns (r: Outcome)
      requires Valid()
      modifies this
      ensures Valid() && refs == old(refs)
      ensures r == (if w <= old(Room()) then Pass else Fail(CellOverflow))
      ensures data == (if r.Pass? then old(data) + UIntBits(v, w) else old(data))
    {
      r := AppendRaw(UIntBits(v, w));
    }

    /** `append_reference`: the collaborator reports no error, so there must be room. */
    method AppendReference(c: Cell)
      requires Valid() && |refs| < MaxRefs
      modifies this
      ensures Valid() && data == old(data) && refs == old(refs) + [c]
    {
      refs := refs + [c];
    }

    /** `append_builder`: the other builder's bits and references, all or nothing. */
    method AppendBuilder(other: Builder) returns (r: Outcome)
      requires Valid() && other != this
      modifies this
      ensures Valid()
      ensures r == (if |old(data)| + |other.data| <= MaxDataBits && |old(refs)| + |other.refs| <= MaxRefs
                    then Pass else Fail(CellOverflow))
      ensures data == (if r.Pass? then old(data) + other.data else old(data))
      ensures refs == (if r.Pass? then old(refs) + other.refs else old(refs))
    {
      if |data| + |other.data| <= MaxDataBits && |refs| + |other.refs| <= MaxRefs {
        data, refs := data + other.data, refs + other.refs;
        r := Pass;
      } else {
        r := Fail(CellOverflow);
      }
    }

    /** `checked_append_references_and_data`: a whole cell's bits and references, all or nothing. */
    method AppendCellContents(c: Cell) returns (r: Outcome)
      requires Valid()
      modifies this
      ensures Valid()
      ensures r == (if |old(data)| + |c.data| <= MaxDataBits && |old(refs)| + |c.refs| <= MaxRefs
                    then Pass else Fail(CellOverflow))
      ensures data == (if r.Pass? then old(data) + c.data else old(data))
      ensures refs == (if r.Pass? then old(refs) + c.refs else old(refs))
    {
      if |data| + |c.data| <= MaxDataBits && |refs| + |c.refs| <= MaxRefs {
        data, refs := data + c.data, refs + c.refs;
        r := Pass;
      } else {
        r := Fail(CellOverflow);
      }
    }
  }

  /** The slice (`SliceData`): a cursor over one cell's bits and references. */
  class Slice {
    const cell: Cell
    var pos: nat
    var refPos: nat

    ghost predicate Valid()
      reads this
    {
      pos <= |cell.data| && refPos <= |cell.refs|
    }

    constructor (c: Cell)
      ensures Valid() && cell == c && pos == 0 && refPos == 0
    {
      cell := c;
      pos, refPos := 0, 0;
    }

    /** The bits not yet consumed. */
    function Remaining(): seq<bool>
      reads this
      requires Valid()
    {
      cell.data[pos..]
    }

    /** `is_full_cell_slice`: nothing of the cell has been consumed. */
    predicate IsFullCellSlice()
      reads this
    {
      pos == 0 && refPos == 0
    }

    /** `get_next_bits` / `get_next_bytes`: fails without moving when too few bits remain. */
    method GetNextBits(w: nat) returns (r: Result<seq<bool>>)
      requires Valid()
      modifies this`pos
      ensures Valid()
      ensures r == ReadBits(old(Remaining()), w).result
      ensures pos == old(pos) + ReadBits(old(Remaining()), w).used
    {
      if w <= |cell.data| - pos {
        assert cell.data[pos..][..w] == cell.data[pos..pos + w];
        r := Ok(cell.data[pos..pos + w]);
        pos := pos + w;
      } else {
        r := Err(CellUnderflow);
      }
    }

    /** `get_next_int` and the fixed-width readers built on it. */
    method GetNextInt(w: nat) returns (r: Result<nat>)
      requires Valid()
      modifies this`pos
      ensures Valid()
      ensures r == ReadUInt(old(Remaining()), w).result
      ensures pos == old(pos) + ReadUInt(old(Remaining()), w).used
    {
      var bits := GetNextBits(w);
      if bits.Ok? {
        r := Ok(BitsToNat(bits.value));
      } else {
        r := Err(bits.error);
      }
    }

    /** `checked_drain_reference`: the next child, or an underflow when none is left. */
    method DrainReference() returns (r: Result<Cell>)
      requires Valid()
      modifies this`refPos
      ensures Valid()
      ensures old(refPos) < |cell.refs| ==> r == Ok(cell.refs[old(refPos)]) && refPos == old(refPos) + 1
      ensures old(refPos) >= |cell.refs| ==> r == Err(CellUnderflow) && refPos == old(refPos)
    {
      if refPos < |cell.refs| {
        r := Ok(cell.refs[refPos]);
        refPos := refPos + 1;
      } else {
        r := Err(CellUnderflow);
      }
    }
  }
}
