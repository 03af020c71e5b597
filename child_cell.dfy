/** `ChildCell<T>`: a structure kept serialized in a cell of its own and decoded on demand. A
    cell left pruned in a Merkle proof is recognised before any decoding is attempted. */
module ChildCells {
  import opened Cells
  import opened Values

  /** `std::any::type_name::<T>()`: a name per payload kind, carried by the pruned-access error. */
  function TypeName(k: Kind): string
  {
    match k
    case KUnsigned(_) => "unsigned"
    case KSigned(_) => "signed"
    case KBool => "bool"
    case KVarUInt(_) => "VarUInteger"
    case KVarUIntPrim(_, _) => "VarUIntegerPrim"
    case KNumber(_) => "NumberN"
    case KUnixTime32 => "UnixTime32"
  }

  class ChildCell {
    const tag: Kind
    var cell: Cell

    ghost predicate Valid()
    {
      Readable(tag)
    }

    /** `default()`: the empty ordinary cell. */
    constructor Default(tag: Kind)
      requires Readable(tag)
      ensures Valid() && this.tag == tag && cell == EmptyCell
    {
      this.tag := tag;
      cell := EmptyCell;
    }

    /** `with_struct`: the structure written to a new cell, which is then held. */
    static method WithStruct(v: Value) returns (r: Result<ChildCell>)
      requires WellFormed(v) && Readable(KindOf(v))
      ensures r.Ok? <==> EncodeValue(v).Ok?
      ensures r.Ok? ==> fresh(r.value) && r.value.Valid() && r.value.tag == KindOf(v)
                        && r.value.cell == Cell(Ordinary, EncodeValue(v).value, [])
      ensures r.Err? ==> r.error == EncodeValue(v).error
    {
      var c := WriteToNewCell(v);
      if c.Err? {
        return Err(c.error);
      }
      var child := new ChildCell.Default(KindOf(v));
      child.cell := c.value;
      return Ok(child);
    }

    /** `write_struct`: the held cell is replaced by the new encoding; on failure it stays. */
    method WriteStruct(v: Value) returns (r: Outcome)
      requires Valid() && WellFormed(v) && KindOf(v) == tag
      modifies this`cell
      ensures r.Pass? <==> EncodeValue(v).Ok?
      ensures r.Pass? ==> cell == Cell(Ordinary, EncodeValue(v).value, [])
                          && DecodeValue(tag, cell.data).result == Ok(Normalize(v))
      ensures r.Fail? ==> r.error == EncodeValue(v).error && cell == old(cell)
    {
      var c := WriteToNewCell(v);
      if c.Err? {
        return Fail(c.error);
      }
      ValueRoundTrip(v, []);
      assert EncodeValue(v).value + [] == EncodeValue(v).value;
      cell := c.value;
      r := Pass;
    }

    /** `read_struct`: a pruned branch is refused by kind alone; otherwise the structure is
        constructed from the whole held cell. */
    method ReadStruct() returns (r: Result<Value>)
      requires Valid()
      ensures cell.kind == PrunedBranch ==> r == Err(PrunedCellAccess(TypeName(tag)))
      ensures cell.kind == Ordinary ==> r == DecodeValue(tag, cell.data).result
      ensures r.Ok? ==> KindOf(r.value) == tag && WellFormed(r.value)
    {
      if cell.kind == PrunedBranch {
        return Err(PrunedCellAccess(TypeName(tag)));
      }
      r := ConstructFrom(tag, cell);
    }

    /** `cell()`: the held cell, pruned or not; only `ReadStruct` looks at its kind. */
    function HeldCell(): (c: Cell)
      reads this
      ensures c.kind == PrunedBranch <==> cell.kind == PrunedBranch
      ensures c.data == cell.data && c.refs == cell.refs
    {
      cell
    }

    /** `Serializable::write_to`: only into an empty builder, which receives the held cell's
        bits and references. */
    method WriteTo(b: Builder) returns (r: Outcome)
      requires b.Valid()
      modifies b
      ensures b.Valid()
      ensures !old(b.IsEmpty()) ==> r == Fail(InvalidArg) && b.data == old(b.data) && b.refs == old(b.refs)
      ensures old(b.IsEmpty()) ==>
        && r == (if |cell.data| <= MaxDataBits && |cell.refs| <= MaxRefs then Pass else Fail(CellOverflow))
        && b.data == (if r.Pass? then cell.data else [])
        && b.refs == (if r.Pass? then cell.refs else [])
    {
      if !b.IsEmpty() {
        return Fail(InvalidArg);
      }
      r := b.AppendCellContents(cell);
    }

    /** `Deserializable::read_from`: only from an untouched slice, whose cell becomes the held
        one; the slice itself does not move. */
    method ReadFrom(s: Slice) returns (r: Outcome)
      requires s.Valid()
      modifies this`cell
      ensures !s.IsFullCellSlice() ==> r == Fail(InvalidArg) && cell == old(cell)
      ensures s.IsFullCellSlice() ==> r == Pass && cell == s.cell
    {
      if !s.IsFullCellSlice() {
        return Fail(InvalidArg);
      }
      cell := s.cell;
      r := Pass;
    }
  }

  /** A structure held with `with_struct` reads back normalized. */
  method StructRoundTrip(v: Value) returns (r: Result<Value>)
    requires WellFormed(v) && Readable(KindOf(v)) && EncodeValue(v).Ok?
    ensures r == Ok(Normalize(v))
  {
    var child := ChildCell.WithStruct(v);
    ValueRoundTrip(v, []);
    assert EncodeValue(v).value + [] == EncodeValue(v).value;
    r := child.value.ReadStruct();
  }

  /** A pruned branch is refused whatever its bits would decode to, and stays inspectable. */
  method PrunedRefused(tag: Kind, data: seq<bool>, refs: seq<Cell>) returns (r: Result<Value>, held: Cell)
    requires Readable(tag)
    ensures r == Err(PrunedCellAccess(TypeName(tag)))
    ensures held == Cell(PrunedBranch, data, refs)
  {
    var child := new ChildCell.Default(tag);
    var s := new Slice(Cell(PrunedBranch, data, refs));
    var adopted := child.ReadFrom(s);
    r := child.ReadStruct();
    held := child.HeldCell();
  }

  /** Writing a held ordinary cell into an empty builder and reading it back from a fresh slice
      over the result holds the same cell again. */
  method CellRoundTrip(tag: Kind, c: Cell) returns (r: Result<Cell>)
    requires Readable(tag)
    ensures c.kind == Ordinary && |c.data| <= MaxDataBits && |c.refs| <= MaxRefs ==> r == Ok(c)
    ensures !(|c.data| <= MaxDataBits && |c.refs| <= MaxRefs) ==> r == Err(CellOverflow)
  {
    var child := new ChildCell.Default(tag);
    child.cell := c;
    var b := new Builder();
    var written := child.WriteTo(b);
    if written.Fail? {
      return Err(written.error);
    }
    var s := new Slice(b.ToCell());
    var other := new ChildCell.Default(tag);
    var read := other.ReadFrom(s);
    r := Ok(other.cell);
  }
}
