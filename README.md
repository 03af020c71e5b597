# Value codecs of the TON block library, in Dafny

This project models `src/types.rs` of the TON block library. That file holds the small value types that
blocks, messages and accounts are built from, and their bit-exact codecs into TON cells:

- the self-describing variable-length unsigned integers over big integers. These are `Grams`, the
  currency amount with n = 16, and `VarUInteger32`. Both follow the TL-B rule
  `var_uint$_ {n:#} len:(#< n) value:(uint (len * 8))`.
- a byte-count-then-bytes scheme over machine words: `VarUInteger3` over u32 and `VarUInteger7`
  over u64. This variant refuses only words that need more than n bytes (src/types.rs:199). A word
  of exactly n bytes is therefore written with n in its length field: 3 for VarUInteger3 values in
  [2^16, 2^24), and 7 for VarUInteger7 values in [2^48, 2^56). The rule `len:(#< n)` quoted at
  src/types.rs:32 forbids this. The reader checks no range, so it accepts these encodings too.
  The model follows the code, and `VarIntegerPrim.FullLengthAccepted` proves the deviation;
- the fixed-width bounded numbers `Number5` ... `Number32`;
- the codecs of u8, u16, u32, u64, u128, i8, i16, i32, bool and `UnixTime32`;
- the adapters `InRefValue<X>` (a payload in a child cell) and `Arc<X>`;
- the `GenericId` memoized representation hash;
- `ChildCell<T>`, a structure kept serialized in a cell and decoded on demand.

A cell is modelled by its kind (ordinary, or a pruned branch of a Merkle proof), its data bits
(`seq<bool>`, most significant first) and its child cells. The builder (`BuilderData`) is a class
that appends bits and references within the capacity of one cell: 1023 bits and 4 references.
The slice (`SliceData`) is a class with a bit cursor and a reference cursor. Each encoder is
specified by a function giving the bits it appends or the error it returns. Each decoder is
specified by a function from the remaining bits to its result and the number of bits it consumes.
The methods that work on builders and slices are proved against those functions. Round-trip,
boundary and canonicity lemmas are proved about the functions.

Modules: `Bits` (bit-strings and powers of two), `Cells` (cell, builder, slice),
`VarInteger`, `VarIntegerPrim`, `NumberN`, `Scalars`, `Values` (the payload sum used by the
generic adapters, with `InRefValue` and `Arc`), `ChildCells`, `GenericIds`.

## Model

| member | source | states |
|---|---|---|
| VarInteger.GetLen | src/types.rs:51-53 | the byte count is the least l with \|v\| < 2^(8 l); it is zero exactly for zero |
| VarInteger.GetLenFits | src/types.rs:51-53 | the byte count is at most k exactly when \|v\| < 2^(8 k) |
| VarInteger.CheckOverflow | src/types.rs:81-87 | passes exactly when the magnitude fits in n bytes (len <= n); otherwise fails with InvalidArg |
| VarInteger.LenLen | src/types.rs:89-93 | floor(log2(n-1)) + 1 is the narrowest field holding every length below n |
| VarInteger.LenLenValues | src/types.rs:89-93 | the length field is 4 bits for Grams and 5 for VarUInteger32, and 2^field = n |
| VarInteger.EncodeVarUInt | src/types.rs:96-107 | fails with RangeCheckError exactly when \|v\| >= 2^(8 (n-1)), i.e. len >= n; otherwise writes get_len_len + 8 len bits |
| VarInteger.DecodeVarUInt | src/types.rs:109-115 | never consumes more than is there; a success is non-negative |
| VarInteger.DecodeOfParts | src/types.rs:109-115 | a length field below n followed by that many bytes decodes to their value, consuming both, whatever follows |
| VarInteger.DecodedParts | src/types.rs:109-115 | a success read a length field len below n and at least the value's byte count, then the value from the next 8 len bits, consuming get_len_len + 8 len bits |
| VarInteger.VarUIntRoundTrip | src/types.rs:96-115 | reading back what was written gives \|v\| and consumes exactly the bits written, whatever follows |
| VarInteger.VarUIntZero | src/types.rs:96-107 | zero is written as an all-zero length field and nothing else |
| VarInteger.GramsZero | src/types.rs:38-41 | four zero bits are a zero amount of Grams |
| VarInteger.Grams256 | src/types.rs:96-107 | 256 Grams are written as length 0010 then the bytes 00000001 00000000 |
| VarInteger.DecodeNeverOutOfRange | src/types.rs:109-113 | for n = 16 and 32 the decoder's range check can never fire, as the field cannot hold n |
| VarInteger.VarUIntCanonical | src/types.rs:109-115 | a decoded value re-encodes to exactly the consumed bits if and only if its length field was minimal |
| VarInteger.NonCanonicalZeroAccepted | src/types.rs:109-115 | zero written with a one-byte length is accepted, although the encoder never writes it |
| VarInteger.ConstructionVersusEncodeBound | src/types.rs:81-100 | construction accepts and encoding rejects exactly the values whose magnitude needs exactly n bytes |
| VarInteger.FullWidthValue | src/types.rs:81-100 | 2^(8n-1) is such a value for both instances |
| VarInteger.TwoU128 | src/types.rs:71-72 | the assembled value is below 2^256, and its high and low 128-bit halves are hi and lo |
| VarInteger.GramsFromTwoU128 | src/types.rs:71-75 | for Grams, from_two_u128 succeeds exactly when hi is zero |
| VarInteger.VarUInteger32FromTwoU128 | src/types.rs:71-75 | for VarUInteger32 it always succeeds, and the result is encodable exactly when hi < 2^120 |
| VarInteger.AddCanLeaveRange | src/types.rs:127-130 | two encodable amounts can add up to one that is not encodable |
| VarInteger.Compare | src/types.rs:142-146 | Less, Equal, Greater exactly as the numbers compare |
| VarInteger.WriteToCell | src/types.rs:96-107 | a new builder holding exactly the encoding, or RangeCheckError |
| VarInteger.ReadFromCell | src/types.rs:109-115 | result and cursor advance equal the decoder function's |
| VarInteger.VarUInteger.Zero | src/types.rs:63-65 | the value 0, which is also the default (src/types.rs:161-165) |
| VarInteger.VarUInteger.One | src/types.rs:67-69 | the value 1 |
| VarInteger.VarUInteger.From | src/types.rs:119-125 | callable only with a value that passes the overflow check, and holds that value |
| VarInteger.VarUInteger.FromTwoU128 | src/types.rs:71-75 | succeeds exactly when the assembled value passes the overflow check, with that value; else InvalidArg |
| VarInteger.VarUInteger.Add | src/types.rs:127-130 | always succeeds and adds the other value |
| VarInteger.VarUInteger.Sub | src/types.rs:132-139 | returns true and subtracts exactly when self >= other; otherwise returns false and leaves self; a non-negative value stays non-negative |
| VarInteger.VarUInteger.Calc | src/types.rs:239-244 | always succeeds and adds the other amount |
| VarInteger.VarUInteger.IsZero | src/types.rs:77-79 | true exactly for the number whose byte count is zero, i.e. whose encoding is the length field alone |
| VarInteger.VarUInteger.Equals | src/types.rs:154-158 | equality through cmp holds exactly when the numbers are equal |
| VarInteger.VarUInteger.Cmp | src/types.rs:142-158 | Equal exactly when the numbers are equal, Less exactly when smaller |
| VarInteger.VarUInteger.WriteTo | src/types.rs:167-173 | appends the whole encoding or nothing: RangeCheckError, CellOverflow, or the bits |
| VarInteger.VarUInteger.ReadFrom | src/types.rs:175-180 | replaces the value with the decoded one; on failure the value stays |
| VarIntegerPrim.LeadingZeros | src/types.rs:197-198 | leading zeros plus bit length is the word width |
| VarIntegerPrim.LenBits | src/types.rs:197 | 8 - leading_zeros(n as u8) is the narrowest field holding n |
| VarIntegerPrim.LenBitsValues | src/types.rs:236-237 | the field is 2 bits for VarUInteger3 and 3 bits for VarUInteger7 |
| VarIntegerPrim.ByteCount | src/types.rs:198 | the byte count is ceil(bit length / 8), and the word fits in that many bytes |
| VarIntegerPrim.ByteCountFits | src/types.rs:198-201 | the byte count is at most k exactly when the word is below 2^(8 k) |
| VarIntegerPrim.EncodePrim | src/types.rs:195-206 | fails with IntegerOverflow exactly when the word needs more than n bytes; otherwise field + 8 bytes bits |
| VarIntegerPrim.EncodePrimParts | src/types.rs:197-203 | an encoding fails exactly when the word needs more than n bytes; otherwise it is the byte count in the field, then the word in 8 bytes bits |
| VarIntegerPrim.LengthField | src/types.rs:202 | what the first append writes: LenBits(n) bits, the prefix of every successful encoding |
| VarIntegerPrim.DecodePrim | src/types.rs:208-215 | never consumes more than is there; its only error is underflow |
| VarIntegerPrim.DecodedPrimParts | src/types.rs:208-215 | a success read the byte count, then the value from the next 8 bytes bits, consuming both |
| VarIntegerPrim.DecodedFits | src/types.rs:208-215 | whatever is decoded is below 2^(8n) |
| VarIntegerPrim.WordHolds | src/types.rs:236-237 | 2^(8n) is below 2^width, so whatever is decoded fits the word |
| VarIntegerPrim.DecodeOfParts | src/types.rs:208-215 | a byte count followed by that many bytes decodes to their value, whatever follows |
| VarIntegerPrim.PrimRoundTrip | src/types.rs:195-215 | every encodable word reads back exactly, consuming exactly the bits written |
| VarIntegerPrim.OverflowBoundary | src/types.rs:199-201 | 2^(8n) - 1 encodes and 2^(8n) overflows, and both are words of the type |
| VarIntegerPrim.FullLengthAccepted | src/types.rs:195-215 | the least word of n bytes, 2^(8(n-1)), encodes with n itself in the length field, which `len:(#< n)` forbids, and reads back |
| VarIntegerPrim.AppendTwice | src/types.rs:202-203 | two separate appends: when the second one overflows, the first one's bits stay |
| VarIntegerPrim.WriteTo | src/types.rs:195-206 | IntegerOverflow leaves the builder; else the whole encoding, or CellOverflow with only the length field kept when it fitted |
| VarIntegerPrim.ReadFrom | src/types.rs:208-215 | result and cursor advance equal the decoder function's, including the length field consumed before an underflow |
| NumberN.CheckBound | src/types.rs:258-263 | accepts exactly the values <= the caller's bound, unchanged; otherwise InvalidArg |
| NumberN.GetMaxLen | src/types.rs:265-267 | an N-bit number whose bit length is N, below 2^32 |
| NumberN.MaxLenIsLargest | src/types.rs:265-267 | a number fits in N bits exactly when it is at most get_max_len |
| NumberN.NumberRoundTrip | src/types.rs:276-288 | N bits written, N bits read back, giving the number modulo 2^N |
| NumberN.BoundedRoundTrip | src/types.rs:258-288 | a number accepted with get_max_len as bound reads back exactly |
| NumberN.Number5Bounds | src/types.rs:258-300 | Number5: maximum 31; with bound 31, 31 accepted and 32 refused; from_u32(40, 100) accepted although 40 needs 6 bits |
| NumberN.Number5Truncates | src/types.rs:258-300 | Number5: the 40 accepted with bound 100 is written in 5 bits and read back as 8 |
| NumberN.Number.Default | src/types.rs:270-274 | the number 0 |
| NumberN.Number.FromU32 | src/types.rs:258-263 | a number holding v exactly when v <= max; else InvalidArg |
| NumberN.Number.WriteTo | src/types.rs:276-281 | appends exactly the low N bits of the word, or CellOverflow with nothing appended |
| NumberN.Number.ReadFrom | src/types.rs:283-288 | consumes exactly N bits and holds their value; on underflow nothing moves |
| Scalars.TwosComplement | src/types.rs:371-376 | the word is below 2^w, congruent to x modulo 2^w, and its top bit is the sign |
| Scalars.FromTwosComplement | src/types.rs:378-383 | the signed reading is in range, congruent to the word, and negative exactly when the top bit is set |
| Scalars.SignedRoundTrip | src/types.rs:371-383 | a signed integer survives word conversion and back |
| Scalars.WordRoundTrip | src/types.rs:378-383 | a word survives the signed reading and back |
| Scalars.EncodeSigned | src/types.rs:385-390 | w bits whose unsigned value is the two's-complement word |
| Scalars.DecodeSigned | src/types.rs:392-397 | succeeds exactly when w bits remain, consuming w bits and giving an in-range integer |
| Scalars.SignedCodecRoundTrip | src/types.rs:385-397 | i8, i16, i32 read back exactly, consuming their width |
| Scalars.UnsignedCodecRoundTrip | src/types.rs:308-320 | u8 ... u64 read back exactly, consuming their width |
| Scalars.WriteUnsigned | src/types.rs:308-362 | appends exactly the w-bit word (128 bits for u128), or CellOverflow with nothing appended |
| Scalars.ReadUnsigned | src/types.rs:315-348 | reads exactly w bits (u8 ... u64, no u128 reader), or CellUnderflow without moving |
| Scalars.WriteSigned | src/types.rs:336-390 | appends exactly the two's-complement image in w bits, or CellOverflow |
| Scalars.ReadSigned | src/types.rs:364-397 | agrees with the signed decoder for i16 and i32 |
| Scalars.ReadI8 | src/types.rs:378-383 | reading a byte and casting it to i8 agrees with the signed decoder |
| Scalars.WriteBool | src/types.rs:413-418 | appends exactly one bit, the value |
| Scalars.ReadBool | src/types.rs:420-425 | consumes exactly one bit and returns it, or CellUnderflow |
| Scalars.WriteUnixTime32 | src/types.rs:552-556 | exactly the u32 encoding |
| Scalars.ReadUnixTime32 | src/types.rs:558-562 | exactly the u32 decoding |
| Values.EncodeValue | src/types.rs:437-442 | only the two variable-length families can fail, with RangeCheckError and IntegerOverflow respectively |
| Values.EncodingFitsInCell | src/types.rs:437-442 | every encoding is at most 253 bits, so a payload always fits in a new cell |
| Values.DecodeValue | src/types.rs:430-435 | never consumes more than is there; a decoded payload has the requested kind and is within its type's range |
| Values.Normalize | src/types.rs:96-115 | reading back keeps the kind and the range; only a big integer (to its magnitude) and a NumberN (to its low N bits) change |
| Values.NormalizeIdempotent | src/types.rs:96-115 | a payload read back reads back unchanged again |
| Values.ValueRoundTrip | src/types.rs:308-442 | every encodable payload reads back normalized, consuming exactly the bits written, whatever follows |
| Values.WriteVarUInt | src/types.rs:167-173 | the number object's writer, through a fresh object |
| Values.ReadVarUInt | src/types.rs:175-180 | the number object's reader, into a fresh object |
| Values.WriteNumber | src/types.rs:276-281 | the NumberN writer, through a fresh object |
| Values.ReadNumber | src/types.rs:283-288 | the NumberN reader, into a fresh object |
| Values.WriteValue | src/types.rs:437-442 | each payload's writer: all bits or the codec's error; only the primitive variant, out of room, leaves its length field behind, exactly when that field alone fitted |
| Values.ReadValue | src/types.rs:430-435 | each payload's reader agrees with the payload decoder in result and cursor advance |
| Values.WriteToNewCell | src/types.rs:437-442 | an ordinary cell with exactly the encoding and no references, failing only with the codec's own error |
| Values.ConstructFrom | src/types.rs:430-435 | decoding from a whole cell agrees with the payload decoder on its bits |
| Values.NewCellRoundTrip | src/types.rs:427-442 | a payload written to a new cell and constructed back is the normalized payload, or the encoding error |
| Values.InRefValue.constructor | src/types.rs:428 | holds the payload |
| Values.InRefValue.WriteTo | src/types.rs:437-442 | appends exactly one reference, to the encoding's cell, and no data bits; on a codec error nothing |
| Values.InRefValue.ReadFrom | src/types.rs:430-435 | drains exactly one reference and decodes the payload from it; no reference left is CellUnderflow; a decoding error keeps the payload but not the reference |
| Values.InRefRoundTrip | src/types.rs:427-442 | a payload in a reference reads back normalized |
| Values.Arc.WriteTo | src/types.rs:451-455 | exactly the pointee's writer, failures included: the codec's error with the builder unchanged, CellOverflow with at most the primitive length field kept, or all the bits |
| Values.Arc.ReadFrom | src/types.rs:444-449 | the pointee's reader on the same slice, in a new Arc |
| ChildCells.ChildCell.Default | src/types.rs:606-610 | holds the empty ordinary cell |
| ChildCells.ChildCell.WithStruct | src/types.rs:614-621 | holds the structure's new cell, or fails with the codec's error |
| ChildCells.ChildCell.WriteStruct | src/types.rs:623-626 | the held cell becomes the new encoding, which reads back normalized; on failure it stays |
| ChildCells.ChildCell.ReadStruct | src/types.rs:628-633 | a pruned branch fails with PrunedCellAccess and the type's name before any decoding; otherwise the payload decoder on the cell's bits |
| ChildCells.ChildCell.HeldCell | src/types.rs:635-637 | the held cell with its kind, bits and references, pruned or not; only read_struct looks at the kind |
| ChildCells.ChildCell.WriteTo | src/types.rs:640-648 | a non-empty builder gets InvalidArg and is left; an empty one gets the held cell's bits and references, or CellOverflow |
| ChildCells.ChildCell.ReadFrom | src/types.rs:650-657 | a slice that has moved gets InvalidArg; otherwise its cell becomes the held one and the slice does not move |
| ChildCells.StructRoundTrip | src/types.rs:614-633 | a structure held with with_struct reads back normalized |
| ChildCells.PrunedRefused | src/types.rs:628-637 | a pruned cell is refused whatever its bits, and cell() still returns it |
| ChildCells.CellRoundTrip | src/types.rs:640-657 | an ordinary cell written to an empty builder and read from a new slice over it is held again |
| GenericIds.Identified.CalcId | src/types.rs:598-603 | the cached id when there is one, else the hash of the state |
| GenericIds.Identified.Id | src/types.rs:576-584 | returns what calc_id returned; stores a newly computed hash, and never a failure |
| GenericIds.Identified.PrepareId | src/types.rs:588-594 | hashes and stores only when nothing is cached; a hash failure is returned and nothing is stored |
| GenericIds.StaleIdAfterChange | src/types.rs:576-584 | once cached, the id survives any change of the state |
| GenericIds.PreparedIdAgrees | src/types.rs:588-603 | after prepare_id, id and calc_id both give the prepared hash, even after the state changes |

## Left out

- `define_HashmapE!` (src/types.rs:457-541) is not modelled: every operation delegates to the `HashmapE` trie engine, which is not part of this model.
- `UnixTime32::now` reads the wall clock; it is not modelled.
- The `Display` implementations are string formatting only and are not modelled.
- `get_len_len` computes `floor(log2(n - 1)) + 1` through `f64`; the model uses the integer formula, which agrees for n = 16 and n = 32.
- The representation hash behind `GenericId` is an arbitrary function of the state (`hash` in `GenericIds.Identified`), and the 256-bit id is a type parameter.
- `type_name::<T>()` is replaced by `ChildCells.TypeName`, one name per payload family: u8 ... u128 share one name, and so do Grams and VarUInteger32.
- The cell collaborator is abstract. A full builder is reported as `CellOverflow`. A short slice is reported as `CellUnderflow` and does not move. The slice has no end window, so "full cell slice" means both cursors are at zero. The cell kind of a builder's output is always ordinary, so writing a pruned cell through `ChildCell::write_to` does not keep its kind.
- Cells.Builder.AppendReference: `append_reference` reports no error, so a fifth reference is excluded by a precondition instead of being modelled.
- Values.InRefValue.WriteTo: requires room for one more reference, for the same reason as `append_reference`.
- `append_bits(v, w)` is modelled as writing the low w bits of v. Bytes (`to_bytes_be`, `append_raw`, `get_next_bytes`) are modelled as 8 bits each.
- VarInteger.VarUIntRoundTrip: a negative big integer is written as its magnitude and read back non-negative, so the round trip gives |v|, not v.
- The generic payloads `X` and `T` range over the codec types of this file (`Values.Value`), not over every `Serializable` type of the library.
- `value()`, `value_mut()` and the primitive variant's `From<u32>`/`From<u64>` are plain field access, modelled as access to the field. `is_zero()` is modelled by `VarInteger.VarUInteger.IsZero`.
- VarInteger.VarUInteger.From: the panic on a value that fails the overflow check (src/types.rs:122) is modelled as a precondition, so the panic itself is not modelled.
- `NumberN` writes and reads exactly N bits with no length prefix (src/types.rs:276-288); the model does the same.
