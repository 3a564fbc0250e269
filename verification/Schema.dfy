/**
 Packed schema types and their sizes: the bit widths and offsets the generator computes.
 */
module Schema {
  import opened Arithmetic
  import opened Bytes
  import opened BitStrings

  /** int8, uint8, int16, uint16, int32, uint32. */
  datatype CType = CType(signed: bool, width: nat)

  /** A field type that is written by one `pack_bits`. */
  datatype Leaf =
    | Bool
    | Enum(count: nat)
    | Remap(values: seq<byte>, search: bool)
    | Number(ctype: CType, raw: bool, min: Option<int>, max: Option<int>, scale: nat, explicitBits: Option<nat>)

  /** Fields are nested in their parents here; names are resolved by the layout pass. */
  datatype Type = Scalar(leaf: Leaf) | Struct(fields: seq<Field>) | Union(variants: seq<Leaf>)

  datatype Shape = Plain | Array(count: nat) | Optional

  datatype Field = Field(shape: Shape, ty: Type)

  // ---- Widths ----

  /** `compute_enum_bits`. */
  function EnumBits(count: nat): nat {
    if count <= 1 then 1 else CeilLog2(count)
  }

  /** The numeric part of `compute_field_bits`. */
  function NumberBits(leaf: Leaf): nat
    requires leaf.Number?
  {
    if leaf.explicitBits.Some? then leaf.explicitBits.value
    else if leaf.min.Some? && leaf.max.Some? then RangeBits(leaf.min.value, leaf.max.value, leaf.scale)
    else leaf.ctype.width
  }

  function RangeBits(min: int, max: int, scale: nat): nat {
    var range := (max - min) * scale + 1;
    if range <= 1 then 1 else CeilLog2(range)
  }

  /** `compute_field_bits`. */
  function LeafBits(leaf: Leaf): nat {
    match leaf
    case Bool => 1
    case Enum(count) => EnumBits(count)
    case Remap(values, _) => EnumBits(|values|)
    case Number(_, _, _, _, _, _) => NumberBits(leaf)
  }

  /** `_tag_bits`. */
  function TagBits(count: nat): nat {
    if count > 1 then (if CeilLog2(count) > 1 then CeilLog2(count) else 1) else 1
  }

  function MaxBits(variants: seq<Leaf>): nat {
    if variants == [] then 0
    else if MaxBits(variants[1..]) > LeafBits(variants[0]) then MaxBits(variants[1..])
    else LeafBits(variants[0])
  }

  /** `_total_bits`; a leaf's total is its width. */
  function TotalBits(ty: Type): nat
    decreases ty
  {
    match ty
    case Scalar(leaf) => LeafBits(leaf)
    case Struct(fields) => FieldsBits(fields)
    case Union(variants) => TagBits(|variants|) + MaxBits(variants)
  }

  function FlagBits(shape: Shape): nat {
    if shape.Optional? then 1 else 0
  }

  function Count(shape: Shape): nat {
    if shape.Array? then shape.count else 1
  }

  /** `_bits` of a field, in terms of the `_elem_bits` of its type. */
  function FieldBits(f: Field): nat
    decreases f
  {
    FlagBits(f.shape) + TotalBits(f.ty) * Count(f.shape)
  }

  function FieldsBits(fields: seq<Field>): nat
    decreases fields
  {
    if fields == [] then 0 else FieldBits(fields[0]) + FieldsBits(fields[1..])
  }

  /** `_bit_offset` of field i. */
  function BitOffset(fields: seq<Field>, i: nat): nat
    requires i <= |fields|
  {
    FieldsBits(fields[..i])
  }

  /** `_value_bit_offset` of field i. */
  function ValueBitOffset(fields: seq<Field>, i: nat): nat
    requires i < |fields|
  {
    BitOffset(fields, i) + FlagBits(fields[i].shape)
  }

  /** `_wire_size`. */
  function WireSize(ty: Type): nat {
    (TotalBits(ty) + 7) / 8
  }

  // ---- What the generator and C demand of a schema ----

  predicate WellFormedLeaf(leaf: Leaf) {
    match leaf
    case Bool => true
    case Enum(count) => 1 <= count <= 256
    case Remap(values, _) => values != [] && Distinct(values)
    case Number(ctype, _, _, _, scale, _) =>
      ctype.width in {8, 16, 32} && scale >= 1 && 1 <= NumberBits(leaf) <= 32
  }

  predicate WellFormed(ty: Type)
    decreases ty
  {
    match ty
    case Scalar(leaf) => WellFormedLeaf(leaf)
    case Struct(fields) => forall i | 0 <= i < |fields| :: WellFormedField(fields[i])
    case Union(variants) =>
      1 <= |variants| <= 0x8000_0000 && forall i | 0 <= i < |variants| :: WellFormedLeaf(variants[i])
  }

  predicate WellFormedField(f: Field)
    decreases f
  {
    WellFormed(f.ty)
  }

  // ---- Widths are the least that hold what they must ----

  predicate Holds(bits: nat, k: int) {
    0 <= k < Pow2(bits)
  }

  /** A width holds the numbers 0 .. top, and no smaller width holds them all. */
  ghost predicate IsLeastWidth(b: nat, top: nat) {
    && b >= 1
    && (forall k | 0 <= k <= top :: Holds(b, k))
    && (forall c | 1 <= c < b :: !Holds(c, top))
  }

  lemma LeastWidthOf(n: nat)
    requires n >= 2
    ensures IsLeastWidth(CeilLog2(n), n - 1)
  {
    assert Pow2(0) == 1;
  }

  /** Enum widths hold every index, and tags every variant, and are the least that do. */
  lemma EnumBitsAreLeast(count: nat)
    requires count >= 1
    ensures IsLeastWidth(EnumBits(count), count - 1)
    ensures TagBits(count) == EnumBits(count)
  {
    assert Pow2(1) == 2;
    if count > 1 {
      LeastWidthOf(count);
    }
  }

  /** How far v is above min, in wire steps. */
  function Steps(v: int, min: int, scale: nat): int {
    (v - min) * scale
  }

  /** The width derived from a declared range is the least that holds every scaled step of the range. */
  lemma DerivedWidthIsLeast(min: int, max: int, scale: nat)
    requires min <= max && scale >= 1
    ensures RangeBits(min, max, scale) >= 1
    ensures forall v | min <= v <= max :: Holds(RangeBits(min, max, scale), Steps(v, min, scale))
    ensures forall c | 1 <= c < RangeBits(min, max, scale) :: !Holds(c, Steps(max, min, scale))
  {
    var bits := RangeBits(min, max, scale);
    RangeBitsHold(min, max, scale);
    forall v | min <= v <= max
      ensures Holds(bits, Steps(v, min, scale))
    {
      MulMonotone(v - min, max - min, scale);
    }
  }

  lemma RangeBitsHold(min: int, max: int, scale: nat)
    requires min <= max && scale >= 1
    ensures RangeBits(min, max, scale) >= 1
    ensures Holds(RangeBits(min, max, scale), Steps(max, min, scale))
    ensures forall c | 1 <= c < RangeBits(min, max, scale) :: !Holds(c, Steps(max, min, scale))
  {
    MulMonotone(0, max - min, scale);
    assert Pow2(0) == 1 && Pow2(1) == 2;
  }

  /**
   The width of a number field: the given bits; or, from a range, the least width of at least one bit that holds every
   scaled step of it; or that of its type.
   */
  lemma NumberWidth(leaf: Leaf, v: int)
    requires leaf.Number?
    ensures leaf.explicitBits.Some? ==> LeafBits(leaf) == leaf.explicitBits.value
    ensures leaf.explicitBits.None? && leaf.min.Some? && leaf.max.Some? ==>
              var min, max := leaf.min.value, leaf.max.value;
              min <= max && leaf.scale >= 1 ==>
                && LeafBits(leaf) >= 1
                && (min <= v <= max ==> 0 <= (v - min) * leaf.scale < Pow2(LeafBits(leaf)))
                && (forall c | 1 <= c < LeafBits(leaf) :: Pow2(c) <= (max - min) * leaf.scale)
    ensures leaf.explicitBits.None? && (leaf.min.None? || leaf.max.None?) ==> LeafBits(leaf) == leaf.ctype.width
  {
    hide RangeBits, Pow2;
    if leaf.explicitBits.None? && leaf.min.Some? && leaf.max.Some? {
      var min, max, bits := leaf.min.value, leaf.max.value, LeafBits(leaf);
      if min <= max && leaf.scale >= 1 {
        DerivedWidthIsLeast(min, max, leaf.scale);
        assert min <= v <= max ==> Holds(bits, Steps(v, min, leaf.scale));
        MulMonotone(0, max - min, leaf.scale);
        forall c | 1 <= c < bits
          ensures Pow2(c) <= (max - min) * leaf.scale
        {
          assert !Holds(c, Steps(max, min, leaf.scale));
        }
      }
    }
  }

  /** The widths of the other leaves: one bit for a bool, the least width of their indices for enums. */
  lemma IndexWidth(leaf: Leaf)
    ensures leaf.Bool? ==> LeafBits(leaf) == 1
    ensures leaf.Enum? && leaf.count >= 1 ==> IsLeastWidth(LeafBits(leaf), leaf.count - 1)
    ensures leaf.Remap? && |leaf.values| >= 1 ==> IsLeastWidth(LeafBits(leaf), |leaf.values| - 1)
  {
    hide EnumBits;
    if leaf.Enum? && leaf.count >= 1 {
      EnumBitsAreLeast(leaf.count);
    } else if leaf.Remap? && |leaf.values| >= 1 {
      EnumBitsAreLeast(|leaf.values|);
    }
  }

  /** The payload region of a union is as wide as its widest variant, after a tag of the least width. */
  lemma {:induction false} UnionWidth(variants: seq<Leaf>)
    requires variants != []
    ensures exists i :: 0 <= i < |variants| && LeafBits(variants[i]) == MaxBits(variants)
    ensures TotalBits(Union(variants)) >= MaxBits(variants)
    ensures IsLeastWidth(TotalBits(Union(variants)) - MaxBits(variants), |variants| - 1)
  {
    hide LeafBits, EnumBits;
    EnumBitsAreLeast(|variants|);
    assert IsLeastWidth(TagBits(|variants|), |variants| - 1);
    hide TagBits;
    if |variants| > 1 && MaxBits(variants[1..]) > LeafBits(variants[0]) {
      UnionWidth(variants[1..]);
      var i :| 0 <= i < |variants[1..]| && LeafBits(variants[1..][i]) == MaxBits(variants[1..]);
      assert LeafBits(variants[i + 1]) == MaxBits(variants);
    } else {
      assert LeafBits(variants[0]) == MaxBits(variants);
    }
  }

  /** The wire size is the least number of bytes that hold all bits. */
  lemma WireSizeIsLeast(ty: Type)
    ensures 8 * WireSize(ty) - 8 < TotalBits(ty) <= 8 * WireSize(ty)
  {
    hide TotalBits;
  }

  lemma {:induction false} VariantFits(variants: seq<Leaf>, i: nat)
    requires i < |variants|
    ensures LeafBits(variants[i]) <= MaxBits(variants)
    decreases |variants|
  {
    if i > 0 {
      VariantFits(variants[1..], i - 1);
    }
  }

  // ---- Layout ----

  lemma {:induction false} FieldsBitsConcat(a: seq<Field>, b: seq<Field>)
    ensures FieldsBits(a + b) == FieldsBits(a) + FieldsBits(b)
    decreases |a|
  {
    if a == [] {
      assert a + b == b;
    } else {
      assert (a + b)[1..] == a[1..] + b;
      FieldsBitsConcat(a[1..], b);
    }
  }

  /** Each offset is the previous one plus the previous field's bits. */
  lemma NextOffset(fields: seq<Field>, i: nat)
    requires i < |fields|
    ensures BitOffset(fields, i + 1) == BitOffset(fields, i) + FieldBits(fields[i])
  {
    assert fields[..i + 1] == fields[..i] + [fields[i]];
    FieldsBitsConcat(fields[..i], [fields[i]]);
    assert FieldsBits([fields[i]]) == FieldBits(fields[i]);
  }

  lemma {:induction false} OffsetsGrow(fields: seq<Field>, i: nat, j: nat)
    requires i <= j <= |fields|
    ensures BitOffset(fields, i) <= BitOffset(fields, j)
    ensures i < j ==> BitOffset(fields, i) + FieldBits(fields[i]) <= BitOffset(fields, j)
    decreases j - i
  {
    if i < j {
      NextOffset(fields, i);
      OffsetsGrow(fields, i + 1, j);
    }
  }

  /** A piece of a struct's wire image: a presence bit, or one element of a field. */
  datatype Piece = Presence(field: nat) | Element(field: nat, index: nat)

  predicate IsPiece(fields: seq<Field>, p: Piece) {
    && p.field < |fields|
    && (p.Presence? ==> fields[p.field].shape.Optional?)
    && (p.Element? ==> p.index < Count(fields[p.field].shape))
  }

  /** Where the templates put a piece. */
  function PieceAt(fields: seq<Field>, p: Piece): nat
    requires IsPiece(fields, p)
  {
    match p
    case Presence(i) => BitOffset(fields, i)
    case Element(i, j) => ValueBitOffset(fields, i) + j * TotalBits(fields[i].ty)
  }

  function PieceBits(fields: seq<Field>, p: Piece): nat
    requires IsPiece(fields, p)
  {
    if p.Presence? then 1 else TotalBits(fields[p.field].ty)
  }

  predicate Covers(fields: seq<Field>, p: Piece, k: nat) {
    IsPiece(fields, p) && PieceAt(fields, p) <= k < PieceAt(fields, p) + PieceBits(fields, p)
  }

  /** A piece lies inside its field. */
  lemma PieceInField(fields: seq<Field>, p: Piece)
    requires IsPiece(fields, p)
    ensures BitOffset(fields, p.field) <= PieceAt(fields, p)
    ensures PieceAt(fields, p) + PieceBits(fields, p) <= BitOffset(fields, p.field) + FieldBits(fields[p.field])
  {
    hide FieldsBits, TotalBits;
    var f := fields[p.field];
    if p.Element? {
      SlotEnds(p.index, Count(f.shape), TotalBits(f.ty));
    }
  }

  /** The pieces of a struct tile its bits: every bit below the total belongs to exactly one piece, and none beyond. */
  lemma LayoutTiles(fields: seq<Field>, k: nat)
    ensures k < FieldsBits(fields) ==>
              exists p :: Covers(fields, p, k) && forall q | Covers(fields, q, k) :: q == p
    ensures k >= FieldsBits(fields) ==> forall p :: !Covers(fields, p, k)
  {
    if k < FieldsBits(fields) {
      var p := Owner(fields, k);
      forall q | Covers(fields, q, k)
        ensures q == p
      {
        SamePiece(fields, p, q, k);
      }
    }
    forall p | IsPiece(fields, p)
      ensures PieceAt(fields, p) + PieceBits(fields, p) <= FieldsBits(fields)
    {
      PieceInField(fields, p);
      OffsetsGrow(fields, p.field, |fields|);
      assert fields[..|fields|] == fields;
    }
  }

  /** The piece a bit belongs to. */
  lemma Owner(fields: seq<Field>, k: nat) returns (p: Piece)
    requires k < FieldsBits(fields)
    ensures Covers(fields, p, k)
  {
    hide FieldsBits, TotalBits;
    assert fields[..|fields|] == fields;
    var i := FieldAt(fields, |fields|, k);
    NextOffset(fields, i);
    var f := fields[i];
    var r := k - BitOffset(fields, i);
    if r < FlagBits(f.shape) {
      return Presence(i);
    }
    var j := SlotOf(r - FlagBits(f.shape), TotalBits(f.ty), Count(f.shape));
    return Element(i, j);
  }

  /** The field a bit below the i-th offset belongs to. */
  lemma {:induction false} FieldAt(fields: seq<Field>, n: nat, k: nat) returns (i: nat)
    requires n <= |fields| && k < BitOffset(fields, n)
    ensures i < n && BitOffset(fields, i) <= k < BitOffset(fields, i + 1)
    decreases n
  {
    assert n > 0 by {
      assert fields[..0] == [];
    }
    if k >= BitOffset(fields, n - 1) {
      i := n - 1;
    } else {
      i := FieldAt(fields, n - 1, k);
    }
  }

  lemma SamePiece(fields: seq<Field>, p: Piece, q: Piece, k: nat)
    requires Covers(fields, p, k) && Covers(fields, q, k)
    ensures p == q
  {
    PieceInField(fields, p);
    PieceInField(fields, q);
    if p.field < q.field {
      OffsetsGrow(fields, p.field, q.field);
    } else if q.field < p.field {
      OffsetsGrow(fields, q.field, p.field);
    }
    assert p.field == q.field;
    if p.Element? && q.Element? {
      var e := TotalBits(fields[p.field].ty);
      SameSlot(p.index, q.index, e, k - ValueBitOffset(fields, p.field));
    }
  }
}
