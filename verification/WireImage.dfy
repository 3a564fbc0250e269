/**
 What is on the wire, number by number: the bits of a byte, the number that each leaf is written as,
 and where every presence bit, element, tag and payload of a packed value stands.
 */
module WireImage {
  import opened Arithmetic
  import opened Bytes
  import BitVectors
  import opened BitStrings
  import opened Schema
  import opened LeafCodec
  import opened Codec
  import opened MessageCodec
  import GeneratedCodec
  import RemapTables

  // ---- Bytes ----

  lemma HalveVector(v: bv8, half: bv8)
    requires half == v >> 1
    ensures v as int == 2 * (half as int) + (if BitVectors.Bit(v, 0) then 1 else 0)
  {
  }

  lemma {:induction false} VectorIsItsBits(v: bv8, s: seq<bool>)
    requires |s| <= 8 && v as int < Pow2(|s|)
    requires forall k: nat | k < |s| :: s[k] == BitVectors.Bit(v, k)
    ensures ToNat(s) == v as int
    decreases |s|
  {
    hide BitVectors.Bit, Pow2;
    Pow2OfWords();
    if s != [] {
      assert Pow2(|s|) == 2 * Pow2(|s| - 1) by { HalfPow(|s|); }
      var half := v >> 1;
      HalveVector(v, half);
      forall k: nat | k < |s[1..]|
        ensures s[1..][k] == BitVectors.Bit(half, k)
      {
        BitVectors.BitOfShift(v, k);
      }
      VectorIsItsBits(half, s[1..]);
    }
  }

  /** Byte i of a buffer is the number of its eight bits, the first one the least significant. */
  lemma BytesAreTheirBits(buf: seq<byte>, i: nat)
    requires i < |buf|
    ensures ToNat(Window(buf, 8 * i, 8)) == buf[i] as int
  {
    hide BitVectors.Bit, ToNat, Pow2;
    Pow2OfWords();
    var v := Vector(buf[i]);
    Conversion(buf[i]);
    forall k: nat | k < 8
      ensures Window(buf, 8 * i, 8)[k] == BitVectors.Bit(v, k)
    {
      DivideUnique(8 * i + k, 8, i, k);
    }
    VectorIsItsBits(v, Window(buf, 8 * i, 8));
  }

  lemma Conversion(b: byte)
    ensures Vector(b) as int == b as int
  {
    FromVectorOfVector(b);
  }

  // ---- Leaves ----

  /** The number that a value of the leaf is written as, before it is cut to the width of the leaf. */
  lemma LeafIsWrittenAs(target: Target, leaf: Leaf, v: Value)
    requires WellFormedLeaf(leaf) && Matches(target, leaf, v)
    ensures var w := ToNat(EncodeLeaf(target, leaf, v));
      match leaf
      case Bool => w == if v.b then 1 else 0
      case Enum(_) => w == v.n
      case Remap(values, _) => w < |values| && (if target.C? then values[w] as int == v.n else w == v.n)
      case Number(_, raw, min, _, scale, _) =>
        var least := if min.Some? then min.value else 0;
        w == (if raw then v.n - least * scale else (v.n - least) * scale) % Pow2(LeafBits(leaf))
  {
    hide Pow2, LowBits, ToNat, EnumBits, NumberBits, InType, U32;
    LeafBitsBound(leaf);
    ToNatOfLowBits(Wire(target, leaf, v), LeafBits(leaf));
    match leaf
    case Bool => Pow2OfWords(); DivideUnique(Wire(target, leaf, v), 2, 0, Wire(target, leaf, v));
    case Enum(count) => IndexIsWritten(count, v.n);
    case Remap(values, _) => IndexIsWritten(|values|, Wire(target, leaf, v));
    case Number(_, _, _, _, _, _) => WireIsResidue(Scaled(leaf, v.n), LeafBits(leaf));
  }

  lemma IndexIsWritten(count: nat, i: nat)
    requires i < count
    ensures i % Pow2(EnumBits(count)) == i
  {
    hide Pow2, EnumBits;
    EnumBitsAreLeast(count);
    assert Holds(EnumBits(count), i);
    DivideUnique(i, Pow2(EnumBits(count)), 0, i);
  }

  /** What a number that no value is written as is read as: an enum's default in Rust, the number itself in C. */
  lemma UnknownIndexIsReadAs(element: bool, leaf: Leaf, w: nat)
    requires WellFormedLeaf(leaf) && w < 0x1_0000_0000
    requires (leaf.Enum? && w >= leaf.count) || (leaf.Remap? && w >= |leaf.values|)
    ensures FromWire(Rust, element, leaf, w) == Int(0)
    ensures FromWire(C, element, leaf, w) == if leaf.Enum? then Int(w) else Unset
  {
  }

  // ---- Structs ----

  /** The bits of field i. */
  lemma FieldIsAt(target: Target, fields: seq<Field>, values: seq<FieldValue>, i: nat)
    requires FieldsConform(target, fields, values) && i < |fields|
    ensures BitOffset(fields, i) + FieldBits(fields[i]) <= |EncodeFields(target, fields, values)|
    ensures EncodeFields(target, fields, values)[BitOffset(fields, i)..][..FieldBits(fields[i])] ==
            EncodeField(target, fields[i], values[i])
  {
    hide FieldConforms, EncodeField, FieldBits, EncodeFields, FieldsBits;
    GeneratedCodec.OneMoreField(target, fields, values, i);
    GeneratedCodec.FieldFitsBuffer(fields, i);
    var a, c := fields[..i + 1], fields[i + 1..];
    assert fields == a + c && values == values[..i + 1] + values[i + 1..];
    EncodeFieldsConcat(target, a, c, values[..i + 1], values[i + 1..]);
  }

  /** The bits of element j of an array. */
  lemma {:induction false} ElementIsAt(target: Target, ty: Type, values: seq<Value>, j: nat)
    requires AllConform(target, ty, values) && j < |values|
    ensures 0 <= j * TotalBits(ty) && j * TotalBits(ty) + TotalBits(ty) <= |EncodeAll(target, ty, values)|
    ensures EncodeAll(target, ty, values)[j * TotalBits(ty)..][..TotalBits(ty)] == Encode(target, ty, values[j])
    decreases |values|
  {
    hide Conforms, Encode, EncodeAll, TotalBits;
    EncodeAllStep(target, ty, values);
    var e, s := TotalBits(ty), EncodeAll(target, ty, values);
    SlotEnds(j, |values|, e);
    if j > 0 {
      ElementIsAt(target, ty, values[1..], j - 1);
      OneMore(j - 1, e);
      assert s[j * e..] == s[e..][(j - 1) * e..];
    }
  }

  /** The bits of element j of a field: the one of a plain or present value is 0, an absent one is all zeros. */
  function ElementValue(target: Target, f: Field, fv: FieldValue, j: nat): seq<bool>
    requires FieldConforms(target, f, fv) && j < Count(f.shape)
  {
    match fv
    case One(v) => Encode(target, f.ty, v)
    case Many(vs) => Encode(target, f.ty, vs[j])
    case Present(v) => Encode(target, f.ty, v)
    case Absent => Zeros(TotalBits(f.ty))
  }

  /** What a piece of the layout holds: the presence bit of its field, or the bits of its element. */
  function PieceValue(target: Target, fields: seq<Field>, values: seq<FieldValue>, p: Piece): seq<bool>
    requires FieldsConform(target, fields, values) && IsPiece(fields, p)
  {
    assert FieldConforms(target, fields[p.field], values[p.field]);
    match p
    case Presence(i) => [values[i].Present?]
    case Element(i, j) => ElementValue(target, fields[i], values[i], j)
  }

  /**
   Every piece of a struct stands where the layout puts it and holds its value; and the pieces are all there is
   (Schema.LayoutTiles).
   */
  lemma PieceIsAt(target: Target, fields: seq<Field>, values: seq<FieldValue>, p: Piece)
    requires FieldsConform(target, fields, values) && IsPiece(fields, p)
    ensures PieceAt(fields, p) + PieceBits(fields, p) <= |EncodeFields(target, fields, values)|
    ensures EncodeFields(target, fields, values)[PieceAt(fields, p)..][..PieceBits(fields, p)] ==
            PieceValue(target, fields, values, p)
  {
    hide EncodeFields, EncodeField, FieldConforms, FieldBits, BitOffset, PieceAt, PieceBits, PieceValue;
    var i := p.field;
    var f, s := fields[i], EncodeFields(target, fields, values);
    PieceInField(fields, p);
    FieldIsAt(target, fields, values, i);
    SliceWithin(s, BitOffset(fields, i), FieldBits(f), PieceAt(fields, p) - BitOffset(fields, i), PieceBits(fields, p));
    PieceOfField(target, fields, values, p);
  }

  lemma SliceWithin(s: seq<bool>, at: nat, n: nat, from: nat, m: nat)
    requires at + n <= |s| && from + m <= n
    ensures s[at + from..][..m] == s[at..][..n][from..][..m]
  {
    var x, whole := s[at + from..][..m], s[at..][..n];
    var y := whole[from..][..m];
    forall k | 0 <= k < m
      ensures x[k] == y[k]
    {
      assert x[k] == s[at + from + k] && y[k] == whole[from + k] && whole[from + k] == s[at + (from + k)];
    }
  }

  /** Inside the bits of its field an element stands behind the flag and the elements before it. */
  lemma ElementOfField(target: Target, f: Field, fv: FieldValue, j: nat)
    requires FieldConforms(target, f, fv) && j < Count(f.shape)
    ensures var own, from := EncodeField(target, f, fv), FlagBits(f.shape) + j * TotalBits(f.ty);
      && 0 <= j * TotalBits(f.ty) && from + TotalBits(f.ty) <= |own|
      && own[from..][..TotalBits(f.ty)] == ElementValue(target, f, fv, j)
  {
    hide Encode, EncodeAll, TotalBits, Conforms, FieldBits;
    var own, e := EncodeField(target, f, fv), TotalBits(f.ty);
    match f.shape {
      case Plain =>
        assert j * e == 0 && own == Encode(target, f.ty, fv.value);
        assert own[0..][..e] == own;
      case Array(n) =>
        assert own == EncodeAll(target, f.ty, fv.values);
        ElementIsAt(target, f.ty, fv.values, j);
      case Optional =>
        var rest := ElementValue(target, f, fv, j);
        assert j * e == 0 && |rest| == e && own == [fv.Present?] + rest;
        assert own[1..][..e] == rest;
    }
  }

  lemma PresenceOfField(target: Target, f: Field, fv: FieldValue)
    requires FieldConforms(target, f, fv) && f.shape.Optional?
    ensures |EncodeField(target, f, fv)| >= 1 && EncodeField(target, f, fv)[0] == fv.Present?
  {
    hide Encode, TotalBits, Conforms, FieldBits;
  }

  lemma PieceOfField(target: Target, fields: seq<Field>, values: seq<FieldValue>, p: Piece)
    requires FieldsConform(target, fields, values) && IsPiece(fields, p)
    ensures FieldConforms(target, fields[p.field], values[p.field]) && PieceAt(fields, p) >= BitOffset(fields, p.field)
    ensures var own := EncodeField(target, fields[p.field], values[p.field]);
      var from := PieceAt(fields, p) - BitOffset(fields, p.field);
      && from + PieceBits(fields, p) <= |own|
      && own[from..][..PieceBits(fields, p)] == PieceValue(target, fields, values, p)
  {
    hide EncodeField, TotalBits, FieldConforms, FieldBits, BitOffset, ElementValue;
    var f, fv := fields[p.field], values[p.field];
    assert FieldConforms(target, f, fv);
    match p {
      case Presence(_) => PresenceOfField(target, f, fv);
      case Element(_, j) => ElementOfField(target, f, fv, j);
    }
  }

  /** A clear presence bit is read as an absent value, whatever follows it. */
  lemma AbsentIsReadAs(target: Target, f: Field, s: seq<bool>)
    requires WellFormedField(f) && f.shape.Optional? && |s| == FieldBits(f)
    ensures |s| == 1 + TotalBits(f.ty)
    ensures DecodeField(target, f, s) == Absent <==> !s[0]
  {
    hide TotalBits, Decode;
  }

  // ---- Unions ----

  /** A union is its variant's index, then the payload, then zeros up to the widest variant. */
  lemma UnionIsWrittenAs(target: Target, variants: seq<Leaf>, v: Value)
    requires WellFormed(Union(variants)) && Conforms(target, Union(variants), v)
    ensures var s, t, n := Encode(target, Union(variants), v), TagBits(|variants|), LeafBits(variants[v.tag]);
      && t + n <= |s| && ToNat(s[..t]) == v.tag
      && s[t..][..n] == EncodeLeaf(target, variants[v.tag], v.payload)
      && s[t + n..] == Zeros(|s| - t - n)
  {
    hide TagBits, LowBits, ToNat, LeafBits, MaxBits, EncodeLeaf;
    VariantFits(variants, v.tag);
    TagReadsBack(|variants|, v.tag);
    var t := TagBits(|variants|);
    assert Encode(target, Union(variants), v)[..t] == LowBits(v.tag, t);
  }

  /** What a tag that no variant has is read as. */
  lemma UnknownTagIsReadAs(target: Target, element: bool, variants: seq<Leaf>, s: seq<bool>)
    requires WellFormed(Union(variants)) && |s| == TotalBits(Union(variants))
    requires ToNat(s[..TagBits(|variants|)]) >= |variants|
    ensures Decode(target, element, Union(variants), s) ==
      if target.C? then Variant(ToNat(s[..TagBits(|variants|)]), Cleared)
      else Variant(0, if variants[0].Bool? then Flag(false) else Int(0))
  {
    hide TagBits, ToNat, LeafBits, MaxBits, DecodeLeaf;
  }
}
