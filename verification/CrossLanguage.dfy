/**
 The packed wire form is the same in both languages: a C device and a Rust host exchange
 the same bytes for the same value. Values differ only in how a remapped enum is held, by
 its value in C and by its index in Rust.
 */
module CrossLanguage {
  import opened Bytes
  import opened BitStrings
  import opened Schema
  import opened LeafCodec
  import opened Codec
  import opened MessageCodec
  import RemapTables

  function LeafToRust(leaf: Leaf, v: Value): Value
    requires Matches(C, leaf, v)
  {
    if leaf.Remap? then Int(RemapTables.WireIndex(leaf.values, v.n as byte)) else v
  }

  /** The Rust value for a C value. */
  function ToRust(ty: Type, v: Value): Value
    requires Conforms(C, ty, v)
    decreases ty, 0
  {
    match ty
    case Scalar(leaf) => LeafToRust(leaf, v)
    case Struct(fields) => Record(FieldsToRust(fields, v.fields))
    case Union(variants) => Variant(v.tag, LeafToRust(variants[v.tag], v.payload))
  }

  function FieldsToRust(fields: seq<Field>, values: seq<FieldValue>): (r: seq<FieldValue>)
    requires FieldsConform(C, fields, values)
    ensures |r| == |values|
    decreases fields, 0
  {
    if fields == [] then [] else [FieldToRust(fields[0], values[0])] + FieldsToRust(fields[1..], values[1..])
  }

  function FieldToRust(f: Field, fv: FieldValue): FieldValue
    requires FieldConforms(C, f, fv)
    decreases f, 0
  {
    match f.shape
    case Plain => One(ToRust(f.ty, fv.value))
    case Array(n) => Many(AllToRust(f.ty, fv.values))
    case Optional => if fv.Absent? then Absent else Present(ToRust(f.ty, fv.value))
  }

  function AllToRust(ty: Type, values: seq<Value>): (r: seq<Value>)
    requires AllConform(C, ty, values)
    ensures |r| == |values|
    decreases ty, 1 + |values|
  {
    if values == [] then [] else [ToRust(ty, values[0])] + AllToRust(ty, values[1..])
  }

  lemma SameLeafBits(leaf: Leaf, v: Value)
    requires WellFormedLeaf(leaf) && Matches(C, leaf, v)
    ensures Matches(Rust, leaf, LeafToRust(leaf, v))
    ensures EncodeLeaf(Rust, leaf, LeafToRust(leaf, v)) == EncodeLeaf(C, leaf, v)
  {
    hide LowBits, RemapTables.WireIndex, EnumBits, NumberBits, U32;
    if leaf.Number? {
      Widen(leaf.ctype, v.n);
    }
  }

  lemma Widen(t: CType, n: int)
    requires t.width in {8, 16, 32} && InType(t, n)
    ensures InType(CType(t.signed, 32), n)
  {
    hide Pow2;
    Pow2OfWords();
  }

  /** Every packed value has the same bits in both languages. */
  lemma {:induction false} SameBits(ty: Type, v: Value)
    requires WellFormed(ty) && Conforms(C, ty, v)
    ensures Conforms(Rust, ty, ToRust(ty, v))
    ensures Encode(Rust, ty, ToRust(ty, v)) == Encode(C, ty, v)
    decreases ty, 0
  {
    hide EncodeLeaf, LeafBits, LowBits, TagBits, MaxBits, Matches, LeafToRust, FieldConforms, WellFormedLeaf;
    hide WellFormedField;
    match ty
    case Scalar(leaf) => SameLeafBits(leaf, v);
    case Struct(fields) => SameFieldsBits(fields, v.fields);
    case Union(variants) => SameLeafBits(variants[v.tag], v.payload);
  }

  lemma {:induction false} SameFieldsBits(fields: seq<Field>, values: seq<FieldValue>)
    requires FieldsConform(C, fields, values)
    requires forall i | 0 <= i < |fields| :: WellFormedField(fields[i])
    ensures FieldsConform(Rust, fields, FieldsToRust(fields, values))
    ensures EncodeFields(Rust, fields, FieldsToRust(fields, values)) == EncodeFields(C, fields, values)
    decreases fields, 0
  {
    if fields != [] {
      hide FieldConforms, EncodeField, FieldToRust, WellFormedField, FieldBits;
      SameFieldBits(fields[0], values[0]);
      SameFieldsBits(fields[1..], values[1..]);
      var r := FieldsToRust(fields, values);
      assert r[1..] == FieldsToRust(fields[1..], values[1..]);
      forall i | 0 <= i < |fields|
        ensures FieldConforms(Rust, fields[i], r[i])
      {
        if i > 0 {
          assert FieldConforms(Rust, fields[1..][i - 1], r[1..][i - 1]);
        }
      }
    }
  }

  lemma {:induction false} SameFieldBits(f: Field, fv: FieldValue)
    requires FieldConforms(C, f, fv) && WellFormedField(f)
    ensures FieldConforms(Rust, f, FieldToRust(f, fv))
    ensures EncodeField(Rust, f, FieldToRust(f, fv)) == EncodeField(C, f, fv)
    decreases f, 0
  {
    hide Conforms, Encode, EncodeAll, ToRust, AllToRust, WellFormed, TotalBits;
    match f.shape
    case Plain => SameBits(f.ty, fv.value);
    case Array(n) => SameAllBits(f.ty, fv.values);
    case Optional =>
      if fv.Present? {
        SameBits(f.ty, fv.value);
      }
  }

  lemma {:induction false} SameAllBits(ty: Type, values: seq<Value>)
    requires WellFormed(ty) && AllConform(C, ty, values)
    ensures AllConform(Rust, ty, AllToRust(ty, values))
    ensures EncodeAll(Rust, ty, AllToRust(ty, values)) == EncodeAll(C, ty, values)
    decreases ty, 1 + |values|
  {
    if values != [] {
      hide Conforms, Encode, ToRust, WellFormed, TotalBits;
      SameBits(ty, values[0]);
      SameAllBits(ty, values[1..]);
      var r := AllToRust(ty, values);
      assert r[1..] == AllToRust(ty, values[1..]);
      forall i | 0 <= i < |values|
        ensures Conforms(Rust, ty, r[i])
      {
        if i > 0 {
          assert Conforms(Rust, ty, r[1..][i - 1]);
        }
      }
    }
  }

  /** The wire image of a C value is the wire image of the Rust value. */
  lemma SameImage(ty: Type, v: Value, bytes: seq<byte>)
    requires WellFormed(ty) && Conforms(C, ty, v) && Image(C, ty, v, bytes)
    ensures Conforms(Rust, ty, ToRust(ty, v)) && Image(Rust, ty, ToRust(ty, v), bytes)
  {
    hide Conforms, Encode, ToRust, WellFormed, TotalBits;
    SameBits(ty, v);
  }
}
