/**
 From the schema's own words to the wire: if the bits of every element hold the range declared
 for it, then every value whose leaves are in their declared ranges survives, through the layout
 pass, the encoders and decoders of both languages, and the link.
 */
module DeclaredRanges {
  import opened Bytes
  import opened BitStrings
  import opened Schema
  import opened LeafCodec
  import opened LeafLimits
  import opened Codec
  import opened MessageCodec
  import opened LayoutPass
  import opened CrossLanguage
  import TopoSort
  import TypedDispatch
  import Framing
  import HostParser

  // ---- Leaves ----

  /**
   The bits of an element hold the leaf's range, and the language reads it back from there: a declared
   range has its needed bits, and without one the number is unscaled and has the bits of its type. Scaled
   signed numbers stop at 31 bits, Rust adds a minimum to a scale in plain fields, and it extends no sign.
   */
  predicate LeafCarries(target: Target, element: bool, leaf: Leaf) {
    WellFormedLeaf(leaf) &&
    (leaf.Number? ==>
       if leaf.min.Some? && leaf.max.Some? then
         && HasRange(leaf) && NeededBits(leaf) <= LeafBits(leaf)
         && (!leaf.raw ==>
               && InType(leaf.ctype, leaf.min.value) && InType(leaf.ctype, leaf.max.value)
               && (leaf.ctype.signed ==> LeafBits(leaf) <= 31 || leaf.scale == 1)
               && (target.Rust? ==> !AddsFirst(element, leaf)))
       else
         && leaf.scale == 1 && leaf.ctype.width <= LeafBits(leaf)
         && (if leaf.min.Some? then InType(leaf.ctype, leaf.min.value)
             else target.C? || !leaf.ctype.signed || LeafBits(leaf) == 32))
  }

  /** A bound of the schema as the field holds it: raw fields hold scaled values. */
  function Bound(leaf: Leaf, b: int): int
    requires leaf.Number?
  {
    if leaf.raw then b * leaf.scale else b
  }

  /** The number is of the declared type and within the declared bounds, as far as there are any. */
  predicate InDeclaredRange(leaf: Leaf, n: int)
    requires leaf.Number?
  {
    && InType(leaf.ctype, n)
    && (leaf.min.Some? ==> Bound(leaf, leaf.min.value) <= n)
    && (leaf.max.Some? ==> n <= Bound(leaf, leaf.max.value))
  }

  predicate DeclaredLeaf(target: Target, leaf: Leaf, v: Value) {
    if leaf.Number? then v.Int? && InDeclaredRange(leaf, v.n) else Matches(target, leaf, v)
  }

  lemma DeclaredLeafFits(target: Target, element: bool, leaf: Leaf, v: Value)
    requires LeafCarries(target, element, leaf) && DeclaredLeaf(target, leaf, v)
    ensures InRange(target, element, leaf, v)
  {
    hide InRange, InType, NumberBits, RangeBits;
    if !leaf.Number? {
      OthersAreInRange(target, element, leaf, v);
    } else if leaf.min.Some? && leaf.max.Some? {
      if leaf.raw {
        RawRangeFits(target, element, leaf, v.n);
      } else {
        DeclaredRangeFits(target, element, leaf, v.n);
      }
    } else if leaf.min.Some? {
      MinimumOnlyFits(target, element, leaf, v.n);
    } else {
      WholeTypeFitsExactly(target, element, leaf, v.n);
      if !leaf.ctype.signed {
        UnsignedInType(leaf.ctype, v.n);
      }
    }
  }

  lemma OthersAreInRange(target: Target, element: bool, leaf: Leaf, v: Value)
    requires WellFormedLeaf(leaf) && !leaf.Number? && Matches(target, leaf, v)
    ensures InRange(target, element, leaf, v)
  {
  }

  lemma UnsignedInType(t: CType, n: int)
    requires InType(t, n) && !t.signed
    ensures n >= 0
  {
  }

  /** With a minimum alone, the distance from it fits the bits of the type. */
  lemma MinimumOnlyFits(target: Target, element: bool, leaf: Leaf, n: int)
    requires leaf.Number? && WellFormedLeaf(leaf) && leaf.min.Some? && leaf.scale == 1
    requires leaf.ctype.width <= LeafBits(leaf) && InType(leaf.ctype, leaf.min.value)
    requires InType(leaf.ctype, n) && leaf.min.value <= n
    ensures InRange(target, element, leaf, Int(n))
  {
    hide Pow2, NumberBits, InType, InRange;
    Pow2Grows(leaf.ctype.width, LeafBits(leaf));
    Between(leaf.ctype, n, n, n);
    DistanceBelow(leaf.ctype, leaf.min.value, n);
    assert Scaled(leaf, n) == n - leaf.min.value;
    HeldIsInRange(target, element, leaf, n);
  }

  lemma DistanceBelow(t: CType, lo: int, n: int)
    requires t.width in {8, 16, 32} && InType(t, lo) && InType(t, n) && lo <= n
    ensures 0 <= n - lo < Pow2(t.width)
  {
    Pow2OfWords();
  }

  // ---- Types ----

  predicate Carries(target: Target, element: bool, ty: Type)
    decreases ty, 0
  {
    match ty
    case Scalar(leaf) => LeafCarries(target, element, leaf)
    case Struct(fields) => forall i | 0 <= i < |fields| :: FieldCarries(target, fields[i])
    case Union(variants) => forall i | 0 <= i < |variants| :: LeafCarries(target, true, variants[i])
  }

  predicate FieldCarries(target: Target, f: Field)
    decreases f, 0
  {
    Carries(target, !f.shape.Plain?, f.ty)
  }

  /** The value has the shape of the type, and every leaf of it is in its declared range. */
  predicate Declared(target: Target, ty: Type, v: Value)
    decreases ty, 0
  {
    match ty
    case Scalar(leaf) => DeclaredLeaf(target, leaf, v)
    case Struct(fields) =>
      v.Record? && |v.fields| == |fields|
      && forall i | 0 <= i < |fields| :: FieldDeclared(target, fields[i], v.fields[i])
    case Union(variants) =>
      v.Variant? && v.tag < |variants| && DeclaredLeaf(target, variants[v.tag], v.payload)
  }

  predicate FieldDeclared(target: Target, f: Field, fv: FieldValue)
    decreases f, 0
  {
    match f.shape
    case Plain => fv.One? && Declared(target, f.ty, fv.value)
    case Array(n) => fv.Many? && |fv.values| == n && forall i | 0 <= i < n :: Declared(target, f.ty, fv.values[i])
    case Optional => fv.Absent? || (fv.Present? && Declared(target, f.ty, fv.value))
  }

  /** Values of the declared ranges are in the range of the round trip. */
  lemma {:induction false} DeclaredFits(target: Target, element: bool, ty: Type, v: Value)
    requires WellFormed(ty) && Carries(target, element, ty) && Declared(target, ty, v)
    ensures Conforms(target, ty, v) && Fits(target, element, ty, v)
    decreases ty, 0
  {
    hide LeafCarries, DeclaredLeaf, InRange, WellFormedLeaf, FieldCarries, FieldDeclared, FieldConforms;
    hide FieldFits, WellFormedField;
    match ty
    case Scalar(leaf) =>
      DeclaredLeafFits(target, element, leaf, v);
      InRangeMatches(target, element, leaf, v);
    case Struct(fields) =>
      forall i | 0 <= i < |fields|
        ensures FieldConforms(target, fields[i], v.fields[i]) && FieldFits(target, fields[i], v.fields[i])
      {
        DeclaredFieldFits(target, fields[i], v.fields[i]);
      }
    case Union(variants) =>
      DeclaredLeafFits(target, true, variants[v.tag], v.payload);
      InRangeMatches(target, true, variants[v.tag], v.payload);
  }

  lemma InRangeMatches(target: Target, element: bool, leaf: Leaf, v: Value)
    requires WellFormedLeaf(leaf) && InRange(target, element, leaf, v)
    ensures Matches(target, leaf, v)
  {
  }

  lemma {:induction false} DeclaredFieldFits(target: Target, f: Field, fv: FieldValue)
    requires WellFormedField(f) && FieldCarries(target, f) && FieldDeclared(target, f, fv)
    ensures FieldConforms(target, f, fv) && FieldFits(target, f, fv)
    decreases f, 0
  {
    hide Carries, Declared, Conforms, Fits, WellFormed;
    match f.shape
    case Plain => DeclaredFits(target, false, f.ty, fv.value);
    case Array(n) =>
      forall i | 0 <= i < n
        ensures Conforms(target, f.ty, fv.values[i]) && Fits(target, true, f.ty, fv.values[i])
      {
        DeclaredFits(target, true, f.ty, fv.values[i]);
      }
    case Optional =>
      if fv.Present? {
        DeclaredFits(target, true, f.ty, fv.value);
      }
  }

  // ---- Schemas ----

  /** Every leaf of the schema has the bits for its range, in the place where it stands. */
  ghost predicate SchemaCarries(target: Target, t: Types) {
    && (forall n, i | n in t.structs && 0 <= i < |t.structs[n]| && t.structs[n][i].ty.Basic? ::
          LeafCarries(target, !t.structs[n][i].shape.Plain?, t.structs[n][i].ty.leaf))
    && (forall n, i | n in t.unions && 0 <= i < |t.unions[n]| :: LeafCarries(target, true, Variants(t.unions[n])[i]))
  }

  lemma {:induction false} ResolvedCarries(target: Target, t: Types, order: seq<string>, name: string, element: bool)
    requires GoodOrder(t, order) && t.Has(name) && SchemaCarries(target, t)
    ensures Carries(target, element, Resolve(t, order, name))
    decreases TopoSort.Rank(order, name), 1
  {
    hide GoodOrder, LeafCarries;
    if name !in t.unions {
      FieldsCarry(target, t, order, name, |t.structs[name]|);
    }
  }

  lemma {:induction false} FieldsCarry(target: Target, t: Types, order: seq<string>, name: string, n: nat)
    requires GoodOrder(t, order) && name in t.structs && n <= |t.structs[name]| && SchemaCarries(target, t)
    ensures forall i | 0 <= i < n :: FieldCarries(target, ResolveFields(t, order, name, n)[i])
    decreases assert t.Has(name); TopoSort.Rank(order, name), 0, n
  {
    if n > 0 {
      hide GoodOrder, SchemaCarries, ResolveRef, FieldCarries;
      FieldsCarry(target, t, order, name, n - 1);
      RefCarries(target, t, order, name, n - 1);
    }
  }

  lemma {:induction false} RefCarries(target: Target, t: Types, order: seq<string>, name: string, i: nat)
    requires GoodOrder(t, order) && name in t.structs && i < |t.structs[name]| && SchemaCarries(target, t)
    ensures FieldCarries(target, Field(t.structs[name][i].shape, ResolveRef(t, order, name, i)))
    decreases assert t.Has(name); TopoSort.Rank(order, name), 0, i
  {
    hide GoodOrder, SchemaCarries, Resolve, LeafCarries;
    var f := t.structs[name][i];
    if f.ty.Named? {
      ReferenceGoesDown(t, order, name, i);
      ResolvedCarries(target, t, order, f.ty.name, !f.shape.Plain?);
    } else {
      BasicCarries(target, t, name, i);
    }
  }

  lemma BasicCarries(target: Target, t: Types, name: string, i: nat)
    requires SchemaCarries(target, t) && name in t.structs && i < |t.structs[name]| && t.structs[name][i].ty.Basic?
    ensures LeafCarries(target, !t.structs[name][i].shape.Plain?, t.structs[name][i].ty.leaf)
  {
    hide LeafCarries;
  }

  /** In a schema whose elements hold their ranges, every declared value of every type is decoded from its encoding. */
  lemma DeclaredValuesRoundTrip(t: Types, order: seq<string>, name: string, target: Target, v: Value, bytes: seq<byte>,
                                tail: seq<byte>)
    requires GoodOrder(t, order) && t.Has(name) && LeavesWellFormed(t) && SchemaCarries(target, t)
    requires Declared(target, Resolve(t, order, name), v)
    ensures var ty := Resolve(t, order, name);
            && WellFormed(ty) && Conforms(target, ty, v)
            && (Image(target, ty, v, bytes) ==>
                  && |bytes| == WireSize(ty)
                  && TotalBits(ty) <= 8 * |bytes + tail|
                  && Decode(target, false, ty, BitStrings.Window(bytes + tail, 0, TotalBits(ty))) == v)
  {
    hide GoodOrder, Resolve, WellFormed, Conforms, Fits, Decode, TotalBits, LeavesWellFormed, SchemaCarries;
    hide Declared, Carries;
    AcceptedTypesRoundTrip(t, order, name, target, v, bytes, tail);
    ResolvedCarries(target, t, order, name, false);
    DeclaredFits(target, false, Resolve(t, order, name), v);
  }

  // ---- Over the link ----

  lemma LeafToRustIsDeclared(leaf: Leaf, v: Value)
    requires WellFormedLeaf(leaf) && Matches(C, leaf, v) && DeclaredLeaf(C, leaf, v)
    ensures DeclaredLeaf(Rust, leaf, LeafToRust(leaf, v))
  {
    hide EncodeLeaf, InDeclaredRange;
    SameLeafBits(leaf, v);
  }

  lemma {:induction false} FieldsToRustAt(fields: seq<Field>, values: seq<FieldValue>, i: nat)
    requires FieldsConform(C, fields, values) && i < |fields|
    ensures FieldsToRust(fields, values)[i] == FieldToRust(fields[i], values[i])
    decreases |fields|
  {
    hide FieldConforms, FieldToRust;
    if i > 0 {
      FieldsToRustAt(fields[1..], values[1..], i - 1);
    }
  }

  lemma {:induction false} AllToRustAt(ty: Type, values: seq<Value>, i: nat)
    requires AllConform(C, ty, values) && i < |values|
    ensures AllToRust(ty, values)[i] == ToRust(ty, values[i])
    decreases |values|
  {
    hide Conforms, ToRust;
    if i > 0 {
      AllToRustAt(ty, values[1..], i - 1);
    }
  }

  /** A declared value is still in its declared ranges as Rust holds it. */
  lemma {:induction false} ToRustIsDeclared(ty: Type, v: Value)
    requires WellFormed(ty) && Conforms(C, ty, v) && Declared(C, ty, v)
    ensures Declared(Rust, ty, ToRust(ty, v))
    decreases ty, 0
  {
    hide DeclaredLeaf, FieldDeclared, FieldConforms, WellFormedLeaf, WellFormedField, Matches, LeafToRust, FieldToRust;
    match ty
    case Scalar(leaf) => LeafToRustIsDeclared(leaf, v);
    case Struct(fields) =>
      hide FieldsToRust;
      forall i | 0 <= i < |fields|
        ensures FieldDeclared(Rust, fields[i], FieldsToRust(fields, v.fields)[i])
      {
        FieldsToRustAt(fields, v.fields, i);
        FieldToRustIsDeclared(fields[i], v.fields[i]);
      }
    case Union(variants) => LeafToRustIsDeclared(variants[v.tag], v.payload);
  }

  lemma {:induction false} FieldToRustIsDeclared(f: Field, fv: FieldValue)
    requires WellFormedField(f) && FieldConforms(C, f, fv) && FieldDeclared(C, f, fv)
    ensures FieldDeclared(Rust, f, FieldToRust(f, fv))
    decreases f, 0
  {
    hide WellFormed, Conforms, Declared, ToRust;
    match f.shape
    case Plain => ToRustIsDeclared(f.ty, fv.value);
    case Array(n) =>
      forall i | 0 <= i < n
        ensures Declared(Rust, f.ty, AllToRust(f.ty, fv.values)[i])
      {
        AllToRustAt(f.ty, fv.values, i);
        ToRustIsDeclared(f.ty, fv.values[i]);
      }
    case Optional =>
      if fv.Present? {
        ToRustIsDeclared(f.ty, fv.value);
      }
  }

  /**
   From the device's value to the host's: in an accepted schema whose elements hold their ranges for Rust, every
   declared value of a DATA-producing message, encoded in C, is returned by the Rust facade as that message and value.
   */
  lemma DeclaredValuesDispatch(t: Types, order: seq<string>, layouts: map<string, Layout>,
                               messages: seq<TypedDispatch.Message>, i: nat, command: byte, v: Value,
                               payload: seq<byte>, p: HostParser.State, source: byte)
    requires GoodOrder(t, order) && LeavesWellFormed(t) && SchemaCarries(Rust, t)
    requires forall n | t.Has(n) :: n in layouts && LayoutOf(t, order, n, layouts[n])
    requires TypedDispatch.Accepted(messages, t.structs.Keys)
    requires i < |messages| && messages[i].response.Some? && messages[i].command == Some(command as int)
    requires var name := messages[i].response.value;
             && t.Has(name)
             && layouts[name].wireSize <= Framing.MAX_PAYLOAD_SIZE
             && Conforms(C, Resolve(t, order, name), v)
             && Declared(C, Resolve(t, order, name), v)
             && Image(C, Resolve(t, order, name), v, payload)
    requires HostParser.Valid(p) && p.mode.Sync? && (!p.addressing ==> source == 0)
    ensures TypedDispatch.TypesKnown(messages, TypedDispatch.ResponseTypes(t, order))
    ensures var name := messages[i].response.value;
            var frame := Framing.Encode(Framing.ToHost(p.addressing), Framing.Wire(source, 2, command, payload));
            && HostParser.Output(p, frame) == [HostParser.Data(command, payload)]
            && TypedDispatch.DecodeData(messages, TypedDispatch.ResponseTypes(t, order), command, payload)
               == TypedDispatch.Known(messages[i].name, ToRust(Resolve(t, order, name), v))
  {
    hide GoodOrder, Resolve, WellFormed, Conforms, Fits, Image, TotalBits, LeavesWellFormed, SchemaCarries;
    hide Declared, Carries;
    hide ToRust, HostParser.Output, HostParser.Valid, Framing.Encode, TypedDispatch.DecodeData;
    hide TypedDispatch.TypesKnown;
    hide TypedDispatch.Accepted, LayoutOf, ValidTypes;
    var name := messages[i].response.value;
    var ty := Resolve(t, order, name);
    ResolvedIsWellFormed(t, order, name);
    ResolvedCarries(Rust, t, order, name, false);
    ToRustIsDeclared(ty, v);
    DeclaredFits(Rust, false, ty, ToRust(ty, v));
    TypedDispatch.AcceptedSchemaDispatches(t, order, layouts, messages, i, command, v, payload, p, source);
  }
}
