/**
 Packed values as bit strings: what every packed struct, array, optional and tagged union
 puts on the wire, and what is read from it. The imperative encoders and decoders are
 proved against these functions; here reading is proved to undo writing.
 */
module Codec {
  import opened Arithmetic
  import opened Bytes
  import opened BitStrings
  import opened Schema
  import opened LeafCodec

  // ---- Values of a type ----

  /** The value has the shape of the type, with every leaf in its C or Rust type. */
  predicate Conforms(target: Target, ty: Type, v: Value)
    decreases ty, 0
  {
    match ty
    case Scalar(leaf) => Matches(target, leaf, v)
    case Struct(fields) =>
      v.Record? && |v.fields| == |fields|
      && forall i | 0 <= i < |fields| :: FieldConforms(target, fields[i], v.fields[i])
    case Union(variants) =>
      v.Variant? && v.tag < |variants| && Matches(target, variants[v.tag], v.payload)
  }

  predicate FieldConforms(target: Target, f: Field, fv: FieldValue)
    decreases f, 0
  {
    match f.shape
    case Plain => fv.One? && Conforms(target, f.ty, fv.value)
    case Array(n) => fv.Many? && |fv.values| == n && forall i | 0 <= i < n :: Conforms(target, f.ty, fv.values[i])
    case Optional => fv.Absent? || (fv.Present? && Conforms(target, f.ty, fv.value))
  }

  /** Every leaf is in the range that its place on the wire carries. */
  predicate Fits(target: Target, element: bool, ty: Type, v: Value)
    requires WellFormed(ty) && Conforms(target, ty, v)
    decreases ty, 0
  {
    match ty
    case Scalar(leaf) => InRange(target, element, leaf, v)
    case Struct(fields) =>
      forall i | 0 <= i < |fields| ::
        FieldConforms(target, fields[i], v.fields[i]) && WellFormedField(fields[i])
        && FieldFits(target, fields[i], v.fields[i])
    case Union(variants) => InRange(target, true, variants[v.tag], v.payload)
  }

  predicate FieldFits(target: Target, f: Field, fv: FieldValue)
    requires WellFormedField(f) && FieldConforms(target, f, fv)
    decreases f, 0
  {
    match f.shape
    case Plain => Fits(target, false, f.ty, fv.value)
    case Array(n) =>
      forall i | 0 <= i < n :: Conforms(target, f.ty, fv.values[i]) && Fits(target, true, f.ty, fv.values[i])
    case Optional => fv.Present? ==> Fits(target, true, f.ty, fv.value)
  }

  // ---- Writing ----

  function Encode(target: Target, ty: Type, v: Value): (s: seq<bool>)
    requires Conforms(target, ty, v)
    ensures |s| == TotalBits(ty)
    decreases ty, 0
  {
    match ty
    case Scalar(leaf) => EncodeLeaf(target, leaf, v)
    case Struct(fields) => EncodeFields(target, fields, v.fields)
    case Union(variants) =>
      VariantFits(variants, v.tag);
      LowBits(v.tag, TagBits(|variants|)) + EncodeLeaf(target, variants[v.tag], v.payload)
      + Zeros(MaxBits(variants) - LeafBits(variants[v.tag]))
  }

  predicate FieldsConform(target: Target, fields: seq<Field>, values: seq<FieldValue>) {
    |values| == |fields| && forall i | 0 <= i < |fields| :: FieldConforms(target, fields[i], values[i])
  }

  function EncodeFields(target: Target, fields: seq<Field>, values: seq<FieldValue>): (s: seq<bool>)
    requires FieldsConform(target, fields, values)
    ensures |s| == FieldsBits(fields)
    decreases fields, 0
  {
    if fields == [] then []
    else EncodeField(target, fields[0], values[0]) + EncodeFields(target, fields[1..], values[1..])
  }

  function EncodeField(target: Target, f: Field, fv: FieldValue): (s: seq<bool>)
    requires FieldConforms(target, f, fv)
    ensures |s| == FieldBits(f)
    decreases f, 0
  {
    match f.shape
    case Plain => Encode(target, f.ty, fv.value)
    case Array(n) => EncodeAll(target, f.ty, fv.values)
    case Optional =>
      if fv.Absent? then [false] + Zeros(TotalBits(f.ty)) else [true] + Encode(target, f.ty, fv.value)
  }

  predicate AllConform(target: Target, ty: Type, values: seq<Value>) {
    forall i | 0 <= i < |values| :: Conforms(target, ty, values[i])
  }

  function EncodeAll(target: Target, ty: Type, values: seq<Value>): (s: seq<bool>)
    requires AllConform(target, ty, values)
    ensures |s| == TotalBits(ty) * |values|
    decreases ty, 1 + |values|
  {
    if values == [] then []
    else
      OneMore(|values| - 1, TotalBits(ty));
      Encode(target, ty, values[0]) + EncodeAll(target, ty, values[1..])
  }

  // ---- Reading ----

  /** `Default::default()` of a Rust payload. */
  function DefaultOf(leaf: Leaf): Value {
    if leaf.Bool? then Flag(false) else Int(0)
  }

  function Decode(target: Target, element: bool, ty: Type, s: seq<bool>): Value
    requires WellFormed(ty) && |s| == TotalBits(ty)
    decreases ty, 0
  {
    match ty
    case Scalar(leaf) => DecodeLeaf(target, element, leaf, s)
    case Struct(fields) => Record(DecodeFields(target, fields, s))
    case Union(variants) =>
      var t := TagBits(|variants|);
      var tag := ToNat(s[..t]);
      if tag < |variants| then
        VariantFits(variants, tag);
        Variant(tag, DecodeLeaf(target, true, variants[tag], s[t..t + LeafBits(variants[tag])]))
      else if target.C? then Variant(tag, Cleared)
      else Variant(0, DefaultOf(variants[0]))
  }

  function DecodeFields(target: Target, fields: seq<Field>, s: seq<bool>): (values: seq<FieldValue>)
    requires forall i | 0 <= i < |fields| :: WellFormedField(fields[i])
    requires |s| == FieldsBits(fields)
    ensures |values| == |fields|
    decreases fields, 0
  {
    if fields == [] then []
    else
      var n := FieldBits(fields[0]);
      [DecodeField(target, fields[0], s[..n])] + DecodeFields(target, fields[1..], s[n..])
  }

  lemma FieldBitsByShape(f: Field)
    ensures FieldBits(f) ==
            match f.shape
            case Plain => TotalBits(f.ty)
            case Array(n) => TotalBits(f.ty) * n
            case Optional => 1 + TotalBits(f.ty)
  {
    hide TotalBits;
  }

  function DecodeField(target: Target, f: Field, s: seq<bool>): FieldValue
    requires WellFormedField(f) && |s| == FieldBits(f)
    decreases f, 0
  {
    FieldBitsByShape(f);
    match f.shape
    case Plain => One(Decode(target, false, f.ty, s))
    case Array(n) => Many(DecodeAll(target, f.ty, n, s))
    case Optional => if s[0] then Present(Decode(target, true, f.ty, s[1..])) else Absent
  }

  function DecodeAll(target: Target, ty: Type, n: nat, s: seq<bool>): (values: seq<Value>)
    requires WellFormed(ty) && |s| == TotalBits(ty) * n
    ensures |values| == n
    decreases ty, 1 + n
  {
    if n == 0 then []
    else
      var e := TotalBits(ty);
      OneMore(n - 1, e);
      [Decode(target, true, ty, s[..e])] + DecodeAll(target, ty, n - 1, s[e..])
  }

  // ---- Reading undoes writing ----

  /** Every value in range, of every type, is read back from what is written for it. */
  lemma {:induction false} RoundTrip(target: Target, element: bool, ty: Type, v: Value)
    requires WellFormed(ty) && Conforms(target, ty, v) && Fits(target, element, ty, v)
    ensures Decode(target, element, ty, Encode(target, ty, v)) == v
    decreases ty, 0
  {
    match ty
    case Scalar(leaf) => LeafRoundTrip(target, element, leaf, v);
    case Struct(fields) => FieldsRoundTrip(target, fields, v.fields);
    case Union(variants) => UnionRoundTrip(target, element, variants, v);
  }

  lemma UnionRoundTrip(target: Target, element: bool, variants: seq<Leaf>, v: Value)
    requires WellFormed(Union(variants)) && Conforms(target, Union(variants), v)
    requires InRange(target, true, variants[v.tag], v.payload)
    ensures Decode(target, element, Union(variants), Encode(target, Union(variants), v)) == v
  {
    hide TagBits, EncodeLeaf, DecodeLeaf, LowBits, ToNat, InRange, LeafBits, MaxBits;
    var t, leaf := TagBits(|variants|), variants[v.tag];
    var payload := EncodeLeaf(target, leaf, v.payload);
    VariantFits(variants, v.tag);
    var s := Encode(target, Union(variants), v);
    assert s[..t] == LowBits(v.tag, t);
    assert s[t..t + LeafBits(leaf)] == payload;
    TagReadsBack(|variants|, v.tag);
    LeafRoundTrip(target, true, leaf, v.payload);
  }

  lemma TagReadsBack(count: nat, tag: nat)
    requires tag < count
    ensures ToNat(LowBits(tag, TagBits(count))) == tag
  {
    hide TagBits;
    ToNatOfLowBits(tag, TagBits(count));
    EnumBitsAreLeast(count);
    assert Holds(TagBits(count), tag);
    DivideUnique(tag, Pow2(TagBits(count)), 0, tag);
  }

  lemma {:induction false} FieldsRoundTrip(target: Target, fields: seq<Field>, values: seq<FieldValue>)
    requires FieldsConform(target, fields, values)
    requires forall i | 0 <= i < |fields| :: WellFormedField(fields[i])
    requires forall i | 0 <= i < |fields| :: FieldFits(target, fields[i], values[i])
    ensures DecodeFields(target, fields, EncodeFields(target, fields, values)) == values
    decreases fields, 0
  {
    if fields != [] {
      hide FieldConforms, FieldFits, WellFormedField, EncodeField, DecodeField, FieldBits;
      var s := EncodeFields(target, fields, values);
      var n := FieldBits(fields[0]);
      assert s[..n] == EncodeField(target, fields[0], values[0]);
      assert s[n..] == EncodeFields(target, fields[1..], values[1..]);
      FieldRoundTrip(target, fields[0], values[0]);
      FieldsRoundTrip(target, fields[1..], values[1..]);
    }
  }

  lemma {:induction false} FieldRoundTrip(target: Target, f: Field, fv: FieldValue)
    requires FieldConforms(target, f, fv) && WellFormedField(f) && FieldFits(target, f, fv)
    ensures DecodeField(target, f, EncodeField(target, f, fv)) == fv
    decreases f, 0
  {
    hide Fits, Conforms, Encode, Decode, TotalBits, EncodeAll, DecodeAll, WellFormed;
    match f.shape
    case Plain => RoundTrip(target, false, f.ty, fv.value);
    case Array(n) => AllRoundTrip(target, f.ty, fv.values);
    case Optional =>
      if fv.Present? {
        RoundTrip(target, true, f.ty, fv.value);
        assert EncodeField(target, f, fv)[1..] == Encode(target, f.ty, fv.value);
      }
  }

  lemma {:induction false} AllRoundTrip(target: Target, ty: Type, values: seq<Value>)
    requires AllConform(target, ty, values) && WellFormed(ty)
    requires forall i | 0 <= i < |values| :: Fits(target, true, ty, values[i])
    ensures DecodeAll(target, ty, |values|, EncodeAll(target, ty, values)) == values
    decreases ty, 1 + |values|
  {
    hide Fits, Conforms, Encode, Decode, EncodeAll, DecodeAll, TotalBits, WellFormed;
    EncodeAllStep(target, ty, values);
    DecodeAllStep(target, ty, |values|, EncodeAll(target, ty, values));
    if values != [] {
      RoundTrip(target, true, ty, values[0]);
      AllRoundTrip(target, ty, values[1..]);
    }
  }

  lemma EncodeAllStep(target: Target, ty: Type, values: seq<Value>)
    requires AllConform(target, ty, values)
    ensures values != [] ==>
              && AllConform(target, ty, values[1..])
              && Conforms(target, ty, values[0])
              && |EncodeAll(target, ty, values)| >= TotalBits(ty)
              && EncodeAll(target, ty, values)[..TotalBits(ty)] == Encode(target, ty, values[0])
              && EncodeAll(target, ty, values)[TotalBits(ty)..] == EncodeAll(target, ty, values[1..])
  {
    hide Conforms, Encode, TotalBits;
  }

  lemma DecodeAllStep(target: Target, ty: Type, n: nat, s: seq<bool>)
    requires WellFormed(ty) && |s| == TotalBits(ty) * n
    ensures n == 0 ==> DecodeAll(target, ty, n, s) == []
    ensures n > 0 ==>
              && |s| >= TotalBits(ty)
              && |s[TotalBits(ty)..]| == TotalBits(ty) * (n - 1)
              && DecodeAll(target, ty, n, s) ==
                 [Decode(target, true, ty, s[..TotalBits(ty)])] + DecodeAll(target, ty, n - 1, s[TotalBits(ty)..])
  {
    hide WellFormed, Decode, TotalBits;
    if n > 0 {
      OneMore(n - 1, TotalBits(ty));
    }
  }

  // ---- Nesting is inlining ----

  lemma {:induction false} EncodeFieldsConcat(target: Target, a: seq<Field>, b: seq<Field>, va: seq<FieldValue>,
                                              vb: seq<FieldValue>)
    requires FieldsConform(target, a, va) && FieldsConform(target, b, vb)
    ensures FieldsConform(target, a + b, va + vb)
    ensures EncodeFields(target, a + b, va + vb) == EncodeFields(target, a, va) + EncodeFields(target, b, vb)
    decreases |a|
  {
    hide FieldConforms, EncodeField;
    if a == [] {
      assert a + b == b && va + vb == vb;
    } else {
      assert (a + b)[1..] == a[1..] + b && (va + vb)[1..] == va[1..] + vb;
      EncodeFieldsConcat(target, a[1..], b, va[1..], vb);
    }
  }

  lemma {:induction false} DecodeFieldsConcat(target: Target, a: seq<Field>, b: seq<Field>, s: seq<bool>, t: seq<bool>)
    requires forall i | 0 <= i < |a| :: WellFormedField(a[i])
    requires forall i | 0 <= i < |b| :: WellFormedField(b[i])
    requires |s| == FieldsBits(a) && |t| == FieldsBits(b)
    ensures |s + t| == FieldsBits(a + b)
    ensures DecodeFields(target, a + b, s + t) == DecodeFields(target, a, s) + DecodeFields(target, b, t)
    decreases |a|
  {
    hide WellFormedField, DecodeField, DecodeFields, FieldBits, FieldsBits;
    FieldsBitsConcat(a, b);
    if a == [] {
      assert a + b == b;
      DecodeNoFields(target, s);
      assert s + t == t;
    } else {
      var n := FieldBits(a[0]);
      assert (a + b)[1..] == a[1..] + b;
      DecodeFieldsCons(target, a, s);
      DecodeFieldsCons(target, a + b, s + t);
      assert (s + t)[..n] == s[..n] && (s + t)[n..] == s[n..] + t;
      DecodeFieldsConcat(target, a[1..], b, s[n..], t);
    }
  }

  lemma DecodeNoFields(target: Target, s: seq<bool>)
    requires |s| == FieldsBits([])
    ensures s == [] && DecodeFields(target, [], s) == []
  {
  }

  lemma DecodeFieldsCons(target: Target, fields: seq<Field>, s: seq<bool>)
    requires forall i | 0 <= i < |fields| :: WellFormedField(fields[i])
    requires fields != [] && |s| == FieldsBits(fields)
    ensures var n := FieldBits(fields[0]);
            && n <= |s| && |s[n..]| == FieldsBits(fields[1..])
            && DecodeFields(target, fields, s) ==
               [DecodeField(target, fields[0], s[..n])] + DecodeFields(target, fields[1..], s[n..])
  {
    hide WellFormedField, DecodeField, FieldBits;
  }

  /** A struct with a plain nested struct is written like the struct with the child's fields in its place. */
  lemma NestingIsInlining(target: Target, before: seq<Field>, child: seq<Field>, after: seq<Field>,
                          vBefore: seq<FieldValue>, vChild: seq<FieldValue>, vAfter: seq<FieldValue>)
    requires FieldsConform(target, before, vBefore)
    requires FieldsConform(target, child, vChild)
    requires FieldsConform(target, after, vAfter)
    ensures var nested := Struct(before + [Field(Plain, Struct(child))] + after);
            var nestedValue := Record(vBefore + [One(Record(vChild))] + vAfter);
            var inlined, inlinedValue := Struct(before + child + after), Record(vBefore + vChild + vAfter);
            && Conforms(target, nested, nestedValue)
            && Conforms(target, inlined, inlinedValue)
            && Encode(target, nested, nestedValue) == Encode(target, inlined, inlinedValue)
            && WireSize(nested) == WireSize(inlined)
  {
    var f, fv := Field(Plain, Struct(child)), One(Record(vChild));
    OneStructField(target, child, vChild);
    hide FieldConforms, EncodeFields;
    EncodeFieldsConcat(target, before, [f], vBefore, [fv]);
    EncodeFieldsConcat(target, before + [f], after, vBefore + [fv], vAfter);
    EncodeFieldsConcat(target, before, child, vBefore, vChild);
    EncodeFieldsConcat(target, before + child, after, vBefore + vChild, vAfter);
  }

  lemma OneStructField(target: Target, child: seq<Field>, values: seq<FieldValue>)
    requires FieldsConform(target, child, values)
    ensures var f, fv := Field(Plain, Struct(child)), One(Record(values));
            && FieldsConform(target, [f], [fv])
            && EncodeFields(target, [f], [fv]) == EncodeFields(target, child, values)
  {
    var f, fv := Field(Plain, Struct(child)), One(Record(values));
    assert FieldConforms(target, f, fv);
    assert EncodeField(target, f, fv) == EncodeFields(target, child, values);
    assert EncodeFields(target, [f], [fv]) == EncodeField(target, f, fv) + EncodeFields(target, [], []);
  }

  /** And it is read like the inlined struct, whatever the bits. */
  lemma NestingReadsInline(target: Target, element: bool, before: seq<Field>, child: seq<Field>, after: seq<Field>,
                           x: seq<bool>, y: seq<bool>, z: seq<bool>)
    requires WellFormed(Struct(before)) && WellFormed(Struct(child)) && WellFormed(Struct(after))
    requires |x| == FieldsBits(before) && |y| == FieldsBits(child) && |z| == FieldsBits(after)
    ensures var nested := Struct(before + [Field(Plain, Struct(child))] + after);
            var inlined := Struct(before + child + after);
            var b, c := DecodeFields(target, before, x), DecodeFields(target, child, y);
            var a := DecodeFields(target, after, z);
            && WellFormed(nested) && WellFormed(inlined)
            && TotalBits(nested) == TotalBits(inlined) == |x + y + z|
            && Decode(target, element, nested, x + y + z) == Record(b + [One(Record(c))] + a)
            && Decode(target, element, inlined, x + y + z) == Record(b + c + a)
  {
    var f := Field(Plain, Struct(child));
    OneStructFieldRead(target, child, y);
    hide WellFormedField, DecodeFields, FieldsBits;
    ReadThree(target, before, [f], after, x, y, z);
    ReadThree(target, before, child, after, x, y, z);
  }

  lemma ReadThree(target: Target, a: seq<Field>, b: seq<Field>, c: seq<Field>, x: seq<bool>, y: seq<bool>, z: seq<bool>)
    requires WellFormed(Struct(a)) && WellFormed(Struct(b)) && WellFormed(Struct(c))
    requires |x| == FieldsBits(a) && |y| == FieldsBits(b) && |z| == FieldsBits(c)
    ensures WellFormed(Struct(a + b + c)) && |x + y + z| == FieldsBits(a + b + c)
    ensures DecodeFields(target, a + b + c, x + y + z) ==
            DecodeFields(target, a, x) + DecodeFields(target, b, y) + DecodeFields(target, c, z)
  {
    hide WellFormedField, DecodeFields, FieldsBits;
    DecodeFieldsConcat(target, a, b, x, y);
    DecodeFieldsConcat(target, a + b, c, x + y, z);
  }

  lemma OneStructFieldRead(target: Target, child: seq<Field>, s: seq<bool>)
    requires WellFormed(Struct(child)) && |s| == FieldsBits(child)
    ensures var f := Field(Plain, Struct(child));
            && WellFormedField(f) && FieldsBits([f]) == |s|
            && DecodeFields(target, [f], s) == [One(Record(DecodeFields(target, child, s)))]
  {
    var f := Field(Plain, Struct(child));
    assert FieldBits(f) == |s|;
    hide DecodeFields;
    ReadOneField(target, f, s);
    assert Decode(target, false, f.ty, s) == Record(DecodeFields(target, child, s));
  }

  lemma ReadOneField(target: Target, f: Field, s: seq<bool>)
    requires WellFormedField(f) && |s| == FieldBits(f)
    ensures FieldsBits([f]) == |s| && DecodeFields(target, [f], s) == [DecodeField(target, f, s)]
  {
    hide WellFormedField, DecodeField, FieldBits;
    assert FieldsBits([f]) == FieldBits(f) + FieldsBits([]);
    assert s[..|s|] == s;
  }
}
