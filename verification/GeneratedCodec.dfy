/**
 The generated C and Rust encoders and decoders: recursive code over a byte buffer, driven
 by the bit offsets of the layout. The two languages share their structure and differ in
 their leaf expressions. Each method is proved to place exactly the bits, or to read
 exactly the value, of the specification.
 */
module GeneratedCodec {
  import opened Arithmetic
  import opened Bytes
  import opened BitStrings
  import opened Packing
  import opened Schema
  import opened LeafCodec
  import opened Codec
  import RemapTables

  // ---- Leaves ----

  /** `c_pack_leaf` and `rs_pack_leaf`, for bools, enums and numbers. */
  method PackLeaf(target: Target, buf: array<byte>, at: nat, leaf: Leaf, v: Value)
    requires WellFormedLeaf(leaf) && Matches(target, leaf, v) && at + LeafBits(leaf) <= 8 * buf.Length
    modifies buf
    ensures Placed(old(buf[..]), buf[..], at, EncodeLeaf(target, leaf, v))
  {
    hide LowBits, Placed, RemapTables.MaxValue, RemapTables.WireIndex, InType, EnumBits, NumberBits;
    LeafBitsBound(leaf);
    match leaf
    case Bool =>
      PackBits(buf, at, 1, if v.b then 1 else 0);
    case Enum(_) =>
      PackBits(buf, at, LeafBits(leaf), v.n);
    case Remap(values, search) =>
      if target.Rust? {
        PackBits(buf, at, LeafBits(leaf), v.n);
      } else if search {
        var wire := RemapTables.SearchValue(values, v.n as byte);
        PackBits(buf, at, LeafBits(leaf), wire as int);
      } else {
        var table := RemapTables.DenseTable(values);
        PackBits(buf, at, LeafBits(leaf), table[v.n] as int);
      }
    case Number(ctype, raw, min, _, scale, _) =>
      var wire: int;
      if raw {
        wire := if min.Some? then v.n - min.value * scale else v.n;
      } else if ctype.signed {
        wire := if min.Some? then (v.n - min.value) * scale else v.n * scale;
      } else {
        wire := if min.Some? && min.value != 0 then (v.n - min.value) * scale else v.n * scale;
      }
      assert wire == Scaled(leaf, v.n);
      PackBits(buf, at, LeafBits(leaf), U32(wire));
  }

  /** `c_unpack_leaf` and `rs_unpack_expr`. */
  method UnpackLeaf(target: Target, buf: array<byte>, at: nat, leaf: Leaf, element: bool) returns (v: Value)
    requires WellFormedLeaf(leaf) && at + LeafBits(leaf) <= 8 * buf.Length
    ensures v == DecodeLeaf(target, element, leaf, Window(buf[..], at, LeafBits(leaf)))
  {
    hide ToNat, Narrow, Quotient, SignExtend, EnumBits, NumberBits;
    LeafBitsBound(leaf);
    WordBound(leaf, Window(buf[..], at, LeafBits(leaf)));
    var w := UnpackBits(buf, at, LeafBits(leaf));
    if target.C? {
      v := LeafFromC(element, leaf, w);
    } else {
      v := LeafFromRust(element, leaf, w);
    }
  }

  /** The C expressions of `c_unpack_leaf`. */
  method LeafFromC(ghost element: bool, leaf: Leaf, w: nat) returns (v: Value)
    requires WellFormedLeaf(leaf) && w < 0x1_0000_0000
    ensures v == FromWire(C, element, leaf, w)
  {
    hide Narrow, Quotient, SignExtend, EnumBits, NumberBits;
    LeafBitsBound(leaf);
    match leaf
    case Bool => v := Flag(w != 0);
    case Enum(_) => v := Int(w);
    case Remap(values, _) =>
      v := if w < |values| then Int(values[w] as int) else Unset;
    case Number(ctype, raw, min, _, scale, _) =>
      if raw {
        v := Int(Narrow(ctype, if min.Some? then AsInt32(w) + min.value * scale else AsInt32(w)));
      } else if ctype.signed {
        if min.Some? {
          v := Int(Narrow(ctype, Quotient(AsInt32(w), scale) + min.value));
        } else {
          v := Int(Narrow(ctype, Quotient(SignExtend(w, LeafBits(leaf)), scale)));
        }
      } else {
        v := Int(Narrow(ctype, if min.Some? && min.value != 0 then w / scale + min.value else w / scale));
      }
  }

  /** The Rust expressions: `rs_unpack_expr` for elements, the field forms of `unpack_from` otherwise. */
  method LeafFromRust(element: bool, leaf: Leaf, w: nat) returns (v: Value)
    requires WellFormedLeaf(leaf) && w < 0x1_0000_0000
    ensures v == FromWire(Rust, element, leaf, w)
  {
    hide Narrow, EnumBits, NumberBits;
    match leaf
    case Bool => v := Flag(w != 0);
    case Enum(count) => v := Int(if w < count then w else 0);
    case Remap(values, _) => v := Int(if w < |values| then w else 0);
    case Number(ctype, raw, min, _, scale, _) =>
      var store := CType(ctype.signed, 32);
      if raw {
        v := Int(Narrow(store, if min.Some? then AsInt32(w) + min.value * scale else AsInt32(w)));
      } else if ctype.signed {
        var q := Quotient(AsInt32(w), scale);
        v := Int(Narrow(store, if min.Some? then q + min.value else q));
      } else if min.None? || min.value == 0 {
        v := Int(Narrow(store, w / scale));
      } else if element || scale == 1 {
        v := Int(Narrow(store, w / scale + min.value));
      } else {
        var divisor := U32(scale + min.value);
        v := if divisor == 0 then Unset else Int(Narrow(store, w / divisor));
      }
  }

  // ---- Structs and unions: writing ----

  /** `_pack` of a struct or union, or a leaf, at any base bit. */
  method Pack(target: Target, buf: array<byte>, base: nat, ty: Type, v: Value)
    requires WellFormed(ty) && Conforms(target, ty, v) && base + TotalBits(ty) <= 8 * buf.Length
    modifies buf
    ensures Placed(old(buf[..]), buf[..], base, Encode(target, ty, v))
    decreases ty, 0
  {
    hide Placed, LowBits, EncodeLeaf, LeafBits, TagBits, MaxBits, Matches, WellFormedLeaf, EncodeFields;
    hide FieldsBits, FieldConforms, WellFormedField;
    match ty
    case Scalar(leaf) => PackLeaf(target, buf, base, leaf, v);
    case Struct(fields) => PackStruct(target, buf, base, fields, v.fields);
    case Union(variants) => PackUnion(target, buf, base, variants, v);
  }

  method PackUnion(target: Target, buf: array<byte>, base: nat, variants: seq<Leaf>, v: Value)
    requires WellFormed(Union(variants)) && Conforms(target, Union(variants), v)
    requires base + TotalBits(Union(variants)) <= 8 * buf.Length
    modifies buf
    ensures Placed(old(buf[..]), buf[..], base, Encode(target, Union(variants), v))
  {
    hide Placed, LowBits, EncodeLeaf, LeafBits, TagBits, MaxBits, Matches, WellFormedLeaf;
    ghost var before := buf[..];
    var tagBits, leaf := TagBits(|variants|), variants[v.tag];
    TagBitsBound(|variants|);
    VariantFits(variants, v.tag);
    PackBits(buf, base, tagBits, v.tag);
    ghost var tagged := buf[..];
    PackLeaf(target, buf, base + tagBits, leaf, v.payload);
    ghost var tag, payload := LowBits(v.tag, tagBits), EncodeLeaf(target, leaf, v.payload);
    ghost var rest := Zeros(MaxBits(variants) - LeafBits(leaf));
    PlacedThen(before, tagged, buf[..], base, tag, payload);
    PlacedNothing(buf[..], base + |tag + payload|, rest);
    PlacedThen(before, buf[..], buf[..], base, tag + payload, rest);
  }

  lemma TagBitsBound(count: nat)
    requires 1 <= count <= 0x8000_0000
    ensures TagBits(count) <= 32
  {
    EnumBitsAreLeast(count);
    Pow2OfWords();
    if count > 1 {
      CeilLog2AtMost(count, 31);
    }
  }

  /** The body of a struct's `_pack`: the fields in order, each at its offset. */
  method PackStruct(target: Target, buf: array<byte>, base: nat, fields: seq<Field>, values: seq<FieldValue>)
    requires forall i | 0 <= i < |fields| :: WellFormedField(fields[i])
    requires FieldsConform(target, fields, values) && base + FieldsBits(fields) <= 8 * buf.Length
    modifies buf
    ensures Placed(old(buf[..]), buf[..], base, EncodeFields(target, fields, values))
    decreases fields, 0
  {
    hide Placed, FieldsBits, FieldBits, EncodeFields, EncodeField, FieldConforms, WellFormedField;
    ghost var before := buf[..];
    NoFields(target, before, base, fields, values);
    for i := 0 to |fields|
      invariant FieldsConform(target, fields[..i], values[..i])
      invariant Placed(before, buf[..], base, EncodeFields(target, fields[..i], values[..i]))
    {
      ghost var now := buf[..];
      FieldFitsBuffer(fields, i);
      PackField(target, buf, base + BitOffset(fields, i), fields[i], values[i]);
      OneMoreField(target, fields, values, i);
      PlacedThen(before, now, buf[..], base, EncodeFields(target, fields[..i], values[..i]),
        EncodeField(target, fields[i], values[i]));
    }
    assert fields[..|fields|] == fields && values[..|fields|] == values;
  }

  lemma NoFields(target: Target, buf: seq<byte>, base: nat, fields: seq<Field>, values: seq<FieldValue>)
    requires FieldsConform(target, fields, values) && base + FieldsBits(fields) <= 8 * |buf|
    ensures FieldsConform(target, fields[..0], values[..0])
    ensures Placed(buf, buf, base, EncodeFields(target, fields[..0], values[..0]))
  {
    hide FieldsBits;
    assert EncodeFields(target, fields[..0], values[..0]) == [];
  }

  lemma FieldFitsBuffer(fields: seq<Field>, i: nat)
    requires i < |fields|
    ensures BitOffset(fields, i) + FieldBits(fields[i]) <= FieldsBits(fields)
  {
    OffsetsGrow(fields, i, |fields|);
    assert fields[..|fields|] == fields;
  }

  lemma OneMoreField(target: Target, fields: seq<Field>, values: seq<FieldValue>, i: nat)
    requires FieldsConform(target, fields, values) && i < |fields|
    ensures FieldsConform(target, fields[..i], values[..i]) && FieldsConform(target, fields[..i + 1], values[..i + 1])
    ensures |EncodeFields(target, fields[..i], values[..i])| == BitOffset(fields, i)
    ensures EncodeFields(target, fields[..i + 1], values[..i + 1]) ==
            EncodeFields(target, fields[..i], values[..i]) + EncodeField(target, fields[i], values[i])
  {
    hide FieldConforms, EncodeField, FieldBits;
    var f, fv := fields[i], values[i];
    assert FieldConforms(target, f, fv);
    assert EncodeFields(target, [f], [fv]) == EncodeField(target, f, fv) + EncodeFields(target, [], []);
    assert fields[..i + 1] == fields[..i] + [f] && values[..i + 1] == values[..i] + [fv];
    EncodeFieldsConcat(target, fields[..i], [f], values[..i], [fv]);
  }

  /** One field at its `_bit_offset`: elements `_elem_bits` apart, or a presence bit and the value after it. */
  method PackField(target: Target, buf: array<byte>, at: nat, f: Field, fv: FieldValue)
    requires WellFormedField(f) && FieldConforms(target, f, fv) && at + FieldBits(f) <= 8 * buf.Length
    modifies buf
    ensures Placed(old(buf[..]), buf[..], at, EncodeField(target, f, fv))
    decreases f, 0
  {
    hide Placed, Encode, EncodeAll, TotalBits, Conforms, WellFormed, LowBits;
    ghost var before := buf[..];
    match f.shape
    case Plain => Pack(target, buf, at, f.ty, fv.value);
    case Array(n) => PackAll(target, buf, at, f.ty, fv.values);
    case Optional =>
      PackBits(buf, at, 1, if fv.Present? then 1 else 0);
      OneLowBit(fv.Present?);
      ghost var flagged := buf[..];
      if fv.Present? {
        Pack(target, buf, at + 1, f.ty, fv.value);
        PlacedThen(before, flagged, buf[..], at, [true], Encode(target, f.ty, fv.value));
      } else {
        PlacedNothing(flagged, at + 1, Zeros(TotalBits(f.ty)));
        PlacedThen(before, flagged, flagged, at, [false], Zeros(TotalBits(f.ty)));
      }
  }

  lemma OneLowBit(b: bool)
    ensures LowBits(if b then 1 else 0, 1) == [b]
  {
  }

  method PackAll(target: Target, buf: array<byte>, at: nat, ty: Type, values: seq<Value>)
    requires WellFormed(ty) && AllConform(target, ty, values) && at + TotalBits(ty) * |values| <= 8 * buf.Length
    modifies buf
    ensures Placed(old(buf[..]), buf[..], at, EncodeAll(target, ty, values))
    decreases ty, 1
  {
    hide Placed, Encode, EncodeAll, TotalBits, Conforms, WellFormed;
    ghost var before := buf[..];
    var elemBits := TotalBits(ty);
    NoElements(target, before, at, ty, values);
    for i := 0 to |values|
      invariant Placed(before, buf[..], at, EncodeAll(target, ty, values[..i]))
    {
      ghost var now := buf[..];
      SlotEnds(i, |values|, elemBits);
      Pack(target, buf, at + i * elemBits, ty, values[i]);
      OneMoreElement(target, ty, values, i);
      PlacedThen(before, now, buf[..], at, EncodeAll(target, ty, values[..i]), Encode(target, ty, values[i]));
    }
    assert values[..|values|] == values;
  }

  lemma NoElements(target: Target, buf: seq<byte>, at: nat, ty: Type, values: seq<Value>)
    requires AllConform(target, ty, values) && at + TotalBits(ty) * |values| <= 8 * |buf|
    ensures AllConform(target, ty, values[..0]) && Placed(buf, buf, at, EncodeAll(target, ty, values[..0]))
  {
    hide Conforms, TotalBits;
    assert EncodeAll(target, ty, values[..0]) == [];
    ProductNotNegative(TotalBits(ty), |values|);
  }

  lemma EncodeNone(target: Target, ty: Type)
    ensures EncodeAll(target, ty, []) == []
  {
  }

  lemma EncodeAllCons(target: Target, ty: Type, values: seq<Value>)
    requires AllConform(target, ty, values) && values != []
    ensures Conforms(target, ty, values[0]) && AllConform(target, ty, values[1..])
    ensures EncodeAll(target, ty, values) == Encode(target, ty, values[0]) + EncodeAll(target, ty, values[1..])
  {
    hide Conforms, Encode, TotalBits;
  }

  lemma {:induction false} EncodeAllConcat(target: Target, ty: Type, xs: seq<Value>, ys: seq<Value>)
    requires AllConform(target, ty, xs) && AllConform(target, ty, ys)
    ensures AllConform(target, ty, xs + ys)
    ensures EncodeAll(target, ty, xs + ys) == EncodeAll(target, ty, xs) + EncodeAll(target, ty, ys)
    decreases |xs|
  {
    hide Conforms, Encode, EncodeAll, TotalBits;
    if xs == [] {
      assert xs + ys == ys;
      EncodeNone(target, ty);
    } else {
      assert (xs + ys)[1..] == xs[1..] + ys;
      EncodeAllCons(target, ty, xs);
      EncodeAllCons(target, ty, xs + ys);
      EncodeAllConcat(target, ty, xs[1..], ys);
    }
  }

  lemma OneMoreElement(target: Target, ty: Type, values: seq<Value>, i: nat)
    requires AllConform(target, ty, values) && i < |values|
    ensures AllConform(target, ty, values[..i]) && AllConform(target, ty, values[..i + 1])
    ensures Conforms(target, ty, values[i])
    ensures |EncodeAll(target, ty, values[..i])| == i * TotalBits(ty)
    ensures EncodeAll(target, ty, values[..i + 1]) == EncodeAll(target, ty, values[..i]) + Encode(target, ty, values[i])
  {
    hide Conforms, Encode, EncodeAll, TotalBits;
    EncodeAllCons(target, ty, [values[i]]);
    EncodeNone(target, ty);
    assert [values[i]][1..] == [];
    assert values[..i + 1] == values[..i] + [values[i]];
    EncodeAllConcat(target, ty, values[..i], [values[i]]);
  }

  // ---- Structs and unions: reading ----

  /** `_unpack` of a struct or union, or a leaf, at any base bit, into a value that has been cleared. */
  method Unpack(target: Target, buf: array<byte>, base: nat, ty: Type, element: bool) returns (v: Value)
    requires WellFormed(ty) && base + TotalBits(ty) <= 8 * buf.Length
    ensures v == Decode(target, element, ty, Window(buf[..], base, TotalBits(ty)))
    decreases ty, 0
  {
    hide DecodeLeaf, LeafBits, TagBits, MaxBits, WellFormedLeaf, DecodeFields, FieldsBits, WellFormedField;
    hide ToNat, BitAt;
    match ty
    case Scalar(leaf) => v := UnpackLeaf(target, buf, base, leaf, element);
    case Struct(fields) =>
      var values := UnpackStruct(target, buf, base, fields);
      v := Record(values);
    case Union(variants) => v := UnpackUnion(target, buf, base, variants, element);
  }

  method UnpackUnion(target: Target, buf: array<byte>, base: nat, variants: seq<Leaf>, element: bool) returns (v: Value)
    requires WellFormed(Union(variants)) && base + TotalBits(Union(variants)) <= 8 * buf.Length
    ensures v == Decode(target, element, Union(variants), Window(buf[..], base, TotalBits(Union(variants))))
  {
    hide DecodeLeaf, LeafBits, TagBits, MaxBits, WellFormedLeaf, ToNat, BitAt;
    var tagBits := TagBits(|variants|);
    TagBitsBound(|variants|);
    var tag := UnpackBits(buf, base, tagBits);
    ghost var total := TotalBits(Union(variants));
    WindowOfWindow(buf[..], base, total, 0, tagBits);
    if tag < |variants| {
      VariantFits(variants, tag);
      WindowOfWindow(buf[..], base, total, tagBits, LeafBits(variants[tag]));
      var payload := UnpackLeaf(target, buf, base + tagBits, variants[tag], true);
      v := Variant(tag, payload);
    } else if target.C? {
      v := Variant(tag, Cleared);
    } else {
      v := Variant(0, DefaultOf(variants[0]));
    }
  }

  method UnpackStruct(target: Target, buf: array<byte>, base: nat, fields: seq<Field>) returns (values: seq<FieldValue>)
    requires forall i | 0 <= i < |fields| :: WellFormedField(fields[i])
    requires base + FieldsBits(fields) <= 8 * buf.Length
    ensures values == DecodeFields(target, fields, Window(buf[..], base, FieldsBits(fields)))
    decreases fields, 0
  {
    hide FieldsBits, FieldBits, DecodeFields, DecodeField, WellFormedField, BitAt;
    values := [];
    OffsetsGrow(fields, 0, |fields|);
    NoFieldsRead(target, buf[..], base, fields);
    for i := 0 to |fields|
      invariant BitOffset(fields, i) <= FieldsBits(fields)
      invariant values == DecodeFields(target, fields[..i], Window(buf[..], base, BitOffset(fields, i)))
    {
      FieldFitsBuffer(fields, i);
      var fv := UnpackField(target, buf, base + BitOffset(fields, i), fields[i]);
      OneMoreFieldRead(target, buf[..], base, fields, i);
      values := values + [fv];
    }
    assert fields[..|fields|] == fields;
  }

  lemma NoFieldsRead(target: Target, buf: seq<byte>, base: nat, fields: seq<Field>)
    requires forall i | 0 <= i < |fields| :: WellFormedField(fields[i])
    requires base + FieldsBits(fields) <= 8 * |buf|
    ensures BitOffset(fields, 0) == 0 && DecodeFields(target, fields[..0], Window(buf, base, 0)) == []
  {
    assert fields[..0] == [];
  }

  lemma OneMoreFieldRead(target: Target, buf: seq<byte>, base: nat, fields: seq<Field>, i: nat)
    requires forall i | 0 <= i < |fields| :: WellFormedField(fields[i])
    requires i < |fields| && base + FieldsBits(fields) <= 8 * |buf|
    requires BitOffset(fields, i) + FieldBits(fields[i]) <= FieldsBits(fields)
    ensures BitOffset(fields, i + 1) == BitOffset(fields, i) + FieldBits(fields[i])
    ensures DecodeFields(target, fields[..i + 1], Window(buf, base, BitOffset(fields, i + 1))) ==
            DecodeFields(target, fields[..i], Window(buf, base, BitOffset(fields, i)))
            + [DecodeField(target, fields[i], Window(buf, base + BitOffset(fields, i), FieldBits(fields[i])))]
  {
    hide FieldsBits, FieldBits, DecodeFields, DecodeField, WellFormedField, BitAt;
    var f, at := fields[i], BitOffset(fields, i);
    NextOffset(fields, i);
    WindowSplit(buf, base, at, FieldBits(f));
    var s := Window(buf, base + at, FieldBits(f));
    ReadOneField(target, f, s);
    assert fields[..i + 1] == fields[..i] + [f];
    DecodeFieldsConcat(target, fields[..i], [f], Window(buf, base, at), s);
  }

  method UnpackField(target: Target, buf: array<byte>, at: nat, f: Field) returns (fv: FieldValue)
    requires WellFormedField(f) && at + FieldBits(f) <= 8 * buf.Length
    ensures fv == DecodeField(target, f, Window(buf[..], at, FieldBits(f)))
    decreases f, 0
  {
    hide Decode, DecodeAll, TotalBits, WellFormed, BitAt, ToNat;
    match f.shape
    case Plain =>
      var v := Unpack(target, buf, at, f.ty, false);
      fv := One(v);
    case Array(n) =>
      var vs := UnpackAll(target, buf, at, f.ty, n);
      fv := Many(vs);
    case Optional =>
      var flag := UnpackBits(buf, at, 1);
      ghost var s := Window(buf[..], at, FieldBits(f));
      OneBit(Window(buf[..], at, 1));
      WindowOfWindow(buf[..], at, FieldBits(f), 1, TotalBits(f.ty));
      if flag != 0 {
        var v := Unpack(target, buf, at + 1, f.ty, true);
        assert s[1..] == s[1..1 + TotalBits(f.ty)];
        fv := Present(v);
      } else {
        fv := Absent;
      }
  }

  lemma OneBit(s: seq<bool>)
    requires |s| == 1
    ensures ToNat(s) != 0 <==> s[0]
  {
    assert s[1..] == [];
  }

  method UnpackAll(target: Target, buf: array<byte>, at: nat, ty: Type, n: nat) returns (values: seq<Value>)
    requires WellFormed(ty) && at + TotalBits(ty) * n <= 8 * buf.Length
    ensures TotalBits(ty) * n >= 0 && values == DecodeAll(target, ty, n, Window(buf[..], at, TotalBits(ty) * n))
    decreases ty, 1
  {
    hide Decode, DecodeAll, TotalBits, WellFormed, BitAt;
    values := [];
    var elemBits := TotalBits(ty);
    ProductNotNegative(elemBits, n);
    DecodeAllStep(target, ty, 0, Window(buf[..], at, 0));
    for i := 0 to n
      invariant 0 <= elemBits * i <= elemBits * n
      invariant values == DecodeAll(target, ty, i, Window(buf[..], at, elemBits * i))
    {
      SlotEnds(i, n, elemBits);
      assert elemBits * i == i * elemBits;
      var v := Unpack(target, buf, at + i * elemBits, ty, true);
      OneMoreElementRead(target, buf[..], at, ty, i);
      values := values + [v];
    }
  }

  lemma OneMoreElementRead(target: Target, buf: seq<byte>, at: nat, ty: Type, i: nat)
    requires WellFormed(ty) && at + TotalBits(ty) * i + TotalBits(ty) <= 8 * |buf| && TotalBits(ty) * i >= 0
    ensures TotalBits(ty) * (i + 1) == TotalBits(ty) * i + TotalBits(ty)
    ensures DecodeAll(target, ty, i + 1, Window(buf, at, TotalBits(ty) * (i + 1))) ==
            DecodeAll(target, ty, i, Window(buf, at, TotalBits(ty) * i))
            + [Decode(target, true, ty, Window(buf, at + TotalBits(ty) * i, TotalBits(ty)))]
  {
    hide Decode, DecodeAll, TotalBits, WellFormed, BitAt;
    OneMore(i, TotalBits(ty));
    WindowSplit(buf, at, TotalBits(ty) * i, TotalBits(ty));
    DecodeAllSnoc(target, ty, i, Window(buf, at, TotalBits(ty) * i),
      Window(buf, at + TotalBits(ty) * i, TotalBits(ty)));
  }

  lemma {:induction false} DecodeAllSnoc(target: Target, ty: Type, n: nat, s: seq<bool>, t: seq<bool>)
    requires WellFormed(ty) && |s| == TotalBits(ty) * n && |t| == TotalBits(ty)
    ensures |s + t| == TotalBits(ty) * (n + 1)
    ensures DecodeAll(target, ty, n + 1, s + t) == DecodeAll(target, ty, n, s) + [Decode(target, true, ty, t)]
    decreases n
  {
    hide Decode, DecodeAll, TotalBits, WellFormed;
    var e := TotalBits(ty);
    OneMore(n, e);
    DecodeAllStep(target, ty, n + 1, s + t);
    DecodeAllStep(target, ty, n, s);
    if n == 0 {
      assert s == [] && (s + t)[..e] == t && (s + t)[e..] == [];
      DecodeAllStep(target, ty, 0, []);
    } else {
      assert (s + t)[..e] == s[..e] && (s + t)[e..] == s[e..] + t;
      DecodeAllSnoc(target, ty, n - 1, s[e..], t);
    }
  }
}
