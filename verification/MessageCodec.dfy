/**
 The public `_encode` and `_decode` of a packed type: a cleared buffer, one pack at bit 0,
 and the wire image that both of the generator's encoder forms agree on.
 */
module MessageCodec {
  import opened Arithmetic
  import opened Bytes
  import opened BitStrings
  import opened Packing
  import opened Schema
  import opened LeafCodec
  import opened Codec
  import opened GeneratedCodec

  /** The bytes of a value: its bits from bit 0 on, and zero padding up to the last byte. */
  ghost predicate Image(target: Target, ty: Type, v: Value, bytes: seq<byte>)
    requires Conforms(target, ty, v)
  {
    && |bytes| == WireSize(ty)
    && Window(bytes, 0, TotalBits(ty)) == Encode(target, ty, v)
    && ClearAt(bytes, TotalBits(ty), 8 * |bytes| - TotalBits(ty))
  }

  lemma ImageIsUnique(target: Target, ty: Type, v: Value, x: seq<byte>, y: seq<byte>)
    requires Conforms(target, ty, v) && Image(target, ty, v, x) && Image(target, ty, v, y)
    ensures x == y
  {
    hide BitAt, Encode, TotalBits;
    forall k: nat | k < 8 * |x|
      ensures BitAt(x, k) == BitAt(y, k)
    {
      if k < TotalBits(ty) {
        assert BitAt(x, 0 + k) == Encode(target, ty, v)[k] == BitAt(y, 0 + k);
      }
    }
    SameBitsSameBuffer(x, y);
  }

  /** `decode` of `encode` is the identity on values in range, with anything behind the image. */
  lemma ImageReadsBack(target: Target, element: bool, ty: Type, v: Value, bytes: seq<byte>, tail: seq<byte>)
    requires WellFormed(ty) && Conforms(target, ty, v) && Fits(target, element, ty, v)
    requires Image(target, ty, v, bytes)
    ensures TotalBits(ty) <= 8 * |bytes + tail|
    ensures Decode(target, element, ty, Window(bytes + tail, 0, TotalBits(ty))) == v
  {
    hide BitAt, Encode, Decode, Fits, WellFormed, TotalBits, Conforms;
    RoundTrip(target, element, ty, v);
    assert Window(bytes + tail, 0, TotalBits(ty)) == Window(bytes, 0, TotalBits(ty)) by {
      PrefixWindow(bytes, tail, TotalBits(ty));
    }
  }

  lemma PrefixWindow(bytes: seq<byte>, tail: seq<byte>, n: nat)
    requires n <= 8 * |bytes|
    ensures Window(bytes + tail, 0, n) == Window(bytes, 0, n)
  {
    hide Bit;
    forall k: nat | k < n
      ensures BitAt(bytes + tail, k) == BitAt(bytes, k)
    {
      assert (bytes + tail)[k / 8] == bytes[k / 8];
    }
  }

  /** Packing into clear bits at any base and unpacking there is the identity on values in range. */
  lemma PackedReadsBack(target: Target, before: seq<byte>, after: seq<byte>, base: nat, element: bool, ty: Type,
                        v: Value)
    requires WellFormed(ty) && Conforms(target, ty, v) && Fits(target, element, ty, v)
    requires ClearAt(before, base, TotalBits(ty)) && Placed(before, after, base, Encode(target, ty, v))
    ensures |after| == |before| && Decode(target, element, ty, Window(after, base, TotalBits(ty))) == v
    ensures forall k: nat | k < 8 * |before| && !(base <= k < base + TotalBits(ty)) ::
              BitAt(after, k) == BitAt(before, k)
  {
    hide Encode, Decode, Fits, WellFormed, TotalBits, Conforms, BitAt;
    PlacedReadsBack(before, after, base, Encode(target, ty, v));
    RoundTrip(target, element, ty, v);
  }

  /** What placing at bit 0 of a cleared prefix leaves behind. */
  lemma PlacedIsImage(target: Target, cleared: seq<byte>, after: seq<byte>, ty: Type, v: Value)
    requires Conforms(target, ty, v) && WireSize(ty) <= |cleared|
    requires ClearAt(cleared, 0, 8 * WireSize(ty)) && Placed(cleared, after, 0, Encode(target, ty, v))
    ensures |after| == |cleared|
    ensures Image(target, ty, v, after[..WireSize(ty)]) && after[WireSize(ty)..] == cleared[WireSize(ty)..]
  {
    hide Encode, TotalBits, Conforms, BitAt;
    var n, total := WireSize(ty), TotalBits(ty);
    assert total <= 8 * n;
    var image := after[..n];
    PlacedReadsBack(cleared, after, 0, Encode(target, ty, v));
    assert after == image + after[n..];
    PrefixWindow(image, after[n..], total);
    forall k: nat | total <= k < 8 * n
      ensures !BitAt(image, k)
    {
      PrefixBit(after, n, k);
    }
    forall k: nat | k < 8 * |after[n..]|
      ensures BitAt(after[n..], k) == BitAt(cleared[n..], k)
    {
      SuffixBit(after, n, k);
      SuffixBit(cleared, n, k);
    }
    SameBitsSameBuffer(after[n..], cleared[n..]);
  }

  lemma PrefixBit(buf: seq<byte>, n: nat, k: nat)
    requires n <= |buf| && k < 8 * n
    ensures BitAt(buf[..n], k) == BitAt(buf, k)
  {
  }

  lemma SuffixBit(buf: seq<byte>, n: nat, k: nat)
    requires n <= |buf| && k < 8 * (|buf| - n)
    ensures BitAt(buf[n..], k) == BitAt(buf, 8 * n + k)
  {
  }

  /** `_encode` of a type with a pack helper. The buffer may be longer than the image. */
  method EncodeWithHelper(target: Target, buf: array<byte>, ty: Type, v: Value)
    requires WellFormed(ty) && Conforms(target, ty, v) && WireSize(ty) <= buf.Length
    modifies buf
    ensures Image(target, ty, v, buf[..WireSize(ty)])
    ensures buf[WireSize(ty)..] == old(buf[WireSize(ty)..])
  {
    hide Encode, TotalBits, Conforms, Placed, ClearAt, WellFormed;
    Clear(buf, WireSize(ty));
    ghost var cleared := buf[..];
    Pack(target, buf, 0, ty, v);
    PlacedIsImage(target, cleared, buf[..], ty, v);
  }

  /** `_decode`. */
  method DecodeMessage(target: Target, buf: array<byte>, ty: Type) returns (v: Value)
    requires WellFormed(ty) && WireSize(ty) <= buf.Length
    ensures v == Decode(target, false, ty, Window(buf[..], 0, TotalBits(ty)))
  {
    hide Decode, TotalBits, WellFormed;
    v := Unpack(target, buf, 0, ty, false);
  }

  // ---- The flat form ----

  /** `not (_needs_pack_helper or _has_nested)`, as far as the struct itself shows it. */
  predicate IsFlat(fields: seq<Field>) {
    forall i | 0 <= i < |fields| :: fields[i].ty.Scalar?
  }

  /** `_encode` of a struct without nested types: every field is packed in place, at fixed offsets. */
  method EncodeFlat(target: Target, buf: array<byte>, fields: seq<Field>, values: seq<FieldValue>)
    requires WellFormed(Struct(fields)) && IsFlat(fields)
    requires FieldsConform(target, fields, values) && WireSize(Struct(fields)) <= buf.Length
    modifies buf
    ensures Image(target, Struct(fields), Record(values), buf[..WireSize(Struct(fields))])
    ensures buf[WireSize(Struct(fields))..] == old(buf[WireSize(Struct(fields))..])
  {
    hide Placed, ClearAt, FieldsBits, FieldBits, EncodeFields, EncodeField, FieldConforms, WellFormedField;
    assert TotalBits(Struct(fields)) == FieldsBits(fields);
    Clear(buf, WireSize(Struct(fields)));
    ghost var cleared := buf[..];
    NoFields(target, cleared, 0, fields, values);
    for i := 0 to |fields|
      invariant FieldsConform(target, fields[..i], values[..i])
      invariant Placed(cleared, buf[..], 0, EncodeFields(target, fields[..i], values[..i]))
    {
      ghost var now := buf[..];
      FieldFitsBuffer(fields, i);
      PackFlatField(target, buf, BitOffset(fields, i), fields[i], values[i]);
      OneMoreField(target, fields, values, i);
      PlacedThen(cleared, now, buf[..], 0, EncodeFields(target, fields[..i], values[..i]),
        EncodeField(target, fields[i], values[i]));
    }
    assert fields[..|fields|] == fields && values[..|fields|] == values;
    PlacedIsImage(target, cleared, buf[..], Struct(fields), Record(values));
  }

  method PackFlatField(target: Target, buf: array<byte>, at: nat, f: Field, fv: FieldValue)
    requires f.ty.Scalar? && WellFormedField(f) && FieldConforms(target, f, fv) && at + FieldBits(f) <= 8 * buf.Length
    modifies buf
    ensures Placed(old(buf[..]), buf[..], at, EncodeField(target, f, fv))
  {
    hide Placed, EncodeLeaf, EncodeAll, LeafBits, LowBits, Matches, WellFormedLeaf;
    var leaf := f.ty.leaf;
    ghost var before := buf[..];
    match f.shape
    case Plain => PackLeaf(target, buf, at, leaf, fv.value);
    case Array(n) =>
      NoElements(target, before, at, f.ty, fv.values);
      for i := 0 to n
        invariant AllConform(target, f.ty, fv.values[..i])
        invariant Placed(before, buf[..], at, EncodeAll(target, f.ty, fv.values[..i]))
      {
        ghost var now := buf[..];
        SlotEnds(i, n, LeafBits(leaf));
        PackLeaf(target, buf, at + i * LeafBits(leaf), leaf, fv.values[i]);
        OneMoreElement(target, f.ty, fv.values, i);
        PlacedThen(before, now, buf[..], at, EncodeAll(target, f.ty, fv.values[..i]),
          Encode(target, f.ty, fv.values[i]));
      }
      assert fv.values[..n] == fv.values;
    case Optional =>
      PackBits(buf, at, 1, if fv.Present? then 1 else 0);
      OneLowBit(fv.Present?);
      ghost var flagged := buf[..];
      if fv.Present? {
        PackLeaf(target, buf, at + 1, leaf, fv.value);
        PlacedThen(before, flagged, buf[..], at, [true], Encode(target, f.ty, fv.value));
      } else {
        PlacedNothing(flagged, at + 1, Zeros(LeafBits(leaf)));
        PlacedThen(before, flagged, flagged, at, [false], Zeros(LeafBits(leaf)));
      }
  }

  /** Embedding a struct elsewhere switches it to the helper form, and leaves its own bytes as they were. */
  method EncodeBothForms(target: Target, fields: seq<Field>, values: seq<FieldValue>)
    returns (flat: seq<byte>, viaHelper: seq<byte>)
    requires WellFormed(Struct(fields)) && IsFlat(fields) && FieldsConform(target, fields, values)
    ensures flat == viaHelper && Image(target, Struct(fields), Record(values), flat)
  {
    hide WellFormedField, FieldConforms, FieldsBits;
    var n := WireSize(Struct(fields));
    var a, b := new byte[n](_ => 0), new byte[n](_ => 0);
    EncodeFlat(target, a, fields, values);
    EncodeWithHelper(target, b, Struct(fields), Record(values));
    flat, viaHelper := a[..n], b[..n];
    ImageIsUnique(target, Struct(fields), Record(values), flat, viaHelper);
  }
}
