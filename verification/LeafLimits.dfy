/**
 How far the leaf round trip goes: which declared ranges are inside it, and, where the
 generator accepts fields whose values do not all survive, exactly which do.
 */
module LeafLimits {
  import opened Arithmetic
  import opened Bytes
  import opened BitStrings
  import opened Schema
  import opened LeafCodec

  // ---- Declared ranges ----

  /** `validate_schema`: the declared range lies in the type's range. */
  predicate RangeInType(leaf: Leaf)
    requires leaf.Number?
  {
    leaf.min.Some? && leaf.max.Some? && leaf.min.value <= leaf.max.value
    && InType(leaf.ctype, leaf.min.value) && InType(leaf.ctype, leaf.max.value)
  }

  /** A field whose width is derived from its range carries every value of the range. */
  lemma DeclaredRangeFits(target: Target, element: bool, leaf: Leaf, n: int)
    requires leaf.Number? && WellFormedLeaf(leaf) && RangeInType(leaf) && !leaf.raw
    requires RangeBits(leaf.min.value, leaf.max.value, leaf.scale) <= LeafBits(leaf)
    requires leaf.ctype.signed ==> LeafBits(leaf) <= 31 || leaf.scale == 1
    requires target.Rust? && !leaf.ctype.signed ==> !AddsFirst(element, leaf)
    requires leaf.min.value <= n <= leaf.max.value
    ensures InRange(target, element, leaf, Int(n))
  {
    hide NumberBits, RangeBits, InType, Pow2, InRange;
    var bits, least := LeafBits(leaf), RangeBits(leaf.min.value, leaf.max.value, leaf.scale);
    DerivedWidthIsLeast(leaf.min.value, leaf.max.value, leaf.scale);
    assert Holds(least, Steps(n, leaf.min.value, leaf.scale));
    Pow2Grows(least, bits);
    Between(leaf.ctype, leaf.min.value, n, leaf.max.value);
    HeldIsInRange(target, element, leaf, n);
  }

  /** A distance from the minimum that fits the width is in range, unless Rust misreads the field. */
  lemma HeldIsInRange(target: Target, element: bool, leaf: Leaf, n: int)
    requires leaf.Number? && WellFormedLeaf(leaf) && InType(Storage(target, leaf.ctype), n)
    requires Holds(LeafBits(leaf), Scaled(leaf, n)) && !SignExtends(target, leaf)
    requires leaf.raw || !leaf.ctype.signed || LeafBits(leaf) <= 31 || leaf.scale == 1
    requires target.Rust? ==> !AddsFirst(element, leaf)
    ensures InRange(target, element, leaf, Int(n))
  {
    hide NumberBits, InType, Pow2, Scaled;
    Pow2OfWords();
    ModAtMost(Scaled(leaf, n), Pow2(Storage(target, leaf.ctype).width));
  }

  lemma Between(t: CType, lo: int, n: int, hi: int)
    requires t.width in {8, 16, 32} && InType(t, lo) && InType(t, hi) && lo <= n <= hi
    ensures InType(t, n) && InType(CType(t.signed, 32), n)
  {
    Pow2OfWords();
  }

  /** An explicit width carries the whole declared range exactly when it is at least the derived one. */
  lemma RangeFitsExactly(min: int, max: int, scale: nat, bits: nat)
    requires min <= max && scale >= 1 && bits >= 1
    ensures (forall v | min <= v <= max :: Holds(bits, Steps(v, min, scale))) <==> RangeBits(min, max, scale) <= bits
  {
    hide RangeBits;
    var least := RangeBits(min, max, scale);
    DerivedWidthIsLeast(min, max, scale);
    if least <= bits {
      Pow2Grows(least, bits);
      assert forall v | min <= v <= max :: Holds(least, Steps(v, min, scale)) && Holds(bits, Steps(v, min, scale));
    } else {
      assert !Holds(bits, Steps(max, min, scale));
    }
  }

  predicate HasRange(leaf: Leaf) {
    leaf.Number? && WellFormedLeaf(leaf) && leaf.min.Some? && leaf.max.Some? && leaf.min.value <= leaf.max.value
  }

  /** The derived width of the declared range. */
  function NeededBits(leaf: Leaf): nat
    requires HasRange(leaf)
  {
    RangeBits(leaf.min.value, leaf.max.value, leaf.scale)
  }

  /** Every step of the declared range fits an element of the field. */
  ghost predicate CarriesRange(leaf: Leaf)
    requires HasRange(leaf)
  {
    forall v | leaf.min.value <= v <= leaf.max.value :: Holds(LeafBits(leaf), Steps(v, leaf.min.value, leaf.scale))
  }

  /** The width check of `validate_schema`: it compares with all the bits of the field, flag and elements together. */
  predicate PassesWidthCheck(shape: Shape, leaf: Leaf)
    requires HasRange(leaf)
  {
    NeededBits(leaf) <= FieldBits(Field(shape, Scalar(leaf)))
  }

  /**
   For fields of every shape: the range fits exactly when an element has the needed bits. A fitting range always passes
   the check, and the check is fooled exactly when the needed bits are more than an element's and at most the field's.
   */
  lemma WidthCheckByShape(shape: Shape, leaf: Leaf)
    requires HasRange(leaf) && Count(shape) >= 1
    ensures CarriesRange(leaf) <==> NeededBits(leaf) <= LeafBits(leaf)
    ensures CarriesRange(leaf) ==> PassesWidthCheck(shape, leaf)
    ensures PassesWidthCheck(shape, leaf) && !CarriesRange(leaf) <==>
            LeafBits(leaf) < NeededBits(leaf) <= FlagBits(shape) + LeafBits(leaf) * Count(shape)
  {
    hide RangeBits, NumberBits;
    RangeFitsExactly(leaf.min.value, leaf.max.value, leaf.scale, LeafBits(leaf));
    MulMonotone(1, Count(shape), LeafBits(leaf));
    assert FieldBits(Field(shape, Scalar(leaf))) == FlagBits(shape) + LeafBits(leaf) * Count(shape);
  }

  /** So the check is exact for plain fields and arrays of one element. */
  lemma SingleCheckIsExact(shape: Shape, leaf: Leaf)
    requires HasRange(leaf) && (shape.Plain? || shape == Array(1))
    ensures PassesWidthCheck(shape, leaf) <==> CarriesRange(leaf)
  {
    hide CarriesRange, NeededBits, PassesWidthCheck;
    WidthCheckByShape(shape, leaf);
  }

  /** It is not for longer arrays: two elements of 4 bits pass for a range that needs 8, and 200 is read back as 8. */
  lemma ArrayCheckIsTooWeak()
    ensures var leaf := Number(CType(false, 8), false, Some(0), Some(255), 1, Some(4));
            && HasRange(leaf) && PassesWidthCheck(Array(2), leaf)
            && Matches(C, leaf, Int(200))
            && DecodeLeaf(C, true, leaf, EncodeLeaf(C, leaf, Int(200))) == Int(8)
  {
    hide Pow2, LowBits, ToNat, CeilLog2;
    SmallPowers();
    ToNatOfLowBits(200, 4);
  }

  /** Nor for optionals: 7 bits and the presence bit pass for a range that needs 8, and 200 is read back as 72. */
  lemma OptionalCheckIsTooWeak()
    ensures var leaf := Number(CType(false, 8), false, Some(0), Some(255), 1, Some(7));
            && HasRange(leaf) && PassesWidthCheck(Optional, leaf)
            && Matches(C, leaf, Int(200))
            && DecodeLeaf(C, true, leaf, EncodeLeaf(C, leaf, Int(200))) == Int(72)
  {
    hide Pow2, LowBits, ToNat, CeilLog2;
    SmallPowers();
    ToNatOfLowBits(200, 7);
  }

  lemma SmallPowers()
    ensures Pow2(4) == 16 && Pow2(5) == 32 && Pow2(7) == 128 && Pow2(8) == 256
    ensures CeilLog2(256) <= 8
    ensures InType(CType(false, 8), 200) && InType(CType(true, 8), -3) && InType(CType(true, 8), -1)
  {
    Pow2OfWords();
    assert Pow2(4) == 16;
    CeilLog2AtMost(256, 8);
  }

  // ---- Exactly which numbers survive ----

  predicate Survives(target: Target, element: bool, leaf: Leaf, n: int)
    requires leaf.Number? && WellFormedLeaf(leaf) && InType(Storage(target, leaf.ctype), n)
  {
    DecodeLeaf(target, element, leaf, EncodeLeaf(target, leaf, Int(n))) == Int(n)
  }

  /** A number survives when its word, the residue of its scaled distance, is turned back into it. */
  lemma SurvivalIsOfWord(target: Target, element: bool, leaf: Leaf, n: int) returns (w: nat)
    requires leaf.Number? && WellFormedLeaf(leaf) && InType(Storage(target, leaf.ctype), n)
    ensures w == Scaled(leaf, n) % Pow2(LeafBits(leaf)) < 0x1_0000_0000
    ensures Survives(target, element, leaf, n) <==> NumberFromWire(target, element, leaf, w) == Int(n)
  {
    hide Pow2, LowBits, ToNat, NumberBits, InType, Scaled, NumberFromWire, U32;
    LeafBitsBound(leaf);
    WireIsResidue(Scaled(leaf, n), LeafBits(leaf));
    ToNatOfLowBits(U32(Scaled(leaf, n)), LeafBits(leaf));
    WordBound(leaf, EncodeLeaf(target, leaf, Int(n)));
    w := Scaled(leaf, n) % Pow2(LeafBits(leaf));
  }

  /** Raw numbers, and all without a scale except those that C sign-extends, in either language. */
  lemma UnscaledRoundTripExactly(target: Target, element: bool, leaf: Leaf, n: int)
    requires leaf.Number? && WellFormedLeaf(leaf) && InType(Storage(target, leaf.ctype), n)
    requires (leaf.raw || leaf.scale == 1) && !SignExtends(target, leaf)
    ensures Survives(target, element, leaf, n) <==> InRange(target, element, leaf, Int(n))
  {
    hide Pow2, Survives, InType, Scaled, NumberFromWire, NumberBits, U32;
    var w := SurvivalIsOfWord(target, element, leaf, n);
    LeafBitsBound(leaf);
    WireIsResidue(Scaled(leaf, n), LeafBits(leaf));
    UnscaledReadsBackExactly(target, element, leaf, n);
  }

  /** Signed numbers without a minimum: C carries what the width holds with its sign, Rust only with all 32 bits. */
  lemma SignedRoundTripExactly(target: Target, element: bool, leaf: Leaf, n: int)
    requires leaf.Number? && WellFormedLeaf(leaf) && InType(Storage(target, leaf.ctype), n)
    requires leaf.ctype.signed && !leaf.raw && leaf.min.None?
    ensures Survives(target, element, leaf, n) <==> InRange(target, element, leaf, Int(n))
    ensures InRange(target, element, leaf, Int(n)) <==>
            if target.C? || LeafBits(leaf) == 32 then HoldsSigned(LeafBits(leaf), n * leaf.scale)
            else Holds(LeafBits(leaf), n * leaf.scale)
  {
    hide Pow2, Survives, InType, NumberFromWire, NumberBits, HoldsSigned;
    LeafBitsBound(leaf);
    SignedRange(target, element, leaf, n);
    InRangeSurvives(target, element, leaf, n);
    if !InRange(target, element, leaf, Int(n)) {
      var w := SurvivalIsOfWord(target, element, leaf, n);
      SignedIsLost(target, element, leaf, n, w);
    }
  }

  lemma InRangeSurvives(target: Target, element: bool, leaf: Leaf, n: int)
    requires leaf.Number? && WellFormedLeaf(leaf) && InType(Storage(target, leaf.ctype), n)
    ensures InRange(target, element, leaf, Int(n)) ==> Survives(target, element, leaf, n)
  {
    hide InRange, InType, EncodeLeaf, DecodeLeaf;
    if InRange(target, element, leaf, Int(n)) {
      LeafRoundTrip(target, element, leaf, Int(n));
    }
  }

  lemma SignedRange(target: Target, element: bool, leaf: Leaf, n: int)
    requires leaf.Number? && WellFormedLeaf(leaf) && InType(Storage(target, leaf.ctype), n)
    requires leaf.ctype.signed && !leaf.raw && leaf.min.None? && 1 <= LeafBits(leaf) <= 32
    ensures InRange(target, element, leaf, Int(n)) <==>
            if target.C? || LeafBits(leaf) == 32 then HoldsSigned(LeafBits(leaf), n * leaf.scale)
            else Holds(LeafBits(leaf), n * leaf.scale)
  {
    hide Pow2, NumberBits;
    Pow2OfWords();
    Pow2Below32(LeafBits(leaf));
  }

  /** Out of range, the number that comes out of the division is nearer to zero, or has the other sign. */
  lemma SignedIsLost(target: Target, element: bool, leaf: Leaf, n: int, w: nat)
    requires leaf.Number? && WellFormedLeaf(leaf) && InType(Storage(target, leaf.ctype), n)
    requires leaf.ctype.signed && !leaf.raw && leaf.min.None? && 1 <= LeafBits(leaf) <= 32
    requires w == (n * leaf.scale) % Pow2(LeafBits(leaf)) < 0x1_0000_0000
    requires !(if target.C? || LeafBits(leaf) == 32 then HoldsSigned(LeafBits(leaf), n * leaf.scale)
               else Holds(LeafBits(leaf), n * leaf.scale))
    ensures NumberFromWire(target, element, leaf, w) != Int(n)
  {
    hide Pow2, NumberBits, SignExtend, Narrow, Quotient, InType;
    var bits, store := LeafBits(leaf), Storage(target, leaf.ctype);
    Pow2Below32(bits);
    Pow2OfWords();
    if target.C? || bits == 32 {
      var t := if target.C? then SignExtend(w, bits) else AsInt32(w);
      SignExtendHolds(w, bits);
      QuotientMisses(n, leaf.scale, t, Pow2(bits - 1));
      SmallerIsInType(store, n, Quotient(t, leaf.scale));
    } else {
      UnsignedQuotientMisses(n, leaf.scale, w, Pow2(bits));
      SmallQuotientInType(store, w, leaf.scale);
    }
  }

  lemma SignExtendHolds(w: nat, bits: nat)
    requires 1 <= bits <= 32 && w < Pow2(bits) <= 0x1_0000_0000
    ensures HoldsSigned(bits, SignExtend(w, bits))
    ensures bits == 32 ==> HoldsSigned(32, AsInt32(w))
  {
    hide Pow2, SignExtend;
    Pow2OfWords();
    HalfPow(bits);
    SignExtendIsExact(w, bits);
  }

  /** A number below h in size, divided, never reaches one whose product is outside. */
  lemma QuotientMisses(n: int, scale: nat, t: int, h: nat)
    requires scale >= 1 && -(h as int) <= t < h && !(-(h as int) <= n * scale < h)
    ensures n > 0 ==> -n <= Quotient(t, scale) < n
    ensures n < 0 ==> n < Quotient(t, scale) < -n
    ensures n != 0
  {
    if n > 0 && t >= 0 {
      QuotientBelow(t, n, scale);
    } else if n > 0 {
      QuotientAtMost(-t, n, scale);
    } else if n < 0 && t >= 0 {
      assert (-n) * scale == -(n * scale);
      QuotientBelow(t, -n, scale);
    } else if n < 0 {
      assert (-n) * scale == -(n * scale);
      QuotientBelow(-t, -n, scale);
    }
  }

  lemma UnsignedQuotientMisses(n: int, scale: nat, w: nat, p: nat)
    requires scale >= 1 && w < p && !(0 <= n * scale < p)
    ensures n >= 0 ==> 0 <= w / scale < n
    ensures n < 0 ==> w / scale >= 0
    ensures Quotient(w, scale) == w / scale
  {
    if n >= 0 {
      assert n * scale >= 0;
      QuotientBelow(w, n, scale);
    }
  }

  lemma SmallerIsInType(t: CType, n: int, q: int)
    requires t.width in {8, 16, 32} && t.signed && InType(t, n)
    requires n > 0 ==> -n <= q < n
    requires n < 0 ==> n < q < -n
    requires n != 0
    ensures Narrow(t, q) == q != n
  {
    Pow2OfWords();
    NarrowFinds(t, q, q, 0);
  }

  lemma SmallQuotientInType(t: CType, w: nat, scale: nat)
    requires t == CType(true, 32) && scale >= 1 && w < 0x8000_0000
    ensures Narrow(t, w / scale) == w / scale
  {
    Pow2OfWords();
    QuotientAtMostSelf(w, scale);
    NarrowFinds(t, w / scale, w / scale, 0);
  }

  /**
   Scaled numbers with a minimum, from the minimum up: they survive exactly when their distance fits the width, in both
   languages, except that none survives in a plain Rust field that adds before it divides.
   */
  lemma FromMinimumRoundTripExactly(target: Target, element: bool, leaf: Leaf, n: int)
    requires leaf.Number? && WellFormedLeaf(leaf) && InType(Storage(target, leaf.ctype), n)
    requires !leaf.raw && Offset(leaf) <= n && InType(Storage(target, leaf.ctype), Offset(leaf))
    requires if leaf.ctype.signed then leaf.min.Some? && LeafBits(leaf) <= 31 && leaf.scale > 1
             else target.Rust? && AddsFirst(element, leaf) ==> leaf.scale + Offset(leaf) < 0x1_0000_0000
    ensures Survives(target, element, leaf, n) <==> InRange(target, element, leaf, Int(n))
    ensures InRange(target, element, leaf, Int(n)) <==>
            && 0 <= (n - Offset(leaf)) * leaf.scale < Pow2(LeafBits(leaf))
            && (target.C? || element || leaf.ctype.signed || leaf.scale == 1 || leaf.min.None? || leaf.min.value == 0)
  {
    hide Pow2, Survives, InType, NumberFromWire, NumberBits;
    LeafBitsBound(leaf);
    FromMinimumRange(target, element, leaf, n);
    InRangeSurvives(target, element, leaf, n);
    if !InRange(target, element, leaf, Int(n)) {
      var w := SurvivalIsOfWord(target, element, leaf, n);
      FromMinimumIsLost(target, element, leaf, n, w);
    }
  }

  lemma FromMinimumRange(target: Target, element: bool, leaf: Leaf, n: int)
    requires leaf.Number? && WellFormedLeaf(leaf) && InType(Storage(target, leaf.ctype), n)
    requires !leaf.raw && Offset(leaf) <= n && InType(Storage(target, leaf.ctype), Offset(leaf))
    requires leaf.ctype.signed ==> leaf.min.Some? && LeafBits(leaf) <= 31 && leaf.scale > 1
    ensures InRange(target, element, leaf, Int(n)) <==>
            Holds(LeafBits(leaf), Scaled(leaf, n)) && (target.Rust? ==> !AddsFirst(element, leaf))
  {
    hide Pow2, NumberBits;
    Pow2OfWords();
    var s, store := Scaled(leaf, n), Storage(target, leaf.ctype);
    if leaf.scale == 1 {
      DivideUnique(s, Pow2(store.width), 0, s);
    }
  }

  lemma FromMinimumIsLost(target: Target, element: bool, leaf: Leaf, n: int, w: nat)
    requires leaf.Number? && WellFormedLeaf(leaf) && InType(Storage(target, leaf.ctype), n)
    requires !leaf.raw && Offset(leaf) <= n && InType(Storage(target, leaf.ctype), Offset(leaf))
    requires if leaf.ctype.signed then leaf.min.Some? && LeafBits(leaf) <= 31 && leaf.scale > 1
             else target.Rust? && AddsFirst(element, leaf) ==> leaf.scale + Offset(leaf) < 0x1_0000_0000
    requires 1 <= LeafBits(leaf) <= 32 && w == Scaled(leaf, n) % Pow2(LeafBits(leaf)) < 0x1_0000_0000
    requires !(Holds(LeafBits(leaf), Scaled(leaf, n)) && (target.Rust? ==> !AddsFirst(element, leaf)))
    ensures NumberFromWire(target, element, leaf, w) != Int(n)
  {
    hide Pow2, NumberBits, SignExtend, Narrow, InType, NumberFromWire;
    var d, k := n - Offset(leaf), leaf.scale;
    Pow2Below32(LeafBits(leaf));
    ProductNotNegative(d, k);
    if target.Rust? && AddsFirst(element, leaf) {
      ModAtMost(d * k, Pow2(LeafBits(leaf)));
      AddedFirst(element, leaf, n, w);
    } else {
      DividedFirst(target, element, leaf, n, w);
    }
  }

  lemma AddedFirst(element: bool, leaf: Leaf, n: int, w: nat)
    requires leaf.Number? && WellFormedLeaf(leaf) && AddsFirst(element, leaf)
    requires leaf.scale + Offset(leaf) < 0x1_0000_0000
    requires InType(CType(false, 32), n) && InType(CType(false, 32), Offset(leaf)) && Offset(leaf) <= n
    requires w <= (n - Offset(leaf)) * leaf.scale && w < 0x1_0000_0000
    ensures NumberFromWire(Rust, element, leaf, w) != Int(n)
  {
    hide Pow2, NumberBits, Narrow, InType;
    UnsignedOffset(CType(false, 32), Offset(leaf));
    AddedDivisor(w, n - Offset(leaf), leaf.scale, Offset(leaf));
    SmallerUnsigned(CType(false, 32), n, w / (leaf.scale + Offset(leaf)));
  }

  lemma DividedFirst(target: Target, element: bool, leaf: Leaf, n: int, w: nat)
    requires leaf.Number? && WellFormedLeaf(leaf) && !leaf.raw && !SignExtends(target, leaf)
    requires target.Rust? ==> !AddsFirst(element, leaf)
    requires InType(Storage(target, leaf.ctype), n) && InType(Storage(target, leaf.ctype), Offset(leaf))
    requires Offset(leaf) <= n
    requires w < (n - Offset(leaf)) * leaf.scale && w < 0x1_0000_0000 && (leaf.ctype.signed ==> w < 0x8000_0000)
    ensures NumberFromWire(target, element, leaf, w) != Int(n)
  {
    hide Pow2, NumberBits, Narrow, InType, SignExtend;
    QuotientBelow(w, n - Offset(leaf), leaf.scale);
    StillInType(Storage(target, leaf.ctype), Offset(leaf), w / leaf.scale + Offset(leaf), n);
  }

  lemma UnsignedOffset(t: CType, n: int)
    requires InType(t, n) && !t.signed
    ensures n >= 0
  {
  }

  lemma SmallerUnsigned(t: CType, n: int, q: nat)
    requires t.width in {8, 16, 32} && !t.signed && InType(t, n) && q < n
    ensures Narrow(t, q) == q != n
  {
    NarrowFinds(t, q, q, 0);
  }

  lemma StillInType(t: CType, lo: int, x: int, hi: int)
    requires t.width in {8, 16, 32} && InType(t, lo) && InType(t, hi) && lo <= x < hi
    ensures Narrow(t, x) == x != hi
  {
    Between(t, lo, x, hi);
    NarrowFinds(t, x, x, 0);
  }

  // ---- What lies inside and outside ----

  /** A raw field carries the scaled values of its declared range, as far as its type holds them. */
  lemma RawRangeFits(target: Target, element: bool, leaf: Leaf, n: int)
    requires leaf.Number? && WellFormedLeaf(leaf) && leaf.raw && leaf.min.Some? && leaf.max.Some?
    requires leaf.min.value <= leaf.max.value && RangeBits(leaf.min.value, leaf.max.value, leaf.scale) <= LeafBits(leaf)
    requires leaf.min.value * leaf.scale <= n <= leaf.max.value * leaf.scale && InType(leaf.ctype, n)
    ensures InRange(target, element, leaf, Int(n))
  {
    hide NumberBits, RangeBits, InType, Pow2, InRange;
    var bits, least, s := LeafBits(leaf), RangeBits(leaf.min.value, leaf.max.value, leaf.scale), Scaled(leaf, n);
    DerivedWidthIsLeast(leaf.min.value, leaf.max.value, leaf.scale);
    assert Holds(least, Steps(leaf.max.value, leaf.min.value, leaf.scale));
    Distribute(leaf.scale, leaf.max.value, leaf.min.value);
    Pow2Grows(least, bits);
    assert Holds(bits, s);
    Between(leaf.ctype, n, n, n);
    HeldIsInRange(target, element, leaf, n);
  }

  /**
   Without a scale or a minimum, on the bits of its type, C carries
   every number, and Rust all but negative ones below 32 bits.
   */
  lemma WholeTypeFitsExactly(target: Target, element: bool, leaf: Leaf, n: int)
    requires leaf.Number? && WellFormedLeaf(leaf) && leaf.min.None? && leaf.scale == 1
    requires leaf.ctype.width <= LeafBits(leaf) && InType(leaf.ctype, n)
    ensures InRange(target, element, leaf, Int(n)) <==> target.C? || LeafBits(leaf) == 32 || n >= 0
  {
    hide Pow2, NumberBits;
    Pow2OfWords();
    Between(leaf.ctype, n, n, n);
    Pow2Grows(leaf.ctype.width, LeafBits(leaf));
    Pow2Grows(leaf.ctype.width - 1, LeafBits(leaf) - 1);
    Pow2Below32(LeafBits(leaf));
    var store := Storage(target, leaf.ctype);
    if n >= 0 {
      DivideUnique(n, Pow2(store.width), 0, n);
    } else {
      DivideUnique(n, Pow2(store.width), -1, n + Pow2(store.width));
    }
  }

  /**
   A negative raw number without a minimum is lost when the field
   is narrower than its type: -3 on 5 bits is read back as 29.
   */
  lemma RawNegativeIsLost()
    ensures var leaf := Number(CType(true, 8), true, None, None, 1, Some(5));
            && WellFormedLeaf(leaf)
            && Matches(C, leaf, Int(-3))
            && DecodeLeaf(C, false, leaf, EncodeLeaf(C, leaf, Int(-3))) == Int(29)
  {
    hide Pow2, LowBits, ToNat, InType;
    SmallPowers();
    ToNatOfLowBits(0xFFFF_FFFD, 5);
  }

  /**
   With a scale and a minimum the Rust scalar decoder adds before
   dividing: 20 is read back as 1, though an array element survives.
   */
  lemma RustScalarAddsFirst()
    ensures var leaf := Number(CType(false, 8), false, Some(10), None, 2, None);
            && WellFormedLeaf(leaf)
            && DecodeLeaf(Rust, false, leaf, EncodeLeaf(Rust, leaf, Int(20))) == Int(1)
            && DecodeLeaf(Rust, true, leaf, EncodeLeaf(Rust, leaf, Int(20))) == Int(20)
  {
    hide Pow2, LowBits, ToNat, NumberFromWire, U32;
    var leaf := Number(CType(false, 8), false, Some(10), None, 2, None);
    Pow2OfWords();
    ToNatOfLowBits(20, 8);
    U32OfSmall(20);
    TwentyFromWire(leaf);
  }

  lemma TwentyFromWire(leaf: Leaf)
    requires leaf == Number(CType(false, 8), false, Some(10), None, 2, None)
    ensures NumberFromWire(Rust, false, leaf, 20) == Int(1)
    ensures NumberFromWire(Rust, true, leaf, 20) == Int(20)
  {
    hide Pow2, U32;
    Pow2OfWords();
    U32OfSmall(12);
  }

  /**
   Without sign extension the Rust decoder loses negative numbers on
   fewer than 32 bits that have no minimum; the C decoder keeps them.
   */
  lemma RustLosesSign()
    ensures var leaf := Number(CType(true, 8), false, None, None, 1, None);
            && WellFormedLeaf(leaf)
            && Matches(Rust, leaf, Int(-1))
            && DecodeLeaf(Rust, false, leaf, EncodeLeaf(Rust, leaf, Int(-1))) == Int(255)
            && InRange(C, false, leaf, Int(-1))
  {
    hide Pow2, LowBits, ToNat;
    Pow2OfWords();
    ToNatOfLowBits(0xFFFF_FFFF, 8);
  }

  // ---- Rust's plain operators ----

  predicate IsInt32(x: int) {
    -0x8000_0000 <= x <= 0x7FFF_FFFF
  }

  /** Up to 31 bits, Rust's unchecked `- min` and `+ min` on an i32 never leave the i32. */
  lemma RustStaysInRange(leaf: Leaf, n: int, min: int)
    requires leaf.Number? && WellFormedLeaf(leaf) && leaf.ctype.signed && leaf.min.Some?
    requires min == (if leaf.raw then leaf.min.value * leaf.scale else leaf.min.value)
    requires IsInt32(n) && IsInt32(min) && Holds(31, Scaled(leaf, n))
    ensures IsInt32(n - min)
    ensures leaf.raw ==> IsInt32(Scaled(leaf, n) + min)
    ensures !leaf.raw ==> IsInt32(Scaled(leaf, n) / leaf.scale + min)
  {
    hide Pow2;
    Pow2OfWords();
    if !leaf.raw {
      QuotientOfProduct(n - min, leaf.scale);
      MulMonotone(1, leaf.scale, if n >= min then n - min else 0);
    }
  }
}
