/**
 Leaf values on the wire: what the generated C and Rust code hand to `pack_bits` and make
 of the number `unpack_bits` returns, with the casts, wrap-around and truncating division
 of the two languages.
 */
module LeafCodec {
  import opened Arithmetic
  import opened Bytes
  import opened BitStrings
  import opened Schema
  import RemapTables

  datatype Target = C | Rust

  /**
   `Unset` is what the code leaves undefined: a read past the end of a table, or a division by zero.
   `Cleared` is a payload that no variant has written: the zero bytes that `memset` left in the C union.
   */
  datatype Value =
    | Flag(b: bool)
    | Int(n: int)
    | Record(fields: seq<FieldValue>)
    | Variant(tag: nat, payload: Value)
    | Cleared
    | Unset

  datatype FieldValue = One(value: Value) | Many(values: seq<Value>) | Absent | Present(value: Value)

  // ---- Machine integers ----

  /** `(uint32_t)x`. */
  function U32(x: int): (w: nat)
    ensures w < 0x1_0000_0000
  {
    x % 0x1_0000_0000
  }

  /** `(int32_t)w`. */
  function AsInt32(w: nat): int
    requires w < 0x1_0000_0000
  {
    if w >= 0x8000_0000 then w - 0x1_0000_0000 else w
  }

  /** n is a two's complement number of that many bits. */
  predicate HoldsSigned(bits: nat, n: int)
    requires bits >= 1
  {
    -(Pow2(bits - 1) as int) <= n < Pow2(bits - 1)
  }

  predicate InType(t: CType, n: int) {
    if t.signed && t.width >= 1 then HoldsSigned(t.width, n) else Holds(t.width, n)
  }

  /** Storing x in a variable of type t. */
  function Narrow(t: CType, x: int): int {
    var r := x % Pow2(t.width);
    if t.signed && t.width >= 1 && r >= Pow2(t.width - 1) then r - Pow2(t.width) else r
  }

  /** Division that rounds toward zero. */
  function Quotient(a: int, b: nat): int
    requires b >= 1
  {
    if a >= 0 then a / b else -((-a) / b)
  }

  /** `sign_extend`. */
  function SignExtend(value: nat, bits: nat): int
    requires 1 <= bits && value < 0x1_0000_0000
  {
    if bits >= 32 then AsInt32(value)
    else if BitOf(value, bits - 1) then AsInt32(U32(value % Pow2(bits) + 0x1_0000_0000 - Pow2(bits)))
    else AsInt32(value)
  }

  // ---- The generated expressions ----

  /** Rust structs hold every number as an i32 or u32; C structs use the declared type. */
  function Storage(target: Target, t: CType): CType {
    if target.C? then t else CType(t.signed, 32)
  }

  function Offset(leaf: Leaf): int
    requires leaf.Number?
  {
    if leaf.min.Some? then leaf.min.value else 0
  }

  /** What is packed for the number n, before any cast. */
  function Scaled(leaf: Leaf, n: int): int
    requires leaf.Number?
  {
    if leaf.raw then n - Offset(leaf) * leaf.scale else (n - Offset(leaf)) * leaf.scale
  }

  /** The values a variable of the leaf's type holds. A Rust enum is its index, a C enum its value. */
  predicate Matches(target: Target, leaf: Leaf, v: Value) {
    match leaf
    case Bool => v.Flag?
    case Enum(count) => v.Int? && 0 <= v.n < count
    case Remap(values, _) =>
      v.Int? && if target.C? then 0 <= v.n < 256 && v.n as byte in values else 0 <= v.n < |values|
    case Number(ctype, _, _, _, _, _) => v.Int? && InType(Storage(target, ctype), v.n)
  }

  /** The number handed to `pack_bits`. */
  function Wire(target: Target, leaf: Leaf, v: Value): (w: nat)
    requires Matches(target, leaf, v)
  {
    match leaf
    case Bool => if v.b then 1 else 0
    case Enum(_) => v.n
    case Remap(values, _) => if target.C? then RemapTables.WireIndex(values, v.n as byte) else v.n
    case Number(_, _, _, _, _, _) => U32(Scaled(leaf, v.n))
  }

  /**
   The value made of the number w that was unpacked. `element` tells array elements,
   optionals and union payloads from plain struct fields, whose Rust form differs: there
   `/ scale.wrapping_add(min)` adds before it divides.
   */
  function FromWire(target: Target, element: bool, leaf: Leaf, w: nat): Value
    requires WellFormedLeaf(leaf) && w < 0x1_0000_0000
  {
    match leaf
    case Bool => Flag(w != 0)
    case Enum(count) => if target.C? || w < count then Int(w) else Int(0)
    case Remap(values, _) =>
      if target.C? then (if w < |values| then Int(values[w] as int) else Unset)
      else Int(if w < |values| then w else 0)
    case Number(_, _, _, _, _, _) => NumberFromWire(target, element, leaf, w)
  }

  function NumberFromWire(target: Target, element: bool, leaf: Leaf, w: nat): Value
    requires WellFormedLeaf(leaf) && leaf.Number? && w < 0x1_0000_0000
  {
    var store, scale := Storage(target, leaf.ctype), leaf.scale;
    if leaf.raw then Int(Narrow(store, AsInt32(w) + Offset(leaf) * scale))
    else if leaf.ctype.signed then
      if leaf.min.None? && target.C? then Int(Narrow(store, Quotient(SignExtend(w, LeafBits(leaf)), scale)))
      else Int(Narrow(store, Quotient(AsInt32(w), scale) + Offset(leaf)))
    else if target.Rust? && AddsFirst(element, leaf) then
      var divisor := U32(scale + Offset(leaf));
      if divisor == 0 then Unset else Int(Narrow(store, w / divisor))
    else Int(Narrow(store, w / scale + Offset(leaf)))
  }

  predicate AddsFirst(element: bool, leaf: Leaf)
    requires leaf.Number?
  {
    !element && !leaf.raw && !leaf.ctype.signed && leaf.scale != 1 && Offset(leaf) != 0
  }

  function EncodeLeaf(target: Target, leaf: Leaf, v: Value): (s: seq<bool>)
    requires Matches(target, leaf, v)
    ensures |s| == LeafBits(leaf)
  {
    LowBits(Wire(target, leaf, v), LeafBits(leaf))
  }

  lemma LeafBitsBound(leaf: Leaf)
    requires WellFormedLeaf(leaf)
    ensures 1 <= LeafBits(leaf) <= 32
  {
    if leaf.Enum? {
      EnumBitsBound(leaf.count);
    } else if leaf.Remap? {
      RemapTables.IndexFitsByte(leaf.values);
      EnumBitsBound(|leaf.values|);
    }
  }

  lemma EnumBitsBound(count: nat)
    requires 1 <= count <= 256
    ensures 1 <= EnumBits(count) <= 8
  {
    EnumBitsAreLeast(count);
    Pow2OfWords();
  }

  function DecodeLeaf(target: Target, element: bool, leaf: Leaf, s: seq<bool>): Value
    requires WellFormedLeaf(leaf) && |s| == LeafBits(leaf)
  {
    WordBound(leaf, s);
    FromWire(target, element, leaf, ToNat(s))
  }

  lemma WordBound(leaf: Leaf, s: seq<bool>)
    requires WellFormedLeaf(leaf) && |s| == LeafBits(leaf)
    ensures ToNat(s) < 0x1_0000_0000
  {
    LeafBitsBound(leaf);
    ToNatBound(s);
    Pow2Grows(LeafBits(leaf), 32);
    Pow2OfWords();
  }

  // ---- Round trip ----

  /** The values that survive the wire. */
  predicate InRange(target: Target, element: bool, leaf: Leaf, v: Value)
    requires WellFormedLeaf(leaf)
  {
    Matches(target, leaf, v) && (leaf.Number? ==> NumberInRange(target, element, leaf, v.n))
  }

  /** Only C extends the sign, and only where there is no minimum. */
  predicate SignExtends(target: Target, leaf: Leaf)
    requires leaf.Number?
  {
    target.C? && !leaf.raw && leaf.ctype.signed && leaf.min.None?
  }

  /**
   Unscaled numbers are added back on the width of their storage, so they survive whatever wraps around in between.
   Scaled ones must come through the cast and the division. LeafLimits shows how exact this is.
   */
  predicate NumberInRange(target: Target, element: bool, leaf: Leaf, n: int)
    requires WellFormedLeaf(leaf) && leaf.Number?
  {
    var bits, s := LeafBits(leaf), Scaled(leaf, n);
    if SignExtends(target, leaf) then HoldsSigned(bits, s)
    else if leaf.raw || leaf.scale == 1 then s % Pow2(Storage(target, leaf.ctype).width) < Pow2(bits)
    else if leaf.ctype.signed && bits == 32 then HoldsSigned(32, s)
    else Holds(bits, s) && (target.Rust? ==> !AddsFirst(element, leaf))
  }

  /** A leaf value in range is read back from the bits written for it. */
  lemma LeafRoundTrip(target: Target, element: bool, leaf: Leaf, v: Value)
    requires WellFormedLeaf(leaf) && InRange(target, element, leaf, v)
    ensures DecodeLeaf(target, element, leaf, EncodeLeaf(target, leaf, v)) == v
  {
    hide Pow2, LowBits, ToNat, EnumBits, NumberBits, CeilLog2, InType, SignExtend, Narrow, Quotient;
    var w, bits := Wire(target, leaf, v), LeafBits(leaf);
    ToNatOfLowBits(w, bits);
    WordBound(leaf, EncodeLeaf(target, leaf, v));
    match leaf
    case Bool => Pow2OfWords(); DivideUnique(w, Pow2(bits), 0, w);
    case Enum(count) =>
      EnumBitsAreLeast(count);
      assert Holds(bits, w);
      DivideUnique(w, Pow2(bits), 0, w);
    case Remap(values, _) =>
      EnumBitsAreLeast(|values|);
      assert Holds(bits, w);
      DivideUnique(w, Pow2(bits), 0, w);
    case Number(_, _, _, _, _, _) =>
      NumberRoundTrip(target, element, leaf, v.n);
  }

  lemma NumberRoundTrip(target: Target, element: bool, leaf: Leaf, n: int)
    requires WellFormedLeaf(leaf) && leaf.Number? && InRange(target, element, leaf, Int(n))
    ensures U32(Scaled(leaf, n)) % Pow2(LeafBits(leaf)) < 0x1_0000_0000
    ensures NumberFromWire(target, element, leaf, U32(Scaled(leaf, n)) % Pow2(LeafBits(leaf))) == Int(n)
  {
    hide Pow2, NumberBits, InType, SignExtend, NumberFromWire, Scaled, U32;
    var s, bits := Scaled(leaf, n), LeafBits(leaf);
    LeafBitsBound(leaf);
    WireIsResidue(s, bits);
    if SignExtends(target, leaf) {
      SignedWire(s, bits);
      SignExtendedReadsBack(element, leaf, n, U32(s) % Pow2(bits));
    } else if leaf.raw || leaf.scale == 1 {
      UnscaledReadsBackExactly(target, element, leaf, n);
    } else if leaf.ctype.signed && bits == 32 {
      CastOfWord(s);
      ScaledReadsBack(target, element, leaf, n, U32(s) % Pow2(bits));
    } else {
      Pow2Below32(bits);
      DivideUnique(s, Pow2(bits), 0, s);
      ScaledReadsBack(target, element, leaf, n, s);
    }
  }

  lemma Pow2Below32(bits: nat)
    requires bits <= 32
    ensures Pow2(bits) <= 0x1_0000_0000 && (bits < 32 ==> Pow2(bits) <= 0x8000_0000)
  {
    hide Pow2;
    Pow2OfWords();
    Pow2Grows(bits, 32);
    if bits < 32 {
      Pow2Grows(bits, 31);
    }
  }

  /** Cutting to 32 bits before cutting to the field makes no difference. */
  lemma WireIsResidue(s: int, bits: nat)
    requires bits <= 32
    ensures U32(s) % Pow2(bits) == s % Pow2(bits) < 0x1_0000_0000
  {
    hide Pow2;
    Pow2OfWords();
    ModOfMod(s, bits, 32);
    Pow2Below32(bits);
  }

  /** A signed 32-bit number is the cast of its word. */
  lemma CastOfWord(s: int)
    requires HoldsSigned(32, s)
    ensures U32(s) % Pow2(32) < 0x1_0000_0000 && AsInt32(U32(s) % Pow2(32)) == s
  {
    hide Pow2;
    Pow2OfWords();
  }

  /**
   An unscaled number is read back exactly when its distance from
   the minimum, on the width of its storage, fits the field.
   */
  lemma UnscaledReadsBackExactly(target: Target, element: bool, leaf: Leaf, n: int)
    requires leaf.Number? && WellFormedLeaf(leaf) && (leaf.raw || leaf.scale == 1) && !SignExtends(target, leaf)
    requires InType(Storage(target, leaf.ctype), n)
    ensures U32(Scaled(leaf, n)) % Pow2(LeafBits(leaf)) < 0x1_0000_0000
    ensures NumberFromWire(target, element, leaf, U32(Scaled(leaf, n)) % Pow2(LeafBits(leaf))) == Int(n) <==>
            Scaled(leaf, n) % Pow2(Storage(target, leaf.ctype).width) < Pow2(LeafBits(leaf))
  {
    hide Pow2, NumberBits, InType, Narrow, NumberFromWire, U32;
    var s, bits, store := Scaled(leaf, n), LeafBits(leaf), Storage(target, leaf.ctype);
    LeafBitsBound(leaf);
    WireIsResidue(s, bits);
    var w := s % Pow2(bits);
    var x := UnscaledForm(target, element, leaf, n, w);
    CastIsCongruent(w, store.width);
    NarrowIffCongruent(store, n, x + (n - s));
    AddCongruent(x, s, n - s, Pow2(store.width));
    SameResidue(s, bits, store.width);
  }

  /**
   What is added back to an unscaled number's word: the word or its signed cast, and the distance taken off before.
   */
  lemma UnscaledForm(target: Target, element: bool, leaf: Leaf, n: int, w: nat) returns (x: int)
    requires leaf.Number? && WellFormedLeaf(leaf) && (leaf.raw || leaf.scale == 1) && !SignExtends(target, leaf)
    requires w < 0x1_0000_0000
    ensures x == w || x == AsInt32(w)
    ensures NumberFromWire(target, element, leaf, w) ==
            Int(Narrow(Storage(target, leaf.ctype), x + (n - Scaled(leaf, n))))
  {
    hide Narrow, NumberBits, InType, SignExtend, Quotient;
    QuotientByOne(AsInt32(w));
    x := if leaf.raw || leaf.ctype.signed then AsInt32(w) else w;
  }

  /** The low `bits` bits of s are s on `width` bits exactly when that number fits them. */
  lemma SameResidue(s: int, bits: nat, width: nat)
    ensures (s % Pow2(bits)) % Pow2(width) == s % Pow2(width) <==> s % Pow2(width) < Pow2(bits)
  {
    hide Pow2;
    if bits >= width {
      ModOfMod(s, width, bits);
      Pow2Grows(width, bits);
    } else {
      ModOfMod(s, bits, width);
      Pow2Grows(bits, width);
      DivideUnique(s % Pow2(bits), Pow2(width), 0, s % Pow2(bits));
      if s % Pow2(width) < Pow2(bits) {
        DivideUnique(s % Pow2(width), Pow2(bits), 0, s % Pow2(width));
      }
    }
  }

  lemma CastIsCongruent(w: nat, width: nat)
    requires w < 0x1_0000_0000 && width in {8, 16, 32}
    ensures AsInt32(w) % Pow2(width) == w % Pow2(width)
  {
    hide Pow2;
    Pow2OfWords();
    if width == 8 {
    } else if width == 16 {
    } else {
    }
  }

  lemma NarrowIffCongruent(t: CType, n: int, x: int)
    requires t.width in {8, 16, 32} && InType(t, n)
    ensures Narrow(t, x) == n <==> x % Pow2(t.width) == n % Pow2(t.width)
  {
    hide Pow2;
    Pow2OfWords();
    if t.width == 8 {
    } else if t.width == 16 {
    } else {
    }
  }

  lemma SignExtendedReadsBack(element: bool, leaf: Leaf, n: int, w: nat)
    requires WellFormedLeaf(leaf) && leaf.Number? && !leaf.raw && leaf.ctype.signed && leaf.min.None?
    requires InType(leaf.ctype, n) && w < 0x1_0000_0000 && SignExtend(w, LeafBits(leaf)) == Scaled(leaf, n)
    ensures NumberFromWire(C, element, leaf, w) == Int(n)
  {
    hide NumberBits, InType, SignExtend, Narrow, Quotient, Pow2;
    QuotientOfProduct(n, leaf.scale);
    NarrowFinds(leaf.ctype, n, n, 0);
  }

  lemma ScaledReadsBack(target: Target, element: bool, leaf: Leaf, n: int, w: nat)
    requires WellFormedLeaf(leaf) && leaf.Number? && !leaf.raw && !SignExtends(target, leaf) && w < 0x1_0000_0000
    requires Scaled(leaf, n) == if leaf.ctype.signed then AsInt32(w) else w
    requires target.Rust? ==> !AddsFirst(element, leaf)
    requires InType(Storage(target, leaf.ctype), n)
    ensures NumberFromWire(target, element, leaf, w) == Int(n)
  {
    hide NumberBits, InType, SignExtend, Narrow, Pow2;
    QuotientOfProduct(n - Offset(leaf), leaf.scale);
    NarrowFinds(Storage(target, leaf.ctype), n, n, 0);
  }

  lemma QuotientByOne(a: int)
    ensures Quotient(a, 1) == a
  {
  }

  lemma QuotientOfProduct(n: int, scale: nat)
    requires scale >= 1
    ensures Quotient(n * scale, scale) == n
    ensures n >= 0 ==> n * scale >= 0 && (n * scale) / scale == n
    ensures n < 0 ==> n * scale < 0
  {
    if n >= 0 {
      assert n * scale >= 0;
      DivideUnique(n * scale, scale, n, 0);
    } else {
      assert (-n) * scale == -(n * scale) && (-n) * scale >= scale;
      DivideUnique((-n) * scale, scale, -n, 0);
    }
  }

  /** Storing a number congruent to n gives n, if n is in the type. */
  lemma NarrowFinds(t: CType, n: int, x: int, k: int)
    requires t.width in {8, 16, 32} && InType(t, n) && x == n + k * Pow2(t.width)
    ensures Narrow(t, x) == n
  {
    hide Pow2;
    Pow2OfWords();
    var m := Pow2(t.width);
    if n >= 0 {
      DivideUnique(x, m, k, n);
    } else {
      assert k * m == (k - 1) * m + m;
      DivideUnique(x, m, k - 1, n + m);
    }
  }

  /** The low bits of a signed number, sign-extended, are that number. */
  lemma SignedWire(s: int, bits: nat)
    requires 1 <= bits <= 32 && HoldsSigned(bits, s)
    ensures U32(s) % Pow2(bits) < 0x1_0000_0000
    ensures SignExtend(U32(s) % Pow2(bits), bits) == s
  {
    hide Pow2, BitOf, U32;
    var w := SignedResidue(s, bits);
    HalfPow(bits);
    Pow2OfWords();
    Pow2Grows(bits, 32);
    if bits < 32 {
      Pow2Grows(bits, 31);
      TopBit(w, bits);
      DivideUnique(w, Pow2(bits), 0, w);
      U32OfSmall(w + 0x1_0000_0000 - Pow2(bits));
    }
  }

  lemma U32OfSmall(x: int)
    ensures 0 <= x < 0x1_0000_0000 ==> U32(x) == x
    ensures -0x1_0000_0000 <= x < 0 ==> U32(x) == x + 0x1_0000_0000
  {
  }

  lemma SignedResidue(s: int, bits: nat) returns (w: nat)
    requires 1 <= bits <= 32 && HoldsSigned(bits, s)
    ensures w == U32(s) % Pow2(bits) == if s >= 0 then s else s + Pow2(bits)
  {
    hide Pow2, U32;
    HalfPow(bits);
    Pow2OfWords();
    Pow2Grows(bits, 32);
    U32OfSmall(s);
    var p := Pow2(bits);
    if s >= 0 {
      w := s;
      DivideUnique(s, p, 0, w);
    } else {
      w := s + p;
      var q := Pow2(32 - bits);
      Pow2Sum(bits, 32 - bits);
      Distribute(p, q, 1);
      DivideUnique(U32(s), p, q - 1, w);
    }
  }

  lemma TopBit(w: nat, bits: nat)
    requires bits >= 1 && w < Pow2(bits)
    ensures BitOf(w, bits - 1) == (w >= Pow2(bits - 1))
  {
    HalfPow(bits);
    var p := Pow2(bits - 1);
    if w >= p {
      DivideUnique(w, p, 1, w - p);
    } else {
      DivideUnique(w, p, 0, w);
    }
  }

  lemma HalfPow(bits: nat)
    requires bits >= 1
    ensures Pow2(bits) == 2 * Pow2(bits - 1)
  {
  }

  // ---- Machine numbers ----

  /** The ranges of the six integer types. */
  lemma TypeRanges(t: CType, n: int)
    ensures InType(CType(false, 8), n) <==> 0 <= n <= 255
    ensures InType(CType(true, 8), n) <==> -128 <= n <= 127
    ensures InType(CType(false, 16), n) <==> 0 <= n <= 65535
    ensures InType(CType(true, 16), n) <==> -32768 <= n <= 32767
    ensures InType(CType(false, 32), n) <==> 0 <= n <= 4294967295
    ensures InType(CType(true, 32), n) <==> -2147483648 <= n <= 2147483647
    ensures Storage(C, t) == t && Storage(Rust, t) == CType(t.signed, 32)
  {
    hide Pow2;
    Pow2OfWords();
  }

  /** Casts keep a number modulo the size of the type, and division rounds toward zero. */
  lemma MachineArithmetic(t: CType, x: int, w: nat, scale: nat)
    requires t.width in {8, 16, 32} && w < 0x1_0000_0000 && scale >= 1
    ensures 0 <= U32(x) <= 4294967295 && (x - U32(x)) % 0x1_0000_0000 == 0
    ensures -2147483648 <= AsInt32(w) <= 2147483647 && (w - AsInt32(w)) % 0x1_0000_0000 == 0
    ensures InType(t, Narrow(t, x)) && (InType(t, x) ==> Narrow(t, x) == x)
    ensures Narrow(t, x) % Pow2(t.width) == x % Pow2(t.width)
    ensures x >= 0 ==> 0 <= x - Quotient(x, scale) * scale < scale
    ensures x <= 0 ==> 0 <= Quotient(x, scale) * scale - x < scale
  {
    hide Pow2, InType, Narrow;
    CastU32(x);
    NarrowStays(t, x);
    NarrowIffCongruent(t, Narrow(t, x), x);
    if x >= 0 {
      RoundsDown(x, scale);
    }
    if x <= 0 {
      RoundsDown(-x, scale);
      assert (-Quotient(x, scale)) * scale == -(Quotient(x, scale) * scale);
    }
  }

  lemma CastU32(x: int)
    ensures 0 <= U32(x) <= 4294967295 && (x - U32(x)) % 0x1_0000_0000 == 0
  {
  }

  lemma NarrowStays(t: CType, x: int)
    requires t.width in {8, 16, 32}
    ensures InType(t, Narrow(t, x)) && (InType(t, x) ==> Narrow(t, x) == x)
  {
    hide Pow2;
    Pow2OfWords();
    if InType(t, x) {
      NarrowFinds(t, x, x, 0);
    }
  }

  /** Sign extension: the low bits as they are, minus the weight above them if the top one is set. */
  lemma SignExtendIsExact(w: nat, bits: nat)
    requires 1 <= bits <= 32 && w < Pow2(bits) && w < 0x1_0000_0000
    ensures SignExtend(w, bits) == if w < Pow2(bits - 1) then w else w - Pow2(bits)
  {
    hide Pow2, BitOf, U32;
    Pow2OfWords();
    HalfPow(bits);
    Pow2Below32(bits);
    if bits < 32 {
      TopBit(w, bits);
      DivideUnique(w, Pow2(bits), 0, w);
      U32OfSmall(w + 0x1_0000_0000 - Pow2(bits));
    }
  }
}
