/**
 The layout loop of the generator: named types, sized in dependency order from the sizes
 already stored for the types they mention. It is proved to give every type the size and
 offsets of the type tree its references unfold to.
 */
module LayoutPass {
  import BitStrings
  import opened Bytes
  import opened Schema
  import opened LeafCodec
  import opened Codec
  import opened MessageCodec
  import TopoSort

  datatype TypeRef = Basic(leaf: Leaf) | Named(name: string)

  datatype Member = Member(shape: Shape, ty: TypeRef)

  /** The names are kept in definition order, as the source's dictionaries keep them. */
  datatype Types = Types(
    structs: map<string, seq<Member>>, structNames: seq<string>,
    unions: map<string, seq<Leaf>>, unionNames: seq<string>)
  {
    predicate Has(name: string) {
      name in structs || name in unions
    }
  }

  /** Struct and union names are distinct, and every named reference is to one of them. */
  ghost predicate ValidTypes(t: Types) {
    && Distinct(t.structNames + t.unionNames)
    && (forall n :: n in t.structNames <==> n in t.structs)
    && (forall n :: n in t.unionNames <==> n in t.unions)
    && (forall n, i | n in t.structs && 0 <= i < |t.structs[n]| && t.structs[n][i].ty.Named? ::
          t.Has(t.structs[n][i].ty.name))
  }

  // ---- The reference graph ----

  /** The struct and union names among a struct's field types; the search skips all others. */
  function NamesOf(members: seq<Member>): seq<string> {
    if members == [] then []
    else (if members[0].ty.Named? then [members[0].ty.name] else []) + NamesOf(members[1..])
  }

  lemma {:induction false} NamesOfHas(members: seq<Member>, i: nat)
    requires i < |members| && members[i].ty.Named?
    ensures members[i].ty.name in NamesOf(members)
    decreases |members|
  {
    if i > 0 {
      NamesOfHas(members[1..], i - 1);
    }
  }

  function References(t: Types, name: string): seq<string> {
    if name in t.structs then NamesOf(t.structs[name]) else []
  }

  function GraphOf(t: Types): TopoSort.Graph {
    TopoSort.Graph(t.structNames + t.unionNames, map n | n in t.structs.Keys + t.unions.Keys :: References(t, n))
  }

  lemma GraphIsValid(t: Types)
    requires ValidTypes(t)
    ensures TopoSort.ValidGraph(GraphOf(t))
  {
    var g := GraphOf(t);
    forall n
      ensures n in g.names <==> n in g.refs
    {
      assert n in g.names <==> n in t.structNames || n in t.unionNames;
    }
  }

  // ---- Unfolding references ----

  /** The order the types are processed in: all of them, each after the types it mentions. */
  ghost predicate GoodOrder(t: Types, order: seq<string>) {
    && ValidTypes(t)
    && TopoSort.Ordered(GraphOf(t), order)
    && (forall n :: t.Has(n) <==> n in order)
  }

  /** A mentioned type has a smaller rank. */
  lemma ReferenceGoesDown(t: Types, order: seq<string>, name: string, i: nat)
    requires GoodOrder(t, order) && name in t.structs && i < |t.structs[name]| && t.structs[name][i].ty.Named?
    ensures t.Has(t.structs[name][i].ty.name) && t.structs[name][i].ty.name in order && name in order
    ensures TopoSort.Rank(order, t.structs[name][i].ty.name) < TopoSort.Rank(order, name)
  {
    hide TopoSort.Ordered, TopoSort.Rank;
    var used := t.structs[name][i].ty.name;
    assert t.Has(used) && t.Has(name);
    NamesOfHas(t.structs[name], i);
    TopoSort.EdgeGoesDown(GraphOf(t), order, name, used);
  }

  /** A union's variants are never stored raw, whatever the schema says. */
  function Variants(leaves: seq<Leaf>): (s: seq<Leaf>)
    ensures |s| == |leaves|
  {
    seq(|leaves|, i requires 0 <= i < |leaves| => if leaves[i].Number? then leaves[i].(raw := false) else leaves[i])
  }

  /** The type tree a name stands for. */
  ghost function Resolve(t: Types, order: seq<string>, name: string): Type
    requires GoodOrder(t, order) && t.Has(name)
    decreases TopoSort.Rank(order, name), 1
  {
    if name in t.unions then Union(Variants(t.unions[name]))
    else Struct(ResolveFields(t, order, name, |t.structs[name]|))
  }

  /** The first n fields of a struct. */
  ghost function ResolveFields(t: Types, order: seq<string>, name: string, n: nat): (fields: seq<Field>)
    requires GoodOrder(t, order) && name in t.structs && n <= |t.structs[name]|
    ensures |fields| == n
    decreases assert t.Has(name); TopoSort.Rank(order, name), 0, n
  {
    if n == 0 then []
    else
      ResolveFields(t, order, name, n - 1) + [Field(t.structs[name][n - 1].shape, ResolveRef(t, order, name, n - 1))]
  }

  ghost function ResolveRef(t: Types, order: seq<string>, name: string, i: nat): Type
    requires GoodOrder(t, order) && name in t.structs && i < |t.structs[name]|
    decreases assert t.Has(name); TopoSort.Rank(order, name), 0, i
  {
    match t.structs[name][i].ty
    case Basic(leaf) => Scalar(leaf)
    case Named(used) =>
      ReferenceGoesDown(t, order, name, i);
      Resolve(t, order, used)
  }

  lemma {:induction false} ResolvedFieldsAt(t: Types, order: seq<string>, name: string, n: nat, i: nat)
    requires GoodOrder(t, order) && name in t.structs && i < n <= |t.structs[name]|
    ensures ResolveFields(t, order, name, n)[i] == Field(t.structs[name][i].shape, ResolveRef(t, order, name, i))
    decreases n
  {
    hide GoodOrder, ResolveRef;
    if i < n - 1 {
      ResolvedFieldsAt(t, order, name, n - 1, i);
    }
  }

  /**
   What a name stands for: a union of its variants, none of them raw, or a struct of its members in order and with their
   shapes, each of its leaf type or of what the name it mentions stands for.
   */
  lemma ResolveIsExact(t: Types, order: seq<string>, name: string, i: nat)
    requires GoodOrder(t, order) && t.Has(name)
    ensures name in t.unions ==>
              var ty := Resolve(t, order, name);
              && ty.Union? && |ty.variants| == |t.unions[name]|
              && (i < |ty.variants| ==>
                    var leaf := t.unions[name][i];
                    ty.variants[i] == if leaf.Number? then leaf.(raw := false) else leaf)
    ensures name !in t.unions ==>
              var ty, members := Resolve(t, order, name), t.structs[name];
              && ty.Struct? && |ty.fields| == |members|
              && (i < |members| ==>
                    && ty.fields[i].shape == members[i].shape
                    && match members[i].ty
                       case Basic(leaf) => ty.fields[i].ty == Scalar(leaf)
                       case Named(used) => t.Has(used) && ty.fields[i].ty == Resolve(t, order, used))
  {
    if name !in t.unions && i < |t.structs[name]| {
      ResolvedFieldsAt(t, order, name, |t.structs[name]|, i);
      if t.structs[name][i].ty.Named? {
        ReferenceGoesDown(t, order, name, i);
      }
    }
    hide GoodOrder;
  }

  // ---- The pass ----

  datatype FieldLayout = FieldLayout(elemBits: nat, bits: nat, bitOffset: nat, valueBitOffset: nat)

  datatype Layout = Layout(totalBits: nat, wireSize: nat, fields: seq<FieldLayout>, hasNested: bool)

  /** A stored layout is that of the type tree. */
  ghost predicate LayoutOf(t: Types, order: seq<string>, name: string, layout: Layout)
    requires GoodOrder(t, order) && t.Has(name)
  {
    var ty := Resolve(t, order, name);
    && layout.totalBits == TotalBits(ty)
    && layout.wireSize == WireSize(ty)
    && (ty.Struct? ==> FieldLayoutsOf(ty.fields, layout.fields))
    && (ty.Struct? ==> (layout.hasNested <==> !IsFlat(ty.fields)))
  }

  ghost predicate FieldLayoutsOf(fields: seq<Field>, layouts: seq<FieldLayout>) {
    |layouts| == |fields| && forall i | 0 <= i < |fields| :: layouts[i] == FieldLayoutOf(fields, i)
  }

  function FieldLayoutOf(fields: seq<Field>, i: nat): FieldLayout
    requires i < |fields|
  {
    FieldLayout(TotalBits(fields[i].ty), FieldBits(fields[i]), BitOffset(fields, i), ValueBitOffset(fields, i))
  }

  datatype Result =
    | Layouts(order: seq<string>, layouts: map<string, Layout>, needsHelper: set<string>)
    | Cycle(walk: seq<string>)

  /** The sizing part of `process_schema`. */
  method ProcessTypes(t: Types) returns (r: Result)
    requires ValidTypes(t)
    ensures r.Cycle? <==> TopoSort.Cyclic(GraphOf(t))
    ensures r.Cycle? ==> TopoSort.ReportsCycle(GraphOf(t), r.walk)
    ensures r.Layouts? ==>
              && GoodOrder(t, r.order)
              && forall n | t.Has(n) :: n in r.layouts && LayoutOf(t, r.order, n, r.layouts[n])
    ensures r.Layouts? ==> forall n :: n in r.needsHelper <==> Mentioned(t, n)
  {
    hide TopoSort.Cyclic, TopoSort.ReportsCycle, TopoSort.Ordered, Distinct, ValidTypes, References, GraphOf;
    hide LayoutOf, Mentioned;
    GraphIsValid(t);
    var sorted := TopoSort.Sort(GraphOf(t));
    if sorted.Cycle? {
      return Cycle(sorted.walk);
    }
    var order := sorted.order;
    OrderIsGood(t, order);
    var layouts: map<string, Layout>, needsHelper: set<string> := map[], {};
    for i := 0 to |order|
      invariant forall n | n in order[..i] :: n in layouts && LayoutOf(t, order, n, layouts[n])
      invariant forall n :: n in needsHelper <==> exists k | 0 <= k < i :: n in References(t, order[k])
    {
      var name := order[i];
      var layout, used := SizeType(t, order, i, name, layouts);
      layouts := layouts[name := layout];
      needsHelper := needsHelper + used;
      assert order[..i + 1] == order[..i] + [name];
    }
    assert order[..|order|] == order;
    MentionedIs(t, order, needsHelper);
    r := Layouts(order, layouts, needsHelper);
  }

  /** Some struct has a field of this type. */
  ghost predicate Mentioned(t: Types, name: string) {
    exists user: string :: t.Has(user) && name in References(t, user)
  }

  lemma MentionedIs(t: Types, order: seq<string>, names: set<string>)
    requires GoodOrder(t, order)
    requires forall n :: n in names <==> exists k | 0 <= k < |order| :: n in References(t, order[k])
    ensures forall n :: n in names <==> Mentioned(t, n)
  {
    hide ValidTypes, TopoSort.Ordered;
    forall n
      ensures n in names <==> Mentioned(t, n)
    {
      if n in names {
        var k :| 0 <= k < |order| && n in References(t, order[k]);
        assert t.Has(order[k]);
      }
      if Mentioned(t, n) {
        var user :| t.Has(user) && n in References(t, user);
        assert user in order;
        var k :| 0 <= k < |order| && order[k] == user;
        assert n in References(t, order[k]);
      }
    }
  }

  lemma NoReferences(t: Types, name: string)
    requires ValidTypes(t) && name in t.unions
    ensures name !in t.structs && References(t, name) == []
  {
    DistinctParts(t.structNames, t.unionNames, name);
  }

  lemma DistinctParts(a: seq<string>, b: seq<string>, n: string)
    requires Distinct(a + b) && n in b
    ensures n !in a
  {
    var j :| 0 <= j < |b| && b[j] == n;
    forall i | 0 <= i < |a|
      ensures a[i] != n
    {
      assert (a + b)[i] != (a + b)[|a| + j];
    }
  }

  lemma OrderIsGood(t: Types, order: seq<string>)
    requires ValidTypes(t)
    requires multiset(order) == multiset(GraphOf(t).names) && TopoSort.Ordered(GraphOf(t), order)
    ensures GoodOrder(t, order)
  {
    hide TopoSort.Ordered, Distinct;
    forall n
      ensures t.Has(n) <==> n in order
    {
      assert n in order <==> n in multiset(order);
      assert n in GraphOf(t).names <==> n in multiset(GraphOf(t).names);
      assert n in GraphOf(t).names <==> n in t.structNames || n in t.unionNames;
    }
  }

  /** When a struct's turn comes, the types it mentions have been sized. */
  lemma EarlierTypesDone(t: Types, order: seq<string>, i: nat, layouts: map<string, Layout>)
    requires GoodOrder(t, order) && i < |order| && order[i] in t.structs
    requires forall n | n in order[..i] :: n in layouts && LayoutOf(t, order, n, layouts[n])
    ensures forall k | 0 <= k < |t.structs[order[i]]| && t.structs[order[i]][k].ty.Named? ::
              var used := t.structs[order[i]][k].ty.name;
              t.Has(used) && used in layouts && LayoutOf(t, order, used, layouts[used])
  {
    hide LayoutOf;
    var name := order[i];
    forall k | 0 <= k < |t.structs[name]| && t.structs[name][k].ty.Named?
      ensures t.structs[name][k].ty.name in order[..i]
    {
      NamesOfHas(t.structs[name], k);
      assert t.Has(t.structs[name][k].ty.name);
      assert t.structs[name][k].ty.name in GraphOf(t).refs[order[i]];
    }
  }

  lemma {:induction false} MaxBitsSnoc(a: seq<Leaf>, leaf: Leaf)
    ensures MaxBits(a + [leaf]) == if LeafBits(leaf) > MaxBits(a) then LeafBits(leaf) else MaxBits(a)
    decreases |a|
  {
    hide LeafBits;
    if a == [] {
      assert (a + [leaf])[1..] == [];
    } else {
      assert (a + [leaf])[1..] == a[1..] + [leaf];
      MaxBitsSnoc(a[1..], leaf);
    }
  }

  /** `enrich_union`. */
  method SizeUnion(t: Types, ghost order: seq<string>, name: string) returns (layout: Layout)
    requires GoodOrder(t, order) && name in t.unions
    ensures t.Has(name) && LayoutOf(t, order, name, layout)
  {
    hide ValidTypes, TopoSort.Ordered;
    var variants := Variants(t.unions[name]);
    var tagBits := TagBits(|variants|);
    var maxBits := 0;
    for i := 0 to |variants|
      invariant maxBits == MaxBits(variants[..i])
    {
      var bits := LeafBits(variants[i]);
      MaxBitsSnoc(variants[..i], variants[i]);
      assert variants[..i + 1] == variants[..i] + [variants[i]];
      maxBits := if bits > maxBits then bits else maxBits;
    }
    assert variants[..|variants|] == variants;
    layout := Layout(tagBits + maxBits, (tagBits + maxBits + 7) / 8, [], false);
  }

  method SizeType(t: Types, ghost order: seq<string>, ghost i: nat, name: string, layouts: map<string, Layout>)
    returns (layout: Layout, used: set<string>)
    requires GoodOrder(t, order) && i < |order| && name == order[i]
    requires forall n | n in order[..i] :: n in layouts && LayoutOf(t, order, n, layouts[n])
    ensures t.Has(name) && LayoutOf(t, order, name, layout)
    ensures forall n :: n in used <==> n in References(t, name)
  {
    hide LayoutOf, References, TopoSort.Ordered, ValidTypes;
    assert t.Has(name);
    if name in t.unions {
      NoReferences(t, name);
      layout := SizeUnion(t, order, name);
      used := {};
    } else {
      EarlierTypesDone(t, order, i, layouts);
      layout, used := SizeStruct(t, order, name, layouts);
    }
  }

  /** The struct case of the loop. */
  method SizeStruct(t: Types, ghost order: seq<string>, name: string, layouts: map<string, Layout>)
    returns (layout: Layout, used: set<string>)
    requires GoodOrder(t, order) && name in t.structs
    requires name !in t.unions
    requires forall k | 0 <= k < |t.structs[name]| && t.structs[name][k].ty.Named? ::
               var n := t.structs[name][k].ty.name;
               t.Has(n) && n in layouts && LayoutOf(t, order, n, layouts[n])
    ensures t.Has(name) && LayoutOf(t, order, name, layout)
    ensures forall n :: n in used <==> n in References(t, name)
  {
    hide GoodOrder, ResolveFields, FieldLayoutsOf, IsFlat, LayoutOf, NamesOf, TotalBits, FieldsBits;
    var members := t.structs[name];
    NothingSized(t, order, name);
    var totalBits := 0;
    var fields: seq<FieldLayout> := [];
    var hasNested := false;
    used := {};
    for i := 0 to |members|
      invariant var done := ResolveFields(t, order, name, i);
                && totalBits == FieldsBits(done)
                && FieldLayoutsOf(done, fields)
                && (hasNested <==> !IsFlat(done))
      invariant forall n :: n in used <==> n in NamesOf(members[..i])
    {
      var m := members[i];
      ElementBits(t, order, name, i, layouts);
      var elemBits := if m.ty.Named? then layouts[m.ty.name].totalBits else LeafBits(m.ty.leaf);
      var flagBits := if m.shape.Optional? then 1 else 0;
      var bits := flagBits + elemBits * Count(m.shape);
      OneMoreLayout(t, order, name, i, fields, FieldLayout(elemBits, bits, totalBits, totalBits + flagBits));
      fields := fields + [FieldLayout(elemBits, bits, totalBits, totalBits + flagBits)];
      totalBits := totalBits + bits;
      if m.ty.Named? {
        hasNested := true;
        used := used + {m.ty.name};
      }
      NamesOfSnoc(members, i);
    }
    assert members[..|members|] == members;
    layout := Layout(totalBits, (totalBits + 7) / 8, fields, hasNested);
    StructIsSized(t, order, name, layout);
  }

  lemma NothingSized(t: Types, order: seq<string>, name: string)
    requires GoodOrder(t, order) && name in t.structs
    ensures ResolveFields(t, order, name, 0) == [] && FieldsBits([]) == 0 && FieldLayoutsOf([], []) && IsFlat([])
    ensures NamesOf(t.structs[name][..0]) == []
  {
  }

  /** The size looked up for a field's type is the size of what it stands for. */
  lemma ElementBits(t: Types, order: seq<string>, name: string, i: nat, layouts: map<string, Layout>)
    requires GoodOrder(t, order) && name in t.structs && i < |t.structs[name]|
    requires t.structs[name][i].ty.Named? ==>
               var n := t.structs[name][i].ty.name;
               t.Has(n) && n in layouts && LayoutOf(t, order, n, layouts[n])
    ensures var r := t.structs[name][i].ty;
            TotalBits(ResolveRef(t, order, name, i)) == if r.Named? then layouts[r.name].totalBits else LeafBits(r.leaf)
  {
    hide GoodOrder, FieldLayoutsOf;
  }

  lemma StructIsSized(t: Types, order: seq<string>, name: string, layout: Layout)
    requires GoodOrder(t, order) && name in t.structs && name !in t.unions
    requires var fields := ResolveFields(t, order, name, |t.structs[name]|);
             && layout.totalBits == FieldsBits(fields)
             && layout.wireSize == (layout.totalBits + 7) / 8
             && FieldLayoutsOf(fields, layout.fields)
             && (layout.hasNested <==> !IsFlat(fields))
    ensures t.Has(name) && LayoutOf(t, order, name, layout)
  {
    hide GoodOrder, ResolveFields, FieldLayoutsOf, IsFlat, FieldsBits;
  }

  lemma {:induction false} NamesOfConcat(a: seq<Member>, b: seq<Member>)
    ensures NamesOf(a + b) == NamesOf(a) + NamesOf(b)
    decreases |a|
  {
    if a == [] {
      assert a + b == b;
    } else {
      var head := if a[0].ty.Named? then [a[0].ty.name] else [];
      assert (a + b)[1..] == a[1..] + b;
      NamesOfConcat(a[1..], b);
      assert NamesOf(a + b) == head + (NamesOf(a[1..]) + NamesOf(b));
    }
  }

  lemma NamesOfSnoc(members: seq<Member>, i: nat)
    requires i < |members|
    ensures NamesOf(members[..i + 1]) ==
            NamesOf(members[..i]) + if members[i].ty.Named? then [members[i].ty.name] else []
  {
    assert members[..i + 1] == members[..i] + [members[i]];
    NamesOfConcat(members[..i], [members[i]]);
    assert NamesOf([members[i]][1..]) == [];
  }

  lemma RefIsFlat(t: Types, order: seq<string>, name: string, i: nat)
    requires GoodOrder(t, order) && name in t.structs && i < |t.structs[name]|
    ensures ResolveRef(t, order, name, i).Scalar? <==> t.structs[name][i].ty.Basic?
  {
    hide GoodOrder, ResolveFields;
  }

  lemma OneMoreLayout(t: Types, order: seq<string>, name: string, i: nat, layouts: seq<FieldLayout>, next: FieldLayout)
    requires GoodOrder(t, order) && name in t.structs && i < |t.structs[name]|
    requires FieldLayoutsOf(ResolveFields(t, order, name, i), layouts)
    requires next.elemBits == TotalBits(ResolveRef(t, order, name, i))
    requires next.bitOffset == FieldsBits(ResolveFields(t, order, name, i))
    requires next.valueBitOffset == next.bitOffset + FlagBits(t.structs[name][i].shape)
    requires next.bits == FlagBits(t.structs[name][i].shape) + next.elemBits * Count(t.structs[name][i].shape)
    ensures FieldLayoutsOf(ResolveFields(t, order, name, i + 1), layouts + [next])
    ensures FieldsBits(ResolveFields(t, order, name, i + 1)) == next.bitOffset + next.bits
    ensures IsFlat(ResolveFields(t, order, name, i + 1)) <==>
            IsFlat(ResolveFields(t, order, name, i)) && t.structs[name][i].ty.Basic?
  {
    RefIsFlat(t, order, name, i);
    hide GoodOrder, TotalBits, FieldsBits, ResolveRef;
    var before, fields := ResolveFields(t, order, name, i), ResolveFields(t, order, name, i + 1);
    assert fields == before + [fields[i]];
    forall k | 0 <= k < i
      ensures BitOffset(fields, k) == BitOffset(before, k)
    {
      assert fields[..k] == before[..k];
    }
    assert fields[..i] == before;
    NextOffset(fields, i);
    assert fields[..i + 1] == fields;
  }

  // ---- What the codec needs ----

  /** If the leaves are well formed, so is every type of an accepted schema, and its values survive the wire. */
  lemma {:induction false} ResolvedIsWellFormed(t: Types, order: seq<string>, name: string)
    requires GoodOrder(t, order) && t.Has(name) && LeavesWellFormed(t)
    ensures WellFormed(Resolve(t, order, name))
    decreases TopoSort.Rank(order, name), 1
  {
    if name !in t.unions {
      FieldsAreWellFormed(t, order, name, |t.structs[name]|);
    } else {
      hide GoodOrder;
      assert forall i | 0 <= i < |t.unions[name]| :: WellFormedLeaf(t.unions[name][i]);
    }
  }

  ghost predicate LeavesWellFormed(t: Types) {
    && (forall n, i | n in t.structs && 0 <= i < |t.structs[n]| && t.structs[n][i].ty.Basic? ::
          WellFormedLeaf(t.structs[n][i].ty.leaf))
    && (forall n | n in t.unions :: 1 <= |t.unions[n]| <= 0x8000_0000)
    && (forall n, i | n in t.unions && 0 <= i < |t.unions[n]| :: WellFormedLeaf(t.unions[n][i]))
  }

  lemma {:induction false} FieldsAreWellFormed(t: Types, order: seq<string>, name: string, n: nat)
    requires GoodOrder(t, order) && name in t.structs && n <= |t.structs[name]| && LeavesWellFormed(t)
    ensures forall i | 0 <= i < n :: WellFormedField(ResolveFields(t, order, name, n)[i])
    decreases assert t.Has(name); TopoSort.Rank(order, name), 0, n
  {
    if n > 0 {
      hide GoodOrder, LeavesWellFormed, ResolveRef, WellFormedField;
      FieldsAreWellFormed(t, order, name, n - 1);
      RefIsWellFormed(t, order, name, n - 1);
    }
  }

  lemma {:induction false} RefIsWellFormed(t: Types, order: seq<string>, name: string, i: nat)
    requires GoodOrder(t, order) && name in t.structs && i < |t.structs[name]| && LeavesWellFormed(t)
    ensures WellFormedField(Field(t.structs[name][i].shape, ResolveRef(t, order, name, i)))
    decreases assert t.Has(name); TopoSort.Rank(order, name), 0, i
  {
    hide GoodOrder, LeavesWellFormed, Resolve;
    if t.structs[name][i].ty.Named? {
      ReferenceGoesDown(t, order, name, i);
      ResolvedIsWellFormed(t, order, t.structs[name][i].ty.name);
    } else {
      BasicIsWellFormed(t, name, i);
    }
  }

  lemma BasicIsWellFormed(t: Types, name: string, i: nat)
    requires LeavesWellFormed(t) && name in t.structs && i < |t.structs[name]| && t.structs[name][i].ty.Basic?
    ensures WellFormedLeaf(t.structs[name][i].ty.leaf)
  {
    hide WellFormedLeaf;
  }

  /** Every type of every acyclic schema: what is encoded is decoded again. */
  lemma AcceptedTypesRoundTrip(t: Types, order: seq<string>, name: string, target: Target, v: Value, bytes: seq<byte>,
                               tail: seq<byte>)
    requires GoodOrder(t, order) && t.Has(name) && LeavesWellFormed(t)
    ensures var ty := Resolve(t, order, name);
            && WellFormed(ty)
            && (Conforms(target, ty, v) && Fits(target, false, ty, v) && Image(target, ty, v, bytes) ==>
                  && |bytes| == WireSize(ty)
                  && TotalBits(ty) <= 8 * |bytes + tail|
                  && Decode(target, false, ty, BitStrings.Window(bytes + tail, 0, TotalBits(ty))) == v)
  {
    ResolvedIsWellFormed(t, order, name);
    hide GoodOrder, Resolve, WellFormed, Conforms, Fits, Decode, TotalBits, LeavesWellFormed;
    var ty := Resolve(t, order, name);
    if Conforms(target, ty, v) && Fits(target, false, ty, v) && Image(target, ty, v, bytes) {
      ImageReadsBack(target, false, ty, v, bytes, tail);
    }
  }
}
