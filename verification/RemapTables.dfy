/**
 The tables of a remapped enum: its variants carry sparse byte values, the wire carries
 their index. The dense table and the sorted table with its binary search are built and
 searched as the generated header does it, and both invert WIRE_TO_VALUE.
 */
module RemapTables {
  import opened Bytes
  import opened BitStrings
  import opened Schema

  /** The wire index of a declared value; undeclared values are written as 0. */
  function WireIndex(values: seq<byte>, v: byte): (i: nat)
    ensures v in values ==> i < |values| && values[i] == v
    ensures v !in values ==> i == 0
  {
    if v !in values then 0
    else if values[0] == v then 0
    else 1 + WireIndex(values[1..], v)
  }

  lemma {:induction false} WireIndexIsUnique(values: seq<byte>, i: nat)
    requires Distinct(values) && i < |values|
    ensures WireIndex(values, values[i]) == i
  {
    var j := WireIndex(values, values[i]);
    assert values[j] == values[i];
  }

  /** Distinct byte values are at most 256, so an index fits the byte the tables store it in. */
  lemma {:induction false} AtMost256(values: seq<byte>, bound: nat)
    requires Distinct(values) && forall i | 0 <= i < |values| :: values[i] as int < bound
    ensures |values| <= bound
    decreases bound
  {
    if values != [] {
      assert values[0] as int < bound;
      if i: nat :| i < |values| && values[i] as int == bound - 1 {
        AtMost256(values[..i] + values[i + 1..], bound - 1);
      } else {
        AtMost256(values, bound - 1);
      }
    }
  }

  lemma IndexFitsByte(values: seq<byte>)
    requires Distinct(values)
    ensures |values| <= 256
  {
    AtMost256(values, 256);
  }

  /** Every wire index fits the enum's width. */
  lemma IndexFitsWidth(values: seq<byte>, v: byte)
    requires values != []
    ensures WireIndex(values, v) < Pow2(EnumBits(|values|))
  {
    EnumBitsAreLeast(|values|);
    assert Holds(EnumBits(|values|), WireIndex(values, v));
  }

  function MaxValue(values: seq<byte>): (m: byte)
    requires values != []
    ensures m in values && forall v | v in values :: v <= m
  {
    if |values| == 1 then values[0]
    else
      var rest := MaxValue(values[1..]);
      assert values == [values[0]] + values[1..];
      if rest > values[0] then rest else values[0]
  }

  // ---- The dense table ----

  /** VALUE_TO_WIRE: one entry for each value up to the largest, 0 where nothing is declared. */
  method DenseTable(values: seq<byte>) returns (table: seq<byte>)
    requires values != [] && Distinct(values)
    ensures |table| == MaxValue(values) as int + 1
    ensures forall v: byte | v as int < |table| :: table[v] as int == WireIndex(values, v)
  {
    hide MaxValue, WireIndex, Distinct;
    IndexFitsByte(values);
    table := [];
    for i := 0 to MaxValue(values) as int + 1
      invariant |table| == i
      invariant forall v: byte | v as int < i :: table[v] as int == WireIndex(values, v)
    {
      var entry: byte := 0;
      ghost var found := false;
      for k := 0 to |values|
        invariant found ==> i as byte in values && entry as int == WireIndex(values, i as byte)
        invariant !found ==> entry == 0 && i as byte !in values[..k]
      {
        if values[k] as int == i {
          entry := k as byte;
          found := true;
          WireIndexIsUnique(values, k);
        }
      }
      assert values[..|values|] == values;
      table := table + [entry];
    }
  }

  // ---- The sorted table and its search ----

  datatype Entry = Entry(value: byte, wire: byte)

  function Entries(values: seq<byte>): (s: seq<Entry>)
    requires |values| <= 256
    ensures |s| == |values| && forall i | 0 <= i < |s| :: s[i] == Entry(values[i], i as byte)
  {
    seq(|values|, i requires 0 <= i < |values| => Entry(values[i], i as byte))
  }

  predicate Sorted(s: seq<Entry>) {
    forall i, j | 0 <= i < j < |s| :: s[i].value <= s[j].value
  }

  /** `sorted(variants, key=value)`: stable, so equal values keep their order. */
  function SortByValue(s: seq<Entry>): (t: seq<Entry>)
    ensures Sorted(t) && |t| == |s| && multiset(t) == multiset(s)
  {
    if s == [] then [] else
      assert s == [s[0]] + s[1..];
      Insert(s[0], SortByValue(s[1..]))
  }

  function Insert(e: Entry, s: seq<Entry>): (t: seq<Entry>)
    requires Sorted(s)
    ensures Sorted(t) && |t| == |s| + 1 && multiset(t) == multiset{e} + multiset(s)
    ensures t != [] && t[0].value == if s == [] || e.value <= s[0].value then e.value else s[0].value
  {
    if s == [] || e.value <= s[0].value then [e] + s
    else
      assert s == [s[0]] + s[1..];
      var rest := Insert(e, s[1..]);
      PutInFront(s[0], rest);
      [s[0]] + rest
  }

  lemma PutInFront(e: Entry, s: seq<Entry>)
    requires Sorted(s) && (s != [] ==> e.value <= s[0].value)
    ensures Sorted([e] + s)
  {
  }

  /** `valueToWire`, over VALUE_WIRE_SORTED. */
  method ValueToWire(table: seq<Entry>, value: byte) returns (wire: byte)
    requires Sorted(table)
    ensures (forall e | e in table :: e.value != value) ==> wire == 0
    ensures (exists e :: e in table && e.value == value) ==> Entry(value, wire) in table
  {
    var lo, hi := 0, |table|;
    while lo < hi
      invariant 0 <= lo <= hi <= |table|
      invariant forall i | 0 <= i < lo :: table[i].value < value
      invariant forall i | hi <= i < |table| :: table[i].value >= value
    {
      var mid := lo + (hi - lo) / 2;
      if table[mid].value < value {
        lo := mid + 1;
      } else {
        hi := mid;
      }
    }
    if lo < |table| && table[lo].value == value {
      return table[lo].wire;
    }
    return 0;
  }

  /** The search, on the table the generator emits, finds the wire index of every byte. */
  method SearchValue(values: seq<byte>, value: byte) returns (wire: byte)
    requires Distinct(values)
    ensures wire as int == WireIndex(values, value)
  {
    hide Sorted, SortByValue, WireIndex;
    IndexFitsByte(values);
    var table := SortByValue(Entries(values));
    SameEntries(values, table);
    wire := ValueToWire(table, value);
    if value in values {
      var i := WireIndex(values, value);
      assert Entry(value, i as byte) in table;
      assert Entry(value, wire) in table;
      WireIndexIsUnique(values, wire as int);
    }
  }

  lemma SameEntries(values: seq<byte>, table: seq<Entry>)
    requires |values| <= 256 && multiset(table) == multiset(Entries(values))
    ensures forall e :: e in table <==> e.wire as int < |values| && values[e.wire] == e.value
  {
    var entries := Entries(values);
    forall e
      ensures e in table <==> e.wire as int < |values| && values[e.wire] == e.value
    {
      assert e in table <==> e in multiset(table);
      assert e in entries <==> e in multiset(entries);
      if e.wire as int < |values| && values[e.wire] == e.value {
        assert entries[e.wire] == e;
      }
    }
  }

  // ---- What the two strategies promise ----

  /** Dense and sorted lookups agree on every value up to the largest declared one. */
  method LookUpBothWays(values: seq<byte>, value: byte) returns (dense: byte, searched: byte)
    requires values != [] && Distinct(values) && value <= MaxValue(values)
    ensures dense == searched
    ensures value !in values ==> dense == 0
    ensures value in values ==> dense as int < |values| && values[dense] == value
  {
    var table := DenseTable(values);
    dense := table[value];
    searched := SearchValue(values, value);
  }

  /** Value to wire and WIRE_TO_VALUE undo each other, both ways. */
  lemma RemapIsInverse(values: seq<byte>)
    requires Distinct(values)
    ensures forall i | 0 <= i < |values| :: WireIndex(values, values[i]) == i
    ensures forall v | v in values :: values[WireIndex(values, v)] == v
  {
    hide WireIndex;
    forall i | 0 <= i < |values|
      ensures WireIndex(values, values[i]) == i
    {
      WireIndexIsUnique(values, i);
    }
  }
}
