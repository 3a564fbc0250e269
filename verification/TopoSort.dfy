/**
 The dependency order of the schema's structs and unions: a depth-first search over
 mutable marks and an order list, as in the generator. It either returns an order in
 which every referenced type precedes its users, or reports a walk that closes a cycle,
 and it reports one exactly when the references are cyclic.
 */
module TopoSort {
  import opened Bytes

  /** `names` are the structs, then the unions, in definition order; `refs` lists the types each one mentions. */
  datatype Graph = Graph(names: seq<string>, refs: map<string, seq<string>>)

  ghost predicate ValidGraph(g: Graph) {
    && Distinct(g.names)
    && forall n :: n in g.names <==> n in g.refs
  }

  /** The type `user` mentions `used`, and `used` is itself a struct or union. */
  predicate Edge(g: Graph, user: string, used: string) {
    user in g.refs && used in g.refs && used in g.refs[user]
  }

  predicate Walk(g: Graph, w: seq<string>) {
    forall i | 0 <= i < |w| - 1 :: Edge(g, w[i], w[i + 1])
  }

  ghost predicate Cyclic(g: Graph) {
    exists w: seq<string> :: ClosedWalk(g, w)
  }

  predicate ClosedWalk(g: Graph, w: seq<string>) {
    |w| >= 2 && Walk(g, w) && w[0] == w[|w| - 1]
  }

  /** A walk whose last name occurs in it before: what the error message prints. */
  predicate ReportsCycle(g: Graph, w: seq<string>) {
    |w| >= 2 && Walk(g, w) && exists i | 0 <= i < |w| - 1 :: w[i] == w[|w| - 1]
  }

  /** Every type that occurs in the order has all the types it uses before it. */
  predicate Ordered(g: Graph, order: seq<string>) {
    && Distinct(order)
    && (forall n | n in order :: n in g.refs)
    && (forall i, used | 0 <= i < |order| && used in g.refs[order[i]] && used in g.refs :: used in order[..i])
  }

  datatype Result = Sorted(order: seq<string>) | Cycle(walk: seq<string>)

  datatype Mark = Visiting | Done

  /** The marks, the order and the stack of the search agree: `Visiting` is the stack, `Done` is the order so far. */
  ghost predicate Consistent(g: Graph, state: map<string, Mark>, order: seq<string>, stack: seq<string>) {
    && ValidGraph(g)
    && (forall n | n in state :: n in g.refs)
    && Distinct(stack) && Walk(g, stack)
    && (forall n :: n in stack <==> n in state && state[n].Visiting?)
    && (forall n :: n in order <==> n in state && state[n].Done?)
    && Ordered(g, order)
  }

  /** Marking a name that has not been seen puts it on the stack. */
  lemma Enter(g: Graph, state: map<string, Mark>, order: seq<string>, stack: seq<string>, name: string)
    requires Consistent(g, state, order, stack) && name in g.refs && name !in state
    requires stack != [] ==> Edge(g, stack[|stack| - 1], name)
    ensures Consistent(g, state[name := Visiting], order, stack + [name])
  {
    hide Ordered, ValidGraph;
    var path := stack + [name];
    assert forall i | 0 <= i < |path| - 1 :: Edge(g, path[i], path[i + 1]);
  }

  /** Once all its references are in the order, the name on top of the stack goes there too. */
  lemma Leave(g: Graph, state: map<string, Mark>, order: seq<string>, stack: seq<string>, name: string)
    requires Consistent(g, state, order, stack + [name])
    requires forall used | used in g.refs && name in g.refs && used in g.refs[name] :: used in order
    ensures Consistent(g, state[name := Done], order + [name], stack)
  {
    hide Ordered, ValidGraph;
    var path := stack + [name];
    assert path[|stack|] == name;
    assert name in path;
    forall n | n in stack
      ensures n in path && n != name
    {
      var i :| 0 <= i < |stack| && stack[i] == n;
      assert path[i] == n;
    }
    assert forall i | 0 <= i < |stack| :: path[i] == stack[i];
    assert forall i | 0 <= i < |stack| - 1 :: Edge(g, path[i], path[i + 1]);
    Appended(g, order, name);
  }

  /** Coming back to a name on the stack closes a cycle. */
  lemma BackEdge(g: Graph, state: map<string, Mark>, order: seq<string>, stack: seq<string>, name: string)
    requires Consistent(g, state, order, stack) && name in state && state[name].Visiting?
    requires stack != [] ==> Edge(g, stack[|stack| - 1], name)
    ensures ReportsCycle(g, stack + [name])
  {
    hide Ordered, ValidGraph;
    var w := stack + [name];
    var i :| 0 <= i < |stack| && stack[i] == name;
    assert w[i] == w[|w| - 1];
    assert forall i | 0 <= i < |w| - 1 :: Edge(g, w[i], w[i + 1]);
  }

  lemma Basics(g: Graph, state: map<string, Mark>, order: seq<string>, stack: seq<string>)
    requires Consistent(g, state, order, stack)
    ensures forall n :: n in order <==> n in state && state[n].Done?
    ensures forall n | n in state :: n in g.refs
    ensures forall n | n in stack :: n in g.refs
    ensures Ordered(g, order)
  {
  }

  predicate NoComposites(g: Graph, name: string) {
    name in g.refs && forall t | t in g.refs[name] :: t !in g.refs
  }

  class Sorter {
    const g: Graph
    var state: map<string, Mark>
    var order: seq<string>

    constructor (g: Graph)
      requires ValidGraph(g)
      ensures this.g == g && Consistent(g, state, order, []) && order == [] && state == map[]
    {
      this.g := g;
      this.state := map[];
      this.order := [];
    }

    /** `visit`; the result is the walk of the error message, if there is one. */
    method Visit(name: string, stack: seq<string>) returns (cycle: Option<seq<string>>)
      requires Consistent(g, state, order, stack) && name in g.refs
      requires stack != [] ==> Edge(g, stack[|stack| - 1], name)
      modifies this
      ensures cycle.Some? ==> ReportsCycle(g, cycle.value)
      ensures cycle.None? ==> Consistent(g, state, order, stack) && name in order && old(order) <= order
      ensures old(state.Keys) <= state.Keys
      ensures cycle.None? && name !in old(state) && NoComposites(g, name) ==> order == old(order) + [name]
      decreases g.refs.Keys - state.Keys
    {
      hide Consistent, ReportsCycle, Edge;
      Basics(g, state, order, stack);
      if name in state && state[name].Done? {
        return None;
      }
      if name in state && state[name].Visiting? {
        BackEdge(g, state, order, stack, name);
        return Some(stack + [name]);
      }
      ghost var before, seen := order, state.Keys;
      Enter(g, state, order, stack, name);
      state := state[name := Visiting];
      var path := stack + [name];
      var refs := g.refs[name];
      for i := 0 to |refs|
        invariant Consistent(g, state, order, path) && before <= order
        invariant seen + {name} <= state.Keys
        invariant forall j | 0 <= j < i && refs[j] in g.refs :: refs[j] in order
        invariant NoComposites(g, name) ==> order == before
      {
        if refs[i] in g.refs {
          assert g.refs.Keys - state.Keys < g.refs.Keys - seen by {
            assert name in g.refs.Keys - seen && name !in g.refs.Keys - state.Keys;
          }
          EdgeOf(g, name, refs[i]);
          cycle := Visit(refs[i], path);
          if cycle.Some? {
            return;
          }
        }
      }
      Leave(g, state, order, stack, name);
      state := state[name := Done];
      order := order + [name];
      cycle := None;
    }
  }

  lemma EdgeOf(g: Graph, user: string, used: string)
    requires user in g.refs && used in g.refs && used in g.refs[user]
    ensures Edge(g, user, used)
  {
  }

  lemma Appended(g: Graph, order: seq<string>, name: string)
    requires Ordered(g, order) && name in g.refs && name !in order
    requires forall t | t in g.refs[name] && t in g.refs :: t in order
    ensures Ordered(g, order + [name])
  {
    var longer := order + [name];
    forall i, used | 0 <= i < |longer| && used in g.refs[longer[i]] && used in g.refs
      ensures used in longer[..i]
    {
      if i < |order| {
        assert longer[..i] == order[..i];
      } else {
        assert longer[..i] == order;
      }
    }
  }

  /** `topo_sort_types`. */
  method Sort(g: Graph) returns (r: Result)
    requires ValidGraph(g)
    ensures r.Sorted? ==> multiset(r.order) == multiset(g.names) && Ordered(g, r.order)
    ensures r.Cycle? ==> ReportsCycle(g, r.walk)
    ensures r.Cycle? <==> Cyclic(g)
    ensures (forall n | n in g.refs :: NoComposites(g, n)) ==> r == Sorted(g.names)
  {
    hide Consistent, ReportsCycle, Ordered, NoComposites, Cyclic;
    var sorter := new Sorter(g);
    ghost var flat := forall n | n in g.refs :: NoComposites(g, n);
    for i := 0 to |g.names|
      invariant fresh(sorter) && sorter.g == g && Consistent(g, sorter.state, sorter.order, [])
      invariant forall j | 0 <= j < i :: g.names[j] in sorter.order
      invariant flat ==> sorter.order == g.names[..i]
    {
      var name := g.names[i];
      NotSeenYet(g, sorter.state, sorter.order, i);
      var cycle := sorter.Visit(name, []);
      if cycle.Some? {
        ReportIsCycle(g, cycle.value);
        FlatIsAcyclic(g);
        return Cycle(cycle.value);
      }
      assert g.names[..i + 1] == g.names[..i] + [name];
    }
    r := Sorted(sorter.order);
    Finished(g, sorter.state, sorter.order);
    assert g.names[..|g.names|] == g.names;
  }

  lemma NotSeenYet(g: Graph, state: map<string, Mark>, order: seq<string>, i: nat)
    requires Consistent(g, state, order, []) && i < |g.names|
    ensures order == g.names[..i] ==> g.names[i] !in state
  {
    hide Ordered;
    var name := g.names[i];
    assert name !in g.names[..i];
    var empty: seq<string> := [];
    assert name !in empty;
    assert name in state ==> !state[name].Visiting?;
  }

  /** A search that got through all names has put each of them in the order once. */
  lemma Finished(g: Graph, state: map<string, Mark>, order: seq<string>)
    requires Consistent(g, state, order, []) && forall j | 0 <= j < |g.names| :: g.names[j] in order
    ensures multiset(order) == multiset(g.names) && Ordered(g, order) && !Cyclic(g)
  {
    hide Cyclic;
    forall n
      ensures n in order <==> n in g.names
    {
      assert n in order ==> n in g.refs;
    }
    SameElements(order, g.names);
    OrderedIsAcyclic(g, order);
  }

  lemma FlatIsAcyclic(g: Graph)
    ensures (forall n | n in g.refs :: NoComposites(g, n)) ==> !Cyclic(g)
  {
    if Cyclic(g) {
      var w :| ClosedWalk(g, w);
      assert Edge(g, w[0], w[1]);
      assert !NoComposites(g, w[0]);
    }
  }

  lemma {:induction false} SameElements(a: seq<string>, b: seq<string>)
    requires Distinct(a) && Distinct(b) && forall n :: n in a <==> n in b
    ensures multiset(a) == multiset(b)
    decreases |a|
  {
    forall n
      ensures multiset(a)[n] == multiset(b)[n]
    {
      CountInDistinct(a, n);
      CountInDistinct(b, n);
    }
  }

  lemma {:induction false} CountInDistinct(s: seq<string>, n: string)
    requires Distinct(s)
    ensures multiset(s)[n] == if n in s then 1 else 0
    decreases |s|
  {
    if s != [] {
      assert s == [s[0]] + s[1..];
      CountInDistinct(s[1..], n);
    }
  }

  /** The reported walk contains a closed walk. */
  lemma ReportIsCycle(g: Graph, w: seq<string>)
    requires ReportsCycle(g, w)
    ensures Cyclic(g)
  {
    var i :| 0 <= i < |w| - 1 && w[i] == w[|w| - 1];
    assert ClosedWalk(g, w[i..]);
  }

  // ---- An order excludes cycles ----

  function Rank(order: seq<string>, name: string): (i: nat)
    requires name in order
    ensures i < |order| && order[i] == name
  {
    if order[0] == name then 0 else 1 + Rank(order[1..], name)
  }

  lemma {:induction false} RankIsUnique(order: seq<string>, i: nat)
    requires Distinct(order) && i < |order|
    ensures Rank(order, order[i]) == i
  {
    var j := Rank(order, order[i]);
    assert order[j] == order[i];
  }

  /** Along a reference the rank goes down. */
  lemma EdgeGoesDown(g: Graph, order: seq<string>, user: string, used: string)
    requires Ordered(g, order) && user in order && Edge(g, user, used)
    ensures used in order && Rank(order, used) < Rank(order, user)
  {
    var i := Rank(order, user);
    assert used in order[..i];
    var j :| 0 <= j < i && order[j] == used;
    RankIsUnique(order, j);
  }

  lemma {:induction false} WalkGoesDown(g: Graph, order: seq<string>, w: seq<string>)
    requires Ordered(g, order) && Walk(g, w) && w != [] && w[0] in order
    ensures w[|w| - 1] in order && Rank(order, w[|w| - 1]) + |w| - 1 <= Rank(order, w[0])
    decreases |w|
  {
    if |w| > 1 {
      assert Edge(g, w[0], w[1]);
      EdgeGoesDown(g, order, w[0], w[1]);
      assert forall i | 0 <= i < |w[1..]| - 1 :: Edge(g, w[1..][i], w[1..][i + 1]) by {
        forall i | 0 <= i < |w[1..]| - 1
          ensures Edge(g, w[1..][i], w[1..][i + 1])
        {
          assert Edge(g, w[i + 1], w[i + 2]);
        }
      }
      WalkGoesDown(g, order, w[1..]);
    }
  }

  /** A graph with an order of all its names has no cycle. */
  lemma OrderedIsAcyclic(g: Graph, order: seq<string>)
    requires Ordered(g, order) && forall n | n in g.refs :: n in order
    ensures !Cyclic(g)
  {
    forall w: seq<string> | ClosedWalk(g, w)
      ensures false
    {
      assert Edge(g, w[0], w[1]);
      WalkGoesDown(g, order, w);
    }
  }
}
