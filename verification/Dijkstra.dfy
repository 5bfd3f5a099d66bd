/** Single-source shortest paths (Dijkstra.cpp); -1 stands for a vertex not reached yet. */
module Dijkstra {

  const INT_MAX := 2147483647

  datatype GraphEdge = GraphEdge(to: int, weight: int)

  datatype Vertex = Vertex(index: int, selected: bool, weight: int)

  type Edges = seq<seq<GraphEdge>>

  /** Edges lead to vertices 1..n and have no negative weights. */
  ghost predicate GraphOk(n: nat, edges: Edges) {
    && |edges| == n + 1
    && forall u, e :: 0 <= u <= n && 0 <= e < |edges[u]| ==> EdgeOk(n, edges[u][e])
  }

  predicate EdgeOk(n: nat, e: GraphEdge) {
    1 <= e.to <= n && e.weight >= 0
  }

  // ----- walks from vertex 1 -----

  datatype Walk = Start | Then(before: Walk, e: nat)

  /** Where a walk ends; 0 if it takes an edge that does not exist. */
  function End(edges: Edges, w: Walk): int {
    match w
    case Start => 1
    case Then(v, e) =>
      var u := End(edges, v);
      if 0 < u < |edges| && e < |edges[u]| then edges[u][e].to else 0
  }

  function Length(edges: Edges, w: Walk): int {
    match w
    case Start => 0
    case Then(v, e) =>
      var u := End(edges, v);
      Length(edges, v) + if 0 < u < |edges| && e < |edges[u]| then edges[u][e].weight else 0
  }

  /** d is the length of a shortest walk to u, or -1 when there is none. */
  ghost predicate Distance(edges: Edges, u: int, d: int) {
    && (d == -1 <==> forall w :: End(edges, w) != u)
    && (d != -1 ==> (exists w :: End(edges, w) == u && Length(edges, w) == d)
                    && forall w :: End(edges, w) == u ==> d <= Length(edges, w))
  }

  /** One edge more than a shortest walk stays below INT_MAX: then no sum overflows and no distance is mistaken for
      the start value of the search for the minimum. */
  ghost predicate SumsFit(n: nat, edges: Edges) {
    forall u, d, e :: 1 <= u <= n && Distance(edges, u, d) && d != -1 && |edges| == n + 1 && 0 <= e < |edges[u]| ==>
      FitsInt(d, edges[u][e])
  }

  predicate FitsInt(d: int, e: GraphEdge) {
    d + e.weight < INT_MAX
  }

  // ----- the state of the search -----

  /** The weight of a vertex is the length of some walk to it, or -1. */
  ghost predicate Real(edges: Edges, vs: seq<Vertex>, u: int) {
    0 <= u < |vs| && (vs[u].weight == -1
      || (vs[u].weight >= 0 && exists w :: End(edges, w) == u && Length(edges, w) == vs[u].weight))
  }

  /** Edge e of a selected vertex has been taken into account. */
  ghost predicate Relaxed(edges: Edges, vs: seq<Vertex>, u: int, e: nat) {
    && 0 <= u < |vs| && u < |edges| && e < |edges[u]| && 0 <= edges[u][e].to < |vs|
    && vs[edges[u][e].to].weight != -1
    && vs[edges[u][e].to].weight <= vs[u].weight + edges[u][e].weight
  }

  ghost predicate VerticesOk(n: nat, edges: Edges, vs: seq<Vertex>) {
    && |vs| == n + 1 && n >= 1
    && (forall u :: 1 <= u <= n ==> vs[u].index == u && Real(edges, vs, u))
    && vs[1].selected && vs[1].weight == 0
    && forall u :: 1 <= u <= n ==> vs[u].weight >= -1 && (vs[u].selected ==> vs[u].weight != -1)
  }

  /** All edges of the selected vertices but cur's are taken into account; nobody selected is farther than cur, and
      nobody else that was reached is nearer. */
  ghost predicate Frontier(n: nat, edges: Edges, vs: seq<Vertex>, cur: int) {
    && VerticesOk(n, edges, vs) && 1 <= cur <= n && vs[cur].weight != -1
    && (forall u :: 1 <= u <= n && vs[u].selected ==> vs[u].weight <= vs[cur].weight)
    && (forall u :: 1 <= u <= n && !vs[u].selected && vs[u].weight != -1 ==> vs[cur].weight <= vs[u].weight)
    && (forall u, e :: 1 <= u <= n && u != cur && vs[u].selected && |edges| == n + 1 && 0 <= e < |edges[u]| ==>
         Relaxed(edges, vs, u, e))
  }

  /** A walk that ends at a selected vertex other than cur is no shorter than its weight; any other is no shorter than
      cur's. */
  lemma {:induction false} WalksAreLong(n: nat, edges: Edges, vs: seq<Vertex>, cur: int, w: Walk)
    requires GraphOk(n, edges) && Frontier(n, edges, vs, cur) && End(edges, w) != 0
    requires cur != 1 ==> vs[1].selected
    ensures var u := End(edges, w);
            && 1 <= u <= n && Length(edges, w) >= 0
            && (Length(edges, w) >= vs[cur].weight || (vs[u].selected && u != cur && vs[u].weight <= Length(edges, w)))
  {
    match w
    case Start =>
    case Then(v, e) =>
      WalksAreLong(n, edges, vs, cur, v);
      var u := End(edges, v);
      assert EdgeOk(n, edges[u][e]);
      if Length(edges, v) < vs[cur].weight {
        assert Relaxed(edges, vs, u, e);
      }
  }

  /** The selected vertex's weight is its distance. */
  lemma {:induction false} Settled(n: nat, edges: Edges, vs: seq<Vertex>, cur: int)
    requires GraphOk(n, edges) && Frontier(n, edges, vs, cur)
    ensures Distance(edges, cur, vs[cur].weight)
  {
    assert Real(edges, vs, cur);
    forall w | End(edges, w) == cur ensures vs[cur].weight <= Length(edges, w) {
      WalksAreLong(n, edges, vs, cur, w);
    }
  }

  /** When everything reached is selected and taken into account, all weights are distances. */
  lemma {:induction false} AllSettled(n: nat, edges: Edges, vs: seq<Vertex>, w: Walk)
    requires GraphOk(n, edges) && VerticesOk(n, edges, vs) && End(edges, w) != 0
    requires forall u :: 1 <= u <= n && vs[u].weight != -1 ==> vs[u].selected
    requires forall u, e :: 1 <= u <= n && vs[u].selected && 0 <= e < |edges[u]| ==> Relaxed(edges, vs, u, e)
    ensures var u := End(edges, w); 1 <= u <= n && vs[u].weight != -1 && vs[u].weight <= Length(edges, w)
  {
    match w
    case Start =>
    case Then(v, e) =>
      AllSettled(n, edges, vs, v);
      var u := End(edges, v);
      assert Relaxed(edges, vs, u, e) && EdgeOk(n, edges[u][e]);
  }

  // ----- the search -----

  /** While cur's edges are being taken into account, up to edge i. */
  ghost predicate Relaxing(n: nat, edges: Edges, vs: seq<Vertex>, cur: int, i: nat) {
    && Frontier(n, edges, vs, cur) && |edges| == n + 1 && vs[cur].selected && i <= |edges[cur]|
    && forall e :: 0 <= e < i ==> Relaxed(edges, vs, cur, e)
  }

  function Lowered(vs: seq<Vertex>, to: int, weight: int): seq<Vertex>
    requires 0 <= to < |vs|
  {
    if weight < vs[to].weight || vs[to].weight == -1 then vs[to := vs[to].(weight := weight)] else vs
  }

  lemma {:induction false} RelaxOne(n: nat, edges: Edges, vs: seq<Vertex>, cur: int, i: nat)
    requires GraphOk(n, edges) && Relaxing(n, edges, vs, cur, i) && i < |edges[cur]|
    ensures var e := edges[cur][i];
            0 <= e.to < |vs| && Relaxing(n, edges, Lowered(vs, e.to, vs[cur].weight + e.weight), cur, i + 1)
  {
    hide Real, Relaxed, Distance, End, Length;
    var e := edges[cur][i];
    assert EdgeOk(n, e);
    var after := Lowered(vs, e.to, vs[cur].weight + e.weight);
    forall u | 1 <= u <= n ensures after[u].index == u && Real(edges, after, u) {
      assert Real(edges, vs, u) && Real(edges, vs, cur);
      LoweredReal(n, edges, vs, cur, i, u);
    }
    forall u, k | 1 <= u <= n && vs[u].selected && 0 <= k < |edges[u]| && (u != cur || k < i + 1)
      ensures Relaxed(edges, after, u, k) {
      assert u != cur || k < i ==> Relaxed(edges, vs, u, k);
      LoweredRelaxed(n, edges, vs, cur, i, u, k);
    }
  }

  lemma {:induction false} LoweredReal(n: nat, edges: Edges, vs: seq<Vertex>, cur: int, i: nat, u: int)
    requires 1 <= cur <= n && |vs| == |edges| == n + 1 && i < |edges[cur]| && EdgeOk(n, edges[cur][i])
    requires 1 <= u <= n && Real(edges, vs, u) && Real(edges, vs, cur) && vs[cur].weight != -1
    ensures Real(edges, Lowered(vs, edges[cur][i].to, vs[cur].weight + edges[cur][i].weight), u)
  {
    var w :| End(edges, w) == cur && Length(edges, w) == vs[cur].weight;
    var more := Then(w, i);
    assert End(edges, more) == edges[cur][i].to && Length(edges, more) == vs[cur].weight + edges[cur][i].weight;
  }

  lemma {:induction false} LoweredRelaxed(n: nat, edges: Edges, vs: seq<Vertex>, cur: int, i: nat, u: int, k: nat)
    requires GraphOk(n, edges) && 1 <= cur <= n && |vs| == n + 1 && i < |edges[cur]|
    requires 1 <= u <= n && vs[u].selected && k < |edges[u]|
    requires vs[cur].weight != -1 && vs[cur].weight >= 0 && vs[u].weight != -1 && vs[u].weight <= vs[cur].weight
    requires (u == cur && k == i) || Relaxed(edges, vs, u, k)
    ensures Relaxed(edges, Lowered(vs, edges[cur][i].to, vs[cur].weight + edges[cur][i].weight), u, k)
  {
    assert EdgeOk(n, edges[cur][i]) && EdgeOk(n, edges[u][k]);
  }

  /** Weights stay below the start value of the search for the minimum. */
  ghost predicate Small(vs: seq<Vertex>) {
    forall u :: 0 <= u < |vs| ==> vs[u].weight < INT_MAX
  }

  /** The vertices 1.. not selected yet. */
  ghost function Unselected(vs: seq<Vertex>): set<int> {
    set u | 1 <= u < |vs| && !vs[u].selected
  }

  /** Takes the edges of cur into account. */
  method Relax(n: nat, edges: Edges, vertices: seq<Vertex>, cur: int) returns (vs: seq<Vertex>)
    requires GraphOk(n, edges) && SumsFit(n, edges) && Relaxing(n, edges, vertices, cur, 0) && Small(vertices)
    ensures Relaxing(n, edges, vs, cur, |edges[cur]|) && Small(vs)
    ensures forall u :: 0 <= u <= n ==> vs[u].selected == vertices[u].selected
  {
    hide Distance, GraphOk, Real, Relaxed;
    vs := vertices;
    var i := 0;
    while i < |edges[cur]|
      invariant 0 <= i <= |edges[cur]| && Relaxing(n, edges, vs, cur, i) && Small(vs)
      invariant forall u :: 0 <= u <= n ==> vs[u].selected == vertices[u].selected
    {
      var to, toWeight := edges[cur][i].to, edges[cur][i].weight;
      RelaxOne(n, edges, vs, cur, i);
      NoOverflow(n, edges, vs, cur, i);
      if vs[cur].weight + toWeight < vs[to].weight || vs[to].weight == -1 {
        vs := vs[to := vs[to].(weight := vs[cur].weight + toWeight)];
      }
      i := i + 1;
    }
  }

  lemma {:induction false} NoOverflow(n: nat, edges: Edges, vs: seq<Vertex>, cur: int, e: nat)
    requires GraphOk(n, edges) && SumsFit(n, edges) && Frontier(n, edges, vs, cur) && e < |edges[cur]|
    ensures FitsInt(vs[cur].weight, edges[cur][e])
  {
    Settled(n, edges, vs, cur);
  }

  /** The reached vertex that is nearest among those not selected; -1 if there is none. */
  method SelectNext(n: nat, vs: seq<Vertex>) returns (minIndex: int)
    requires |vs| == n + 1 && Small(vs)
    ensures minIndex == -1 ==> forall u :: 1 <= u <= n && vs[u].weight != -1 ==> vs[u].selected
    ensures minIndex != -1 ==> 1 <= minIndex <= n && !vs[minIndex].selected && vs[minIndex].weight != -1
    ensures minIndex != -1 ==> forall u :: 1 <= u <= n && !vs[u].selected && vs[u].weight != -1 ==>
              vs[minIndex].weight <= vs[u].weight
  {
    var minValue := INT_MAX;
    minIndex := -1;
    var i := 1;
    while i <= n
      invariant 1 <= i <= n + 1
      invariant minIndex == -1 ==> minValue == INT_MAX && forall u :: 1 <= u < i && vs[u].weight != -1 ==>
                  vs[u].selected
      invariant minIndex != -1 ==> 1 <= minIndex < i && !vs[minIndex].selected && vs[minIndex].weight == minValue != -1
      invariant minIndex != -1 ==> forall u :: 1 <= u < i && !vs[u].selected && vs[u].weight != -1 ==>
                  minValue <= vs[u].weight
    {
      if !vs[i].selected && minValue > vs[i].weight && vs[i].weight != -1 {
        minValue := vs[i].weight;
        minIndex := i;
      }
      i := i + 1;
    }
  }

  /** Every weight comes out as the distance from vertex 1, and the largest of them is returned. */
  method ShortestPaths(n: nat, edges: Edges) returns (vs: seq<Vertex>, maxValue: int)
    requires n >= 1 && GraphOk(n, edges) && SumsFit(n, edges)
    ensures |vs| == n + 1 && forall u :: 1 <= u <= n ==> Distance(edges, u, vs[u].weight)
    ensures (forall u :: 1 <= u <= n ==> vs[u].weight <= maxValue)
            && exists u :: 1 <= u <= n && vs[u].weight == maxValue
  {
    hide GraphOk, SumsFit, Distance, Real, Relaxed;
    vs := seq(n + 1, i => Vertex(i, false, -1));
    vs := vs[1 := Vertex(1, true, 0)];
    Initial(n, edges, vs);
    var q := [vs[1]];
    while q != []
      invariant |q| <= 1
      invariant q != [] ==> Frontier(n, edges, vs, q[0].index) && q[0].weight == vs[q[0].index].weight
      invariant q == [] ==> Over(n, edges, vs)
      invariant |vs| == n + 1 && Small(vs)
      decreases Unselected(vs), if q != [] && q[0].index !in Unselected(vs) then 1 else 0
    {
      var curVertex := q[0];
      var curIndex := curVertex.index;
      q := q[1..];
      ghost var before := vs;
      vs := vs[curIndex := vs[curIndex].(selected := true)];
      Select(n, edges, before, curIndex);
      ghost var selected := vs;
      vs := Relax(n, edges, vs, curIndex);
      var minIndex := SelectNext(n, vs);
      NextFrontier(n, edges, vs, curIndex, minIndex);
      assert Unselected(vs) == Unselected(before) - {curIndex};
      if minIndex != -1 {
        q := q + [vs[minIndex]];
      }
    }
    Finish(n, edges, vs);
    maxValue := Largest(n, vs);
  }

  method Largest(n: nat, vs: seq<Vertex>) returns (maxValue: int)
    requires |vs| == n + 1 && n >= 1 && vs[1].weight == 0
    ensures (forall u :: 1 <= u <= n ==> vs[u].weight <= maxValue)
            && exists u :: 1 <= u <= n && vs[u].weight == maxValue
  {
    maxValue := -1;
    ghost var best := 0;
    var i := 1;
    while i <= n
      invariant 1 <= i <= n + 1 && (i == 1 ==> maxValue == -1)
      invariant forall u :: 1 <= u < i ==> vs[u].weight <= maxValue
      invariant i > 1 ==> 1 <= best < i && vs[best].weight == maxValue >= 0
    {
      if maxValue < vs[i].weight {
        maxValue := vs[i].weight;
        best := i;
      }
      i := i + 1;
    }
  }

  /** Everything reached is selected, and all its edges are taken into account. */
  ghost predicate Over(n: nat, edges: Edges, vs: seq<Vertex>) {
    && VerticesOk(n, edges, vs) && |edges| == n + 1
    && (forall u :: 1 <= u <= n && vs[u].weight != -1 ==> vs[u].selected)
    && (forall u, e :: 1 <= u <= n && vs[u].selected && 0 <= e < |edges[u]| ==> Relaxed(edges, vs, u, e))
  }

  lemma {:induction false} Initial(n: nat, edges: Edges, vs: seq<Vertex>)
    requires n >= 1 && |vs| == n + 1 && vs[1] == Vertex(1, true, 0)
    requires forall u :: 2 <= u <= n ==> vs[u] == Vertex(u, false, -1)
    ensures Frontier(n, edges, vs, 1)
  {
    assert End(edges, Start) == 1 && Length(edges, Start) == 0;
  }

  lemma {:induction false} Select(n: nat, edges: Edges, vs: seq<Vertex>, cur: int)
    requires GraphOk(n, edges) && Frontier(n, edges, vs, cur)
    ensures Relaxing(n, edges, vs[cur := vs[cur].(selected := true)], cur, 0)
  {
    hide End, Length;
    var after := vs[cur := vs[cur].(selected := true)];
    forall u | 1 <= u <= n ensures Real(edges, after, u) && after[u].index == u {
      assert Real(edges, vs, u);
    }
    forall u, e | 1 <= u <= n && u != cur && vs[u].selected && 0 <= e < |edges[u]| ensures Relaxed(edges, after, u, e) {
      assert Relaxed(edges, vs, u, e);
    }
  }

  /** The nearest vertex not selected is next; without one the search is over. */
  lemma {:induction false} NextFrontier(n: nat, edges: Edges, vs: seq<Vertex>, cur: int, minIndex: int)
    requires Relaxing(n, edges, vs, cur, if 0 <= cur < |edges| then |edges[cur]| else 0)
    requires minIndex == -1 ==> forall u :: 1 <= u <= n && vs[u].weight != -1 ==> vs[u].selected
    requires minIndex != -1 ==> 1 <= minIndex <= n && !vs[minIndex].selected && vs[minIndex].weight != -1
    requires minIndex != -1 ==> forall u :: 1 <= u <= n && !vs[u].selected && vs[u].weight != -1 ==>
               vs[minIndex].weight <= vs[u].weight
    ensures minIndex != -1 ==> Frontier(n, edges, vs, minIndex)
    ensures minIndex == -1 ==> Over(n, edges, vs)
  {
    hide Relaxed, Real;
  }

  lemma {:induction false} Finish(n: nat, edges: Edges, vs: seq<Vertex>)
    requires GraphOk(n, edges) && Over(n, edges, vs)
    ensures forall u :: 1 <= u <= n ==> Distance(edges, u, vs[u].weight)
  {
    forall u | 1 <= u <= n ensures Distance(edges, u, vs[u].weight) {
      assert Real(edges, vs, u);
      forall w | End(edges, w) == u ensures vs[u].weight != -1 && vs[u].weight <= Length(edges, w) {
        AllSettled(n, edges, vs, w);
      }
    }
  }
}
