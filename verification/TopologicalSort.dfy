/** Depth-first topological sorting with cycle detection (Topological_sort.cpp). */
module TopologicalSort {

  type Graph = seq<seq<bool>>

  /** There is an edge from x to y among the vertices 1..n. */
  predicate Edge(g: Graph, x: int, y: int) {
    0 < x < |g| && 0 < y < |g[x]| && g[x][y]
  }

  ghost predicate Cycle(g: Graph, c: seq<int>) {
    |c| >= 2 && c[0] == c[|c| - 1] && forall k :: 0 <= k < |c| - 1 ==> Edge(g, c[k], c[k + 1])
  }

  ghost predicate Acyclic(g: Graph) {
    forall c :: !Cycle(g, c)
  }

  /** Vertices in an order in which every vertex comes behind those its edges lead to. */
  ghost predicate Finished(g: Graph, result: seq<int>) {
    && (forall i, j :: 0 <= i < j < |result| ==> result[i] != result[j])
    && (forall p, y :: 0 <= p < |result| && Edge(g, result[p], y) ==> y in result[..p])
  }

  /** Such an order of the vertices on a walk is possible only if the walk never comes back. */
  lemma {:induction false} Descends(g: Graph, result: seq<int>, c: seq<int>, p: nat)
    requires Finished(g, result) && |c| > 0 && p < |result| && result[p] == c[0]
    requires forall k :: 0 <= k < |c| - 1 ==> Edge(g, c[k], c[k + 1])
    ensures exists q :: 0 <= q <= p && result[q] == c[|c| - 1] && (|c| > 1 ==> q < p)
  {
    if |c| > 1 {
      assert Edge(g, c[0], c[1]) && c[1] in result[..p];
      var q :| 0 <= q < p && result[q] == c[1];
      Descends(g, result, c[1..], q);
    }
  }

  lemma {:induction false} OrderedIsAcyclic(g: Graph, result: seq<int>)
    requires Finished(g, result) && forall x, y :: Edge(g, x, y) ==> x in result
    ensures Acyclic(g)
  {
    forall c ensures !Cycle(g, c) {
      if Cycle(g, c) {
        assert Edge(g, c[0], c[1]);
        var p :| 0 <= p < |result| && result[p] == c[0];
        Descends(g, result, c, p);
      }
    }
  }

  function Reverse(s: seq<int>): (r: seq<int>)
    ensures |r| == |s|
    ensures forall i :: 0 <= i < |s| ==> r[i] == s[|s| - 1 - i]
    ensures forall x :: x in r <==> x in s
  {
    if s == [] then [] else Reverse(s[1..]) + [s[0]]
  }

  /** Popping the stack lists sources before targets. */
  lemma {:induction false} ReversedOrder(g: Graph, result: seq<int>)
    requires Finished(g, result)
    ensures var order := Reverse(result);
            && (forall i, j :: 0 <= i < j < |order| ==> order[i] != order[j])
            && forall i, j :: 0 <= i < |order| && 0 <= j < |order| && Edge(g, order[i], order[j]) ==> i < j
  {
    var order := Reverse(result);
    forall i, j | 0 <= i < |order| && 0 <= j < |order| && Edge(g, order[i], order[j]) ensures i < j {
      var p, q := |result| - 1 - i, |result| - 1 - j;
      assert result[q] in result[..p];
      var k :| 0 <= k < p && result[k] == result[q];
    }
  }

  class Sorter {
    const n: nat
    ghost const g: Graph
    var visited: seq<int>
    var graph: Graph
    var result: seq<int>

    ghost predicate Shape()
      reads this
    {
      && |visited| == |graph| == |g| == n + 1
      && forall v :: 0 <= v <= n ==> |graph[v]| == |g[v]| == n + 1
    }

    /** White vertices have all their edges, grey ones form a path along edges of the input, black ones are finished. */
    ghost predicate Inv(path: seq<int>)
      reads this
    {
      && Shape()
      && (forall v :: 1 <= v <= n ==> visited[v] == 0 || visited[v] == 1 || visited[v] == -1)
      && (forall v :: 1 <= v <= n ==> (visited[v] == 1 <==> v in path))
      && (forall v :: 1 <= v <= n ==> (visited[v] == -1 <==> v in result))
      && (forall k :: 0 <= k < |result| ==> 1 <= result[k] <= n)
      && (forall k :: 0 <= k < |path| ==> 1 <= path[k] <= n)
      && (forall k :: 0 <= k < |path| - 1 ==> Edge(g, path[k], path[k + 1]))
      && Finished(g, result)
      && (forall v :: 1 <= v <= n && visited[v] == 0 ==> graph[v] == g[v])
    }

    ghost function Whites(): set<int>
      reads this
    {
      set v | 1 <= v <= n && v < |visited| && visited[v] == 0
    }

    constructor (n: nat, graph: Graph)
      requires |graph| == n + 1 && forall v :: 0 <= v <= n ==> |graph[v]| == n + 1
      ensures Inv([]) && this.n == n && g == graph && forall v :: 1 <= v <= n ==> visited[v] == 0
    {
      this.n, this.g, this.graph := n, graph, graph;
      visited, result := seq(n + 1, i => 0), [];
    }

    /** Finishes every vertex that can be reached from this one, or returns -1 because of a cycle. */
    method Dfs(cur: int, ghost path: seq<int>) returns (r: int)
      requires Inv(path) && 1 <= cur <= n && visited[cur] == 0
      requires path != [] ==> Edge(g, path[|path| - 1], cur)
      modifies this
      ensures r == 0 || r == -1
      ensures r == -1 ==> !Acyclic(g)
      ensures r == 0 ==> Inv(path) && visited[cur] == -1 && old(result) <= result
      ensures r == 0 ==> Kept(old(visited), old(graph), visited, graph, 0)
      decreases Whites(), 0
    {
      hide Finished, Acyclic;
      ghost var white, vis0, graph0, trail := Whites(), visited, graph, path + [cur];
      visited := visited[cur := 1];
      assert Whites() == white - {cur};
      assert Inv(trail) by {
        assert forall v :: v in trail <==> v == cur || v in path;
      }
      var i := 1;
      while i <= n
        invariant 1 <= i <= n + 1 && Inv(trail) && old(result) <= result
        invariant Kept(vis0[cur := 1], graph0, visited, graph, cur) && Whites() <= white - {cur}
        invariant forall y :: i <= y <= n ==> graph[cur][y] == g[cur][y]
        invariant forall y :: 1 <= y < i && Edge(g, cur, y) ==> visited[y] == -1
      {
        r := Follow(cur, i, trail);
        if r == -1 {
          return -1;
        }
        i := i + 1;
      }
      Blacken(cur, path);
      return 0;
    }

    /** What dfs does with a vertex whose edges have all been followed. */
    method Blacken(cur: int, ghost path: seq<int>)
      requires Inv(path + [cur]) && cur !in path && 1 <= cur <= n
      requires forall y :: 1 <= y <= n && Edge(g, cur, y) ==> visited[y] == -1
      modifies this`visited, this`result
      ensures Inv(path) && visited == old(visited)[cur := -1] && result == old(result) + [cur]
    {
      hide Finished, Acyclic;
      Finish(cur, path);
      assert forall v :: v in path + [cur] <==> v == cur || v in path;
      assert forall k :: 0 <= k < |path| ==> (path + [cur])[k] == path[k];
      visited := visited[cur := -1];
      result := result + [cur];
    }

    /** One turn of the loop in dfs: the edge from cur to i, if it is still there. */
    method Follow(cur: int, i: int, ghost trail: seq<int>) returns (r: int)
      requires Inv(trail) && trail != [] && trail[|trail| - 1] == cur && 1 <= i <= n && graph[cur][i] == g[cur][i]
      modifies this
      ensures r == 0 || r == -1
      ensures r == -1 ==> !Acyclic(g)
      ensures r == 0 ==> Inv(trail) && old(result) <= result && Whites() <= old(Whites())
      ensures r == 0 ==> Kept(old(visited), old(graph), visited, graph, cur)
      ensures r == 0 ==> forall y :: 1 <= y <= n && y != i ==> graph[cur][y] == old(graph)[cur][y]
      ensures r == 0 && Edge(g, cur, i) ==> visited[i] == -1
      decreases Whites(), 1
    {
      hide Finished, Acyclic;
      assert cur in trail;
      if graph[cur][i] {
        graph := graph[cur := graph[cur][i := false]];
        if visited[i] == 1 {
          BackEdge(g, trail, i);
          return -1;
        }
        if visited[i] == 0 {
          ghost var vis, gr := visited, graph;
          r := Dfs(i, trail);
          return;
        }
      }
      return 0;
    }

    /** The driver: whether the graph is acyclic, and the result popped off the stack. */
    method Sort() returns (ok: bool, order: seq<int>)
      requires Inv([]) && result == [] && forall v :: 1 <= v <= n ==> visited[v] == 0
      modifies this
      ensures ok <==> Acyclic(g)
      ensures ok ==> (forall v :: 1 <= v <= n <==> v in order) && forall i, j :: 0 <= i < j < |order| ==>
                order[i] != order[j]
      ensures ok ==> forall i, j :: 0 <= i < |order| && 0 <= j < |order| && Edge(g, order[i], order[j]) ==> i < j
    {
      hide Finished, Acyclic;
      var i, res := 1, 0;
      while i <= n
        invariant 1 <= i <= n + 1 && Inv([]) && res == 0
        invariant forall v :: 1 <= v < i ==> visited[v] == -1
      {
        if visited[i] == 0 {
          res := Dfs(i, []);
        }
        if res == -1 {
          break;
        }
        i := i + 1;
      }
      ok, order := i == n + 1, [];
      if ok {
        assert forall x, y :: Edge(g, x, y) ==> x in result;
        OrderedIsAcyclic(g, result);
        ReversedOrder(g, result);
      }
      ghost var all := result;
      while result != []
        invariant result <= all && order == Reverse(all[|result|..])
      {
        assert all[|result| - 1..] == [result[|result| - 1]] + all[|result|..];
        order := order + [result[|result| - 1]];
        result := result[..|result| - 1];
      }
      assert all[0..] == all;
    }

    /** The last vertex of the path can be finished when all its edges lead to finished ones. */
    lemma {:induction false} Finish(cur: int, path: seq<int>)
      requires Inv(path + [cur]) && cur !in path
      requires forall y :: 1 <= y <= n && Edge(g, cur, y) ==> visited[y] == -1
      ensures Finished(g, result + [cur]) && cur !in result
    {
      var trail := path + [cur];
      assert trail[|path|] == cur && visited[cur] == 1;
      assert cur !in result;
      var more := result + [cur];
      forall p, y | 0 <= p < |more| && Edge(g, more[p], y) ensures y in more[..p] {
        if p < |result| {
          assert more[..p] == result[..p];
        } else {
          assert more[..p] == result;
        }
      }
    }
  }

  /** What was grey or black stays so, and so do the edges left to look at, but for vertex `but`. */
  ghost predicate Kept(vis0: seq<int>, graph0: Graph, vis: seq<int>, graph: Graph, but: int) {
    && |vis0| == |vis| == |graph0| == |graph|
    && forall v :: 1 <= v < |vis0| && vis0[v] != 0 ==> vis[v] == vis0[v] && (v == but || graph[v] == graph0[v])
  }

  /** An edge from the end of a path back to a vertex on it closes a cycle. */
  lemma {:induction false} BackEdge(g: Graph, trail: seq<int>, y: int)
    requires trail != [] && y in trail && Edge(g, trail[|trail| - 1], y)
    requires forall k :: 0 <= k < |trail| - 1 ==> Edge(g, trail[k], trail[k + 1])
    ensures !Acyclic(g)
  {
    var k :| 0 <= k < |trail| && trail[k] == y;
    var c := trail[k..] + [y];
    forall j | 0 <= j < |c| - 1 ensures Edge(g, c[j], c[j + 1]) {
      if j < |trail| - k - 1 {
        assert Edge(g, trail[k + j], trail[k + j + 1]);
      }
    }
    assert Cycle(g, c);
  }
}
