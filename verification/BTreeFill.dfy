/** How full the B+ tree is: no node but the root has less than half of what fits, so the tree cannot be high. */
module BTreeFill {
  import opened BTreeNode
  import opened BTreeLevels
  import opened BTreeShape

  ghost predicate HalfLevel(lv: Level, order: nat) {
    forall a :: 0 <= a < |lv| ==> order / 2 <= |lv[a].es|
  }

  /** A root that is no leaf has two entries or more. */
  ghost predicate RootFull(t: Tree) {
    |t| > 1 ==> forall a :: 0 <= a < |t[0]| ==> |t[0][a].es| >= 2
  }

  /** Every node but the root is at least half full. */
  ghost predicate HalfFull(t: Tree, order: nat) {
    RootFull(t) && forall d :: 0 < d < |t| ==> HalfLevel(t[d], order)
  }

  // ----- what an insertion does -----

  /** A node that loses no entry. */
  lemma {:induction false} SetNodeHalf(t: Tree, order: nat, d: nat, a: nat, es: seq<Entry>)
    requires HalfFull(t, order) && d < |t| && a < |t[d]| && |es| >= |t[d][a].es|
    ensures HalfFull(t[d := SetNode(t[d], a, es)], order)
  {
    var w: Tree := t[d := SetNode(t[d], a, es)];
    forall c | 0 < c < |w| ensures HalfLevel(w[c], order) {
      assert HalfLevel(t[c], order);
    }
  }

  /** A full node and one more entry make two nodes that are half full. */
  lemma {:induction false} HalfEach(es: seq<Entry>, e: Entry, k: Key)
    requires |es| >= 2
    ensures |LeftHalf(es, e, k)| >= |es| / 2 && |RightHalf(es, e, k)| >= |es| / 2
  {
    hide Inserted;
  }

  lemma {:induction false} HalvedHalf(lv: Level, a: nat, e: Entry, k: Key, page: int, order: nat)
    requires a < |lv| && |lv[a].es| == order >= 2
    requires forall c :: 0 <= c < |lv| && c != a ==> order / 2 <= |lv[c].es|
    ensures HalfLevel(Halved(lv, a, e, k, page), order)
  {
    HalfEach(lv[a].es, e, k);
    hide LeftHalf, RightHalf;
    var w := Halved(lv, a, e, k, page);
    forall c | 0 <= c < |w| ensures order / 2 <= |w[c].es| {
      assert c < a ==> w[c] == lv[c];
      assert c > a + 1 ==> w[c] == lv[c - 1];
    }
  }

  /** One turn below the root: a full node split, and its parent with one entry changed and perhaps one more. */
  lemma {:induction false} SplitHalf(t: Tree, order: nat, d: nat, a: nat, b: nat, p: nat, e: Entry, k: Key, page: int,
                                     h2: Entry)
    requires HalfFull(t, order) && 0 < d < |t| && a < |t[d]| && |t[d][a].es| == order >= 2
    requires b < |t[d - 1]| && p < |t[d - 1][b].es|
    ensures var w := Split(t, d, a, b, p, e, k, page);
            HalfFull(w, order) && HalfFull(Over(w, d - 1, b, p + 1, h2), order)
  {
    hide Halved, LeftHead;
    assert HalfLevel(t[d], order);
    HalvedHalf(t[d], a, e, k, page, order);
    var u: Tree := t[d := Halved(t[d], a, e, k, page)];
    assert HalfFull(u, order) by {
      forall c | 0 < c < |u| ensures HalfLevel(u[c], order) {
        assert HalfLevel(t[c], order);
      }
    }
    var h1 := LeftHead(t[d], a, e, k);
    SetNodeHalf(u, order, d - 1, b, t[d - 1][b].es[p := h1]);
    var w: Tree := Split(t, d, a, b, p, e, k, page);
    SetNodeHalf(w, order, d - 1, b, InsertAt(w[d - 1][b].es, p + 1, h2));
  }

  /** The last turn: the halves of the root under a new one. */
  lemma {:induction false} RootHalf(t: Tree, order: nat, e: Entry, k: Key, page: int, root: int)
    requires HalfFull(t, order) && |t| > 0 && |t[0]| == 1 && |t[0][0].es| == order >= 2
    ensures HalfFull(RootSplit(t, e, k, page, root), order)
  {
    hide Halved, LeftHead, RightHead;
    HalvedHalf(t[0], 0, e, k, page, order);
    var w: Tree := RootSplit(t, e, k, page, root);
    forall c | 0 < c < |w| ensures HalfLevel(w[c], order) {
      if c > 1 {
        assert w[c] == t[c - 1] && HalfLevel(t[c - 1], order);
      }
    }
  }

  /** A new largest key changes no node's size. */
  lemma {:induction false} RaisedHalf(t: Tree, w: Tree, order: nat, k: Key)
    requires HalfFull(t, order) && |t| == |w|
    requires forall d :: 0 <= d < |t| ==> w[d] == t[d] || RaisedTo(t[d], w[d], k)
    ensures HalfFull(w, order)
  {
    forall d, a | 0 <= d < |t| && 0 <= a < |t[d]| ensures |w[d]| == |t[d]| && |w[d][a].es| == |t[d][a].es| {
      assert w[d] == t[d] || RaisedTo(t[d], w[d], k);
    }
    forall d | 0 <= d < |t| ensures |w[d]| == |t[d]| {
      assert w[d] == t[d] || RaisedTo(t[d], w[d], k);
    }
    forall d | 0 < d < |w| ensures HalfLevel(w[d], order) {
      assert HalfLevel(t[d], order);
    }
  }

  // ----- how high the tree is -----

  function Power(b: nat, n: nat): nat {
    if n == 0 then 1 else b * Power(b, n - 1)
  }

  lemma {:induction false} FlatAtLeast(lv: Level, order: nat)
    requires HalfLevel(lv, order)
    ensures |Flat(lv)| >= order / 2 * |lv|
  {
    if lv != [] {
      assert HalfLevel(lv[1..], order);
      FlatAtLeast(lv[1..], order);
    }
  }

  /** The number of nodes grows by half the order from level to level. */
  lemma {:induction false} NodesAtLeast(t: Tree, order: nat, d: nat)
    requires Shape(t) && HalfFull(t, order) && 0 < d < |t|
    ensures |t[d]| >= 2 * Power(order / 2, d - 1)
  {
    hide Flat, Sound;
    assert LinkAt(t, d);
    if d == 1 {
      assert t[0] == [t[0][0]];
      FlatOne(t[0][0]);
    } else {
      NodesAtLeast(t, order, d - 1);
      FlatAtLeast(t[d - 1], order);
      var h, p := order / 2, Power(order / 2, d - 2);
      MoreTimes(h, |t[d - 1]|, 2 * p);
    }
  }

  lemma {:induction false} MoreTimes(h: nat, m: nat, n: nat)
    requires m >= n
    ensures h * m >= h * n
  {}

  /** A tree of this height holds at least so many entries. */
  lemma {:induction false} HeightBound(t: Tree, order: nat)
    requires Shape(t) && HalfFull(t, order) && |t| > 1
    ensures |Contents(t)| >= 2 * Power(order / 2, |t| - 1)
  {
    hide Flat, Sound;
    var d := |t| - 1;
    NodesAtLeast(t, order, d);
    FlatAtLeast(t[d], order);
    MoreTimes(order / 2, |t[d]|, 2 * Power(order / 2, d - 1));
  }
}
