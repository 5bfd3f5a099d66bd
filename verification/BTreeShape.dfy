/** The whole B+ tree as a stack of levels, the root's first, and what one insertion does to them. */
module BTreeShape {
  import opened BTreeNode
  import opened BTreeLevels

  type Tree = seq<Level>

  /** A level's keys increase across its nodes, none of which is empty. */
  ghost predicate Sound(lv: Level) {
    Filled(lv) && Increasing(Flat(lv))
  }

  /** Every parent entry is the largest key of its child and the child's page. */
  ghost predicate LinkAt(t: Tree, d: nat)
    requires 0 < d < |t|
  {
    Filled(t[d]) && Flat(t[d - 1]) == Heads(t[d])
  }

  ghost predicate Shape(t: Tree) {
    && |t| > 0 && |t[0]| == 1
    && (forall d :: 0 <= d < |t| ==> Sound(t[d]))
    && (forall d :: 0 < d < |t| ==> LinkAt(t, d))
  }

  /** No node has more entries than fit. */
  ghost predicate Fits(lv: Level, order: nat) {
    forall a :: 0 <= a < |lv| ==> |lv[a].es| <= order
  }

  ghost predicate AllFit(t: Tree, order: nat) {
    forall d :: 0 <= d < |t| ==> Fits(t[d], order)
  }

  // ----- changing one node -----

  function SetNode(lv: Level, a: nat, es: seq<Entry>): Level
    requires a < |lv|
  {
    lv[a := Pg(lv[a].page, es)]
  }

  lemma {:induction false} SetNodeFlat(lv: Level, a: nat, es: seq<Entry>)
    requires a < |lv|
    ensures Flat(SetNode(lv, a, es)) == Flat(lv[..a]) + es + Flat(lv[a + 1..])
  {
    assert SetNode(lv, a, es) == Replaced(lv, a, [Pg(lv[a].page, es)]);
    ReplacedFlat(lv, a, [Pg(lv[a].page, es)]);
    FlatOne(Pg(lv[a].page, es));
  }

  /** A new last key is all that the parents see of a change. */
  lemma {:induction false} SetNodeHeads(lv: Level, a: nat, es: seq<Entry>)
    requires a < |lv| && Filled(lv) && es != []
    ensures Filled(SetNode(lv, a, es))
    ensures Heads(SetNode(lv, a, es)) == Heads(lv)[a := Entry(LastKey(es), Rid(lv[a].page, -1))]
  {}

  lemma {:induction false} SameHeads(lv: Level, a: nat, es: seq<Entry>)
    requires a < |lv| && Filled(lv) && es != [] && LastKey(es) == LastKey(lv[a].es)
    ensures Filled(SetNode(lv, a, es)) && Heads(SetNode(lv, a, es)) == Heads(lv)
  {
    SetNodeHeads(lv, a, es);
  }

  /** Putting entry e at position q of node a puts it into the level. */
  lemma {:induction false} SetNodeInserts(lv: Level, a: nat, q: nat, e: Entry)
    requires a < |lv| && q <= |lv[a].es|
    ensures Off(lv, a) + q <= |Flat(lv)|
    ensures Flat(SetNode(lv, a, InsertAt(lv[a].es, q, e))) == InsertAt(Flat(lv), Off(lv, a) + q, e)
  {
    hide Flat, InsertAt, SetNode;
    FlatSplit(lv, a);
    SetNodeFlat(lv, a, InsertAt(lv[a].es, q, e));
    InsertInside(Flat(lv[..a]), lv[a].es, Flat(lv[a + 1..]), q, e);
  }

  lemma {:induction false} InsertInside(x: seq<Entry>, y: seq<Entry>, z: seq<Entry>, q: nat, e: Entry)
    requires q <= |y|
    ensures x + InsertAt(y, q, e) + z == InsertAt(x + y + z, |x| + q, e)
  {
    var f := x + y + z;
    assert f[..|x| + q] == x + y[..q];
    assert f[|x| + q..] == y[q..] + z;
  }

  /** A new last key, as for the largest key of the tree. */
  function SetLast(es: seq<Entry>, k: Key): seq<Entry>
    requires es != []
  {
    es[|es| - 1 := Entry(k, es[|es| - 1].rid)]
  }

  function Raised(lv: Level, k: Key): (r: Level)
    requires lv != [] && lv[|lv| - 1].es != []
    ensures |r| == |lv|
  {
    SetNode(lv, |lv| - 1, SetLast(lv[|lv| - 1].es, k))
  }

  lemma {:induction false} RaisedLevel(lv: Level, k: Key)
    requires lv != [] && Sound(lv) && Flat(lv) != [] && LastKey(Flat(lv)) <= k
    ensures Sound(Raised(lv, k))
    ensures Flat(Raised(lv, k)) == SetLast(Flat(lv), k)
    ensures Heads(Raised(lv, k)) == SetLast(Heads(lv), k)
  {
    hide Flat, Increasing;
    var a := |lv| - 1;
    LastNode(lv);
    SetNodeHeads(lv, a, SetLast(lv[a].es, k));
    LastNodeSet(lv, SetLast(lv[a].es, k));
    SetLastBehind(Flat(lv[..a]), lv[a].es, k);
    SetLastIncreasing(Flat(lv), k);
  }

  /** The last node's entries end the level. */
  lemma {:induction false} LastNode(lv: Level)
    requires lv != []
    ensures Flat(lv) == Flat(lv[..|lv| - 1]) + lv[|lv| - 1].es
  {
    var a := |lv| - 1;
    FlatSplit(lv, a);
    assert Flat(lv[a + 1..]) == [];
  }

  lemma {:induction false} LastNodeSet(lv: Level, es: seq<Entry>)
    requires lv != []
    ensures Flat(SetNode(lv, |lv| - 1, es)) == Flat(lv[..|lv| - 1]) + es
  {
    var a := |lv| - 1;
    SetNodeFlat(lv, a, es);
    assert Flat(lv[a + 1..]) == [];
  }

  lemma {:induction false} SetLastBehind(x: seq<Entry>, y: seq<Entry>, k: Key)
    requires y != []
    ensures x + SetLast(y, k) == SetLast(x + y, k)
  {}

  lemma {:induction false} SetLastIncreasing(es: seq<Entry>, k: Key)
    requires es != [] && Increasing(es) && LastKey(es) <= k
    ensures Increasing(SetLast(es, k))
  {}

  // ----- the leaf takes the entry -----

  /** The tree with entry e put at position q of node a on level d, whether it fits or not. */
  function Over(t: Tree, d: nat, a: nat, q: nat, e: Entry): Tree
    requires d < |t| && a < |t[d]| && q <= |t[d][a].es|
  {
    t[d := SetNode(t[d], a, InsertAt(t[d][a].es, q, e))]
  }

  /** What the tree holds: the entries of its leaves. */
  function Contents(t: Tree): seq<Entry>
    requires |t| > 0
  {
    Flat(t[|t| - 1])
  }

  /** The largest key of a tree that holds something. */
  ghost predicate Largest(t: Tree, k: Key)
    requires |t| > 0
  {
    Contents(t) != [] && LastKey(Contents(t)) == k
  }

  /** The largest key is the last one on every level. */
  lemma {:induction false} LargestEverywhere(t: Tree, d: nat, k: Key)
    requires Shape(t) && d < |t| && Largest(t, k)
    ensures t[d] != [] && Flat(t[d]) != [] && LastKey(Flat(t[d])) == k == LastKey(t[d][|t[d]| - 1].es)
    decreases |t| - d
  {
    hide Increasing;
    if d + 1 < |t| {
      LargestEverywhere(t, d + 1, k);
      assert LinkAt(t, d + 1);
      LastOfHeads(t[d + 1]);
    }
    LastOfHeads(t[d]);
  }

  lemma {:induction false} LastOfHeads(lv: Level)
    requires Filled(lv) && (Flat(lv) != [] || lv != [])
    ensures lv != [] && Flat(lv) != []
    ensures LastKey(Heads(lv)) == LastKey(Flat(lv)) == LastKey(lv[|lv| - 1].es)
  {
    if lv != [] {
      var a := |lv| - 1;
      FlatAt(lv, a, |lv[a].es| - 1);
      FlatBehind(lv, a);
    }
  }

  ghost predicate Absent(es: seq<Entry>, k: Key) {
    forall i :: 0 <= i < |es| ==> es[i].key != k
  }

  /** A key that is not the new largest goes into its leaf without the parents noticing. */
  lemma {:induction false} LeafTakes(t: Tree, a: nat, e: Entry, big: Key)
    requires Shape(t) && Largest(t, big) && Absent(Contents(t), e.key) && e.key <= big
    requires Covers(t[|t| - 1], a, e.key)
    ensures var d := |t| - 1; var v := Over(t, d, a, InsertPos(t[d][a].es, e.key), e);
            Shape(v) && Contents(v) == Inserted(Contents(t), e)
  {
    hide Flat, Increasing, InsertPos;
    var d := |t| - 1;
    var q := InsertPos(t[d][a].es, e.key);
    var v := Over(t, d, a, q, e);
    LargestEverywhere(t, d, big);
    LeafLevelTakes(t[d], a, e);
    forall i | 0 < i < |t| ensures LinkAt(v, i) {
      assert LinkAt(t, i);
    }
  }

  lemma {:induction false} LeafLevelTakes(lv: Level, a: nat, e: Entry)
    requires Sound(lv) && Flat(lv) != [] && e.key <= LastKey(Flat(lv))
    requires Covers(lv, a, e.key) && Absent(Flat(lv), e.key)
    ensures var q := InsertPos(lv[a].es, e.key);
            var w := SetNode(lv, a, InsertAt(lv[a].es, q, e));
            Sound(w) && Flat(w) == Inserted(Flat(lv), e) && Heads(w) == Heads(lv)
  {
    hide Flat, Increasing, InsertPos, Heads;
    var es := lv[a].es;
    var q := InsertPos(es, e.key);
    InsertAcross(lv, a, e);
    SetNodeInserts(lv, a, q, e);
    FlatAt(lv, a, |es| - 1);
    LastOfHeads(lv);
    assert LastKey(InsertAt(es, q, e)) == LastKey(es);
    SameHeads(lv, a, InsertAt(es, q, e));
  }

  /** A new largest key goes behind everything, and the last entry of every level above takes its key. */
  lemma {:induction false} LeafTakesLargest(t: Tree, v: Tree, e: Entry, big: Key)
    requires Shape(t) && Largest(t, big) && e.key > big
    requires |v| == |t| && forall d :: 0 <= d < |t| - 1 ==> RaisedTo(t[d], v[d], e.key)
    requires var d := |t| - 1; t[d] != [] && v[d] == SetNode(t[d], |t[d]| - 1, t[d][|t[d]| - 1].es + [e])
    ensures Shape(v) && Contents(v) == Contents(t) + [e]
  {
    hide Flat, Increasing, Raised;
    var d := |t| - 1;
    LastLevelTakes(t[d], e);
    forall i | 0 <= i < d
      ensures Sound(v[i]) && Flat(t[i]) != [] && Flat(v[i]) == SetLast(Flat(t[i]), e.key)
              && Heads(t[i]) != [] && Heads(v[i]) == SetLast(Heads(t[i]), e.key)
    {
      LargestEverywhere(t, i, big);
      assert RaisedTo(t[i], v[i], e.key);
      RaisedLevel(t[i], e.key);
    }
    forall i | 0 < i < |t| ensures LinkAt(v, i) {
      assert LinkAt(t, i);
    }
  }

  ghost predicate RaisedTo(lv: Level, w: Level, k: Key) {
    lv != [] && lv[|lv| - 1].es != [] && w == Raised(lv, k)
  }

  lemma {:induction false} LastLevelTakes(lv: Level, e: Entry)
    requires lv != [] && Sound(lv) && Flat(lv) != [] && e.key > LastKey(Flat(lv))
    ensures var a := |lv| - 1; var w := SetNode(lv, a, lv[a].es + [e]);
            Sound(w) && Flat(w) == Flat(lv) + [e] && Heads(w) == SetLast(Heads(lv), e.key)
  {
    hide Flat, Increasing;
    var a := |lv| - 1;
    LastNode(lv);
    LastNodeSet(lv, lv[a].es + [e]);
    SetNodeHeads(lv, a, lv[a].es + [e]);
    Regroup(Flat(lv[..a]), lv[a].es, [e]);
    OneIncreasing(e);
    IncreasingConcat(Flat(lv), [e]);
  }

  lemma {:induction false} OneIncreasing(e: Entry)
    ensures Increasing([e])
  {}

  // ----- a split moves the surplus entry to the parent -----

  /** Node a of the level made into two, the second on a new page. */
  function Parted(lv: Level, a: nat, xs: seq<Entry>, ys: seq<Entry>, page: int): Level
    requires a < |lv|
  {
    Replaced(lv, a, [Pg(lv[a].page, xs), Pg(page, ys)])
  }

  lemma {:induction false} PartedLevel(lv: Level, a: nat, xs: seq<Entry>, ys: seq<Entry>, page: int)
    requires Sound(lv) && a < |lv| && lv[a].es == xs + ys && xs != [] && ys != []
    ensures var w := Parted(lv, a, xs, ys, page);
            && Sound(w) && Flat(w) == Flat(lv)
            && Heads(w) == Heads(lv)[..a] + [Entry(LastKey(xs), Rid(lv[a].page, -1)), Entry(LastKey(ys), Rid(page, -1))]
                           + Heads(lv)[a + 1..]
  {
    var two := [Pg(lv[a].page, xs), Pg(page, ys)];
    FlatSplit(lv, a);
    ReplacedFlat(lv, a, two);
    ReplacedHeads(lv, a, two);
    FlatTwo(two);
    assert Heads(two) == [Entry(LastKey(xs), Rid(lv[a].page, -1)), Entry(LastKey(ys), Rid(page, -1))];
  }

  lemma {:induction false} FlatTwo(two: Level)
    requires |two| == 2
    ensures Flat(two) == two[0].es + two[1].es
  {
    assert two == [two[0]] + [two[1]];
    FlatConcat([two[0]], [two[1]]);
    FlatOne(two[0]);
    FlatOne(two[1]);
  }

  /** In the parent, entry p made into two. */
  lemma {:induction false} ParentLevel(up: Level, b: nat, p: nat, h1: Entry, h2: Entry)
    requires Filled(up) && b < |up| && p < |up[b].es| && h2.key == up[b].es[p].key
    ensures var w := SetNode(up, b, InsertAt(up[b].es[p := h1], p + 1, h2));
            && Filled(w) && Heads(w) == Heads(up)
            && Off(up, b) + p < |Flat(up)|
            && Flat(w) == Flat(up)[..Off(up, b) + p] + [h1, h2] + Flat(up)[Off(up, b) + p + 1..]
  {
    hide Flat, InsertAt, Heads;
    var es := up[b].es;
    var fs := InsertAt(es[p := h1], p + 1, h2);
    FlatSplit(up, b);
    SetNodeFlat(up, b, fs);
    PairLast(es, p, h1, h2);
    SameHeads(up, b, fs);
    PairInside(Flat(up[..b]), es, Flat(up[b + 1..]), p, h1, h2);
  }

  lemma {:induction false} PairLast(es: seq<Entry>, p: nat, h1: Entry, h2: Entry)
    requires p < |es| && h2.key == es[p].key
    ensures InsertAt(es[p := h1], p + 1, h2) != []
    ensures LastKey(InsertAt(es[p := h1], p + 1, h2)) == LastKey(es)
  {}

  lemma {:induction false} PairInside(x: seq<Entry>, y: seq<Entry>, z: seq<Entry>, p: nat, h1: Entry, h2: Entry)
    requires p < |y|
    ensures x + InsertAt(y[p := h1], p + 1, h2) + z == (x + y + z)[..|x| + p] + [h1, h2] + (x + y + z)[|x| + p + 1..]
  {
    var f := x + y + z;
    assert f[..|x| + p] == x + y[..p];
    assert f[|x| + p + 1..] == y[p + 1..] + z;
    assert InsertAt(y[p := h1], p + 1, h2) == y[..p] + [h1, h2] + y[p + 1..];
  }

  // ----- the way from the root -----

  /** From node a of the level one follows entry p to node c one level down, on the way to key k. */
  ghost predicate Hop(lv: Level, a: nat, p: int, c: nat, k: Key) {
    && a < |lv| && 0 <= p < |lv[a].es|
    && c == Off(lv, a) + p
    && k <= lv[a].es[p].key
    && (p > 0 ==> lv[a].es[p - 1].key < k)
  }

  /** The descent down to level d: the node passed on each level and the entry followed there. */
  ghost predicate OnPath(t: Tree, idx: seq<nat>, hops: seq<int>, k: Key, d: nat) {
    && d < |t| == |idx| && d <= |hops|
    && forall i :: 0 <= i < d ==> Hop(t[i], idx[i], hops[i], idx[i + 1], k)
  }

  /** The state while an insertion goes up: entry e is still to be put at position q of the node on level d, and with
      that the tree would be in order. */
  ghost predicate Growing(t: Tree, order: nat, idx: seq<nat>, hops: seq<int>, k: Key, d: nat, q: nat, e: Entry) {
    && OnPath(t, idx, hops, k, d)
    && idx[d] < |t[d]|
    && order >= 2 && q <= |t[d][idx[d]].es|
    && Pending(t[d][idx[d]].es, q, e, k)
    && AllFit(t, order)
    && Shape(Over(t, d, idx[d], q, e))
  }

  /** The level after node a's split. */
  function Halved(lv: Level, a: nat, e: Entry, k: Key, page: int): Level
    requires a < |lv| && |lv[a].es| >= 2
  {
    Parted(lv, a, LeftHalf(lv[a].es, e, k), RightHalf(lv[a].es, e, k), page)
  }

  /** What the parent is told about a node. */
  function HeadOf(es: seq<Entry>, page: int): Entry {
    Entry(if es == [] then 0 else LastKey(es), Rid(page, -1))
  }

  function LeftHead(lv: Level, a: nat, e: Entry, k: Key): Entry
    requires a < |lv| && |lv[a].es| >= 2
  {
    HeadOf(LeftHalf(lv[a].es, e, k), lv[a].page)
  }

  function RightHead(lv: Level, a: nat, e: Entry, k: Key, page: int): Entry
    requires a < |lv| && |lv[a].es| >= 2
  {
    HeadOf(RightHalf(lv[a].es, e, k), page)
  }

  lemma {:induction false} HalvedLevel(lv: Level, a: nat, q: nat, e: Entry, k: Key, page: int, order: nat)
    requires a < |lv| && 2 <= |lv[a].es| == order && Pending(lv[a].es, q, e, k) && Fits(lv, order)
    requires Sound(SetNode(lv, a, InsertAt(lv[a].es, q, e)))
    ensures var v, w := SetNode(lv, a, InsertAt(lv[a].es, q, e)), Halved(lv, a, e, k, page);
            && Sound(w) && Fits(w, order) && Flat(w) == Flat(v)
            && Heads(w) == Heads(v)[..a] + [LeftHead(lv, a, e, k), RightHead(lv, a, e, k, page)] + Heads(v)[a + 1..]
            && RightHead(lv, a, e, k, page).key == Heads(v)[a].key
  {
    var v, w := SetNode(lv, a, InsertAt(lv[a].es, q, e)), Halved(lv, a, e, k, page);
    var xs, ys := LeftHalf(lv[a].es, e, k), RightHalf(lv[a].es, e, k);
    Halves(lv[a].es, q, e, k);
    hide Flat, Increasing, LeftHalf, RightHalf, InsertAt, Pending, Fits, Halved, Parted, SetNode, Sound;
    HalvedIsParted(lv, a, q, e, k, page);
    HalvedFits(lv, a, e, k, page, order);
    assert v[a].page == lv[a].page && v[a].es == xs + ys by {
      SetNodeAt(lv, a, InsertAt(lv[a].es, q, e));
    }
    PartedLevel(v, a, xs, ys, page);
    LastOfTwo(xs, ys);
  }

  lemma {:induction false} SetNodeAt(lv: Level, a: nat, es: seq<Entry>)
    requires a < |lv|
    ensures var v := SetNode(lv, a, es);
            |v| == |lv| && v[a] == Pg(lv[a].page, es) && v[..a] == lv[..a] && v[a + 1..] == lv[a + 1..]
  {}

  lemma {:induction false} HalvedIsParted(lv: Level, a: nat, q: nat, e: Entry, k: Key, page: int)
    requires a < |lv| && |lv[a].es| >= 2 && q <= |lv[a].es|
    ensures Halved(lv, a, e, k, page) == Parted(SetNode(lv, a, InsertAt(lv[a].es, q, e)), a,
                                                LeftHalf(lv[a].es, e, k), RightHalf(lv[a].es, e, k), page)
  {
    hide LeftHalf, RightHalf, InsertAt;
    SetNodeAt(lv, a, InsertAt(lv[a].es, q, e));
  }

  lemma {:induction false} HalvedFits(lv: Level, a: nat, e: Entry, k: Key, page: int, order: nat)
    requires a < |lv| && |lv[a].es| >= 2 && Fits(lv, order)
    requires |LeftHalf(lv[a].es, e, k)| <= order && |RightHalf(lv[a].es, e, k)| <= order
    ensures Fits(Halved(lv, a, e, k, page), order)
  {
    hide LeftHalf, RightHalf;
  }

  lemma {:induction false} LastOfTwo(xs: seq<Entry>, ys: seq<Entry>)
    requires ys != []
    ensures LastKey(xs + ys) == LastKey(ys)
  {}

  /** The tree after node a of level d was split and its parent, node b, has the left half's head at entry p. */
  function Split(t: Tree, d: nat, a: nat, b: nat, p: nat, e: Entry, k: Key, page: int): Tree
    requires 0 < d < |t| && a < |t[d]| && |t[d][a].es| >= 2
    requires b < |t[d - 1]| && p < |t[d - 1][b].es|
  {
    t[d := Halved(t[d], a, e, k, page)][d - 1 := SetNode(t[d - 1], b, t[d - 1][b].es[p := LeftHead(t[d], a, e, k)])]
  }

  /** Splitting a full node hands its parent one entry, with which the tree is in order again. */
  lemma {:induction false} SplitStep(t: Tree, order: nat, idx: seq<nat>, hops: seq<int>, k: Key, d: nat, q: nat,
                                     e: Entry, page: int)
    requires d > 0 && Growing(t, order, idx, hops, k, d, q, e) && |t[d][idx[d]].es| == order
    ensures var b, p := idx[d - 1], hops[d - 1];
            var w := Split(t, d, idx[d], b, p, e, k, page);
            var h := RightHead(t[d], idx[d], e, k, page);
            && p + 1 <= |w[d - 1][b].es|
            && Contents(Over(w, d - 1, b, p + 1, h)) == Contents(Over(t, d, idx[d], q, e))
            && Growing(w, order, idx, hops, k, d - 1, p + 1, h)
  {
    hide Flat, Increasing, Pending, InsertAt, Halved, LeftHead, RightHead;
    var a, b, p := idx[d], idx[d - 1], hops[d - 1];
    assert Hop(t[d - 1], b, p, a, k);
    var w := Split(t, d, a, b, p, e, k, page);
    var v := Over(t, d, a, q, e);
    var h1, h2 := LeftHead(t[d], a, e, k), RightHead(t[d], a, e, k, page);
    assert v[d] == SetNode(t[d], a, InsertAt(t[d][a].es, q, e)) && Sound(v[d]);
    assert Fits(t[d], order);
    HalvedLevel(t[d], a, q, e, k, page, order);
    assert LinkAt(v, d);
    HopLands(v[d - 1], v[d], b, p, a, k);
    ParentLevel(t[d - 1], b, p, h1, h2);
    HeadsIncreasing(w[d]);
    var u := Over(w, d - 1, b, p + 1, h2);
    assert u[d - 1] == SetNode(t[d - 1], b, InsertAt(t[d - 1][b].es[p := h1], p + 1, h2));
    assert Flat(u[d - 1]) == Heads(w[d]);
    assert Sound(u[d - 1]);
    NodeIncreasing(u[d - 1], b);
    forall i | 0 < i < |t| ensures LinkAt(u, i) {
      assert LinkAt(v, i);
    }
    assert Pending(w[d - 1][b].es, p + 1, h2, k) by {
      HopPending(t[d - 1][b].es, p, h1, h2, k);
    }
    forall i | 0 <= i < |t| ensures Sound(u[i]) {
      if i < d - 1 || i > d {
        assert u[i] == v[i];
      }
    }
    assert |u[0]| == 1 by {
      assert |v[0]| == 1;
      if d > 1 {
        assert u[0] == v[0];
      }
    }
    assert OnPath(w, idx, hops, k, d - 1) by {
      assert forall i :: 0 <= i < d - 1 ==> w[i] == t[i];
    }
  }

  /** The entry followed from node b is the head of node a. */
  lemma {:induction false} HopLands(up: Level, down: Level, b: nat, p: nat, a: nat, k: Key)
    requires Hop(up, b, p, a, k) && Filled(down) && Flat(up) == Heads(down)
    ensures a < |down| && Heads(down)[a] == up[b].es[p] && up[b].es[p] == HeadOf(down[a].es, down[a].page)
  {
    FlatAt(up, b, p);
  }

  lemma {:induction false} HopPending(es: seq<Entry>, p: nat, h1: Entry, h2: Entry, k: Key)
    requires p < |es| && k <= es[p].key == h2.key && (p > 0 ==> es[p - 1].key < k)
    requires Increasing(InsertAt(es[p := h1], p + 1, h2))
    ensures Pending(es[p := h1], p + 1, h2, k)
  {}

  /** The tree after its root was split under a new root. */
  function RootSplit(t: Tree, e: Entry, k: Key, page: int, root: int): Tree
    requires |t| > 0 && |t[0]| == 1 && |t[0][0].es| >= 2
  {
    [[Pg(root, [LeftHead(t[0], 0, e, k), RightHead(t[0], 0, e, k, page)])]] + t[0 := Halved(t[0], 0, e, k, page)]
  }

  lemma {:induction false} TwoIncreasing(es: seq<Entry>)
    requires Increasing(es) && |es| == 2
    ensures es[0].key < es[1].key
  {}

  lemma {:induction false} RootStep(t: Tree, order: nat, idx: seq<nat>, hops: seq<int>, k: Key, q: nat, e: Entry,
                                    page: int, root: int)
    requires Growing(t, order, idx, hops, k, 0, q, e) && |t[0]| == 1 && |t[0][0].es| == order
    ensures var w := RootSplit(t, e, k, page, root);
            Shape(w) && AllFit(w, order) && Contents(w) == Contents(Over(t, 0, 0, q, e))
            && LeftHead(t[0], 0, e, k).key < RightHead(t[0], 0, e, k, page).key
  {
    hide Increasing, Pending, InsertAt, Halved, LeftHead, RightHead;
    var w := RootSplit(t, e, k, page, root);
    var v := Over(t, 0, 0, q, e);
    HalvedLevel(t[0], 0, q, e, k, page, order);
    FlatOne(w[0][0]);
    assert w[0] == [w[0][0]];
    HeadsIncreasing(w[1]);
    assert |v[0]| == 1;
    assert w[1] == Halved(t[0], 0, e, k, page);
    assert Heads(w[1]) == w[0][0].es;
    TwoIncreasing(w[0][0].es);
    forall i | 0 < i < |w| ensures LinkAt(w, i) {
      if i > 1 {
        assert LinkAt(v, i - 1);
      }
    }
    forall i | 0 <= i < |w| ensures Sound(w[i]) {
      if i > 1 {
        assert w[i] == v[i - 1];
      }
    }
  }
}
