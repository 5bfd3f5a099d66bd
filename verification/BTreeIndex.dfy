/** The index itself (ix_indexhandle.cc): finding the leaf for a key and inserting an entry, with splits that go up
    as far as the root. */
module BTreeIndex {
  import opened BTreeNode
  import opened BTreeLevels
  import opened BTreeFill
  import opened BTreeShape
  import opened BTreePages

  // ----- the descent -----

  /** The nodes passed on the way to the leaf for k, and the entries followed. */
  ghost predicate Descent(t: Tree, idx: seq<nat>, hops: seq<int>, k: Key, d: nat) {
    && d < |t| && d < |idx| && d <= |hops|
    && (forall i :: 0 <= i <= d ==> Reaches(t[i], idx[i], k))
    && (forall i :: 0 <= i < d ==> Steps(t[i], idx[i], hops[i], idx[i + 1], k))
  }

  ghost predicate Reaches(lv: Level, a: nat, k: Key) {
    Filled(lv) && Covers(lv, a, k)
  }

  ghost predicate Steps(lv: Level, a: nat, p: int, c: nat, k: Key) {
    a < |lv| && p >= 0 && Follows(lv[a].es, k, p) && c == Off(lv, a) + p
  }

  /** The pages of those nodes. */
  ghost predicate PathAt(t: Tree, idx: seq<nat>, path: seq<int>, d: nat) {
    && d < |t| && d < |idx| && d < |path|
    && forall i :: 0 <= i <= d ==> OnPage(t[i], idx[i], path[i])
  }

  ghost predicate OnPage(lv: Level, a: nat, page: int) {
    a < |lv| && lv[a].page == page
  }

  lemma {:induction false} FromRoot(t: Tree, k: Key)
    requires Shape(t)
    ensures t != [] && t[0] != [] && Reaches(t[0], 0, k)
  {
    assert Sound(t[0]);
  }

  /** One step of the descent. */
  lemma {:induction false} Descend(t: Tree, d: nat, a: nat, k: Key, p: nat)
    requires Shape(t) && d + 1 < |t| && Reaches(t[d], a, k) && Follows(t[d][a].es, k, p)
    ensures Reaches(t[d + 1], Off(t[d], a) + p, k)
    ensures t[d + 1][Off(t[d], a) + p].page == t[d][a].es[p].rid.page
  {
    assert LinkAt(t, d + 1) && Sound(t[d]) && Sound(t[d + 1]);
    CoversDown(t[d], t[d + 1], a, k, p);
  }

  /** An inner node's entries are in order and lead to pages. */
  lemma {:induction false} NodeSound(t: Tree, d: nat, a: nat, next: int)
    requires Shape(t) && Distinct(t, next) && d + 1 < |t| && a < |t[d]|
    ensures t[d][a].es != [] && Increasing(t[d][a].es)
    ensures forall p :: 0 <= p < |t[d][a].es| ==> t[d][a].es[p].rid.page != -1
  {
    hide Flat, Increasing;
    assert Sound(t[d]) && LinkAt(t, d + 1);
    NodeIncreasing(t[d], a);
    forall p | 0 <= p < |t[d][a].es| ensures t[d][a].es[p].rid.page != -1 {
      FlatAt(t[d], a, p);
      assert InFile(t, d + 1, Off(t[d], a) + p, next);
    }
  }

  /** Right of the leaf where the key belongs there are only larger keys. */
  lemma {:induction false} RightIsLarger(pages: Pages, t: Tree, a: nat, k: Key, p: nat)
    requires Shape(t) && Stored(pages, t) && Reaches(t[|t| - 1], a, k)
    requires var x := t[|t| - 1][a]; x.page in pages && pages[x.page].right != -1
    requires var es := t[|t| - 1][a].es; p + 1 == |es| && (BrutPos(es, k, p) || es[p].key == k)
    ensures var n := pages[t[|t| - 1][a].page].right; n in pages && pages[n].es != [] && k < pages[n].es[0].key
  {
    hide Flat, Increasing;
    var d := |t| - 1;
    assert Sound(t[d]) && StoredAt(pages, t[d], a) && StoredAt(pages, t[d], a + 1);
    HeadsBefore(t[d], a, a + 1);
  }

  /** A key in the tree is in the leaf that covers it. */
  lemma {:induction false} InItsLeaf(lv: Level, a: nat, k: Key, i: nat)
    requires Sound(lv) && Covers(lv, a, k) && i < |Flat(lv)| && Flat(lv)[i].key == k
    ensures Off(lv, a) <= i < Off(lv, a) + |lv[a].es|
    ensures lv[a].es[i - Off(lv, a)] == Flat(lv)[i]
  {
    hide Flat, Off;
    FlatAt(lv, a, |lv[a].es| - 1);
    FlatBehind(lv, a);
    if a > 0 {
      FlatBefore(lv, a);
    } else {
      OffZero(lv);
    }
    if Off(lv, a) <= i < Off(lv, a) + |lv[a].es| {
      FlatAt(lv, a, i - Off(lv, a));
    }
  }

  /** FindKeyExact in the leaf finds the key exactly when the tree has it, as long as no other rid goes with it. */
  lemma {:induction false} FoundInLeaf(t: Tree, a: nat, k: Key, rid: Rid)
    requires Shape(t) && Reaches(t[|t| - 1], a, k)
    requires OnlyWith(Contents(t), k, rid)
    ensures LastMatch(t[|t| - 1][a].es, k, rid) == -1 <==> Absent(Contents(t), k)
  {
    hide Flat, Increasing, Off;
    var lv := t[|t| - 1];
    assert Sound(lv);
    var pos := LastMatch(lv[a].es, k, rid);
    if pos != -1 {
      FlatAt(lv, a, pos);
    }
    forall i | 0 <= i < |Flat(lv)| && Flat(lv)[i].key == k
      ensures 0 <= i - Off(lv, a) < |lv[a].es| && Matches(lv[a].es[i - Off(lv, a)], k, rid)
    {
      InItsLeaf(lv, a, k, i);
    }
  }

  /** The key comes with this rid or not at all. */
  ghost predicate OnlyWith(es: seq<Entry>, k: Key, rid: Rid) {
    forall i :: 0 <= i < |es| && es[i].key == k ==> Matches(es[i], k, rid)
  }

  /** Up to the largest key the descent follows an entry that is not smaller. */
  lemma {:induction false} DescentHops(t: Tree, idx: seq<nat>, hops: seq<int>, k: Key, d: nat, big: Key)
    requires Shape(t) && Largest(t, big) && k <= big && Descent(t, idx, hops, k, d) && |idx| == |t|
    ensures OnPath(t, idx, hops, k, d)
  {
    hide Flat, Off;
    forall i | 0 <= i < d ensures Hop(t[i], idx[i], hops[i], idx[i + 1], k) {
      assert Reaches(t[i], idx[i], k) && Steps(t[i], idx[i], hops[i], idx[i + 1], k) && Sound(t[i]);
      LargestEverywhere(t, i, big);
      NodeIncreasing(t[i], idx[i]);
    }
  }

  /** Beyond the largest key the descent follows the last entry of the last node on every level. */
  lemma {:induction false} DescentRight(t: Tree, idx: seq<nat>, hops: seq<int>, k: Key, d: nat, big: Key)
    requires Shape(t) && Largest(t, big) && k > big && Descent(t, idx, hops, k, d)
    ensures forall i :: 0 <= i <= d ==> idx[i] + 1 == |t[i]|
    ensures forall i :: 0 <= i < d ==> hops[i] == |t[i][idx[i]].es| - 1
  {
    hide Flat, Off;
    forall i | 0 <= i <= d ensures idx[i] + 1 == |t[i]| {
      assert Reaches(t[i], idx[i], k) && Sound(t[i]);
      LargestEverywhere(t, i, big);
      if idx[i] + 1 < |t[i]| {
        HeadsBefore(t[i], idx[i], |t[i]| - 1);
      }
    }
    forall i | 0 <= i < d ensures hops[i] == |t[i][idx[i]].es| - 1 {
      assert Steps(t[i], idx[i], hops[i], idx[i + 1], k) && Sound(t[i]) && idx[i] + 1 == |t[i]|;
      LargestEverywhere(t, i, big);
      NodeIncreasing(t[i], idx[i]);
    }
  }

  /** The entries met along the right links from a page, over at most n pages. */
  function Walk(pages: Pages, page: int, n: nat): seq<Entry>
    decreases n
  {
    if n == 0 || page !in pages then [] else pages[page].es + Walk(pages, pages[page].right, n - 1)
  }

  /** The leaf chain visits every entry of the tree, in order and once. */
  lemma {:induction false} LeafChain(pages: Pages, t: Tree, n: nat)
    requires Stored(pages, t) && -1 !in pages && |t| > 0 && t[|t| - 1] != [] && n >= |t[|t| - 1]|
    ensures Walk(pages, t[|t| - 1][0].page, n) == Contents(t)
  {
    var lv := t[|t| - 1];
    assert lv[0..] == lv;
    WalkFrom(pages, t, 0, n);
  }

  lemma {:induction false} WalkFrom(pages: Pages, t: Tree, a: nat, n: nat)
    requires Stored(pages, t) && -1 !in pages && |t| > 0 && a <= |t[|t| - 1]| <= a + n
    ensures Walk(pages, PageAt(t[|t| - 1], a), n) == Flat(t[|t| - 1][a..])
    decreases n
  {
    var lv := t[|t| - 1];
    if a < |lv| {
      assert StoredAt(pages, lv, a);
      WalkFrom(pages, t, a + 1, n - 1);
      assert lv[a..][1..] == lv[a + 1..];
    }
  }

  /** Beyond the largest key every inner node on the way ends with that largest key. */
  lemma {:induction false} LastOnPath(t: Tree, idx: seq<nat>, hops: seq<int>, k: Key, d: nat, i: nat, big: Key)
    requires Shape(t) && Largest(t, big) && k > big && Descent(t, idx, hops, k, d) && i <= d
    ensures idx[i] + 1 == |t[i]| && t[i][idx[i]].es != []
    ensures LastMatch(t[i][idx[i]].es, big, Rid(-1, -1)) == |t[i][idx[i]].es| - 1
  {
    DescentRight(t, idx, hops, k, d, big);
    LargestEverywhere(t, i, big);
    assert Sound(t[i]);
  }

  /** The first and the last entry of a level lead to the first and the last node below. */
  lemma {:induction false} EndsLead(pages: Pages, t: Tree, d: nat, next: int)
    requires Shape(t) && Stored(pages, t) && d + 1 < |t| && t[d] != []
    ensures t[d + 1] != []
    ensures var x, y := t[d][0], t[d][|t[d]| - 1];
            && x.page in pages && pages[x.page].es != [] && pages[x.page].es[0].rid.page == t[d + 1][0].page
            && y.page in pages && pages[y.page].es != []
            && pages[y.page].es[|pages[y.page].es| - 1].rid.page == t[d + 1][|t[d + 1]| - 1].page
  {
    hide Flat, Increasing;
    assert Sound(t[d]) && LinkAt(t, d + 1) && StoredAt(pages, t[d], 0) && StoredAt(pages, t[d], |t[d]| - 1);
    FlatAt(t[d], 0, 0);
    OffZero(t[d]);
    var a := |t[d]| - 1;
    FlatAt(t[d], a, |t[d][a].es| - 1);
    FlatBehind(t[d], a);
  }

  // ----- splitting -----

  /** A level after SplitNode. */
  function CutInTwo(lv: Level, a: nat, page: int): Level
    requires a < |lv|
  {
    var es := lv[a].es;
    Parted(lv, a, es[..MovePos(|es|)], es[MovePos(|es|)..], page)
  }

  /** Entry e goes into one of the halves. */
  lemma {:induction false} IntoHalf(lv: Level, a: nat, e: Entry, k: Key, page: int)
    requires a < |lv| && |lv[a].es| >= 2
    ensures var w := CutInTwo(lv, a, page);
            var m := MovePos(|lv[a].es|);
            && w[a] == Pg(lv[a].page, lv[a].es[..m]) && w[a + 1] == Pg(page, lv[a].es[m..])
            && Halved(lv, a, e, k, page)
               == if k >= LastKey(lv[a].es[..m]) then SetNode(w, a + 1, Inserted(w[a + 1].es, e))
                  else SetNode(w, a, Inserted(w[a].es, e))
  {
    hide Inserted;
  }

  /** The two nodes that a split leaves, as the parent is told about them. */
  lemma {:induction false} HalvedNodes(lv: Level, a: nat, e: Entry, k: Key, page: int)
    requires a < |lv| && |lv[a].es| >= 2
    ensures var w := Halved(lv, a, e, k, page);
            && |w| == |lv| + 1 && w[a].page == lv[a].page && w[a + 1].page == page
            && HeadOf(w[a].es, lv[a].page) == LeftHead(lv, a, e, k)
            && HeadOf(w[a + 1].es, page) == RightHead(lv, a, e, k, page)
  {
    hide LeftHalf, RightHalf, HeadOf;
  }

  // ----- the leaf -----

  /** What InsertEntry has to bring about: with e at position q of the leaf the tree would hold `target`. */
  ghost predicate LeafReady(t: Tree, order: nat, idx: seq<nat>, hops: seq<int>, q: nat, e: Entry, target: seq<Entry>) {
    && |t| > 0
    && Growing(t, order, idx, hops, e.key, |t| - 1, q, e)
    && Contents(Over(t, |t| - 1, idx[|t| - 1], q, e)) == target
  }

  lemma {:induction false} LeafInside(t: Tree, order: nat, idx: seq<nat>, hops: seq<int>, e: Entry, big: Key)
    requires Shape(t) && Largest(t, big) && e.key <= big && Absent(Contents(t), e.key)
    requires Descent(t, idx, hops, e.key, |t| - 1) && |idx| == |t| && AllFit(t, order) && order >= 2
    ensures var q := InsertPos(t[|t| - 1][idx[|t| - 1]].es, e.key);
            LeafReady(t, order, idx, hops, q, e, Inserted(Contents(t), e))
  {
    hide Flat, InsertPos, Off;
    var d := |t| - 1;
    var a := idx[d];
    assert Reaches(t[d], a, e.key);
    DescentHops(t, idx, hops, e.key, d, big);
    LeafTakes(t, a, e, big);
    var v := Over(t, d, a, InsertPos(t[d][a].es, e.key), e);
    assert Sound(v[d]);
    NodeIncreasing(v[d], a);
  }

  lemma {:induction false} LeafBehind(t: Tree, w: Tree, order: nat, idx: seq<nat>, hops: seq<int>, e: Entry, big: Key)
    requires Shape(t) && Largest(t, big) && e.key > big
    requires Descent(t, idx, hops, e.key, |t| - 1) && |idx| == |t| && AllFit(w, order) && order >= 2
    requires |w| == |t| && w[|t| - 1] == t[|t| - 1]
    requires forall d :: 0 <= d < |t| - 1 ==> RaisedTo(t[d], w[d], e.key)
    ensures var q := InsertPos(t[|t| - 1][idx[|t| - 1]].es, e.key);
            LeafReady(w, order, idx, hops, q, e, Inserted(Contents(t), e))
  {
    hide Flat, InsertPos, Off, Increasing;
    var d := |t| - 1;
    var a, es := idx[d], t[d][idx[d]].es;
    DescentRight(t, idx, hops, e.key, d, big);
    LargestEverywhere(t, d, big);
    assert Sound(t[d]);
    NodeIncreasing(t[d], a);
    AppendsAll(es, e);
    AppendsAll(Contents(t), e);
    var v := Over(w, d, a, |es|, e);
    assert v[d] == SetNode(t[d], a, es + [e]);
    LeafTakesLargest(t, v, e, big);
    assert Sound(v[d]);
    NodeIncreasing(v[d], a);
    RaisedHops(t, w, idx, hops, e.key, d, big);
  }

  lemma {:induction false} AppendsAll(es: seq<Entry>, e: Entry)
    requires Increasing(es) && (es != [] ==> LastKey(es) < e.key)
    ensures Inserted(es, e) == es + [e] == InsertAt(es, |es|, e) && InsertPos(es, e.key) == |es|
  {
    InsertPosUnique(es, |es|, e);
  }

  /** On the raised tree the way to the last leaf is a way to the new largest key. */
  lemma {:induction false} RaisedHops(t: Tree, w: Tree, idx: seq<nat>, hops: seq<int>, k: Key, d: nat, big: Key)
    requires Shape(t) && Largest(t, big) && k > big && Descent(t, idx, hops, k, d) && |idx| == |t| == |w|
    requires forall i :: 0 <= i < d ==> RaisedTo(t[i], w[i], k)
    ensures OnPath(w, idx, hops, k, d)
  {
    hide Flat;
    DescentRight(t, idx, hops, k, d, big);
    forall i | 0 <= i < d ensures Hop(w[i], idx[i], hops[i], idx[i + 1], k) {
      assert RaisedTo(t[i], w[i], k) && Steps(t[i], idx[i], hops[i], idx[i + 1], k) && Sound(t[i]);
      LargestEverywhere(t, i, big);
      NodeIncreasing(t[i], idx[i]);
      assert w[i][..idx[i]] == t[i][..idx[i]];
    }
  }

  /** The first entry of an empty index. */
  lemma {:induction false} LeafFirst(root: int, order: nat, idx: seq<nat>, hops: seq<int>, e: Entry)
    requires order >= 2 && idx == [0]
    ensures LeafReady([[Pg(root, [])]], order, idx, hops, 0, e, [e])
  {
    var t: Tree := [[Pg(root, [])]];
    var v := Over(t, 0, 0, 0, e);
    assert InsertAt([], 0, e) == [e];
    assert v[0] == [Pg(root, [e])];
    FlatOne(Pg(root, [e]));
  }

  /** The last entry of every inner node on the way has taken the key if it is a new largest one. */
  ghost predicate RaisedFor(t: Tree, w: Tree, k: Key) {
    && |t| == |w| && |t| > 0 && w[|t| - 1] == t[|t| - 1]
    && forall d :: 0 <= d < |t| - 1 ==> if Contents(t) == [] || k > LastKey(Contents(t)) then RaisedTo(t[d], w[d], k)
                                         else w[d] == t[d]
  }

  lemma {:induction false} RaisedPath(t: Tree, w: Tree, idx: seq<nat>, path: seq<int>, k: Key, d: nat)
    requires RaisedFor(t, w, k) && PathAt(t, idx, path, d)
    ensures PathAt(w, idx, path, d)
  {
    hide Contents, SetLast;
    forall i | 0 <= i <= d ensures OnPage(w[i], idx[i], path[i]) {
      assert OnPage(t[i], idx[i], path[i]);
      assert i < |t| - 1 ==> w[i] == t[i] || RaisedTo(t[i], w[i], k);
    }
  }

  ghost predicate EmptyTree(t: Tree) {
    |t| == 1 && |t[0]| == 1 && t[0][0].es == []
  }

  lemma {:induction false} LeafStage(t: Tree, w: Tree, order: nat, idx: seq<nat>, hops: seq<int>, e: Entry)
    requires EmptyTree(t) || (Shape(t) && Contents(t) != [] && Descent(t, idx, hops, e.key, |t| - 1))
    requires |t| == |idx| && idx[0] == 0 && RaisedFor(t, w, e.key) && AllFit(w, order) && order >= 2
    requires Absent(Contents(t), e.key)
    ensures var q := InsertPos(t[|t| - 1][idx[|t| - 1]].es, e.key);
            LeafReady(w, order, idx, hops, q, e, Inserted(Contents(t), e))
  {
    hide Flat, Increasing, InsertPos, LeafReady, Descent, RaisedTo, Absent, AllFit;
    if EmptyTree(t) {
      var root := t[0][0].page;
      assert t[0] == [Pg(root, [])];
      FlatOne(Pg(root, []));
      AppendsAll([], e);
      assert [] + [e] == [e];
      assert w == [[Pg(root, [])]];
      LeafFirst(root, order, idx, hops, e);
    } else if e.key > LastKey(Contents(t)) {
      LeafBehind(t, w, order, idx, hops, e, LastKey(Contents(t)));
    } else {
      assert w == t;
      LeafInside(t, order, idx, hops, e, LastKey(Contents(t)));
    }
  }

  /** The largest key after an insertion. */
  lemma {:induction false} InsertedLast(es: seq<Entry>, e: Entry)
    ensures LastKey(Inserted(es, e)) == if es == [] || e.key >= LastKey(es) then e.key else LastKey(es)
  {}

  /** Replacing the parent's entry and adding one, as DeleteNode and two calls of InsertNode. */
  lemma {:induction false} ParentTold(es: seq<Entry>, p: nat, h1: Entry, h2: Entry)
    requires p < |es| && Increasing(InsertAt(es[p := h1], p + 1, h2))
    ensures Inserted(DeletedAt(es, p), h1) == es[p := h1]
    ensures Inserted(es[p := h1], h2) == InsertAt(es[p := h1], p + 1, h2)
  {
    var fs := es[p := h1];
    PendingParts(fs, p + 1, h2);
    InsertPosUnique(fs, p + 1, h2);
    hide Increasing, InsertPos;
    BackInPlace(es, p, h1);
  }

  lemma {:induction false} BackInPlace(es: seq<Entry>, p: nat, h: Entry)
    requires p < |es| && Increasing(es[p := h])
    ensures Inserted(DeletedAt(es, p), h) == es[p := h]
  {
    hide Increasing, InsertPos, DeletedAt;
    var fs, gs := es[p := h], DeletedAt(es, p);
    DeletedParts(es, p, h);
    DeletedIncreasing(fs, p);
    Around(fs, p);
    InsertPosUnique(gs, p, h);
  }

  lemma {:induction false} DeletedParts(es: seq<Entry>, p: nat, h: Entry)
    requires p < |es|
    ensures DeletedAt(es[p := h], p) == DeletedAt(es, p)
    ensures var gs := DeletedAt(es, p);
            (p > 0 ==> gs[p - 1] == es[p - 1]) && (p < |gs| ==> gs[p] == es[p + 1]) && InsertAt(gs, p, h) == es[p := h]
  {}

  lemma {:induction false} Around(es: seq<Entry>, p: nat)
    requires Increasing(es) && p < |es|
    ensures (p > 0 ==> es[p - 1].key < es[p].key) && (p + 1 < |es| ==> es[p].key < es[p + 1].key)
  {}

  lemma {:induction false} DeletedIncreasing(es: seq<Entry>, p: nat)
    requires p < |es| && Increasing(es)
    ensures Increasing(DeletedAt(es, p))
  {
    var gs := DeletedAt(es, p);
    forall i, j | 0 <= i < j < |gs| ensures gs[i].key < gs[j].key {
      assert es[if i < p then i else i + 1].key < es[if j < p then j else j + 1].key;
    }
  }

  // ----- the index -----

  datatype InsertResult = Done | EntryExists

  class IndexHandle {
    const order: nat
    var pages: Pages
    var root: int
    var height: nat
    var treeLargest: Key
    var path: seq<int>
    var pathP: seq<int>
    var nextPage: int
    ghost var tree: Tree

    /** The pages hold the nodes of the tree. */
    ghost predicate Backed()
      reads this
    {
      && order >= 2
      && height == |tree| >= 1 && tree[0] != [] && |path| == height && |pathP| == height - 1
      && -1 !in pages && nextPage >= 0
      && Stored(pages, tree) && Distinct(tree, nextPage) && AllFit(tree, order)
      && root == tree[0][0].page
    }

    ghost predicate Valid()
      reads this
    {
      && Backed() && HalfFull(tree, order)
      && ((Shape(tree) && Largest(tree, treeLargest)) || EmptyTree(tree))
    }

    /** FindLeaf has just come to this leaf. */
    ghost predicate AtLeaf(leaf: int, k: Key, idx: seq<nat>)
      reads this
    {
      && Valid()
      && |idx| == height && idx[0] == 0
      && PathAt(tree, idx, path, height - 1) && leaf == path[height - 1]
      && (Shape(tree) ==> Descent(tree, idx, pathP, k, height - 1))
    }

    constructor (order: nat)
      requires order >= 2
      ensures Valid() && this.order == order && Contents(tree) == []
    {
      this.order := order;
      pages := map[0 := Node([], -1, -1)];
      root, height, treeLargest, nextPage := 0, 1, 0, 1;
      path, pathP := [0], [];
      tree := [[Pg(0, [])]];
      new;
      assert Distinct(tree, nextPage) by {
        forall c, b, i, j | 0 <= c < |tree| && 0 <= b < |tree[c]| && 0 <= i < |tree| && 0 <= j < |tree[i]|
          ensures Apart(tree, c, b, i, j)
        {}
      }
    }

    /** FindLeaf: from every node the entry that FindKeyBrut gives, or the last one, down to the leaf. */
    method FindLeaf(k: Key) returns (leaf: int, ghost idx: seq<nat>)
      requires Valid()
      modifies this`path, this`pathP
      ensures AtLeaf(leaf, k, idx)
    {
      hide Flat, Increasing, Off, BrutAt, LastMatch, Largest, AllFit, Distinct, HalfFull, Steps, Reaches;
      idx := [0];
      path := path[0 := root];
      if Shape(tree) {
        FromRoot(tree, k);
      }
      if height == 1 {
        return root, idx;
      }
      assert Shape(tree);
      var i := 1;
      while i < height
        invariant 1 <= i <= height == |tree|
        invariant |path| == height && |pathP| == height - 1 && path[0] == root
        invariant |idx| == i && idx[0] == 0
        invariant PathAt(tree, idx, path, i - 1)
        invariant Descent(tree, idx, pathP, k, i - 1)
      {
        assert OnPage(tree[i - 1], idx[i - 1], path[i - 1]) && Reaches(tree[i - 1], idx[i - 1], k);
        var pos, page, next := StepDown(path[i - 1], k, i - 1, idx[i - 1]);
        idx := idx + [next];
        path := path[i := page];
        pathP := pathP[i - 1 := pos];
        i := i + 1;
      }
      leaf := path[height - 1];
      assert OnPage(tree[i - 1], idx[i - 1], leaf) && Reaches(tree[i - 1], idx[i - 1], k);
      var hop := HopsRight(leaf, k, idx[i - 1]);
    }

    /** One turn of FindLeaf's loop: from a node to the one below it. */
    method StepDown(node: int, k: Key, ghost d: nat, ghost a: nat) returns (pos: nat, page: int, ghost next: nat)
      requires Valid() && Shape(tree) && d + 1 < height && OnPage(tree[d], a, node) && Reaches(tree[d], a, k)
      ensures Steps(tree[d], a, pos, next, k) && OnPage(tree[d + 1], next, page) && Reaches(tree[d + 1], next, k)
    {
      hide Flat, Increasing, Off, BrutAt, LastMatch, Largest, AllFit, Distinct;
      assert StoredAt(pages, tree[d], a);
      NodeSound(tree, d, a, nextPage);
      pos, page := Follow(pages[node].es, k);
      Descend(tree, d, a, k, pos);
      next := Off(tree[d], a) + pos;
    }

    /** Whether FindLeaf goes on to the leaf's right sibling: with distinct keys it never does. */
    method HopsRight(leaf: int, k: Key, ghost a: nat) returns (hop: bool)
      requires Valid() && Shape(tree) && Reaches(tree[height - 1], a, k) && tree[height - 1][a].page == leaf
      ensures !hop
    {
      assert StoredAt(pages, tree[height - 1], a);
      var node := pages[leaf];
      var pos := BrutAt(node.es, k);
      if pos != |node.es| - 1 || node.right == -1 {
        return false;
      }
      RightIsLarger(pages, tree, a, k, pos);
      var bnode := pages[node.right];
      return k >= bnode.es[0].key;
    }

    /** The entry of an inner node that FindLeaf follows. */
    static method Follow(es: seq<Entry>, k: Key) returns (pos: nat, page: int)
      requires es != [] && Increasing(es) && forall i :: 0 <= i < |es| ==> es[i].rid.page != -1
      ensures Follows(es, k, pos) && page == es[pos].rid.page
    {
      pos := BrutAt(es, k);
      page := if pos < |es| then es[pos].rid.page else -1;
      if page == -1 {
        var last := LastMatch(es, LastKey(es), Rid(-1, -1));
        page := es[last].rid.page;
        pos := last;
      }
    }

    /** FindLargestLeaf: the last entry of every node leads to the last leaf. */
    method FindLargestLeaf() returns (leaf: int)
      requires Valid()
      modifies this`path, this`pathP
      ensures Valid() && tree[height - 1] != [] && leaf == tree[height - 1][|tree[height - 1]| - 1].page
    {
      hide Flat, Increasing, Largest, AllFit, Distinct, Stored, HalfFull;
      leaf := root;
      path := path[0 := root];
      var i := 1;
      while i < height
        invariant 1 <= i <= height == |path| == |pathP| + 1
        invariant tree[i - 1] != [] && leaf == tree[i - 1][|tree[i - 1]| - 1].page == path[i - 1]
      {
        EndsLead(pages, tree, i - 1, nextPage);
        var es := pages[path[i - 1]].es;
        leaf := es[|es| - 1].rid.page;
        path := path[i := leaf];
        pathP := pathP[i - 1 := 0];
        i := i + 1;
      }
    }

    /** FindSmallestLeaf: the first entry of every node leads to the first leaf. */
    method FindSmallestLeaf() returns (leaf: int)
      requires Valid()
      modifies this`path, this`pathP
      ensures Valid() && tree[height - 1] != [] && leaf == tree[height - 1][0].page
    {
      hide Flat, Increasing, Largest, AllFit, Distinct, Stored, HalfFull;
      leaf := root;
      path := path[0 := root];
      var i := 1;
      while i < height
        invariant 1 <= i <= height == |path| == |pathP| + 1
        invariant tree[i - 1] != [] && leaf == tree[i - 1][0].page == path[i - 1]
      {
        EndsLead(pages, tree, i - 1, nextPage);
        leaf := pages[path[i - 1]].es[0].rid.page;
        path := path[i := leaf];
        pathP := pathP[i - 1 := 0];
        i := i + 1;
      }
    }

    /** What insertions have made: no node has more entries than fit, none but the root less than half as many, and so
        the height is small for what the tree holds. */
    lemma {:induction false} NeverHigh()
      requires Valid()
      ensures forall d, a :: 0 <= d < height && 0 <= a < |tree[d]| ==>
                (d == 0 || order / 2 <= |tree[d][a].es|) && |tree[d][a].es| <= order
      ensures height > 1 ==> |Contents(tree)| >= 2 * Power(order / 2, height - 1)
    {
      hide Flat, Distinct, Stored, Shape, Power;
      if height > 1 {
        HeightBound(tree, order);
      }
      forall d, a | 0 <= d < height && 0 <= a < |tree[d]|
        ensures (d == 0 || order / 2 <= |tree[d][a].es|) && |tree[d][a].es| <= order
      {
        assert Fits(tree[d], order) && (d == 0 || HalfLevel(tree[d], order));
      }
    }

    // ----- inserting -----

    /** Writes a node's entries to its page. */
    method PutEntries(page: int, es: seq<Entry>, ghost d: nat, ghost a: nat)
      requires Backed() && d < height && a < |tree[d]| && tree[d][a].page == page && |es| <= order
      modifies this`pages, this`tree
      ensures Backed() && tree == old(tree)[d := SetNode(old(tree)[d], a, es)]
    {
      StoredSet(pages, tree, nextPage, d, a, es);
      pages := pages[page := pages[page].(es := es)];
      tree := tree[d := SetNode(tree[d], a, es)];
    }

    /** InsertNode on a page; false, and nothing changes, when the node is full. */
    method InsertNode(page: int, k: Key, rid: Rid, ghost d: nat, ghost a: nat) returns (ok: bool)
      requires Backed() && d < height && a < |tree[d]| && tree[d][a].page == page
      modifies this`pages, this`tree
      ensures Backed() && (ok <==> |old(tree)[d][a].es| < order)
      ensures ok ==> tree == old(tree)[d := SetNode(old(tree)[d], a, Inserted(old(tree)[d][a].es, Entry(k, rid)))]
      ensures !ok ==> tree == old(tree) && pages == old(pages)
    {
      hide AllFit, Distinct;
      assert StoredAt(pages, tree[d], a);
      var es := pages[page].es;
      if |es| >= order {
        return false;
      }
      PutEntries(page, Inserted(es, Entry(k, rid)), d, a);
      return true;
    }

    /** For a new largest key: the last entry of every inner node passed takes the key. */
    method RaisePath(k: Key, ghost idx: seq<nat>)
      requires Valid() && |idx| == height && PathAt(tree, idx, path, height - 1)
      requires height > 1 ==> k > treeLargest && Shape(tree) && Descent(tree, idx, pathP, k, height - 1)
      modifies this`pages, this`tree, this`treeLargest
      ensures Backed() && treeLargest == k
      ensures |tree| == |old(tree)| && tree[height - 1] == old(tree)[height - 1]
      ensures forall d :: 0 <= d < height - 1 ==> RaisedTo(old(tree)[d], tree[d], k)
    {
      hide Flat, Increasing, Off, LastMatch, Largest, Distinct, Shape, Descent;
      ghost var t: Tree := tree;
      var prevKey := treeLargest;
      var i := 0;
      while i < height - 1
        invariant 0 <= i <= height - 1 && Backed()
        invariant |tree| == |t| && forall d :: i <= d < height ==> tree[d] == t[d]
        invariant forall d :: 0 <= d < i ==> RaisedTo(t[d], tree[d], k)
      {
        assert OnPage(t[i], idx[i], path[i]);
        LastOnPath(t, idx, pathP, k, height - 1, i, prevKey);
        assert StoredAt(pages, tree[i], idx[i]) && Fits(tree[i], order);
        var es := pages[path[i]].es;
        var pos := LastMatch(es, prevKey, Rid(-1, -1));
        if pos != -1 {
          PutEntries(path[i], es[pos := Entry(k, es[pos].rid)], i, idx[i]);
        }
        i := i + 1;
      }
      treeLargest := k;
    }

    /** Moves the upper half of a node to a new page and links it in as the right neighbour. */
    method SplitNode(node: int, ghost d: nat, ghost a: nat) returns (newNode: int)
      requires Backed() && d < height && a < |tree[d]| && tree[d][a].page == node && |tree[d][a].es| == order
      modifies this`pages, this`tree, this`nextPage
      ensures |old(tree)[d][a].es| == order && tree == old(tree)[d := CutInTwo(old(tree)[d], a, newNode)]
      ensures Backed() && a + 1 < |tree[d]| && 0 <= |tree[d][a].es| - |tree[d][a + 1].es| <= 1
    {
      assert StoredAt(pages, tree[d], a);
      newNode := nextPage;
      var n := pages[node];
      var m := MovePos(|n.es|);
      StoredSplit(pages, tree, nextPage, d, a, n.es[..m], n.es[m..]);
      pages := SplitPages(pages, node, n.es[..m], n.es[m..], newNode);
      nextPage := nextPage + 1;
      tree := tree[d := CutInTwo(tree[d], a, newNode)];
    }

    /** One turn of InsertEntry's loop: splits a full node and puts the pending entry into one of the halves. */
    method SplitFull(node: int, k: Key, failed: Entry, ghost d: nat, ghost a: nat)
      returns (newNode: int, h1: Entry, h2: Entry)
      requires Backed() && d < height && a < |tree[d]| && tree[d][a].page == node && |tree[d][a].es| == order
      modifies this`pages, this`tree, this`nextPage
      ensures Backed() && |old(tree)[d][a].es| >= 2
      ensures tree == old(tree)[d := Halved(old(tree)[d], a, failed, k, newNode)]
      ensures h1 == LeftHead(old(tree)[d], a, failed, k) && h2 == RightHead(old(tree)[d], a, failed, k, newNode)
    {
      hide Flat, Increasing, Inserted, Distinct;
      ghost var t: Tree := tree;
      newNode := SplitNode(node, d, a);
      IntoHalf(t[d], a, failed, k, newNode);
      var ok;
      assert StoredAt(pages, tree[d], a);
      if k >= LastKey(pages[node].es) {
        ok := InsertNode(newNode, failed.key, failed.rid, d, a + 1);
      } else {
        ok := InsertNode(node, failed.key, failed.rid, d, a);
      }
      HalvedNodes(t[d], a, failed, k, newNode);
      assert StoredAt(pages, tree[d], a) && StoredAt(pages, tree[d], a + 1);
      h1, h2 := HeadOf(pages[node].es, node), HeadOf(pages[newNode].es, newNode);
    }

    /** In the parent the entry for the split node makes way for the heads of its two halves; false when there was
        room for one only. */
    method TellParent(parent: int, posAtParent: int, h1: Entry, h2: Entry, ghost d: nat, ghost b: nat)
      returns (ok: bool)
      requires Backed() && d < height && b < |tree[d]| && tree[d][b].page == parent
      requires 0 <= posAtParent < |tree[d][b].es|
      requires Increasing(InsertAt(tree[d][b].es[posAtParent := h1], posAtParent + 1, h2))
      modifies this`pages, this`tree
      ensures Backed() && ok == (|old(tree)[d][b].es| < order)
      ensures var w := old(tree)[d := SetNode(old(tree)[d], b, old(tree)[d][b].es[posAtParent := h1])];
              tree == if ok then Over(w, d, b, posAtParent + 1, h2) else w
    {
      hide Flat, Increasing, Inserted, Distinct, DeletedAt, InsertAt;
      ghost var t: Tree := tree;
      ghost var es := t[d][b].es;
      ParentTold(es, posAtParent, h1, h2);
      assert StoredAt(pages, tree[d], b) && Fits(tree[d], order);
      PutEntries(parent, DeletedAt(pages[parent].es, posAtParent), d, b);
      ok := InsertNode(parent, h1.key, h1.rid, d, b);
      assert tree[d] == SetNode(t[d], b, es[posAtParent := h1]);
      assert tree == t[d := SetNode(t[d], b, es[posAtParent := h1])];
      ok := InsertNode(parent, h2.key, h2.rid, d, b);
    }

    /** The new root over the halves of the old one. */
    method NewRoot(h1: Entry, h2: Entry)
      requires Backed() && h1.key < h2.key
      modifies this
      ensures Backed() && tree == [[Pg(old(nextPage), [h1, h2])]] + old(tree) && treeLargest == old(treeLargest)
    {
      ghost var t: Tree := tree;
      var p := nextPage;
      var es := Inserted(Inserted([], h1), h2);
      assert es == [h1, h2] by {
        AppendsAll([], h1);
        AppendsAll([h1], h2);
      }
      StoredRoot(pages, tree, nextPage, es);
      nextPage := nextPage + 1;
      pages := pages[p := Node(es, -1, -1)];
      root := p;
      tree := [[Pg(p, es)]] + tree;
      height := height + 1;
      path := [root] + seq(height - 1, i => -1);
      pathP := seq(height - 1, i => -1);
      forall d | 0 <= d < |tree| ensures Fits(tree[d], order) {
        if d > 0 {
          assert Fits(t[d - 1], order);
        }
      }
    }

    /** For a new largest key, raises the inner nodes on the way. */
    method RaiseIfLargest(leaf: int, k: Key, rid: Rid, ghost idx: seq<nat>)
      requires AtLeaf(leaf, k, idx)
      modifies this`pages, this`tree, this`treeLargest
      ensures Backed() && RaisedFor(old(tree), tree, k)
      ensures treeLargest == if Contents(old(tree)) == [] || k > LastKey(Contents(old(tree))) then k
                else LastKey(Contents(old(tree)))
    {
      hide Flat, Increasing, Inserted, InsertPos, Distinct, Raised, AllFit;
      ghost var t: Tree := tree;
      assert OnPage(tree[height - 1], idx[height - 1], leaf) && StoredAt(pages, tree[height - 1], idx[height - 1]);
      if Shape(t) {
        assert Sound(t[height - 1]);
      } else {
        FlatOne(t[0][0]);
        assert t[0] == [t[0][0]];
      }
      assert pages[leaf].es == [] <==> Contents(t) == [];
      if pages[leaf].es == [] || k > treeLargest {
        RaisePath(k, idx);
      }
    }

    /** Whether the leaf has the entry, and with it the tree the key. */
    method LeafHas(leaf: int, k: Key, rid: Rid, ghost idx: seq<nat>) returns (found: bool)
      requires AtLeaf(leaf, k, idx) && OnlyWith(Contents(tree), k, rid)
      ensures found <==> !Absent(Contents(tree), k)
    {
      ghost var d := height - 1;
      assert OnPage(tree[d], idx[d], leaf) && StoredAt(pages, tree[d], idx[d]);
      found := LastMatch(pages[leaf].es, k, rid) != -1;
      if Shape(tree) {
        assert Reaches(tree[d], idx[d], k);
        FoundInLeaf(tree, idx[d], k, rid);
      } else {
        FlatOne(tree[0][0]);
        assert tree[0] == [tree[0][0]];
      }
    }

    /** The node passed on this level is full, and entry `failed` is still to be put at its position q. */
    ghost predicate Rising(idx: seq<nat>, k: Key, level: nat, q: nat, failed: Entry, target: seq<Entry>)
      reads this
    {
      && Backed() && |idx| == height && PathAt(tree, idx, path, level)
      && Growing(tree, order, idx, pathP, k, level, q, failed) && |tree[level][idx[level]].es| == order
      && HalfFull(tree, order)
      && Contents(Over(tree, level, idx[level], q, failed)) == target
    }

    /** One turn of the overflow loop below the root: the split node's parent takes the two halves, or is full too. */
    method SplitTurn(k: Key, failed: Entry, level: nat, ghost idx: seq<nat>, ghost q: nat, ghost target: seq<Entry>)
      returns (ok: bool, h2: Entry, ghost p: nat)
      requires level > 0 && Rising(idx, k, level, q, failed, target)
      modifies this`pages, this`tree, this`nextPage
      ensures ok ==> Backed() && Shape(tree) && HalfFull(tree, order) && Contents(tree) == target
      ensures !ok ==> Rising(idx, k, level - 1, p, h2, target)
    {
      hide Flat, Increasing, Inserted, InsertPos, Distinct, Stored, Shape, InsertAt, Halved, LeftHead, RightHead,
           HalfFull;
      ghost var t: Tree := tree;
      ghost var b := idx[level - 1];
      assert OnPage(t[level], idx[level], path[level]) && OnPage(t[level - 1], b, path[level - 1]);
      assert Hop(t[level - 1], b, pathP[level - 1], idx[level], k);
      assert Fits(t[level - 1], order);
      p := pathP[level - 1] + 1;
      var newNode, h1, h := SplitFull(path[level], k, failed, level, idx[level]);
      SplitStep(t, order, idx, pathP, k, level, q, failed, newNode);
      SplitHalf(t, order, level, idx[level], b, pathP[level - 1], failed, k, newNode, h);
      h2 := h;
      ok := TellParent(path[level - 1], pathP[level - 1], h1, h2, level - 1, b);
    }

    /** The last turn, when the root itself is full: a new root over its halves. */
    method RootTurn(k: Key, failed: Entry, ghost idx: seq<nat>, ghost q: nat, ghost target: seq<Entry>)
      requires Rising(idx, k, 0, q, failed, target)
      modifies this
      ensures Backed() && Shape(tree) && HalfFull(tree, order)
      ensures Contents(tree) == target && treeLargest == old(treeLargest)
    {
      hide Flat, Increasing, Inserted, InsertPos, Distinct, Stored, AllFit, InsertAt, Halved, LeftHead, RightHead,
           HalfFull;
      ghost var t: Tree := tree;
      assert OnPage(t[0], idx[0], path[0]);
      var newNode, h1, h2 := SplitFull(path[0], k, failed, 0, idx[0]);
      RootStep(t, order, idx, pathP, k, q, failed, newNode, nextPage);
      RootHalf(t, order, failed, k, newNode, nextPage);
      NewRoot(h1, h2);
    }

    /** The overflow loop: full nodes are split from the leaf upwards until a parent has room or the root is split. */
    method PushUp(k: Key, rid: Rid, ghost idx: seq<nat>, ghost q0: nat, ghost target: seq<Entry>)
      requires height > 0 && Rising(idx, k, height - 1, q0, Entry(k, rid), target)
      modifies this
      ensures Backed() && Shape(tree) && HalfFull(tree, order)
      ensures Contents(tree) == target && treeLargest == old(treeLargest)
    {
      hide Growing, Shape, Contents, Rising, Stored, Distinct, AllFit, HalfFull;
      var level, failed := height - 1, Entry(k, rid);
      ghost var q := q0;
      var ok := false;
      while !ok
        invariant 0 <= level && treeLargest == old(treeLargest)
        invariant !ok ==> Rising(idx, k, level, q, failed, target)
        invariant ok ==> Backed() && Shape(tree) && HalfFull(tree, order) && Contents(tree) == target
        decreases level, !ok
      {
        if level == 0 {
          RootTurn(k, failed, idx, q, target);
          return;
        }
        ok, failed, q := SplitTurn(k, failed, level, idx, q, target);
        level := level - 1;
      }
    }

    /** Puts a new entry into its leaf, and splits nodes upwards when the leaf is full. */
    method PutInLeaf(leaf: int, k: Key, rid: Rid, ghost idx: seq<nat>, ghost target: seq<Entry>)
      requires Backed() && height == |tree| == |idx| && height > 0 && PathAt(tree, idx, path, height - 1)
      requires leaf == path[height - 1]
      requires var q := InsertPos(tree[height - 1][idx[height - 1]].es, k);
               LeafReady(tree, order, idx, pathP, q, Entry(k, rid), target)
      requires HalfFull(tree, order)
      modifies this
      ensures Backed() && Shape(tree) && HalfFull(tree, order)
      ensures Contents(tree) == target && treeLargest == old(treeLargest)
    {
      hide Flat, Increasing, InsertPos, Distinct, Stored, Shape, Pending, OnPath, HalfFull;
      ghost var d, a := height - 1, idx[height - 1];
      assert OnPage(tree[d], a, leaf) && Fits(tree[d], order);
      ghost var q := InsertPos(tree[d][a].es, k);
      SetNodeHalf(tree, order, d, a, Inserted(tree[d][a].es, Entry(k, rid)));
      var ok := InsertNode(leaf, k, rid, d, a);
      if !ok {
        PushUp(k, rid, idx, q, target);
      }
    }

    /** InsertEntry once it is known that the leaf does not have the key. */
    method AddToLeaf(leaf: int, k: Key, rid: Rid, ghost idx: seq<nat>)
      requires AtLeaf(leaf, k, idx) && Absent(Contents(tree), k)
      modifies this
      ensures Valid() && Contents(tree) == Inserted(old(Contents(tree)), Entry(k, rid))
    {
      hide Flat, Increasing, InsertPos, Distinct, Stored, Absent, Shape, Descent, RaisedTo, LeafReady, PathAt, HalfFull;
      ghost var t: Tree := tree;
      ghost var e, target := Entry(k, rid), Inserted(Contents(t), Entry(k, rid));
      RaiseIfLargest(leaf, k, rid, idx);
      InsertedLast(Contents(t), e);
      LeafStage(t, tree, order, idx, pathP, e);
      RaisedHalf(t, tree, order, k);
      RaisedPath(t, tree, idx, path, k, height - 1);
      PutInLeaf(leaf, k, rid, idx, target);
    }

    /** Inserts an entry whose key is new; an entry that is there already changes nothing. */
    method InsertEntry(k: Key, rid: Rid) returns (r: InsertResult)
      requires Valid() && OnlyWith(Contents(tree), k, rid)
      modifies this
      ensures Valid()
      ensures r == EntryExists <==> !Absent(old(Contents(tree)), k)
      ensures r == EntryExists ==> tree == old(tree) && pages == old(pages)
      ensures r == Done ==> Contents(tree) == Inserted(old(Contents(tree)), Entry(k, rid))
    {
      hide Flat, Increasing, InsertPos, Distinct, Stored, LastMatch, Absent, OnlyWith, Shape, Descent, RaisedTo, Apart,
           Largest, Contents, EmptyTree, HalfFull;
      var leaf, idx := FindLeaf(k);
      var found := LeafHas(leaf, k, rid, idx);
      if found {
        return EntryExists;
      }
      AddToLeaf(leaf, k, rid, idx);
      return Done;
    }
}
}
