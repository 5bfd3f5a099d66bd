/** The tree's nodes as pages of the index file: each page holds a node's entries and the pages of its neighbours. */
module BTreePages {
  import opened BTreeNode
  import opened BTreeLevels
  import opened BTreeShape

  datatype Node = Node(es: seq<Entry>, left: int, right: int)

  type Pages = map<int, Node>

  function PageAt(lv: Level, j: int): int {
    if 0 <= j < |lv| then lv[j].page else -1
  }

  ghost predicate StoredAt(pages: Pages, lv: Level, a: nat)
    requires a < |lv|
  {
    lv[a].page in pages && pages[lv[a].page] == Node(lv[a].es, PageAt(lv, a - 1), PageAt(lv, a + 1))
  }

  /** Every node is on its page, and each level is chained both ways. */
  ghost predicate Stored(pages: Pages, t: Tree) {
    forall d, a :: 0 <= d < |t| && 0 <= a < |t[d]| ==> StoredAt(pages, t[d], a)
  }

  /** Two places in the tree have two pages. */
  ghost predicate Apart(t: Tree, d: nat, a: nat, c: nat, b: nat)
    requires d < |t| && a < |t[d]| && c < |t| && b < |t[c]|
  {
    t[d][a].page == t[c][b].page ==> d == c && a == b
  }

  ghost predicate InFile(t: Tree, d: nat, a: nat, next: int)
    requires d < |t| && a < |t[d]|
  {
    0 <= t[d][a].page < next
  }

  ghost predicate Distinct(t: Tree, next: int) {
    && (forall d, a :: 0 <= d < |t| && 0 <= a < |t[d]| ==> InFile(t, d, a, next))
    && (forall d, a, c, b :: 0 <= d < |t| && 0 <= a < |t[d]| && 0 <= c < |t| && 0 <= b < |t[c]| ==>
         Apart(t, d, a, c, b))
  }

  lemma {:induction false} StoredSet(pages: Pages, t: Tree, next: int, d: nat, a: nat, es: seq<Entry>)
    requires Stored(pages, t) && Distinct(t, next) && d < |t| && a < |t[d]|
    ensures t[d][a].page in pages
    ensures var w := t[d := SetNode(t[d], a, es)];
            Distinct(w, next) && Stored(pages[t[d][a].page := pages[t[d][a].page].(es := es)], w)
  {
    var w: Tree := t[d := SetNode(t[d], a, es)];
    var x := t[d][a].page;
    assert StoredAt(pages, t[d], a);
    var after := pages[x := pages[x].(es := es)];
    forall c, b | 0 <= c < |w| && 0 <= b < |w[c]|
      ensures w[c][b].page == t[c][b].page && StoredAt(after, w[c], b) && InFile(w, c, b, next)
    {
      assert Apart(t, d, a, c, b) && StoredAt(pages, t[c], b) && InFile(t, c, b, next);
    }
    forall c, b, i, j | 0 <= c < |w| && 0 <= b < |w[c]| && 0 <= i < |w| && 0 <= j < |w[i]|
      ensures Apart(w, c, b, i, j) {
      assert Apart(t, c, b, i, j);
    }
  }

  /** Where a place of the tree after the split was before: the new node's place is the old node's. */
  function Before(d: nat, a: nat, c: nat, b: nat): nat {
    if c == d && b > a then b - 1 else b
  }

  /** SplitNode's effect on the pages. */
  function SplitPages(pages: Pages, x: int, xs: seq<Entry>, ys: seq<Entry>, page: int): Pages
    requires x in pages
  {
    var n := pages[x];
    var p := pages[x := Node(xs, n.left, page)][page := Node(ys, x, n.right)];
    if n.right in p then p[n.right := p[n.right].(left := page)] else p
  }

  lemma {:induction false} StoredSplit(pages: Pages, t: Tree, next: int, d: nat, a: nat, xs: seq<Entry>, ys: seq<Entry>)
    requires Stored(pages, t) && Distinct(t, next) && d < |t| && a < |t[d]|
    requires next >= 0 && -1 !in pages
    ensures t[d][a].page in pages
    ensures var w := t[d := Parted(t[d], a, xs, ys, next)];
            Distinct(w, next + 1) && Stored(SplitPages(pages, t[d][a].page, xs, ys, next), w)
  {
    var w: Tree := t[d := Parted(t[d], a, xs, ys, next)];
    var x := t[d][a].page;
    assert StoredAt(pages, t[d], a);
    var after := SplitPages(pages, x, xs, ys, next);
    forall c, b | 0 <= c < |w| && 0 <= b < |w[c]|
      ensures InFile(w, c, b, next + 1)
      ensures w[c][b].page == if c == d && b == a + 1 then next else t[c][Before(d, a, c, b)].page
    {
      assert InFile(t, c, Before(d, a, c, b), next);
    }
    forall c, b, i, j | 0 <= c < |w| && 0 <= b < |w[c]| && 0 <= i < |w| && 0 <= j < |w[i]|
      ensures Apart(w, c, b, i, j) {
      assert Apart(t, c, Before(d, a, c, b), i, Before(d, a, i, j));
      assert InFile(t, c, Before(d, a, c, b), next) && InFile(t, i, Before(d, a, i, j), next);
    }
    forall c, b | 0 <= c < |w| && 0 <= b < |w[c]| ensures StoredAt(after, w[c], b) {
      assert StoredAt(pages, t[c], Before(d, a, c, b)) && InFile(t, c, Before(d, a, c, b), next);
      assert Apart(t, d, a, c, Before(d, a, c, b));
      if a + 1 < |t[d]| {
        assert Apart(t, d, a + 1, c, Before(d, a, c, b)) && Apart(t, d, a, d, a + 1) && StoredAt(pages, t[d], a + 1);
        assert InFile(t, d, a + 1, next);
      }
    }
  }

  lemma {:induction false} StoredRoot(pages: Pages, t: Tree, next: int, es: seq<Entry>)
    requires Stored(pages, t) && Distinct(t, next) && next >= 0
    ensures var w := [[Pg(next, es)]] + t;
            Distinct(w, next + 1) && Stored(pages[next := Node(es, -1, -1)], w)
  {
    var w: Tree := [[Pg(next, es)]] + t;
    var after, last := pages[next := Node(es, -1, -1)], next + 1;
    forall c, b | 0 <= c < |w| && 0 <= b < |w[c]| ensures InFile(w, c, b, last) {
      if c > 0 {
        assert InFile(t, c - 1, b, next);
      }
    }
    forall c, b | 0 <= c < |w| && 0 <= b < |w[c]| ensures StoredAt(after, w[c], b) {
      if c > 0 {
        assert StoredAt(pages, t[c - 1], b) && InFile(t, c - 1, b, next);
      }
    }
    forall c, b, i, j | 0 <= c < |w| && 0 <= b < |w[c]| && 0 <= i < |w| && 0 <= j < |w[i]|
      ensures Apart(w, c, b, i, j) {
      if c > 0 {
        assert InFile(t, c - 1, b, next);
      }
      if i > 0 {
        assert InFile(t, i - 1, j, next);
      }
      if c > 0 && i > 0 {
        assert Apart(t, c - 1, b, i - 1, j);
      }
    }
  }
}
