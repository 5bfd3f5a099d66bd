/** A B+ tree level by level: a level is the row of its nodes from left to right. */
module BTreeLevels {
  import opened BTreeNode

  /** A node with its page number. */
  datatype Pg = Pg(page: int, es: seq<Entry>)

  type Level = seq<Pg>

  // ----- reading across a level -----

  function Flat(lv: Level): seq<Entry> {
    if lv == [] then [] else lv[0].es + Flat(lv[1..])
  }

  ghost predicate Filled(lv: Level) {
    forall j :: 0 <= j < |lv| ==> lv[j].es != []
  }

  function LastKey(es: seq<Entry>): Key
    requires es != []
  {
    es[|es| - 1].key
  }

  /** What the parents have to say about these nodes. */
  function Heads(lv: Level): (r: seq<Entry>)
    requires Filled(lv)
    ensures |r| == |lv|
  {
    seq(|lv|, j requires 0 <= j < |lv| => Entry(LastKey(lv[j].es), Rid(lv[j].page, -1)))
  }

  /** Where node a's entries start in the level. */
  function Off(lv: Level, a: nat): nat
    requires a <= |lv|
  {
    |Flat(lv[..a])|
  }

  lemma {:induction false} Regroup(x: seq<Entry>, y: seq<Entry>, z: seq<Entry>)
    ensures x + (y + z) == x + y + z
  {}

  lemma {:induction false} FlatConcat(x: Level, y: Level)
    ensures Flat(x + y) == Flat(x) + Flat(y)
  {
    if x == [] {
      assert x + y == y;
    } else {
      FlatConcat(x[1..], y);
      assert (x + y)[1..] == x[1..] + y;
      Regroup(x[0].es, Flat(x[1..]), Flat(y));
    }
  }

  lemma {:induction false} FlatOne(x: Pg)
    ensures Flat([x]) == x.es
  {
    assert [x][1..] == [];
  }

  lemma {:induction false} FlatSplit(lv: Level, a: nat)
    requires a < |lv|
    ensures Flat(lv) == Flat(lv[..a]) + lv[a].es + Flat(lv[a + 1..])
    ensures Off(lv, a) + |lv[a].es| <= |Flat(lv)|
    ensures forall p :: 0 <= p < |lv[a].es| ==> Flat(lv)[Off(lv, a) + p] == lv[a].es[p]
  {
    assert lv == lv[..a] + ([lv[a]] + lv[a + 1..]);
    FlatConcat(lv[..a], [lv[a]] + lv[a + 1..]);
    FlatConcat([lv[a]], lv[a + 1..]);
    FlatOne(lv[a]);
  }

  lemma {:induction false} FlatAt(lv: Level, a: nat, p: nat)
    requires a < |lv| && p < |lv[a].es|
    ensures Off(lv, a) + p < |Flat(lv)| && Flat(lv)[Off(lv, a) + p] == lv[a].es[p]
  {
    FlatSplit(lv, a);
  }

  /** The entry before node a's first is the last of the node before. */
  lemma {:induction false} FlatBefore(lv: Level, a: nat)
    requires 0 < a < |lv| && Filled(lv)
    ensures 0 < Off(lv, a) <= |Flat(lv)|
    ensures Flat(lv)[Off(lv, a) - 1] == lv[a - 1].es[|lv[a - 1].es| - 1]
  {
    OffNext(lv, a - 1);
    FlatAt(lv, a - 1, |lv[a - 1].es| - 1);
  }

  /** The entry behind node a's last is the first of the next node, if there is one. */
  lemma {:induction false} FlatBehind(lv: Level, a: nat)
    requires a < |lv| && Filled(lv)
    ensures a + 1 == |lv| ==> Off(lv, a) + |lv[a].es| == |Flat(lv)|
    ensures a + 1 < |lv| ==> Off(lv, a) + |lv[a].es| < |Flat(lv)|
                             && Flat(lv)[Off(lv, a) + |lv[a].es|] == lv[a + 1].es[0]
  {
    OffNext(lv, a);
    if a + 1 == |lv| {
      assert lv[..|lv|] == lv;
    } else {
      FlatAt(lv, a + 1, 0);
    }
  }

  lemma {:induction false} OffNext(lv: Level, a: nat)
    requires a < |lv|
    ensures Off(lv, a + 1) == Off(lv, a) + |lv[a].es|
  {
    assert lv[..a + 1] == lv[..a] + [lv[a]];
    FlatConcat(lv[..a], [lv[a]]);
    FlatOne(lv[a]);
  }

  /** Nodes xs in place of node a. */
  function Replaced(lv: Level, a: nat, xs: Level): Level
    requires a < |lv|
  {
    lv[..a] + xs + lv[a + 1..]
  }

  lemma {:induction false} ReplacedFlat(lv: Level, a: nat, xs: Level)
    requires a < |lv|
    ensures Flat(Replaced(lv, a, xs)) == Flat(lv[..a]) + Flat(xs) + Flat(lv[a + 1..])
  {
    FlatConcat(lv[..a], xs);
    FlatConcat(lv[..a] + xs, lv[a + 1..]);
  }

  lemma {:induction false} ReplacedHeads(lv: Level, a: nat, xs: Level)
    requires a < |lv| && Filled(lv) && Filled(xs)
    ensures Filled(Replaced(lv, a, xs))
    ensures Heads(Replaced(lv, a, xs)) == Heads(lv)[..a] + Heads(xs) + Heads(lv)[a + 1..]
  {
    var r := Replaced(lv, a, xs);
    forall j | 0 <= j < |r|
      ensures r[j] == if j < a then lv[j] else if j < a + |xs| then xs[j - a] else lv[j - |xs| + 1]
    {}
  }

  /** Reading keys across a level in order, the largest keys of the nodes are in order as well. */
  lemma {:induction false} HeadsIncreasing(lv: Level)
    requires Filled(lv) && Increasing(Flat(lv))
    ensures Increasing(Heads(lv))
  {
    forall i, j | 0 <= i < j < |lv| ensures Heads(lv)[i].key < Heads(lv)[j].key {
      HeadsBefore(lv, i, j);
    }
  }

  lemma {:induction false} OffGrows(lv: Level, a: nat, b: nat)
    requires a < b <= |lv|
    ensures Off(lv, a) + |lv[a].es| <= Off(lv, b)
  {
    assert lv[..b] == lv[..a] + ([lv[a]] + lv[a + 1..b]);
    FlatConcat(lv[..a], [lv[a]] + lv[a + 1..b]);
    FlatConcat([lv[a]], lv[a + 1..b]);
    FlatOne(lv[a]);
  }

  lemma {:induction false} HeadsBefore(lv: Level, i: nat, j: nat)
    requires Filled(lv) && Increasing(Flat(lv)) && i < j < |lv|
    ensures LastKey(lv[i].es) < lv[j].es[0].key <= LastKey(lv[j].es)
  {
    hide Flat, Off;
    OffGrows(lv, i, j);
    FlatAt(lv, i, |lv[i].es| - 1);
    FlatAt(lv, j, 0);
    FlatAt(lv, j, |lv[j].es| - 1);
  }

  /** A stretch of increasing entries increases. */
  lemma {:induction false} NodeIncreasing(lv: Level, a: nat)
    requires Increasing(Flat(lv)) && a < |lv|
    ensures Increasing(lv[a].es)
  {
    forall i, j | 0 <= i < j < |lv[a].es| ensures lv[a].es[i].key < lv[a].es[j].key {
      FlatAt(lv, a, i);
      FlatAt(lv, a, j);
    }
  }

  // ----- searching -----

  /** Node a is where key k belongs: everything to its left is smaller, and unless it is the last node its
      largest key is not. */
  ghost predicate Covers(lv: Level, a: nat, k: Key)
    requires Filled(lv)
  {
    && a < |lv|
    && (a > 0 ==> LastKey(lv[a - 1].es) < k)
    && (a + 1 < |lv| ==> k <= LastKey(lv[a].es))
  }

  /** The entry that FindLeaf follows: the first whose key is not smaller, or the last one. */
  ghost predicate Follows(es: seq<Entry>, k: Key, p: nat) {
    && p < |es|
    && (BrutPos(es, k, p) || (p == |es| - 1 && LastKey(es) < k))
  }

  /** One step of the descent keeps to where the key belongs. */
  lemma {:induction false} CoversDown(up: Level, down: Level, a: nat, k: Key, p: nat)
    requires Filled(up) && Filled(down) && Flat(up) == Heads(down) && Increasing(Flat(up))
    requires Covers(up, a, k) && Follows(up[a].es, k, p)
    ensures Covers(down, Off(up, a) + p, k)
    ensures down[Off(up, a) + p].page == up[a].es[p].rid.page
    ensures p > 0 ==> up[a].es[p - 1].key < k
  {
    hide Flat, Off;
    FlatAt(up, a, p);
    if p > 0 {
      FlatAt(up, a, p - 1);
      if !BrutPos(up[a].es, k, p) {
        NodeIncreasing(up, a);
      }
    } else if a > 0 {
      FlatBefore(up, a);
    } else {
      OffZero(up);
    }
    FlatBehind(up, a);
    var c := Off(up, a) + p;
    assert Heads(down)[c] == Entry(LastKey(down[c].es), Rid(down[c].page, -1));
    assert c > 0 ==> Heads(down)[c - 1] == Entry(LastKey(down[c - 1].es), Rid(down[c - 1].page, -1));
  }

  /** Inserting into the node where the key belongs inserts into the level. */
  lemma {:induction false} InsertAcross(lv: Level, a: nat, e: Entry)
    requires Filled(lv) && Increasing(Flat(lv)) && Covers(lv, a, e.key)
    requires forall i :: 0 <= i < |Flat(lv)| ==> Flat(lv)[i].key != e.key
    ensures var q := InsertPos(lv[a].es, e.key);
            && InsertPos(Flat(lv), e.key) == Off(lv, a) + q
            && Inserted(Flat(lv), e) == InsertAt(Flat(lv), Off(lv, a) + q, e)
            && Increasing(Inserted(Flat(lv), e))
            && (q > 0 ==> lv[a].es[q - 1].key < e.key)
  {
    hide Flat, Off, Increasing;
    var q, f := InsertPos(lv[a].es, e.key), Flat(lv);
    FlatAt(lv, a, |lv[a].es| - 1);
    if q > 0 {
      FlatAt(lv, a, q - 1);
    } else if a > 0 {
      FlatBefore(lv, a);
    } else {
      OffZero(lv);
    }
    if q < |lv[a].es| {
      FlatAt(lv, a, q);
    } else {
      FlatBehind(lv, a);
    }
    InsertPosUnique(f, Off(lv, a) + q, e);
  }

  lemma {:induction false} OffZero(lv: Level)
    ensures Off(lv, 0) == 0
  {}

  // ----- splitting -----

  /** The halves that InsertEntry makes of a full node and one more entry e; `k` is the key being inserted
      into the tree, which decides the half. */
  function LeftHalf(es: seq<Entry>, e: Entry, k: Key): seq<Entry>
    requires |es| >= 2
  {
    var m := MovePos(|es|);
    if k >= LastKey(es[..m]) then es[..m] else Inserted(es[..m], e)
  }

  function RightHalf(es: seq<Entry>, e: Entry, k: Key): seq<Entry>
    requires |es| >= 2
  {
    var m := MovePos(|es|);
    if k >= LastKey(es[..m]) then Inserted(es[m..], e) else es[m..]
  }

  /** Entry e belongs at position q, and k lies where its half says: it is e's own key, or it lies between the
      entry before e's left neighbour and e. */
  ghost predicate Pending(es: seq<Entry>, q: nat, e: Entry, k: Key) {
    && q <= |es|
    && Increasing(InsertAt(es, q, e))
    && (k == e.key || (q >= 1 && k <= e.key && (q >= 2 ==> es[q - 2].key < k)))
  }

  lemma {:induction false} PendingParts(es: seq<Entry>, q: nat, e: Entry)
    requires q <= |es| && Increasing(InsertAt(es, q, e))
    ensures Increasing(es) && (q > 0 ==> es[q - 1].key < e.key) && (q < |es| ==> e.key < es[q].key)
  {
    var r := InsertAt(es, q, e);
    assert forall i :: 0 <= i < q ==> r[i] == es[i];
    assert r[q] == e;
    assert forall i :: q <= i < |es| ==> r[i + 1] == es[i];
    forall i, j | 0 <= i < j < |es| ensures es[i].key < es[j].key {
      assert r[if i < q then i else i + 1].key < r[if j < q then j else j + 1].key;
    }
  }

  /** The two halves hold the entries with e in its place, and neither is empty or too full. */
  lemma {:induction false} Halves(es: seq<Entry>, q: nat, e: Entry, k: Key)
    requires |es| >= 2 && Pending(es, q, e, k)
    ensures var xs, ys := LeftHalf(es, e, k), RightHalf(es, e, k);
            && xs + ys == InsertAt(es, q, e)
            && 0 < |xs| <= |es| && 0 < |ys| <= |es|
  {
    var m := MovePos(|es|);
    PendingParts(es, q, e);
    assert es == es[..m] + es[m..];
    assert LastKey(es[..m]) == es[m - 1].key;
    if k >= es[m - 1].key {
      RightPlace(es, q, m, e);
    } else {
      IncreasingAll(es);
      LeftPlace(es, q, m, e);
    }
  }

  lemma {:induction false} RightPlace(es: seq<Entry>, q: nat, m: nat, e: Entry)
    requires Increasing(es) && q <= |es| && 0 < m < |es| && e.key >= es[m - 1].key
    requires (q > 0 ==> es[q - 1].key < e.key) && (q < |es| ==> e.key < es[q].key)
    ensures es[..m] + Inserted(es[m..], e) == InsertAt(es, q, e)
  {
    IncreasingAll(es);
    InsertPosUnique(es[m..], q - m, e);
    hide InsertPos, Increasing;
    StitchRight(es, q, m, e);
  }

  lemma {:induction false} StitchRight(es: seq<Entry>, q: nat, m: nat, e: Entry)
    requires m <= q <= |es|
    ensures es[..m] + InsertAt(es[m..], q - m, e) == InsertAt(es, q, e)
  {
    assert es[m..][..q - m] == es[m..q] && es[m..][q - m..] == es[q..];
    assert es[..q] == es[..m] + es[m..q];
  }

  lemma {:induction false} LeftPlace(es: seq<Entry>, q: nat, m: nat, e: Entry)
    requires Increasing(es) && q <= m < |es|
    requires (q > 0 ==> es[q - 1].key < e.key) && (q < |es| ==> e.key < es[q].key)
    ensures Inserted(es[..m], e) + es[m..] == InsertAt(es, q, e)
  {
    InsertPosUnique(es[..m], q, e);
    hide InsertPos, Increasing;
    Stitch(es, q, m, e);
  }

  lemma {:induction false} Stitch(es: seq<Entry>, q: nat, m: nat, e: Entry)
    requires q <= m <= |es|
    ensures InsertAt(es[..m], q, e) + es[m..] == InsertAt(es, q, e)
  {
    assert es[..m][..q] == es[..q] && es[..m][q..] == es[q..m];
    assert es[q..] == es[q..m] + es[m..];
  }

  lemma {:induction false} IncreasingAll(es: seq<Entry>)
    requires Increasing(es)
    ensures forall i, j :: 0 <= i <= j < |es| ==> es[i].key <= es[j].key
  {}
}
