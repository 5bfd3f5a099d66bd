/** One node of the B+ tree index (ix_btnode.cc): keys and record identifiers in two parallel arrays. */
module BTreeNode {

  type Key = int

  datatype Rid = Rid(page: int, slot: int)

  datatype Entry = Entry(key: Key, rid: Rid)

  // ----- nodes as sequences of entries -----

  /** Keys strictly increase. */
  ghost predicate Increasing(es: seq<Entry>) {
    forall i, j :: 0 <= i < j < |es| ==> es[i].key < es[j].key
  }

  /** Where InsertNode puts a key: behind the last entry whose key is not larger. */
  function InsertPos(es: seq<Entry>, k: Key): (p: nat)
    ensures p <= |es|
    ensures p > 0 ==> es[p - 1].key <= k
    ensures forall i :: p <= i < |es| ==> k < es[i].key
  {
    if es == [] then 0
    else if es[|es| - 1].key <= k then |es|
    else InsertPos(es[..|es| - 1], k)
  }

  function InsertAt(es: seq<Entry>, p: nat, e: Entry): seq<Entry>
    requires p <= |es|
  {
    es[..p] + [e] + es[p..]
  }

  function Inserted(es: seq<Entry>, e: Entry): (r: seq<Entry>)
    ensures |r| == |es| + 1
  {
    InsertAt(es, InsertPos(es, e.key), e)
  }

  function DeletedAt(es: seq<Entry>, p: nat): (r: seq<Entry>)
    requires p < |es|
    ensures |r| == |es| - 1
  {
    es[..p] + es[p + 1..]
  }

  /** FindKeyExact: the last entry with this key, and with this rid unless the rid is (-1, -1); -1 without one. */
  function LastMatch(es: seq<Entry>, k: Key, rid: Rid): (p: int)
    ensures -1 <= p < |es|
    ensures p >= 0 ==> Matches(es[p], k, rid)
    ensures forall i :: p < i < |es| ==> !Matches(es[i], k, rid)
  {
    if es == [] then -1
    else if Matches(es[|es| - 1], k, rid) then |es| - 1
    else LastMatch(es[..|es| - 1], k, rid)
  }

  /** FindKeyBrut: from the back, the position of the key or else the one behind the last smaller key. */
  function BrutAt(es: seq<Entry>, k: Key): (p: nat)
    ensures BrutPos(es, k, p) || (p < |es| && es[p].key == k)
  {
    if es == [] then 0
    else if k == es[|es| - 1].key then |es| - 1
    else if k > es[|es| - 1].key then |es|
    else BrutAt(es[..|es| - 1], k)
  }

  /** Where a full node is split. */
  function MovePos(n: nat): nat { (n + 1) / 2 }

  /** The position of the key, or of the first larger one. */
  ghost predicate BrutPos(es: seq<Entry>, k: Key, p: nat) {
    && p <= |es|
    && (p > 0 ==> es[p - 1].key < k)
    && (p < |es| ==> k <= es[p].key)
  }

  /** Among increasing keys the insertion point is the only place that keeps them increasing. */
  lemma {:induction false} InsertPosUnique(es: seq<Entry>, p: nat, e: Entry)
    requires Increasing(es) && p <= |es|
    requires p > 0 ==> es[p - 1].key < e.key
    requires p < |es| ==> e.key < es[p].key
    ensures InsertPos(es, e.key) == p
    ensures Increasing(InsertAt(es, p, e))
  {
    forall i | p <= i < |es| ensures e.key < es[i].key {
      assert es[p].key <= es[i].key;
    }
    InsertPosIs(es, e.key, p);
    hide InsertPos;
    IncreasingConcat(es[..p], [e]);
    IncreasingConcat(es[..p] + [e], es[p..]);
  }

  lemma {:induction false} IncreasingConcat(x: seq<Entry>, y: seq<Entry>)
    requires Increasing(x) && Increasing(y)
    requires x != [] && y != [] ==> x[|x| - 1].key < y[0].key
    ensures Increasing(x + y)
  {
    forall i, j | 0 <= i < j < |x + y| ensures (x + y)[i].key < (x + y)[j].key {
      if i < |x| <= j {
        assert x[i].key <= x[|x| - 1].key && y[0].key <= y[j - |x|].key;
      }
    }
  }

  class BTNode {
    const page: int
    const order: nat
    const keys: array<Key>
    const rids: array<Rid>
    var keysNum: nat
    var left: int
    var right: int

    ghost predicate Valid()
      reads this, keys, rids
    {
      keys.Length == rids.Length == order && keysNum <= order
    }

    ghost function Entries(): seq<Entry>
      requires Valid()
      reads this, keys, rids
    {
      seq(keysNum, i requires 0 <= i < keysNum && Valid() reads this, keys, rids => Entry(keys[i], rids[i]))
    }

    constructor (page: int, order: nat)
      ensures Valid() && this.page == page && this.order == order && fresh(keys) && fresh(rids)
      ensures Entries() == [] && left == right == -1
    {
      this.page, this.order, keysNum, left, right := page, order, 0, -1, -1;
      keys := new Key[order](_ => 0);
      rids := new Rid[order](_ => Rid(-1, -1));
    }

    /** Shifts the larger entries up and puts the new one in the gap; false when the node is full. */
    method InsertNode(aKey: Key, aRid: Rid) returns (ok: bool)
      requires Valid()
      modifies this`keysNum, keys, rids
      ensures Valid()
      ensures ok <==> old(keysNum) < order
      ensures Entries() == if ok then Inserted(old(Entries()), Entry(aKey, aRid)) else old(Entries())
    {
      hide InsertPos;
      if keysNum >= order {
        return false;
      }
      ghost var es := Entries();
      var gap := OpenGap(aKey);
      rids[gap] := aRid;
      keys[gap] := aKey;
      keysNum := keysNum + 1;
      ghost var r := InsertAt(es, gap, Entry(aKey, aRid));
      assert forall j :: 0 <= j < gap ==> r[j] == es[j];
      assert forall j :: gap < j < |r| ==> r[j] == es[j - 1];
      assert Entries() == r;
      return true;
    }

    /** The shifting loop of InsertNode. */
    method OpenGap(aKey: Key) returns (gap: nat)
      requires Valid() && keysNum < order
      modifies keys, rids
      ensures Valid() && gap == InsertPos(old(Entries()), aKey)
      ensures forall j :: 0 <= j < gap ==> keys[j] == old(keys[j]) && rids[j] == old(rids[j])
      ensures forall j :: gap < j <= keysNum ==> keys[j] == old(keys[j - 1]) && rids[j] == old(rids[j - 1])
    {
      var i := keysNum - 1;
      while i >= 0
        invariant -1 <= i < keysNum
        invariant forall j :: 0 <= j <= i ==> keys[j] == old(keys[j]) && rids[j] == old(rids[j])
        invariant forall j :: i + 1 < j <= keysNum ==> keys[j] == old(keys[j - 1]) && rids[j] == old(rids[j - 1])
        invariant forall j :: i < j < keysNum ==> aKey < old(keys[j])
        decreases i
      {
        var currKey := keys[i];
        if aKey >= currKey {
          break;
        }
        rids[i + 1] := rids[i];
        keys[i + 1] := currKey;
        i := i - 1;
      }
      gap := i + 1;
      InsertPosIs(old(Entries()), aKey, gap);
    }

    method FindKeyExact(aKey: Key, aRid: Rid) returns (pos: int)
      requires Valid()
      ensures pos == LastMatch(Entries(), aKey, aRid)
    {
      pos := keysNum - 1;
      assert Entries()[..keysNum] == Entries();
      while pos >= 0
        invariant -1 <= pos < keysNum
        invariant LastMatch(Entries(), aKey, aRid) == LastMatch(Entries()[..pos + 1], aKey, aRid)
        decreases pos
      {
        ghost var es := Entries()[..pos + 1];
        assert es[..|es| - 1] == Entries()[..pos];
        if keys[pos] == aKey {
          if aRid == Rid(-1, -1) || rids[pos] == aRid {
            return;
          }
        }
        pos := pos - 1;
      }
    }

    method FindKeyBrut(aKey: Key) returns (pos: nat)
      requires Valid()
      ensures pos == BrutAt(Entries(), aKey)
    {
      var i := keysNum - 1;
      assert Entries()[..keysNum] == Entries();
      while i >= 0
        invariant -1 <= i < keysNum
        invariant BrutAt(Entries(), aKey) == BrutAt(Entries()[..i + 1], aKey)
        decreases i
      {
        ghost var es := Entries()[..i + 1];
        assert es[..|es| - 1] == Entries()[..i];
        if aKey == keys[i] {
          return i;
        }
        if aKey > keys[i] {
          return i + 1;
        }
        i := i - 1;
      }
      return 0;
    }

    /** DeleteNode at a position, and without one: the last entry with the key. */
    method DeleteNode(aKey: Key, kpos: int) returns (found: bool)
      requires Valid()
      modifies this`keysNum, keys, rids
      ensures Valid()
      ensures found ==> DeletedFor(old(Entries()), aKey, kpos, Entries())
      ensures !found ==> Entries() == old(Entries())
      ensures found <==> if kpos == -1
                then exists i :: 0 <= i < |old(Entries())| && Matches(old(Entries())[i], aKey, Rid(-1, -1))
                         else 0 <= kpos < |old(Entries())|
    {
      var pos := kpos;
      if kpos != -1 {
        if kpos < 0 || kpos >= keysNum {
          return false;
        }
      } else {
        pos := FindKeyExact(aKey, Rid(-1, -1));
        if pos < 0 {
          return false;
        }
      }
      DeletePos(pos);
      return true;
    }

    /** The shifting loop of DeleteNode. */
    method DeletePos(pos: nat)
      requires Valid() && pos < keysNum
      modifies this`keysNum, keys, rids
      ensures Valid() && Entries() == DeletedAt(old(Entries()), pos)
    {
      ghost var es := Entries();
      var i := pos;
      while i < keysNum - 1
        invariant pos <= i <= keysNum - 1 && keysNum == |es|
        invariant forall j :: pos <= j < i ==> keys[j] == es[j + 1].key && rids[j] == es[j + 1].rid
        invariant forall j :: 0 <= j < keysNum && !(pos <= j < i) ==> keys[j] == es[j].key && rids[j] == es[j].rid
      {
        var p := keys[i + 1];
        keys[i] := p;
        rids[i] := rids[i + 1];
        i := i + 1;
      }
      keysNum := keysNum - 1;
      ghost var r := DeletedAt(es, pos);
      assert forall j :: 0 <= j < |r| ==> r[j] == if j < pos then es[j] else es[j + 1];
      assert Entries() == r;
    }

    /** Moves the upper half of a node to an empty new node, entry by entry, deletes it here, and links the new
        node in as the right neighbour. */
    method SplitNode(aNewNode: BTNode)
      requires Valid() && aNewNode.Valid() && Increasing(Entries())
      requires aNewNode.Entries() == [] && aNewNode.order == order
      requires aNewNode != this && keys != aNewNode.keys && rids != aNewNode.rids
      modifies this`keysNum, this`right, keys, rids
      modifies aNewNode`keysNum, aNewNode`left, aNewNode`right, aNewNode.keys, aNewNode.rids
      ensures Valid() && aNewNode.Valid()
      ensures Entries() == old(Entries())[..MovePos(old(keysNum))]
      ensures aNewNode.Entries() == old(Entries())[MovePos(old(keysNum))..]
      ensures 0 <= keysNum - aNewNode.keysNum <= 1
      ensures aNewNode.right == old(right) && right == aNewNode.page && aNewNode.left == page
    {
      hide Inserted, InsertPos, Increasing;
      ghost var es := Entries();
      var movePos := (keysNum + 1) / 2;
      var moveCount := keysNum - movePos;
      CopyUpper(aNewNode, movePos);
      var i := 0;
      while i < moveCount
        invariant 0 <= i <= moveCount
        invariant Valid() && Entries() == es[..|es| - i] && right == old(right)
        invariant aNewNode.Valid() && aNewNode.Entries() == es[movePos..]
      {
        ghost var before := Entries();
        var keytodel := keys[keysNum - 1];
        assert Matches(before[|before| - 1], keytodel, Rid(-1, -1));
        var rc := DeleteNode(keytodel, -1);
        DeletesLast(before, keytodel, Entries());
        assert before[..|before| - 1] == es[..|es| - (i + 1)];
        i := i + 1;
      }
      aNewNode.right := right;
      right := aNewNode.page;
      aNewNode.left := page;
    }

    /** The first loop of SplitNode. */
    method CopyUpper(aNewNode: BTNode, movePos: nat)
      requires Valid() && aNewNode.Valid() && Increasing(Entries()) && movePos <= keysNum
      requires aNewNode.Entries() == [] && aNewNode.order == order
      requires aNewNode != this && keys != aNewNode.keys && rids != aNewNode.rids
      modifies aNewNode`keysNum, aNewNode.keys, aNewNode.rids
      ensures aNewNode.Valid() && aNewNode.Entries() == old(Entries())[movePos..]
    {
      hide Inserted, InsertPos;
      ghost var es := Entries();
      var i := movePos;
      while i < keysNum
        invariant movePos <= i <= keysNum == |es|
        invariant Valid() && Entries() == es
        invariant aNewNode.Valid() && aNewNode.Entries() == es[movePos..i]
      {
        var rid, k := rids[i], keys[i];
        ghost var before := aNewNode.Entries();
        assert es[i] == Entry(k, rid);
        Appends(before, Entry(k, rid));
        var rc := aNewNode.InsertNode(k, rid);
        assert es[movePos..i + 1] == before + [es[i]];
        i := i + 1;
      }
    }

    /** Takes over all entries of a neighbour, which is empty afterwards, and its other neighbour; false when there is
        no room for them. */
    method MergeNode(aNode: BTNode) returns (ok: bool)
      requires Valid() && aNode.Valid() && aNode != this && keys != aNode.keys && rids != aNode.rids
      requires Increasing(Entries() + aNode.Entries()) || Increasing(aNode.Entries() + Entries())
      modifies this`keysNum, this`left, this`right, keys, rids, aNode`keysNum, aNode.keys, aNode.rids
      ensures Valid() && aNode.Valid() && (ok <==> old(keysNum) + old(aNode.keysNum) <= order)
      ensures !ok ==>
                Entries() == old(Entries()) && aNode.Entries() == old(aNode.Entries()) && left == old(left)
                && right == old(right)
      ensures ok ==> aNode.Entries() == []
      ensures ok && Increasing(old(Entries()) + old(aNode.Entries())) ==>
                Entries() == old(Entries()) + old(aNode.Entries())
      ensures ok && Increasing(old(aNode.Entries()) + old(Entries())) ==>
                Entries() == old(aNode.Entries()) + old(Entries())
      ensures ok ==> if page == aNode.left then right == aNode.right && left == old(left)
                else left == aNode.left && right == old(right)
    {
      hide Inserted, InsertPos, Increasing;
      if keysNum + aNode.keysNum > order {
        return false;
      }
      TakeAll(aNode);
      EmptyOut(aNode);
      if page == aNode.left {
        right := aNode.right;
      } else {
        left := aNode.left;
      }
      return true;
    }

    /** The first loop of MergeNode. */
    method TakeAll(aNode: BTNode)
      requires Valid() && aNode.Valid() && aNode != this && keys != aNode.keys && rids != aNode.rids
      requires keysNum + aNode.keysNum <= order
      modifies this`keysNum, keys, rids
      ensures Valid()
      ensures Increasing(old(Entries()) + aNode.Entries()) ==> Entries() == old(Entries()) + aNode.Entries()
      ensures Increasing(aNode.Entries() + old(Entries())) ==> Entries() == aNode.Entries() + old(Entries())
    {
      hide Inserted, InsertPos, Increasing;
      ghost var es, fs := Entries(), aNode.Entries();
      var i := 0;
      while i < aNode.keysNum
        invariant 0 <= i <= aNode.keysNum == |fs| && Valid() && aNode.Entries() == fs && |Entries()| == |es| + i
        invariant Increasing(es + fs) ==> Entries() == es + fs[..i]
        invariant Increasing(fs + es) ==> Entries() == fs[..i] + es
      {
        var k, rid := aNode.keys[i], aNode.rids[i];
        assert fs[i] == Entry(k, rid);
        ghost var before := Entries();
        var rc := InsertNode(k, rid);
        TakeOne(es, fs, i);
        i := i + 1;
      }
      assert fs[..|fs|] == fs;
    }
  }

  /** The second loop of MergeNode: from the front, every entry is deleted by its key. */
  method EmptyOut(aNode: BTNode)
    requires aNode.Valid()
    modifies aNode`keysNum, aNode.keys, aNode.rids
    ensures aNode.Valid() && aNode.Entries() == []
  {
    var moveCount, i := aNode.keysNum, 0;
    while i < moveCount
      invariant 0 <= i <= moveCount && aNode.Valid() && aNode.keysNum == moveCount - i
    {
      var keytodel := aNode.keys[0];
      assert Matches(aNode.Entries()[0], keytodel, Rid(-1, -1));
      var n := aNode.keysNum;
      ghost var before := aNode.Entries();
      var rc := aNode.DeleteNode(keytodel, -1);
      assert DeletedFor(before, keytodel, -1, aNode.Entries());
      i := i + 1;
    }
  }

  lemma {:induction false} TakeOne(es: seq<Entry>, fs: seq<Entry>, i: nat)
    requires i < |fs|
    ensures Increasing(es + fs) ==> Inserted(es + fs[..i], fs[i]) == es + fs[..i + 1]
    ensures Increasing(fs + es) ==> Inserted(fs[..i] + es, fs[i]) == fs[..i + 1] + es
  {
    if Increasing(es + fs) {
      var x := es + fs[..i];
      forall p | 0 <= p < |x| ensures x[p].key < fs[i].key {
        assert (es + fs)[p].key < (es + fs)[|es| + i].key;
      }
      Appends(x, fs[i]);
      assert x + [fs[i]] == es + fs[..i + 1];
    }
    if Increasing(fs + es) {
      var x := fs[..i] + es;
      forall p | 0 <= p < |x| ensures p < i ==> x[p].key < fs[i].key
                              ensures p >= i ==> fs[i].key < x[p].key {
        if p < i {
          assert (fs + es)[p].key < (fs + es)[i].key;
        } else {
          assert (fs + es)[i].key < (fs + es)[p - i + |fs|].key;
        }
      }
      InsertPosIs(x, fs[i].key, i);
      assert x[..i] + [fs[i]] + x[i..] == fs[..i + 1] + es;
    }
  }

  /** Splitting a node and merging the new one back gives the node as it was. */
  method SplitAndMerge(node: BTNode, newNode: BTNode)
    requires node.Valid() && newNode.Valid() && Increasing(node.Entries())
    requires newNode.Entries() == [] && newNode.order == node.order
    requires newNode != node && node.keys != newNode.keys && node.rids != newNode.rids
    modifies node, newNode, node.keys, node.rids, newNode.keys, newNode.rids
    ensures node.Valid() && node.Entries() == old(node.Entries()) && node.right == old(node.right)
            && node.left == old(node.left)
  {
    hide Increasing, Inserted;
    ghost var es := node.Entries();
    node.SplitNode(newNode);
    assert node.Entries() + newNode.Entries() == es;
    var ok := node.MergeNode(newNode);
  }

  /** fs is es without the entry at kpos, or, when kpos is -1, without the last entry for the key. */
  ghost predicate DeletedFor(es: seq<Entry>, aKey: Key, kpos: int, fs: seq<Entry>) {
    if kpos != -1 then 0 <= kpos < |es| && fs == DeletedAt(es, kpos)
    else exists i :: 0 <= i < |es| && Matches(es[i], aKey, Rid(-1, -1)) && fs == DeletedAt(es, i)
                     && forall j :: i < j < |es| ==> !Matches(es[j], aKey, Rid(-1, -1))
  }

  predicate Matches(e: Entry, aKey: Key, aRid: Rid) {
    e.key == aKey && (aRid == Rid(-1, -1) || e.rid == aRid)
  }

  lemma {:induction false} InsertPosIs(es: seq<Entry>, k: Key, p: nat)
    requires p <= |es| && (p > 0 ==> es[p - 1].key <= k) && forall i :: p <= i < |es| ==> k < es[i].key
    ensures InsertPos(es, k) == p
  {
    if es != [] && p < |es| {
      assert k < es[|es| - 1].key;
      InsertPosIs(es[..|es| - 1], k, p);
    }
  }

  lemma {:induction false} Appends(es: seq<Entry>, e: Entry)
    requires forall i :: 0 <= i < |es| ==> es[i].key < e.key
    ensures Inserted(es, e) == es + [e]
  {
    InsertPosIs(es, e.key, |es|);
  }

  lemma {:induction false} DeletesLast(es: seq<Entry>, k: Key, fs: seq<Entry>)
    requires es != [] && Matches(es[|es| - 1], k, Rid(-1, -1)) && DeletedFor(es, k, -1, fs)
    ensures fs == es[..|es| - 1]
  {}
}
