/** The hash table of the PF buffer manager (pf_hashtable.cc): chains of entries that lead from a page to its slot. */
module PfHashTable {

  datatype Option<T> = None | Some(value: T)

  datatype PageId = PageId(fd: int, num: int)

  datatype HashEntry = HashEntry(id: PageId, slot: int)

  /** C's remainder, which takes the sign of the dividend. */
  function Rem(x: int, n: nat): int
    requires n > 0
  {
    if x >= 0 then x % n else -(-x % n)
  }

  /** What a chain says about a page: its first entry for it. */
  function FindIn(es: seq<HashEntry>, id: PageId): Option<int> {
    if es == [] then None
    else if es[0].id == id then Some(es[0].slot)
    else FindIn(es[1..], id)
  }

  ghost predicate Distinct(es: seq<HashEntry>) {
    forall i, j :: 0 <= i < j < |es| ==> es[i].id != es[j].id
  }

  lemma {:induction false} FindAt(es: seq<HashEntry>, id: PageId, i: nat)
    requires i < |es| && es[i].id == id && forall j :: 0 <= j < i ==> es[j].id != id
    ensures FindIn(es, id) == Some(es[i].slot)
  {
    if i > 0 {
      FindAt(es[1..], id, i - 1);
    }
  }

  lemma {:induction false} FindNowhere(es: seq<HashEntry>, id: PageId)
    requires forall j :: 0 <= j < |es| ==> es[j].id != id
    ensures FindIn(es, id) == None
  {
    if es != [] {
      FindNowhere(es[1..], id);
    }
  }

  /** Without entry i the chain says the same about every other page. */
  lemma {:induction false} FindWithout(es: seq<HashEntry>, i: nat, x: PageId)
    requires i < |es| && Distinct(es)
    ensures FindIn(es[..i] + es[i + 1..], x) == if x == es[i].id then None else FindIn(es, x)
  {
    var fs := es[..i] + es[i + 1..];
    if i == 0 {
      assert fs == es[1..];
      if x == es[0].id {
        FindNowhere(fs, x);
      }
    } else {
      FindWithout(es[1..], i - 1, x);
      assert fs[1..] == es[1..][..i - 1] + es[1..][i..];
    }
  }

  class HashTable {
    const numBuckets: nat
    var hashTable: seq<seq<HashEntry>>

    ghost predicate Valid()
      reads this
    {
      && numBuckets > 0 && |hashTable| == numBuckets
      && forall b :: 0 <= b < numBuckets ==> Distinct(hashTable[b])
    }

    function Hash(id: PageId): int
      requires numBuckets > 0
    {
      Rem(id.fd + id.num, numBuckets)
    }

    /** The table as a map. */
    ghost function Lookup(id: PageId): Option<int>
      requires Valid()
      reads this
    {
      if Hash(id) < 0 then None else FindIn(hashTable[Hash(id)], id)
    }

    constructor (numBuckets: nat)
      requires numBuckets > 0
      ensures Valid() && forall id :: Lookup(id) == None
    {
      this.numBuckets := numBuckets;
      hashTable := seq(numBuckets, i => []);
    }

    method Find(id: PageId) returns (r: Option<int>)
      requires Valid()
      ensures r == Lookup(id)
    {
      var bucket := Hash(id);
      if bucket < 0 {
        return None;
      }
      var chain := hashTable[bucket];
      var i := 0;
      while i < |chain|
        invariant 0 <= i <= |chain|
        invariant forall j :: 0 <= j < i ==> chain[j].id != id
      {
        if chain[i].id == id {
          FindAt(chain, id, i);
          return Some(chain[i].slot);
        }
        i := i + 1;
      }
      FindNowhere(chain, id);
      return None;
    }

    /** Puts a new entry at the head of its chain; false, and nothing changes, when the page has one already. */
    method Insert(id: PageId, slot: int) returns (ok: bool)
      requires Valid() && Hash(id) >= 0
      modifies this
      ensures Valid() && ok == old(Lookup(id)).None?
      ensures ok ==> forall x :: Lookup(x) == if x == id then Some(slot) else old(Lookup(x))
      ensures !ok ==> hashTable == old(hashTable)
    {
      var bucket := Hash(id);
      var chain := hashTable[bucket];
      var i := 0;
      while i < |chain|
        invariant 0 <= i <= |chain|
        invariant forall j :: 0 <= j < i ==> chain[j].id != id
      {
        if chain[i].id == id {
          FindAt(chain, id, i);
          return false;
        }
        i := i + 1;
      }
      FindNowhere(chain, id);
      hashTable := hashTable[bucket := [HashEntry(id, slot)] + chain];
      assert hashTable[bucket][1..] == chain;
      return true;
    }

    /** Removes the page's entry; false when it has none. */
    method Delete(id: PageId) returns (ok: bool)
      requires Valid() && Hash(id) >= 0
      modifies this
      ensures Valid() && ok == old(Lookup(id)).Some?
      ensures ok ==> forall x :: Lookup(x) == if x == id then None else old(Lookup(x))
      ensures !ok ==> hashTable == old(hashTable)
    {
      var bucket := Hash(id);
      var chain := hashTable[bucket];
      var i := 0;
      while i < |chain| && chain[i].id != id
        invariant 0 <= i <= |chain|
        invariant forall j :: 0 <= j < i ==> chain[j].id != id
      {
        i := i + 1;
      }
      if i == |chain| {
        FindNowhere(chain, id);
        return false;
      }
      FindAt(chain, id, i);
      hashTable := hashTable[bucket := chain[..i] + chain[i + 1..]];
      forall x ensures FindIn(chain[..i] + chain[i + 1..], x) == if x == id then None else FindIn(chain, x) {
        FindWithout(chain, i, x);
      }
      return true;
    }
  }
}
