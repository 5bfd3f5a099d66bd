/** The page buffer of the PF component (pf_buffermgr.cc): slots on a used list, most recently used first, or on a free
    list, found through the hash table, and written back before they are used for another page.  `us` and `fr` are the
    slots on the two lists in their order, `cache` is the hash table as a map from pages to slots, and `raw` are the
    pages in the buffer whose contents there are not promised to anybody yet. */
module PageBuffer {
  import opened PfHashTable

  type Data = seq<bv8>

  /** An entry of bufTable; -1 is INVALID_SLOT. */
  datatype PageDesc = PageDesc(data: Data, next: int, prev: int, dirty: bool, pin: int, id: PageId)

  // ----- the two lists -----

  function At(s: seq<int>, i: int): int {
    if 0 <= i < |s| then s[i] else -1
  }

  ghost predicate NoDup(s: seq<int>) {
    forall i, j :: 0 <= i < j < |s| ==> s[i] != s[j]
  }

  ghost predicate InTable(tab: seq<PageDesc>, us: seq<int>) {
    forall i :: 0 <= i < |us| ==> 0 <= us[i] < |tab|
  }

  ghost predicate LinkedAt(tab: seq<PageDesc>, us: seq<int>, i: nat)
    requires i < |us| && InTable(tab, us)
  {
    tab[us[i]].next == At(us, i + 1) && tab[us[i]].prev == At(us, i - 1)
  }

  /** The used list is threaded through next and prev, from first to last. */
  ghost predicate UsedList(tab: seq<PageDesc>, us: seq<int>, first: int, last: int) {
    && NoDup(us) && InTable(tab, us) && first == At(us, 0) && last == At(us, |us| - 1)
    && forall i :: 0 <= i < |us| ==> LinkedAt(tab, us, i)
  }

  ghost predicate ChainedAt(tab: seq<PageDesc>, fr: seq<int>, i: nat)
    requires i < |fr| && InTable(tab, fr)
  {
    tab[fr[i]].next == At(fr, i + 1)
  }

  /** The free list is threaded through next. */
  ghost predicate FreeList(tab: seq<PageDesc>, fr: seq<int>, free: int) {
    && NoDup(fr) && InTable(tab, fr) && free == At(fr, 0)
    && forall i :: 0 <= i < |fr| ==> ChainedAt(tab, fr, i)
  }

  /** Every slot is on one of the lists, and on one only. */
  ghost predicate AllSlots(n: nat, us: seq<int>, fr: seq<int>) {
    && (forall i, j :: 0 <= i < |us| && 0 <= j < |fr| ==> us[i] != fr[j])
    && (forall s :: 0 <= s < n ==> s in us || s in fr)
  }

  function Without(us: seq<int>, i: nat): (r: seq<int>)
    requires i < |us|
    ensures |r| == |us| - 1
  {
    us[..i] + us[i + 1..]
  }

  lemma {:induction false} WithoutAt(us: seq<int>, i: nat)
    requires i < |us|
    ensures forall k :: 0 <= k < |us| - 1 ==> Without(us, i)[k] == us[if k < i then k else k + 1]
    ensures NoDup(us) ==> NoDup(Without(us, i)) && us[i] !in Without(us, i)
    ensures forall s :: s in us <==> s == us[i] || s in Without(us, i)
  {
    var r := Without(us, i);
    assert forall k :: 0 <= k < |r| ==> r[k] == us[if k < i then k else k + 1];
    forall s | s in us && s != us[i] ensures s in r {
      var k :| 0 <= k < |us| && us[k] == s;
      assert r[if k < i then k else k - 1] == s;
    }
  }

  /** Only list links differ. */
  ghost predicate Relinked(tab: seq<PageDesc>, new_tab: seq<PageDesc>) {
    |tab| == |new_tab| && forall s :: 0 <= s < |tab| ==> SameContents(tab[s], new_tab[s])
  }

  predicate SameContents(x: PageDesc, y: PageDesc) {
    x.data == y.data && x.dirty == y.dirty && x.pin == y.pin && x.id == y.id
  }

  /** What Unlink has to do to the table. */
  lemma {:induction false} Unlinked(tab: seq<PageDesc>, after: seq<PageDesc>, us: seq<int>, first: int, last: int,
                                    i: nat)
    requires UsedList(tab, us, first, last) && i < |us| && |after| == |tab|
    requires i + 1 < |us| ==> after[us[i + 1]] == tab[us[i + 1]].(prev := tab[us[i]].prev)
    requires i > 0 ==> after[us[i - 1]] == tab[us[i - 1]].(next := tab[us[i]].next)
    requires forall s :: 0 <= s < |tab| && s != us[i] && s != At(us, i + 1) && s != At(us, i - 1) ==> after[s] == tab[s]
    ensures UsedList(after, Without(us, i), if i == 0 then tab[us[i]].next else first,
                     if i + 1 == |us| then tab[us[i]].prev else last)
  {
    var r := Without(us, i);
    WithoutAt(us, i);
    hide Without;
    assert LinkedAt(tab, us, i);
    forall k | 0 <= k < |r| ensures LinkedAt(after, r, k) {
      var m := if k < i then k else k + 1;
      assert LinkedAt(tab, us, m) && us[m] != us[i];
    }
  }

  predicate InRange(tab: seq<PageDesc>, s: int) {
    s == -1 || 0 <= s < |tab|
  }

  /** The table after Unlink. */
  function UnlinkTab(tab: seq<PageDesc>, slot: int): seq<PageDesc>
    requires 0 <= slot < |tab| && InRange(tab, tab[slot].next) && InRange(tab, tab[slot].prev)
  {
    var next, prev := tab[slot].next, tab[slot].prev;
    var t1 := if next != -1 then tab[next := tab[next].(prev := prev)] else tab;
    var t2 := if prev != -1 then t1[prev := t1[prev].(next := next)] else t1;
    t2[slot := t2[slot].(prev := -1, next := -1)]
  }

  lemma {:induction false} UnlinkTabRelinks(tab: seq<PageDesc>, slot: int)
    requires 0 <= slot < |tab| && InRange(tab, tab[slot].next) && InRange(tab, tab[slot].prev)
    ensures Relinked(tab, UnlinkTab(tab, slot))
  {}

  lemma {:induction false} UnlinkTabLists(tab: seq<PageDesc>, us: seq<int>, fr: seq<int>, first: int, last: int,
                                          free: int, i: nat)
    requires UsedList(tab, us, first, last) && FreeList(tab, fr, free) && i < |us|
    requires forall i, j :: 0 <= i < |us| && 0 <= j < |fr| ==> us[i] != fr[j]
    ensures InRange(tab, tab[us[i]].next) && InRange(tab, tab[us[i]].prev)
    ensures UsedList(UnlinkTab(tab, us[i]), Without(us, i), if first == us[i] then tab[us[i]].next else first,
                     if last == us[i] then tab[us[i]].prev else last)
    ensures FreeList(UnlinkTab(tab, us[i]), fr, free)
  {
    assert LinkedAt(tab, us, i);
    assert i + 1 < |us| ==> us[i + 1] != us[i];
    assert i > 0 ==> us[i - 1] != us[i];
    assert first == us[i] <==> i == 0;
    assert last == us[i] <==> i + 1 == |us|;
    Unlinked(tab, UnlinkTab(tab, us[i]), us, first, last, i);
    FreeKept(tab, UnlinkTab(tab, us[i]), fr, free);
  }

  lemma {:induction false} Linked(tab: seq<PageDesc>, after: seq<PageDesc>, us: seq<int>, first: int, last: int, s: int)
    requires UsedList(tab, us, first, last) && s !in us && 0 <= s < |tab| == |after|
    requires after[s].next == first && after[s].prev == -1
    requires us != [] ==> after[us[0]] == tab[us[0]].(prev := s)
    requires forall k :: 0 <= k < |tab| && k != s && k != At(us, 0) ==> after[k] == tab[k]
    ensures UsedList(after, [s] + us, s, if us == [] then s else last)
  {
    var r := [s] + us;
    forall k | 0 <= k < |r| ensures LinkedAt(after, r, k) {
      assert k > 0 ==> LinkedAt(tab, us, k - 1) && us[k - 1] != s;
    }
  }

  /** The free list does not care about other slots. */
  lemma {:induction false} FreeKept(tab: seq<PageDesc>, after: seq<PageDesc>, fr: seq<int>, free: int)
    requires FreeList(tab, fr, free) && |tab| == |after|
    requires forall i :: 0 <= i < |fr| ==> after[fr[i]] == tab[fr[i]]
    ensures FreeList(after, fr, free)
  {
    forall i | 0 <= i < |fr| ensures ChainedAt(after, fr, i) {
      assert ChainedAt(tab, fr, i);
    }
  }

  // ----- what the buffer holds -----

  type Cache = map<PageId, int>
  type Disk = map<PageId, Data>

  /** A slot in use holds the page the table leads to it for. */
  ghost predicate Cached(tab: seq<PageDesc>, cache: Cache, s: int) {
    0 <= s < |tab| && tab[s].pin >= 0 && tab[s].id in cache && cache[tab[s].id] == s
  }

  ghost predicate Agrees(tab: seq<PageDesc>, us: seq<int>, cache: Cache) {
    && (forall i :: 0 <= i < |us| ==> Cached(tab, cache, us[i]))
    && (forall id :: id in cache ==> cache[id] in us && 0 <= cache[id] < |tab| && tab[cache[id]].id == id)
  }

  /** A clean buffer has what the disk has, unless its contents are not promised yet (`raw`): a page just allocated,
      or one written to and not marked dirty. */
  ghost predicate Backed(tab: seq<PageDesc>, cache: Cache, disk: Disk, raw: set<PageId>, id: PageId)
    requires id in cache
  {
    && 0 <= cache[id] < |tab|
    && (tab[cache[id]].dirty ==> id !in raw)
    && (!tab[cache[id]].dirty && id !in raw ==> id in disk && disk[id] == tab[cache[id]].data)
  }

  ghost predicate Coherent(tab: seq<PageDesc>, cache: Cache, disk: Disk, raw: set<PageId>) {
    && raw <= cache.Keys
    && forall id :: id in cache ==> Backed(tab, cache, disk, raw, id)
  }

  /** What a page contains as far as the clients know: the buffer if it is there, else the disk. */
  ghost function View(tab: seq<PageDesc>, cache: Cache, disk: Disk, raw: set<PageId>, id: PageId): Option<Data> {
    if id in cache && id !in raw && 0 <= cache[id] < |tab| then Some(tab[cache[id]].data)
    else if id in disk then Some(disk[id])
    else None
  }

  lemma {:induction false} RelinkedKeeps(tab: seq<PageDesc>, after: seq<PageDesc>, us: seq<int>, cache: Cache,
                                         disk: Disk, raw: set<PageId>)
    requires Relinked(tab, after) && Agrees(tab, us, cache) && Coherent(tab, cache, disk, raw)
    ensures Agrees(after, us, cache) && Coherent(after, cache, disk, raw)
    ensures forall id :: View(after, cache, disk, raw, id) == View(tab, cache, disk, raw, id)
  {
    forall i | 0 <= i < |us| ensures Cached(after, cache, us[i]) {
      assert Cached(tab, cache, us[i]) && SameContents(tab[us[i]], after[us[i]]);
    }
    forall id | id in cache ensures Backed(after, cache, disk, raw, id) && after[cache[id]].id == id {
      assert Backed(tab, cache, disk, raw, id) && SameContents(tab[cache[id]], after[cache[id]]);
    }
    forall id ensures View(after, cache, disk, raw, id) == View(tab, cache, disk, raw, id) {
      assert id in cache ==> Backed(tab, cache, disk, raw, id) && SameContents(tab[cache[id]], after[cache[id]]);
    }
  }

  // ----- changing one slot -----

  /** Writing a dirty page back makes it clean and changes no view. */
  lemma {:induction false} WrittenBack(tab: seq<PageDesc>, us: seq<int>, cache: Cache, disk: Disk, raw: set<PageId>,
                                       i: nat)
    requires Agrees(tab, us, cache) && Coherent(tab, cache, disk, raw) && i < |us|
    ensures 0 <= us[i] < |tab|
    ensures var after := tab[us[i] := tab[us[i]].(dirty := false)];
            var new_disk := if tab[us[i]].dirty then disk[tab[us[i]].id := tab[us[i]].data] else disk;
            && Agrees(after, us, cache) && Coherent(after, cache, new_disk, raw)
            && forall x :: View(after, cache, new_disk, raw, x) == View(tab, cache, disk, raw, x)
  {
    assert Cached(tab, cache, us[i]);
    var d := tab[us[i]];
    var after := tab[us[i] := d.(dirty := false)];
    var new_disk := if d.dirty then disk[d.id := d.data] else disk;
    forall k | 0 <= k < |us| ensures Cached(after, cache, us[k]) {
      assert Cached(tab, cache, us[k]);
    }
    forall id | id in cache ensures Backed(after, cache, new_disk, raw, id) {
      assert Backed(tab, cache, disk, raw, id);
    }
    forall x ensures View(after, cache, new_disk, raw, x) == View(tab, cache, disk, raw, x) {
      assert x in cache ==> Backed(tab, cache, disk, raw, x);
    }
  }

  /** Dropping a clean page changes no view. */
  lemma {:induction false} Dropped(tab: seq<PageDesc>, us: seq<int>, cache: Cache, disk: Disk, raw: set<PageId>, i: nat)
    requires Agrees(tab, us, cache) && Coherent(tab, cache, disk, raw) && NoDup(us)
    requires i < |us| && 0 <= us[i] < |tab| && !tab[us[i]].dirty
    ensures var id := tab[us[i]].id;
            && Agrees(tab, Without(us, i), cache - {id}) && Coherent(tab, cache - {id}, disk, raw - {id})
            && forall x :: View(tab, cache - {id}, disk, raw - {id}, x) == View(tab, cache, disk, raw, x)
  {
    var id, r := tab[us[i]].id, Without(us, i);
    assert Cached(tab, cache, us[i]) && Backed(tab, cache, disk, raw, id);
    WithoutAt(us, i);
    hide Without;
    forall k | 0 <= k < |r| ensures Cached(tab, cache - {id}, r[k]) {
      assert r[k] in us;
      assert Cached(tab, cache, us[if k < i then k else k + 1]);
    }
    forall x | x in cache - {id} ensures Backed(tab, cache - {id}, disk, raw - {id}, x) && cache[x] in r {
      assert Backed(tab, cache, disk, raw, x);
    }
  }

  /** A new page in the slot at the head of the used list. */
  lemma {:induction false} Opened(tab: seq<PageDesc>, us: seq<int>, cache: Cache, disk: Disk, raw: set<PageId>,
                                  d: PageDesc, fresh_page: bool)
    requires us != [] && NoDup(us) && 0 <= us[0] < |tab| && Agrees(tab, us[1..], cache)
             && Coherent(tab, cache, disk, raw)
    requires d.id !in cache && d.pin >= 0 && !d.dirty
    requires fresh_page || (d.id in disk && disk[d.id] == d.data)
    ensures var after, more := tab[us[0] := d], cache[d.id := us[0]];
            var news := if fresh_page then raw + {d.id} else raw;
            && Agrees(after, us, more) && Coherent(after, more, disk, news)
            && forall x :: View(after, more, disk, news, x) == View(tab, cache, disk, raw, x)
  {
    var after, more := tab[us[0] := d], cache[d.id := us[0]];
    var news := if fresh_page then raw + {d.id} else raw;
    forall x | x in cache ensures cache[x] != us[0] && cache[x] in us && Backed(tab, cache, disk, raw, x) {
      var k :| 0 <= k < |us[1..]| && us[1..][k] == cache[x];
      assert us[k + 1] == cache[x];
    }
    forall k | 0 <= k < |us| ensures Cached(after, more, us[k]) {
      assert k > 0 ==> us[1..][k - 1] == us[k] && Cached(tab, cache, us[1..][k - 1]);
    }
    forall x | x in more ensures Backed(after, more, disk, news, x) {
      assert x in cache ==> Backed(tab, cache, disk, raw, x);
    }
    forall x ensures View(after, more, disk, news, x) == View(tab, cache, disk, raw, x) {}
  }

  ghost predicate LastUnpinned(tab: seq<PageDesc>, us: seq<int>, v: nat) {
    && v < |us| && InTable(tab, us) && tab[us[v]].pin == 0
    && forall i :: v < i < |us| ==> tab[us[i]].pin != 0
  }

  // ----- age -----

  /** The used list goes from the slot used last to the one not used for longest: `stamp` says when each was. */
  ghost predicate Aged(n: nat, us: seq<int>, stamp: seq<nat>, clock: nat) {
    && |stamp| == n && (forall i :: 0 <= i < |us| ==> 0 <= us[i] < n && stamp[us[i]] < clock)
    && forall i, j :: 0 <= i < j < |us| ==> Later(us, stamp, i, j)
  }

  ghost predicate Later(us: seq<int>, stamp: seq<nat>, i: nat, j: nat)
    requires i < |us| && j < |us|
  {
    0 <= us[i] < |stamp| && 0 <= us[j] < |stamp| && stamp[us[i]] > stamp[us[j]]
  }

  /** Of the slots in use without a pin, this one was used first. */
  ghost predicate Oldest(tab: seq<PageDesc>, us: seq<int>, stamp: seq<nat>, slot: int) {
    && slot in us && 0 <= slot < |tab| == |stamp| && tab[slot].pin == 0
    && forall s :: s in us && 0 <= s < |tab| && tab[s].pin == 0 ==> stamp[slot] <= stamp[s]
  }

  lemma {:induction false} AgedLess(n: nat, us: seq<int>, stamp: seq<nat>, clock: nat, v: nat)
    requires Aged(n, us, stamp, clock) && v < |us|
    ensures Aged(n, Without(us, v), stamp, clock)
  {
    WithoutAt(us, v);
    var r := Without(us, v);
    hide Without;
    forall i, j | 0 <= i < j < |r| ensures Later(r, stamp, i, j) {
      assert Later(us, stamp, if i < v then i else i + 1, if j < v then j else j + 1);
    }
  }

  lemma {:induction false} AgedMore(n: nat, us: seq<int>, stamp: seq<nat>, clock: nat, slot: int)
    requires Aged(n, us, stamp, clock) && 0 <= slot < n && slot !in us
    ensures Aged(n, [slot] + us, stamp[slot := clock], clock + 1)
  {
    var r, now := [slot] + us, stamp[slot := clock];
    forall i, j | 0 <= i < j < |r| ensures Later(r, now, i, j) {
      assert us[j - 1] != slot;
      if i > 0 {
        assert us[i - 1] != slot && Later(us, stamp, i - 1, j - 1);
      }
    }
  }

  lemma {:induction false} LastIsOldest(n: nat, tab: seq<PageDesc>, us: seq<int>, stamp: seq<nat>, clock: nat, v: nat)
    requires Aged(n, us, stamp, clock) && LastUnpinned(tab, us, v) && |tab| == n
    ensures Oldest(tab, us, stamp, us[v])
  {
    forall s | s in us && tab[s].pin == 0 ensures stamp[us[v]] <= stamp[s] {
      var i :| 0 <= i < |us| && us[i] == s;
      assert i < v ==> Later(us, stamp, i, v);
    }
  }

  /** The slot for page id is the first free one, or else that of the least recently used page that is not pinned, and
      no other page leaves the buffer. */
  ghost predicate Seated(tab: seq<PageDesc>, us: seq<int>, fr: seq<int>, cache: Cache, after: seq<int>, more: Cache,
                         id: PageId) {
    if fr != [] then after == [fr[0]] + us && more == cache[id := fr[0]]
    else exists v: nat ::
           && LastUnpinned(tab, us, v) && after == [us[v]] + Without(us, v)
           && more == (cache - {tab[us[v]].id})[id := us[v]]
  }

  /** A change of one slot that leaves its links alone leaves the lists alone. */
  lemma {:induction false} SetLists(tab: seq<PageDesc>, us: seq<int>, fr: seq<int>, first: int, last: int, free: int,
                                    slot: int, d: PageDesc)
    requires UsedList(tab, us, first, last) && FreeList(tab, fr, free) && 0 <= slot < |tab|
    requires d.next == tab[slot].next && d.prev == tab[slot].prev
    ensures UsedList(tab[slot := d], us, first, last) && FreeList(tab[slot := d], fr, free)
  {
    SameLinks(tab, tab[slot := d], us, fr, first, last, free);
  }

  lemma {:induction false} SameLinks(tab: seq<PageDesc>, after: seq<PageDesc>, us: seq<int>, fr: seq<int>, first: int,
                                     last: int, free: int)
    requires UsedList(tab, us, first, last) && FreeList(tab, fr, free) && |tab| == |after|
    requires forall s :: 0 <= s < |tab| ==> after[s].next == tab[s].next && after[s].prev == tab[s].prev
    ensures UsedList(after, us, first, last) && FreeList(after, fr, free)
  {
    forall i | 0 <= i < |us| ensures LinkedAt(after, us, i) {
      assert LinkedAt(tab, us, i);
    }
    forall i | 0 <= i < |fr| ensures ChainedAt(after, fr, i) {
      assert ChainedAt(tab, fr, i);
    }
  }

  /** A pinned page stays in its slot with its contents and its pins. */
  ghost predicate KeptAt(tab: seq<PageDesc>, cache: Cache, after: seq<PageDesc>, more: Cache, x: PageId)
    requires x in cache
  {
    0 <= cache[x] < |tab| == |after| && tab[cache[x]].pin != 0 ==>
      && x in more && more[x] == cache[x]
      && after[cache[x]].data == tab[cache[x]].data && after[cache[x]].pin == tab[cache[x]].pin
  }

  ghost predicate Kept(tab: seq<PageDesc>, cache: Cache, after: seq<PageDesc>, more: Cache) {
    forall x :: x in cache ==> KeptAt(tab, cache, after, more, x)
  }

  /** The same for every page but one. */
  ghost predicate KeptOthers(tab: seq<PageDesc>, cache: Cache, after: seq<PageDesc>, more: Cache, id: PageId) {
    forall x :: x in cache && x != id ==> KeptAt(tab, cache, after, more, x)
  }

  lemma {:induction false} KeptTwice(tab: seq<PageDesc>, cache: Cache, mid: seq<PageDesc>, held: Cache,
                                     after: seq<PageDesc>, more: Cache, id: PageId)
    requires KeptOthers(tab, cache, mid, held, id) && KeptOthers(mid, held, after, more, id)
             && |tab| == |mid| == |after|
    ensures KeptOthers(tab, cache, after, more, id)
  {
    forall x | x in cache && x != id ensures KeptAt(tab, cache, after, more, x) {
      assert KeptAt(tab, cache, mid, held, x);
      assert x in held ==> KeptAt(mid, held, after, more, x);
    }
  }

  lemma {:induction false} KeptIsOthers(tab: seq<PageDesc>, cache: Cache, after: seq<PageDesc>, more: Cache, id: PageId)
    requires Kept(tab, cache, after, more)
    ensures KeptOthers(tab, cache, after, more, id)
  {
    forall x | x in cache && x != id ensures KeptAt(tab, cache, after, more, x) {}
  }

  lemma {:induction false} RelinkedIsOthers(tab: seq<PageDesc>, after: seq<PageDesc>, cache: Cache, id: PageId)
    requires Relinked(tab, after)
    ensures KeptOthers(tab, cache, after, cache, id)
  {
    forall x | x in cache && x != id ensures KeptAt(tab, cache, after, cache, x) {
      assert 0 <= cache[x] < |tab| ==> SameContents(tab[cache[x]], after[cache[x]]);
    }
  }

  lemma {:induction false} RelinkedSelf(tab: seq<PageDesc>)
    ensures Relinked(tab, tab)
  {}

  lemma {:induction false} SamePins(tab: seq<PageDesc>, after: seq<PageDesc>, s: int)
    requires Relinked(tab, after) && 0 <= s < |tab|
    ensures SameContents(tab[s], after[s]) && |after| == |tab|
  {}

  /** Another number of pins. */
  lemma {:induction false} Repinned(tab: seq<PageDesc>, us: seq<int>, cache: Cache, disk: Disk, raw: set<PageId>,
                                    id: PageId, p: nat)
    requires Agrees(tab, us, cache) && Coherent(tab, cache, disk, raw) && id in cache
    ensures 0 <= cache[id] < |tab|
    ensures var after := tab[cache[id] := tab[cache[id]].(pin := p)];
            && Agrees(after, us, cache) && Coherent(after, cache, disk, raw)
            && (forall x :: View(after, cache, disk, raw, x) == View(tab, cache, disk, raw, x))
            && KeptOthers(tab, cache, after, cache, id)
  {
    var s := cache[id];
    var after := tab[s := tab[s].(pin := p)];
    forall k | 0 <= k < |us| ensures Cached(after, cache, us[k]) {
      assert Cached(tab, cache, us[k]);
    }
    forall x | x in cache ensures Backed(after, cache, disk, raw, x) && (cache[x] == s ==> x == id) {
      assert Backed(tab, cache, disk, raw, x);
    }
    forall x | x in cache && x != id ensures KeptAt(tab, cache, after, cache, x) {}
    forall x ensures View(after, cache, disk, raw, x) == View(tab, cache, disk, raw, x) {}
  }

  /** New contents, or the dirty flag, for a page: dirty pages show their contents, clean ones do not yet. */
  lemma {:induction false} Dirtied(tab: seq<PageDesc>, us: seq<int>, cache: Cache, disk: Disk, raw: set<PageId>,
                                   id: PageId, data: Data, dirty: bool)
    requires Agrees(tab, us, cache) && Coherent(tab, cache, disk, raw) && id in cache
    ensures 0 <= cache[id] < |tab|
    ensures var after := tab[cache[id] := tab[cache[id]].(data := data, dirty := dirty)];
            var news := if dirty then raw - {id} else raw + {id};
            && Agrees(after, us, cache) && Coherent(after, cache, disk, news)
            && KeptOthers(tab, cache, after, cache, id)
  {
    var s := cache[id];
    var after := tab[s := tab[s].(data := data, dirty := dirty)];
    var news := if dirty then raw - {id} else raw + {id};
    forall k | 0 <= k < |us| ensures Cached(after, cache, us[k]) {
      assert Cached(tab, cache, us[k]);
    }
    forall x | x in cache ensures Backed(after, cache, disk, news, x) && (cache[x] == s ==> x == id) {
      assert Backed(tab, cache, disk, raw, x);
    }
    forall x | x in cache && x != id ensures KeptAt(tab, cache, after, cache, x) {}
  }

  lemma {:induction false} DirtiedShows(tab: seq<PageDesc>, us: seq<int>, cache: Cache, disk: Disk, raw: set<PageId>,
                                        id: PageId, data: Data, dirty: bool, x: PageId)
    requires Agrees(tab, us, cache) && Coherent(tab, cache, disk, raw) && id in cache
    requires 0 <= cache[id] < |tab| && (!tab[cache[id]].dirty || dirty)
    ensures var after := tab[cache[id] := tab[cache[id]].(data := data, dirty := dirty)];
            var news := if dirty then raw - {id} else raw + {id};
            View(after, cache, disk, news, x) == if x == id && dirty then Some(data) else View(tab, cache, disk, raw, x)
  {
    assert Backed(tab, cache, disk, raw, id);
    assert x in cache ==> Backed(tab, cache, disk, raw, x);
  }

  /** Throwing out a page that is not pinned, in a table whose links then change. */
  lemma {:induction false} KeptAfterDrop(tab: seq<PageDesc>, mid: seq<PageDesc>, after: seq<PageDesc>, us: seq<int>,
                                         cache: Cache, i: nat)
    requires Agrees(tab, us, cache) && i < |us| && 0 <= us[i] < |tab| && tab[us[i]].pin == 0
    requires mid == tab[us[i] := tab[us[i]].(dirty := false)] && Relinked(mid, after)
    ensures Kept(tab, cache, after, cache - {tab[us[i]].id})
  {
    forall x | x in cache ensures KeptAt(tab, cache, after, cache - {tab[us[i]].id}, x) {
      assert 0 <= cache[x] < |tab| && SameContents(mid[cache[x]], after[cache[x]]);
    }
  }

  lemma {:induction false} KeptAll(tab: seq<PageDesc>, after: seq<PageDesc>, us: seq<int>, cache: Cache)
    requires Agrees(tab, us, cache) && Relinked(tab, after)
    ensures Kept(tab, cache, after, cache)
  {
    forall x | x in cache ensures KeptAt(tab, cache, after, cache, x) {
      assert 0 <= cache[x] < |tab| && SameContents(tab[cache[x]], after[cache[x]]);
    }
  }

  lemma {:induction false} KeptRelinked(tab: seq<PageDesc>, cache: Cache, mid: seq<PageDesc>, after: seq<PageDesc>,
                                        more: Cache)
    requires Kept(tab, cache, mid, more) && Relinked(mid, after)
    ensures Kept(tab, cache, after, more)
  {
    forall x | x in cache ensures KeptAt(tab, cache, after, more, x) {
      assert KeptAt(tab, cache, mid, more, x);
      assert 0 <= cache[x] < |mid| ==> SameContents(mid[cache[x]], after[cache[x]]);
    }
  }

  /** The free list without its first slot. */
  lemma {:induction false} FreeRest(tab: seq<PageDesc>, us: seq<int>, fr: seq<int>)
    requires fr != [] && FreeList(tab, fr, fr[0]) && AllSlots(|tab|, us, fr)
    ensures FreeList(tab, fr[1..], tab[fr[0]].next)
    ensures fr[0] !in us && fr[0] !in fr[1..]
    ensures forall i, j :: 0 <= i < |us| && 0 <= j < |fr| - 1 ==> us[i] != fr[1..][j]
    ensures forall s :: 0 <= s < |tab| ==> s == fr[0] || s in us || s in fr[1..]
  {
    var r := fr[1..];
    assert ChainedAt(tab, fr, 0);
    forall i | 0 <= i < |r| ensures ChainedAt(tab, r, i) {
      assert ChainedAt(tab, fr, i + 1);
    }
    forall s | s in fr ensures s == fr[0] || s in r {
      var k :| 0 <= k < |fr| && fr[k] == s;
      assert k > 0 ==> r[k - 1] == s;
    }
  }

  /** A slot off the used list is on no list. */
  lemma {:induction false} OffTheList(n: nat, us: seq<int>, fr: seq<int>, i: nat)
    requires AllSlots(n, us, fr) && NoDup(us) && i < |us|
    ensures var r := Without(us, i);
            && us[i] !in r && us[i] !in fr
            && (forall k, j :: 0 <= k < |r| && 0 <= j < |fr| ==> r[k] != fr[j])
            && (forall s :: 0 <= s < n ==> s == us[i] || s in r || s in fr)
  {
    WithoutAt(us, i);
    hide Without;
  }

  ghost predicate MovedToFront(us: seq<int>, after: seq<int>, slot: int) {
    exists i :: 0 <= i < |us| && us[i] == slot && after == [slot] + Without(us, i)
  }

  lemma {:induction false} RelinkedTwice(tab: seq<PageDesc>, mid: seq<PageDesc>, after: seq<PageDesc>)
    requires Relinked(tab, mid) && Relinked(mid, after)
    ensures Relinked(tab, after)
  {
    forall s | 0 <= s < |tab| ensures SameContents(tab[s], after[s]) {
      assert SameContents(tab[s], mid[s]) && SameContents(mid[s], after[s]);
    }
  }

  lemma {:induction false} BackOnList(n: nat, us: seq<int>, after: seq<int>, fr: seq<int>, i: nat)
    requires AllSlots(n, us, fr) && i < |us| && after == [us[i]] + Without(us, i)
    ensures AllSlots(n, after, fr)
  {
    WithoutAt(us, i);
    hide Without;
    forall k, j | 0 <= k < |after| && 0 <= j < |fr| ensures after[k] != fr[j] {
      assert k > 0 ==> after[k] == Without(us, i)[k - 1];
    }
  }

  lemma {:induction false} AgreesMoved(tab: seq<PageDesc>, us: seq<int>, after: seq<int>, cache: Cache, i: nat)
    requires Agrees(tab, us, cache) && i < |us| && after == [us[i]] + Without(us, i)
    ensures Agrees(tab, after, cache)
  {
    WithoutAt(us, i);
    hide Without;
    forall k | 0 <= k < |after| ensures Cached(tab, cache, after[k]) {
      assert k > 0 ==> after[k] == Without(us, i)[k - 1];
      assert Cached(tab, cache, us[if k == 0 then i else if k <= i then k - 1 else k]);
    }
    forall s | s in us ensures s in after {
      assert s == us[i] ==> after[0] == s;
    }
  }

  /** A slot put at the head of the free list. */
  lemma {:induction false} FreedSlot(tab: seq<PageDesc>, us: seq<int>, fr: seq<int>, first: int, last: int, free: int,
                                     slot: int)
    requires UsedList(tab, us, first, last) && FreeList(tab, fr, free) && 0 <= slot < |tab| && slot !in us
             && slot !in fr
    requires forall i, j :: 0 <= i < |us| && 0 <= j < |fr| ==> us[i] != fr[j]
    requires forall s :: 0 <= s < |tab| ==> s == slot || s in us || s in fr
    ensures var after, more := tab[slot := tab[slot].(next := free)], [slot] + fr;
            UsedList(after, us, first, last) && FreeList(after, more, slot) && AllSlots(|tab|, us, more)
              && Relinked(tab, after)
  {
    var after, more := tab[slot := tab[slot].(next := free)], [slot] + fr;
    forall i | 0 <= i < |us| ensures LinkedAt(after, us, i) {
      assert LinkedAt(tab, us, i);
    }
    forall i | 0 <= i < |more| ensures ChainedAt(after, more, i) {
      assert i > 0 ==> ChainedAt(tab, fr, i - 1);
    }
    assert more[0] == slot;
    forall s | s in fr ensures s in more {}
  }

  // ----- scans over the used list -----

  lemma {:induction false} WithoutNext(us: seq<int>, i: nat)
    requires i < |us|
    ensures At(Without(us, i), i) == At(us, i + 1)
  {
    WithoutAt(us, i);
    hide Without;
  }

  predicate SameOnDisk(disk: Disk, after: Disk, x: PageId) {
    (x in disk <==> x in after) && (x in disk && x in after ==> disk[x] == after[x])
  }

  /** The page is one ForcePages was asked for; no page number means all pages. */
  predicate Asked(x: PageId, fd: int, page: Option<int>) {
    x.fd == fd && (page.None? || x.num == page.value)
  }

  /** Nothing but dirty flags changed, and those only from dirty to clean. */
  ghost predicate OnlyCleaned(tab: seq<PageDesc>, after: seq<PageDesc>) {
    && |tab| == |after|
    && forall s :: 0 <= s < |tab| ==> after[s] == tab[s] || after[s] == tab[s].(dirty := false)
  }

  lemma {:induction false} NoneCleaned(tab: seq<PageDesc>)
    ensures OnlyCleaned(tab, tab)
  {}

  lemma {:induction false} CleanedOne(tab: seq<PageDesc>, after: seq<PageDesc>, slot: int)
    requires OnlyCleaned(tab, after) && 0 <= slot < |after|
    ensures OnlyCleaned(tab, after[slot := after[slot].(dirty := false)])
  {}

  /** Of the first i slots those asked for are clean. */
  ghost predicate CleanTo(tab: seq<PageDesc>, us: seq<int>, i: nat, fd: int, page: Option<int>) {
    && i <= |us| && InTable(tab, us)
    && forall k :: 0 <= k < i && Asked(tab[us[k]].id, fd, page) ==> !tab[us[k]].dirty
  }

  lemma {:induction false} CleanStart(tab: seq<PageDesc>, us: seq<int>, fd: int, page: Option<int>)
    requires InTable(tab, us)
    ensures CleanTo(tab, us, 0, fd, page)
  {}

  lemma {:induction false} CleanNext(tab: seq<PageDesc>, us: seq<int>, i: nat, fd: int, page: Option<int>)
    requires CleanTo(tab, us, i, fd, page) && i < |us| && NoDup(us)
    ensures 0 <= us[i] < |tab|
    ensures if Asked(tab[us[i]].id, fd, page)
              then CleanTo(tab[us[i] := tab[us[i]].(dirty := false)], us, i + 1, fd, page)
            else CleanTo(tab, us, i + 1, fd, page)
  {}

  /** Of the first i slots those of the file are pinned, and there are some exactly if `some` says so. */
  ghost predicate Scanned(tab: seq<PageDesc>, us: seq<int>, i: nat, fd: int, some: bool) {
    && i <= |us| && InTable(tab, us)
    && (forall k :: 0 <= k < i && tab[us[k]].id.fd == fd ==> tab[us[k]].pin != 0)
    && (some <==> exists k :: 0 <= k < i && tab[us[k]].id.fd == fd)
  }

  lemma {:induction false} ScannedOne(tab: seq<PageDesc>, us: seq<int>, i: nat, fd: int, some: bool)
    requires i < |us| && InTable(tab, us) && (tab[us[i]].id.fd == fd ==> tab[us[i]].pin != 0 && some)
    requires Scanned(tab, us, i, fd, some) || (Scanned(tab, us, i, fd, false) && tab[us[i]].id.fd == fd)
    ensures Scanned(tab, us, i + 1, fd, some)
  {}

  lemma {:induction false} ScannedOut(tab: seq<PageDesc>, after: seq<PageDesc>, us: seq<int>, i: nat, fd: int,
                                      some: bool)
    requires Scanned(tab, us, i, fd, some) && i < |us| && NoDup(us)
    requires Relinked(tab[us[i] := tab[us[i]].(dirty := false)], after)
    ensures Scanned(after, Without(us, i), i, fd, some)
  {
    var clean, r := tab[us[i] := tab[us[i]].(dirty := false)], Without(us, i);
    WithoutAt(us, i);
    hide Without;
    forall k | 0 <= k < |r|
      ensures 0 <= r[k] < |after| && after[r[k]].id == tab[r[k]].id && after[r[k]].pin == tab[r[k]].pin {
      assert SameContents(clean[r[k]], after[r[k]]);
    }
    assert forall k :: 0 <= k < i ==> us[k] == r[k];
  }

  /** The pages still there are old ones, and those of other files and pinned ones are all still there. */
  ghost predicate Remaining(tab: seq<PageDesc>, cache: Cache, after: seq<PageDesc>, more: Cache, fd: int) {
    && |tab| == |after|
    && (forall x :: x in more ==> x in cache && cache[x] == more[x])
    && (forall x :: x in cache && 0 <= cache[x] < |tab| && (x.fd != fd || tab[cache[x]].pin != 0) ==> x in more)
    && (forall x :: x in more && 0 <= more[x] < |tab| ==> after[more[x]].pin == tab[more[x]].pin)
  }

  lemma {:induction false} RemainingLess(tab: seq<PageDesc>, cache: Cache, mid: seq<PageDesc>, held: Cache,
                                         after: seq<PageDesc>, slot: int, fd: int)
    requires Remaining(tab, cache, mid, held, fd) && 0 <= slot < |mid| && mid[slot].pin == 0 && mid[slot].id.fd == fd
    requires Relinked(mid[slot := mid[slot].(dirty := false)], after)
    requires mid[slot].id in held && held[mid[slot].id] == slot
    ensures Remaining(tab, cache, after, held - {mid[slot].id}, fd)
  {
    forall s | 0 <= s < |mid| ensures after[s].pin == mid[s].pin {
      assert SameContents(mid[slot := mid[slot].(dirty := false)][s], after[s]);
    }
  }

  // ----- the buffer manager -----

  datatype RC = Ok | PageInBuf | PageNotInBuf | PagePinned | PageUnpinned | NoBuf | IncompleteRead

  class BufferMgr {
    const numPages: nat
    const hashTable: HashTable
    var bufTable: seq<PageDesc>
    var first: int
    var last: int
    var free: int
    var disk: Disk
    ghost var us: seq<int>
    ghost var fr: seq<int>
    ghost var cache: Cache
    ghost var raw: set<PageId>
    ghost var stamp: seq<nat>     // when each slot was last used
    ghost var clock: nat

    ghost predicate Lists()
      reads this
    {
      && |bufTable| == numPages
      && UsedList(bufTable, us, first, last) && FreeList(bufTable, fr, free) && AllSlots(numPages, us, fr)
      && Aged(numPages, us, stamp, clock)
    }

    /** The hash table is the map from cached pages to slots. */
    ghost predicate Tied()
      reads this`cache, hashTable
    {
      && hashTable.Valid()
      && (forall id :: hashTable.Lookup(id) == if id in cache then Some(cache[id]) else None)
      && (forall id :: id in cache ==> hashTable.Hash(id) >= 0)
    }

    ghost predicate Valid()
      reads this, hashTable
    {
      Lists() && Tied() && Agrees(bufTable, us, cache) && Coherent(bufTable, cache, disk, raw)
    }

    ghost function ViewOf(id: PageId): Option<Data>
      reads this
    {
      View(bufTable, cache, disk, raw, id)
    }

    ghost predicate AllPinned()
      reads this
    {
      fr == [] && forall i :: 0 <= i < |us| && 0 <= us[i] < |bufTable| ==> bufTable[us[i]].pin != 0
    }

    constructor (numPages: nat, numBuckets: nat, disk: Disk)
      requires numPages > 0 && numBuckets > 0
      ensures Valid() && fresh(hashTable) && us == [] && cache == map[] && this.disk == disk
              && this.numPages == numPages
    {
      this.numPages := numPages;
      hashTable := new HashTable(numBuckets);
      bufTable := seq(numPages, i requires 0 <= i < numPages =>
                      PageDesc([], if i + 1 < numPages then i + 1 else -1, i - 1, false, 0, PageId(0, 0)));
      first, last, free := -1, -1, 0;
      this.disk := disk;
      us, fr, cache, raw, stamp, clock := [], seq(numPages, i => i), map[], {}, seq(numPages, i => 0), 0;
      new;
      forall s | 0 <= s < numPages ensures s in fr {
        assert fr[s] == s;
      }
    }

    /** Takes a slot off the used list. */
    method Unlink(slot: int, ghost i: nat)
      requires Lists() && i < |us| && us[i] == slot
      modifies this`bufTable, this`first, this`last, this`us
      ensures us == Without(old(us), i) && |bufTable| == numPages && Aged(numPages, us, stamp, clock)
      ensures UsedList(bufTable, us, first, last) && FreeList(bufTable, fr, free)
      ensures Relinked(old(bufTable), bufTable)
    {
      hide UsedList, Aged, FreeList, AllSlots, Without, Relinked;
      SlotInTable(i);
      AgedLess(numPages, us, stamp, clock, i);
      UnlinkTabLists(bufTable, us, fr, first, last, free, i);
      UnlinkTabRelinks(bufTable, slot);
      if first == slot {
        first := bufTable[slot].next;
      }
      if last == slot {
        last := bufTable[slot].prev;
      }
      var next, prev := bufTable[slot].next, bufTable[slot].prev;
      if next != -1 {
        bufTable := bufTable[next := bufTable[next].(prev := prev)];
      }
      if prev != -1 {
        bufTable := bufTable[prev := bufTable[prev].(next := next)];
      }
      bufTable := bufTable[slot := bufTable[slot].(prev := -1, next := -1)];
      us := Without(us, i);
    }

    lemma {:induction false} SlotInTable(i: nat)
      requires Lists() && i < |us|
      ensures 0 <= us[i] < numPages
      ensures forall i, j :: 0 <= i < |us| && 0 <= j < |fr| ==> us[i] != fr[j]
    {}

    /** The slot has just been used. */
    twostate predicate Used(slot: int)
      reads this
    {
      0 <= slot < |old(stamp)| && stamp == old(stamp)[slot := old(clock)] && clock == old(clock) + 1
    }

    lemma {:induction false} SlotStamped()
      requires Aged(numPages, us, stamp, clock)
      ensures |stamp| == numPages
    {}

    /** Puts a slot at the head of the used list. */
    method LinkHead(slot: int)
      requires |bufTable| == numPages && UsedList(bufTable, us, first, last) && FreeList(bufTable, fr, free)
      requires 0 <= slot < numPages && slot !in us && slot !in fr
      requires forall i, j :: 0 <= i < |us| && 0 <= j < |fr| ==> us[i] != fr[j]
      requires Aged(numPages, us, stamp, clock)
      modifies this`bufTable, this`first, this`last, this`us, this`stamp, this`clock
      ensures us == [slot] + old(us) && |bufTable| == numPages
      ensures Aged(numPages, us, stamp, clock) && Used(slot)
      ensures UsedList(bufTable, us, first, last) && FreeList(bufTable, fr, free)
      ensures Relinked(old(bufTable), bufTable)
    {
      hide Aged;
      ghost var tab, f, l := bufTable, first, last;
      bufTable := bufTable[slot := bufTable[slot].(next := first, prev := -1)];
      if first != -1 {
        bufTable := bufTable[first := bufTable[first].(prev := slot)];
      }
      first := slot;
      if last == -1 {
        last := first;
      }
      assert Relinked(tab, bufTable) by {
        hide UsedList, Aged, LinkedAt, FreeList;
      }
      hide Relinked;
      Linked(tab, bufTable, us, f, l, slot);
      FreeKept(tab, bufTable, fr, free);
      AgedMore(numPages, us, stamp, clock, slot);
      SlotStamped();
      us := [slot] + us;
      stamp, clock := stamp[slot := clock], clock + 1;
    }

    // ----- choosing a slot -----

    /** The head slot is taken but holds no page yet. */
    ghost predicate Open(slot: int)
      reads this, hashTable
    {
      && Lists() && us != [] && us[0] == slot && 0 <= slot < numPages
      && Tied() && Agrees(bufTable, us[1..], cache) && Coherent(bufTable, cache, disk, raw)
    }

    /** From the least recently used end, the first slot that is not pinned. */
    method FindVictim() returns (slot: int, ghost v: nat)
      requires Valid()
      ensures slot == -1 ==> forall i :: 0 <= i < |us| && 0 <= us[i] < |bufTable| ==> bufTable[us[i]].pin != 0
      ensures slot != -1 ==> v < |us| && us[v] == slot && LastUnpinned(bufTable, us, v)
      ensures slot != -1 ==> Oldest(bufTable, us, stamp, slot)
    {
      hide Agrees, Coherent, View, FreeList, AllSlots, Tied, Aged, Oldest;
      slot := last;
      ghost var n := |us|;
      while slot != -1
        invariant 0 <= n <= |us| && slot == At(us, n - 1)
        invariant forall i :: n <= i < |us| && 0 <= us[i] < |bufTable| ==> bufTable[us[i]].pin != 0
        decreases n
      {
        assert n > 0 && LinkedAt(bufTable, us, n - 1);
        n := n - 1;
        if bufTable[slot].pin == 0 {
          LastIsOldest(numPages, bufTable, us, stamp, clock, n);
          return slot, n;
        }
        slot := bufTable[slot].prev;
      }
      v := 0;
    }

    /** Writes a slot's page to the disk if it is dirty. */
    method WriteBack(slot: int, ghost i: nat)
      requires Valid() && i < |us| && us[i] == slot
      modifies this`bufTable, this`disk
      ensures Valid() && 0 <= slot < numPages
      ensures bufTable == old(bufTable)[slot := old(bufTable)[slot].(dirty := false)]
      ensures disk == if old(bufTable)[slot].dirty
                then old(disk)[old(bufTable)[slot].id := old(bufTable)[slot].data] else old(disk)
      ensures forall x :: ViewOf(x) == old(ViewOf(x))
    {
      hide Agrees, Coherent, View, UsedList, Aged, FreeList;
      SlotInTable(i);
      WrittenBack(bufTable, us, cache, disk, raw, i);
      SetLists(bufTable, us, fr, first, last, free, slot, bufTable[slot].(dirty := false));
      if bufTable[slot].dirty {
        disk := disk[bufTable[slot].id := bufTable[slot].data];
        bufTable := bufTable[slot := bufTable[slot].(dirty := false)];
      } else {
        assert bufTable == bufTable[slot := bufTable[slot].(dirty := false)];
      }
    }

    /** The table's entry for a page, removed and made. */
    method Forget(id: PageId)
      requires Tied() && id in cache
      modifies hashTable, this`cache
      ensures Tied() && cache == old(cache) - {id}
    {
      var ok := hashTable.Delete(id);
      cache := cache - {id};
    }

    method Remember(id: PageId, slot: int)
      requires Tied() && id !in cache && hashTable.Hash(id) >= 0
      modifies hashTable, this`cache
      ensures Tied() && cache == old(cache)[id := slot]
    {
      var ok := hashTable.Insert(id, slot);
      cache := cache[id := slot];
    }

    /** Throws a page out of its slot, which is then on no list. */
    method Evict(slot: int, ghost v: nat)
      requires Valid() && v < |us| && us[v] == slot && 0 <= slot < |bufTable| && bufTable[slot].pin == 0
      modifies this, hashTable
      ensures us == Without(old(us), v) && fr == old(fr) && free == old(free)
      ensures stamp == old(stamp) && clock == old(clock)
      ensures Loose(slot)
      ensures Tied() && Agrees(bufTable, us, cache) && Coherent(bufTable, cache, disk, raw)
      ensures 0 <= slot < |old(bufTable)| && cache == old(cache) - {old(bufTable)[slot].id}
      ensures Kept(old(bufTable), old(cache), bufTable, cache)
      ensures Relinked(old(bufTable)[slot := old(bufTable)[slot].(dirty := false)], bufTable)
      ensures disk == if old(bufTable)[slot].dirty
                then old(disk)[old(bufTable)[slot].id := old(bufTable)[slot].data] else old(disk)
      ensures forall x :: ViewOf(x) == old(ViewOf(x))
    {
      hide Agrees, Coherent, View, UsedList, Aged, FreeList, AllSlots, Kept, Without, Relinked, LastUnpinned, Oldest,
           Tied;
      ghost var tab := bufTable;
      WriteBack(slot, v);
      ghost var mid := bufTable;
      ghost var id := mid[slot].id;
      IsCached(v);
      assert NoDup(us) by {
        UsedDistinct();
      }
      Dropped(mid, us, cache, disk, raw, v);
      Forget(bufTable[slot].id);
      ghost var was := us;
      raw := raw - {id};
      OffTheList(numPages, us, fr, v);
      Unlink(slot, v);
      KeptAfterDrop(tab, mid, bufTable, was, old(cache), v);
      RelinkedKeeps(mid, bufTable, us, cache, disk, raw);
    }

    lemma {:induction false} VictimUnpinned(v: nat)
      requires LastUnpinned(bufTable, us, v)
      ensures v < |us| && 0 <= us[v] < |bufTable| && bufTable[us[v]].pin == 0
    {}

    lemma {:induction false} UsedDistinct()
      requires Lists()
      ensures NoDup(us)
    {}

    /** A slot on the used list is the one its page is found in. */
    lemma {:induction false} IsCached(i: nat)
      requires Valid() && i < |us|
      ensures 0 <= us[i] < |bufTable| && bufTable[us[i]].id in cache && cache[bufTable[us[i]].id] == us[i]
    {
      assert Cached(bufTable, cache, us[i]);
    }

    /** A slot for a page: a free one, or else the victim's; false when every page is pinned. */
    method InternalAlloc() returns (ok: bool, slot: int, ghost v: nat)
      requires Valid()
      modifies this, hashTable
      ensures ok == !old(AllPinned())
      ensures !ok ==> Valid() && bufTable == old(bufTable) && us == old(us) && cache == old(cache) && disk == old(disk)
      ensures ok ==> Open(slot)
      ensures ok && old(fr) != [] ==> us == [old(fr)[0]] + old(us) && cache == old(cache)
      ensures ok ==> Used(slot)
      ensures ok && old(fr) == [] ==> Oldest(old(bufTable), old(us), old(stamp), slot)
      ensures ok && old(fr) == [] ==>
                LastUnpinned(old(bufTable), old(us), v) && us == [old(us)[v]] + Without(old(us), v)
                && cache == old(cache) - {old(bufTable)[old(us)[v]].id}
      ensures ok ==> Kept(old(bufTable), old(cache), bufTable, cache)
      ensures forall x :: ViewOf(x) == old(ViewOf(x))
    {
      hide Agrees, Coherent, View, UsedList, Aged, FreeList, Kept, Without, Relinked, LastUnpinned, Oldest, Tied;
      v := 0;
      if free != -1 {
        slot := TakeFree();
      } else {
        NoFreeSlot();
        slot, v := FindVictim();
        if slot == -1 {
          return false, slot, v;
        }
        VictimUnpinned(v);
        ghost var tab, held := bufTable, cache;
        Evict(slot, v);
        ghost var mid := bufTable;
        LinkNew(slot);
        KeptRelinked(tab, held, mid, bufTable, cache);
      }
      return true, slot, v;
    }

    lemma {:induction false} NoFreeSlot()
      requires Lists()
      ensures free == -1 <==> fr == []
    {}

    /** A slot that was on no list goes to the head of the used list. */
    method LinkNew(slot: int)
      requires Loose(slot) && Agrees(bufTable, us, cache) && Coherent(bufTable, cache, disk, raw) && Tied()
      modifies this`bufTable, this`first, this`last, this`us, this`stamp, this`clock
      ensures Open(slot) && us == [slot] + old(us) && Relinked(old(bufTable), bufTable) && Used(slot)
      ensures forall x :: ViewOf(x) == old(ViewOf(x))
    {
      hide Agrees, Coherent, View, UsedList, Aged, FreeList, Relinked;
      ghost var tab, was := bufTable, us;
      LinkHead(slot);
      RelinkedKeeps(tab, bufTable, was, cache, disk, raw);
      assert us[1..] == was;
    }

    /** The slot is on no list, every other is on one. */
    ghost predicate Loose(slot: int)
      reads this
    {
      && |bufTable| == numPages && UsedList(bufTable, us, first, last) && FreeList(bufTable, fr, free)
      && Aged(numPages, us, stamp, clock) && 0 <= slot < numPages && slot !in us && slot !in fr
      && (forall i, j :: 0 <= i < |us| && 0 <= j < |fr| ==> us[i] != fr[j])
      && (forall s :: 0 <= s < numPages ==> s == slot || s in us || s in fr)
    }

    /** The first slot of the free list. */
    method TakeFree() returns (slot: int)
      requires Valid() && free != -1
      modifies this
      ensures old(fr) != [] && slot == old(fr)[0] && us == [slot] + old(us) && cache == old(cache) && Used(slot)
      ensures Open(slot) && Kept(old(bufTable), old(cache), bufTable, cache)
      ensures forall x :: ViewOf(x) == old(ViewOf(x))
    {
      hide Agrees, Coherent, View, UsedList, Aged, Relinked, Kept;
      ghost var tab := bufTable;
      assert ChainedAt(bufTable, fr, 0);
      slot := free;
      free := bufTable[slot].next;
      FreeRest(bufTable, us, fr);
      fr := fr[1..];
      LinkNew(slot);
      KeptAll(tab, bufTable, us[1..], cache);
    }

    // ----- what the clients call -----

    /** The slot becomes the most recently used one. */
    method ToFront(slot: int, ghost id: PageId)
      requires Valid() && id in cache && cache[id] == slot
      modifies this`bufTable, this`first, this`last, this`us, this`stamp, this`clock
      ensures Valid() && Relinked(old(bufTable), bufTable) && MovedToFront(old(us), us, slot) && Used(slot)
      ensures forall x :: ViewOf(x) == old(ViewOf(x))
    {
      hide Agrees, Coherent, View, UsedList, Aged, FreeList, AllSlots, Relinked, Without, Tied;
      ghost var tab, was := bufTable, us;
      ghost var i := Position(id);
      UsedDistinct();
      SlotInTable(i);
      OffTheList(numPages, us, fr, i);
      Unlink(slot, i);
      ghost var mid := bufTable;
      LinkHead(slot);
      assert Relinked(tab, bufTable) by {
        RelinkedTwice(tab, mid, bufTable);
      }
      BackOnList(numPages, was, us, fr, i);
      RelinkedKeeps(tab, bufTable, was, cache, disk, raw);
      AgreesMoved(bufTable, was, us, cache, i);
    }

    /** Where a cached page's slot stands on the used list. */
    lemma {:induction false} Position(id: PageId) returns (i: nat)
      requires Valid() && id in cache
      ensures i < |us| && us[i] == cache[id]
    {
      assert cache[id] in us;
      i :| 0 <= i < |us| && us[i] == cache[id];
    }

    /** Sets the number of pins of a cached page. */
    method SetPin(slot: int, id: PageId, p: nat)
      requires Valid() && id in cache && cache[id] == slot
      modifies this`bufTable
      ensures Valid() && 0 <= slot < numPages && bufTable == old(bufTable)[slot := old(bufTable)[slot].(pin := p)]
      ensures KeptOthers(old(bufTable), cache, bufTable, cache, id)
      ensures forall x :: ViewOf(x) == old(ViewOf(x))
    {
      hide Agrees, Coherent, View, UsedList, Aged, FreeList, AllSlots, Tied;
      Repinned(bufTable, us, cache, disk, raw, id, p);
      SetLists(bufTable, us, fr, first, last, free, slot, bufTable[slot].(pin := p));
      bufTable := bufTable[slot := bufTable[slot].(pin := p)];
    }

    /** Enters a page into the slot at the head of the used list, with one pin. */
    method Enter(slot: int, id: PageId, data: Data, ghost newPage: bool)
      requires Open(slot) && id !in cache && hashTable.Hash(id) >= 0
      requires newPage || (id in disk && disk[id] == data)
      modifies this`bufTable, this`cache, this`raw, hashTable
      ensures Valid() && cache == old(cache)[id := slot] && raw == if newPage then old(raw) + {id} else old(raw)
      ensures bufTable[slot].pin == 1 && bufTable[slot].data == data && !bufTable[slot].dirty
      ensures KeptOthers(old(bufTable), old(cache), bufTable, cache, id)
      ensures forall x :: ViewOf(x) == old(ViewOf(x))
    {
      hide Agrees, Coherent, View, UsedList, Aged, FreeList, AllSlots, Tied;
      ghost var tab, held := bufTable, cache;
      var d := PageDesc(data, bufTable[slot].next, bufTable[slot].prev, false, 1, id);
      UsedDistinct();
      Opened(bufTable, us, cache, disk, raw, d, newPage);
      SetLists(bufTable, us, fr, first, last, free, slot, d);
      HeadIsFree(slot);
      Remember(id, slot);
      bufTable := bufTable[slot := d];
      raw := if newPage then raw + {id} else raw;
    }

    /** No other page is in the head slot. */
    lemma {:induction false} HeadIsFree(slot: int)
      requires Open(slot)
      ensures forall x :: x in cache ==> cache[x] != slot
    {
      forall x | x in cache ensures cache[x] != slot {
        var k :| 0 <= k < |us[1..]| && us[1..][k] == cache[x];
        assert us[k + 1] == cache[x];
      }
    }

    /** Puts the head slot, which holds no page, on the free list. */
    method GiveBack(slot: int)
      requires Open(slot)
      modifies this`bufTable, this`first, this`last, this`free, this`us, this`fr
      ensures Valid() && fr == [slot] + old(fr) && us == old(us)[1..] && Relinked(old(bufTable), bufTable)
      ensures forall x :: ViewOf(x) == old(ViewOf(x))
    {
      hide Agrees, Coherent, View, UsedList, Aged, FreeList, AllSlots, Tied, Relinked;
      ghost var tab := bufTable;
      UsedDistinct();
      OffTheList(numPages, us, fr, 0);
      assert Without(us, 0) == us[1..];
      Unlink(slot, 0);
      ghost var mid := bufTable;
      InsertFree(slot);
      RelinkedTwice(tab, mid, bufTable);
      RelinkedKeeps(tab, bufTable, us, cache, disk, raw);
    }

    method InsertFree(slot: int)
      requires Loose(slot)
      modifies this`bufTable, this`free, this`fr
      ensures Lists() && fr == [slot] + old(fr) && free == slot && Relinked(old(bufTable), bufTable)
    {
      hide Relinked;
      ghost var tab, was := bufTable, free;
      bufTable := bufTable[slot := bufTable[slot].(next := free)];
      free := slot;
      FreedSlot(tab, us, fr, first, last, was, slot);
      fr := [slot] + fr;
    }

    /** The slot with the page, pinned once more; read from the disk if the buffer does not have it. */
    method GetPage(id: PageId, multiplePins: bool) returns (rc: RC, slot: int)
      requires Valid() && hashTable.Hash(id) >= 0
      modifies this, hashTable
      ensures Valid() && forall x :: ViewOf(x) == old(ViewOf(x))
      ensures KeptOthers(old(bufTable), old(cache), bufTable, cache, id)
      ensures rc == PagePinned <==> !multiplePins && old(PinsOf(id)) > 0
      ensures rc == NoBuf <==> old(id !in cache && AllPinned())
      ensures rc == IncompleteRead <==> old(id !in cache && !AllPinned() && id !in disk)
      ensures rc in {PagePinned, NoBuf, IncompleteRead} ==>
                slot == -1 && PinsOf(id) == old(PinsOf(id)) && (id in cache <==> old(id in cache))
      ensures rc !in {PagePinned, NoBuf, IncompleteRead} ==>
                rc == Ok && id in cache && cache[id] == slot && At(us, 0) == slot && PinsOf(id) == old(PinsOf(id)) + 1
      ensures rc == Ok && old(id in cache) ==> MovedToFront(old(us), us, slot) && cache == old(cache)
      ensures rc == Ok && old(id !in cache) ==> Seated(old(bufTable), old(us), old(fr), old(cache), us, cache, id)
      ensures rc == Ok ==> Used(slot)
      ensures rc == Ok && old(id !in cache && fr == []) ==> Oldest(old(bufTable), old(us), old(stamp), slot)
      ensures rc == Ok && id !in raw ==> 0 <= slot < |bufTable| && ViewOf(id) == Some(bufTable[slot].data)
    {
      hide Agrees, Coherent, UsedList, Aged, FreeList, AllSlots, Kept, KeptOthers, Relinked, LastUnpinned, Oldest,
           Without, Seated, MovedToFront;
      var found := hashTable.Find(id);
      if found.None? {
        rc, slot := ReadIn(id);
        if rc == Ok {
          PinsAreCounted(id);
        }
        return;
      }
      slot := found.value;
      PinsAreCounted(id);
      if !multiplePins && bufTable[slot].pin > 0 {
        RelinkedSelf(bufTable);
        RelinkedIsOthers(bufTable, bufTable, cache, id);
        return PagePinned, -1;
      }
      Repin(slot, id);
      return Ok, slot;
    }

    /** One more pin for a cached page, which becomes the most recently used one. */
    method Repin(slot: int, id: PageId)
      requires Valid() && id in cache && cache[id] == slot
      modifies this`bufTable, this`first, this`last, this`us, this`stamp, this`clock
      ensures Valid() && Used(slot) && forall x :: ViewOf(x) == old(ViewOf(x))
      ensures KeptOthers(old(bufTable), cache, bufTable, cache, id)
      ensures PinsOf(id) == old(PinsOf(id)) + 1 && MovedToFront(old(us), us, slot) && At(us, 0) == slot
      ensures 0 <= slot < |bufTable|
    {
      hide Agrees, Coherent, View, UsedList, Aged, FreeList, AllSlots, KeptOthers, Relinked, Without, Tied;
      ghost var tab := bufTable;
      PinsAreCounted(id);
      SetPin(slot, id, bufTable[slot].pin + 1);
      ghost var mid := bufTable;
      ToFront(slot, id);
      RelinkedIsOthers(mid, bufTable, cache, id);
      SamePins(mid, bufTable, slot);
      KeptTwice(tab, cache, mid, cache, bufTable, cache, id);
    }

    lemma {:induction false} PinsAreCounted(id: PageId)
      requires Valid() && id in cache
      ensures 0 <= cache[id] < |bufTable| && bufTable[cache[id]].pin >= 0
    {
      assert Cached(bufTable, cache, cache[id]);
    }

    /** The pins of a page; none when it is not in the buffer. */
    ghost function PinsOf(id: PageId): int
      reads this
    {
      if id in cache && 0 <= cache[id] < |bufTable| then bufTable[cache[id]].pin else 0
    }

    /** GetPage for a page that is not in the buffer. */
    method ReadIn(id: PageId) returns (rc: RC, slot: int)
      requires Valid() && hashTable.Hash(id) >= 0 && id !in cache
      modifies this, hashTable
      ensures Valid() && forall x :: ViewOf(x) == old(ViewOf(x))
      ensures KeptOthers(old(bufTable), old(cache), bufTable, cache, id)
      ensures rc == NoBuf <==> old(AllPinned())
      ensures rc == IncompleteRead <==> !old(AllPinned()) && id !in old(disk)
      ensures rc == NoBuf || rc == IncompleteRead ==> slot == -1 && id !in cache
      ensures rc != NoBuf && rc != IncompleteRead ==>
                rc == Ok && id in cache && cache[id] == slot && At(us, 0) == slot && PinsOf(id) == 1 && id !in raw
      ensures rc == Ok ==> Seated(old(bufTable), old(us), old(fr), old(cache), us, cache, id)
      ensures rc == Ok ==> Used(slot)
      ensures rc == Ok && old(fr) == [] ==> Oldest(old(bufTable), old(us), old(stamp), slot)
    {
      hide Agrees, Coherent, View, UsedList, Aged, FreeList, AllSlots, Kept, KeptOthers, Relinked, LastUnpinned,
           Oldest, Without, Tied;
      ghost var tab, held := bufTable, cache;
      OnDisk(id);
      var ok, s, v := InternalAlloc();
      if !ok {
        RelinkedSelf(tab);
        RelinkedIsOthers(tab, tab, held, id);
        return NoBuf, -1;
      }
      OnDisk(id);
      ghost var mid, kept := bufTable, cache;
      KeptIsOthers(tab, held, mid, kept, id);
      if id !in disk {
        GiveBack(s);
        RelinkedIsOthers(mid, bufTable, kept, id);
        KeptTwice(tab, held, mid, kept, bufTable, cache, id);
        return IncompleteRead, -1;
      }
      NotRaw(id);
      Enter(s, id, disk[id], false);
      KeptTwice(tab, held, mid, kept, bufTable, cache, id);
      return Ok, s;
    }

    lemma {:induction false} NotRaw(id: PageId)
      requires id !in cache && Coherent(bufTable, cache, disk, raw)
      ensures id !in raw
    {}

    lemma {:induction false} OnDisk(id: PageId)
      requires id !in cache
      ensures ViewOf(id) == if id in disk then Some(disk[id]) else None
    {}

    /** A slot for a page that is new in its file.  What the slot holds is whatever was there; nobody sees it as the
        page's contents before MarkDirty. */
    method AllocatePage(id: PageId) returns (rc: RC, slot: int)
      requires Valid() && hashTable.Hash(id) >= 0
      modifies this, hashTable
      ensures Valid() && forall x :: ViewOf(x) == old(ViewOf(x))
      ensures KeptOthers(old(bufTable), old(cache), bufTable, cache, id)
      ensures rc == PageInBuf <==> old(id in cache)
      ensures rc == NoBuf <==> old(id !in cache && AllPinned())
      ensures rc !in {PageInBuf, NoBuf} ==>
                rc == Ok && id in cache && cache[id] == slot && At(us, 0) == slot && PinsOf(id) == 1 && id in raw
      ensures rc == Ok ==> Seated(old(bufTable), old(us), old(fr), old(cache), us, cache, id)
      ensures rc == Ok ==> Used(slot)
      ensures rc == Ok && old(fr) == [] ==> Oldest(old(bufTable), old(us), old(stamp), slot)
    {
      hide Agrees, Coherent, View, UsedList, Aged, FreeList, AllSlots, Kept, KeptOthers, Relinked, LastUnpinned,
           Oldest, Without, Tied;
      ghost var tab, held := bufTable, cache;
      var found := Find(id);
      if found.Some? {
        RelinkedSelf(tab);
        RelinkedIsOthers(tab, tab, held, id);
        return PageInBuf, -1;
      }
      var ok, s, v := InternalAlloc();
      if !ok {
        RelinkedSelf(tab);
        RelinkedIsOthers(tab, tab, held, id);
        return NoBuf, -1;
      }
      ghost var mid, kept := bufTable, cache;
      KeptIsOthers(tab, held, mid, kept, id);
      Enter(s, id, bufTable[s].data, true);
      KeptTwice(tab, held, mid, kept, bufTable, cache, id);
      return Ok, s;
    }

    method Find(id: PageId) returns (r: Option<int>)
      requires Tied()
      ensures r == if id in cache then Some(cache[id]) else None
    {
      r := hashTable.Find(id);
    }

    /** The buffer's contents become the page's: from now on they are what everybody sees. */
    method MarkDirty(id: PageId) returns (rc: RC)
      requires Valid()
      modifies this
      ensures Valid() && cache == old(cache) && disk == old(disk)
      ensures rc == PageNotInBuf <==> id !in cache
      ensures rc == PageUnpinned <==> id in cache && old(PinsOf(id)) == 0
      ensures rc !in {PageNotInBuf, PageUnpinned} ==>
                rc == Ok && 0 <= cache[id] < |old(bufTable)| && raw == old(raw) - {id}
      ensures rc == Ok ==> forall x :: ViewOf(x) == if x == id then Some(old(bufTable)[cache[id]].data)
                else old(ViewOf(x))
      ensures rc == Ok ==> MovedToFront(old(us), us, cache[id]) && Used(cache[id])
      ensures rc != Ok ==> bufTable == old(bufTable) && raw == old(raw) && us == old(us) && stamp == old(stamp)
      ensures KeptOthers(old(bufTable), cache, bufTable, cache, id) && PinsOf(id) == old(PinsOf(id))
    {
      hide Agrees, Coherent, View, UsedList, Aged, FreeList, AllSlots, KeptOthers, Relinked, Without, Tied;
      ghost var tab := bufTable;
      RelinkedSelf(tab);
      RelinkedIsOthers(tab, tab, cache, id);
      var found := Find(id);
      if found.None? {
        return PageNotInBuf;
      }
      var slot := found.value;
      PinsAreCounted(id);
      if bufTable[slot].pin == 0 {
        return PageUnpinned;
      }
      Dirtied(bufTable, us, cache, disk, raw, id, bufTable[slot].data, true);
      ghost var now := raw;
      SetLists(bufTable, us, fr, first, last, free, slot, bufTable[slot].(dirty := true));
      bufTable := bufTable[slot := bufTable[slot].(dirty := true)];
      raw := raw - {id};
      ghost var mid := bufTable;
      forall x ensures ViewOf(x) == if x == id then Some(tab[slot].data) else View(tab, cache, disk, now, x) {
        DirtiedShows(tab, us, cache, disk, now, id, tab[slot].data, true, x);
        assert bufTable == tab[cache[id] := tab[cache[id]].(data := tab[slot].data, dirty := true)];
      }
      ToFront(slot, id);
      RelinkedIsOthers(mid, bufTable, cache, id);
      SamePins(mid, bufTable, slot);
      KeptTwice(tab, cache, mid, cache, bufTable, cache, id);
      return Ok;
    }

    /** A client writes to a pinned page through its pointer.  Only if the page is dirty already does that count. */
    method Store(slot: int, data: Data, ghost id: PageId)
      requires Valid() && id in cache && cache[id] == slot && PinsOf(id) > 0
      modifies this`bufTable, this`raw
      ensures Valid() && KeptOthers(old(bufTable), cache, bufTable, cache, id) && PinsOf(id) == old(PinsOf(id))
      ensures forall x :: ViewOf(x) == if x == id && id !in raw then Some(data) else old(ViewOf(x))
      ensures id in raw <==> !bufTable[cache[id]].dirty
    {
      hide Agrees, Coherent, View, UsedList, Aged, FreeList, AllSlots, KeptOthers, Tied;
      PinsAreCounted(id);
      Dirtied(bufTable, us, cache, disk, raw, id, data, bufTable[slot].dirty);
      ghost var tab, now := bufTable, raw;
      SetLists(bufTable, us, fr, first, last, free, slot, bufTable[slot].(data := data));
      raw := if bufTable[slot].dirty then raw - {id} else raw + {id};
      bufTable := bufTable[slot := bufTable[slot].(data := data)];
      forall x ensures ViewOf(x) == if x == id && id !in raw then Some(data) else View(tab, cache, disk, now, x) {
        DirtiedShows(tab, us, cache, disk, now, id, data, tab[slot].dirty, x);
        assert bufTable == tab[cache[id] := tab[cache[id]].(data := data, dirty := tab[slot].dirty)];
      }
    }

    method UnpinPage(id: PageId) returns (rc: RC)
      requires Valid()
      modifies this
      ensures Valid() && cache == old(cache) && disk == old(disk) && raw == old(raw)
      ensures forall x :: ViewOf(x) == old(ViewOf(x))
      ensures rc == PageNotInBuf <==> id !in cache
      ensures rc == PageUnpinned <==> id in cache && old(PinsOf(id)) == 0
      ensures rc !in {PageNotInBuf, PageUnpinned} ==> rc == Ok && PinsOf(id) == old(PinsOf(id)) - 1
      ensures rc == Ok && PinsOf(id) == 0 ==> MovedToFront(old(us), us, cache[id]) && Used(cache[id])
      ensures rc != Ok || PinsOf(id) != 0 ==> us == old(us) && stamp == old(stamp)
      ensures KeptOthers(old(bufTable), cache, bufTable, cache, id)
    {
      hide Agrees, Coherent, View, UsedList, Aged, FreeList, AllSlots, KeptOthers, Relinked, Without, Tied;
      ghost var tab := bufTable;
      RelinkedSelf(tab);
      RelinkedIsOthers(tab, tab, cache, id);
      var found := Find(id);
      if found.None? {
        return PageNotInBuf;
      }
      var slot := found.value;
      PinsAreCounted(id);
      if bufTable[slot].pin == 0 {
        return PageUnpinned;
      }
      SetPin(slot, id, bufTable[slot].pin - 1);
      if bufTable[slot].pin == 0 {
        ghost var mid := bufTable;
        ToFront(slot, id);
        RelinkedIsOthers(mid, bufTable, cache, id);
        SamePins(mid, bufTable, slot);
        KeptTwice(tab, cache, mid, cache, bufTable, cache, id);
      }
      return Ok;
    }

    // ----- writing back -----

    /** Takes an unpinned page out of the buffer and puts its slot on the free list. */
    method FlushOne(slot: int, ghost i: nat)
      requires Valid() && i < |us| && us[i] == slot && 0 <= slot < |bufTable| && bufTable[slot].pin == 0
      modifies this, hashTable
      ensures Valid() && us == Without(old(us), i) && fr == [slot] + old(fr)
      ensures 0 <= slot < |old(bufTable)| && cache == old(cache) - {old(bufTable)[slot].id}
      ensures Relinked(old(bufTable)[slot := old(bufTable)[slot].(dirty := false)], bufTable)
      ensures disk == if old(bufTable)[slot].dirty
                then old(disk)[old(bufTable)[slot].id := old(bufTable)[slot].data] else old(disk)
      ensures forall x :: ViewOf(x) == old(ViewOf(x))
    {
      hide Agrees, Coherent, View, UsedList, Aged, FreeList, AllSlots, Kept, Without, Relinked, LastUnpinned, Oldest,
           Tied;
      ghost var clean := bufTable[slot := bufTable[slot].(dirty := false)];
      Evict(slot, i);
      ghost var mid := bufTable;
      InsertFree(slot);
      RelinkedTwice(clean, mid, bufTable);
      RelinkedKeeps(mid, bufTable, us, cache, disk, raw);
    }

    /** The turn of FlushPages that gives up an unpinned page of the file. */
    method GiveUp(slot: int, ghost i: nat, fd: int, ghost some: bool, ghost tab: seq<PageDesc>, ghost held: Cache)
      requires Valid() && Scanned(bufTable, us, i, fd, some) && Remaining(tab, held, bufTable, cache, fd)
      requires i < |us| && us[i] == slot && bufTable[slot].pin == 0 && bufTable[slot].id.fd == fd
      modifies this, hashTable
      ensures Valid() && Scanned(bufTable, us, i, fd, some) && Remaining(tab, held, bufTable, cache, fd)
      ensures |us| == |old(us)| - 1 && At(us, i) == At(old(us), i + 1)
      ensures forall x :: ViewOf(x) == old(ViewOf(x))
      ensures forall x: PageId :: x.fd != fd ==> SameOnDisk(old(disk), disk, x)
    {
      hide Agrees, Coherent, View, UsedList, Aged, FreeList, AllSlots, Without, Relinked, LastUnpinned, Oldest, Tied,
           Scanned, Remaining;
      IsCached(i);
      NextSlot(i);
      ghost var mid, was, before := bufTable, us, cache;
      WithoutNext(us, i);
      FlushOne(slot, i);
      ScannedOut(mid, bufTable, was, i, fd, some);
      RemainingLess(tab, held, mid, before, bufTable, slot, fd);
    }

    /** Writes back and gives up every page of a file that is not pinned; warns if one is. */
    method FlushPages(fd: int) returns (rc: RC)
      requires Valid()
      modifies this, hashTable
      ensures Valid() && forall x :: ViewOf(x) == old(ViewOf(x))
      ensures forall x :: x in cache && x.fd == fd ==> PinsOf(x) != 0
      ensures forall x :: x in old(cache) && (x.fd != fd || old(PinsOf(x)) != 0) ==>
                x in cache && cache[x] == old(cache)[x]
      ensures forall x :: x in cache ==> x in old(cache)
      ensures rc == PagePinned <==> exists x :: x in cache && x.fd == fd
      ensures rc == PagePinned || rc == Ok
      ensures forall x: PageId :: x.fd != fd ==> SameOnDisk(old(disk), disk, x)
    {
      hide Agrees, Coherent, View, UsedList, Aged, FreeList, AllSlots, Without, Relinked, LastUnpinned, Oldest, Tied,
           Scanned;
      rc := Ok;
      var slot := first;
      ghost var i: nat := 0;
      StartScan(fd);
      while slot != -1
        invariant Valid() && i <= |us| && slot == At(us, i)
        invariant forall x :: ViewOf(x) == old(ViewOf(x))
        invariant Scanned(bufTable, us, i, fd, rc == PagePinned) && (rc == PagePinned || rc == Ok)
        invariant Remaining(old(bufTable), old(cache), bufTable, cache, fd)
        invariant forall x: PageId :: x.fd != fd ==> SameOnDisk(old(disk), disk, x)
        decreases |us| - i
      {
        IsCached(i);
        var next := bufTable[slot].next;
        NextSlot(i);
        if bufTable[slot].id.fd == fd {
          if bufTable[slot].pin != 0 {
            rc := PagePinned;
            ScannedOne(bufTable, us, i, fd, true);
            i := i + 1;
          } else {
            GiveUp(slot, i, fd, rc == PagePinned, old(bufTable), old(cache));
          }
        } else {
          ScannedOne(bufTable, us, i, fd, rc == PagePinned);
          i := i + 1;
        }
        slot := next;
      }
      EndOfScan(i, fd, rc == PagePinned);
    }

    lemma {:induction false} StartScan(fd: int)
      requires Valid()
      ensures first == At(us, 0) && Scanned(bufTable, us, 0, fd, false)
      ensures Remaining(bufTable, cache, bufTable, cache, fd)
      ensures forall x :: x in cache ==> 0 <= cache[x] < |bufTable|
    {
      FirstSlot();
      forall x | x in cache ensures 0 <= cache[x] < |bufTable| {
        PinsAreCounted(x);
      }
    }

    lemma {:induction false} FirstSlot()
      requires Lists()
      ensures first == At(us, 0) && NoDup(us) && InTable(bufTable, us)
    {}

    lemma {:induction false} NextSlot(i: nat)
      requires Lists() && i < |us|
      ensures NoDup(us) && InTable(bufTable, us) && bufTable[us[i]].next == At(us, i + 1)
    {
      assert LinkedAt(bufTable, us, i);
    }

    /** After the scan: what held for the slots holds for the pages. */
    lemma {:induction false} EndOfScan(i: nat, fd: int, some: bool)
      requires Valid() && Scanned(bufTable, us, i, fd, some) && At(us, i) == -1
      ensures forall x :: x in cache && x.fd == fd ==> PinsOf(x) != 0
      ensures some <==> exists x :: x in cache && x.fd == fd
    {
      assert i == |us|;
      forall x | x in cache && x.fd == fd ensures PinsOf(x) != 0 && some {
        var k := Position(x);
        assert bufTable[us[k]].id == x;
      }
      if some {
        var k :| 0 <= k < i && bufTable[us[k]].id.fd == fd;
        IsCached(k);
      }
    }

    /** The page, if its contents in the buffer are promised, is clean and on the disk as the clients see it. */
    ghost predicate Forced(x: PageId)
      reads this
    {
      x in cache && x !in raw ==>
        && 0 <= cache[x] < |bufTable| && !bufTable[cache[x]].dirty
        && x in disk && Some(disk[x]) == ViewOf(x)
    }

    /** Writes back the dirty pages of a file, or the one asked for; nothing leaves the buffer.  Afterwards an empty
        buffer over the disk shows the file as it was seen before. */
    method ForcePages(fd: int, page: Option<int>) returns (rc: RC)
      requires Valid()
      modifies this`bufTable, this`disk
      ensures Valid() && rc == Ok && forall x :: ViewOf(x) == old(ViewOf(x))
      ensures page == None ==> forall x: PageId :: x.fd == fd ==> Forced(x)
      ensures page.Some? ==> Forced(PageId(fd, page.value))
      ensures page == None ==> forall x: PageId :: x.fd != fd ==> SameOnDisk(old(disk), disk, x)
      ensures page.Some? ==> forall x :: x != PageId(fd, page.value) ==> SameOnDisk(old(disk), disk, x)
      ensures page == None ==> forall x: PageId :: x.fd == fd && x !in raw ==>
                View([], map[], disk, {}, x) == old(ViewOf(x))
      ensures OnlyCleaned(old(bufTable), bufTable)
    {
      hide Agrees, View, UsedList, Aged, FreeList, AllSlots, Tied, Coherent, OnlyCleaned, CleanTo;
      var slot := first;
      ghost var i: nat := 0;
      NoneCleaned(bufTable);
      FirstSlot();
      CleanStart(bufTable, us, fd, page);
      while slot != -1
        invariant Valid() && i <= |us| && slot == At(us, i) && OnlyCleaned(old(bufTable), bufTable)
        invariant forall x :: ViewOf(x) == old(ViewOf(x))
        invariant CleanTo(bufTable, us, i, fd, page)
        invariant forall x :: !Asked(x, fd, page) ==> SameOnDisk(old(disk), disk, x)
        decreases |us| - i
      {
        IsCached(i);
        NextSlot(i);
        CleanNext(bufTable, us, i, fd, page);
        var next := bufTable[slot].next;
        if Asked(bufTable[slot].id, fd, page) {
          CleanedOne(old(bufTable), bufTable, slot);
          WriteBack(slot, i);
        }
        i := i + 1;
        slot := next;
      }
      AllForced(i, fd, page);
      return Ok;
    }

    lemma {:induction false} AllForced(i: nat, fd: int, page: Option<int>)
      requires Valid() && CleanTo(bufTable, us, i, fd, page) && At(us, i) == -1
      ensures forall x :: Asked(x, fd, page) ==> Forced(x)
      ensures forall x :: x !in raw && Forced(x) ==> View([], map[], disk, {}, x) == ViewOf(x)
    {
      hide Agrees, FreeList, AllSlots, Tied, Coherent;
      assert i == |us| by { FirstSlot(); }
      forall x | x in cache && x !in raw && Asked(x, fd, page) ensures Forced(x) {
        var k := Position(x);
        CleanOnDisk(x);
      }
    }

    lemma {:induction false} CleanOnDisk(x: PageId)
      requires Valid() && x in cache
      ensures 0 <= cache[x] < |bufTable| && bufTable[cache[x]].id == x
      ensures x !in raw && !bufTable[cache[x]].dirty ==> x in disk && Some(disk[x]) == ViewOf(x)
    {
      assert Backed(bufTable, cache, disk, raw, x);
    }
  }
}
