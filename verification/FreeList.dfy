/** The free list of the K&R allocator (umalloc.c), in units of sizeof(Header) bytes. */
module FreeList {

  /** A block of the list; the first one is the static header. */
  datatype Blk = Blk(addr: int, size: nat)

  /** A header in memory. */
  datatype Header = Header(ptr: int, size: nat)

  /** Blocks in address order that neither overlap nor touch. */
  ghost predicate Ascending(fs: seq<Blk>) {
    forall i, j :: 0 <= i < j < |fs| ==> fs[i].addr + fs[i].size < fs[j].addr
  }

  /** Where block i points. */
  function Link(fs: seq<Blk>, i: nat): int
    requires i < |fs|
  {
    if i + 1 < |fs| then fs[i + 1].addr else fs[0].addr
  }

  /** The header of block i holds its size and points to the next block, the last one's to the first. */
  ghost predicate HeaderAt(hdr: map<int, Header>, fs: seq<Blk>, i: nat)
    requires i < |fs|
  {
    fs[i].addr in hdr && hdr[fs[i].addr] == Header(Link(fs, i), fs[i].size)
  }

  /** One circular list in address order, starting from base. */
  ghost predicate Circular(hdr: map<int, Header>, fs: seq<Blk>, base: int) {
    && fs != [] && fs[0] == Blk(base, 0)
    && Ascending(fs)
    && (forall i :: 1 <= i < |fs| ==> fs[i].size >= 1)
    && (forall i :: 0 <= i < |fs| ==> HeaderAt(hdr, fs, i))
  }

  predicate In(u: int, b: Blk) {
    b.addr <= u < b.addr + b.size
  }

  /** Unit u is free. */
  ghost predicate Has(fs: seq<Blk>, u: int) {
    exists i :: 0 <= i < |fs| && In(u, fs[i])
  }

  lemma {:induction false} HasConcat(x: seq<Blk>, y: seq<Blk>, u: int)
    ensures Has(x + y, u) <==> Has(x, u) || Has(y, u)
  {
    if Has(x, u) {
      var i :| 0 <= i < |x| && In(u, x[i]);
      assert (x + y)[i] == x[i];
    }
    if Has(y, u) {
      var i :| 0 <= i < |y| && In(u, y[i]);
      assert (x + y)[|x| + i] == y[i];
    }
  }

  lemma {:induction false} HasOne(b: Blk, u: int)
    ensures Has([b], u) <==> In(u, b)
  {
    if In(u, b) {
      assert In(u, [b][0]);
    }
  }

  lemma {:induction false} HasThree(x: seq<Blk>, b: Blk, y: seq<Blk>, u: int)
    ensures Has(x + [b] + y, u) <==> Has(x, u) || In(u, b) || Has(y, u)
  {
    HasConcat(x + [b], y, u);
    HasConcat(x, [b], u);
    HasOne(b, u);
  }

  // ----- giving a block back -----

  /** The last block before address b. */
  function Slot(fs: seq<Blk>, b: int): (t: nat)
    requires fs != []
    ensures t < |fs|
    ensures fs[0].addr < b ==> fs[t].addr < b
    ensures forall i :: t < i < |fs| ==> b <= fs[i].addr
  {
    if |fs| == 1 || fs[|fs| - 1].addr < b then |fs| - 1 else Slot(fs[..|fs| - 1], b)
  }

  /** Block (b, n) has a place of its own. */
  ghost predicate Separate(fs: seq<Blk>, b: int, n: nat) {
    forall i :: 0 <= i < |fs| ==> b + n <= fs[i].addr || fs[i].addr + fs[i].size <= b
  }

  /** The new block behind block t, joined to the one behind it when they touch. */
  function RightJoin(fs: seq<Blk>, t: nat, b: int, n: nat): seq<Blk>
    requires t < |fs|
  {
    if t + 1 < |fs| && b + n == fs[t + 1].addr then fs[..t + 1] + [Blk(b, n + fs[t + 1].size)] + fs[t + 2..]
    else fs[..t + 1] + [Blk(b, n)] + fs[t + 1..]
  }

  /** Block t joined to the one behind it when they touch. */
  function LeftJoin(fs: seq<Blk>, t: nat): seq<Blk>
    requires t + 1 < |fs|
  {
    if fs[t].addr + fs[t].size == fs[t + 1].addr
    then fs[..t] + [Blk(fs[t].addr, fs[t].size + fs[t + 1].size)] + fs[t + 2..]
    else fs
  }

  function Released(fs: seq<Blk>, b: int, n: nat): seq<Blk>
    requires fs != []
  {
    LeftJoin(RightJoin(fs, Slot(fs, b), b, n), Slot(fs, b))
  }

  lemma {:induction false} RightJoinHas(fs: seq<Blk>, t: nat, b: int, n: nat, u: int)
    requires t < |fs|
    ensures Has(RightJoin(fs, t, b, n), u) <==> Has(fs, u) || In(u, Blk(b, n))
  {
    HasConcat(fs[..t + 1], fs[t + 1..], u);
    assert fs == fs[..t + 1] + fs[t + 1..];
    HasThree(fs[..t + 1], Blk(b, n), fs[t + 1..], u);
    if t + 1 < |fs| {
      HasThree(fs[..t + 1], Blk(b, n + fs[t + 1].size), fs[t + 2..], u);
      HasThree(fs[..t + 1], fs[t + 1], fs[t + 2..], u);
      assert fs == fs[..t + 1] + [fs[t + 1]] + fs[t + 2..];
    }
  }

  lemma {:induction false} LeftJoinHas(fs: seq<Blk>, t: nat, u: int)
    requires t + 1 < |fs|
    ensures Has(LeftJoin(fs, t), u) <==> Has(fs, u)
  {
    assert fs == fs[..t] + ([fs[t]] + [fs[t + 1]]) + fs[t + 2..];
    HasConcat(fs[..t] + ([fs[t]] + [fs[t + 1]]), fs[t + 2..], u);
    HasConcat(fs[..t], [fs[t]] + [fs[t + 1]], u);
    HasConcat([fs[t]], [fs[t + 1]], u);
    HasOne(fs[t], u);
    HasOne(fs[t + 1], u);
    HasThree(fs[..t], Blk(fs[t].addr, fs[t].size + fs[t + 1].size), fs[t + 2..], u);
  }

  /** Giving back a block frees exactly its units. */
  lemma {:induction false} ReleasedHas(fs: seq<Blk>, b: int, n: nat, u: int)
    requires fs != []
    ensures Has(Released(fs, b, n), u) <==> Has(fs, u) || In(u, Blk(b, n))
  {
    var t := Slot(fs, b);
    RightJoinHas(fs, t, b, n, u);
    LeftJoinHas(RightJoin(fs, t, b, n), t, u);
  }

  /** In address order, except that blocks t and t + 1 may touch. */
  ghost predicate Almost(fs: seq<Blk>, t: nat) {
    forall i, j :: 0 <= i < j < |fs| ==>
      fs[i].addr + fs[i].size < fs[j].addr || (i == t && j == t + 1 && fs[i].addr + fs[i].size == fs[j].addr)
  }

  predicate Joins(fs: seq<Blk>, t: nat, b: int, n: nat) {
    t + 1 < |fs| && b + n == fs[t + 1].addr
  }

  /** RightJoin position by position. */
  lemma {:induction false} RightJoinAt(fs: seq<Blk>, t: nat, b: int, n: nat)
    requires t < |fs|
    ensures var ms, s := RightJoin(fs, t, b, n), if Joins(fs, t, b, n) then 1 else 0;
            && |ms| == |fs| + 1 - s
            && (forall i :: 0 <= i <= t ==> ms[i] == fs[i])
            && ms[t + 1] == Blk(b, if s == 1 then n + fs[t + 1].size else n)
            && (forall i :: t + 1 < i < |ms| ==> ms[i] == fs[i - 1 + s])
  {
    if Joins(fs, t, b, n) {
      SpliceAt(fs[..t + 1], Blk(b, n + fs[t + 1].size), fs[t + 2..]);
    } else {
      SpliceAt(fs[..t + 1], Blk(b, n), fs[t + 1..]);
    }
  }

  lemma {:induction false} SpliceAt(x: seq<Blk>, b: Blk, y: seq<Blk>)
    ensures var r := x + [b] + y;
            && |r| == |x| + 1 + |y| && r[|x|] == b
            && (forall i :: 0 <= i < |x| ==> r[i] == x[i])
            && (forall i :: |x| < i < |r| ==> r[i] == y[i - |x| - 1])
  {}

  lemma {:induction false} LeftJoinAt(fs: seq<Blk>, t: nat)
    requires t + 1 < |fs| && fs[t].addr + fs[t].size == fs[t + 1].addr
    ensures var gs := LeftJoin(fs, t);
            && |gs| == |fs| - 1
            && (forall i :: 0 <= i < t ==> gs[i] == fs[i])
            && gs[t] == Blk(fs[t].addr, fs[t].size + fs[t + 1].size)
            && (forall i :: t < i < |gs| ==> gs[i] == fs[i + 1])
  {
    var y := fs[t + 2..];
    assert forall i :: 0 <= i < |y| ==> y[i] == fs[i + t + 2];
    SpliceAt(fs[..t], Blk(fs[t].addr, fs[t].size + fs[t + 1].size), y);
    assert LeftJoin(fs, t) == fs[..t] + [Blk(fs[t].addr, fs[t].size + fs[t + 1].size)] + y;
    hide LeftJoin;
  }

  lemma {:induction false} RightJoinOrdered(fs: seq<Blk>, t: nat, b: int, n: nat)
    requires Ascending(fs) && Separate(fs, b, n) && n >= 1 && t < |fs|
    requires fs[t].addr < b && forall i :: t < i < |fs| ==> b <= fs[i].addr && fs[i].size >= 1
    ensures Almost(RightJoin(fs, t, b, n), t)
  {
    hide RightJoin, Ascending, Separate;
    RightJoinAt(fs, t, b, n);
    var ms, s := RightJoin(fs, t, b, n), if Joins(fs, t, b, n) then 1 else 0;
    forall i, j | 0 <= i < j < |ms|
      ensures ms[i].addr + ms[i].size < ms[j].addr || (i == t && j == t + 1 && ms[i].addr + ms[i].size == ms[j].addr)
    {
      RightPair(fs, ms, t, b, n, s, i, j);
    }
  }

  lemma {:induction false} RightPair(fs: seq<Blk>, ms: seq<Blk>, t: nat, b: int, n: nat, s: nat, i: nat, j: nat)
    requires Ascending(fs) && Separate(fs, b, n) && n >= 1 && t < |fs|
    requires fs[t].addr < b && forall l :: t < l < |fs| ==> b <= fs[l].addr && fs[l].size >= 1
    requires s == (if Joins(fs, t, b, n) then 1 else 0) && |ms| == |fs| + 1 - s && i < j < |ms|
    requires forall l :: 0 <= l <= t ==> ms[l] == fs[l]
    requires ms[t + 1] == Blk(b, if s == 1 then n + fs[t + 1].size else n)
    requires forall l :: t + 1 < l < |ms| ==> ms[l] == fs[l - 1 + s]
    ensures ms[i].addr + ms[i].size < ms[j].addr || (i == t && j == t + 1 && ms[i].addr + ms[i].size == ms[j].addr)
  {
    assert fs[t].addr + fs[t].size <= b;
    if i != t + 1 && j != t + 1 {
      var i1, j1 := if i <= t then i else i - 1 + s, if j <= t then j else j - 1 + s;
      assert fs[i1].addr + fs[i1].size < fs[j1].addr;
    } else if j == t + 1 {
      assert i < t ==> fs[i].addr + fs[i].size < fs[t].addr;
    } else {
      assert b + n <= fs[t + 1].addr;
      assert fs[j - 1 + s].addr >= fs[t + 1].addr;
    }
  }

  lemma {:induction false} LeftJoinOrdered(fs: seq<Blk>, t: nat)
    requires Almost(fs, t) && t + 1 < |fs|
    ensures Ascending(LeftJoin(fs, t))
  {
    if fs[t].addr + fs[t].size == fs[t + 1].addr {
      LeftJoinAt(fs, t);
      hide LeftJoin;
      var gs := LeftJoin(fs, t);
      forall i, j | 0 <= i < j < |gs| ensures gs[i].addr + gs[i].size < gs[j].addr {
        var i1, j1 := if i < t then i else i + 1, if j <= t then j else j + 1;
        assert fs[i1].addr + fs[i1].size < fs[j1].addr;
      }
    } else {
      assert LeftJoin(fs, t) == fs;
    }
  }

  /** The first header update of free(): the new block points on, past the block behind it if they are joined. */
  function RightHeader(hdr: map<int, Header>, p: int, b: int): Header
    requires p in hdr && b in hdr && hdr[p].ptr in hdr
  {
    var next := hdr[p].ptr;
    if b + hdr[b].size == next then Header(hdr[next].ptr, hdr[b].size + hdr[next].size) else Header(next, hdr[b].size)
  }

  /** The second: the block before points to the new one, or past it if they are joined. */
  function LeftHeader(hdr: map<int, Header>, p: int, b: int): Header
    requires p in hdr && b in hdr
  {
    if p + hdr[p].size == b then Header(hdr[b].ptr, hdr[p].size + hdr[b].size) else Header(b, hdr[p].size)
  }

  /** Every header but block t's is in place, and block t's has the right size. */
  ghost predicate AllBut(hdr: map<int, Header>, fs: seq<Blk>, t: nat)
    requires t < |fs|
  {
    && (forall i :: 0 <= i < |fs| && i != t ==> HeaderAt(hdr, fs, i))
    && fs[t].addr in hdr && hdr[fs[t].addr].size == fs[t].size
  }

  lemma {:induction false} RightHeaders(hdr: map<int, Header>, fs: seq<Blk>, base: int, t: nat, b: int, n: nat)
    requires Circular(hdr, fs, base) && Separate(fs, b, n) && n >= 1 && t < |fs|
    requires base < b && fs[t].addr < b && forall i :: t < i < |fs| ==> b <= fs[i].addr
    requires b in hdr && hdr[b].size == n
    ensures fs[t].addr in hdr && hdr[fs[t].addr].ptr in hdr
    ensures AllBut(hdr[b := RightHeader(hdr, fs[t].addr, b)], RightJoin(fs, t, b, n), t)
  {
    hide Circular, Separate, AllBut, HeaderAt, Joins, Kept;
    RightJoinAt(fs, t, b, n);
    RightLinked(hdr, fs, base, t, b, n);
    var after := hdr[b := RightHeader(hdr, fs[t].addr, b)];
    OthersKept(hdr, after, fs, base, b, n);
    hide RightJoin, RightHeader;
    HeadersMoved(hdr, after, fs, RightJoin(fs, t, b, n), t, if Joins(fs, t, b, n) then 0 else 1);
  }

  lemma {:induction false} OthersKept(hdr: map<int, Header>, after: map<int, Header>, fs: seq<Blk>, base: int, b: int,
                                      n: nat)
    requires Circular(hdr, fs, base) && Separate(fs, b, n) && n >= 1 && base < b
    requires b in after && after == hdr[b := after[b]]
    ensures forall i :: 0 <= i < |fs| ==> HeaderAt(hdr, fs, i)
    ensures forall i :: 0 <= i < |fs| ==> Kept(hdr, after, fs, i)
  {
    hide Ascending;
    forall i | 0 <= i < |fs| ensures Kept(hdr, after, fs, i) {
      assert HeaderAt(hdr, fs, i);
      NotMine(fs, base, b, n, i);
    }
  }

  /** The new block's header is right. */
  lemma {:induction false} RightLinked(hdr: map<int, Header>, fs: seq<Blk>, base: int, t: nat, b: int, n: nat)
    requires Circular(hdr, fs, base) && Separate(fs, b, n) && n >= 1 && t < |fs|
    requires base < b && fs[t].addr < b && forall i :: t < i < |fs| ==> b <= fs[i].addr
    requires b in hdr && hdr[b].size == n
    ensures fs[t].addr in hdr && hdr[fs[t].addr].ptr in hdr
    ensures HeaderAt(hdr[b := RightHeader(hdr, fs[t].addr, b)], RightJoin(fs, t, b, n), t + 1)
  {
    RightJoinAt(fs, t, b, n);
    hide RightJoin, Ascending, Almost, Separate;
    assert HeaderAt(hdr, fs, t);
    assert HeaderAt(hdr, fs, if t + 1 < |fs| then t + 1 else 0);
    assert Link(fs, t) == hdr[fs[t].addr].ptr;
  }

  ghost predicate Kept(hdr: map<int, Header>, after: map<int, Header>, fs: seq<Blk>, i: nat)
    requires i < |fs|
  {
    fs[i].addr in hdr && fs[i].addr in after && after[fs[i].addr] == hdr[fs[i].addr]
  }

  /** Behind block t + 1 of the new list nothing but the positions has changed, by o. */
  lemma {:induction false} HeadersMoved(hdr: map<int, Header>, after: map<int, Header>, fs: seq<Blk>, ms: seq<Blk>,
                                        t: nat, o: nat)
    requires o <= 1 && |ms| == |fs| + o && t + 1 < |ms| && t < |fs|
    requires forall i :: 0 <= i < |fs| ==> HeaderAt(hdr, fs, i)
    requires forall i :: 0 <= i < |fs| ==> Kept(hdr, after, fs, i)
    requires (forall i :: 0 <= i <= t ==> ms[i] == fs[i]) && (forall i :: t + 1 < i < |ms| ==> ms[i] == fs[i - o])
    requires HeaderAt(after, ms, t + 1)
    ensures AllBut(after, ms, t)
  {
    forall i | 0 <= i < |ms| && i != t ensures HeaderAt(after, ms, i) {
      if i < t {
        assert HeaderAt(hdr, fs, i) && Kept(hdr, after, fs, i);
      } else if i > t + 1 {
        assert HeaderAt(hdr, fs, i - o) && Kept(hdr, after, fs, i - o);
      }
    }
    assert HeaderAt(hdr, fs, t) && Kept(hdr, after, fs, t);
  }

  lemma {:induction false} NotMine(fs: seq<Blk>, base: int, b: int, n: nat, i: nat)
    requires Separate(fs, b, n) && n >= 1 && i < |fs| && fs[0] == Blk(base, 0) && base < b
    requires forall j :: 1 <= j < |fs| ==> fs[j].size >= 1
    ensures fs[i].addr != b
  {}

  lemma {:induction false} LeftHeaders(hdr: map<int, Header>, ms: seq<Blk>, t: nat)
    requires Almost(ms, t) && t + 1 < |ms| && AllBut(hdr, ms, t)
    requires forall i :: 1 <= i < |ms| ==> ms[i].size >= 1
    ensures ms[t].addr in hdr && ms[t + 1].addr in hdr
    ensures var gs := LeftJoin(ms, t);
            var after := hdr[ms[t].addr := LeftHeader(hdr, ms[t].addr, ms[t + 1].addr)];
            forall i :: 0 <= i < |gs| ==> HeaderAt(after, gs, i)
  {
    var gs := LeftJoin(ms, t);
    assert HeaderAt(hdr, ms, t + 1);
    var after := hdr[ms[t].addr := LeftHeader(hdr, ms[t].addr, ms[t + 1].addr)];
    forall i | 0 <= i < |ms| && i != t ensures ms[i].addr != ms[t].addr {}
    hide Almost;
    if ms[t].addr + ms[t].size == ms[t + 1].addr {
      LeftJoinAt(ms, t);
      hide LeftJoin;
      forall i | 0 <= i < |gs| ensures HeaderAt(after, gs, i) {
        assert i < t ==> HeaderAt(hdr, ms, i);
        assert i > t ==> HeaderAt(hdr, ms, i + 1);
      }
    } else {
      forall i | 0 <= i < |ms| ensures HeaderAt(after, ms, i) {
        assert i != t ==> HeaderAt(hdr, ms, i);
      }
    }
  }

  /** After both updates the list is in order again, with the block in it. */
  lemma {:induction false} ReleasedCircular(hdr: map<int, Header>, fs: seq<Blk>, base: int, b: int)
    requires Circular(hdr, fs, base) && base < b && b in hdr && hdr[b].size >= 1 && Separate(fs, b, hdr[b].size)
    ensures var p := fs[Slot(fs, b)].addr;
            p in hdr && hdr[p].ptr in hdr
    ensures var p := fs[Slot(fs, b)].addr;
            var mid := hdr[b := RightHeader(hdr, p, b)];
            Circular(mid[p := LeftHeader(mid, p, b)], Released(fs, b, hdr[b].size), base)
  {
    hide RightJoin, Ascending, Almost, AllBut, HeaderAt, Slot, Separate, LeftJoin, RightHeader, LeftHeader;
    var t := Slot(fs, b);
    var n := hdr[b].size;
    var ms := RightJoin(fs, t, b, n);
    RightHeaders(hdr, fs, base, t, b, n);
    RightJoinOrdered(fs, t, b, n);
    RightJoinAt(fs, t, b, n);
    LeftHeaders(hdr[b := RightHeader(hdr, fs[t].addr, b)], ms, t);
    LeftJoinOrdered(ms, t);
    Starts(ms, t, base);
  }

  lemma {:induction false} Starts(ms: seq<Blk>, t: nat, base: int)
    requires t + 1 < |ms| && ms[0] == Blk(base, 0) && base < ms[t + 1].addr
    requires forall i :: 1 <= i < |ms| ==> ms[i].size >= 1
    ensures var gs := LeftJoin(ms, t);
            gs != [] && gs[0] == Blk(base, 0) && forall i :: 1 <= i < |gs| ==> gs[i].size >= 1
  {
    if ms[t].addr + ms[t].size == ms[t + 1].addr {
      LeftJoinAt(ms, t);
      hide LeftJoin;
    }
  }

  /** The block given back lies in one block of the new list. */
  lemma {:induction false} ReleasedHolds(fs: seq<Blk>, b: int, n: nat) returns (g: nat)
    requires fs != []
    ensures var gs := Released(fs, b, n);
            g < |gs| && gs[g].addr <= b && b + n <= gs[g].addr + gs[g].size
  {
    var t := Slot(fs, b);
    RightJoinAt(fs, t, b, n);
    hide RightJoin;
    var ms := RightJoin(fs, t, b, n);
    g := if ms[t].addr + ms[t].size == ms[t + 1].addr then t else t + 1;
  }

  lemma {:induction false} SlotIs(fs: seq<Blk>, b: int, t: nat)
    requires t < |fs| && fs[0].addr < b && fs[t].addr < b && forall i :: t < i < |fs| ==> b < fs[i].addr
    ensures Slot(fs, b) == t
  {}

  // ----- taking a block -----

  /** Block i without its last n units, or without the block when there are no others. */
  function Taken(fs: seq<Blk>, i: nat, n: nat): seq<Blk>
    requires i < |fs| && fs[i].size >= n
  {
    if fs[i].size == n then fs[..i] + fs[i + 1..] else fs[i := Blk(fs[i].addr, fs[i].size - n)]
  }

  /** Where those n units are. */
  function TakenFrom(fs: seq<Blk>, i: nat, n: nat): int
    requires i < |fs| && fs[i].size >= n
  {
    fs[i].addr + fs[i].size - n
  }

  lemma {:induction false} TakenHas(fs: seq<Blk>, i: nat, n: nat, u: int)
    requires Ascending(fs) && i < |fs| && fs[i].size >= n
    ensures Has(fs, u) <==> Has(Taken(fs, i, n), u) || In(u, Blk(TakenFrom(fs, i, n), n))
  {
    assert fs == fs[..i] + [fs[i]] + fs[i + 1..];
    HasThree(fs[..i], fs[i], fs[i + 1..], u);
    HasConcat(fs[..i], fs[i + 1..], u);
    var b := Blk(fs[i].addr, fs[i].size - n);
    assert fs[i := b] == fs[..i] + [b] + fs[i + 1..];
    HasThree(fs[..i], b, fs[i + 1..], u);
  }

  lemma {:induction false} TakenAt(fs: seq<Blk>, i: nat, n: nat)
    requires i < |fs| && fs[i].size == n
    ensures var gs := Taken(fs, i, n);
            |gs| == |fs| - 1 && forall k :: 0 <= k < |gs| ==> gs[k] == fs[if k < i then k else k + 1]
  {}

  lemma {:induction false} TakenOrdered(fs: seq<Blk>, i: nat, n: nat)
    requires Ascending(fs) && 1 <= i < |fs| && fs[i].size >= n >= 1
    ensures Ascending(Taken(fs, i, n)) && Separate(Taken(fs, i, n), TakenFrom(fs, i, n), n)
  {
    if fs[i].size == n {
      TakenAt(fs, i, n);
      hide Taken;
      var gs := Taken(fs, i, n);
      forall k, l | 0 <= k < l < |gs| ensures gs[k].addr + gs[k].size < gs[l].addr {
        var x, y := if k < i then k else k + 1, if l < i then l else l + 1;
        assert fs[x].addr + fs[x].size < fs[y].addr;
      }
    }
  }

  lemma {:induction false} OtherAddrs(fs: seq<Blk>, i: nat)
    requires Ascending(fs) && i < |fs|
    ensures forall k :: 0 <= k < |fs| && k != i ==> fs[k].addr != fs[i].addr
  {}

  /** malloc()'s header updates when block i is used up, and when it is cut. */
  lemma {:induction false} TakenWhole(hdr: map<int, Header>, fs: seq<Blk>, base: int, i: nat)
    requires Circular(hdr, fs, base) && 1 <= i < |fs|
    ensures fs[i - 1].addr in hdr && fs[i].addr in hdr
    ensures var p, q := fs[i - 1].addr, fs[i].addr;
            Circular(hdr[p := Header(hdr[q].ptr, hdr[p].size)], Taken(fs, i, fs[i].size), base)
  {
    hide Taken, Ascending;
    var gs := Taken(fs, i, fs[i].size);
    var p := fs[i - 1].addr;
    assert HeaderAt(hdr, fs, i - 1) && HeaderAt(hdr, fs, i);
    TakenAt(fs, i, fs[i].size);
    TakenOrdered(fs, i, fs[i].size);
    OtherAddrs(fs, i - 1);
    var after := hdr[p := Header(hdr[fs[i].addr].ptr, hdr[p].size)];
    forall k | 0 <= k < |gs| ensures HeaderAt(after, gs, k) {
      assert HeaderAt(hdr, fs, if k < i then k else k + 1);
    }
  }

  lemma {:induction false} TakenTail(hdr: map<int, Header>, fs: seq<Blk>, base: int, i: nat, n: nat, x: int)
    requires Circular(hdr, fs, base) && 1 <= i < |fs| && fs[i].size > n >= 1
    ensures fs[i].addr in hdr && hdr[fs[i].addr].size == fs[i].size
    ensures var p, q := fs[i].addr, TakenFrom(fs, i, n);
            var mid := hdr[p := Header(hdr[p].ptr, fs[i].size - n)];
            Circular(mid[q := Header(x, n)], Taken(fs, i, n), base)
  {
    var gs := Taken(fs, i, n);
    var p, q := fs[i].addr, TakenFrom(fs, i, n);
    assert HeaderAt(hdr, fs, i);
    TakenOrdered(fs, i, n);
    forall k | 0 <= k < |fs| ensures fs[k].addr != q && (k != i ==> fs[k].addr != p) {
      assert k < i ==> fs[k].addr + fs[k].size < p;
    }
    hide Ascending;
    var mid := hdr[p := Header(hdr[p].ptr, fs[i].size - n)];
    var after := mid[q := Header(x, n)];
    forall k | 0 <= k < |gs| ensures HeaderAt(after, gs, k) {
      assert HeaderAt(hdr, fs, k);
    }
  }
}
