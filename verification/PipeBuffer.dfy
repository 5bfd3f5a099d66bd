/** Pipes (pipe.c): a ring of 512 bytes with two counters that wrap around after 2^32 bytes. */
module PipeBuffer {

  const PIPESIZE := 512
  const WRAP := 0x1_0000_0000

  type Byte = bv8

  /** A turn is what one process does between taking the pipe's lock and giving it back.  How it ended: asleep, with
      -1, or with the number of bytes the call returns. */
  datatype Turn = Asleep | Failed | Returned(n: nat)

  // ----- counters that wrap -----

  /** 512 divides 2^32, so the place in the ring follows from the wrapped counter. */
  lemma {:induction false} SamePlace(k: nat)
    ensures k % WRAP % PIPESIZE == k % PIPESIZE
  {
    var q := k / WRAP;
    assert k == k % WRAP + PIPESIZE * (q * 0x80_0000);
    AddsNothing(k % WRAP, q * 0x80_0000);
  }

  lemma {:induction false} AddsNothing(r: nat, m: nat)
    ensures (r + PIPESIZE * m) % PIPESIZE == r % PIPESIZE
  {}

  /** Comparing the wrapped counters tells a full ring and an empty one. */
  lemma {:induction false} FullAndEmpty(w: nat, r: nat)
    requires r <= w <= r + PIPESIZE
    ensures w % WRAP == (r % WRAP + PIPESIZE) % WRAP <==> w == r + PIPESIZE
    ensures w % WRAP == r % WRAP <==> w == r
  {}

  lemma {:induction false} NextCount(k: nat)
    ensures (k % WRAP + 1) % WRAP == (k + 1) % WRAP
  {}

  /** Bytes less than a ring apart have different places. */
  lemma {:induction false} PlacesDiffer(j: nat, k: nat)
    requires j < k < j + PIPESIZE
    ensures j % PIPESIZE != k % PIPESIZE
  {}

  class Pipe {
    const data: array<Byte>
    var nread: int
    var nwrite: int
    var readopen: bool
    var writeopen: bool
    /** Somebody sleeps on the counter of bytes read, or written. */
    var readersAsleep: bool
    var writersAsleep: bool
    /** All the bytes ever written, and how many of them have been read. */
    ghost var put: seq<Byte>
    ghost var taken: nat

    /** The ring holds what was written and not yet read. */
    ghost predicate Ring()
      reads this, data
    {
      && data.Length == PIPESIZE
      && taken <= |put| <= taken + PIPESIZE
      && nread == taken % WRAP && nwrite == |put| % WRAP
      && forall k :: taken <= k < |put| ==> data[k % PIPESIZE] == put[k]
    }

    /** Nobody sleeps without reason: writers only on a full ring and readers only on an empty one, and only while the
        other end is open. */
    ghost predicate Waiting()
      reads this
    {
      && (writersAsleep ==> |put| == taken + PIPESIZE && readopen)
      && (readersAsleep ==> |put| == taken && writeopen)
    }

    constructor ()
      ensures Ring() && Waiting() && fresh(data) && put == [] && taken == 0 && readopen && writeopen
    {
      data := new Byte[PIPESIZE](_ => 0);
      nread, nwrite, readopen, writeopen, readersAsleep, writersAsleep := 0, 0, true, true, false, false;
      put, taken := [], 0;
    }

    /** The two ends never wait for each other. */
    lemma {:induction false} NoDeadlock()
      requires Ring() && Waiting()
      ensures !(readersAsleep && writersAsleep)
      ensures readersAsleep ==> |put| < taken + PIPESIZE
      ensures writersAsleep ==> taken < |put|
    {}

    method PutByte(b: Byte)
      requires Ring() && |put| < taken + PIPESIZE
      modifies this`nwrite, this`put, data
      ensures Ring() && put == old(put) + [b]
    {
      SamePlace(|put|);
      NextCount(|put|);
      ghost var w := |put|;
      data[nwrite % PIPESIZE] := b;
      nwrite := (nwrite + 1) % WRAP;
      put := put + [b];
      forall k | taken <= k < |put| ensures data[k % PIPESIZE] == put[k] {
        if k < w {
          PlacesDiffer(k, w);
        }
      }
    }

    method TakeByte() returns (b: Byte)
      requires Ring() && taken < |put|
      modifies this`nread, this`taken
      ensures Ring() && taken == old(taken) + 1 && b == put[old(taken)]
    {
      SamePlace(taken);
      NextCount(taken);
      b := data[nread % PIPESIZE];
      nread := (nread + 1) % WRAP;
      taken := taken + 1;
    }

    /** A turn of pipewrite, from byte i of addr on: bytes go into the ring as long as there is room.  A writer that
        has filled the ring and then gives up, because it was killed or the read end is closed, does not wake the
        readers that went to sleep before.  Somebody goes on sleeping without reason exactly when readers are asleep,
        the writer will give up if it has to wait, and it has more than the ring holds. */
    method PipeWrite(addr: seq<Byte>, i: nat, killed: bool) returns (t: Turn, j: nat)
      requires Ring() && i <= |addr|
      modifies this, data
      ensures Ring() && i <= j <= |addr| && put == old(put) + addr[i..j] && taken == old(taken)
      ensures readopen == old(readopen) && writeopen == old(writeopen)
      ensures t.Returned? <==> j == |addr|
      ensures t.Returned? ==> t.n == |addr|
      ensures t.Failed? <==> j < |addr| && (!readopen || killed)
      ensures j < |addr| ==> |put| == taken + PIPESIZE
      ensures t.Asleep? ==> writersAsleep
      ensures old(Waiting()) ==>
                (Waiting() <==> !(old(readersAsleep) && (!old(readopen) || killed) && |addr| - i > PIPESIZE))
    {
      j := i;
      while j < |addr|
        invariant i <= j <= |addr| && Ring() && put == old(put) + addr[i..j] && taken == old(taken)
        invariant j > i ==> |old(put)| < taken + PIPESIZE
        invariant readersAsleep == old(readersAsleep) && writersAsleep == old(writersAsleep)
        invariant readopen == old(readopen) && writeopen == old(writeopen)
      {
        FullAndEmpty(|put|, taken);
        if nwrite == (nread + PIPESIZE) % WRAP {
          if !readopen || killed {
            return Failed, j;
          }
          readersAsleep := false;
          writersAsleep := true;
          return Asleep, j;
        }
        PutByte(addr[j]);
        assert addr[i..j + 1] == addr[i..j] + [addr[j]];
        j := j + 1;
      }
      readersAsleep := false;
      return Returned(|addr|), j;
    }

    /** A turn of piperead: the oldest bytes, up to n of them; on an empty ring it sleeps while there are writers. */
    method PipeRead(n: nat, killed: bool) returns (t: Turn, out: seq<Byte>)
      requires Ring()
      modifies this
      ensures Ring() && put == old(put) && old(taken) <= taken && out == put[old(taken)..taken]
      ensures readopen == old(readopen) && writeopen == old(writeopen)
      ensures t.Returned? <==> old(taken) < |put| || !writeopen
      ensures t.Returned? ==> t.n == |out| == if n < |put| - old(taken) then n else |put| - old(taken)
      ensures !t.Returned? ==> out == [] && (t.Failed? <==> killed)
      ensures t.Asleep? ==> readersAsleep
      ensures old(Waiting()) ==> Waiting()
    {
      out := [];
      FullAndEmpty(|put|, taken);
      if nread == nwrite && writeopen {
        if killed {
          return Failed, out;
        }
        readersAsleep := true;
        return Asleep, out;
      }
      var i := 0;
      while i < n
        invariant 0 <= i <= n && Ring() && put == old(put) && old(taken) <= taken
        invariant i == taken - old(taken) && out == put[old(taken)..taken]
        invariant readopen == old(readopen) && writeopen == old(writeopen)
        invariant readersAsleep == old(readersAsleep) && writersAsleep == old(writersAsleep)
      {
        FullAndEmpty(|put|, taken);
        if nread == nwrite {
          break;
        }
        var b := TakeByte();
        out := out + [b];
        i := i + 1;
      }
      writersAsleep := false;
      return Returned(i), out;
    }

    method PipeClose(writable: bool)
      requires Ring()
      modifies this
      ensures Ring() && put == old(put) && taken == old(taken)
      ensures readopen == (old(readopen) && writable) && writeopen == (old(writeopen) && !writable)
      ensures old(Waiting()) ==> Waiting()
    {
      if writable {
        writeopen := false;
        readersAsleep := false;
      } else {
        readopen := false;
        writersAsleep := false;
      }
    }
  }

  /** A reader that goes to sleep, and a killed writer with more than the ring can hold: the ring is full and the
      reader sleeps on. */
  method LostWakeup(addr: seq<Byte>) returns (p: Pipe)
    requires |addr| > PIPESIZE
    ensures fresh(p) && p.readersAsleep && |p.put| == p.taken + PIPESIZE && !p.Waiting()
  {
    p := new Pipe();
    var t, out := p.PipeRead(1, false);
    var u, j := p.PipeWrite(addr, 0, true);
  }
}
