/** filewrite (file.c): a long write as several transactions. */
module FileWrites {
  import opened FileBlocks
  import opened FileSpace
  import opened FileLayer
  import LogDisk

  /** The most bytes that filewrite puts into one transaction. */
  const MAXWRITE := (LogDisk.LOGSIZE - 1 - 1 - 2) / 2 * BSIZE

  datatype WriteEnd = Written | Refused | Stopped

  /** One transaction of filewrite.  It logs every block of contents that it touches; a transaction of full size logs
      more blocks than begin_op has reserved for it. */
  method OneTransaction(fs: FileSystem, ip: Inode, src: seq<Byte>, off: nat) returns (r: IoResult)
    requires fs.FileOk(ip) && off < 0x1_0000_0000 && |src| <= MAXWRITE
    modifies fs`bitmap, fs`maps, fs`blocks, fs`logged, ip
    ensures r == Error <==> off > |old(fs.Bytes(ip))| || off + |src| > MAXFILE * BSIZE
    ensures r != Panic ==> fs.FileOk(ip)
    ensures r == Panic ==> forall c :: 0 <= c < |fs.bitmap| ==> fs.bitmap[c]
    ensures r == Error ==> fs.Bytes(ip) == old(fs.Bytes(ip))
    ensures r !in {Error, Panic} ==> r == Count(|src|) && off <= |old(fs.Bytes(ip))|
                                     && fs.Bytes(ip) == Spliced(old(fs.Bytes(ip)), off, src)
    ensures r !in {Error, Panic} && |src| > 0 ==> |fs.logged| >= (off + |src| - 1) / BSIZE + 1 - off / BSIZE
    ensures r !in {Error, Panic} && |src| == MAXWRITE ==> |fs.logged| > LogDisk.MAXOPBLOCKS
    ensures r !in {Error, Panic} ==> |fs.logged| <= 18 + |fs.maps|
  {
    hide Conserved, Contents, Mapped, Spliced, Filled, Lacking, FreeBlocks, Recorded, DataLogged, LoggedOnly, Reach;
    fs.logged := {};
    r := fs.Writei(ip, src, off);
    if r != Error && r != Panic {
      LoggedCount({}, fs.logged, fs.bmapstart, |fs.maps|, fs.blocks, ip.addrs, Reach(off, |src|));
      FewReached(off, |src|);
      DataCount(fs.n, fs.bitmap, fs.blocks, ip.addrs, fs.others, fs.logged, off / BSIZE, Behind(off, |src|));
    }
  }

  lemma {:induction false} FewReached(off: nat, len: nat)
    requires len <= MAXWRITE && off + len <= MAXFILE * BSIZE
    ensures |Reach(off, len)| <= 18
  {
    FewPlaces(off / BSIZE, Behind(off, len));
  }

  lemma {:induction false} SplicedMore(c: seq<Byte>, off: nat, src: seq<Byte>, k: nat, n: nat)
    requires off <= |c| && k + n <= |src| && n > 0
    ensures |Spliced(c, off, src[..k])| >= off + k
    ensures Spliced(Spliced(c, off, src[..k]), off + k, src[k..k + n]) == Spliced(c, off, src[..k + n])
  {
    assert src[..k + n] == src[..k] + src[k..k + n];
  }

  /** filewrite: the whole of src is in the file, or, where the file would grow too long, a beginning of it. */
  method FileWrite(fs: FileSystem, ip: Inode, src: seq<Byte>, off: nat) returns (r: WriteEnd, done: nat)
    requires fs.FileOk(ip) && off < 0x1_0000_0000 && |src| < 0x8000_0000
    modifies fs`bitmap, fs`maps, fs`blocks, fs`logged, ip
    ensures r != Stopped ==> fs.FileOk(ip) && done <= |src| && (done > 0 ==> off <= |old(fs.Bytes(ip))|)
    ensures r != Stopped && done == 0 ==> fs.Bytes(ip) == old(fs.Bytes(ip))
    ensures r != Stopped && done > 0 ==> fs.Bytes(ip) == Spliced(old(fs.Bytes(ip)), off, src[..done])
    ensures r == Written ==> done == |src|
    ensures r != Stopped ==>
              (r == Refused <==> src != [] && (off > |old(fs.Bytes(ip))| || off + |src| > MAXFILE * BSIZE))
    ensures r == Stopped ==> forall c :: 0 <= c < |fs.bitmap| ==> fs.bitmap[c]
  {
    hide FileSystem.FileOk, FileSystem.Bytes, Spliced;
    done := 0;
    ghost var before := fs.Bytes(ip);
    while done < |src|
      invariant done <= |src| && fs.FileOk(ip) && SoFar(before, off, src, done, fs.Bytes(ip))
    {
      var n1 := if |src| - done > MAXWRITE then MAXWRITE else |src| - done;
      ghost var now := fs.Bytes(ip);
      var w := OneTransaction(fs, ip, src[done..done + n1], off + done);
      if w == Panic {
        return Stopped, done;
      }
      if w == Error {
        TooLong(before, off, src, done, now, n1);
        return Refused, done;
      }
      OneTurn(before, off, src, done, now, n1);
      done := done + n1;
    }
    r := Written;
  }

  /** The file's bytes after `done` bytes have been written. */
  ghost predicate SoFar(before: seq<Byte>, off: nat, src: seq<Byte>, done: nat, now: seq<Byte>)
    requires done <= |src|
  {
    if done == 0 then now == before
    else off <= |before| && off + done <= MAXFILE * BSIZE && now == Spliced(before, off, src[..done])
  }

  lemma {:induction false} OneTurn(before: seq<Byte>, off: nat, src: seq<Byte>, done: nat, now: seq<Byte>, n1: nat)
    requires done + n1 <= |src| && n1 > 0 && SoFar(before, off, src, done, now)
    requires off + done <= |now| && off + done + n1 <= MAXFILE * BSIZE
    ensures SoFar(before, off, src, done + n1, Spliced(now, off + done, src[done..done + n1]))
  {
    if done == 0 {
      assert src[..n1] == src[0..n1];
    } else {
      SplicedMore(before, off, src, done, n1);
      hide Spliced;
    }
  }

  /** A turn is refused only when the whole write would be too long, or starts behind the end. */
  lemma {:induction false} TooLong(before: seq<Byte>, off: nat, src: seq<Byte>, done: nat, now: seq<Byte>, n1: nat)
    requires done + n1 <= |src| && n1 > 0 && SoFar(before, off, src, done, now)
    requires off + done > |now| || off + done + n1 > MAXFILE * BSIZE
    ensures off > |before| || off + |src| > MAXFILE * BSIZE
  {
    if done > 0 {
      SplicedMore(before, off, src, done, n1);
      hide Spliced;
    }
  }
}
