/** The free-block bitmap on disk (fs.c, mkfs.c): one bit a block, in the bytes of the bitmap blocks. */
module FileBitmap {
  import opened FileBlocks

  /** Bits in a bitmap block. */
  const BPB := 4096

  /** 1 << j. */
  function Mask(j: nat): nat
    requires j < 8
  {
    [1, 2, 4, 8, 16, 32, 64, 128][j]
  }

  /** v & (1 << j) is not 0. */
  predicate Bit(v: Byte, j: nat)
    requires j < 8
  {
    v / Mask(j) % 2 == 1
  }

  /** v | (1 << j). */
  function SetBit(v: Byte, j: nat): (r: Byte)
    requires j < 8
  {
    if Bit(v, j) then v else v + Mask(j)
  }

  /** v & ~(1 << j). */
  function ClearBit(v: Byte, j: nat): (r: Byte)
    requires j < 8
  {
    if Bit(v, j) then v - Mask(j) else v
  }

  /** Bit j of v is bit j - 1 of v / 2. */
  lemma {:induction false} Halves(v: Byte, j: nat)
    requires j < 8
    ensures j == 0 ==> (Bit(v, j) <==> v % 2 == 1)
    ensures j > 0 ==> Bit(v, j) == Bit(v / 2, j - 1)
  {
    if j > 0 {
      var m := Mask(j - 1);
      assert Mask(j) == 2 * m;
      assert v / (2 * m) == v / 2 / m;
    }
  }

  lemma {:induction false} SetHalves(v: Byte, j: nat)
    requires j < 8
    ensures j == 0 ==> SetBit(v, j) % 2 == 1 && SetBit(v, j) / 2 == v / 2
    ensures j > 0 ==> SetBit(v, j) % 2 == v % 2 && SetBit(v, j) / 2 == SetBit(v / 2, j - 1)
    ensures j == 0 ==> ClearBit(v, j) % 2 == 0 && ClearBit(v, j) / 2 == v / 2
    ensures j > 0 ==> ClearBit(v, j) % 2 == v % 2 && ClearBit(v, j) / 2 == ClearBit(v / 2, j - 1)
  {
    hide Bit;
    Halves(v, j);
    if j > 0 {
      assert Mask(j) == 2 * Mask(j - 1);
    }
  }

  /** Only bit j changes. */
  lemma {:induction false} OneBit(v: Byte, j: nat, i: nat)
    requires j < 8 && i < 8
    ensures Bit(SetBit(v, j), i) <==> i == j || Bit(v, i)
    ensures Bit(ClearBit(v, j), i) <==> i != j && Bit(v, i)
  {
    hide *;
    Halves(v, i);
    Halves(SetBit(v, j), i);
    Halves(ClearBit(v, j), i);
    SetHalves(v, j);
    if i > 0 && j > 0 {
      OneBit(v / 2, j - 1, i - 1);
    }
  }

  /** The mark of block b: bit b % 8 of byte b % 4096 / 8 of bitmap block b / 4096. */
  predicate Mark(maps: seq<Block>, b: nat)
    requires b / BPB < |maps| && |maps[b / BPB]| == BSIZE
  {
    Bit(maps[b / BPB][b % BPB / 8], b % 8)
  }

  /** The marks of all n blocks, as the bitmap blocks have them. */
  ghost predicate Encoded(n: nat, bitmap: seq<bool>, maps: seq<Block>) {
    && |bitmap| == n <= |maps| * BPB && (forall k :: 0 <= k < |maps| ==> |maps[k]| == BSIZE)
    && forall b :: 0 <= b < n ==> bitmap[b] == Mark(maps, b)
  }

  /** Byte and bit of a mark in its bitmap block. */
  lemma {:induction false} MarkPlace(k: nat, bi: nat)
    requires bi < BPB
    ensures var b := k * BPB + bi; b / BPB == k && b % BPB == bi && b % 8 == bi % 8
  {
    var b := k * BPB + bi;
    assert b == BPB * (b / BPB) + b % BPB;
    EightBits(512 * k + bi / 8, bi % 8);
    assert b == 8 * (512 * k + bi / 8) + bi % 8;
  }

  lemma {:induction false} EightBits(q: nat, r: nat)
    requires r < 8
    ensures (8 * q + r) % 8 == r
  {
    var b := 8 * q + r;
    assert b == 8 * (b / 8) + b % 8;
  }

  /** No other block has its mark there. */
  lemma {:induction false} OwnMark(b: nat, c: nat)
    requires b / BPB == c / BPB && b % BPB / 8 == c % BPB / 8 && b % 8 == c % 8
    ensures b == c
  {
    MarkPlace(b / BPB, b % BPB);
    MarkPlace(c / BPB, c % BPB);
  }

  lemma {:induction false} MarkOf(n: nat, bitmap: seq<bool>, maps: seq<Block>, k: nat, bi: nat)
    requires Encoded(n, bitmap, maps) && bi < BPB && k * BPB + bi < n
    ensures k < |maps| && |maps[k]| == BSIZE && bitmap[k * BPB + bi] == Bit(maps[k][bi / 8], bi % 8)
  {
    hide Bit;
    MarkPlace(k, bi);
    assert bitmap[k * BPB + bi] == Mark(maps, k * BPB + bi);
  }

  /** bp->data[bi/8] |= m, or &= ~m. */
  function Marked(data: Block, bi: nat, on: bool): (r: Block)
    requires |data| == BSIZE && bi < BPB
    ensures |r| == BSIZE
  {
    if on then data[bi / 8 := SetBit(data[bi / 8], bi % 8)] else data[bi / 8 := ClearBit(data[bi / 8], bi % 8)]
  }

  /** One bit set or cleared is one mark changed. */
  lemma {:induction false} OneMark(n: nat, bitmap: seq<bool>, maps: seq<Block>, k: nat, bi: nat, on: bool)
    requires Encoded(n, bitmap, maps) && bi < BPB && k * BPB + bi < n && k < |maps| && |maps[k]| == BSIZE
    ensures Encoded(n, bitmap[k * BPB + bi := on], maps[k := Marked(maps[k], bi, on)])
  {
    hide Bit, SetBit, ClearBit, Marked, Mark;
    var c := k * BPB + bi;
    var after := maps[k := Marked(maps[k], bi, on)];
    MarkPlace(k, bi);
    forall b | 0 <= b < n ensures bitmap[c := on][b] == Mark(after, b) {
      MarkAfter(maps, k, bi, on, c, b);
    }
  }

  lemma {:induction false} MarkAfter(maps: seq<Block>, k: nat, bi: nat, on: bool, c: nat, b: nat)
    requires bi < BPB && k < |maps| && |maps[k]| == BSIZE && b / BPB < |maps| && |maps[b / BPB]| == BSIZE
    requires c / BPB == k && c % BPB == bi && c % 8 == bi % 8
    ensures Mark(maps[k := Marked(maps[k], bi, on)], b) == if b == c then on else Mark(maps, b)
  {
    hide Bit, SetBit, ClearBit;
    if b / BPB == k && b % BPB / 8 == bi / 8 {
      OneBit(maps[k][bi / 8], bi % 8, b % 8);
      if b % 8 == c % 8 {
        OwnMark(b, c);
      }
    }
  }
}
