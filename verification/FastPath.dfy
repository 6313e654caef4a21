/**
 The block-to-block path of Object::memcpyObjectToObject. It walks one iterator per object and advances
 the source iterator once per destination block. `FastCopy` is that walk on values; `None` stands for
 dereferencing the end iterator or for leaving the bounds of a block.
 */
module FastPath {
  import opened Arithmetic
  import opened Bytes
  import opened Machine
  import opened SharedObject
  import opened ObjectCopies
  import opened Wrappers

  /** copyOp(&Protocol::copyBlockToBlock, ...) from block `i` of `s` to block `j` of `d`. */
  ghost function BlockCopy(mem: seq<byte>, s: Object, d: Object, i: nat, j: nat, dOff: nat, sOff: nat,
      n: nat): (r: Option<seq<byte>>)
    requires s.Valid() && d.Valid() && s.Placed(|mem|) && d.Placed(|mem|)
    ensures r.Some? ==> |r.value| == |mem|
  {
    if i < |s.blocks| && j < |d.blocks| && dOff + n <= d.blocks[j].size && sOff + n <= s.blocks[i].size
    then Some(Moved(mem, d.blocks[j].store + dOff, s.blocks[i].store + sOff, n))
    else None
  }

  /** The copies of one iteration: one, or two when the chunk crosses a source block boundary. */
  ghost function FastChunk(mem: seq<byte>, s: Object, d: Object, i: nat, j: nat, srcOff: nat, dstOff: nat,
      n: nat): (r: Option<seq<byte>>)
    requires s.Valid() && d.Valid() && s.Placed(|mem|) && d.Placed(|mem|)
    requires srcOff <= s.size
    ensures r.Some? ==> |r.value| == |mem|
  {
    var B := s.blockSize;
    if n <= s.BlockEnd(srcOff) then
      BlockCopy(mem, s, d, i, j, dstOff % B, srcOff % B, n)
    else
      var first := s.BlockEnd(srcOff);
      match BlockCopy(mem, s, d, i, j, dstOff % B, srcOff % B, first)
      case None => None
      case Some(mem1) => BlockCopy(mem1, s, d, i + 1, j, (dstOff + first) % B, (srcOff + first) % B, n - first)
  }

  ghost function ChunkSize(d: Object, dstOff: nat, left: nat): (r: nat)
    requires d.Valid() && dstOff + left <= d.size
    ensures r <= left && (left > 0 ==> r > 0)
  {
    if left < d.BlockEnd(dstOff) then left else d.BlockEnd(dstOff)
  }

  ghost function FastCopy(mem: seq<byte>, s: Object, d: Object, i: nat, j: nat, srcOff: nat, dstOff: nat,
      left: nat): (r: Option<seq<byte>>)
    requires s.Valid() && d.Valid() && s.Placed(|mem|) && d.Placed(|mem|)
    requires srcOff + left <= s.size && dstOff + left <= d.size
    ensures r.Some? ==> |r.value| == |mem|
    decreases left
  {
    if left == 0 then Some(mem) else
      var n := ChunkSize(d, dstOff, left);
      match FastChunk(mem, s, d, i, j, srcOff, dstOff, n)
      case None => None
      case Some(mem1) => FastCopy(mem1, s, d, i + 1, j + 1, srcOff + n, dstOff + n, left - n)
  }

  /** Iterator `k` names the block that contains `off`. */
  ghost predicate Names(o: Object, k: nat, off: nat)
    requires o.Valid()
  {
    k < |o.blocks| && off < o.size && Start(o.blocks, k) <= off < Start(o.blocks, k) + o.blocks[k].size
  }

  lemma {:induction false} TileStart(o: Object, k: nat)
    requires o.Valid() && k < |o.blocks|
    ensures Start(o.blocks, k) == k * o.blockSize
  {
    if k > 0 {
      TileStart(o, k - 1);
      assert o.blocks[k - 1].size == o.blockSize;
      assert k * o.blockSize == (k - 1) * o.blockSize + o.blockSize;
    }
  }

  /** The named block: its number, the offset within it and the bytes left in it, computed by division. */
  lemma {:induction false} NamedBlock(o: Object, k: nat, off: nat)
    requires o.Valid() && Names(o, k, off)
    ensures off < o.size && off % o.blockSize == off - Start(o.blocks, k) && off / o.blockSize == k
    ensures o.BlockEnd(off) == o.blocks[k].size - (off - Start(o.blocks, k))
    ensures off + o.BlockEnd(off) < o.size ==> o.blocks[k].size == o.blockSize
    ensures off + o.BlockEnd(off) < o.size ==>
      Names(o, k + 1, off + o.BlockEnd(off)) && Start(o.blocks, k + 1) == off + o.BlockEnd(off)
  {
    var r := off - Start(o.blocks, k);
    TileStart(o, k);
    DivMod(k, o.blockSize, r);
    o.BlockWithin(k);
    if k + 1 < |o.blocks| {
      o.BlockWithin(k + 1);
    }
  }

  lemma {:induction false} SomeBlock(o: Object, off: nat) returns (k: nat)
    requires o.Valid() && off < o.size
    ensures Names(o, k, off)
  {
    k := BlockOf(o.blocks, 0, off);
  }

  /** The bytes of one chunk that lies in one block of each object. */
  lemma {:induction false} BlockCopyWrites(mem: seq<byte>, s: Object, d: Object, i: nat, j: nat, srcOff: nat,
      dstOff: nat, n: nat)
    requires s.Valid() && d.Valid() && s.Placed(|mem|) && d.Placed(|mem|)
    requires Names(s, i, srcOff) && Names(d, j, dstOff) && n <= s.BlockEnd(srcOff) && n <= d.BlockEnd(dstOff)
    ensures var r := BlockCopy(mem, s, d, i, j, dstOff % d.blockSize, srcOff % s.blockSize, n);
      r.Some? && d.Wrote(mem, r.value, dstOff, s.Gather(mem, srcOff, n))
  {
    hide Start, Splice, Object.Gather, Object.Foot, Object.Valid, Object.Placed, Object.Wrote, Object.BlockEnd;
    NamedBlock(s, i, srcOff);
    NamedBlock(d, j, dstOff);
    var so, dO := srcOff - Start(s.blocks, i), dstOff - Start(d.blocks, j);
    s.CopyOutOfBlock(mem, i, Start(s.blocks, i), so, n);
    d.CopyIntoBlock(mem, j, Start(d.blocks, j), dO, s.Gather(mem, srcOff, n));
  }

  /** The iterator advanced by one names the block of the next source byte, or the copy is over. */
  ghost predicate InStep(s: Object, d: Object, srcOff: nat, dstOff: nat, left: nat)
    requires s.Valid() && d.Valid() && dstOff + left <= d.size
  {
    dstOff % d.blockSize <= srcOff % s.blockSize || left <= d.BlockEnd(dstOff)
  }

  lemma {:induction false} FullOrLast(o: Object, k: nat)
    requires o.Valid() && k < |o.blocks|
    ensures 0 < o.blocks[k].size <= o.blockSize
    ensures o.blocks[k].size == o.blockSize || Start(o.blocks, k) + o.blocks[k].size == o.size
    ensures Start(o.blocks, k) + o.blocks[k].size <= o.size
  {
    o.BlockWithin(k);
  }

  /** Moving on within the same block. */
  lemma {:induction false} WithinBlock(o: Object, k: nat, off: nat, e: nat)
    requires o.Valid() && Names(o, k, off) && e < o.BlockEnd(off)
    ensures Names(o, k, off + e) && o.BlockEnd(off + e) == o.BlockEnd(off) - e
  {
    NamedBlock(o, k, off);
    o.BlockWithin(k);
    NamedBlock(o, k, off + e);
  }

  /** Moving on by at most one block from the start of a block. */
  lemma {:induction false} FromBlockStart(o: Object, k: nat, e: nat)
    requires o.Valid() && k < |o.blocks| && Names(o, k, Start(o.blocks, k))
    requires e <= o.blockSize && Start(o.blocks, k) + e <= o.size
    ensures e <= o.BlockEnd(Start(o.blocks, k))
    ensures e < o.blockSize && Start(o.blocks, k) + e < o.size ==> Names(o, k, Start(o.blocks, k) + e)
  {
    NamedBlock(o, k, Start(o.blocks, k));
    FullOrLast(o, k);
  }

  /** A chunk that crosses a source block boundary continues in the next block, which has room for the rest. */
  lemma {:induction false} CrossingChunk(s: Object, d: Object, i: nat, j: nat, srcOff: nat, dstOff: nat, n: nat)
    requires s.Valid() && d.Valid() && s.blockSize == d.blockSize
    requires Names(s, i, srcOff) && Names(d, j, dstOff) && srcOff + n <= s.size
    requires s.BlockEnd(srcOff) < n <= d.BlockEnd(dstOff)
    ensures var first := s.BlockEnd(srcOff);
      && Names(s, i + 1, srcOff + first) && Names(d, j, dstOff + first)
      && n - first <= s.BlockEnd(srcOff + first) && n - first <= d.BlockEnd(dstOff + first)
  {
    var first := s.BlockEnd(srcOff);
    NamedBlock(s, i, srcOff);
    WithinBlock(d, j, dstOff, first);
    FromBlockStart(s, i + 1, n - first);
  }

  /** After a full chunk of a copy in step, both iterators have to advance by exactly one. */
  lemma {:induction false} StaysInStep(s: Object, d: Object, i: nat, j: nat, srcOff: nat, dstOff: nat, left: nat)
    requires s.Valid() && d.Valid() && s.blockSize == d.blockSize
    requires Names(s, i, srcOff) && Names(d, j, dstOff) && srcOff + left <= s.size && dstOff + left <= d.size
    requires InStep(s, d, srcOff, dstOff, left) && d.BlockEnd(dstOff) < left
    ensures var n := d.BlockEnd(dstOff);
      && Names(s, i + 1, srcOff + n) && Names(d, j + 1, dstOff + n) && InStep(s, d, srcOff + n, dstOff + n, left - n)
  {
    var n, first := d.BlockEnd(dstOff), s.BlockEnd(srcOff);
    NamedBlock(s, i, srcOff);
    NamedBlock(d, j, dstOff);
    FullOrLast(s, i);
    NamedBlock(d, j + 1, dstOff + n);
    if n > first {
      FromBlockStart(s, i + 1, n - first);
    }
  }

  /** What was written elsewhere does not change what is read later. */
  lemma {:induction false} SourceUnchanged(mem: seq<byte>, mem1: seq<byte>, s: Object, d: Object, srcOff: nat,
      dstOff: nat, a: nat, e: nat)
    requires s.Valid() && d.Valid() && s.Placed(|mem|) && d.Placed(|mem|) && |mem1| == |mem|
    requires srcOff + a + e <= s.size && dstOff + a + e <= d.size
    requires s.Foot(srcOff, a + e) !! d.Foot(dstOff, a + e)
    requires d.Wrote(mem, mem1, dstOff, s.Gather(mem, srcOff, a))
    ensures s.Gather(mem1, srcOff + a, e) == s.Gather(mem, srcOff + a, e)
    ensures s.Foot(srcOff + a, e) !! d.Foot(dstOff + a, e)
  {
    FeetApart(s, d, srcOff, dstOff, a + e, a, e, a);
    s.FootSplit(srcOff, a, e);
    d.FootSplit(dstOff, a, e);
    s.GatherUnchanged(mem, mem1, srcOff + a, e);
  }

  /** Two consecutive flat copies are one. */
  lemma {:induction false} CopiesJoin(mem: seq<byte>, mem1: seq<byte>, mem2: seq<byte>, s: Object, d: Object,
      srcOff: nat, dstOff: nat, a: nat, e: nat)
    requires s.Valid() && d.Valid() && s.Placed(|mem|) && d.Placed(|mem|) && |mem1| == |mem| == |mem2|
    requires srcOff + a + e <= s.size && dstOff + a + e <= d.size
    requires s.Foot(srcOff, a + e) !! d.Foot(dstOff, a + e)
    requires d.Wrote(mem, mem1, dstOff, s.Gather(mem, srcOff, a))
    requires d.Wrote(mem1, mem2, dstOff + a, s.Gather(mem1, srcOff + a, e))
    ensures d.Wrote(mem, mem2, dstOff, s.Gather(mem, srcOff, a + e))
  {
    hide *;
    SourceUnchanged(mem, mem1, s, d, srcOff, dstOff, a, e);
    d.WroteExtend(mem, mem1, mem2, dstOff, s.Gather(mem, srcOff, a), s.Gather(mem, srcOff + a, e));
    s.GatherSplit(mem, srcOff, a, e);
  }

  /** A chunk whose iterators name its first bytes is copied correctly. */
  lemma {:induction false} ChunkWrites(mem: seq<byte>, s: Object, d: Object, i: nat, j: nat, srcOff: nat, dstOff: nat,
      n: nat)
    requires s.Valid() && d.Valid() && s.Placed(|mem|) && d.Placed(|mem|) && s.blockSize == d.blockSize
    requires Names(s, i, srcOff) && Names(d, j, dstOff) && srcOff + n <= s.size && n <= d.BlockEnd(dstOff)
    requires s.Foot(srcOff, n) !! d.Foot(dstOff, n)
    ensures var r := FastChunk(mem, s, d, i, j, srcOff, dstOff, n);
      r.Some? && d.Wrote(mem, r.value, dstOff, s.Gather(mem, srcOff, n))
  {
    hide Start, Splice, Object.Gather, Object.Foot, Object.Valid, Object.Placed, Object.Wrote, Object.BlockEnd,
         BlockCopy;
    s.BlockSizePositive();
    if n <= s.BlockEnd(srcOff) {
      BlockCopyWrites(mem, s, d, i, j, srcOff, dstOff, n);
    } else {
      var first := s.BlockEnd(srcOff);
      CrossingChunk(s, d, i, j, srcOff, dstOff, n);
      BlockCopyWrites(mem, s, d, i, j, srcOff, dstOff, first);
      var mem1 := BlockCopy(mem, s, d, i, j, dstOff % d.blockSize, srcOff % s.blockSize, first).value;
      BlockCopyWrites(mem1, s, d, i + 1, j, srcOff + first, dstOff + first, n - first);
      var mem2 := BlockCopy(mem1, s, d, i + 1, j, (dstOff + first) % d.blockSize, (srcOff + first) % s.blockSize,
        n - first).value;
      CopiesJoin(mem, mem1, mem2, s, d, srcOff, dstOff, first, n - first);
    }
  }

  /** A copy in step is one flat copy. */
  lemma {:induction false} FastWrites(mem: seq<byte>, s: Object, d: Object, i: nat, j: nat, srcOff: nat, dstOff: nat,
      left: nat)
    requires s.Valid() && d.Valid() && s.Placed(|mem|) && d.Placed(|mem|) && s.blockSize == d.blockSize
    requires srcOff + left <= s.size && dstOff + left <= d.size
    requires left > 0 ==> Names(s, i, srcOff) && Names(d, j, dstOff) && InStep(s, d, srcOff, dstOff, left)
    requires s.Foot(srcOff, left) !! d.Foot(dstOff, left)
    ensures var r := FastCopy(mem, s, d, i, j, srcOff, dstOff, left);
      r.Some? && d.Wrote(mem, r.value, dstOff, s.Gather(mem, srcOff, left))
    decreases left
  {
    hide Start, Splice, Object.Gather, Object.Foot, Object.Valid, Object.Placed, Object.Wrote, Object.BlockEnd,
         FastChunk, InStep, Names;
    if left == 0 {
      NothingWritten(mem, mem, d, dstOff);
      assert s.Gather(mem, srcOff, 0) == [];
      assert mem[..|mem|] == mem;
    } else {
      var n := ChunkSize(d, dstOff, left);
      FeetApart(s, d, srcOff, dstOff, left, 0, n, n);
      ChunkWrites(mem, s, d, i, j, srcOff, dstOff, n);
      var mem1 := FastChunk(mem, s, d, i, j, srcOff, dstOff, n).value;
      if left > n {
        StaysInStep(s, d, i, j, srcOff, dstOff, left);
      }
      SourceUnchanged(mem, mem1, s, d, srcOff, dstOff, n, left - n);
      FastWrites(mem1, s, d, i + 1, j + 1, srcOff + n, dstOff + n, left - n);
      var mem2 := FastCopy(mem1, s, d, i + 1, j + 1, srcOff + n, dstOff + n, left - n).value;
      CopiesJoin(mem, mem1, mem2, s, d, srcOff, dstOff, n, left - n);
    }
  }

  // ---- copies out of step ----

  /** Whatever the source iterator names, one chunk writes only its own destination bytes. */
  lemma {:induction false} BlockCopyFrame(mem: seq<byte>, s: Object, d: Object, i: nat, j: nat, dstOff: nat,
      sOff: nat, n: nat)
    requires s.Valid() && d.Valid() && s.Placed(|mem|) && d.Placed(|mem|)
    requires Names(d, j, dstOff) && n <= d.BlockEnd(dstOff)
    ensures var r := BlockCopy(mem, s, d, i, j, dstOff % d.blockSize, sOff, n);
      r.Some? ==> forall a :: 0 <= a < |mem| && a !in d.Foot(dstOff, n) ==> r.value[a] == mem[a]
  {
    NamedBlock(d, j, dstOff);
    d.FootInBlock(j, dstOff - Start(d.blocks, j), n);
  }

  lemma {:induction false} ChunkFrame(mem: seq<byte>, s: Object, d: Object, i: nat, j: nat, srcOff: nat, dstOff: nat,
      n: nat)
    requires s.Valid() && d.Valid() && s.Placed(|mem|) && d.Placed(|mem|) && s.blockSize == d.blockSize
    requires srcOff + n <= s.size && Names(d, j, dstOff) && n <= d.BlockEnd(dstOff)
    ensures var r := FastChunk(mem, s, d, i, j, srcOff, dstOff, n);
      r.Some? ==> forall a :: 0 <= a < |mem| && a !in d.Foot(dstOff, n) ==> r.value[a] == mem[a]
  {
    hide Start, Splice, Object.Gather, Object.Foot, Object.Valid, Object.Placed, Object.BlockEnd, BlockCopy, Names;
    s.BlockSizePositive();
    var first := s.BlockEnd(srcOff);
    if n <= first {
      BlockCopyFrame(mem, s, d, i, j, dstOff, srcOff % s.blockSize, n);
    } else {
      WithinBlock(d, j, dstOff, first);
      d.FootSplit(dstOff, first, n - first);
      BlockCopyFrame(mem, s, d, i, j, dstOff, srcOff % s.blockSize, first);
      var r1 := BlockCopy(mem, s, d, i, j, dstOff % d.blockSize, srcOff % s.blockSize, first);
      if r1.Some? {
        BlockCopyFrame(r1.value, s, d, i + 1, j, dstOff + first, (srcOff + first) % s.blockSize, n - first);
      }
    }
  }

  lemma {:induction false} FastFrame(mem: seq<byte>, s: Object, d: Object, i: nat, j: nat, srcOff: nat, dstOff: nat,
      left: nat)
    requires s.Valid() && d.Valid() && s.Placed(|mem|) && d.Placed(|mem|) && s.blockSize == d.blockSize
    requires srcOff + left <= s.size && dstOff + left <= d.size && (left > 0 ==> Names(d, j, dstOff))
    ensures var r := FastCopy(mem, s, d, i, j, srcOff, dstOff, left);
      r.Some? ==> forall a :: 0 <= a < |mem| && a !in d.Foot(dstOff, left) ==> r.value[a] == mem[a]
    decreases left
  {
    hide Start, Splice, Object.Gather, Object.Foot, Object.Valid, Object.Placed, Object.BlockEnd, FastChunk, Names;
    if left > 0 {
      var n := ChunkSize(d, dstOff, left);
      ChunkFrame(mem, s, d, i, j, srcOff, dstOff, n);
      d.FootSplit(dstOff, n, left - n);
      if left > n {
        NextNamed(d, j, dstOff, left);
      }
      var r := FastChunk(mem, s, d, i, j, srcOff, dstOff, n);
      if r.Some? {
        FastFrame(r.value, s, d, i + 1, j + 1, srcOff + n, dstOff + n, left - n);
      }
    }
  }

  lemma {:induction false} NextNamed(d: Object, j: nat, dstOff: nat, left: nat)
    requires d.Valid() && Names(d, j, dstOff) && dstOff + left <= d.size && d.BlockEnd(dstOff) < left
    ensures Names(d, j + 1, dstOff + d.BlockEnd(dstOff))
  {
    NamedBlock(d, j, dstOff);
  }

  lemma {:induction false} BlockCopyFirst(mem: seq<byte>, s: Object, d: Object, i: nat, j: nat, dstOff: nat,
      sOff: nat, n: nat)
    requires s.Valid() && d.Valid() && s.Placed(|mem|) && d.Placed(|mem|)
    requires 0 < n && Names(d, j, dstOff)
    ensures var r := BlockCopy(mem, s, d, i, j, dstOff % d.blockSize, sOff, n);
      r.Some? ==>
        && i < |s.blocks| && sOff < s.blocks[i].size
        && s.blocks[i].store + sOff < |mem| && d.Loc(dstOff) < |mem|
        && r.value[d.Loc(dstOff)] == mem[s.blocks[i].store + sOff]
  {
    hide Start, Object.BlockEnd;
    NamedBlock(d, j, dstOff);
    d.LocsInBlock(j, Start(d.blocks, j));
  }

  /** The first byte of a chunk comes from the block the source iterator names, right or wrong. */
  lemma {:induction false} FirstByte(mem: seq<byte>, s: Object, d: Object, i: nat, j: nat, srcOff: nat, dstOff: nat,
      n: nat)
    requires s.Valid() && d.Valid() && s.Placed(|mem|) && d.Placed(|mem|) && s.blockSize == d.blockSize
    requires 0 < n && srcOff + n <= s.size && Names(d, j, dstOff) && n <= d.BlockEnd(dstOff) && dstOff < d.size
    ensures var r := FastChunk(mem, s, d, i, j, srcOff, dstOff, n);
      r.Some? ==>
        && i < |s.blocks| && srcOff % s.blockSize < s.blocks[i].size
        && s.blocks[i].store + srcOff % s.blockSize < |mem| && d.Loc(dstOff) < |mem|
        && r.value[d.Loc(dstOff)] == mem[s.blocks[i].store + srcOff % s.blockSize]
  {
    hide Start, Splice, Object.Gather, Object.Foot, Object.Valid, Object.Placed, Object.BlockEnd, BlockCopy, Names,
         Object.Loc;
    s.BlockSizePositive();
    var first := s.BlockEnd(srcOff);
    if n <= first {
      BlockCopyFirst(mem, s, d, i, j, dstOff, srcOff % s.blockSize, n);
    } else {
      BlockCopyFirst(mem, s, d, i, j, dstOff, srcOff % s.blockSize, first);
      WithinBlock(d, j, dstOff, first);
      d.FootApart(|mem|, dstOff + first, n - first);
      var r1 := BlockCopy(mem, s, d, i, j, dstOff % d.blockSize, srcOff % s.blockSize, first);
      if r1.Some? {
        BlockCopyFrame(r1.value, s, d, i + 1, j, dstOff + first, (srcOff + first) % s.blockSize, n - first);
      }
    }
  }

  /** All zero except for the byte at `a`. */
  ghost function Marked(len: nat, a: nat): (r: seq<byte>)
    ensures |r| == len
    ensures forall i :: 0 <= i < len ==> r[i] == if i == a then 1 else 0
  {
    seq(len, i => if i == a then 1 else 0)
  }

  /** Out of step, the second chunk starts in the wrong source block, whose first byte it copies. */
  lemma {:induction false} WrongByte(s: Object, d: Object, i: nat, j: nat, len: nat, srcOff: nat, dstOff: nat, c: nat,
      mem: seq<byte>, mem1: seq<byte>)
    requires s.Valid() && d.Valid() && s.Placed(len) && d.Placed(len) && s.blockSize == d.blockSize
    requires Names(s, i, srcOff) && Names(s, i, srcOff + c) && srcOff + c < s.size && dstOff + c < d.size
    requires mem == Marked(len, s.Loc(srcOff + c)) && |mem1| == len
    requires d.Wrote(mem, mem1, dstOff, s.Gather(mem, srcOff, c))
    requires i + 1 < |s.blocks| && (srcOff + c) % s.blockSize < s.blocks[i + 1].size
    ensures s.blocks[i + 1].store + (srcOff + c) % s.blockSize < len
    ensures mem1[s.blocks[i + 1].store + (srcOff + c) % s.blockSize] == 0
  {
    hide Start, Object.Gather, Object.BlockEnd, Object.Loc;
    NamedBlock(s, i, srcOff + c);
    var o := (srcOff + c) % s.blockSize;
    var x := Start(s.blocks, i + 1) + o;
    s.BlockWithin(i + 1);
    s.LocsInBlock(i + 1, Start(s.blocks, i + 1));
    StartMonotone(s.blocks, i, i + 1);
    assert Start(s.blocks, i + 1) == Start(s.blocks, i) + s.blocks[i].size by { NextStart(s.blocks, i); }
    s.LocInjective(len, srcOff + c, x);
    s.LocPlaced(len);
    if s.Loc(x) in d.Foot(dstOff, c) {
      var k := d.FootElement(dstOff, c, s.Loc(x));
      assert mem1[d.Loc(k)] == s.Gather(mem, srcOff, c)[k - dstOff];
      assert s.Gather(mem, srcOff, c)[srcOff + (k - dstOff) - srcOff] == mem[s.Loc(srcOff + (k - dstOff))];
    }
  }

  lemma {:induction false} NextStart(bs: seq<Block>, k: nat)
    requires k < |bs|
    ensures Start(bs, k + 1) == Start(bs, k) + bs[k].size
  {
  }

  /** The fast path from memory `mem` is one flat copy. */
  ghost predicate FastIsFlat(mem: seq<byte>, s: Object, d: Object, i: nat, j: nat, srcOff: nat, dstOff: nat, size: nat)
    requires s.Valid() && d.Valid() && s.Placed(|mem|) && d.Placed(|mem|)
    requires srcOff + size <= s.size && dstOff + size <= d.size
  {
    var r := FastCopy(mem, s, d, i, j, srcOff, dstOff, size);
    r.Some? && d.Wrote(mem, r.value, dstOff, s.Gather(mem, srcOff, size))
  }

  /** Out of step, the first chunk ends inside a source block although the copy goes on. */
  lemma {:induction false} FirstChunkFallsShort(s: Object, d: Object, i: nat, j: nat, srcOff: nat, dstOff: nat,
      size: nat)
    requires s.Valid() && d.Valid() && s.blockSize == d.blockSize
    requires Names(s, i, srcOff) && Names(d, j, dstOff) && srcOff + size <= s.size && dstOff + size <= d.size
    requires !InStep(s, d, srcOff, dstOff, size)
    ensures ChunkSize(d, dstOff, size) == d.BlockEnd(dstOff) < size
    ensures Names(s, i, srcOff + d.BlockEnd(dstOff)) && Names(d, j + 1, dstOff + d.BlockEnd(dstOff))
  {
    NamedBlock(s, i, srcOff);
    NamedBlock(d, j, dstOff);
    FullOrLast(s, i);
    WithinBlock(s, i, srcOff, d.BlockEnd(dstOff));
  }

  /** Whatever the rest of an out-of-step copy does, the byte where its second chunk starts is wrong. */
  lemma {:induction false} SecondChunkWrong(mem1: seq<byte>, s: Object, d: Object, i: nat, j: nat, srcOff: nat,
      dstOff: nat, left: nat)
    requires s.Valid() && d.Valid() && s.Placed(|mem1|) && d.Placed(|mem1|) && s.blockSize == d.blockSize
    requires 0 < left && srcOff + left <= s.size && dstOff + left <= d.size && Names(d, j, dstOff)
    requires i < |s.blocks| && srcOff % s.blockSize < s.blocks[i].size ==>
      s.blocks[i].store + srcOff % s.blockSize < |mem1| && mem1[s.blocks[i].store + srcOff % s.blockSize] == 0
    ensures var r := FastCopy(mem1, s, d, i, j, srcOff, dstOff, left);
      r.Some? ==> d.Loc(dstOff) < |mem1| && r.value[d.Loc(dstOff)] == 0
  {
    hide Start, Splice, Object.Gather, Object.Foot, Object.Valid, Object.Placed, Object.BlockEnd, FastChunk, Names,
         Object.Loc;
    s.BlockSizePositive();
    var n := ChunkSize(d, dstOff, left);
    FirstByte(mem1, s, d, i, j, srcOff, dstOff, n);
    var r := FastChunk(mem1, s, d, i, j, srcOff, dstOff, n);
    if r.Some? {
      if n < left {
        NextNamed(d, j, dstOff, left);
      }
      d.FootApart(|mem1|, dstOff + n, left - n);
      FastFrame(r.value, s, d, i + 1, j + 1, srcOff + n, dstOff + n, left - n);
    }
  }

  /** Out of step, some memory contents are copied wrongly, or an iterator leaves its object. */
  lemma {:induction false} OutOfStep(len: nat, s: Object, d: Object, i: nat, j: nat, srcOff: nat, dstOff: nat,
      size: nat)
    returns (mem: seq<byte>)
    requires s.Valid() && d.Valid() && s.Placed(len) && d.Placed(len) && s.blockSize == d.blockSize
    requires Names(s, i, srcOff) && Names(d, j, dstOff) && srcOff + size <= s.size && dstOff + size <= d.size
    requires s.Foot(srcOff, size) !! d.Foot(dstOff, size)
    requires !InStep(s, d, srcOff, dstOff, size)
    ensures |mem| == len && !FastIsFlat(mem, s, d, i, j, srcOff, dstOff, size)
  {
    hide Start, Splice, Object.Foot, Object.Valid, Object.Placed, Object.BlockEnd, FastChunk, Names, Object.Loc,
         ChunkSize;
    var c := d.BlockEnd(dstOff);
    FirstChunkFallsShort(s, d, i, j, srcOff, dstOff, size);
    NamedInside(s, i, srcOff + c);
    NamedInside(d, j + 1, dstOff + c);
    mem := Marked(len, s.Loc(srcOff + c));
    FeetApart(s, d, srcOff, dstOff, size, 0, c, c);
    ChunkWrites(mem, s, d, i, j, srcOff, dstOff, c);
    var mem1 := FastChunk(mem, s, d, i, j, srcOff, dstOff, c).value;
    if i + 1 < |s.blocks| && (srcOff + c) % s.blockSize < s.blocks[i + 1].size {
      WrongByte(s, d, i, j, len, srcOff, dstOff, c, mem, mem1);
    }
    SecondChunkWrong(mem1, s, d, i + 1, j + 1, srcOff + c, dstOff + c, size - c);
    s.LocPlaced(len);
    assert s.Gather(mem, srcOff, size)[srcOff + c - srcOff] == 1;
  }

  lemma {:induction false} NamedInside(o: Object, k: nat, off: nat)
    requires o.Valid() && Names(o, k, off)
    ensures k < |o.blocks| && off < o.size && o.blockSize > 0
  {
  }

  /**
   The fast path is a flat copy for every memory contents exactly when the destination starts no later
   within its block than the source does, or the copy ends inside the first destination block.
   */
  lemma {:induction false} FastPathExact(len: nat, s: Object, d: Object, i: nat, j: nat, srcOff: nat, dstOff: nat,
      size: nat)
    requires s.Valid() && d.Valid() && s.Placed(len) && d.Placed(len) && s.blockSize == d.blockSize
    requires size > 0 && srcOff + size <= s.size && dstOff + size <= d.size
    requires Names(s, i, srcOff) && Names(d, j, dstOff)
    requires s.Foot(srcOff, size) !! d.Foot(dstOff, size)
    ensures (forall mem: seq<byte> | |mem| == len :: FastIsFlat(mem, s, d, i, j, srcOff, dstOff, size))
      <==> dstOff % s.blockSize <= srcOff % s.blockSize || size <= d.BlockEnd(dstOff)
  {
    hide Start, Object.Foot, Object.Valid, Object.Placed, Names, FastIsFlat, FastCopy, Object.BlockEnd;
    s.BlockSizePositive();
    if InStep(s, d, srcOff, dstOff, size) {
      forall mem: seq<byte> | |mem| == len
        ensures FastIsFlat(mem, s, d, i, j, srcOff, dstOff, size)
      {
        FastFlat(mem, s, d, i, j, srcOff, dstOff, size);
      }
    } else {
      var mem := OutOfStep(len, s, d, i, j, srcOff, dstOff, size);
    }
  }

  lemma {:induction false} FastFlat(mem: seq<byte>, s: Object, d: Object, i: nat, j: nat, srcOff: nat, dstOff: nat,
      size: nat)
    requires s.Valid() && d.Valid() && s.Placed(|mem|) && d.Placed(|mem|) && s.blockSize == d.blockSize
    requires size > 0 && srcOff + size <= s.size && dstOff + size <= d.size
    requires Names(s, i, srcOff) && Names(d, j, dstOff) && InStep(s, d, srcOff, dstOff, size)
    requires s.Foot(srcOff, size) !! d.Foot(dstOff, size)
    ensures FastIsFlat(mem, s, d, i, j, srcOff, dstOff, size)
  {
    FastWrites(mem, s, d, i, j, srcOff, dstOff, size);
  }

  /** Two objects of two 4-byte blocks each: copying 4 bytes from offset 0 to offset 2 goes wrong. */
  method OutOfStepExample() returns (s: Object, d: Object, ghost mem: seq<byte>)
    ensures s.Valid() && d.Valid() && s.Placed(16) && d.Placed(16) && s.blockSize == d.blockSize == 4
    ensures s.size == d.size == 8 && |s.blocks| == |d.blocks| == 2 && s.Foot(0, 4) !! d.Foot(2, 4)
    ensures Names(s, 0, 0) && Names(d, 0, 2) && !InStep(s, d, 0, 2, 4)
    ensures |mem| == 16 && !FastIsFlat(mem, s, d, 0, 0, 0, 2, 4)
  {
    hide FastIsFlat;
    s := new Object(100, 4, [Block(100, 4, 0, true), Block(104, 4, 4, true)], 8);
    d := new Object(200, 4, [Block(200, 4, 8, true), Block(204, 4, 12, true)], 8);
    TwoBlocks(s);
    TwoBlocks(d);
    ExampleApart(s, d);
    assert d.BlockEnd(2) == 2;
    mem := OutOfStep(16, s, d, 0, 0, 0, 2, 4);
  }

  lemma {:induction false} TwoBlocks(o: Object)
    requires o.blockSize == 4 && o.size == 8 && |o.blocks| == 2
    requires o.blocks[0].size == o.blocks[1].size == 4 && o.blocks[1].store == o.blocks[0].store + 4
    ensures o.Valid() && o.Placed(o.blocks[0].store + 8)
    ensures forall k :: 0 <= k < 2 ==> Start(o.blocks, k) == 4 * k
  {
    assert Start(o.blocks, 1) == o.blocks[0].size;
    assert Start(o.blocks, 2) == Start(o.blocks, 1) + o.blocks[1].size;
  }

  lemma {:induction false} ExampleApart(s: Object, d: Object)
    requires s.Valid() && d.Valid() && s.size == d.size == 8 && s.Placed(8) && d.Placed(16)
    requires |d.blocks| > 0 && forall k :: 0 <= k < |d.blocks| ==> d.blocks[k].store >= 8
    ensures s.Foot(0, 4) !! d.Foot(2, 4)
  {
    hide Object.Valid, Object.Foot, Object.Placed, Object.Loc, Start;
    FootBelow(s, 8, 0, 4);
    forall a | a in d.Foot(2, 4)
      ensures a >= 8
    {
      var i := d.FootElement(2, 4, a);
      var k := SomeBlock(d, i);
      NamedStore(d, k, i);
    }
  }

  lemma {:induction false} NamedStore(o: Object, k: nat, off: nat)
    requires o.Valid() && Names(o, k, off)
    ensures k < |o.blocks| && off < o.size && o.Loc(off) >= o.blocks[k].store
  {
    o.LocAt(k, off);
  }

  // ---- the routine itself ----

  /** A chunk within a block, and where it is stored. */
  lemma {:induction false} ChunkInBlock(len: nat, o: Object, k: nat, off: nat, n: nat)
    requires o.Valid() && o.Placed(len) && Names(o, k, off) && n <= o.BlockEnd(off)
    ensures k < |o.blocks| && off % o.blockSize + n <= o.blocks[k].size &&
      o.blocks[k].store + off % o.blockSize + n <= len
    ensures off + n <= o.size && o.Foot(off, n) == Range(o.blocks[k].store + off % o.blockSize, n)
  {
    NamedBlock(o, k, off);
    o.FootInBlock(k, off - Start(o.blocks, k), n);
  }

  /** A chunk within one block of each object respects the blocks' bounds and does not overlap itself. */
  lemma {:induction false} CopyInBounds(len: nat, s: Object, d: Object, i: nat, j: nat, srcOff: nat, dstOff: nat,
      n: nat)
    requires s.Valid() && d.Valid() && s.Placed(len) && d.Placed(len)
    requires Names(s, i, srcOff) && Names(d, j, dstOff) && n <= s.BlockEnd(srcOff) && n <= d.BlockEnd(dstOff)
    requires s.Foot(srcOff, n) !! d.Foot(dstOff, n)
    ensures i < |s.blocks| && j < |d.blocks|
    ensures srcOff % s.blockSize + n <= s.blocks[i].size && dstOff % d.blockSize + n <= d.blocks[j].size
    ensures s.blocks[i].store + srcOff % s.blockSize + n <= len && d.blocks[j].store + dstOff % d.blockSize + n <= len
    ensures Range(d.blocks[j].store + dstOff % d.blockSize, n) !! Range(s.blocks[i].store + srcOff % s.blockSize, n)
  {
    hide Names, Object.Valid, Object.Placed, Object.Foot, Object.BlockEnd, Range;
    ChunkInBlock(len, s, i, srcOff, n);
    ChunkInBlock(len, d, j, dstOff, n);
  }

  /** Block::copyOp with Protocol::copyBlockToBlock; a synchronous copy, whose offsets the blocks bound. */
  method CopyOp(m: Machine, s: Object, d: Object, i: nat, j: nat, dstOff: nat, srcOff: nat, n: nat)
    requires m.Valid() && m.out == map[] && s.Valid() && d.Valid() && s.Placed(|m.mem|) && d.Placed(|m.mem|)
    requires i < |s.blocks| && j < |d.blocks| && srcOff + n <= s.blocks[i].size && dstOff + n <= d.blocks[j].size
    requires Range(d.blocks[j].store + dstOff, n) !! Range(s.blocks[i].store + srcOff, n)
    modifies m`mem, m`trace, m`out
    ensures m.Valid() && m.out == map[] && |m.mem| == |old(m.mem)|
    ensures BlockCopy(old(m.mem), s, d, i, j, dstOff, srcOff, n) == Some(m.mem)
  {
    hide Start, Object.Valid, Machine.Valid, Moved;
    m.Memcpy(d.blocks[j].store + dstOff, s.blocks[i].store + srcOff, n);
  }

  lemma {:induction false} StepFacts(s: Object, d: Object, i: nat, j: nat, srcOff: nat, dstOff: nat, left: nat)
    requires s.Valid() && d.Valid() && s.blockSize == d.blockSize && left > 0
    requires Names(s, i, srcOff) && Names(d, j, dstOff) && srcOff + left <= s.size && dstOff + left <= d.size
    requires InStep(s, d, srcOff, dstOff, left)
    ensures var n := ChunkSize(d, dstOff, left);
      && s.blockSize > 0 && n <= d.BlockEnd(dstOff)
      && (n < left ==> n == d.BlockEnd(dstOff))
  {
  }

  /**
   What keeps the block copies of a chunk from overlapping: the objects share no storage at all, or the
   iterators name the blocks of two disjoint pieces.
   */
  ghost predicate ChunkApart(s: Object, d: Object, i: nat, j: nat, srcOff: nat, dstOff: nat, n: nat)
    requires s.Valid() && d.Valid()
  {
    s.Foot(0, s.size) !! d.Foot(0, d.size) ||
    (Names(s, i, srcOff) && Names(d, j, dstOff) && n <= d.BlockEnd(dstOff)
      && srcOff + n <= s.size && dstOff + n <= d.size && s.Foot(srcOff, n) !! d.Foot(dstOff, n))
  }

  /** Blocks of objects that share no storage. */
  lemma {:induction false} BlocksApart(s: Object, d: Object, i: nat, j: nat, srcOff: nat, dstOff: nat, n: nat)
    requires s.Valid() && d.Valid() && s.Foot(0, s.size) !! d.Foot(0, d.size)
    requires i < |s.blocks| && j < |d.blocks| && srcOff + n <= s.blocks[i].size && dstOff + n <= d.blocks[j].size
    ensures Range(d.blocks[j].store + dstOff, n) !! Range(s.blocks[i].store + srcOff, n)
  {
    hide Object.Valid, Object.Foot, Range;
    s.FootInBlock(i, srcOff, n);
    d.FootInBlock(j, dstOff, n);
    FootPart(s, Start(s.blocks, i) + srcOff, n);
    FootPart(d, Start(d.blocks, j) + dstOff, n);
  }

  /** The whole footprint contains every part of it. */
  lemma {:induction false} FootPart(o: Object, off: nat, n: nat)
    requires o.Valid() && off + n <= o.size
    ensures o.Foot(off, n) <= o.Foot(0, o.size)
  {
    o.FootSplit(0, off, o.size - off);
    o.FootSplit(off, n, o.size - off - n);
  }

  /** The ranges of one block copy of a chunk do not overlap. */
  lemma {:induction false} MoveApart(len: nat, s: Object, d: Object, i: nat, j: nat, srcOff: nat, dstOff: nat, n: nat)
    requires s.Valid() && d.Valid() && s.Placed(len) && d.Placed(len) && s.blockSize == d.blockSize
    requires ChunkApart(s, d, i, j, srcOff, dstOff, n) && srcOff <= s.size
    requires i < |s.blocks| && j < |d.blocks|
    requires srcOff % s.blockSize + n <= s.blocks[i].size && dstOff % d.blockSize + n <= d.blocks[j].size
    requires s.Foot(0, s.size) !! d.Foot(0, d.size) || n <= s.BlockEnd(srcOff)
    ensures Range(d.blocks[j].store + dstOff % d.blockSize, n) !! Range(s.blocks[i].store + srcOff % s.blockSize, n)
  {
    hide Names, Object.Valid, Object.Placed, Object.Foot, Object.BlockEnd, Range;
    s.BlockSizePositive();
    if s.Foot(0, s.size) !! d.Foot(0, d.size) {
      BlocksApart(s, d, i, j, srcOff % s.blockSize, dstOff % d.blockSize, n);
    } else {
      CopyInBounds(len, s, d, i, j, srcOff, dstOff, n);
    }
  }

  /** The two parts of a chunk that crosses a source block. */
  lemma {:induction false} PartsApart(s: Object, d: Object, i: nat, j: nat, srcOff: nat, dstOff: nat, n: nat)
    requires s.Valid() && d.Valid() && s.blockSize == d.blockSize && srcOff <= s.size && s.BlockEnd(srcOff) < n
    requires ChunkApart(s, d, i, j, srcOff, dstOff, n)
    ensures var first := s.BlockEnd(srcOff);
      && ChunkApart(s, d, i, j, srcOff, dstOff, first)
      && srcOff + first <= s.size
      && ChunkApart(s, d, i + 1, j, srcOff + first, dstOff + first, n - first)
      && (!(s.Foot(0, s.size) !! d.Foot(0, d.size)) ==> n - first <= s.BlockEnd(srcOff + first))
  {
    if !(s.Foot(0, s.size) !! d.Foot(0, d.size)) {
      hide Object.Valid, Object.Foot, Names, Object.BlockEnd;
      CrossingChunk(s, d, i, j, srcOff, dstOff, n);
      FeetParts(s, d, srcOff, dstOff, n, s.BlockEnd(srcOff));
    }
  }

  /** One iteration of the fast path. */
  method FastStep(m: Machine, s: Object, d: Object, i: nat, j: nat, srcOffset: nat, dstOffset: nat, copySize: nat)
    requires m.Valid() && m.out == map[] && s.Valid() && d.Valid() && s.Placed(|m.mem|) && d.Placed(|m.mem|)
    requires s.blockSize == d.blockSize && srcOffset <= s.size
    requires ChunkApart(s, d, i, j, srcOffset, dstOffset, copySize)
    requires FastChunk(m.mem, s, d, i, j, srcOffset, dstOffset, copySize).Some?
    modifies m`mem, m`trace, m`out
    ensures m.Valid() && m.out == map[] && |m.mem| == |old(m.mem)|
    ensures FastChunk(old(m.mem), s, d, i, j, srcOffset, dstOffset, copySize) == Some(m.mem)
  {
    hide Start, Object.Foot, Object.Valid, Object.Placed, Object.BlockEnd, Names, Machine.Valid, ChunkApart, BlockCopy;
    s.BlockSizePositive();
    var B := s.blockSize;
    if copySize <= s.BlockEnd(srcOffset) {
      CopyBlock(m, s, d, i, j, srcOffset, dstOffset, copySize);
    } else {
      var first := s.BlockEnd(srcOffset);
      PartsApart(s, d, i, j, srcOffset, dstOffset, copySize);
      CopyBlock(m, s, d, i, j, srcOffset, dstOffset, first);
      CopyBlock(m, s, d, i + 1, j, srcOffset + first, dstOffset + first, copySize - first);
    }
  }

  /** One block copy of a chunk. */
  method CopyBlock(m: Machine, s: Object, d: Object, i: nat, j: nat, srcOffset: nat, dstOffset: nat, n: nat)
    requires m.Valid() && m.out == map[] && s.Valid() && d.Valid() && s.Placed(|m.mem|) && d.Placed(|m.mem|)
    requires s.blockSize == d.blockSize && srcOffset <= s.size
    requires ChunkApart(s, d, i, j, srcOffset, dstOffset, n)
    requires s.Foot(0, s.size) !! d.Foot(0, d.size) || n <= s.BlockEnd(srcOffset)
    requires BlockCopy(m.mem, s, d, i, j, dstOffset % d.blockSize, srcOffset % s.blockSize, n).Some?
    modifies m`mem, m`trace, m`out
    ensures m.Valid() && m.out == map[] && |m.mem| == |old(m.mem)|
    ensures BlockCopy(old(m.mem), s, d, i, j, dstOffset % d.blockSize, srcOffset % s.blockSize, n) == Some(m.mem)
  {
    hide Start, Object.Foot, Object.Valid, Object.Placed, Object.BlockEnd, Names, Machine.Valid, ChunkApart, Moved;
    s.BlockSizePositive();
    MoveApart(|m.mem|, s, d, i, j, srcOffset, dstOffset, n);
    CopyOp(m, s, d, i, j, dstOffset % d.blockSize, srcOffset % s.blockSize, n);
  }

  lemma {:induction false} FeetParts(s: Object, d: Object, srcOff: nat, dstOff: nat, n: nat, a: nat)
    requires s.Valid() && d.Valid() && srcOff + n <= s.size && dstOff + n <= d.size && a <= n
    requires s.Foot(srcOff, n) !! d.Foot(dstOff, n)
    ensures s.Foot(srcOff, a) !! d.Foot(dstOff, a)
    ensures s.Foot(srcOff + a, n - a) !! d.Foot(dstOff + a, n - a)
  {
    s.FootSplit(srcOff, a, n - a);
    d.FootSplit(dstOff, a, n - a);
  }

  /** What the fast path makes of memory, from the blocks that `firstBlock` finds. */
  ghost function FastResult(mem: seq<byte>, s: Object, d: Object, srcOff: nat, dstOff: nat,
      size: nat): (r: Option<seq<byte>>)
    requires s.Valid() && d.Valid() && s.Placed(|mem|) && d.Placed(|mem|)
    requires srcOff + size <= s.size && dstOff + size <= d.size
  {
    FastCopy(mem, s, d, srcOff / s.blockSize, dstOff / d.blockSize, srcOff, dstOff, size)
  }

  /** What keeps all the block copies from overlapping. */
  ghost predicate WalkApart(s: Object, d: Object, i: nat, j: nat, srcOff: nat, dstOff: nat, left: nat)
    requires s.Valid() && d.Valid() && srcOff + left <= s.size && dstOff + left <= d.size
  {
    s.Foot(0, s.size) !! d.Foot(0, d.size) ||
    left == 0 ||
    (Names(s, i, srcOff) && Names(d, j, dstOff) && InStep(s, d, srcOff, dstOff, left)
      && s.Foot(srcOff, left) !! d.Foot(dstOff, left))
  }

  lemma {:induction false} WalkStep(mem: seq<byte>, s: Object, d: Object, i: nat, j: nat, srcOff: nat, dstOff: nat,
      left: nat)
    requires s.Valid() && d.Valid() && s.Placed(|mem|) && d.Placed(|mem|) && s.blockSize == d.blockSize
    requires srcOff + left <= s.size && dstOff + left <= d.size && left > 0
    requires WalkApart(s, d, i, j, srcOff, dstOff, left) && FastCopy(mem, s, d, i, j, srcOff, dstOff, left).Some?
    ensures var n := ChunkSize(d, dstOff, left);
      && ChunkApart(s, d, i, j, srcOff, dstOff, n) && FastChunk(mem, s, d, i, j, srcOff, dstOff, n).Some?
      && WalkApart(s, d, i + 1, j + 1, srcOff + n, dstOff + n, left - n)
  {
    hide Object.Valid, Object.Placed, Object.Foot, Names, FastChunk, ChunkSize, InStep;
    if !(s.Foot(0, s.size) !! d.Foot(0, d.size)) {
      StepFacts(s, d, i, j, srcOff, dstOff, left);
      FeetParts(s, d, srcOff, dstOff, left, ChunkSize(d, dstOff, left));
      if ChunkSize(d, dstOff, left) < left {
        StaysInStep(s, d, i, j, srcOff, dstOff, left);
      }
    }
  }

  /**
   The fast path of Object::memcpyObjectToObject, when no iterator leaves its object and no block copy its
   blocks. In step this is one flat copy.
   */
  method MemcpyFast(m: Machine, s: Object, d: Object, dstOffset: nat, srcOffset: nat, size: nat)
    requires m.Valid() && m.out == map[]
    requires s.Valid() && d.Valid() && s.Placed(|m.mem|) && d.Placed(|m.mem|) && s.blockSize == d.blockSize
    requires srcOffset + size <= s.size && dstOffset + size <= d.size
    requires s.Foot(srcOffset, size) !! d.Foot(dstOffset, size)
    requires InStep(s, d, srcOffset, dstOffset, size) || s.Foot(0, s.size) !! d.Foot(0, d.size)
    requires FastResult(m.mem, s, d, srcOffset, dstOffset, size).Some?
    modifies m`mem, m`trace, m`out
    ensures m.Valid() && m.out == map[] && |m.mem| == |old(m.mem)|
    ensures FastResult(old(m.mem), s, d, srcOffset, dstOffset, size) == Some(m.mem)
    ensures InStep(s, d, srcOffset, dstOffset, size) ==>
      d.Wrote(old(m.mem), m.mem, dstOffset, s.Gather(old(m.mem), srcOffset, size))
  {
    hide Start, Object.Foot, Object.Valid, Object.Placed, Object.BlockEnd, Object.Wrote, Object.Gather, FastChunk,
         Machine.Valid,
         WalkApart, ChunkApart, Names, InStep;
    ghost var mem0 := m.mem;
    s.BlockSizePositive();
    var i, j := FirstBlocks(s, d, srcOffset, dstOffset, size);
    FastStart(mem0, s, d, i, j, srcOffset, dstOffset, size);
    var left, dOff, sOff := size, dstOffset, srcOffset;
    while left > 0
      invariant 0 <= left <= size && sOff == srcOffset + (size - left) && dOff == dstOffset + (size - left)
      invariant m.Valid() && m.out == map[] && |m.mem| == |mem0|
      invariant WalkApart(s, d, i, j, sOff, dOff, left)
      invariant FastResult(mem0, s, d, srcOffset, dstOffset, size) == FastCopy(m.mem, s, d, i, j, sOff, dOff, left)
    {
      var copySize := if left < d.BlockEnd(dOff) then left else d.BlockEnd(dOff);
      WalkStep(m.mem, s, d, i, j, sOff, dOff, left);
      FastStep(m, s, d, i, j, sOff, dOff, copySize);
      i, j := i + 1, j + 1;
      left := left - copySize;
      dOff := dOff + copySize;
      sOff := sOff + copySize;
    }
  }

  /** The first blocks of a copy. */
  method FirstBlocks(s: Object, d: Object, srcOffset: nat, dstOffset: nat, size: nat) returns (i: nat, j: nat)
    requires s.Valid() && d.Valid() && srcOffset + size <= s.size && dstOffset + size <= d.size
    ensures size > 0 ==> Names(s, i, srcOffset) && Names(d, j, dstOffset)
  {
    hide Start, Object.Valid;
    var dummyOffset;
    i, dummyOffset := s.FirstBlock(srcOffset);
    j, dummyOffset := d.FirstBlock(dstOffset);
  }

  lemma {:induction false} FastStart(mem: seq<byte>, s: Object, d: Object, i: nat, j: nat, srcOff: nat, dstOff: nat,
      size: nat)
    requires s.Valid() && d.Valid() && s.Placed(|mem|) && d.Placed(|mem|) && s.blockSize == d.blockSize
    requires srcOff + size <= s.size && dstOff + size <= d.size && s.Foot(srcOff, size) !! d.Foot(dstOff, size)
    requires size > 0 ==> Names(s, i, srcOff) && Names(d, j, dstOff)
    ensures FastResult(mem, s, d, srcOff, dstOff, size) == FastCopy(mem, s, d, i, j, srcOff, dstOff, size)
    ensures InStep(s, d, srcOff, dstOff, size) || s.Foot(0, s.size) !! d.Foot(0, d.size) ==>
      WalkApart(s, d, i, j, srcOff, dstOff, size)
    ensures InStep(s, d, srcOff, dstOff, size) ==>
      var r := FastResult(mem, s, d, srcOff, dstOff, size);
      r.Some? && d.Wrote(mem, r.value, dstOff, s.Gather(mem, srcOff, size))
  {
    hide Start, Object.Foot, Object.Valid, Object.Placed, Object.BlockEnd, Object.Wrote, Object.Gather, FastChunk,
         Names, InStep;
    if size > 0 {
      NamedBlock(s, i, srcOff);
      NamedBlock(d, j, dstOff);
    }
    if InStep(s, d, srcOff, dstOff, size) {
      FastWrites(mem, s, d, i, j, srcOff, dstOff, size);
    }
  }

  /** In step the fast path ends in a flat copy, so that it may be called. */
  lemma {:induction false} InStepResult(mem: seq<byte>, s: Object, d: Object, srcOff: nat, dstOff: nat, size: nat)
    requires s.Valid() && d.Valid() && s.Placed(|mem|) && d.Placed(|mem|) && s.blockSize == d.blockSize
    requires srcOff + size <= s.size && dstOff + size <= d.size && s.Foot(srcOff, size) !! d.Foot(dstOff, size)
    requires InStep(s, d, srcOff, dstOff, size)
    ensures FastResult(mem, s, d, srcOff, dstOff, size).Some?
  {
    hide Object.Foot, Object.Valid, Object.Placed, Names, InStep, FastResult;
    var i, j := 0, 0;
    if size > 0 {
      i := SomeBlock(s, srcOff);
      j := SomeBlock(d, dstOff);
    }
    FastStart(mem, s, d, i, j, srcOff, dstOff, size);
  }

  /**
   Object::memcpyObjectToObject. `sameAccelerator` is the test that chooses the fast path: both objects
   have their copies on one accelerator and the parameter that enables the path is set. But for an out of
   step copy on the fast path, the result is one flat copy.
   */
  method MemcpyObjectToObject(m: Machine, s: Object, d: Object, dstOffset: nat, srcOffset: nat, size: nat,
      sameAccelerator: bool)
    requires m.Valid() && m.out == map[]
    requires s.Valid() && d.Valid() && s.Placed(|m.mem|) && d.Placed(|m.mem|) && s.blockSize == d.blockSize
    requires srcOffset + size <= s.size && dstOffset + size <= d.size
    requires s.Foot(srcOffset, size) !! d.Foot(dstOffset, size)
    requires sameAccelerator ==> InStep(s, d, srcOffset, dstOffset, size) || s.Foot(0, s.size) !! d.Foot(0, d.size)
    requires sameAccelerator ==> FastResult(m.mem, s, d, srcOffset, dstOffset, size).Some?
    modifies m
    ensures m.Valid() && m.out == map[]
    ensures sameAccelerator ==> FastResult(old(m.mem), s, d, srcOffset, dstOffset, size) == Some(m.mem)
    ensures sameAccelerator ==> |m.mem| == |old(m.mem)|
    ensures !sameAccelerator || InStep(s, d, srcOffset, dstOffset, size) ==>
      d.Wrote(old(m.mem), m.mem, dstOffset, s.Gather(old(m.mem), srcOffset, size))
  {
    hide *;
    if sameAccelerator {
      MemcpyFast(m, s, d, dstOffset, srcOffset, size);
    } else {
      MemcpyBuffered(m, s, d, dstOffset, srcOffset, size);
    }
  }
}
