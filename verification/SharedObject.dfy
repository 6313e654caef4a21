/**
 A shared object: a range of host addresses cut into coherence blocks, each with its own storage.
 The bytes of the object are named by their offset; `Loc` says where the byte at an offset is stored.
 */
module SharedObject {
  import opened Bytes
  import opened Transfers
  import opened Machine

  /** A coherence block: host address, size, and where its current copy is stored. */
  datatype Block = Block(addr: nat, size: nat, store: nat, onHost: bool)

  /** The direction of Object::memoryOp: Protocol::copyToBuffer or Protocol::copyFromBuffer. */
  datatype MemoryOp = ToBuffer | FromBuffer

  /** Object offset of the first byte of block `k`. */
  ghost function Start(bs: seq<Block>, k: nat): nat
    requires k <= |bs|
  {
    if k == 0 then 0 else Start(bs, k - 1) + bs[k - 1].size
  }

  /** The address that stores offset `i`, searched from block `k` on. */
  ghost function LocFrom(bs: seq<Block>, k: nat, i: nat): nat
    requires k <= |bs| && Start(bs, k) <= i < Start(bs, |bs|)
    decreases |bs| - k
  {
    if i < Start(bs, k) + bs[k].size then bs[k].store + (i - Start(bs, k)) else LocFrom(bs, k + 1, i)
  }

  lemma {:induction false} StartMonotone(bs: seq<Block>, j: nat, k: nat)
    requires j <= k <= |bs|
    ensures Start(bs, j) <= Start(bs, k)
    decreases k - j
  {
    if j < k {
      StartMonotone(bs, j, k - 1);
    }
  }

  /** Within one block, offsets and storage addresses advance together. */
  lemma {:induction false} LocInBlock(bs: seq<Block>, j: nat, k: nat, i: nat)
    requires j <= k < |bs| && Start(bs, k) <= i < Start(bs, k) + bs[k].size
    ensures Start(bs, j) <= i < Start(bs, |bs|)
    ensures LocFrom(bs, j, i) == bs[k].store + (i - Start(bs, k))
    decreases k - j
  {
    StartMonotone(bs, j, k);
    StartMonotone(bs, k + 1, |bs|);
    if j < k {
      StartMonotone(bs, j + 1, k);
      LocInBlock(bs, j + 1, k, i);
    }
  }

  /** Every offset lies in some block. */
  lemma {:induction false} BlockOf(bs: seq<Block>, k: nat, i: nat) returns (b: nat)
    requires k <= |bs| && Start(bs, k) <= i < Start(bs, |bs|)
    ensures k <= b < |bs| && Start(bs, b) <= i < Start(bs, b) + bs[b].size
    ensures LocFrom(bs, k, i) == bs[b].store + (i - Start(bs, b))
    decreases |bs| - k
  {
    if i < Start(bs, k) + bs[k].size {
      b := k;
    } else {
      b := BlockOf(bs, k + 1, i);
    }
  }

  class Object {
    const addr: nat
    const size: nat
    const blockSize: nat
    const blocks: seq<Block>

    constructor (addr: nat, blockSize: nat, blocks: seq<Block>, size: nat)
      ensures this.addr == addr && this.size == size && this.blockSize == blockSize && this.blocks == blocks
    {
      this.addr, this.size, this.blockSize, this.blocks := addr, size, blockSize, blocks;
    }

    /** The blocks cover the object; all have the block size except perhaps the last one. */
    ghost predicate Valid() {
      && blockSize > 0
      && Start(blocks, |blocks|) == size
      && (forall k :: 0 <= k < |blocks| ==> 0 < blocks[k].size <= blockSize)
      && (forall k :: 0 <= k < |blocks| - 1 ==> blocks[k].size == blockSize)
    }

    /** The block storages lie in memory and do not overlap. */
    ghost predicate Placed(len: nat) {
      && (forall k :: 0 <= k < |blocks| ==> blocks[k].store + blocks[k].size <= len)
      && (forall j, k :: 0 <= j < k < |blocks| ==>
            Range(blocks[j].store, blocks[j].size) !! Range(blocks[k].store, blocks[k].size))
    }

    lemma {:induction false} PlacedMore(len: nat, more: nat)
      requires Placed(len) && len <= more
      ensures Placed(more)
    {
    }

    lemma {:induction false} BlockSizePositive()
      requires Valid()
      ensures blockSize > 0
    {
    }

    function End(): nat { addr + size }

    /** Object::blockBase: minus the distance from the start of the block. */
    function BlockBase(offset: nat): int
      requires blockSize > 0
    {
      -1 * (offset % blockSize)
    }

    /** Object::blockEnd: the bytes from `offset` to the end of its block, or to the end of the object. */
    function BlockEnd(offset: nat): (r: nat)
      requires blockSize > 0 && offset <= size
      ensures r <= blockSize && offset + r <= size
      ensures offset < size ==> r > 0
    {
      if offset + BlockBase(offset) + blockSize > size then size - offset else blockSize + BlockBase(offset)
    }

    ghost function Loc(i: nat): nat
      requires Valid() && i < size
    {
      LocFrom(blocks, 0, i)
    }

    lemma {:induction false} LocPlaced(len: nat)
      requires Valid() && Placed(len)
      ensures forall i :: 0 <= i < size ==> Loc(i) < len
      ensures forall i, j :: 0 <= i < j < size ==> Loc(i) != Loc(j)
    {
      forall i | 0 <= i < size
        ensures Loc(i) < len
      {
        var b := BlockOf(blocks, 0, i);
      }
      forall i, j | 0 <= i < j < size
        ensures Loc(i) != Loc(j)
      {
        LocInjective(len, i, j);
      }
    }

    lemma {:induction false} LocInjective(len: nat, i: nat, j: nat)
      requires Valid() && Placed(len) && i < j < size
      ensures Loc(i) != Loc(j)
    {
      var b := BlockOf(blocks, 0, i);
      var c := BlockOf(blocks, 0, j);
      assert Loc(i) in Range(blocks[b].store, blocks[b].size);
      assert Loc(j) in Range(blocks[c].store, blocks[c].size);
      if c < b {
        StartMonotone(blocks, c + 1, b);
      }
    }

    /** The addresses that store the offsets [off, off + n). */
    ghost function Foot(off: nat, n: nat): (r: set<nat>)
      requires Valid() && off + n <= size
      ensures forall i :: off <= i < off + n ==> Loc(i) in r
    {
      if n == 0 then {} else Foot(off, n - 1) + {Loc(off + n - 1)}
    }

    lemma {:induction false} FootElement(off: nat, n: nat, a: nat) returns (i: nat)
      requires Valid() && off + n <= size && a in Foot(off, n)
      ensures off <= i < off + n && Loc(i) == a
    {
      if a in Foot(off, n - 1) {
        i := FootElement(off, n - 1, a);
      } else {
        i := off + n - 1;
      }
    }

    /** Offsets outside [off, off + n) are stored elsewhere. */
    lemma {:induction false} FootApart(len: nat, off: nat, n: nat)
      requires Valid() && Placed(len) && off + n <= size
      ensures forall i :: 0 <= i < size && !(off <= i < off + n) ==> Loc(i) !in Foot(off, n)
    {
      forall i | 0 <= i < size && Loc(i) in Foot(off, n)
        ensures off <= i < off + n
      {
        var j := FootElement(off, n, Loc(i));
        if i < j {
          LocInjective(len, i, j);
        } else if j < i {
          LocInjective(len, j, i);
        }
      }
    }

    /** The bytes of the object at the offsets [off, off + n). */
    ghost function Gather(mem: seq<byte>, off: nat, n: nat): (r: seq<byte>)
      requires Valid() && Placed(|mem|) && off + n <= size
      ensures |r| == n
      ensures forall i :: off <= i < off + n ==> Loc(i) < |mem| && r[i - off] == mem[Loc(i)]
    {
      LocPlaced(|mem|);
      seq(n, i requires 0 <= i < n => mem[Loc(off + i)])
    }

    ghost function Contents(mem: seq<byte>): (r: seq<byte>)
      requires Valid() && Placed(|mem|)
      ensures |r| == size
    {
      Gather(mem, 0, size)
    }

    lemma {:induction false} FootInBlock(k: nat, o: nat, n: nat)
      requires Valid() && k < |blocks| && o + n <= blocks[k].size
      ensures Start(blocks, k) + o + n <= size
      ensures Foot(Start(blocks, k) + o, n) == Range(blocks[k].store + o, n)
    {
      StartMonotone(blocks, k + 1, |blocks|);
      if n > 0 {
        FootInBlock(k, o, n - 1);
        LocInBlock(blocks, 0, k, Start(blocks, k) + o + n - 1);
      }
    }

    lemma {:induction false} FootSplit(off: nat, a: nat, b: nat)
      requires Valid() && off + a + b <= size
      ensures Foot(off, a + b) == Foot(off, a) + Foot(off + a, b)
    {
      if b > 0 {
        FootSplit(off, a, b - 1);
      }
    }

    /** `now` is `mem` with the offsets [off, off + |d|) set to `d` and every other address unchanged. */
    ghost predicate Wrote(mem: seq<byte>, now: seq<byte>, off: nat, d: seq<byte>)
      requires Valid() && off + |d| <= size
    {
      && |mem| <= |now|
      && Placed(|mem|)
      && (forall i :: off <= i < off + |d| ==> Loc(i) < |mem| && now[Loc(i)] == d[i - off])
      && (forall a :: 0 <= a < |mem| && a !in Foot(off, |d|) ==> now[a] == mem[a])
    }

    lemma {:induction false} WroteExtend(m0: seq<byte>, m1: seq<byte>, m2: seq<byte>, off: nat, d: seq<byte>,
        e: seq<byte>)
      requires Valid() && off + |d| + |e| <= size
      requires Wrote(m0, m1, off, d) && Wrote(m1, m2, off + |d|, e)
      ensures Wrote(m0, m2, off, d + e)
    {
      hide Valid, Loc, Foot, Placed;
      FootSplit(off, |d|, |e|);
      LocPlaced(|m0|);
      FootApart(|m0|, off + |d|, |e|);
    }

    lemma {:induction false} LocAt(k: nat, i: nat)
      requires Valid() && k < |blocks| && Start(blocks, k) <= i < Start(blocks, k) + blocks[k].size
      ensures i < size && Loc(i) == blocks[k].store + (i - Start(blocks, k))
    {
      LocInBlock(blocks, 0, k, i);
    }

    lemma {:induction false} BlockWithin(k: nat)
      requires Valid() && k < |blocks|
      ensures Start(blocks, k) + blocks[k].size <= size
    {
      StartMonotone(blocks, k + 1, |blocks|);
    }

    lemma {:induction false} LocsInBlock(k: nat, s: nat)
      requires Valid() && k < |blocks| && s == Start(blocks, k)
      ensures s + blocks[k].size <= size
      ensures forall i :: s <= i < s + blocks[k].size ==> Loc(i) == blocks[k].store + (i - s)
    {
      BlockWithin(k);
      forall i: nat | s <= i < s + blocks[k].size
        ensures Loc(i) == blocks[k].store + (i - s)
      {
        LocAt(k, i);
      }
    }

    /** A copy into one block writes exactly those offsets of the object. */
    lemma {:induction false} CopyIntoBlock(mem: seq<byte>, k: nat, s: nat, o: nat, d: seq<byte>)
      requires Valid() && Placed(|mem|) && k < |blocks| && s == Start(blocks, k) && o + |d| <= blocks[k].size
      ensures s + o + |d| <= size
      ensures Wrote(mem, Splice(mem, blocks[k].store + o, d), s + o, d)
    {
      hide Valid, Start, Loc, Foot;
      FootInBlock(k, o, |d|);
      LocsInBlock(k, s);
    }

    /** A copy out of one block reads exactly those offsets of the object. */
    lemma {:induction false} CopyOutOfBlock(mem: seq<byte>, k: nat, s: nat, o: nat, n: nat)
      requires Valid() && Placed(|mem|) && k < |blocks| && s == Start(blocks, k) && o + n <= blocks[k].size
      ensures s + o + n <= size
      ensures Gather(mem, s + o, n) == mem[blocks[k].store + o..blocks[k].store + o + n]
    {
      LocsInBlock(k, s);
      var g, here := Gather(mem, s + o, n), mem[blocks[k].store + o..blocks[k].store + o + n];
      forall i | 0 <= i < n
        ensures g[i] == here[i]
      {
        assert Loc(s + o + i) == blocks[k].store + o + i;
      }
    }

    /** A flat write makes the contents a flat splice. */
    lemma {:induction false} WroteContents(mem: seq<byte>, now: seq<byte>, off: nat, d: seq<byte>)
      requires Valid() && off + |d| <= size && Wrote(mem, now, off, d)
      ensures Placed(|now|) && Contents(now) == Splice(Contents(mem), off, d)
    {
      FootApart(|mem|, off, |d|);
      forall i | 0 <= i < size
        ensures Contents(now)[i] == Splice(Contents(mem), off, d)[i]
      {
        assert Contents(now)[i - 0] == now[Loc(i)];
      }
    }

    /**
     Object::firstBlock: the block that holds an offset, found by walking the blocks; |blocks| is the end
     iterator.
     */
    method FirstBlock(objectOffset: nat) returns (k: nat, blockOffset: nat)
      requires Valid()
      ensures k <= |blocks|
      ensures k == |blocks| <==> objectOffset >= size
      ensures k < |blocks| ==> blockOffset < blocks[k].size && Start(blocks, k) + blockOffset == objectOffset
    {
      k, blockOffset := 0, objectOffset;
      while k < |blocks| && blockOffset >= blocks[k].size
        invariant k <= |blocks|
        invariant Start(blocks, k) + blockOffset == objectOffset
      {
        blockOffset := blockOffset - blocks[k].size;
        k := k + 1;
      }
      if k < |blocks| {
        BlockWithin(k);
      }
    }

    // ---- Object::memoryOp ----

    /**
     The addresses an operation writes and reads when it moves `n` bytes between the buffer memory at `at` and
     offset `off`.
     */
    ghost function Written(op: MemoryOp, off: nat, at: nat, n: nat): set<nat>
      requires Valid() && off + n <= size
    {
      if op == FromBuffer then Foot(off, n) else Range(at, n)
    }

    ghost function Read(op: MemoryOp, off: nat, at: nat, n: nat): set<nat>
      requires Valid() && off + n <= size
    {
      if op == FromBuffer then Range(at, n) else Foot(off, n)
    }

    /** The flat effect of the operation. */
    ghost predicate Did(op: MemoryOp, mem: seq<byte>, now: seq<byte>, off: nat, at: nat, n: nat)
      requires Valid() && Placed(|mem|) && off + n <= size && at + n <= |mem|
    {
      && |now| == |mem|
      && if op == FromBuffer then Wrote(mem, now, off, mem[at..at + n])
         else now == Splice(mem, at, Gather(mem, off, n))
    }

    /** A transfer that is part of the operation. */
    ghost predicate Covers(op: MemoryOp, t: Transfer, off: nat, at: nat, n: nat)
      requires Valid() && off + n <= size
    {
      Range(t.dst, t.n) <= Written(op, off, at, n) && Range(t.src, t.n) <= Read(op, off, at, n)
    }

    lemma {:induction false} GatherUnchanged(m0: seq<byte>, m1: seq<byte>, off: nat, n: nat)
      requires Valid() && Placed(|m0|) && |m0| <= |m1| && off + n <= size
      requires forall a :: 0 <= a < |m0| && a in Foot(off, n) ==> m1[a] == m0[a]
      ensures Placed(|m1|) && Gather(m1, off, n) == Gather(m0, off, n)
    {
      assert forall i :: off <= i < off + n ==> Loc(i) in Foot(off, n);
    }

    lemma {:induction false} GatherAfterSplice(mem: seq<byte>, at: nat, d: seq<byte>, off: nat, n: nat)
      requires Valid() && Placed(|mem|) && off + n <= size && at + |d| <= |mem|
      requires Foot(off, n) !! Range(at, |d|)
      ensures Gather(Splice(mem, at, d), off, n) == Gather(mem, off, n)
    {
      GatherUnchanged(mem, Splice(mem, at, d), off, n);
    }

    lemma {:induction false} GatherSplit(mem: seq<byte>, off: nat, a: nat, b: nat)
      requires Valid() && Placed(|mem|) && off + a + b <= size
      ensures Gather(mem, off, a + b) == Gather(mem, off, a) + Gather(mem, off + a, b)
    {
    }

    lemma {:induction false} ApartParts(off: nat, at: nat, n: nat, e: nat)
      requires Valid() && off + n + e <= size && Foot(off, n + e) !! Range(at, n + e)
      ensures Foot(off, n) !! Range(at + n, e)
      ensures Foot(off + n, e) !! Range(at, n)
    {
      FootSplit(off, n, e);
      assert Range(at, n) <= Range(at, n + e) && Range(at + n, e) <= Range(at, n + e);
    }

    /** Bytes elsewhere are as they were. */
    lemma {:induction false} BytesKept(m0: seq<byte>, m1: seq<byte>, off: nat, d: seq<byte>, at: nat, e: nat)
      requires Valid() && off + |d| <= size && Wrote(m0, m1, off, d) && at + e <= |m0|
      requires Foot(off, |d|) !! Range(at, e)
      ensures at + e <= |m1| && m1[at..at + e] == m0[at..at + e]
    {
      hide Valid, Placed, Foot, Range;
      assert forall a :: at <= a < at + e ==> a in Range(at, e);
    }

    lemma {:induction false} FromBufferExtend(m0: seq<byte>, m1: seq<byte>, m2: seq<byte>, off: nat, at: nat, n: nat,
        e: nat)
      requires Valid() && Placed(|m0|) && off + n + e <= size && at + n + e <= |m0|
      requires Foot(off, n) !! Range(at + n, e)
      requires Did(FromBuffer, m0, m1, off, at, n) && Did(FromBuffer, m1, m2, off + n, at + n, e)
      ensures Did(FromBuffer, m0, m2, off, at, n + e)
    {
      hide Wrote, Foot, Range, Valid, Placed;
      BytesKept(m0, m1, off, m0[at..at + n], at + n, e);
      assert m0[at..at + n] + m0[at + n..at + n + e] == m0[at..at + n + e];
      WroteExtend(m0, m1, m2, off, m0[at..at + n], m0[at + n..at + n + e]);
    }

    lemma {:induction false} ToBufferExtend(m0: seq<byte>, m1: seq<byte>, off: nat, at: nat, n: nat, e: nat)
      requires Valid() && Placed(|m0|) && off + n + e <= size && at + n + e <= |m0|
      requires Foot(off + n, e) !! Range(at, n)
      requires m1 == Splice(m0, at, Gather(m0, off, n))
      ensures Splice(m1, at + n, Gather(m1, off + n, e)) == Splice(m0, at, Gather(m0, off, n + e))
    {
      hide *;
      GatherAfterSplice(m0, at, Gather(m0, off, n), off + n, e);
      GatherSplit(m0, off, n, e);
      SpliceAppend(m0, at, Gather(m0, off, n), Gather(m0, off + n, e));
    }

    lemma {:induction false} DidExtend(op: MemoryOp, m0: seq<byte>, m1: seq<byte>, m2: seq<byte>, off: nat, at: nat,
        n: nat, e: nat)
      requires Valid() && Placed(|m0|) && off + n + e <= size && at + n + e <= |m0|
      requires Foot(off, n + e) !! Range(at, n + e)
      requires Did(op, m0, m1, off, at, n) && Did(op, m1, m2, off + n, at + n, e)
      ensures Did(op, m0, m2, off, at, n + e)
    {
      ApartParts(off, at, n, e);
      if op == FromBuffer {
        FromBufferExtend(m0, m1, m2, off, at, n, e);
      } else {
        ToBufferExtend(m0, m1, off, at, n, e);
      }
    }

    /** The copy of `n` bytes between the buffer memory at `here` and the block storage at `there`. */
    ghost function Copy(op: MemoryOp, there: nat, here: nat, n: nat): Transfer {
      if op == FromBuffer then Transfer(there, here, n) else Transfer(here, there, n)
    }

    /** One block's share of the operation, whose size, offsets and idle buffer the block demands. */
    method BlockMemoryOp(m: Machine, op: MemoryOp, k: nat, buffer: IOBuffer, n: nat, bufferOffset: nat,
        blockOffset: nat)
      requires Valid() && m.Valid() && m.Owns(buffer) && buffer.state == Idle && Placed(|m.mem|)
      requires k < |blocks| && blockOffset + n <= blocks[k].size && bufferOffset + n <= buffer.size
      requires var t := Copy(op, blocks[k].store + blockOffset, buffer.addr + bufferOffset, n);
        MoveAllowed(m.out, t.dst, t.src, n)
      modifies m`mem, m`trace, m`out, buffer`state
      ensures m.Valid() && m.Owns(buffer)
      ensures var t := Copy(op, blocks[k].store + blockOffset, buffer.addr + bufferOffset, n);
        && m.mem == Moved(old(m.mem), t.dst, t.src, n)
        && (m.out == old(m.out) || m.out == old(m.out)[buffer.id := t])
    {
      hide NoRace, MoveAllowed, Moved, Disciplined, Run, Start, Range, Object.Valid, Machine.Valid;
      var here, there := buffer.addr + bufferOffset, blocks[k].store + blockOffset;
      match op
      case FromBuffer =>
        if blocks[k].onHost {
          m.Memcpy(there, here, n);
        } else {
          m.BufferToAccelerator(buffer, there, n, bufferOffset);
        }
      case ToBuffer =>
        if blocks[k].onHost {
          m.Memcpy(here, there, n);
        } else {
          m.AcceleratorToBuffer(buffer, there, n, bufferOffset);
        }
    }

    /** The operation disturbs no transfer of any other buffer. */
    ghost predicate Clear(out: map<nat, Transfer>, buf: nat, op: MemoryOp, off: nat, at: nat, n: nat)
      requires Valid() && off + n <= size
    {
      && Foot(off, n) !! Range(at, n)
      && NoRace(out - {buf}, Written(op, off, at, n), Read(op, off, at, n))
    }

    lemma {:induction false} ClearApart(out: map<nat, Transfer>, buf: nat, op: MemoryOp, off: nat, at: nat, n: nat)
      requires Valid() && off + n <= size && Clear(out, buf, op, off, at, n)
      ensures Foot(off, n) !! Range(at, n)
    {
    }

    /** One block's share touches only addresses of the whole operation. */
    lemma {:induction false} ShareWithin(k: nat, o: nat, e: nat, off: nat, p: nat, n: nat)
      requires Valid() && k < |blocks| && o + e <= blocks[k].size
      requires off + n <= size && p + e <= n && Start(blocks, k) + o == off + p
      ensures Range(blocks[k].store + o, e) <= Foot(off, n)
    {
      hide *;
      FootInBlock(k, o, e);
      FootSplit(off, p, n - p);
      FootSplit(off + p, e, n - p - e);
    }

    /** One block's share has its flat effect. */
    lemma {:induction false} ShareDid(mem: seq<byte>, op: MemoryOp, k: nat, o: nat, here: nat, e: nat)
      requires Valid() && Placed(|mem|) && k < |blocks| && o + e <= blocks[k].size
      requires here + e <= |mem|
      ensures Start(blocks, k) + o + e <= size && blocks[k].store + o + e <= |mem|
      ensures var t := Copy(op, blocks[k].store + o, here, e);
        Did(op, mem, Moved(mem, t.dst, t.src, e), Start(blocks, k) + o, here, e)
    {
      hide Splice, Gather, Foot, Start, Wrote;
      if op == FromBuffer {
        CopyIntoBlock(mem, k, Start(blocks, k), o, mem[here..here + e]);
      } else {
        CopyOutOfBlock(mem, k, Start(blocks, k), o, e);
      }
    }

    lemma {:induction false} ShareAllowed(out: map<nat, Transfer>, op: MemoryOp, there: nat, here: nat, e: nat,
        buf: nat, off: nat, at: nat, n: nat)
      requires Valid() && off + n <= size && Clear(out, buf, op, off, at, n)
      requires buf !in out && Range(there, e) <= Foot(off, n) && Range(here, e) <= Range(at, n)
      ensures MoveAllowed(out, Copy(op, there, here, e).dst, Copy(op, there, here, e).src, e)
      ensures Covers(op, Copy(op, there, here, e), off, at, n)
    {
      assert out - {buf} == out;
    }

    lemma {:induction false} ApartPrefix(off: nat, at: nat, a: nat, n: nat)
      requires Valid() && off + n <= size && a <= n && Foot(off, n) !! Range(at, n)
      ensures Foot(off, a) !! Range(at, a)
    {
      FootSplit(off, a, n - a);
      assert Range(at, a) <= Range(at, n);
    }

    /**
     From (mem0, out0) to (mem, out): the first `p` of `n` bytes have moved, only the buffer's own transfer
     differs.
     */
    ghost predicate Progress(mem0: seq<byte>, out0: map<nat, Transfer>, mem: seq<byte>, out: map<nat, Transfer>,
        op: MemoryOp, buf: nat, off: nat, at: nat, p: nat, n: nat)
      requires Valid() && Placed(|mem0|) && off + n <= size && at + n <= |mem0| && p <= n
    {
      && Did(op, mem0, mem, off, at, p)
      && out - {buf} == out0 - {buf}
      && (if p == 0 then out == out0 else buf in out ==> Covers(op, out[buf], off, at, n))
    }

    /** What the next share may rely on once the buffer has been waited for. */
    lemma {:induction false} ProgressFacts(mem0: seq<byte>, out0: map<nat, Transfer>, mem: seq<byte>,
        out: map<nat, Transfer>, op: MemoryOp, buf: nat, off: nat, at: nat, p: nat, n: nat)
      requires Valid() && Placed(|mem0|) && off + n <= size && at + n <= |mem0| && p <= n
      requires Clear(out0, buf, op, off, at, n)
      requires Progress(mem0, out0, mem, out, op, buf, off, at, p, n)
      ensures |mem| == |mem0| && Did(op, mem0, mem, off, at, p)
      ensures out - {buf} == out0 - {buf}
      ensures Foot(off, n) !! Range(at, n) && Clear(out - {buf}, buf, op, off, at, n)
      ensures buf !in out - {buf} && (out - {buf}) - {buf} == out0 - {buf}
    {
      assert (out - {buf}) - {buf} == out - {buf};
    }

    /** Performing one block's share on the idle buffer extends the progress by that share. */
    lemma {:induction false} ShareExtends(mem0: seq<byte>, out0: map<nat, Transfer>, mem1: seq<byte>,
        out1: map<nat, Transfer>, out2: map<nat, Transfer>, op: MemoryOp, k: nat, o: nat, e: nat, buf: nat, off: nat,
        at: nat, p: nat, n: nat)
      requires Valid() && Placed(|mem0|) && off + n <= size && at + n <= |mem0| && p + e <= n && e > 0
      requires Foot(off, n) !! Range(at, n) && |mem1| == |mem0|
      requires Did(op, mem0, mem1, off, at, p) && out1 - {buf} == out0 - {buf} && buf !in out1
      requires k < |blocks| && o + e <= blocks[k].size && Start(blocks, k) + o == off + p
      requires Covers(op, Copy(op, blocks[k].store + o, at + p, e), off, at, n)
      requires out2 == out1 || out2 == out1[buf := Copy(op, blocks[k].store + o, at + p, e)]
      ensures blocks[k].store + o + e <= |mem1|
      ensures var t := Copy(op, blocks[k].store + o, at + p, e);
        Progress(mem0, out0, Moved(mem1, t.dst, t.src, e), out2, op, buf, off, at, p + e, n)
    {
      hide Splice, Gather, Foot, Start, Valid, Placed, Wrote, Did, Covers;
      var t := Copy(op, blocks[k].store + o, at + p, e);
      ShareDid(mem1, op, k, o, at + p, e);
      var mem2 := Moved(mem1, t.dst, t.src, e);
      assert Did(op, mem0, mem2, off, at, p + e) by {
        hide *;
        ApartPrefix(off, at, p + e, n);
        DidExtend(op, mem0, mem1, mem2, off, at, p, e);
      }
      assert out2 - {buf} == out0 - {buf};
    }

    /** The body of the loop of MemoryOp: wait for the buffer, then perform one block's share. */
    method MoveShare(m: Machine, op: MemoryOp, k: nat, buffer: IOBuffer, e: nat, bufferOffset: nat, blockOffset: nat,
        ghost mem0: seq<byte>, ghost out0: map<nat, Transfer>, ghost off: nat, ghost p: nat, ghost n: nat)
      requires Valid() && m.Valid() && m.Owns(buffer) && Placed(|mem0|) && off + n <= size && p <= bufferOffset
      requires buffer.addr + (bufferOffset - p) + n <= |mem0| && bufferOffset + e <= buffer.size
      requires Clear(out0, buffer.id, op, off, buffer.addr + (bufferOffset - p), n)
      requires k < |blocks| && blockOffset + e <= blocks[k].size && 0 < e && p + e <= n
      requires Start(blocks, k) + blockOffset == off + p
      requires Progress(mem0, out0, m.mem, m.out, op, buffer.id, off, buffer.addr + (bufferOffset - p), p, n)
      modifies m`mem, m`trace, m`out, buffer`state
      ensures m.Valid() && m.Owns(buffer)
      ensures Progress(mem0, out0, m.mem, m.out, op, buffer.id, off, buffer.addr + (bufferOffset - p), p + e, n)
    {
      hide *;
      ghost var at: nat := buffer.addr + (bufferOffset - p);
      ProgressFacts(mem0, out0, m.mem, m.out, op, buffer.id, off, at, p, n);
      ShareWithin(k, blockOffset, e, off, p, n);
      m.Wait(buffer);
      ghost var mem1, out1 := m.mem, m.out;
      ShareAllowed(m.out, op, blocks[k].store + blockOffset, buffer.addr + bufferOffset, e, buffer.id, off, at, n);
      BlockMemoryOp(m, op, k, buffer, e, bufferOffset, blockOffset);
      ShareExtends(mem0, out0, mem1, out1, m.out, op, k, blockOffset, e, buffer.id, off, at, p, n);
    }

    /**
     Object::memoryOp: the walk over the blocks moves the bytes as one flat copy would, waiting for the
     buffer before each block. At the end at most the transfer of the last block is outstanding.
     */
    method MemoryOp(m: Machine, op: MemoryOp, buffer: IOBuffer, size: nat, bufferOffset: nat, objectOffset: nat)
      requires Valid() && m.Valid() && m.Owns(buffer) && Placed(|m.mem|)
      requires objectOffset + size <= this.size && bufferOffset + size <= buffer.size
      requires Clear(m.out, buffer.id, op, objectOffset, buffer.addr + bufferOffset, size)
      modifies m`mem, m`trace, m`out, buffer`state
      ensures m.Valid() && m.Owns(buffer)
      ensures Progress(old(m.mem), old(m.out), m.mem, m.out,
                       op, buffer.id, objectOffset, buffer.addr + bufferOffset, size, size)
    {
      hide *;
      ghost var mem0, out0 := m.mem, m.out;
      var k: nat, blockOffset: nat := FirstBlock(objectOffset);
      var left, bufferOff := size, bufferOffset;
      m.OwnsFits(buffer);
      NothingDone(mem0, op, objectOffset, buffer.addr + bufferOffset);
      while k < |blocks| && left > 0
        invariant 0 <= left <= size && bufferOff == bufferOffset + (size - left)
        invariant left > 0 ==> k < |blocks| && blockOffset < blocks[k].size
        invariant left > 0 ==> Start(blocks, k) + blockOffset == objectOffset + (size - left)
        invariant m.Valid() && m.Owns(buffer)
        invariant Progress(mem0, out0, m.mem, m.out,
                           op, buffer.id, objectOffset, buffer.addr + bufferOffset, size - left, size)
        decreases left
      {
        var blockSize: nat := blocks[k].size - blockOffset;
        blockSize := if left < blockSize then left else blockSize;
        MoveShare(m, op, k, buffer, blockSize, bufferOff, blockOffset, mem0, out0, objectOffset, size - left, size);
        if blockSize < left {
          NextBlock(k, blockOffset, blockSize);
        }
        blockOffset := 0;
        bufferOff := bufferOff + blockSize;
        left := left - blockSize;
        k := k + 1;
      }
    }

    lemma {:induction false} NothingDone(mem: seq<byte>, op: MemoryOp, off: nat, at: nat)
      requires Valid() && Placed(|mem|) && off <= size && at <= |mem|
      ensures forall out, buf, n :: off + n <= size && at + n <= |mem| ==>
        Progress(mem, out, mem, out, op, buf, off, at, 0, n)
    {
    }

    /** A share that does not end the operation ends its block, and there is a next one. */
    lemma {:induction false} NextBlock(k: nat, o: nat, e: nat)
      requires Valid() && k < |blocks| && o + e == blocks[k].size
      ensures Start(blocks, k + 1) == Start(blocks, k) + o + e
      ensures Start(blocks, k + 1) < size ==> k + 1 < |blocks| && blocks[k + 1].size > 0
    {
    }
  }
}
