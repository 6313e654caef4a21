/**
 The three ways of finding the block of a host address agree: the walk of Object::firstBlock, the lookup
 in the map keyed by end address, and the division of GetBlockAddr. The blocks are those that
 BlockGroup::populateBlocks makes.
 */
module Tiling {
  import opened BlockGroup
  import opened FastPath
  import opened ObjectIndex
  import opened SharedObject
  import opened Wrappers
  import SubBlocks

  /** `o` is the object of a group: its blocks are at the same places as those of the group. */
  ghost predicate Represents(o: Object, blocks: seq<GenericBlock>, addr: nat, size: nat, b: nat) {
    && o.addr == addr && o.size == size && o.blockSize == b && |o.blocks| == |blocks|
    && forall k :: 0 <= k < |blocks| ==> o.blocks[k].addr == blocks[k].addr && o.blocks[k].size == blocks[k].size
  }

  /** The blocks of a group tile its object, which is what the copy routines demand. */
  lemma {:induction false} GroupTilesObject(o: Object, blocks: seq<GenericBlock>, addr: nat, size: nat, b: nat)
    requires Represents(o, blocks, addr, size, b) && b > 0
    requires Chain(blocks, addr, b) && blocks != [] && EndOf(blocks, addr) == addr + size
    ensures o.Valid()
    ensures forall k :: 0 <= k < |blocks| ==> o.blocks[k].addr == o.addr + Start(o.blocks, k)
  {
    forall k | 0 <= k < |blocks|
      ensures o.blocks[k].addr == o.addr + Start(o.blocks, k)
    {
      StartIsOffset(o, blocks, addr, size, b, k);
    }
    assert Start(o.blocks, |blocks|) == Start(o.blocks, |blocks| - 1) + o.blocks[|blocks| - 1].size;
  }

  lemma {:induction false} StartIsOffset(o: Object, blocks: seq<GenericBlock>, addr: nat, size: nat, b: nat, k: nat)
    requires Represents(o, blocks, addr, size, b) && Chain(blocks, addr, b) && k < |blocks|
    ensures o.blocks[k].addr == o.addr + Start(o.blocks, k)
  {
    if k > 0 {
      StartIsOffset(o, blocks, addr, size, b, k - 1);
      assert blocks[k - 1 + 1].addr == blocks[k - 1].addr + b;
    }
  }

  /** The keys of blocks_: the end addresses. */
  ghost function EndKeys(bs: seq<Block>): (r: set<nat>) {
    set k | 0 <= k < |bs| :: bs[k].addr + bs[k].size
  }

  lemma {:induction false} LaterBlock(o: Object, k: nat, j: nat, off: nat)
    requires o.Valid() && Names(o, k, off) && j < |o.blocks| && off < Start(o.blocks, j) + o.blocks[j].size
    ensures Start(o.blocks, k) + o.blocks[k].size <= Start(o.blocks, j) + o.blocks[j].size
  {
    if j < k {
      StartMonotone(o.blocks, j + 1, k);
    } else if k < j {
      StartMonotone(o.blocks, k + 1, j);
    }
  }

  /** No end lies between the offset and the end of the block that the walk finds. */
  lemma {:induction false} NoEarlierEnd(o: Object, off: nat, k: nat, e: nat)
    requires o.Valid() && Names(o, k, off)
    requires forall j :: 0 <= j < |o.blocks| ==> o.blocks[j].addr == o.addr + Start(o.blocks, j)
    requires e in EndKeys(o.blocks) && o.addr + off < e
    ensures o.blocks[k].addr + o.blocks[k].size <= e
  {
    hide Start, Names, Object.Valid;
    NamedInside(o, k, off);
    var j :| 0 <= j < |o.blocks| && e == o.blocks[j].addr + o.blocks[j].size;
    LaterBlock(o, k, j, off);
  }

  /** The block that the walk finds is the one whose end is the upper bound of the end keys. */
  lemma {:induction false} UpperBoundAgrees(o: Object, off: nat, k: nat)
    requires o.Valid() && Names(o, k, off)
    requires forall j :: 0 <= j < |o.blocks| ==> o.blocks[j].addr == o.addr + Start(o.blocks, j)
    ensures UpperBound(EndKeys(o.blocks), o.addr + off) == Some(o.blocks[k].addr + o.blocks[k].size)
  {
    hide Start, Names, Object.Valid, UpperBound;
    NamedInside(o, k, off);
    NamedBlock(o, k, off);
    NamedEnd(o, k, off);
    var key := o.blocks[k].addr + o.blocks[k].size;
    assert key in EndKeys(o.blocks);
    forall e | e in EndKeys(o.blocks) && o.addr + off < e
      ensures key <= e
    {
      NoEarlierEnd(o, off, k, e);
    }
  }

  lemma {:induction false} NamedEnd(o: Object, k: nat, off: nat)
    requires o.Valid() && Names(o, k, off)
    ensures off < Start(o.blocks, k) + o.blocks[k].size
  {
  }

  /** It is the one division finds, and the offset within it is the remainder. */
  lemma {:induction false} DivisionAgrees(o: Object, off: nat, k: nat)
    requires o.Valid() && Names(o, k, off)
    requires o.blocks[k].addr == o.addr + Start(o.blocks, k)
    ensures o.blockSize > 0 && k == off / o.blockSize && off - Start(o.blocks, k) == off % o.blockSize
    ensures o.blocks[k].addr == o.addr + off / o.blockSize * o.blockSize
  {
    hide Start, Names;
    o.BlockSizePositive();
    NamedInside(o, k, off);
    NamedBlock(o, k, off);
    TileStart(o, k);
  }

  /**
   For every offset of the object there is a block that the walk, the upper bound of the end keys and
   division all find, with the same offset within it.
   */
  lemma {:induction false} LookupsAgree(o: Object, off: nat) returns (k: nat)
    requires o.Valid() && off < o.size
    requires forall j :: 0 <= j < |o.blocks| ==> o.blocks[j].addr == o.addr + Start(o.blocks, j)
    ensures Names(o, k, off)
    ensures UpperBound(EndKeys(o.blocks), o.addr + off) == Some(o.blocks[k].addr + o.blocks[k].size)
    ensures o.blockSize > 0 && k == off / o.blockSize && off - Start(o.blocks, k) == off % o.blockSize
    ensures o.blocks[k].addr == o.addr + off / o.blockSize * o.blockSize
  {
    k := SomeBlock(o, off);
    UpperBoundAgrees(o, off, k);
    DivisionAgrees(o, off, k);
  }

  /** GetBlockAddr is the host address of that block, for objects that do not wrap around. */
  lemma {:induction false} BlockAddrIsBlock(g: SubBlocks.Geometry, o: Object, off: nat, k: nat)
    requires o.Valid() && Names(o, k, off) && g.blockSize == o.blockSize > 0 && o.End() < SubBlocks.WORD
    requires o.blocks[k].addr == o.addr + Start(o.blocks, k)
    ensures SubBlocks.GetBlockAddr(g, o.addr, o.addr + off) == o.blocks[k].addr
  {
    hide Start, Names;
    NamedInside(o, k, off);
    DivisionAgrees(o, off, k);
    o.BlockWithin(k);
    NoWrap(o.addr, off, o.blocks[k].addr - o.addr);
  }

  lemma {:induction false} NoWrap(start: nat, off: nat, block: int)
    requires start + off < SubBlocks.WORD && 0 <= block && start + block < SubBlocks.WORD
    ensures (start + off - start) % SubBlocks.WORD == off && (start + block) % SubBlocks.WORD == start + block
  {
  }
}
