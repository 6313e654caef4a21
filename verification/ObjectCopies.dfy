/**
 The copy routines of a shared object. Each one alternates between two I/O buffers whose transfers
 complete asynchronously; each one is proved to act as a single flat copy and to leave no transfer
 outstanding, so that by Machine.EverySchedule its result does not depend on when transfers complete.
 The preconditions of FillBuffer, DrainBuffer and DestroyIOBuffer are the buffer discipline.
 */
module ObjectCopies {
  import opened Bytes
  import opened Transfers
  import opened Machine
  import opened SharedObject

  /** The two buffers of a routine that started when memory had length `len`, and who owns the transfers. */
  ghost predicate Pair(m: Machine, len: nat, a: IOBuffer?, p: IOBuffer?)
    reads m, a, p
  {
    && len <= |m.mem|
    && (a != null ==> m.Owns(a) && len <= a.addr)
    && (p != null ==> m.Owns(p) && len <= p.addr)
    && (a != null && p != null ==> a.id != p.id && Range(a.addr, a.size) !! Range(p.addr, p.size))
    && (forall b :: b in m.out ==> (a != null && b == a.id) || (p != null && b == p.id))
  }

  /** Buffer `b` sends bytes to the offsets [off, off + n) and nowhere else. */
  ghost predicate Sends(out: map<nat, Transfer>, b: IOBuffer?, o: Object, off: nat, n: nat)
    requires o.Valid() && off + n <= o.size
  {
    b != null && b.id in out ==>
      && Range(out[b.id].dst, out[b.id].n) <= o.Foot(off, n)
      && Range(out[b.id].src, out[b.id].n) <= Range(b.addr, b.size)
  }

  lemma {:induction false} FootBelow(o: Object, len: nat, off: nat, n: nat)
    requires o.Valid() && o.Placed(len) && off + n <= o.size
    ensures forall a :: a in o.Foot(off, n) ==> a < len
  {
    forall a | a in o.Foot(off, n)
      ensures a < len
    {
      var i := o.FootElement(off, n, a);
      o.LocPlaced(len);
    }
  }

  /** Two disjoint pieces of one object are stored apart. */
  lemma {:induction false} PiecesApart(o: Object, len: nat, off: nat, n: nat, off': nat, n': nat)
    requires o.Valid() && o.Placed(len) && off + n <= off' && off' + n' <= o.size
    ensures o.Foot(off, n) !! o.Foot(off', n')
  {
    o.FootApart(len, off', n');
    forall a | a in o.Foot(off, n)
      ensures a !in o.Foot(off', n')
    {
      var i := o.FootElement(off, n, a);
    }
  }

  /** The next chunk may be sent while the previous one is still on its way. */
  lemma {:induction false} MaySend(m: Machine, o: Object, len: nat, a: IOBuffer, p: IOBuffer?, off: nat, n: nat, e: nat)
    requires Pair(m, len, a, p) && o.Valid() && o.Placed(len) && off + n + e <= o.size
    requires Sends(m.out, p, o, off, n) && e <= a.size
    ensures o.Clear(m.out, a.id, FromBuffer, off + n, a.addr, e)
  {
    hide Object.Foot, Object.Valid, Object.Placed;
    FootBelow(o, len, off + n, e);
    FootBelow(o, len, off, n);
    PiecesApart(o, len, off, n, off + n, e);
  }

  /** What memory operations on another buffer do not change about `b`. */
  ghost predicate Known(m: Machine, b: IOBuffer?, len: nat, out: map<nat, Transfer>)
    reads m, b
  {
    b != null ==> b.id < m.created && b.addr + b.size <= len && (b.state == Idle <==> b.id !in out)
  }

  lemma {:induction false} PairKnown(m: Machine, len: nat, a: IOBuffer?, p: IOBuffer?)
    requires Pair(m, len, a, p)
    ensures Known(m, a, |m.mem|, m.out) && Known(m, p, |m.mem|, m.out)
    ensures len <= |m.mem| && (a != null ==> m.Owns(a) && len <= a.addr) && (p != null ==> m.Owns(p) && len <= p.addr)
    ensures a != null && p != null ==> a != p
  {
  }

  /** An operation on buffer `a` keeps the pair. */
  lemma {:induction false} PairKept(m: Machine, len: nat, out1: map<nat, Transfer>, len1: nat, a: IOBuffer,
      p: IOBuffer?)
    requires m.Owns(a) && Known(m, p, len1, out1) && len <= len1 <= |m.mem|
    requires len <= a.addr && (p != null ==>
      len <= p.addr && a.id != p.id && Range(a.addr, a.size) !! Range(p.addr, p.size))
    requires m.out - {a.id} == out1 - {a.id}
    requires forall b :: b in out1 ==> b == a.id || (p != null && b == p.id)
    ensures Pair(m, len, a, p)
  {
    forall b | b in m.out && b != a.id
      ensures b in out1
    {
      assert b in m.out - {a.id};
      assert b in out1 - {a.id};
    }
    if p != null {
      assert p.id in m.out <==> p.id in m.out - {a.id};
      assert p.id in out1 <==> p.id in out1 - {a.id};
    }
  }

  /** After a chunk has been sent, only its own transfer and the previous one may be outstanding. */
  lemma {:induction false} Sent(mem1: seq<byte>, out1: map<nat, Transfer>, mem2: seq<byte>, out2: map<nat, Transfer>,
      o: Object, len: nat, a: IOBuffer, p: IOBuffer?, off: nat, n: nat, e: nat)
    requires len <= |mem1| && o.Valid() && o.Placed(len) && off + n + e <= o.size && a.addr + e <= |mem1| && e <= a.size
    requires o.Progress(mem1, out1, mem2, out2, FromBuffer, a.id, off + n, a.addr, e, e)
    requires p != null ==> p.id != a.id
    requires Sends(out1, p, o, off, n) && a.id !in out1
    ensures |mem2| == |mem1| && out2 - {a.id} == out1 - {a.id}
    ensures o.Wrote(mem1, mem2, off + n, mem1[a.addr..a.addr + e])
    ensures Sends(out2, p, o, off, n + e) && Sends(out2, a, o, off, n + e)
  {
    o.FootSplit(off, n, e);
    if p != null && p.id in out2 {
      assert p.id in out2 - {a.id};
      assert p.id in out1 - {a.id};
      assert (out2 - {a.id})[p.id] == (out1 - {a.id})[p.id];
    }
    if a.id in out2 {
      assert Range(a.addr, e) <= Range(a.addr, a.size);
    }
  }

  /** The bytes a buffer holds at its front. */
  ghost predicate Holds(m: Machine, b: IOBuffer, d: seq<byte>)
    reads m
  {
    b.addr + |d| <= |m.mem| && |d| <= b.size && m.mem[b.addr..b.addr + |d|] == d
  }

  /** Object::copyFromBuffer of the next chunk `e`, while the buffer of the previous one may still be busy. */
  method Send(m: Machine, o: Object, a: IOBuffer, p: IOBuffer?, size: nat, objOffset: nat, ghost mem0: seq<byte>,
      ghost off: nat, ghost d: seq<byte>, ghost e: seq<byte>)
    requires m.Valid() && o.Valid() && o.Placed(|mem0|) && Pair(m, |mem0|, a, p)
    requires a.id !in m.out && Holds(m, a, e) && size == |e|
    requires objOffset == off + |d| && objOffset + |e| <= o.size
    requires Sends(m.out, p, o, off, |d|) && o.Wrote(mem0, m.mem, off, d)
    modifies m`mem, m`trace, m`out, a`state
    ensures m.Valid() && Pair(m, |mem0|, a, p) && |m.mem| == |old(m.mem)|
    ensures Sends(m.out, p, o, off, |d + e|) && Sends(m.out, a, o, off, |d + e|)
    ensures o.Wrote(mem0, m.mem, off, d + e)
  {
    hide *;
    ghost var mem1, out1 := m.mem, m.out;
    PairKnown(m, |mem0|, a, p);
    PairApart(m, |mem0|, a, p);
    HoldsFits(m, a, e);
    MaySend(m, o, |mem0|, a, p, off, |d|, |e|);
    o.PlacedMore(|mem0|, |m.mem|);
    o.MemoryOp(m, FromBuffer, a, size, 0, objOffset);
    Sent(mem1, out1, m.mem, m.out, o, |mem0|, a, p, off, |d|, |e|);
    PairKept(m, |mem0|, out1, |mem1|, a, p);
    o.WroteExtend(mem0, mem1, m.mem, off, d, e);
  }

  lemma {:induction false} HoldsFits(m: Machine, b: IOBuffer, d: seq<byte>)
    requires Holds(m, b, d)
    ensures b.addr + |d| <= |m.mem| && |d| <= b.size && m.mem[b.addr..b.addr + |d|] == d
  {
  }

  lemma {:induction false} PairApart(m: Machine, len: nat, a: IOBuffer?, p: IOBuffer?)
    requires Pair(m, len, a, p)
    ensures a != null && p != null ==> a.id != p.id && Range(a.addr, a.size) !! Range(p.addr, p.size)
    ensures forall b :: b in m.out ==> (a != null && b == a.id) || (p != null && b == p.id)
  {
  }

  /** Host bytes outside the offsets being written are still what they were. */
  lemma {:induction false} HostUnchanged(mem0: seq<byte>, mem: seq<byte>, o: Object, off: nat, d: seq<byte>, ptr: nat,
      n: nat)
    requires o.Valid() && off + |d| <= o.size && o.Wrote(mem0, mem, off, d)
    requires ptr + n <= |mem0| && Range(ptr, n) !! o.Foot(off, |d|)
    ensures mem[ptr..ptr + n] == mem0[ptr..ptr + n]
  {
    forall i | ptr <= i < ptr + n
      ensures mem[i] == mem0[i]
    {
      assert i in Range(ptr, n);
    }
  }

  /** Filling a buffer, which lies beyond `len`, changes nothing of the original memory. */
  lemma {:induction false} FillBeyond(mem0: seq<byte>, mem1: seq<byte>, b: IOBuffer, ptr: nat, n: nat, o: Object,
      off: nat, d: seq<byte>)
    requires |mem0| <= b.addr && b.addr + n <= |mem1| && n <= b.size && ptr + n <= |mem1|
    requires o.Valid() && off + |d| <= o.size && o.Wrote(mem0, mem1, off, d)
    ensures var mem2 := Moved(mem1, b.addr, ptr, n);
      && |mem2| == |mem1|
      && o.Wrote(mem0, mem2, off, d)
      && mem2[b.addr..b.addr + n] == mem1[ptr..ptr + n]
  {
    o.LocPlaced(|mem0|);
  }

  /** The idle buffer may be filled while the other one is still sending. */
  lemma {:induction false} MayFill(m: Machine, len: nat, a: IOBuffer?, p: IOBuffer, o: Object, off: nat, n: nat,
      ptr: nat, e: nat)
    requires Pair(m, len, a, p) && o.Valid() && o.Placed(len) && off + n <= o.size
    requires p.id !in m.out && Sends(m.out, a, o, off, n) && e <= p.size
    requires ptr + e <= len && Range(ptr, e) !! o.Foot(off, n)
    ensures MoveAllowed(m.out, p.addr, ptr, e)
  {
    FootBelow(o, len, off, n);
    assert Range(p.addr, e) <= Range(p.addr, p.size);
  }

  lemma {:induction false} PairSwap(m: Machine, len: nat, a: IOBuffer?, p: IOBuffer?)
    requires Pair(m, len, a, p)
    ensures Pair(m, len, p, a)
  {
  }

  lemma {:induction false} SendsLess(out: map<nat, Transfer>, out': map<nat, Transfer>, b: IOBuffer?, o: Object,
      off: nat, n: nat, id: nat)
    requires o.Valid() && off + n <= o.size && Sends(out, b, o, off, n) && out' == out - {id}
    ensures Sends(out', b, o, off, n)
  {
  }

  /** Wait for the passive buffer and overwrite it with the next chunk, while the active one may still be busy. */
  method Load(m: Machine, o: Object, a: IOBuffer?, p: IOBuffer, ptr: nat, size: nat, ghost mem0: seq<byte>,
      ghost off: nat, ghost d: seq<byte>)
    requires m.Valid() && o.Valid() && o.Placed(|mem0|) && Pair(m, |mem0|, a, p)
    requires off + |d| <= o.size && Sends(m.out, a, o, off, |d|) && o.Wrote(mem0, m.mem, off, d)
    requires size <= p.size && ptr + size <= |mem0| && Range(ptr, size) !! o.Foot(off, |d|)
    modifies m`mem, m`trace, m`out, p`state
    ensures m.Valid() && Pair(m, |mem0|, a, p) && |m.mem| == |old(m.mem)|
    ensures p.id !in m.out && Sends(m.out, a, o, off, |d|) && o.Wrote(mem0, m.mem, off, d)
    ensures Holds(m, p, mem0[ptr..ptr + size])
  {
    hide *;
    ghost var mem1, out1 := m.mem, m.out;
    PairKnown(m, |mem0|, a, p);
    PairApart(m, |mem0|, a, p);
    m.Wait(p);
    assert m.out - {p.id} == out1 - {p.id};
    PairKept(m, |mem0|, out1, |mem1|, p, a);
    PairSwap(m, |mem0|, p, a);
    SendsLess(out1, m.out, a, o, off, |d|, p.id);
    MayFill(m, |mem0|, a, p, o, off, |d|, ptr, size);
    FillBeyond(mem0, mem1, p, ptr, size, o, off, d);
    HostUnchanged(mem0, mem1, o, off, d, ptr, size);
    m.FillBuffer(p, ptr, size);
    PairKept(m, |mem0|, out1, |mem1|, p, a);
    PairSwap(m, |mem0|, p, a);
    m.OwnsFits(p);
    HoldsNow(m, p, mem0[ptr..ptr + size]);
  }

  lemma {:induction false} HoldsNow(m: Machine, b: IOBuffer, d: seq<byte>)
    requires b.addr + |d| <= |m.mem| && |d| <= b.size && m.mem[b.addr..b.addr + |d|] == d
    ensures Holds(m, b, d)
  {
  }

  /** Clean up the buffers after they are idle. */
  method Finish(m: Machine, passive: IOBuffer?, active: IOBuffer?, ghost len: nat)
    requires m.Valid() && Pair(m, len, active, passive)
    modifies m`trace, m`out, passive, active
    ensures m.Valid() && m.out == map[]
  {
    if passive != null {
      m.Wait(passive);
      m.DestroyIOBuffer(passive);
    }
    if active != null {
      m.Wait(active);
      m.DestroyIOBuffer(active);
    }
    assert forall b :: b !in m.out;
  }

  /** Create the active buffer, and the passive one when the copy needs more than one chunk. */
  method CreateBuffers(m: Machine, bufSize: nat, both: bool) returns (active: IOBuffer, passive: IOBuffer?)
    requires m.Valid() && m.out == map[]
    modifies m
    ensures m.Valid() && m.out == map[] && fresh(active) && (passive != null ==> fresh(passive))
    ensures Pair(m, |old(m.mem)|, active, passive) && (passive != null <==> both)
    ensures active.size >= bufSize && (passive != null ==> passive.size >= bufSize)
    ensures |old(m.mem)| <= |m.mem| && m.mem[..|old(m.mem)|] == old(m.mem)
  {
    active := m.CreateIOBuffer(bufSize);
    passive := null;
    if both {
      passive := m.CreateIOBuffer(bufSize);
    }
  }

  lemma {:induction false} NothingWritten(mem0: seq<byte>, mem: seq<byte>, o: Object, off: nat)
    requires o.Valid() && o.Placed(|mem0|) && off <= o.size && |mem0| <= |mem| && mem[..|mem0|] == mem0
    ensures o.Wrote(mem0, mem, off, [])
  {
    forall a | 0 <= a < |mem0|
      ensures mem[a] == mem0[a]
    {
      assert mem[..|mem0|][a] == mem0[a];
    }
  }

  lemma {:induction false} NothingSent(b: IOBuffer?, o: Object, off: nat)
    requires o.Valid() && off <= o.size
    ensures Sends(map[], b, o, off, 0)
  {
  }

  lemma {:induction false} StillApart(o: Object, off: nat, n: nat, src: nat, a: nat, b: nat, e: nat)
    requires o.Valid() && off + n <= o.size && Range(src, n) !! o.Foot(off, n)
    requires a <= n && b + e <= n
    ensures Range(src + b, e) !! o.Foot(off, a)
  {
    o.FootSplit(off, a, n - a);
    assert Range(src + b, e) <= Range(src, n);
  }

  /** The host copy that fills the first buffer, before anything is sent. */
  method FirstLoad(m: Machine, o: Object, a: IOBuffer, p: IOBuffer?, src: nat, copySize: nat, ghost mem0: seq<byte>,
      ghost objOffset: nat, ghost size: nat)
    requires m.Valid() && m.out == map[] && Pair(m, |mem0|, a, p)
    requires |mem0| <= |m.mem| && m.mem[..|mem0|] == mem0
    requires o.Valid() && o.Placed(|mem0|) && objOffset + size <= o.size && copySize <= size && copySize <= a.size
    requires src + size <= |mem0| && Range(src, size) !! o.Foot(objOffset, size)
    modifies m`mem, m`trace, m`out, a`state
    ensures m.Valid() && Pair(m, |mem0|, a, p) && a.id !in m.out && o.Wrote(mem0, m.mem, objOffset, [])
    ensures Holds(m, a, mem0[src..src + copySize]) && Sends(m.out, p, o, objOffset, 0)
  {
    hide *;
    NothingWritten(mem0, m.mem, o, objOffset);
    NothingSent(p, o, objOffset);
    PairSwap(m, |mem0|, a, p);
    StillApart(o, objOffset, size, src, 0, 0, copySize);
    Load(m, o, p, a, src, copySize, mem0, objOffset, []);
    PairSwap(m, |mem0|, p, a);
  }

  /** Object::memcpyToObject: the object's bytes become the host bytes, in one flat write. */
  method MemcpyToObject(m: Machine, o: Object, objOffset: nat, src: nat, size: nat)
    requires m.Valid() && m.out == map[] && o.Valid() && o.Placed(|m.mem|)
    requires objOffset + size <= o.size && src + size <= |m.mem|
    requires Range(src, size) !! o.Foot(objOffset, size)
    modifies m
    ensures m.Valid() && m.out == map[]
    ensures o.Wrote(old(m.mem), m.mem, objOffset, old(m.mem)[src..src + size])
  {
    hide *;
    ghost var mem0 := m.mem;
    o.BlockSizePositive();
    var left: nat := size;
    var copySize: nat := if size < o.BlockEnd(objOffset) then size else o.BlockEnd(objOffset);
    var bufSize: nat := if size < o.blockSize then size else o.blockSize;
    var active: IOBuffer?, passive: IOBuffer? := CreateBuffers(m, bufSize, copySize < size);
    FirstLoad(m, o, active, passive, src, copySize, mem0, objOffset, size);
    assert mem0[src..src] == [];
    var ptr, off := src, objOffset;
    while left > 0
      invariant left <= size && ptr == src + (size - left) && off == objOffset + (size - left)
      invariant m.Valid() && Pair(m, |mem0|, active, passive)
      invariant o.Wrote(mem0, m.mem, objOffset, mem0[src..src + (size - left)])
      invariant left > 0 ==> active != null && active.id !in m.out && 0 < copySize <= left
      invariant left > 0 ==> Holds(m, active, mem0[ptr..ptr + copySize])
      invariant left > 0 ==> Sends(m.out, passive, o, objOffset, size - left)
      invariant copySize < left ==> passive != null && passive.size > 0
      invariant active != null ==> fresh(active)
      invariant passive != null ==> fresh(passive)
    {
      ghost var d, e := mem0[src..ptr], mem0[ptr..ptr + copySize];
      HoldsFits(m, active, e);
      Send(m, o, active, passive, copySize, off, mem0, objOffset, d, e);
      assert d + e == mem0[src..ptr + copySize];
      ptr := ptr + copySize;
      left := left - copySize;
      off := off + copySize;
      if left > 0 {
        copySize := if left < passive.size then left else passive.size;
        StillApart(o, objOffset, size, src, size - left, size - left, copySize);
        Load(m, o, active, passive, ptr, copySize, mem0, objOffset, d + e);
      }
      PairSwap(m, |mem0|, active, passive);
      active, passive := passive, active;
    }
    Finish(m, passive, active, |mem0|);
  }

  // ---- reading an object ----

  /** Buffer `b` receives bytes from the offsets [off, off + n) and from nowhere else. */
  ghost predicate Receives(out: map<nat, Transfer>, b: IOBuffer?, o: Object, off: nat, n: nat)
    requires o.Valid() && off + n <= o.size
  {
    b != null && b.id in out ==>
      && Range(out[b.id].dst, out[b.id].n) <= Range(b.addr, b.size)
      && Range(out[b.id].src, out[b.id].n) <= o.Foot(off, n)
  }

  /** `now` is `mem` with the host bytes at `dst` set to `d`; what was allocated later does not matter. */
  ghost predicate HostWrote(mem: seq<byte>, now: seq<byte>, dst: nat, d: seq<byte>) {
    && dst + |d| <= |mem| <= |now|
    && forall a :: 0 <= a < |mem| ==> now[a] == Splice(mem, dst, d)[a]
  }

  /** A piece of the object may be fetched into a buffer while the other one is still receiving. */
  lemma {:induction false} MayFetch(m: Machine, o: Object, len: nat, a: IOBuffer, p: IOBuffer?, off: nat, n: nat,
      off': nat, n': nat)
    requires Pair(m, len, a, p) && o.Valid() && o.Placed(len) && off + n <= o.size && off' + n' <= o.size
    requires Receives(m.out, p, o, off', n') && n <= a.size
    ensures o.Clear(m.out, a.id, ToBuffer, off, a.addr, n)
  {
    FootBelow(o, len, off, n);
    FootBelow(o, len, off', n');
    assert Range(a.addr, n) <= Range(a.addr, a.size);
  }

  lemma {:induction false} Fetched(mem1: seq<byte>, out1: map<nat, Transfer>, mem2: seq<byte>,
      out2: map<nat, Transfer>, o: Object, len: nat, a: IOBuffer, p: IOBuffer?, off: nat, n: nat, off': nat, n': nat)
    requires len <= |mem1| && o.Valid() && o.Placed(len) && off + n <= o.size && off' + n' <= o.size
    requires a.addr + n <= |mem1| && n <= a.size
    requires o.Progress(mem1, out1, mem2, out2, ToBuffer, a.id, off, a.addr, n, n)
    requires p != null ==> p.id != a.id
    requires Receives(out1, p, o, off', n') && a.id !in out1
    ensures out2 - {a.id} == out1 - {a.id} && (n == 0 ==> out2 == out1)
    ensures mem2 == Splice(mem1, a.addr, o.Gather(mem1, off, n))
    ensures Receives(out2, p, o, off', n') && Receives(out2, a, o, off, n)
  {
    if p != null && p.id in out2 {
      assert p.id in out2 - {a.id};
      assert p.id in out1 - {a.id};
      assert (out2 - {a.id})[p.id] == (out1 - {a.id})[p.id];
    }
    if a.id in out2 {
      assert Range(a.addr, n) <= Range(a.addr, a.size);
    }
  }

  /** Writing into a buffer disturbs neither the original memory nor the other buffer. */
  lemma {:induction false} BufferWritten(mem0: seq<byte>, mem1: seq<byte>, a: IOBuffer, p: IOBuffer?, d: seq<byte>,
      e: seq<byte>, dst: nat, done: seq<byte>)
    requires |mem0| <= a.addr && a.addr + |d| <= |mem1| && |d| <= a.size
    requires HostWrote(mem0, mem1, dst, done)
    requires p != null ==> Range(a.addr, a.size) !! Range(p.addr, p.size) && p.addr + |e| <= |mem1| && |e| <= p.size
    requires p != null ==> mem1[p.addr..p.addr + |e|] == e
    ensures var mem2 := Splice(mem1, a.addr, d);
      && HostWrote(mem0, mem2, dst, done)
      && mem2[a.addr..a.addr + |d|] == d
      && (p != null ==> mem2[p.addr..p.addr + |e|] == e)
  {
    var mem2 := Splice(mem1, a.addr, d);
    if p != null {
      forall i | 0 <= i < |e|
        ensures mem2[p.addr..p.addr + |e|][i] == e[i]
      {
        assert mem1[p.addr..p.addr + |e|][i] == e[i];
        assert p.addr + i in Range(p.addr, p.size);
      }
    }
  }

  /** The object's bytes are unaffected by what was written to host memory elsewhere. */
  lemma {:induction false} ObjectUnchanged(mem0: seq<byte>, mem: seq<byte>, o: Object, off: nat, n: nat, dst: nat,
      d: seq<byte>)
    requires o.Valid() && o.Placed(|mem0|) && off + n <= o.size && HostWrote(mem0, mem, dst, d)
    requires Range(dst, |d|) !! o.Foot(off, n)
    ensures o.Placed(|mem|) && o.Gather(mem, off, n) == o.Gather(mem0, off, n)
  {
    o.GatherUnchanged(mem0, mem, off, n);
  }

  /** Object::copyToBuffer of one chunk, while the other buffer `p` may still be receiving its bytes `e`. */
  method Fetch(m: Machine, o: Object, a: IOBuffer, p: IOBuffer?, size: nat, objOffset: nat, ghost mem0: seq<byte>,
      ghost dst: nat, ghost done: seq<byte>, ghost e: seq<byte>, ghost off': nat, ghost n': nat)
    requires m.Valid() && o.Valid() && o.Placed(|mem0|) && Pair(m, |mem0|, a, p)
    requires objOffset + size <= o.size && off' + n' <= o.size && size <= a.size
    requires a.id !in m.out && Receives(m.out, p, o, off', n') && (p != null ==> Holds(m, p, e))
    requires HostWrote(mem0, m.mem, dst, done) && Range(dst, |done|) !! o.Foot(objOffset, size)
    modifies m`mem, m`trace, m`out, a`state
    ensures m.Valid() && Pair(m, |mem0|, a, p) && |m.mem| == |old(m.mem)|
    ensures Receives(m.out, p, o, off', n') && Receives(m.out, a, o, objOffset, size)
    ensures p != null ==> Holds(m, p, e)
    ensures Holds(m, a, o.Gather(mem0, objOffset, size)) && HostWrote(mem0, m.mem, dst, done)
    ensures m.out - {a.id} == old(m.out) - {a.id} && (size == 0 ==> m.out == old(m.out))
  {
    hide *;
    ghost var mem1, out1 := m.mem, m.out;
    PairKnown(m, |mem0|, a, p);
    PairApart(m, |mem0|, a, p);
    m.OwnsFits(a);
    if p != null {
      HoldsFits(m, p, e);
    }
    MayFetch(m, o, |mem0|, a, p, objOffset, size, off', n');
    o.PlacedMore(|mem0|, |m.mem|);
    ObjectUnchanged(mem0, mem1, o, objOffset, size, dst, done);
    o.MemoryOp(m, ToBuffer, a, size, 0, objOffset);
    Fetched(mem1, out1, m.mem, m.out, o, |mem0|, a, p, objOffset, size, off', n');
    BufferWritten(mem0, mem1, a, p, o.Gather(mem0, objOffset, size), e, dst, done);
    PairKept(m, |mem0|, out1, |mem1|, a, p);
    HoldsNow(m, a, o.Gather(mem0, objOffset, size));
    if p != null {
      HoldsNow(m, p, e);
    }
  }

  /** The host may read the idle buffer `a` while the other one is still receiving. */
  lemma {:induction false} MayDrain(m: Machine, len: nat, a: IOBuffer, p: IOBuffer?, o: Object, off: nat, n: nat,
      dst: nat, e: nat)
    requires Pair(m, len, a, p) && o.Valid() && off + n <= o.size && a.id !in m.out && Receives(m.out, p, o, off, n)
    requires e <= a.size && dst + e <= len && Range(dst, e) !! o.Foot(off, n)
    ensures MoveAllowed(m.out, dst, a.addr, e)
  {
    assert Range(a.addr, e) <= Range(a.addr, a.size);
  }

  lemma {:induction false} Drained(mem0: seq<byte>, mem1: seq<byte>, a: IOBuffer, p: IOBuffer?, d: seq<byte>,
      e: seq<byte>, dst: nat, done: seq<byte>)
    requires |mem0| <= a.addr && a.addr + |d| <= |mem1| && mem1[a.addr..a.addr + |d|] == d
    requires dst + |done| + |d| <= |mem0| && HostWrote(mem0, mem1, dst, done)
    requires p != null ==> |mem0| <= p.addr && p.addr + |e| <= |mem1| && mem1[p.addr..p.addr + |e|] == e
    ensures var mem2 := Moved(mem1, dst + |done|, a.addr, |d|);
      && HostWrote(mem0, mem2, dst, done + d)
      && (p != null ==> mem2[p.addr..p.addr + |e|] == e)
  {
  }

  lemma {:induction false} ReceivesLess(out: map<nat, Transfer>, out': map<nat, Transfer>, b: IOBuffer?, o: Object,
      off: nat, n: nat, id: nat)
    requires o.Valid() && off + n <= o.size && Receives(out, b, o, off, n) && out' == out - {id}
    ensures Receives(out', b, o, off, n)
  {
  }

  /** Wait for the active buffer, then copy it to host memory, while the passive one may still be receiving. */
  method Drain(m: Machine, o: Object, a: IOBuffer, p: IOBuffer?, dst: nat, size: nat, ghost mem0: seq<byte>,
      ghost dst0: nat, ghost done: seq<byte>, ghost d: seq<byte>, ghost e: seq<byte>, ghost off: nat, ghost n: nat)
    requires m.Valid() && o.Valid() && o.Placed(|mem0|) && Pair(m, |mem0|, a, p)
    requires off + n <= o.size && Receives(m.out, p, o, off, n)
    requires Holds(m, a, d) && size == |d| && (p != null ==> Holds(m, p, e))
    requires HostWrote(mem0, m.mem, dst0, done) && dst == dst0 + |done| && dst + |d| <= |mem0|
    requires Range(dst, |d|) !! o.Foot(off, n)
    modifies m`mem, m`trace, m`out, a`state
    ensures m.Valid() && Pair(m, |mem0|, a, p) && |m.mem| == |old(m.mem)| && a.id !in m.out
    ensures Receives(m.out, p, o, off, n) && (p != null ==> Holds(m, p, e))
    ensures HostWrote(mem0, m.mem, dst0, done + d) && m.out == old(m.out) - {a.id}
  {
    hide *;
    ghost var mem1, out1 := m.mem, m.out;
    PairKnown(m, |mem0|, a, p);
    PairApart(m, |mem0|, a, p);
    HoldsFits(m, a, d);
    if p != null {
      HoldsFits(m, p, e);
    }
    m.Wait(a);
    assert m.out - {a.id} == out1 - {a.id};
    PairKept(m, |mem0|, out1, |mem1|, a, p);
    ReceivesLess(out1, m.out, p, o, off, n, a.id);
    MayDrain(m, |mem0|, a, p, o, off, n, dst, size);
    Drained(mem0, mem1, a, p, d, e, dst0, done);
    m.DrainBuffer(a, dst, size);
    PairKept(m, |mem0|, out1, |mem1|, a, p);
    if p != null {
      HoldsNow(m, p, e);
    }
  }

  lemma {:induction false} NothingRead(mem0: seq<byte>, mem: seq<byte>, dst: nat, b: IOBuffer?, o: Object, off: nat)
    requires dst <= |mem0| <= |mem| && mem[..|mem0|] == mem0 && o.Valid() && off <= o.size
    ensures HostWrote(mem0, mem, dst, [])
    ensures Receives(map[], b, o, off, 0)
  {
    forall a | 0 <= a < |mem0|
      ensures mem[a] == mem0[a]
    {
      assert mem[..|mem0|][a] == mem0[a];
    }
  }

  lemma {:induction false} PieceApart(o: Object, off: nat, n: nat, dst: nat, a: nat, e: nat, b: nat, f: nat)
    requires o.Valid() && off + n <= o.size && Range(dst, n) !! o.Foot(off, n) && a + e <= n && b + f <= n
    ensures Range(dst + b, f) !! o.Foot(off + a, e)
  {
    o.FootSplit(off, a, n - a);
    o.FootSplit(off + a, e, n - a - e);
    assert Range(dst + b, f) <= Range(dst, n);
  }

  lemma {:induction false} EmptyHeld(m: Machine, len: nat, a: IOBuffer?, p: IOBuffer?)
    requires Pair(m, len, a, p)
    ensures p != null ==> Holds(m, p, [])
    ensures a != null ==> Holds(m, a, [])
  {
  }

  /** A transfer started on `a` leaves the other buffer as idle as it was. */
  lemma {:induction false} OnlyOne(m: Machine, len: nat, a: IOBuffer, p: IOBuffer?, out: map<nat, Transfer>)
    requires Pair(m, len, a, p) && m.out - {a.id} == out - {a.id} && (p != null ==> p.id !in out)
    ensures p != null ==> p.id !in m.out
  {
    assert forall b :: b in m.out && b != a.id ==> b in m.out - {a.id};
  }

  lemma {:induction false} NoneLeft(m: Machine, len: nat, a: IOBuffer, p: IOBuffer?)
    requires Pair(m, len, a, p) && a.id !in m.out
    ensures (p != null ==> p.id !in m.out) ==> m.out == map[]
  {
    assert (p != null ==> p.id !in m.out) ==> forall b :: b !in m.out;
  }

  lemma {:induction false} IdleReceives(out: map<nat, Transfer>, b: IOBuffer?, o: Object, off: nat)
    requires o.Valid() && off <= o.size && (b != null ==> b.id !in out)
    ensures Receives(out, b, o, off, 0)
  {
  }

  /** The copy that fills the first buffer, before anything is drained. */
  method FirstFetch(m: Machine, o: Object, a: IOBuffer, p: IOBuffer?, copySize: nat, objOffset: nat,
      ghost mem0: seq<byte>, ghost dst: nat, ghost size: nat)
    requires m.Valid() && m.out == map[] && Pair(m, |mem0|, a, p)
    requires |mem0| <= |m.mem| && m.mem[..|mem0|] == mem0
    requires o.Valid() && o.Placed(|mem0|) && objOffset + size <= o.size && copySize <= size && copySize <= a.size
    requires dst + size <= |mem0| && Range(dst, size) !! o.Foot(objOffset, size)
    modifies m`mem, m`trace, m`out, a`state
    ensures m.Valid() && Pair(m, |mem0|, a, p) && HostWrote(mem0, m.mem, dst, [])
    ensures Holds(m, a, o.Gather(mem0, objOffset, copySize)) && Receives(m.out, a, o, objOffset, copySize)
    ensures (p != null ==> p.id !in m.out) && (copySize == 0 ==> m.out == map[])
  {
    hide *;
    NothingRead(mem0, m.mem, dst, p, o, objOffset);
    PieceApart(o, objOffset, size, dst, 0, copySize, 0, 0);
    EmptyHeld(m, |mem0|, a, p);
    Fetch(m, o, a, p, copySize, objOffset, mem0, dst, [], [], objOffset, 0);
    OnlyOne(m, |mem0|, a, p, map[]);
  }

  /** Object::memcpyFromObject: the host bytes become the object's bytes, in one flat write. */
  method MemcpyFromObject(m: Machine, o: Object, dst: nat, objOffset: nat, size: nat)
    requires m.Valid() && m.out == map[] && o.Valid() && o.Placed(|m.mem|)
    requires objOffset + size <= o.size && dst + size <= |m.mem|
    requires Range(dst, size) !! o.Foot(objOffset, size)
    modifies m
    ensures m.Valid() && m.out == map[]
    ensures HostWrote(old(m.mem), m.mem, dst, o.Gather(old(m.mem), objOffset, size))
  {
    hide *;
    ghost var mem0 := m.mem;
    o.BlockSizePositive();
    var left: nat := size;
    var copySize: nat := if size < o.BlockEnd(objOffset) then size else o.BlockEnd(objOffset);
    var bufSize: nat := if size < o.blockSize then size else o.blockSize;
    var active: IOBuffer?, passive: IOBuffer? := CreateBuffers(m, bufSize, copySize < size);
    FirstFetch(m, o, active, passive, copySize, objOffset, mem0, dst, size);
    var ptr, off := dst, objOffset;
    while left > 0
      invariant left <= size && ptr == dst + (size - left) && off == objOffset + (size - left)
      invariant m.Valid() && Pair(m, |mem0|, active, passive)
      invariant HostWrote(mem0, m.mem, dst, o.Gather(mem0, objOffset, size - left))
      invariant left == 0 ==> m.out == map[]
      invariant left > 0 ==> active != null && 0 < copySize <= left && (passive != null ==> passive.id !in m.out)
      invariant left > 0 ==> Holds(m, active, o.Gather(mem0, off, copySize))
      invariant left > 0 ==> Receives(m.out, active, o, off, copySize)
      invariant copySize < left ==> passive != null && passive.size > 0
      invariant active != null ==> fresh(active)
      invariant passive != null ==> fresh(passive)
    {
      ghost var done, d := o.Gather(mem0, objOffset, size - left), o.Gather(mem0, off, copySize);
      HoldsFits(m, active, d);
      var previousCopySize := copySize;
      left := left - copySize;
      off := off + copySize;
      ghost var e, n: nat := [], 0;
      PairSwap(m, |mem0|, active, passive);
      if left > 0 {
        copySize := if left < passive.size then left else passive.size;
        e, n := o.Gather(mem0, off, copySize), copySize;
        PieceApart(o, objOffset, size, dst, off - objOffset, copySize, 0, |done|);
        Fetch(m, o, passive, active, copySize, off, mem0, dst, done, d, off - previousCopySize, previousCopySize);
      } else {
        EmptyHeld(m, |mem0|, passive, active);
        IdleReceives(m.out, passive, o, off);
      }
      PieceApart(o, objOffset, size, dst, off - objOffset, n, ptr - dst, previousCopySize);
      PairSwap(m, |mem0|, passive, active);
      Drain(m, o, active, passive, ptr, previousCopySize, mem0, dst, done, d, e, off, n);
      NoneLeft(m, |mem0|, active, passive);
      o.GatherSplit(mem0, objOffset, |done|, previousCopySize);
      ptr := ptr + previousCopySize;
      PairSwap(m, |mem0|, active, passive);
      active, passive := passive, active;
    }
    Discard(m, passive, active, |mem0|);
  }

  /** Give the buffers back without waiting: none of them is busy any more. */
  method Discard(m: Machine, passive: IOBuffer?, active: IOBuffer?, ghost len: nat)
    requires m.Valid() && m.out == map[] && Pair(m, len, active, passive)
  {
    hide Machine.Valid;
    if passive != null {
      m.DestroyIOBuffer(passive);
    }
    if active != null {
      m.DestroyIOBuffer(active);
    }
  }

  // ---- copying between objects ----

  lemma {:induction false} ClearPart(out: map<nat, Transfer>, out': map<nat, Transfer>, id: nat, o: Object, off: nat,
      at: nat, a: nat, e: nat, n: nat)
    requires o.Valid() && off + n <= o.size && a + e <= n
    requires o.Clear(out, id, ToBuffer, off, at, n) && out' - {id} == out - {id}
    ensures o.Clear(out', id, ToBuffer, off + a, at + a, e)
  {
    o.FootSplit(off, a, n - a);
    o.FootSplit(off + a, e, n - a - e);
    assert Range(at + a, e) <= Range(at, n);
  }

  /** A transfer of part of a chunk is a transfer of the chunk. */
  lemma {:induction false} PartReceived(mem1: seq<byte>, out1: map<nat, Transfer>, mem2: seq<byte>,
      out2: map<nat, Transfer>, o: Object, b: IOBuffer, off: nat, a: nat, e: nat, n: nat)
    requires o.Valid() && o.Placed(|mem1|) && off + n <= o.size && a + e <= n <= b.size && b.addr + b.size <= |mem1|
    requires o.Progress(mem1, out1, mem2, out2, ToBuffer, b.id, off + a, b.addr + a, e, e)
    requires Receives(out1, b, o, off, n)
    ensures Receives(out2, b, o, off, n) && out2 - {b.id} == out1 - {b.id}
    ensures |mem2| == |mem1| && o.Did(ToBuffer, mem1, mem2, off + a, b.addr + a, e)
  {
    hide Splice, Object.Gather, Object.Foot, Object.Wrote, Object.Placed, Object.Valid;
    o.FootSplit(off, a, n - a);
    o.FootSplit(off + a, e, n - a - e);
    assert Range(b.addr + a, e) <= Range(b.addr, b.size);
  }

  /** Fill a buffer from the object with one copy, or with two when the chunk crosses a block boundary. */
  method FetchWhole(m: Machine, o: Object, b: IOBuffer, copySize: nat, srcOffset: nat)
    requires m.Valid() && m.Owns(b) && b.id !in m.out && o.Valid() && o.Placed(|m.mem|)
    requires srcOffset + copySize <= o.size && copySize <= b.size
    requires o.Clear(m.out, b.id, ToBuffer, srcOffset, b.addr, copySize)
    modifies m`mem, m`trace, m`out, b`state
    ensures m.Valid() && m.Owns(b) && |m.mem| == |old(m.mem)|
    ensures o.Did(ToBuffer, old(m.mem), m.mem, srcOffset, b.addr, copySize)
    ensures m.out - {b.id} == old(m.out) - {b.id} && Receives(m.out, b, o, srcOffset, copySize)
  {
    hide *;
    ghost var mem0, out0 := m.mem, m.out;
    o.BlockSizePositive();
    m.OwnsFits(b);
    ReceivesIdle(m.out, b, o, srcOffset, copySize);
    if copySize <= o.BlockEnd(srcOffset) {
      o.MemoryOp(m, ToBuffer, b, copySize, 0, srcOffset);
      PartReceived(mem0, out0, m.mem, m.out, o, b, srcOffset, 0, copySize, copySize);
    } else {
      var firstCopySize := o.BlockEnd(srcOffset);
      var secondCopySize := copySize - firstCopySize;
      ClearPart(m.out, m.out, b.id, o, srcOffset, b.addr, 0, firstCopySize, copySize);
      o.MemoryOp(m, ToBuffer, b, firstCopySize, 0, srcOffset);
      PartReceived(mem0, out0, m.mem, m.out, o, b, srcOffset, 0, firstCopySize, copySize);
      ghost var mem1, out1 := m.mem, m.out;
      ClearPart(out0, out1, b.id, o, srcOffset, b.addr, firstCopySize, secondCopySize, copySize);
      o.MemoryOp(m, ToBuffer, b, secondCopySize, firstCopySize, srcOffset + firstCopySize);
      PartReceived(mem1, out1, m.mem, m.out, o, b, srcOffset, firstCopySize, secondCopySize, copySize);
      o.ClearApart(out0, b.id, ToBuffer, srcOffset, b.addr, copySize);
      o.DidExtend(ToBuffer, mem0, mem1, m.mem, srcOffset, b.addr, firstCopySize, secondCopySize);
    }
  }

  lemma {:induction false} ReceivesIdle(out: map<nat, Transfer>, b: IOBuffer, o: Object, off: nat, n: nat)
    requires o.Valid() && off + n <= o.size && b.id !in out
    ensures Receives(out, b, o, off, n)
  {
  }

  /** A piece of the source may be fetched into `p` while `a` is still sending to the destination. */
  lemma {:induction false} MayRefill(m: Machine, len: nat, a: IOBuffer, p: IOBuffer, s: Object, d: Object, off: nat,
      e: nat, off': nat, n': nat)
    requires Pair(m, len, a, p) && s.Valid() && d.Valid() && s.Placed(len) && d.Placed(len)
    requires off + e <= s.size && off' + n' <= d.size && Sends(m.out, a, d, off', n') && e <= p.size
    requires s.Foot(off, e) !! d.Foot(off', n')
    ensures s.Clear(m.out, p.id, ToBuffer, off, p.addr, e)
  {
    FootBelow(s, len, off, e);
    FootBelow(d, len, off', n');
    assert Range(p.addr, e) <= Range(p.addr, p.size);
  }

  /** Writing a chunk into a buffer keeps what the destination has received so far. */
  lemma {:induction false} Refilled(mem0: seq<byte>, mem1: seq<byte>, mem2: seq<byte>, p: IOBuffer, s: Object,
      d: Object, off: nat, e: nat, off': nat, done: seq<byte>)
    requires s.Valid() && d.Valid() && s.Placed(|mem0|) && off + e <= s.size && off' + |done| <= d.size
    requires |mem0| <= p.addr && p.addr + e <= |mem1| && d.Wrote(mem0, mem1, off', done)
    requires s.Placed(|mem1|) && s.Did(ToBuffer, mem1, mem2, off, p.addr, e)
    requires s.Foot(off, e) !! d.Foot(off', |done|)
    ensures d.Wrote(mem0, mem2, off', done)
    ensures mem2[p.addr..p.addr + e] == s.Gather(mem0, off, e)
  {
    d.LocPlaced(|mem0|);
    s.GatherUnchanged(mem0, mem1, off, e);
  }

  lemma {:induction false} SendsKept(out: map<nat, Transfer>, out': map<nat, Transfer>, b: IOBuffer, o: Object,
      off: nat, n: nat, id: nat)
    requires o.Valid() && off + n <= o.size && Sends(out, b, o, off, n) && out' - {id} == out - {id} && b.id != id
    ensures Sends(out', b, o, off, n)
  {
    if b.id in out' {
      assert b.id in out' - {id};
      assert b.id in out - {id};
      assert (out' - {id})[b.id] == (out - {id})[b.id];
    }
  }

  lemma {:induction false} FeetApart(s: Object, d: Object, off: nat, off': nat, n: nat, a: nat, e: nat, b: nat)
    requires s.Valid() && d.Valid() && off + n <= s.size && off' + n <= d.size
    requires s.Foot(off, n) !! d.Foot(off', n) && a + e <= n && b <= n
    ensures s.Foot(off + a, e) !! d.Foot(off', b)
  {
    s.FootSplit(off, a, n - a);
    s.FootSplit(off + a, e, n - a - e);
    d.FootSplit(off', b, n - b);
  }

  /** Wait for the passive buffer and request the next chunk, while the active one may still be sending. */
  method Refill(m: Machine, s: Object, d: Object, a: IOBuffer, p: IOBuffer, copySize: nat, srcOffset: nat,
      ghost mem0: seq<byte>, ghost off': nat, ghost done: seq<byte>)
    requires m.Valid() && Pair(m, |mem0|, a, p)
    requires s.Valid() && d.Valid() && s.Placed(|mem0|) && d.Placed(|mem0|)
    requires srcOffset + copySize <= s.size && copySize <= p.size && off' + |done| <= d.size
    requires Sends(m.out, a, d, off', |done|) && d.Wrote(mem0, m.mem, off', done)
    requires s.Foot(srcOffset, copySize) !! d.Foot(off', |done|)
    modifies m`mem, m`trace, m`out, p`state
    ensures m.Valid() && Pair(m, |mem0|, a, p) && |m.mem| == |old(m.mem)|
    ensures Sends(m.out, a, d, off', |done|) && d.Wrote(mem0, m.mem, off', done)
    ensures Holds(m, p, s.Gather(mem0, srcOffset, copySize))
  {
    hide *;
    ghost var mem1, out1 := m.mem, m.out;
    PairKnown(m, |mem0|, a, p);
    PairApart(m, |mem0|, a, p);
    m.Wait(p);
    assert m.out - {p.id} == out1 - {p.id};
    PairKept(m, |mem0|, out1, |mem1|, p, a);
    PairSwap(m, |mem0|, p, a);
    SendsKept(out1, m.out, a, d, off', |done|, p.id);
    MayRefill(m, |mem0|, a, p, s, d, srcOffset, copySize, off', |done|);
    s.PlacedMore(|mem0|, |m.mem|);
    ghost var out2 := m.out;
    FetchWhole(m, s, p, copySize, srcOffset);
    Refilled(mem0, mem1, m.mem, p, s, d, srcOffset, copySize, off', done);
    SendsKept(out2, m.out, a, d, off', |done|, p.id);
    PairKept(m, |mem0|, out1, |mem1|, p, a);
    PairSwap(m, |mem0|, p, a);
    m.OwnsFits(p);
    HoldsNow(m, p, s.Gather(mem0, srcOffset, copySize));
  }

  /** The chunk must have arrived before it is sent on. */
  method AwaitFull(m: Machine, a: IOBuffer, p: IOBuffer?, d: Object, ghost mem0: seq<byte>, ghost off: nat,
      ghost done: seq<byte>, ghost e: seq<byte>)
    requires m.Valid() && Pair(m, |mem0|, a, p) && d.Valid() && off + |done| <= d.size
    requires Sends(m.out, p, d, off, |done|) && d.Wrote(mem0, m.mem, off, done) && Holds(m, a, e)
    modifies m`trace, m`out, a`state
    ensures m.Valid() && Pair(m, |mem0|, a, p) && a.id !in m.out
    ensures Sends(m.out, p, d, off, |done|) && Holds(m, a, e)
  {
    hide *;
    ghost var mem1, out1 := m.mem, m.out;
    PairKnown(m, |mem0|, a, p);
    PairApart(m, |mem0|, a, p);
    HoldsFits(m, a, e);
    m.Wait(a);
    assert m.out - {a.id} == out1 - {a.id};
    PairKept(m, |mem0|, out1, |mem1|, a, p);
    SendsLess(out1, m.out, p, d, off, |done|, a.id);
    HoldsNow(m, a, e);
  }

  /** The copy that fills the first buffer, before anything is sent. */
  method FirstFill(m: Machine, s: Object, d: Object, a: IOBuffer, p: IOBuffer?, copySize: nat, srcOffset: nat,
      ghost mem0: seq<byte>, ghost dstOffset: nat)
    requires m.Valid() && m.out == map[] && Pair(m, |mem0|, a, p)
    requires |mem0| <= |m.mem| && m.mem[..|mem0|] == mem0
    requires s.Valid() && d.Valid() && s.Placed(|mem0|) && d.Placed(|mem0|)
    requires srcOffset + copySize <= s.size && copySize <= a.size && dstOffset <= d.size
    modifies m`mem, m`trace, m`out, a`state
    ensures m.Valid() && Pair(m, |mem0|, a, p)
    ensures Sends(m.out, p, d, dstOffset, 0) && d.Wrote(mem0, m.mem, dstOffset, [])
    ensures Holds(m, a, s.Gather(mem0, srcOffset, copySize))
  {
    hide *;
    ghost var mem1 := m.mem;
    NothingWritten(mem0, mem1, d, dstOffset);
    PairKnown(m, |mem0|, a, p);
    PairApart(m, |mem0|, a, p);
    QuietClear(s, |mem0|, srcOffset, a, copySize);
    NoFoot(d, dstOffset);
    s.PlacedMore(|mem0|, |m.mem|);
    FetchWhole(m, s, a, copySize, srcOffset);
    Refilled(mem0, mem1, m.mem, a, s, d, srcOffset, copySize, dstOffset, []);
    PairKept(m, |mem0|, map[], |mem1|, a, p);
    OnlyOne(m, |mem0|, a, p, map[]);
    IdleSends(m.out, p, d, dstOffset);
    m.OwnsFits(a);
    HoldsNow(m, a, s.Gather(mem0, srcOffset, copySize));
  }

  lemma {:induction false} NoFoot(o: Object, off: nat)
    requires o.Valid() && off <= o.size
    ensures o.Foot(off, 0) == {}
  {
  }

  lemma {:induction false} IdleSends(out: map<nat, Transfer>, b: IOBuffer?, o: Object, off: nat)
    requires o.Valid() && off <= o.size && (b != null ==> b.id !in out)
    ensures Sends(out, b, o, off, 0)
  {
  }

  lemma {:induction false} QuietClear(o: Object, len: nat, off: nat, b: IOBuffer, n: nat)
    requires o.Valid() && o.Placed(len) && off + n <= o.size && len <= b.addr
    ensures o.Clear(map[], b.id, ToBuffer, off, b.addr, n)
  {
    FootBelow(o, len, off, n);
  }

  /**
   Object::memcpyObjectToObject through two buffers: the destination's bytes become the source's, in one flat
   write.
   */
  method MemcpyBuffered(m: Machine, s: Object, d: Object, dstOffset: nat, srcOffset: nat, size: nat)
    requires m.Valid() && m.out == map[]
    requires s.Valid() && d.Valid() && s.Placed(|m.mem|) && d.Placed(|m.mem|)
    requires srcOffset + size <= s.size && dstOffset + size <= d.size
    requires s.Foot(srcOffset, size) !! d.Foot(dstOffset, size)
    modifies m
    ensures m.Valid() && m.out == map[]
    ensures d.Wrote(old(m.mem), m.mem, dstOffset, s.Gather(old(m.mem), srcOffset, size))
  {
    hide *;
    ghost var mem0 := m.mem;
    d.BlockSizePositive();
    var left: nat := size;
    var copySize: nat := if size < d.BlockEnd(dstOffset) then size else d.BlockEnd(dstOffset);
    var bufSize: nat := if size < d.blockSize then size else d.blockSize;
    var active: IOBuffer, passive: IOBuffer? := CreateBuffers(m, bufSize, copySize < size);
    FirstFill(m, s, d, active, passive, copySize, srcOffset, mem0, dstOffset);
    var dOff, sOff := dstOffset, srcOffset;
    while left > 0
      invariant left <= size && dOff == dstOffset + (size - left) && sOff == srcOffset + (size - left)
      invariant m.Valid() && Pair(m, |mem0|, active, passive)
      invariant d.Wrote(mem0, m.mem, dstOffset, s.Gather(mem0, srcOffset, size - left))
      invariant left > 0 ==> 0 < copySize <= left && Sends(m.out, passive, d, dstOffset, size - left)
      invariant left > 0 ==> Holds(m, active, s.Gather(mem0, sOff, copySize))
      invariant copySize < left ==> passive != null
      invariant active.size >= bufSize && (passive != null ==> passive.size >= bufSize)
      invariant fresh(active) && (passive != null ==> fresh(passive))
    {
      ghost var done, e := s.Gather(mem0, srcOffset, size - left), s.Gather(mem0, sOff, copySize);
      AwaitFull(m, active, passive, d, mem0, dstOffset, done, e);
      Send(m, d, active, passive, copySize, dOff, mem0, dstOffset, done, e);
      s.GatherSplit(mem0, srcOffset, |done|, copySize);
      left := left - copySize;
      sOff := sOff + copySize;
      dOff := dOff + copySize;
      if left > 0 {
        copySize := if left < d.blockSize then left else d.blockSize;
        FeetApart(s, d, srcOffset, dstOffset, size, size - left, copySize, size - left);
        Refill(m, s, d, active, passive, copySize, sOff, mem0, dstOffset, done + e);
        PairSwap(m, |mem0|, active, passive);
        active, passive := passive, active;
      }
    }
    Finish(m, passive, active, |mem0|);
  }

  // ---- filling an object, and the round trip ----

  lemma {:induction false} RepeatedJoin(v: int, a: nat, b: nat)
    ensures Repeated(v, a) + Repeated(v, b) == Repeated(v, a + b)
    ensures Repeated(v, 0) == []
  {
  }

  /** One block's share of a fill. */
  lemma {:induction false} FillShare(mem0: seq<byte>, mem1: seq<byte>, o: Object, k: nat, blockOffset: nat, e: nat,
      off: nat, p: nat, v: int)
    requires o.Valid() && o.Placed(|mem0|) && |mem1| == |mem0| && k < |o.blocks| && blockOffset + e <= o.blocks[k].size
    requires Start(o.blocks, k) + blockOffset == off + p && off + p + e <= o.size
    requires o.Wrote(mem0, mem1, off, Repeated(v, p))
    ensures o.blocks[k].store + blockOffset + e <= |mem1|
    ensures o.Wrote(mem0, Splice(mem1, o.blocks[k].store + blockOffset, Repeated(v, e)), off, Repeated(v, p + e))
  {
    hide Start, Splice, Object.Foot, Object.Wrote;
    o.CopyIntoBlock(mem1, k, Start(o.blocks, k), blockOffset, Repeated(v, e));
    o.WroteExtend(mem0, mem1, Splice(mem1, o.blocks[k].store + blockOffset, Repeated(v, e)), off, Repeated(v, p),
      Repeated(v, e));
    RepeatedJoin(v, p, e);
  }

  /** The bytes of a range of an object that lie within the object. */
  function Clipped(o: Object, offset: nat, size: nat): (n: nat)
    ensures offset <= o.size ==> offset + n <= o.size
    ensures offset + size <= o.size ==> n == size
  {
    if offset >= o.size then 0 else if size < o.size - offset then size else o.size - offset
  }

  function ClippedOffset(o: Object, offset: nat): (r: nat)
    ensures r <= o.size && (offset <= o.size ==> r == offset)
  {
    if offset < o.size then offset else o.size
  }

  /** Object::memset: the walk over the blocks is one flat fill, which stops at the end of the object. */
  method Memset(m: Machine, o: Object, offset: nat, v: int, size: nat)
    requires m.Valid() && m.out == map[] && o.Valid() && o.Placed(|m.mem|)
    modifies m`mem, m`trace, m`out
    ensures m.Valid() && m.out == map[] && |m.mem| == |old(m.mem)|
    ensures o.Wrote(old(m.mem), m.mem, ClippedOffset(o, offset), Repeated(v, Clipped(o, offset, size)))
  {
    hide Start, Splice, Object.Foot, Object.Wrote, Object.Valid, Object.Placed, Machine.Valid, Repeated, Clipped;
    ghost var mem0, at, total := m.mem, ClippedOffset(o, offset), Clipped(o, offset, size);
    var k: nat, blockOffset: nat := o.FirstBlock(offset);
    var left := size;
    ClippedFacts(o, offset, size);
    RepeatedJoin(v, 0, 0);
    assert m.mem[..|mem0|] == mem0;
    NothingWritten(mem0, m.mem, o, at);
    while k < |o.blocks| && left > 0
      invariant 0 <= left <= size && (k < |o.blocks| && left > 0 ==> size - left < total)
      invariant size - left < total ==> k < |o.blocks| && blockOffset < o.blocks[k].size
      invariant size - left < total ==> Start(o.blocks, k) + blockOffset == at + (size - left)
      invariant m.Valid() && m.out == map[] && |m.mem| == |mem0| && size - left <= total
      invariant o.Wrote(mem0, m.mem, at, Repeated(v, size - left))
      decreases left
    {
      var blockSize: nat := o.blocks[k].size - blockOffset;
      blockSize := if left < blockSize then left else blockSize;
      BlockShare(o, k, blockOffset, blockSize, offset, size, size - left);
      FillShare(mem0, m.mem, o, k, blockOffset, blockSize, at, size - left, v);
      m.Memset(o.blocks[k].store + blockOffset, v, blockSize);
      blockOffset := 0;
      left := left - blockSize;
      k := k + 1;
    }
  }

  lemma {:induction false} ClippedFacts(o: Object, offset: nat, size: nat)
    requires o.Valid()
    ensures Clipped(o, offset, size) <= size && (offset >= o.size ==> Clipped(o, offset, size) == 0)
    ensures offset < o.size && size > 0 ==> Clipped(o, offset, size) > 0
    ensures ClippedOffset(o, offset) + Clipped(o, offset, size) <= o.size
  {
  }

  /** One block's share of a fill is within the object; after it comes the next block, or the fill is over. */
  lemma {:induction false} BlockShare(o: Object, k: nat, blockOffset: nat, e: nat, offset: nat, size: nat, done: nat)
    requires o.Valid() && k < |o.blocks| && blockOffset < o.blocks[k].size && done < Clipped(o, offset, size)
    requires Start(o.blocks, k) + blockOffset == offset + done
    requires e == if size - done < o.blocks[k].size - blockOffset then size - done else o.blocks[k].size - blockOffset
    ensures done + e <= Clipped(o, offset, size) && offset + done + e <= o.size
    ensures done + e < Clipped(o, offset, size) ==> k + 1 < |o.blocks| && 0 < o.blocks[k + 1].size
    ensures done + e < Clipped(o, offset, size) ==> Start(o.blocks, k + 1) == offset + done + e
    ensures k + 1 < |o.blocks| && size - done - e > 0 ==> done + e < Clipped(o, offset, size)
  {
    o.BlockWithin(k);
    if k + 1 < |o.blocks| {
      o.BlockWithin(k + 1);
    }
  }

  /** What was written to the object is what is gathered from it. */
  lemma {:induction false} GatherWrote(o: Object, mem0: seq<byte>, mem1: seq<byte>, off: nat, d: seq<byte>)
    requires o.Valid() && off + |d| <= o.size && o.Wrote(mem0, mem1, off, d)
    ensures o.Placed(|mem1|) && o.Gather(mem1, off, |d|) == d
  {
    forall i | 0 <= i < |d|
      ensures o.Gather(mem1, off, |d|)[i] == d[i]
    {
      assert o.Loc(off + i) < |mem1| && mem1[o.Loc(off + i)] == d[off + i - off];
    }
  }

  /** The contents of an object do not depend on host bytes stored elsewhere. */
  lemma {:induction false} ContentsKept(o: Object, mem0: seq<byte>, mem1: seq<byte>, dst: nat, d: seq<byte>)
    requires o.Valid() && o.Placed(|mem0|) && HostWrote(mem0, mem1, dst, d)
    requires Range(dst, |d|) !! o.Foot(0, o.size)
    ensures o.Placed(|mem1|) && o.Contents(mem1) == o.Contents(mem0)
  {
    o.GatherUnchanged(mem0, mem1, 0, o.size);
  }

  /**
   Writing host bytes into an object and reading them back at the same offset returns the original
   bytes, and every other byte of the object is what it was.
   */
  method RoundTrip(m: Machine, o: Object, objOffset: nat, src: nat, dst: nat, size: nat)
    requires m.Valid() && m.out == map[] && o.Valid() && o.Placed(|m.mem|)
    requires objOffset + size <= o.size && src + size <= |m.mem| && dst + size <= |m.mem|
    requires Range(src, size) !! o.Foot(0, o.size) && Range(dst, size) !! o.Foot(0, o.size)
    modifies m
    ensures m.Valid() && m.out == map[] && |old(m.mem)| <= |m.mem| && o.Placed(|m.mem|)
    ensures m.mem[dst..dst + size] == old(m.mem[src..src + size])
    ensures o.Contents(m.mem) == Splice(o.Contents(old(m.mem)), objOffset, old(m.mem[src..src + size]))
  {
    hide Start, Splice, Object.Gather, Object.Foot, Object.Valid, Object.Placed, Machine.Valid, Object.Contents,
         Object.Wrote;
    ghost var mem0, data := m.mem, m.mem[src..src + size];
    o.FootSplit(0, objOffset, o.size - objOffset);
    o.FootSplit(objOffset, size, o.size - objOffset - size);
    MemcpyToObject(m, o, objOffset, src, size);
    ghost var mem1 := m.mem;
    o.WroteContents(mem0, mem1, objOffset, data);
    GatherWrote(o, mem0, mem1, objOffset, data);
    WroteGrows(o, mem0, mem1, objOffset, data);
    MemcpyFromObject(m, o, dst, objOffset, size);
    ContentsKept(o, mem1, m.mem, dst, data);
    assert m.mem[dst..dst + size] == data;
  }

  lemma {:induction false} WroteGrows(o: Object, mem0: seq<byte>, mem1: seq<byte>, off: nat, d: seq<byte>)
    requires o.Valid() && off + |d| <= o.size && o.Wrote(mem0, mem1, off, d)
    ensures |mem0| <= |mem1|
  {
  }
}
