/**
 The memory manager. The program names bytes by host address; the bytes of a shared object live in the
 storage of its blocks, all other bytes at their own address. `View` is the memory the program sees.
 memcpy and memset over ranges that mix host memory and objects are proved to be flat operations on it.
 */
module Manager {
  import opened Bytes
  import opened Transfers
  import opened Machine
  import opened SharedObject
  import opened ObjectCopies
  import opened ObjectIndex
  import opened FastPath
  import opened Wrappers

  /**
   The address space: host addresses are below `top`, block storages are not; objects are disjoint, and
   so are their storages.
   */
  ghost predicate Layout(entries: map<nat, Object>, top: nat, len: nat) {
    && Index(entries) && top <= len
    && (forall e :: e in entries ==>
          && entries[e].Valid() && entries[e].Placed(len) && entries[e].End() <= top
          && (forall i :: 0 <= i < entries[e].size ==> top <= entries[e].Loc(i)))
    && (forall e, f :: e in entries && f in entries && e != f ==>
          && entries[e].blockSize == entries[f].blockSize
          && entries[e].Foot(0, entries[e].size) !! entries[f].Foot(0, entries[f].size))
  }

  /** Where the byte the program names `a` is stored. */
  ghost function Where(entries: map<nat, Object>, top: nat, len: nat, a: nat): (r: nat)
    requires Layout(entries, top, len) && a < top
    ensures r < len
  {
    match MapFind(entries, a, 0)
    case None => a
    case Some(o) =>
      FindContaining(entries, a, o);
      assert entries[o.End()] == o;
      o.LocPlaced(len);
      o.Loc(a - o.addr)
  }

  ghost function View(entries: map<nat, Object>, top: nat, mem: seq<byte>): (r: seq<byte>)
    requires Layout(entries, top, |mem|)
    ensures |r| == top
    ensures forall a :: 0 <= a < top ==> r[a] == mem[Where(entries, top, |mem|, a)]
  {
    seq(top, a requires 0 <= a < top => mem[Where(entries, top, |mem|, a)])
  }

  /** No byte of [a, a + n) belongs to an object. */
  ghost predicate Free(entries: map<nat, Object>, a: nat, n: nat) {
    forall x :: a <= x < a + n ==> MapFind(entries, x, 0) == None
  }

  lemma {:induction false} WhereInObject(entries: map<nat, Object>, top: nat, len: nat, o: Object, i: nat)
    requires Layout(entries, top, len) && o in entries.Values && i < o.size
    ensures o.Valid() && o.addr + i < top && Where(entries, top, len, o.addr + i) == o.Loc(i)
    ensures top <= o.Loc(i) < len
  {
    hide Object.Foot, Object.Valid, Object.Placed, MapFind, Apart;
    assert entries[o.End()] == o;
    FindContaining(entries, o.addr + i, o);
    o.LocPlaced(len);
  }

  lemma {:induction false} LayoutMore(entries: map<nat, Object>, top: nat, len: nat, more: nat)
    requires Layout(entries, top, len) && len <= more
    ensures Layout(entries, top, more)
    ensures forall a :: 0 <= a < top ==> Where(entries, top, more, a) == Where(entries, top, len, a)
  {
    hide Object.Foot, Object.Valid, Object.Loc;
  }

  lemma {:induction false} WhereInHost(entries: map<nat, Object>, top: nat, len: nat, a: nat)
    requires Layout(entries, top, len) && a < top && MapFind(entries, a, 0) == None
    ensures Where(entries, top, len, a) == a
  {
  }

  /** Reading host bytes. */
  lemma {:induction false} ViewHost(entries: map<nat, Object>, top: nat, mem: seq<byte>, a: nat, n: nat)
    requires Layout(entries, top, |mem|) && a + n <= top && Free(entries, a, n)
    ensures View(entries, top, mem)[a..a + n] == mem[a..a + n]
  {
    hide Where, Index, Object.Valid, Object.Placed, Object.Loc, Object.Foot;
    var v, h := View(entries, top, mem)[a..a + n], mem[a..a + n];
    forall k | 0 <= k < n
      ensures v[k] == h[k]
    {
      WhereInHost(entries, top, |mem|, a + k);
    }
  }

  /** Reading bytes of an object. */
  lemma {:induction false} ViewObject(entries: map<nat, Object>, top: nat, mem: seq<byte>, o: Object, off: nat, n: nat)
    requires Layout(entries, top, |mem|) && o in entries.Values && off + n <= o.size
    ensures o.Valid() && o.Placed(|mem|) && o.addr + off + n <= top
    ensures View(entries, top, mem)[o.addr + off..o.addr + off + n] == o.Gather(mem, off, n)
  {
    hide Where, Object.Loc, Object.Foot;
    assert entries[o.End()] == o;
    var v, g := View(entries, top, mem)[o.addr + off..o.addr + off + n], o.Gather(mem, off, n);
    forall k | 0 <= k < n
      ensures v[k] == g[k]
    {
      WhereInObject(entries, top, |mem|, o, off + k);
      assert g[off + k - off] == mem[o.Loc(off + k)];
    }
  }

  /** Writing host bytes. */
  lemma {:induction false} ViewHostWritten(entries: map<nat, Object>, top: nat, mem: seq<byte>, now: seq<byte>,
      dst: nat, d: seq<byte>)
    requires Layout(entries, top, |mem|) && dst + |d| <= top && Free(entries, dst, |d|)
    requires HostWrote(mem, now, dst, d)
    ensures Layout(entries, top, |now|)
    ensures View(entries, top, now) == Splice(View(entries, top, mem), dst, d)
  {
    hide Layout;
    LayoutMore(entries, top, |mem|, |now|);
    var v, w := View(entries, top, mem), View(entries, top, now);
    forall a | 0 <= a < top
      ensures w[a] == Splice(v, dst, d)[a]
    {
      HostByteWritten(entries, top, mem, now, dst, d, a);
    }
  }

  lemma {:induction false} HostByteWritten(entries: map<nat, Object>, top: nat, mem: seq<byte>, now: seq<byte>,
      dst: nat, d: seq<byte>, a: nat)
    requires Layout(entries, top, |mem|) && dst + |d| <= top && Free(entries, dst, |d|)
    requires HostWrote(mem, now, dst, d) && a < top
    ensures now[Where(entries, top, |mem|, a)]
      == if dst <= a < dst + |d| then d[a - dst] else mem[Where(entries, top, |mem|, a)]
  {
    hide Object.Foot, Object.Valid, Object.Placed, Object.Loc, Apart;
    if MapFind(entries, a, 0) == None {
      WhereInHost(entries, top, |mem|, a);
    } else {
      var o := MapFind(entries, a, 0).value;
      FindContaining(entries, a, o);
      WhereInObject(entries, top, |mem|, o, a - o.addr);
    }
  }

  /** Writing bytes of an object. */
  lemma {:induction false} ViewObjectWritten(entries: map<nat, Object>, top: nat, mem: seq<byte>, now: seq<byte>,
      o: Object, off: nat, d: seq<byte>)
    requires Layout(entries, top, |mem|) && o in entries.Values && o.Valid() && off + |d| <= o.size
    requires o.Wrote(mem, now, off, d)
    ensures Layout(entries, top, |now|) && o.addr + off + |d| <= top
    ensures View(entries, top, now) == Splice(View(entries, top, mem), o.addr + off, d)
  {
    hide Layout;
    LayoutMore(entries, top, |mem|, |now|);
    ObjectBelow(entries, top, |mem|, o);
    var v, w := View(entries, top, mem), View(entries, top, now);
    forall a | 0 <= a < top
      ensures w[a] == Splice(v, o.addr + off, d)[a]
    {
      ObjectByteWritten(entries, top, mem, now, o, off, d, a);
    }
  }

  lemma {:induction false} ObjectBelow(entries: map<nat, Object>, top: nat, len: nat, o: Object)
    requires Layout(entries, top, len) && o in entries.Values
    ensures o.Valid() && o.Placed(len) && o.End() <= top <= len && entries[o.End()] == o
    ensures forall i :: 0 <= i < o.size ==> top <= o.Loc(i)
  {
    assert entries[o.End()] == o;
  }

  lemma {:induction false} WroteFacts(o: Object, mem: seq<byte>, now: seq<byte>, off: nat, d: seq<byte>)
    requires o.Valid() && off + |d| <= o.size && o.Wrote(mem, now, off, d)
    ensures |mem| <= |now|
    ensures forall i :: off <= i < off + |d| ==> o.Loc(i) < |mem| && now[o.Loc(i)] == d[i - off]
    ensures forall a :: 0 <= a < |mem| && a !in o.Foot(off, |d|) ==> now[a] == mem[a]
  {
  }

  lemma {:induction false} IndexOf(entries: map<nat, Object>, top: nat, len: nat)
    requires Layout(entries, top, len)
    ensures Index(entries)
  {
  }

  lemma {:induction false} EndIs(o: Object)
    ensures o.End() == o.addr + o.size
  {
  }

  /** A byte outside all objects is outside `o`. */
  lemma {:induction false} HostOutside(entries: map<nat, Object>, top: nat, len: nat, o: Object, a: nat)
    requires Layout(entries, top, len) && o in entries.Values && MapFind(entries, a, 0) == None
    ensures !(o.addr <= a < o.addr + o.size)
  {
    hide Layout;
    IndexOf(entries, top, len);
    FindContaining(entries, a, o);
  }

  lemma {:induction false} AboveTop(o: Object, off: nat, n: nat, top: nat)
    requires o.Valid() && off + n <= o.size && forall i :: 0 <= i < o.size ==> top <= o.Loc(i)
    ensures forall x :: x in o.Foot(off, n) ==> top <= x
  {
    forall x | x in o.Foot(off, n)
      ensures top <= x
    {
      var i := o.FootElement(off, n, x);
    }
  }

  /** Another object has other addresses and other storage. */
  lemma {:induction false} OtherObject(entries: map<nat, Object>, top: nat, len: nat, o: Object, p: Object, off: nat,
      n: nat)
    requires Layout(entries, top, len) && o in entries.Values && p in entries.Values && o != p
    requires o.Valid() && off + n <= o.size
    ensures p.addr + p.size <= o.addr || o.addr + o.size <= p.addr
    ensures p.Valid() && o.Foot(off, n) !! p.Foot(0, p.size) && o.blockSize == p.blockSize
  {
    hide Object.Foot, Object.Valid, Object.Placed, Object.Loc;
    assert entries[o.End()] == o && entries[p.End()] == p;
    FootPart(o, off, n);
  }

  lemma {:induction false} ObjectByteWritten(entries: map<nat, Object>, top: nat, mem: seq<byte>, now: seq<byte>,
      o: Object, off: nat, d: seq<byte>, a: nat)
    requires Layout(entries, top, |mem|) && o in entries.Values && o.Valid() && off + |d| <= o.size
    requires o.Wrote(mem, now, off, d) && a < top
    ensures now[Where(entries, top, |mem|, a)]
      == if o.addr + off <= a < o.addr + off + |d| then d[a - (o.addr + off)] else mem[Where(entries, top, |mem|, a)]
  {
    hide *;
    ObjectBelow(entries, top, |mem|, o);
    WroteFacts(o, mem, now, off, d);
    if MapFind(entries, a, 0) == None {
      WhereInHost(entries, top, |mem|, a);
      HostOutside(entries, top, |mem|, o, a);
      AboveTop(o, off, |d|, top);
    } else {
      var p := MapFind(entries, a, 0).value;
      IndexOf(entries, top, |mem|);
      FindContaining(entries, a, p);
      EndIs(p);
      WhereInObject(entries, top, |mem|, p, a - p.addr);
      if p == o {
        o.FootApart(|mem|, off, |d|);
      } else {
        OtherObject(entries, top, |mem|, o, p, off, |d|);
        assert p.Loc(a - p.addr) in p.Foot(0, p.size);
      }
    }
  }

  // ---- Manager::memcpy ----

  /** hostMemory: the bytes at the start of a range that are host memory, given the first object of the range. */
  function HostMemory(addr: nat, size: nat, obj: Option<Object>): nat {
    match obj
    case None => size
    case Some(o) => if addr < o.addr then o.addr - addr else 0
  }

  /** The next object involved, looked up once the copy is past the end of the current one. */
  function NextObject(entries: map<nat, Object>, obj: Option<Object>, addr: nat, left: nat): Option<Object> {
    if obj.Some? && obj.value.End() < addr then MapFind(entries, addr, left) else obj
  }

  /** The range does not run past the end of its first object. */
  ghost predicate Within(entries: map<nat, Object>, addr: nat, size: nat) {
    var o := MapFind(entries, addr, size);
    o.Some? ==> addr + size <= o.value.End()
  }

  /** `now` is `mem`, as the program sees them, after copying `n` bytes from `src` to `dst`. */
  ghost predicate Copied(entries: map<nat, Object>, top: nat, mem: seq<byte>, now: seq<byte>, dst: nat, src: nat,
      n: nat) {
    && dst + n <= top && src + n <= top
    && Layout(entries, top, |mem|) && Layout(entries, top, |now|)
    && View(entries, top, now) == Moved(View(entries, top, mem), dst, src, n)
  }

  /** Where a range is within its first object, and where before it. */
  lemma {:induction false} RangeParts(entries: map<nat, Object>, addr: nat, size: nat, offset: nat)
    requires Index(entries) && Within(entries, addr, size) && offset < size
    ensures var obj := MapFind(entries, addr, size);
      var host := HostMemory(addr + offset, size - offset, obj);
      && NextObject(entries, obj, addr + offset, size - offset) == obj
      && host <= size - offset
      && Free(entries, addr + offset, host)
      && (host == 0 ==>
            && obj.Some? && obj.value in entries.Values
            && obj.value.addr <= addr + offset && addr + size <= obj.value.End())
  {
    var obj := MapFind(entries, addr, size);
    var host := HostMemory(addr + offset, size - offset, obj);
    forall x | addr + offset <= x < addr + offset + host
      ensures MapFind(entries, x, 0) == None
    {
      FirstIsLowest(entries, addr, size, x);
    }
  }

  /** Below the first object of a range there is no object. */
  lemma {:induction false} FirstIsLowest(entries: map<nat, Object>, addr: nat, size: nat, x: nat)
    requires Index(entries) && addr <= x < addr + size
    requires var obj := MapFind(entries, addr, size); obj.Some? ==> x < obj.value.addr
    ensures MapFind(entries, x, 0) == None
  {
    var p := MapFind(entries, x, 0);
    if p.Some? {
      FindContaining(entries, x, p.value);
      assert entries[p.value.End()] == p.value;
    }
  }

  method HostToHost(m: Machine, ghost entries: map<nat, Object>, ghost top: nat, dst: nat, src: nat, n: nat)
    requires m.Valid() && m.out == map[] && Layout(entries, top, |m.mem|) && dst + n <= top && src + n <= top
    requires Free(entries, dst, n) && Free(entries, src, n) && (dst + n <= src || src + n <= dst)
    modifies m
    ensures m.Valid() && m.out == map[] && Copied(entries, top, old(m.mem), m.mem, dst, src, n)
  {
    hide Layout, View, Free, Machine.Valid;
    ghost var mem0 := m.mem;
    TopBelow(entries, top, |m.mem|);
    m.Memcpy(dst, src, n);
    assert HostWrote(mem0, m.mem, dst, mem0[src..src + n]);
    ViewHost(entries, top, mem0, src, n);
    ViewHostWritten(entries, top, mem0, m.mem, dst, mem0[src..src + n]);
  }

  lemma {:induction false} TopBelow(entries: map<nat, Object>, top: nat, len: nat)
    requires Layout(entries, top, len)
    ensures top <= len
  {
  }

  /** Host addresses are not storage. */
  lemma {:induction false} HostApart(entries: map<nat, Object>, top: nat, len: nat, o: Object, off: nat, n: nat,
      a: nat, e: nat)
    requires Layout(entries, top, len) && o in entries.Values && o.Valid() && off + n <= o.size && a + e <= top
    ensures Range(a, e) !! o.Foot(off, n)
  {
    hide Object.Valid, Object.Foot, Object.Loc, Object.Placed, Layout;
    ObjectBelow(entries, top, len, o);
    AboveTop(o, off, n, top);
  }

  method ObjectToHost(m: Machine, entries: map<nat, Object>, ghost top: nat, o: Object, dst: nat, src: nat, n: nat)
    requires m.Valid() && m.out == map[] && Layout(entries, top, |m.mem|) && dst + n <= top
    requires Free(entries, dst, n) && o in entries.Values && o.addr <= src && src + n <= o.addr + o.size
    modifies m
    ensures m.Valid() && m.out == map[] && Copied(entries, top, old(m.mem), m.mem, dst, src, n)
  {
    hide Layout, View, Free, Machine.Valid, Object.Valid, Object.Placed, Object.Gather, Object.Foot, HostWrote,
         Copied, Range, Splice;
    ghost var mem0 := m.mem;
    ObjectBelow(entries, top, |m.mem|, o);
    var srcObjectOffset := src - o.addr;
    HostApart(entries, top, |m.mem|, o, srcObjectOffset, n, dst, n);
    MemcpyFromObject(m, o, dst, srcObjectOffset, n);
    ViewCopiedOut(entries, top, mem0, m.mem, o, dst, srcObjectOffset, n);
  }

  /** Bytes gathered from an object and written to host memory are copied in the flat view. */
  lemma {:induction false} ViewCopiedOut(entries: map<nat, Object>, top: nat, mem: seq<byte>, now: seq<byte>,
      o: Object, dst: nat, off: nat, n: nat)
    requires Layout(entries, top, |mem|) && o in entries.Values && o.Valid() && o.Placed(|mem|)
    requires off + n <= o.size && dst + n <= top && Free(entries, dst, n) &&
      HostWrote(mem, now, dst, o.Gather(mem, off, n))
    ensures Copied(entries, top, mem, now, dst, o.addr + off, n)
  {
    hide Layout, View, Free, Splice, Object.Valid, Object.Placed, Object.Gather, HostWrote;
    ViewObject(entries, top, mem, o, off, n);
    ViewHostWritten(entries, top, mem, now, dst, o.Gather(mem, off, n));
  }

  method HostToObject(m: Machine, entries: map<nat, Object>, ghost top: nat, o: Object, dst: nat, src: nat, n: nat)
    requires m.Valid() && m.out == map[] && Layout(entries, top, |m.mem|) && src + n <= top
    requires Free(entries, src, n) && o in entries.Values && o.addr <= dst && dst + n <= o.addr + o.size
    modifies m
    ensures m.Valid() && m.out == map[] && Copied(entries, top, old(m.mem), m.mem, dst, src, n)
  {
    hide Layout, View, Free, Machine.Valid, Object.Valid, Object.Placed, Object.Gather, Object.Foot, Object.Wrote,
         Splice, Range, Copied;
    ghost var mem0 := m.mem;
    ObjectBelow(entries, top, |m.mem|, o);
    TopBelow(entries, top, |m.mem|);
    var dstObjectOffset := dst - o.addr;
    HostApart(entries, top, |m.mem|, o, dstObjectOffset, n, src, n);
    MemcpyToObject(m, o, dstObjectOffset, src, n);
    ViewCopiedIn(entries, top, mem0, m.mem, o, dstObjectOffset, src, n);
  }

  /** Host bytes written to an object are copied in the flat view. */
  lemma {:induction false} ViewCopiedIn(entries: map<nat, Object>, top: nat, mem: seq<byte>, now: seq<byte>,
      o: Object, off: nat, src: nat, n: nat)
    requires Layout(entries, top, |mem|) && o in entries.Values && o.Valid() && off + n <= o.size
    requires src + n <= top <= |mem| && Free(entries, src, n) && o.Wrote(mem, now, off, mem[src..src + n])
    ensures Copied(entries, top, mem, now, o.addr + off, src, n)
  {
    hide Layout, View, Free, Splice, Object.Valid, Object.Wrote;
    ViewHost(entries, top, mem, src, n);
    ViewObjectWritten(entries, top, mem, now, o, off, mem[src..src + n]);
  }

  /** Disjoint ranges of objects are stored apart, in one object or in two. */
  lemma {:induction false} ObjectsApart(entries: map<nat, Object>, top: nat, len: nat, s: Object, d: Object,
      srcOff: nat, dstOff: nat, n: nat)
    requires Layout(entries, top, len) && s in entries.Values && d in entries.Values && s.Valid() && d.Valid()
    requires srcOff + n <= s.size && dstOff + n <= d.size
    requires s == d ==> srcOff + n <= dstOff || dstOff + n <= srcOff
    ensures s.Foot(srcOff, n) !! d.Foot(dstOff, n) && s.blockSize == d.blockSize
  {
    hide Layout, Object.Foot, Object.Valid, Object.Placed;
    ObjectBelow(entries, top, len, s);
    ObjectBelow(entries, top, len, d);
    if s == d {
      if srcOff + n <= dstOff {
        PiecesApart(s, len, srcOff, n, dstOff, n);
      } else {
        PiecesApart(s, len, dstOff, n, srcOff, n);
      }
    } else {
      OtherObject(entries, top, len, s, d, srcOff, n);
      FootPart(d, dstOff, n);
    }
  }

  method ObjectToObject(m: Machine, entries: map<nat, Object>, ghost top: nat, s: Object, d: Object, dst: nat,
      src: nat, n: nat, fast: bool)
    requires m.Valid() && m.out == map[] && Layout(entries, top, |m.mem|) && (dst + n <= src || src + n <= dst)
    requires s in entries.Values && s.addr <= src && src + n <= s.addr + s.size
    requires d in entries.Values && d.addr <= dst && dst + n <= d.addr + d.size
    requires s.blockSize > 0 && d.blockSize > 0
    requires fast ==> (dst - d.addr) % s.blockSize <= (src - s.addr) % s.blockSize || n <= d.BlockEnd(dst - d.addr)
    modifies m
    ensures m.Valid() && m.out == map[] && Copied(entries, top, old(m.mem), m.mem, dst, src, n)
  {
    hide Layout, View, Splice, Machine.Valid, Object.Valid, Object.Placed, Object.Gather, Object.Foot, Object.Wrote,
         Object.BlockEnd, Disciplined, Run, Range, Copied;
    ghost var mem0 := m.mem;
    ObjectBelow(entries, top, |m.mem|, s);
    ObjectBelow(entries, top, |m.mem|, d);
    var srcObjectOffset, dstObjectOffset := src - s.addr, dst - d.addr;
    ObjectsApart(entries, top, |m.mem|, s, d, srcObjectOffset, dstObjectOffset, n);
    if fast {
      InStepResult(m.mem, s, d, srcObjectOffset, dstObjectOffset, n);
    }
    MemcpyObjectToObject(m, s, d, dstObjectOffset, srcObjectOffset, n, fast);
    ViewCopied(entries, top, mem0, m.mem, s, d, dstObjectOffset, srcObjectOffset, n);
  }

  /** Bytes gathered from one object and written to another are copied in the flat view. */
  lemma {:induction false} ViewCopied(entries: map<nat, Object>, top: nat, mem: seq<byte>, now: seq<byte>, s: Object,
      d: Object, dstOff: nat, srcOff: nat, n: nat)
    requires Layout(entries, top, |mem|) && s in entries.Values && d in entries.Values && s.Valid() &&
      s.Placed(|mem|) && d.Valid()
    requires srcOff + n <= s.size && dstOff + n <= d.size && d.Wrote(mem, now, dstOff, s.Gather(mem, srcOff, n))
    ensures Copied(entries, top, mem, now, d.addr + dstOff, s.addr + srcOff, n)
  {
    hide Layout, View, Splice, Object.Valid, Object.Placed, Object.Gather, Object.Wrote;
    ViewObject(entries, top, mem, s, srcOff, n);
    ViewObjectWritten(entries, top, mem, now, d, dstOff, s.Gather(mem, srcOff, n));
  }

  /** A flat copy, continued by the copy of the next piece. */
  lemma {:induction false} CopiedJoin(entries: map<nat, Object>, top: nat, mem0: seq<byte>, mem1: seq<byte>,
      mem2: seq<byte>, dst: nat, src: nat, a: nat, e: nat)
    requires Copied(entries, top, mem0, mem1, dst, src, a) && Copied(entries, top, mem1, mem2, dst + a, src + a, e)
    requires dst + a + e <= src || src + a + e <= dst
    ensures Copied(entries, top, mem0, mem2, dst, src, a + e)
  {
    hide Layout, Splice, View;
    MovedJoin(View(entries, top, mem0), View(entries, top, mem1), dst, src, a, e);
  }

  lemma {:induction false} MovedJoin(v0: seq<byte>, v1: seq<byte>, dst: nat, src: nat, a: nat, e: nat)
    requires dst + a + e <= |v0| && src + a + e <= |v0| && (dst + a + e <= src || src + a + e <= dst)
    requires v1 == Moved(v0, dst, src, a)
    ensures Moved(v1, dst + a, src + a, e) == Moved(v0, dst, src, a + e)
  {
    hide Splice;
    assert v1[src + a..src + a + e] == v0[src + a..src + a + e];
    assert v0[src..src + a] + v0[src + a..src + a + e] == v0[src..src + (a + e)];
    SpliceAppend(v0, dst, v0[src..src + a], v0[src + a..src + a + e]);
  }

  function Min(a: int, b: int): int {
    if a < b then a else b
  }

  /** Where both ranges of a copy have reached their objects. */
  ghost function BothInObjects(entries: map<nat, Object>, dst: nat, src: nat, size: nat): nat {
    var d, s := HostMemory(dst, size, MapFind(entries, dst, size)), HostMemory(src, size, MapFind(entries, src, size));
    if d < s then s else d
  }

  /** The object-to-object part of the copy, if there is one, may take the fast path. */
  ghost predicate FastAllowed(entries: map<nat, Object>, dst: nat, src: nat, size: nat) {
    var o := BothInObjects(entries, dst, src, size);
    o < size ==>
      match (MapFind(entries, dst, size), MapFind(entries, src, size))
      case (Some(d), Some(s)) =>
        d.addr <= dst + o && s.addr <= src + o && dst + size <= d.End() && s.blockSize > 0 && d.blockSize > 0 &&
        ((dst + o - d.addr) % s.blockSize <= (src + o - s.addr) % s.blockSize ||
            size - o <= d.BlockEnd(dst + o - d.addr))
      case _ => true
  }

  lemma {:induction false} NothingCopied(entries: map<nat, Object>, top: nat, mem: seq<byte>, dst: nat, src: nat)
    requires Layout(entries, top, |mem|) && dst <= top && src <= top
    ensures Copied(entries, top, mem, mem, dst, src, 0)
  {
    hide Layout;
  }

  lemma {:induction false} CopiedLayout(entries: map<nat, Object>, top: nat, mem: seq<byte>, now: seq<byte>, dst: nat,
      src: nat, n: nat)
    requires Copied(entries, top, mem, now, dst, src, n)
    ensures Layout(entries, top, |now|)
  {
  }

  lemma {:induction false} ObjectBlockSize(entries: map<nat, Object>, top: nat, len: nat, o: Object)
    requires Layout(entries, top, len) && o in entries.Values
    ensures o.blockSize > 0
  {
    ObjectBelow(entries, top, len, o);
    o.BlockSizePositive();
  }

  /** The bytes one iteration of Manager::memcpy copies. */
  function PieceSize(dst: nat, src: nat, left: nat, d: Option<Object>, s: Option<Object>): int {
    var dstHost, srcHost := HostMemory(dst, left, d), HostMemory(src, left, s);
    if dstHost != 0 && srcHost != 0 then
      Min(dstHost, srcHost)
    else if dstHost != 0 && s.Some? then
      Min(dstHost, s.value.End() - src)
    else if srcHost != 0 && d.Some? then
      Min(srcHost, d.value.End() - dst)
    else if d.Some? && s.Some? then
      Min(Min(s.value.End() - src, d.value.End() - dst), left)
    else 0
  }

  /** One iteration of Manager::memcpy copies its piece, whichever of the four kinds it is, and makes progress. */
  method MemcpyPiece(m: Machine, entries: map<nat, Object>, ghost top: nat, dst: nat, src: nat, size: nat,
      offset: nat, d: Option<Object>, s: Option<Object>, fast: bool)
    returns (copySize: nat)
    requires m.Valid() && m.out == map[] && Layout(entries, top, |m.mem|)
    requires dst + size <= top && src + size <= top && (dst + size <= src || src + size <= dst)
    requires Index(entries) && Within(entries, dst, size) && Within(entries, src, size) && offset < size
    requires d == MapFind(entries, dst, size) && s == MapFind(entries, src, size)
    requires fast ==> FastAllowed(entries, dst, src, size)
    requires offset <= BothInObjects(entries, dst, src, size)
    modifies m
    ensures m.Valid() && m.out == map[] && 0 < copySize <= size - offset
    ensures copySize == PieceSize(dst + offset, src + offset, size - offset, d, s)
    ensures Copied(entries, top, old(m.mem), m.mem, dst + offset, src + offset, copySize)
    ensures offset + copySize < size ==> offset + copySize <= BothInObjects(entries, dst, src, size)
  {
    hide Layout, Index, MapFind, View, Copied, Within, Free, Machine.Valid, Object.Valid, Object.BlockEnd, NextObject;
    var left := size - offset;
    RangeParts(entries, dst, size, offset);
    RangeParts(entries, src, size, offset);
    var dstHostMemory, srcHostMemory := HostMemory(dst + offset, left, d), HostMemory(src + offset, left, s);
    if dstHostMemory != 0 && srcHostMemory != 0 {
      copySize := Min(dstHostMemory, srcHostMemory);
      FreePart(entries, dst + offset, dstHostMemory, copySize);
      FreePart(entries, src + offset, srcHostMemory, copySize);
      HostToHost(m, entries, top, dst + offset, src + offset, copySize);
    } else if dstHostMemory != 0 {
      var srcCopySize := s.value.End() - src - offset;
      copySize := Min(dstHostMemory, srcCopySize);
      FreePart(entries, dst + offset, dstHostMemory, copySize);
      ObjectToHost(m, entries, top, s.value, dst + offset, src + offset, copySize);
    } else if srcHostMemory != 0 {
      var dstCopySize := d.value.End() - dst - offset;
      copySize := Min(srcHostMemory, dstCopySize);
      FreePart(entries, src + offset, srcHostMemory, copySize);
      HostToObject(m, entries, top, d.value, dst + offset, src + offset, copySize);
    } else {
      var srcCopySize, dstCopySize := s.value.End() - src - offset, d.value.End() - dst - offset;
      copySize := Min(Min(srcCopySize, dstCopySize), left);
      ObjectBlockSize(entries, top, |m.mem|, s.value);
      ObjectBlockSize(entries, top, |m.mem|, d.value);
      ObjectToObject(m, entries, top, s.value, d.value, dst + offset, src + offset, copySize, fast);
    }
  }

  lemma {:induction false} FreePart(entries: map<nat, Object>, a: nat, n: nat, e: nat)
    requires Free(entries, a, n) && e <= n
    ensures Free(entries, a, e)
  {
  }

  /**
   Manager::memcpy over mixed host and object memory is one flat copy, when neither range runs past the
   end of its first object.
   */
  method Memcpy(m: Machine, entries: map<nat, Object>, ghost top: nat, dst: nat, src: nat, size: nat, fast: bool)
    requires m.Valid() && m.out == map[] && Layout(entries, top, |m.mem|)
    requires dst + size <= top && src + size <= top && (dst + size <= src || src + size <= dst)
    requires Within(entries, dst, size) && Within(entries, src, size)
    requires fast ==> FastAllowed(entries, dst, src, size)
    modifies m
    ensures m.Valid() && m.out == map[]
    ensures Copied(entries, top, old(m.mem), m.mem, dst, src, size)
  {
    hide *;
    ghost var mem0 := m.mem;
    IndexOf(entries, top, |m.mem|);
    var dstObject, srcObject := MapFind(entries, dst, size), MapFind(entries, src, size);
    if dstObject == None && srcObject == None {
      NoneFree(entries, dst, size);
      NoneFree(entries, src, size);
      HostToHost(m, entries, top, dst, src, size);
      return;
    }
    var left, offset := size, 0;
    NothingCopied(entries, top, m.mem, dst, src);
    while left > 0
      invariant 0 <= left && offset + left == size
      invariant m.Valid() && m.out == map[]
      invariant dstObject == MapFind(entries, dst, size) && srcObject == MapFind(entries, src, size)
      invariant Copied(entries, top, mem0, m.mem, dst, src, offset)
      invariant left > 0 ==> offset <= BothInObjects(entries, dst, src, size)
    {
      NoNextObject(entries, dst, size, offset);
      NoNextObject(entries, src, size, offset);
      dstObject := NextObject(entries, dstObject, dst + offset, left);
      srcObject := NextObject(entries, srcObject, src + offset, left);
      ghost var mem1 := m.mem;
      CopiedLayout(entries, top, mem0, m.mem, dst, src, offset);
      var copySize := MemcpyPiece(m, entries, top, dst, src, size, offset, dstObject, srcObject, fast);
      CopiedJoin(entries, top, mem0, mem1, m.mem, dst, src, offset, copySize);
      offset := offset + copySize;
      left := left - copySize;
    }
  }

  lemma {:induction false} NoneFree(entries: map<nat, Object>, addr: nat, size: nat)
    requires Index(entries) && MapFind(entries, addr, size) == None
    ensures Free(entries, addr, size)
  {
    forall x | addr <= x < addr + size
      ensures MapFind(entries, x, 0) == None
    {
      FirstIsLowest(entries, addr, size, x);
    }
  }

  lemma {:induction false} NoNextObject(entries: map<nat, Object>, addr: nat, size: nat, offset: nat)
    requires Index(entries) && Within(entries, addr, size) && offset < size
    ensures var obj := MapFind(entries, addr, size);
      NextObject(entries, obj, addr + offset, size - offset) == obj
  {
    RangeParts(entries, addr, size, offset);
  }

  /** The control state of the loop of Manager::memcpy. */
  datatype Loop = Loop(offset: nat, d: Option<Object>, s: Option<Object>)

  /** `obj` is the first object of the range, and the copy is not past its end. */
  ghost predicate Current(entries: map<nat, Object>, obj: Option<Object>, addr: nat, size: nat, offset: nat) {
    && obj == MapFind(entries, addr, size)
    && (obj.Some? ==> addr + offset <= obj.value.End() && obj.value.addr <= addr + size)
  }

  /** The objects stay as they are, and a piece ends within the range and within them. */
  lemma {:induction false} PieceStays(entries: map<nat, Object>, dst: nat, src: nat, size: nat, l: Loop)
    requires Index(entries) && l.offset < size
    requires Current(entries, l.d, dst, size, l.offset) && Current(entries, l.s, src, size, l.offset)
    ensures NextObject(entries, l.d, dst + l.offset, size - l.offset) == l.d
    ensures NextObject(entries, l.s, src + l.offset, size - l.offset) == l.s
    ensures var n := PieceSize(dst + l.offset, src + l.offset, size - l.offset, l.d, l.s);
      && 0 <= n <= size - l.offset
      && (l.d.Some? ==> dst + l.offset + n <= l.d.value.End())
      && (l.s.Some? ==> src + l.offset + n <= l.s.value.End())
  {
    hide Index, MapFind;
  }

  /** One iteration; a finished copy stays finished. */
  ghost function Turn(entries: map<nat, Object>, dst: nat, src: nat, size: nat, l: Loop): (r: Loop)
    requires Index(entries) && l.offset <= size
    requires Current(entries, l.d, dst, size, l.offset) && Current(entries, l.s, src, size, l.offset)
    ensures l.offset <= r.offset <= size && r.d == l.d && r.s == l.s
    ensures Current(entries, r.d, dst, size, r.offset) && Current(entries, r.s, src, size, r.offset)
  {
    if l.offset == size then l else
      var left := size - l.offset;
      PieceStays(entries, dst, src, size, l);
      var d := NextObject(entries, l.d, dst + l.offset, left);
      var s := NextObject(entries, l.s, src + l.offset, left);
      Loop(l.offset + PieceSize(dst + l.offset, src + l.offset, left, d, s), d, s)
  }

  /** The control state after `n` iterations. */
  ghost function After(entries: map<nat, Object>, dst: nat, src: nat, size: nat, n: nat): (r: Loop)
    requires Index(entries)
    ensures r.offset <= size
    ensures Current(entries, r.d, dst, size, r.offset) && Current(entries, r.s, src, size, r.offset)
  {
    if n == 0 then
      Starting(entries, dst, size);
      Starting(entries, src, size);
      Loop(0, MapFind(entries, dst, size), MapFind(entries, src, size))
    else Turn(entries, dst, src, size, After(entries, dst, src, size, n - 1))
  }

  lemma {:induction false} Starting(entries: map<nat, Object>, addr: nat, size: nat)
    requires Index(entries)
    ensures Current(entries, MapFind(entries, addr, size), addr, size, 0)
  {
  }

  lemma {:induction false} PieceAdvances(entries: map<nat, Object>, dst: nat, src: nat, size: nat, offset: nat)
    requires Index(entries) && Within(entries, dst, size) && Within(entries, src, size) && offset < size
    ensures var d, s := MapFind(entries, dst, size), MapFind(entries, src, size);
      PieceSize(dst + offset, src + offset, size - offset, d, s) > 0
  {
    hide Index, MapFind, Free;
    RangeParts(entries, dst, size, offset);
    RangeParts(entries, src, size, offset);
  }

  lemma {:induction false} IterationsAdvance(entries: map<nat, Object>, dst: nat, src: nat, size: nat, n: nat)
    requires Index(entries) && Within(entries, dst, size) && Within(entries, src, size)
    ensures After(entries, dst, src, size, n).offset >= Min(n, size)
  {
    hide Index, MapFind, PieceSize, NextObject, Within, HostMemory;
    if n > 0 {
      IterationsAdvance(entries, dst, src, size, n - 1);
      var l := After(entries, dst, src, size, n - 1);
      if l.offset < size {
        NoNextObject(entries, dst, size, l.offset);
        NoNextObject(entries, src, size, l.offset);
        PieceAdvances(entries, dst, src, size, l.offset);
      }
    }
  }

  lemma {:induction false} TurnMoves(entries: map<nat, Object>, dst: nat, src: nat, size: nat, n: nat)
    requires Index(entries)
    ensures var before, after := After(entries, dst, src, size, n), After(entries, dst, src, size, n + 1);
      after == before || after.offset > before.offset
  {
    hide Index, MapFind, Turn, Current;
    var before, after := After(entries, dst, src, size, n), After(entries, dst, src, size, n + 1);
    assert after == Turn(entries, dst, src, size, before);
  }

  /** Unless an iteration changes nothing, every iteration so far has copied something. */
  lemma {:induction false} SomeTurnIsIdle(entries: map<nat, Object>, dst: nat, src: nat, size: nat, n: nat)
    returns (k: nat)
    requires Index(entries)
    ensures k <= n
    ensures After(entries, dst, src, size, k + 1) == After(entries, dst, src, size, k) ||
      (k == n && After(entries, dst, src, size, n).offset >= n)
  {
    hide Index, MapFind, Turn, Current, After;
    k := n;
    if n > 0 {
      k := SomeTurnIsIdle(entries, dst, src, size, n - 1);
      if After(entries, dst, src, size, k + 1) != After(entries, dst, src, size, k) {
        TurnMoves(entries, dst, src, size, k);
        k := n;
      }
    }
  }

  /** Once an iteration has changed nothing, no later one will. */
  lemma {:induction false} IdleForEver(entries: map<nat, Object>, dst: nat, src: nat, size: nat, k: nat, n: nat)
    requires Index(entries) && After(entries, dst, src, size, k + 1) == After(entries, dst, src, size, k) && k <= n
    ensures After(entries, dst, src, size, n) == After(entries, dst, src, size, k)
  {
    hide Index, MapFind, Turn;
    if k < n {
      IdleForEver(entries, dst, src, size, k, n - 1);
    }
  }

  /**
   Manager::memcpy comes to an end exactly when neither range runs past the end of its first object: a
   copy that reaches that end keeps its objects and copies zero bytes for ever.
   */
  lemma {:induction false} MemcpyTerminates(entries: map<nat, Object>, dst: nat, src: nat, size: nat)
    requires Index(entries)
    ensures (exists n: nat :: After(entries, dst, src, size, n).offset == size)
      <==> Within(entries, dst, size) && Within(entries, src, size)
    ensures !(Within(entries, dst, size) && Within(entries, src, size)) ==>
      exists k: nat :: After(entries, dst, src, size, k).offset < size
        && forall n: nat :: k <= n ==> After(entries, dst, src, size, n) == After(entries, dst, src, size, k)
  {
    hide Index, After, MapFind, Turn;
    if Within(entries, dst, size) && Within(entries, src, size) {
      IterationsAdvance(entries, dst, src, size, size);
      assert After(entries, dst, src, size, size).offset == size;
    } else {
      var k := SomeTurnIsIdle(entries, dst, src, size, size + 1);
      forall n: nat | k <= n
        ensures After(entries, dst, src, size, n) == After(entries, dst, src, size, k)
      {
        IdleForEver(entries, dst, src, size, k, n);
      }
    }
  }

  /** One object of 8 bytes at address 10 and a copy of 9 bytes from there to address 30: the loop never ends. */
  method NeverEndingExample() returns (entries: map<nat, Object>, o: Object)
    ensures entries == map[18 := o] && o.addr == 10 && o.size == 8 && Layout(entries, 50, 58)
    ensures Index(entries) && !Within(entries, 10, 9)
    ensures forall n: nat :: After(entries, 30, 10, 9, n).offset != 9
  {
    hide After, Within;
    o := new Object(10, 8, [Block(10, 8, 50, true)], 8);
    entries := map[18 := o];
    OneBlock(o);
    assert Layout(entries, 50, 58);
    RunsPast(entries, o);
    MemcpyTerminates(entries, 30, 10, 9);
  }

  lemma {:induction false} OneBlock(o: Object)
    requires o.blockSize == o.size == 8 && |o.blocks| == 1 && o.blocks[0].size == 8 && o.blocks[0].store == 50
    ensures o.Valid() && o.Placed(58) && forall i :: 0 <= i < 8 ==> o.Loc(i) == 50 + i
  {
    assert Start(o.blocks, 1) == 8;
    o.LocsInBlock(0, 0);
  }

  lemma {:induction false} RunsPast(entries: map<nat, Object>, o: Object)
    requires Index(entries) && entries == map[18 := o] && o.addr == 10 && o.size == 8
    ensures !Within(entries, 10, 9)
  {
    assert 18 in entries.Keys;
    assert UpperBound(entries.Keys, 10) == Some(18);
    assert MapFind(entries, 10, 9) == Some(o);
  }

  // ---- Manager::memset ----

  /** The conversion to int: 32 bits, two's complement. */
  function Int32(x: int): (r: int)
    ensures -0x8000_0000 <= r < 0x8000_0000
    ensures (x - r) % 0x1_0000_0000 == 0
  {
    (x + 0x8000_0000) % 0x1_0000_0000 - 0x8000_0000
  }

  /** The gap of host memory before the object; negative when `s` lies within it. */
  function Gap(o: Object, s: nat): int {
    Int32(o.addr - s)
  }

  /** Within an object the gap is computed without truncation exactly up to 2^31 bytes from its start. */
  lemma {:induction false} GapExact(o: Object, s: nat)
    requires o.addr <= s < o.End()
    ensures Gap(o, s) == o.addr - s <==> s - o.addr <= 0x8000_0000
    ensures Gap(o, s) <= 0 ==> Gap(o, s) >= o.addr - s
    ensures s - o.addr > 0x8000_0000 && Gap(o, s) <= 0 ==> Gap(o, s) >= o.addr - s + 0x1_0000_0000
    ensures Gap(o, s) > 0 ==> s + Gap(o, s) > o.addr
  {
    var d, r := o.addr - s, Gap(o, s);
    var q := (d - r) / 0x1_0000_0000;
    assert d - r == q * 0x1_0000_0000;
  }

  /** ::memset through program addresses; `None` stands for leaving the address space. */
  ghost function HostSet(v: seq<byte>, s: nat, c: int, n: nat): (r: Option<seq<byte>>)
    ensures r.Some? ==> |r.value| == |v|
  {
    if s + n <= |v| then Some(Splice(v, s, Repeated(c, n))) else None
  }

  /** Object::memset. */
  ghost function ObjectSet(v: seq<byte>, o: Object, off: nat, c: int, n: nat): (r: seq<byte>)
    requires o.End() <= |v|
    ensures |r| == |v|
  {
    Splice(v, o.addr + ClippedOffset(o, off), Repeated(c, Clipped(o, off, n)))
  }

  ghost predicate Bounded(entries: map<nat, Object>, top: nat) {
    Index(entries) && forall e :: e in entries ==> e <= top
  }

  /** The number of values of size_t. */
  const SIZE: int := 0x1_0000_0000_0000_0000

  /** `left` once the gap has been dealt with; the subtraction wraps around. */
  function LeftAfterGap(left: nat, gap: int): (r: nat)
    ensures gap <= 0 ==> r == left
    ensures 0 < gap <= left ==> r + gap == left
    ensures left < gap <= 0x8000_0000 ==> r + gap == left + 0x1_0000_0000_0000_0000
  {
    if gap <= 0 then left else if gap <= left then left - gap else (left - gap) % SIZE
  }

  /** The bytes to set in an object once the gap has been dealt with. */
  function PieceInObject(o: Object, gap: int, left: nat): (n: int)
    ensures n == left || n == o.size + (if gap > 0 then 0 else gap)
    ensures n <= left && n <= o.size + (if gap > 0 then 0 else gap)
  {
    Min(if gap > 0 then o.size else o.size + gap, left)
  }

  lemma {:induction false} FoundHolds(entries: map<nat, Object>, top: nat, s: nat)
    requires Bounded(entries, top) && MapFind(entries, s, 0).Some?
    ensures var o := MapFind(entries, s, 0).value;
      && o in entries.Values && entries[o.End()] == o && o.addr <= s < o.End() <= top
      && (Gap(o, s) <= 0 ==> o.size + Gap(o, s) > 0)
  {
    var o := MapFind(entries, s, 0).value;
    FindContaining(entries, s, o);
    assert entries[o.End()] == o;
    GapExact(o, s);
  }

  /** Where the loop is once the gap has been dealt with. */
  function PastGap(s: nat, gap: int): nat {
    if gap > 0 then s + gap else s
  }

  ghost function GapSet(v: seq<byte>, s: nat, c: int, gap: int): (r: Option<seq<byte>>)
    ensures r.Some? ==> |r.value| == |v|
  {
    if gap > 0 then HostSet(v, s, c, gap) else Some(v)
  }

  /** The loop of Manager::memset on the memory the program sees. */
  ghost function SetLoop(entries: map<nat, Object>, v: seq<byte>, s: nat, c: int, left: nat): (r: Option<seq<byte>>)
    requires Bounded(entries, |v|)
    ensures r.Some? ==> |r.value| == |v|
    decreases if s <= |v| then |v| + 1 - s else 0
  {
    if left == 0 then Some(v) else
      match MapFind(entries, s, 0)
      case None => HostSet(v, s, c, left)
      case Some(o) =>
        FoundHolds(entries, |v|, s);
        var gap := Gap(o, s);
        var left1 := LeftAfterGap(left, gap);
        var n: nat := PieceInObject(o, gap, left1);
        match GapSet(v, s, c, gap)
        case None => None
        case Some(v1) =>
          SetLoop(entries, ObjectSet(v1, o, PastGap(s, gap) - o.addr, c, n), PastGap(s, gap) + n, c, left1 - n)
  }

  /** Manager::memset on the memory the program sees; `None` also stands for dereferencing a null object. */
  ghost function SetAll(entries: map<nat, Object>, v: seq<byte>, s: nat, c: int, size: nat): (r: Option<seq<byte>>)
    requires Bounded(entries, |v|)
    ensures r.Some? ==> |r.value| == |v|
  {
    if MapFind(entries, s, size) == None then HostSet(v, s, c, size) else
      match MapFind(entries, s, 0)
      case None => None
      case Some(o) =>
        FoundHolds(entries, |v|, s);
        if o.addr <= s && o.End() >= s + size
        then Some(ObjectSet(v, o, s - o.addr, c, Min(size, o.size)))
        else SetLoop(entries, v, s, c, size)
  }

  // ---- when memset is one flat fill ----

  /**
   The range touches and ends before no object; or it starts in an object and ends there, or starts in its
   first 2^31 bytes, or the truncated gap happens to be the whole size.
   */
  ghost predicate Settable(entries: map<nat, Object>, s: nat, size: nat) {
    MapFind(entries, s, size) == None ||
    match MapFind(entries, s, 0)
    case None => false
    case Some(o) => s + size <= o.End() || s - o.addr <= 0x8000_0000 || Gap(o, s) == size
  }

  /** The owner of a range is found but no object at its start: an object starts in the range or right after it. */
  lemma {:induction false} NullDereference(entries: map<nat, Object>, v: seq<byte>, s: nat, c: int, size: nat)
    requires Bounded(entries, |v|)
    ensures MapFind(entries, s, size).Some? && MapFind(entries, s, 0) == None <==>
      && (forall o :: o in entries.Values ==> !(o.addr <= s < o.End()))
      && (exists o :: o in entries.Values && s < o.addr <= s + size)
    ensures MapFind(entries, s, size).Some? && MapFind(entries, s, 0) == None ==> SetAll(entries, v, s, c, size) == None
  {
    forall o | o in entries.Values
      ensures MapFind(entries, s, 0) == None ==> !(o.addr <= s < o.End())
      ensures MapFind(entries, s, size) == None ==> !(s < o.addr <= s + size)
    {
      assert entries[o.End()] == o;
    }
    if MapFind(entries, s, size).Some? && MapFind(entries, s, 0) == None {
      var o := MapFind(entries, s, size).value;
      assert o in entries.Values && s < o.addr <= s + size;
    }
    if MapFind(entries, s, 0).Some? {
      FoundHolds(entries, |v|, s);
    }
  }

  /** Two fills that follow each other. */
  lemma {:induction false} FillsJoin(v: seq<byte>, s: nat, c: int, a: nat, b: nat)
    requires s + a + b <= |v|
    ensures Splice(Splice(v, s, Repeated(c, a)), s + a, Repeated(c, b)) == Splice(v, s, Repeated(c, a + b))
  {
    RepeatedJoin(c, a, b);
    SpliceAppend(v, s, Repeated(c, a), Repeated(c, b));
  }

  lemma {:induction false} NoFill(v: seq<byte>, s: nat, c: int)
    requires s <= |v|
    ensures Splice(v, s, Repeated(c, 0)) == v
  {
  }

  /** After the end of an object comes host memory or the start of the next object. */
  lemma {:induction false} NextStartsHere(entries: map<nat, Object>, top: nat, o: Object)
    requires Bounded(entries, top) && o in entries.Values && MapFind(entries, o.End(), 0).Some?
    ensures MapFind(entries, o.End(), 0).value.addr == o.End()
  {
    FoundHolds(entries, top, o.End());
    var p := MapFind(entries, o.End(), 0).value;
    assert entries[o.End()] == o && entries[p.End()] == p;
  }

  /** From the first 2^31 bytes of an object on, the loop is one flat fill. */
  lemma {:induction false} LoopIsFlat(entries: map<nat, Object>, v: seq<byte>, s: nat, c: int, left: nat)
    requires Bounded(entries, |v|) && s + left <= |v|
    requires MapFind(entries, s, 0).Some? ==> s - MapFind(entries, s, 0).value.addr <= 0x8000_0000
    ensures SetLoop(entries, v, s, c, left) == Some(Splice(v, s, Repeated(c, left)))
    decreases left
  {
    hide Splice, Repeated, MapFind, Int32, Bounded, Gap;
    if left == 0 {
      NoFill(v, s, c);
    } else if MapFind(entries, s, 0).Some? {
      var o := MapFind(entries, s, 0).value;
      FoundHolds(entries, |v|, s);
      GapExact(o, s);
      var n := Min(o.End() - s, left);
      ObjectSetFlat(v, o, s, c, n);
      if n < left {
        if MapFind(entries, o.End(), 0).Some? {
          NextStartsHere(entries, |v|, o);
        }
        LoopIsFlat(entries, Splice(v, s, Repeated(c, n)), s + n, c, left - n);
        FillsJoin(v, s, c, n, left - n);
      }
    }
  }

  lemma {:induction false} ObjectSetFlat(v: seq<byte>, o: Object, s: nat, c: int, n: nat)
    requires o.addr <= s && s + n <= o.End() <= |v|
    ensures ObjectSet(v, o, s - o.addr, c, n) == Splice(v, s, Repeated(c, n))
  {
  }

  /** The loop changes no byte before its position, and sets bytes to nothing but the value. */
  lemma {:induction false} LoopFrame(entries: map<nat, Object>, v: seq<byte>, s: nat, c: int, left: nat, a: nat)
    requires Bounded(entries, |v|) && a < |v| && SetLoop(entries, v, s, c, left).Some?
    ensures var r := SetLoop(entries, v, s, c, left).value[a];
      (r == v[a] || r == c % 256) && (a < s ==> r == v[a])
    decreases if s <= |v| then |v| + 1 - s else 0
  {
    hide MapFind, Int32, Bounded, Gap, Splice, Repeated, ObjectSet, HostSet, GapSet;
    if left > 0 && MapFind(entries, s, 0) == None {
      HostSetByte(v, s, c, left, a);
    } else if left > 0 {
      var o := MapFind(entries, s, 0).value;
      FoundHolds(entries, |v|, s);
      var gap := Gap(o, s);
      GapSetByte(v, s, c, gap, a);
      var v1 := GapSet(v, s, c, gap).value;
      var n: nat := PieceInObject(o, gap, LeftAfterGap(left, gap));
      ObjectSetByte(v1, o, PastGap(s, gap) - o.addr, c, n, a);
      LoopFrame(entries, ObjectSet(v1, o, PastGap(s, gap) - o.addr, c, n), PastGap(s, gap) + n, c,
        LeftAfterGap(left, gap) - n, a);
    }
  }

  lemma {:induction false} HostSetByte(v: seq<byte>, s: nat, c: int, n: nat, a: nat)
    requires HostSet(v, s, c, n).Some? && a < |v|
    ensures s + n <= |v| && HostSet(v, s, c, n).value[a] == if s <= a < s + n then c % 256 else v[a]
  {
  }

  lemma {:induction false} GapSetByte(v: seq<byte>, s: nat, c: int, gap: int, a: nat)
    requires GapSet(v, s, c, gap).Some? && a < |v|
    ensures GapSet(v, s, c, gap).value[a] == if s <= a < PastGap(s, gap) then c % 256 else v[a]
    ensures gap > 0 ==> s + gap <= |v|
  {
  }

  lemma {:induction false} SpliceFill(v: seq<byte>, s: nat, c: int, n: nat, a: nat)
    requires s + n <= |v| && a < |v|
    ensures Splice(v, s, Repeated(c, n))[a] == if s <= a < s + n then c % 256 else v[a]
  {
  }

  /** The bytes Object::memset sets are those of the range that lie within the object. */
  lemma {:induction false} ObjectSetByte(v: seq<byte>, o: Object, off: nat, c: int, n: nat, a: nat)
    requires o.End() <= |v| && a < |v|
    ensures ObjectSet(v, o, off, c, n)[a]
      == if o.addr + off <= a < o.addr + off + n && a < o.End() then c % 256 else v[a]
  {
  }

  /** A memory none of whose bytes is the value. */
  ghost function Unset(top: nat, c: int): (v: seq<byte>)
    ensures |v| == top && forall a :: 0 <= a < top ==> v[a] != c % 256
  {
    seq(top, _ => if c % 256 == 0 then 1 else 0)
  }

  /** Where a truncated gap makes a wrong byte: after the range, or after the object and the gap. */
  function WrongByteAt(o: Object, s: nat, size: nat): nat {
    var gap := Gap(o, s);
    if gap > size then s + size else if PastGap(s, gap) < o.End() then o.End() else PastGap(s, gap)
  }

  lemma {:induction false} WrongByteAside(o: Object, s: nat, size: nat)
    requires o.addr <= s < o.End() < s + size && s - o.addr > 0x8000_0000 && Gap(o, s) != size
    ensures var gap, x := Gap(o, s), WrongByteAt(o, s, size);
      && (gap > size ==> s <= x == s + size < PastGap(s, gap))
      && (gap <= size ==> o.End() <= x < s + size && PastGap(s, gap) <= x)
      && (gap <= size ==> x < PastGap(s, gap) + PieceInObject(o, gap, LeftAfterGap(size, gap)))
  {
    hide Int32;
    GapExact(o, s);
  }

  /** With a truncated gap that is not the size, some byte comes out wrong. */
  lemma {:induction false} TruncatedGap(entries: map<nat, Object>, top: nat, s: nat, c: int, size: nat)
    requires Bounded(entries, top) && MapFind(entries, s, 0).Some? && s + size <= top
    requires var o := MapFind(entries, s, 0).value;
      s + size > o.End() && s - o.addr > 0x8000_0000 && Gap(o, s) != size
    ensures SetLoop(entries, Unset(top, c), s, c, size) != Some(Splice(Unset(top, c), s, Repeated(c, size)))
  {
    hide MapFind, Int32, Bounded, Gap, Splice, Repeated, Unset, ObjectSet, HostSet, GapSet, LeftAfterGap, WrongByteAt;
    var v, o := Unset(top, c), MapFind(entries, s, 0).value;
    FoundHolds(entries, top, s);
    WrongByteAside(o, s, size);
    if SetLoop(entries, v, s, c, size).Some? {
      var gap, x := Gap(o, s), WrongByteAt(o, s, size);
      var v1 := GapSet(v, s, c, gap).value;
      if gap > size {
        GapInside(v, s, c, gap);
      }
      var n: nat := PieceInObject(o, gap, LeftAfterGap(size, gap));
      GapSetByte(v, s, c, gap, x);
      ObjectSetByte(v1, o, PastGap(s, gap) - o.addr, c, n, x);
      LoopFrame(entries, ObjectSet(v1, o, PastGap(s, gap) - o.addr, c, n), PastGap(s, gap) + n, c,
        LeftAfterGap(size, gap) - n, x);
      SpliceFill(v, s, c, size, x);
    }
  }

  lemma {:induction false} GapInside(v: seq<byte>, s: nat, c: int, gap: nat)
    requires GapSet(v, s, c, gap).Some? && gap > 0
    ensures s + gap <= |v|
  {
  }

  /**
   Manager::memset is one flat fill of what the program sees, for every memory contents, exactly when the
   range is settable. Otherwise it dereferences a null object or a truncated gap leads it astray.
   */
  lemma {:induction false} MemsetIsFlat(entries: map<nat, Object>, top: nat, s: nat, c: int, size: nat)
    requires Bounded(entries, top) && s + size <= top
    ensures (forall v: seq<byte> | |v| == top ::
      SetAll(entries, v, s, c, size) == Some(Splice(v, s, Repeated(c, size))))
      <==> Settable(entries, s, size)
  {
    hide MapFind, Int32, Bounded, Gap, Splice, Repeated, SetLoop, Unset;
    if Settable(entries, s, size) {
      forall v: seq<byte> | |v| == top
        ensures SetAll(entries, v, s, c, size) == Some(Splice(v, s, Repeated(c, size)))
      {
        SettableIsFlat(entries, v, s, c, size);
      }
    } else {
      var v := Unset(top, c);
      if MapFind(entries, s, 0).Some? {
        FoundHolds(entries, top, s);
        TruncatedGap(entries, top, s, c, size);
      }
      assert SetAll(entries, v, s, c, size) != Some(Splice(v, s, Repeated(c, size)));
    }
  }

  lemma {:induction false} SettableIsFlat(entries: map<nat, Object>, v: seq<byte>, s: nat, c: int, size: nat)
    requires Bounded(entries, |v|) && s + size <= |v| && Settable(entries, s, size)
    ensures SetAll(entries, v, s, c, size) == Some(Splice(v, s, Repeated(c, size)))
  {
    hide MapFind, Int32, Bounded, Gap, Splice, Repeated, SetLoop;
    if MapFind(entries, s, size).Some? {
      var o := MapFind(entries, s, 0).value;
      FoundHolds(entries, |v|, s);
      if s + size <= o.End() {
        ObjectSetFlat(v, o, s, c, size);
      } else if s - o.addr <= 0x8000_0000 {
        LoopIsFlat(entries, v, s, c, size);
      } else {
        GapIsSize(entries, v, s, c, size);
      }
    }
  }

  lemma {:induction false} GapIsSize(entries: map<nat, Object>, v: seq<byte>, s: nat, c: int, size: nat)
    requires Bounded(entries, |v|) && s + size <= |v| && MapFind(entries, s, 0).Some?
    requires s + size > MapFind(entries, s, 0).value.End() && Gap(MapFind(entries, s, 0).value, s) == size
    ensures SetLoop(entries, v, s, c, size) == Some(Splice(v, s, Repeated(c, size)))
  {
    hide MapFind, Int32, Bounded, Gap;
    FoundHolds(entries, |v|, s);
    var o := MapFind(entries, s, 0).value;
    var flat := Splice(v, s, Repeated(c, size));
    assert ObjectSet(flat, o, s + size - o.addr, c, 0) == flat;
  }

  /** An object at address 10, and a fill of the 8 bytes before it: a null object is dereferenced. */
  method NullDereferenceExample() returns (entries: map<nat, Object>, o: Object)
    ensures entries == map[18 := o] && o.addr == 10 && o.size == 8 && Layout(entries, 50, 58)
    ensures Bounded(entries, 50) && !Settable(entries, 2, 8)
    ensures forall v: seq<byte>, c: int | |v| == 50 :: SetAll(entries, v, 2, c, 8) == None
  {
    o := new Object(10, 8, [Block(10, 8, 50, true)], 8);
    entries := map[18 := o];
    OneBlock(o);
    assert Layout(entries, 50, 58);
    assert o in entries.Values by { assert entries[18] == o; }
    hide Layout, SetAll, MapFind, Object.Valid, Object.Placed;
    forall v: seq<byte>, c: int | |v| == 50
      ensures SetAll(entries, v, 2, c, 8) == None && !Settable(entries, 2, 8)
    {
      NullDereference(entries, v, 2, c, 8);
    }
    assert |Unset(50, 0)| == 50;
  }

  /** An object of 2^31 + 2 bytes, and a fill of its last byte and the next one: the gap is truncated. */
  method TruncatedGapExample() returns (entries: map<nat, Object>, o: Object)
    ensures entries == map[0x8000_0002 := o] && o.addr == 0 && o.size == 0x8000_0002 && Bounded(entries, 0x8000_0004)
    ensures Gap(o, 0x8000_0001) == 0x7FFF_FFFF && !Settable(entries, 0x8000_0001, 2)
    ensures forall c: int :: var v := Unset(0x8000_0004, c);
      SetAll(entries, v, 0x8000_0001, c, 2) != Some(Splice(v, 0x8000_0001, Repeated(c, 2)))
  {
    o := new Object(0, 0x8000_0002, [Block(0, 0x8000_0002, 0x8000_0004, true)], 0x8000_0002);
    entries := map[0x8000_0002 := o];
    assert o in entries.Values by { assert entries[0x8000_0002] == o; }
    OnlyObject(entries, o);
    hide MapFind, SetLoop, Splice, Repeated, Unset, Int32;
    forall c: int
      ensures var v := Unset(0x8000_0004, c);
        SetAll(entries, v, 0x8000_0001, c, 2) != Some(Splice(v, 0x8000_0001, Repeated(c, 2)))
    {
      TruncatedGap(entries, 0x8000_0004, 0x8000_0001, c, 2);
    }
  }

  lemma {:induction false} OnlyObject(entries: map<nat, Object>, o: Object)
    requires Bounded(entries, 0x8000_0004) && o in entries.Values && o.addr == 0 && o.size == 0x8000_0002
    ensures MapFind(entries, 0x8000_0001, 0) == Some(o) && MapFind(entries, 0x8000_0001, 2).Some?
    ensures Gap(o, 0x8000_0001) == 0x7FFF_FFFF
  {
    FindContaining(entries, 0x8000_0001, o);
  }

  // ---- the routine itself ----

  /** A host write to one byte the program sees; within an object the fault handler makes it reach the object's byte. */
  method SetByte(m: Machine, entries: map<nat, Object>, ghost top: nat, a: nat, c: int)
    requires m.Valid() && m.out == map[] && Layout(entries, top, |m.mem|) && a < top
    modifies m
    ensures m.Valid() && m.out == map[] && Layout(entries, top, |m.mem|)
    ensures View(entries, top, m.mem) == Splice(View(entries, top, old(m.mem)), a, Repeated(c, 1))
  {
    hide Layout, View, Splice, Machine.Valid, Object.Valid, Object.Placed, Object.Wrote, HostWrote, MapFind, Repeated;
    ghost var mem0 := m.mem;
    TopBelow(entries, top, |m.mem|);
    var obj := MapFind(entries, a, 0);
    if obj == None {
      m.Memset(a, c, 1);
      HostByteSet(mem0, a, c);
      ViewHostWritten(entries, top, mem0, m.mem, a, Repeated(c, 1));
    } else {
      Containing(entries, top, |m.mem|, a);
      ObjectCopies.Memset(m, obj.value, a - obj.value.addr, c, 1);
      ViewObjectWritten(entries, top, mem0, m.mem, obj.value, a - obj.value.addr, Repeated(c, 1));
    }
  }

  lemma {:induction false} HostByteSet(mem: seq<byte>, a: nat, c: int)
    requires a < |mem|
    ensures HostWrote(mem, Splice(mem, a, Repeated(c, 1)), a, Repeated(c, 1))
  {
  }

  /** The containing object, found by a lookup with size 0. */
  lemma {:induction false} Containing(entries: map<nat, Object>, top: nat, len: nat, s: nat)
    requires Layout(entries, top, len) && MapFind(entries, s, 0).Some?
    ensures var o := MapFind(entries, s, 0).value;
      && o in entries.Values && o.addr <= s < o.addr + o.size <= top && o.Valid() && o.Placed(len)
  {
    IndexOf(entries, top, len);
    FindContaining(entries, s, MapFind(entries, s, 0).value);
    ObjectBelow(entries, top, len, MapFind(entries, s, 0).value);
  }

  /** ::memset, called by the runtime with an address of the program. */
  method ProgramMemset(m: Machine, entries: map<nat, Object>, ghost top: nat, s: nat, c: int, n: nat)
    requires m.Valid() && m.out == map[] && Layout(entries, top, |m.mem|) && s + n <= top
    modifies m
    ensures m.Valid() && m.out == map[] && Layout(entries, top, |m.mem|)
    ensures HostSet(View(entries, top, old(m.mem)), s, c, n) == Some(View(entries, top, m.mem))
  {
    hide Layout, View, Splice, Machine.Valid, Repeated;
    ghost var v := View(entries, top, m.mem);
    NoFill(v, s, c);
    var k := 0;
    while k < n
      invariant 0 <= k <= n && m.Valid() && m.out == map[] && Layout(entries, top, |m.mem|)
      invariant View(entries, top, m.mem) == Splice(v, s, Repeated(c, k))
    {
      SetByte(m, entries, top, s + k, c);
      FillsJoin(v, s, c, k, 1);
      k := k + 1;
    }
  }

  /** Object::memset on what the program sees. */
  method SetInObject(m: Machine, entries: map<nat, Object>, ghost top: nat, o: Object, off: nat, c: int, n: nat)
    requires m.Valid() && m.out == map[] && Layout(entries, top, |m.mem|) && o in entries.Values
    modifies m
    ensures m.Valid() && m.out == map[] && Layout(entries, top, |m.mem|) && o.End() <= top
    ensures View(entries, top, m.mem) == ObjectSet(View(entries, top, old(m.mem)), o, off, c, n)
  {
    hide Layout, View, Splice, Machine.Valid, Repeated, Object.Valid, Object.Placed, Object.Wrote, Clipped,
         ClippedOffset;
    ghost var mem0 := m.mem;
    ObjectBelow(entries, top, |m.mem|, o);
    ClippedFacts(o, off, n);
    ObjectCopies.Memset(m, o, off, c, n);
    ViewObjectWritten(entries, top, mem0, m.mem, o, ClippedOffset(o, off), Repeated(c, Clipped(o, off, n)));
  }

  lemma {:induction false} LayoutBounded(entries: map<nat, Object>, top: nat, len: nat)
    requires Layout(entries, top, len)
    ensures Bounded(entries, top)
  {
  }

  /**
   Manager::memset, on a layout and a range for which it neither dereferences a null object nor leaves the
   address space. For a settable range this is one flat fill.
   */
  method Memset(m: Machine, entries: map<nat, Object>, ghost top: nat, start: nat, c: int, size: nat)
    requires m.Valid() && m.out == map[] && Layout(entries, top, |m.mem|) && start + size <= top
    requires SetAll(entries, View(entries, top, m.mem), start, c, size).Some?
    modifies m
    ensures m.Valid() && m.out == map[] && Layout(entries, top, |m.mem|)
    ensures SetAll(entries, View(entries, top, old(m.mem)), start, c, size) == Some(View(entries, top, m.mem))
    ensures Settable(entries, start, size) ==>
      View(entries, top, m.mem) == Splice(View(entries, top, old(m.mem)), start, Repeated(c, size))
  {
    hide Layout, View, MapFind, Machine.Valid, Int32, Bounded, ObjectSet, HostSet, SetLoop, Settable, Splice, Repeated;
    LayoutBounded(entries, top, |m.mem|);
    ghost var v := View(entries, top, m.mem);
    if Settable(entries, start, size) {
      SettableIsFlat(entries, v, start, c, size);
    }
    if MapFind(entries, start, size) == None {
      ProgramMemset(m, entries, top, start, c, size);
      return;
    }
    var obj := MapFind(entries, start, 0);
    FoundHolds(entries, top, start);
    if obj.value.addr <= start && obj.value.End() >= start + size {
      SetInObject(m, entries, top, obj.value, start - obj.value.addr, c, Min(size, obj.value.size));
      return;
    }
    var left: nat, s: nat := size, start;
    while left > 0
      invariant m.Valid() && m.out == map[] && Layout(entries, top, |m.mem|)
      invariant left > 0 ==> obj == MapFind(entries, s, 0)
      invariant SetLoop(entries, View(entries, top, m.mem), s, c, left) == SetAll(entries, v, start, c, size)
      decreases if s <= top then top + 1 - s else 0
    {
      if obj == None {
        HostEnds(entries, View(entries, top, m.mem), s, c, left);
        ProgramMemset(m, entries, top, s, c, left);
        left, s := 0, s + left;
        LoopEnds(entries, View(entries, top, m.mem), s, c);
      } else {
        left, s := SetPiece(m, entries, top, obj.value, s, c, left);
      }
      if left > 0 {
        obj := MapFind(entries, s, 0);
      }
    }
    LoopEnds(entries, View(entries, top, m.mem), s, c);
  }

  lemma {:induction false} HostEnds(entries: map<nat, Object>, v: seq<byte>, s: nat, c: int, left: nat)
    requires Bounded(entries, |v|) && left > 0 && MapFind(entries, s, 0) == None
    ensures SetLoop(entries, v, s, c, left) == HostSet(v, s, c, left)
    ensures SetLoop(entries, v, s, c, left).Some? ==> s + left <= |v|
  {
  }

  lemma {:induction false} LoopEnds(entries: map<nat, Object>, v: seq<byte>, s: nat, c: int)
    requires Bounded(entries, |v|)
    ensures SetLoop(entries, v, s, c, 0) == Some(v)
  {
  }

  /** One turn of the loop, with an object at the current position. */
  method SetPiece(m: Machine, entries: map<nat, Object>, ghost top: nat, obj: Object, start: nat, c: int, size: nat)
    returns (left: nat, s: nat)
    requires m.Valid() && m.out == map[] && Layout(entries, top, |m.mem|) && Bounded(entries, top)
    requires size > 0 && MapFind(entries, start, 0) == Some(obj)
    requires SetLoop(entries, View(entries, top, m.mem), start, c, size).Some?
    modifies m
    ensures m.Valid() && m.out == map[] && Layout(entries, top, |m.mem|) && start < s && start < top
    ensures SetLoop(entries, View(entries, top, m.mem), s, c, left)
      == SetLoop(entries, View(entries, top, old(m.mem)), start, c, size)
  {
    hide Layout, View, MapFind, Machine.Valid, Int32, Bounded, ObjectSet;
    FoundHolds(entries, top, start);
    left, s := size, start;
    var gap := Gap(obj, s);
    GapExact(obj, s);
    var objSize: int;
    if gap > 0 {
      ProgramMemset(m, entries, top, s, c, gap);
      left := LeftAfterGap(left, gap);
      s := s + gap;
      objSize := obj.size;
    } else {
      objSize := obj.size + gap;
    }
    objSize := if objSize < left then objSize else left;
    SetInObject(m, entries, top, obj, s - obj.addr, c, objSize);
    left := left - objSize;
    s := s + objSize;
  }
}
