/**
 A block with copies at several accelerator addresses. Writing the block writes every copy, one transfer
 per distinct address however many modes share it; as long as the transfers succeed the copies stay equal.
 */
module Replicas {
  import opened Bytes
  import opened OwnerLists
  import opened BlockGroup
  import opened Wrappers

  /** The bytes of all accelerators. */
  type Device = map<AccPtr, byte>

  datatype Transfer = Transfer(mode: Mode, to: AccPtr, data: seq<byte>)

  predicate Covers(a: AccPtr, n: nat, p: AccPtr) {
    p.pas == a.pas && a.addr <= p.addr < a.addr + n
  }

  function Stored(m: Device, to: AccPtr, data: seq<byte>): Device {
    map p | p in m :: if Covers(to, |data|, p) then data[p.addr - to.addr] else m[p]
  }

  ghost predicate Allocated(m: Device, a: AccPtr, size: nat) {
    forall p :: Covers(a, size, p) ==> p in m
  }

  /** The copies of a block of `size` bytes occupy disjoint accelerator memory. */
  ghost predicate Separate(bases: set<AccPtr>, size: nat) {
    forall a, b, p :: a in bases && b in bases && Covers(a, size, p) && Covers(b, size, p) ==> a == b
  }

  ghost function Copy(m: Device, a: AccPtr, size: nat): (r: seq<byte>)
    requires Allocated(m, a, size)
    ensures |r| == size
    ensures forall k :: 0 <= k < size ==> a.Plus(k) in m && r[k] == m[a.Plus(k)]
  {
    assert forall k :: 0 <= k < size ==> Covers(a, size, a.Plus(k));
    seq(size, k requires 0 <= k < size => m[a.Plus(k)])
  }

  /** `after` is `before` with `data` written `off` bytes into the copies at `bases`, and nothing else changed. */
  ghost predicate Wrote(before: Device, after: Device, bases: set<AccPtr>, off: nat, data: seq<byte>) {
    && after.Keys == before.Keys
    && (forall a, p :: a in bases && Covers(a.Plus(off), |data|, p) && p in after ==>
        after[p] == data[p.addr - a.addr - off])
    && (forall p :: p in after && (forall a :: a in bases ==> !Covers(a.Plus(off), |data|, p)) ==>
        after[p] == before[p])
  }

  class Accelerators {
    /** The address space of the accelerator each mode runs on. */
    const home: Mode -> nat
    var mem: Device
    ghost var log: seq<Transfer>

    constructor (home: Mode -> nat, mem: Device)
      ensures this.home == home && this.mem == mem && log == []
    {
      this.home, this.mem, log := home, mem, [];
    }

    /** Where a transfer of a mode to `to` ends up: on the accelerator of the mode. */
    function Target(mode: Mode, to: AccPtr): AccPtr {
      AccPtr(home(mode), to.addr)
    }

    /** Mode::copyToAccelerator, bufferToAccelerator or memset: `fails` is the outcome the device decides. */
    method Write(mode: Mode, to: AccPtr, data: seq<byte>, fails: bool) returns (ok: bool)
      modifies this
      ensures ok == !fails && log == old(log) + [Transfer(mode, to, data)]
      ensures mem == if fails then old(mem) else Stored(old(mem), Target(mode, to), data)
    {
      log := log + [Transfer(mode, to, data)];
      if !fails {
        mem := Stored(mem, Target(mode, to), data);
      }
      ok := !fails;
    }
  }

  lemma {:induction false} WroteNothing(m: Device, off: nat, data: seq<byte>)
    ensures Wrote(m, m, {}, off, data)
  {
  }

  /** A copy in separate memory is not overwritten. */
  lemma {:induction false} NotOverwritten(done: set<AccPtr>, a: AccPtr, size: nat, off: nat, n: nat)
    requires Separate(done + {a}, size) && a !in done && off + n <= size
    ensures forall b, p :: b in done && Covers(b.Plus(off), n, p) ==> !Covers(a.Plus(off), n, p)
  {
    forall b, p | b in done && Covers(b.Plus(off), n, p)
      ensures !Covers(a.Plus(off), n, p)
    {
      assert Covers(b, size, p);
      assert Covers(a, size, p) ==> a == b;
    }
  }

  /** One more copy written. */
  lemma {:induction false} WroteOneMore(before: Device, mid: Device, done: set<AccPtr>, a: AccPtr, size: nat,
      off: nat, data: seq<byte>)
    requires Wrote(before, mid, done, off, data) && off + |data| <= size
    requires Separate(done + {a}, size) && a !in done
    ensures Wrote(before, Stored(mid, a.Plus(off), data), done + {a}, off, data)
  {
    hide Separate;
    NotOverwritten(done, a, size, off, |data|);
  }

  ghost function Elements(order: seq<AccPtr>): set<AccPtr> {
    set a | a in order
  }

  /** One transfer of `data` per address of `order`, by the mode that issues it for the address. */
  ghost predicate OneEach(ts: seq<Transfer>, order: seq<AccPtr>, issuers: map<AccPtr, Mode>, off: nat,
      data: seq<byte>)
  {
    && |ts| == |order|
    && (forall j, k :: 0 <= j < k < |order| ==> order[j] != order[k])
    && (forall k :: 0 <= k < |order| ==>
          order[k] in issuers && ts[k] == Transfer(issuers[order[k]], order[k].Plus(off), data))
  }

  lemma {:induction false} OneMore(ts: seq<Transfer>, order: seq<AccPtr>, issuers: map<AccPtr, Mode>, off: nat,
      data: seq<byte>, a: AccPtr)
    requires OneEach(ts, order, issuers, off, data) && a in issuers && a !in order
    ensures OneEach(ts + [Transfer(issuers[a], a.Plus(off), data)], order + [a], issuers, off, data)
    ensures Elements(order + [a]) == Elements(order) + {a}
  {
  }

  /**
   The shortcut issues the transfer of a block with one owner; otherwise the first mode listed for each
   address does.
   */
  ghost function Issuers(b: GenericBlock): (r: map<AccPtr, Mode>)
    requires b.Consistent() && (|b.owners| == 1 ==> b.ownerShortcut.Some?)
    reads b
    ensures r.Keys == b.lists.Keys
  {
    map a | a in b.lists :: if |b.owners| == 1 then b.ownerShortcut.value else b.lists[a][0]
  }

  /** One address less to try. */
  lemma {:induction false} OneLess(all: set<AccPtr>, todo: set<AccPtr>, order: seq<AccPtr>, a: AccPtr,
      fails: set<AccPtr>)
    requires Elements(order) == all - todo && a in todo && todo <= all
    ensures a !in order && Elements(order) <= all && Elements(order + [a]) == all - (todo - {a})
    ensures fails !! Elements(order + [a]) <==> fails !! Elements(order) && a !in fails
  {
    assert Elements(order + [a]) == Elements(order) + {a};
    assert a in order ==> a in Elements(order);
  }

  lemma {:induction false} OneCopy(b: GenericBlock, m: Mode)
    requires b.Consistent() && |b.owners| == 1 && m in b.owners
    ensures b.lists.Keys == {b.owners[m]} && b.lists[b.owners[m]][0] == m
  {
    SoleKey(b.owners);
    var a := b.owners[m];
    assert b.lists[a][0] in b.lists[a];
    forall c | c in b.lists
      ensures c == a
    {
      assert b.lists[c][0] in b.lists[c];
    }
  }

  /** A block can have one owner and a shortcut that names another mode. */
  method StaleShortcut(first: AccPtr, second: AccPtr) returns (b: GenericBlock)
    ensures fresh(b) && b.Consistent() && b.size == 1 && b.owners == map[2 := second] && |b.owners| == 1
    ensures b.ownerShortcut == Some(1) && !ShortcutOwns(b)
  {
    hide Good, Inverse;
    b := new GenericBlock(0, 1);
    NewBlocksKnow([b], 0);
    assert Knows([b][0], map[], 0);
    b.AddOwner(1, first);
    assert b.owners == map[1 := first] && |b.owners| == 1;
    b.AddOwner(2, second);
    assert b.owners.Keys == {1, 2} && |b.owners.Keys| == 2;
    b.RemoveOwner(1);
    assert b.owners == map[2 := second];
  }

  /** A block whose shortcut, mode 1, runs on another accelerator than its owner, mode 2. */
  method StrayBlock() returns (c: BlockCopies)
    ensures fresh(c) && fresh(c.accelerators) && c.Valid() && c.shadow == [7] && c.block.size == 1
    ensures |c.block.owners| == 1 && c.block.lists.Keys == {AccPtr(2, 0)}
    ensures c.block.ownerShortcut == Some(1) && c.accelerators.home(1) == 1
    ensures c.accelerators.mem == map[AccPtr(1, 0) := 0, AccPtr(2, 0) := 0]
  {
    hide Good, Inverse, BlockCopies.Valid;
    var b := StaleShortcut(AccPtr(1, 0), AccPtr(2, 0));
    OneCopy(b, 2);
    var a := new Accelerators(m => m, map[AccPtr(1, 0) := 0, AccPtr(2, 0) := 0]);
    c := new BlockCopies(b, a, [7]);
    StrayValid(c);
  }

  /** The only copy of such a block misses a successful write. */
  method StrayWriteExample() returns (c: BlockCopies, ok: bool)
    ensures c.Valid() && c.block.lists.Keys == {AccPtr(2, 0)} && ok
    ensures c.shadow == [7] && c.accelerators.mem == map[AccPtr(1, 0) := 7, AccPtr(2, 0) := 0]
  {
    hide *;
    c := StrayBlock();
    c.ValidFacts();
    ghost var sent, order;
    ok, sent, order := c.ToAccelerator(0, 1, {});
    assert c.shadow[0..1] == [7];
    StraySent(c, sent, order);
  }

  lemma {:induction false} StrayValid(c: BlockCopies)
    requires c.block.Consistent() && c.block.owners == map[2 := AccPtr(2, 0)] && c.block.lists.Keys == {AccPtr(2, 0)}
    requires c.block.ownerShortcut == Some(1) && c.block.size == 1 && c.shadow == [7] && c.accelerators.home(2) == 2
    requires c.accelerators.mem == map[AccPtr(1, 0) := 0, AccPtr(2, 0) := 0]
    ensures c.Valid()
  {
    hide Good, Inverse;
    assert forall p :: Covers(AccPtr(2, 0), 1, p) ==> p == AccPtr(2, 0);
  }

  lemma {:induction false} StraySent(c: BlockCopies, sent: seq<Transfer>, order: seq<AccPtr>)
    requires c.block.Consistent() && |c.block.owners| == 1 && c.block.lists.Keys == {AccPtr(2, 0)}
    requires c.block.ownerShortcut == Some(1) && c.accelerators.home(1) == 1
    requires c.Sent(map[AccPtr(1, 0) := 0, AccPtr(2, 0) := 0], sent, order, true, {}, 0, [7])
    ensures c.accelerators.mem == map[AccPtr(1, 0) := 7, AccPtr(2, 0) := 0]
  {
    hide Good, Inverse, Attempted, OneEach, BlockCopies.Reached;
    var here := AccPtr(2, 0);
    assert here in c.block.lists && c.Astray(here, 0) == AccPtr(1, 0);
  }

  class BlockCopies {
    const block: GenericBlock
    const accelerators: Accelerators
    var shadow: seq<byte>

    constructor (block: GenericBlock, accelerators: Accelerators, shadow: seq<byte>)
      ensures this.block == block && this.accelerators == accelerators && this.shadow == shadow
    {
      this.block, this.accelerators, this.shadow := block, accelerators, shadow;
    }

    /** Every owner has its copy on its own accelerator; there is a shortcut once there has been an owner. */
    ghost predicate Valid()
      reads this, block, accelerators
    {
      && |shadow| == block.size && block.Consistent() && (|block.owners| > 0 ==> block.ownerShortcut.Some?)
      && Separate(block.lists.Keys, block.size)
      && (forall a :: a in block.lists ==> Allocated(accelerators.mem, a, block.size))
      && (forall m :: m in block.owners ==> accelerators.home(m) == block.owners[m].pas)
    }

    /** The shortcut of a block with one owner runs on the accelerator that has the copy. */
    ghost predicate Reached()
      reads block
    {
      forall a :: a in block.lists && |block.owners| == 1 && block.ownerShortcut.Some? ==>
        accelerators.home(block.ownerShortcut.value) == a.pas
    }

    /** A shortcut that names an owner does; a stale one may. */
    lemma {:induction false} OwnerReaches()
      requires Valid() && (|block.owners| == 1 ==> ShortcutOwns(block))
      ensures Reached()
    {
      if |block.owners| == 1 {
        OneCopy(block, block.ownerShortcut.value);
      }
    }

    /** Where a transfer by the shortcut goes. */
    ghost function Astray(a: AccPtr, off: nat): AccPtr
      requires block.ownerShortcut.Some?
      reads this, block
    {
      accelerators.Target(block.ownerShortcut.value, a.Plus(off))
    }

    /**
     What a call does to the accelerators: one transfer per address until one fails. When the shortcut is
     where the copy is, the addresses are written; otherwise a single write goes astray.
     */
    ghost predicate Sent(before: Device, sent: seq<Transfer>, order: seq<AccPtr>, ok: bool, fails: set<AccPtr>,
        off: nat, data: seq<byte>)
      requires block.Consistent() && (|block.owners| > 0 ==> block.ownerShortcut.Some?)
      reads this, block, accelerators
    {
      && OneEach(sent, order, Issuers(block), off, data)
      && Elements(order) <= block.lists.Keys && (ok ==> Elements(order) == block.lists.Keys)
      && (Reached() ==> Attempted(before, accelerators.mem, sent, order, ok, fails, Issuers(block), off, data))
      && (|block.owners| == 1 && !ok ==> accelerators.mem == before)
      && (|block.owners| == 1 && ok ==>
            forall a :: a in block.lists ==> accelerators.mem == Stored(before, Astray(a, off), data))
    }

    /**
     The transfers one by one: to the offset in the copy at each address tried, by the shortcut if there is
     one owner and else by the first mode of the list of the address.
     */
    ghost predicate Issued(sent: seq<Transfer>, order: seq<AccPtr>, off: nat, data: seq<byte>)
      reads block
    {
      |sent| == |order| &&
      forall k :: 0 <= k < |order| ==>
        && order[k] in block.lists && |block.lists[order[k]]| > 0 && block.ownerShortcut.Some?
        && sent[k].to.pas == order[k].pas && sent[k].to.addr == order[k].addr + off && sent[k].data == data
        && sent[k].mode == if |block.owners| == 1 then block.ownerShortcut.value else block.lists[order[k]][0]
    }

    lemma {:induction false} SentIssued(before: Device, sent: seq<Transfer>, order: seq<AccPtr>, ok: bool,
        fails: set<AccPtr>, off: nat, data: seq<byte>)
      requires Valid() && Sent(before, sent, order, ok, fails, off, data)
      ensures Issued(sent, order, off, data)
    {
      hide Attempted, Separate, Allocated, Reached, Stored;
      forall a | a in block.lists
        ensures |block.lists[a]| > 0 && |block.owners| > 0
      {
        assert block.lists[a][0] in block.lists[a];
      }
    }

    /** One transfer of the loops below, by a mode on the accelerator that has the copy. */
    method WriteOne(mode: Mode, a: AccPtr, off: nat, data: seq<byte>, fails: set<AccPtr>, ghost before: Device,
        ghost sent: seq<Transfer>, ghost order: seq<AccPtr>)
      returns (ok: bool)
      requires Valid() && off + |data| <= block.size && a in block.lists && a !in order
      requires Elements(order) <= block.lists.Keys
      requires mode == Issuers(block)[a] && accelerators.home(mode) == a.pas
      requires Attempted(before, accelerators.mem, sent, order, true, fails, Issuers(block), off, data)
      modifies accelerators
      ensures Valid() && ok == (a !in fails)
      ensures accelerators.log == old(accelerators.log) + [Transfer(mode, a.Plus(off), data)]
      ensures Attempted(before, accelerators.mem, sent + [Transfer(mode, a.Plus(off), data)], order + [a],
        ok, fails, Issuers(block), off, data)
    {
      hide Attempted, Covers, Separate, Stored;
      StoredKeys(accelerators.mem, a.Plus(off), data);
      SubsetSeparate(block.lists.Keys, Elements(order) + {a}, block.size);
      AttemptMore(before, accelerators.mem, sent, order, fails, Issuers(block), off, data, a, block.size);
      ok := accelerators.Write(mode, a.Plus(off), data, a in fails);
    }

    /**
     The transfer for the only owner, issued by the shortcut. If that is on another accelerator, the bytes
     go astray.
     */
    method WriteSole(off: nat, data: seq<byte>, fails: set<AccPtr>)
      returns (ok: bool, ghost sent: seq<Transfer>, ghost order: seq<AccPtr>)
      requires Valid() && off + |data| <= block.size && |block.owners| == 1
      modifies accelerators
      ensures Valid() && ok == (fails !! block.lists.Keys) && accelerators.log == old(accelerators.log) + sent
      ensures Sent(old(accelerators.mem), sent, order, ok, fails, off, data)
    {
      hide Attempted, Stored, OneEach, Separate;
      ghost var mem0 := accelerators.mem;
      NoneAttempted(mem0, fails, Issuers(block), off, data);
      NoneSent(Issuers(block), off, data);
      var m := FirstKey(block.owners);
      var a := block.owners[m];
      OneCopy(block, m);
      StoredKeys(mem0, Astray(a, off), data);
      OneMore([], [], Issuers(block), off, data, a);
      assert Elements([]) + {a} == block.lists.Keys;
      AttemptMore(mem0, mem0, [], [], fails, Issuers(block), off, data, a, block.size);
      ok := accelerators.Write(block.ownerShortcut.value, a.Plus(off), data, a in fails);
      sent, order := [] + [Transfer(block.ownerShortcut.value, a.Plus(off), data)], [] + [a];
    }

    /** The transfers for several owners. */
    lemma {:induction false} SeveralSent(before: Device, sent: seq<Transfer>, order: seq<AccPtr>, ok: bool,
        fails: set<AccPtr>, off: nat, data: seq<byte>)
      requires Valid() && |block.owners| != 1
      requires Attempted(before, accelerators.mem, sent, order, ok, fails, Issuers(block), off, data)
      requires Elements(order) <= block.lists.Keys && (ok ==> Elements(order) == block.lists.Keys)
      ensures Sent(before, sent, order, ok, fails, off, data)
    {
    }

    /** The loop over the addresses, until a transfer fails. */
    method WriteEach(off: nat, data: seq<byte>, fails: set<AccPtr>)
      returns (ok: bool, ghost sent: seq<Transfer>, ghost order: seq<AccPtr>)
      requires Valid() && off + |data| <= block.size && |block.owners| != 1
      modifies accelerators
      ensures Valid() && ok == (fails !! block.lists.Keys) && accelerators.log == old(accelerators.log) + sent
      ensures Elements(order) <= block.lists.Keys && (ok ==> Elements(order) == block.lists.Keys)
      ensures Attempted(old(accelerators.mem), accelerators.mem, sent, order, ok, fails, Issuers(block), off, data)
    {
      hide Attempted, Valid, Issuers, Elements, OneEach;
      ghost var mem0 := accelerators.mem;
      ValidFacts();
      NoneAttempted(mem0, fails, Issuers(block), off, data);
      NoneSent(Issuers(block), off, data);
      sent, order, ok := [], [], true;
      var todo := block.lists.Keys;
      while ok && todo != {}
        invariant Valid() && todo <= block.lists.Keys && accelerators.log == old(accelerators.log) + sent
        invariant Elements(order) == block.lists.Keys - todo && ok == (fails !! Elements(order))
        invariant Attempted(mem0, accelerators.mem, sent, order, ok, fails, Issuers(block), off, data)
        decreases todo
      {
        var a :| a in todo;
        OneLess(block.lists.Keys, todo, order, a, fails);
        FirstOwns(a);
        ok := WriteOne(block.lists[a][0], a, off, data, fails, mem0, sent, order);
        sent, order := sent + [Transfer(block.lists[a][0], a.Plus(off), data)], order + [a];
        todo := todo - {a};
      }
    }

    /**
     The writes of toAccelerator, copyFromBuffer and memset: one transfer for the only owner, or one for
     each address until one fails. `order` are the addresses tried and `sent` the transfers.
     */
    method WriteCopies(off: nat, data: seq<byte>, fails: set<AccPtr>)
      returns (ok: bool, ghost sent: seq<Transfer>, ghost order: seq<AccPtr>)
      requires Valid() && off + |data| <= block.size
      modifies accelerators
      ensures Valid() && ok == (fails !! block.lists.Keys) && accelerators.log == old(accelerators.log) + sent
      ensures Sent(old(accelerators.mem), sent, order, ok, fails, off, data) && Issued(sent, order, off, data)
    {
      hide Attempted, Valid, OneEach, Issuers, Sent, Issued;
      ValidFacts();
      if |block.owners| == 1 {
        ok, sent, order := WriteSole(off, data, fails);
      } else {
        ok, sent, order := WriteEach(off, data, fails);
        SeveralSent(old(accelerators.mem), sent, order, ok, fails, off, data);
      }
      SentIssued(old(accelerators.mem), sent, order, ok, fails, off, data);
    }

    method ToAccelerator(off: nat, count: nat, fails: set<AccPtr>)
      returns (ok: bool, ghost sent: seq<Transfer>, ghost order: seq<AccPtr>)
      requires Valid() && off + count <= block.size
      modifies accelerators
      ensures Valid() && ok == (fails !! block.lists.Keys) && accelerators.log == old(accelerators.log) + sent
      ensures Sent(old(accelerators.mem), sent, order, ok, fails, off, shadow[off..off + count])
      ensures Issued(sent, order, off, shadow[off..off + count])
    {
      hide Sent, Valid, Issued;
      ValidFacts();
      ok, sent, order := WriteCopies(off, shadow[off..off + count], fails);
    }

    /** `toHost` is the destination the coherence protocol chose: the shadow or the accelerators. */
    method CopyFromBuffer(off: nat, buffer: seq<byte>, bufferOff: nat, count: nat, toHost: bool, fails: set<AccPtr>)
      returns (ok: bool, ghost sent: seq<Transfer>, ghost order: seq<AccPtr>)
      requires Valid() && off + count <= block.size && bufferOff + count <= |buffer|
      modifies `shadow, accelerators
      ensures Valid() && ok == (toHost || fails !! block.lists.Keys) && accelerators.log == old(accelerators.log) + sent
      ensures toHost ==> shadow == Splice(old(shadow), off, buffer[bufferOff..bufferOff + count])
      ensures toHost ==> accelerators.mem == old(accelerators.mem) && sent == []
      ensures !toHost ==> shadow == old(shadow)
      ensures !toHost ==> Sent(old(accelerators.mem), sent, order, ok, fails, off, buffer[bufferOff..bufferOff + count])
      ensures !toHost ==> Issued(sent, order, off, buffer[bufferOff..bufferOff + count])
    {
      hide Attempted, OneEach, Stored, Sent, Issued;
      ok, sent, order := true, [], [];
      if toHost {
        shadow := Splice(shadow, off, buffer[bufferOff..bufferOff + count]);
      } else {
        ok, sent, order := WriteCopies(off, buffer[bufferOff..bufferOff + count], fails);
      }
    }

    method Memset(v: int, count: nat, off: nat, toHost: bool, fails: set<AccPtr>)
      returns (ok: bool, ghost sent: seq<Transfer>, ghost order: seq<AccPtr>)
      requires Valid() && off + count <= block.size
      modifies `shadow, accelerators
      ensures Valid() && ok == (toHost || fails !! block.lists.Keys) && accelerators.log == old(accelerators.log) + sent
      ensures toHost ==> shadow == Splice(old(shadow), off, Repeated(v, count))
      ensures toHost ==> accelerators.mem == old(accelerators.mem) && sent == []
      ensures !toHost ==> shadow == old(shadow)
      ensures !toHost ==> Sent(old(accelerators.mem), sent, order, ok, fails, off, Repeated(v, count))
      ensures !toHost ==> Issued(sent, order, off, Repeated(v, count))
    {
      hide Attempted, OneEach, Stored, Sent, Issued;
      ok, sent, order := true, [], [];
      if toHost {
        shadow := Splice(shadow, off, Repeated(v, count));
      } else {
        ok, sent, order := WriteCopies(off, Repeated(v, count), fails);
      }
    }

    // ---- any sequence of calls ----

    method Dispatch(c: Call, fails: set<AccPtr>) returns (ok: bool, ghost sent: seq<Transfer>, ghost order: seq<AccPtr>)
      requires Valid() && Fits(c, block.size)
      modifies `shadow, accelerators
      ensures Valid() && ok == (OnHost(c) || fails !! block.lists.Keys)
      ensures |old(shadow)| == block.size && accelerators.log == old(accelerators.log) + sent
      ensures OnHost(c) ==> shadow == Splice(old(shadow), c.off, DataOf(c, old(shadow)))
      ensures OnHost(c) ==> accelerators.mem == old(accelerators.mem) && sent == []
      ensures !OnHost(c) ==> shadow == old(shadow)
      ensures !OnHost(c) ==> Sent(old(accelerators.mem), sent, order, ok, fails, c.off, DataOf(c, old(shadow)))
    {
      hide Sent, Valid, Splice, Repeated;
      ValidFacts();
      match c {
        case FromShadow(off, count) => ok, sent, order := ToAccelerator(off, count, fails);
        case FromBuffer(off, buffer, bufferOff, count, toHost) =>
          ok, sent, order := CopyFromBuffer(off, buffer, bufferOff, count, toHost, fails);
        case Fill(v, count, off, toHost) => ok, sent, order := Memset(v, count, off, toHost, fails);
      }
    }

    /** One call. When it succeeds, the shadow and every copy are what its flat effect makes of them. */
    method Perform(c: Call, fails: set<AccPtr>) returns (ok: bool)
      requires Valid() && Reached() && Fits(c, block.size)
      modifies `shadow, accelerators
      ensures Valid() && |old(shadow)| == block.size && ok == (OnHost(c) || fails !! block.lists.Keys)
      ensures ok ==> shadow == Effect(c, old(shadow), old(shadow)).0
      ensures ok ==> CopiesFollow(old(accelerators.mem), accelerators.mem, block.lists.Keys, [c], old(shadow))
      ensures ok ==> |accelerators.log| == |old(accelerators.log)| + if OnHost(c) then 0 else |block.lists.Keys|
    {
      hide Sent, Valid, CopiesFollow, Splice, Allocated;
      ghost var mem0, shadow0 := accelerators.mem, shadow;
      ghost var sent, order;
      ValidFacts();
      ok, sent, order := Dispatch(c, fails);
      if ok {
        if OnHost(c) {
          HostFollows(c, shadow0);
        } else {
          SentFollows(c, mem0, shadow0, sent, order, fails);
        }
      }
    }

    lemma {:induction false} HostFollows(c: Call, shadow0: seq<byte>)
      requires Valid() && Fits(c, block.size) && |shadow0| == block.size && OnHost(c)
      ensures CopiesFollow(accelerators.mem, accelerators.mem, block.lists.Keys, [c], shadow0)
    {
      hide Copy, Allocated;
      forall a | a in block.lists
        ensures Effects([c], shadow0, Copy(accelerators.mem, a, block.size)).1 == Copy(accelerators.mem, a, block.size)
      {
        OneEffect(c, shadow0, Copy(accelerators.mem, a, block.size));
      }
    }

    lemma {:induction false} SentFollows(c: Call, before: Device, shadow0: seq<byte>, sent: seq<Transfer>,
        order: seq<AccPtr>, fails: set<AccPtr>)
      requires Valid() && Reached() && Fits(c, block.size) && |shadow0| == block.size && !OnHost(c)
      requires Sent(before, sent, order, true, fails, c.off, DataOf(c, shadow0))
      requires forall a :: a in block.lists ==> Allocated(before, a, block.size)
      ensures CopiesFollow(before, accelerators.mem, block.lists.Keys, [c], shadow0) && |sent| == |block.lists.Keys|
    {
      hide Copy, Allocated, Splice, Sent;
      SentWrites(before, sent, order, fails, c.off, DataOf(c, shadow0));
      forall a | a in block.lists
        ensures Effects([c], shadow0, Copy(before, a, block.size)).1
          == Splice(Copy(before, a, block.size), c.off, DataOf(c, shadow0))
      {
        OneEffect(c, shadow0, Copy(before, a, block.size));
      }
    }

    /** A successful call writes every copy, with one transfer for each. */
    lemma {:induction false} SentWrites(before: Device, sent: seq<Transfer>, order: seq<AccPtr>, fails: set<AccPtr>,
        off: nat, data: seq<byte>)
      requires Valid() && Reached() && off + |data| <= block.size && Sent(before, sent, order, true, fails, off, data)
      requires forall a :: a in block.lists ==> Allocated(before, a, block.size)
      ensures |sent| == |block.lists.Keys|
      ensures forall a :: a in block.lists ==>
        Copy(accelerators.mem, a, block.size) == Splice(Copy(before, a, block.size), off, data)
    {
      hide Separate, Allocated, Copy, Wrote;
      OrderCount(order);
      forall a | a in block.lists
        ensures Copy(accelerators.mem, a, block.size) == Splice(Copy(before, a, block.size), off, data)
      {
        WrittenCopy(before, accelerators.mem, block.lists.Keys, block.size, off, data, a);
      }
    }

    /**
     Any calls, until one fails; `n` succeed. The shadow and every copy are what the flat effects of those
     calls make of them, so that copies that agreed before agree after them; and each of the calls made one
     transfer per address, or none.
     */
    method PerformAll(calls: seq<Call>, fails: seq<set<AccPtr>>) returns (n: nat)
      requires Valid() && Reached() && |fails| == |calls| && AllFit(calls, block.size)
      modifies `shadow, accelerators
      ensures Valid() && |old(shadow)| == block.size
      ensures n <= |calls| && (n < |calls| ==> !OnHost(calls[n]) && !(fails[n] !! block.lists.Keys))
      ensures forall k :: 0 <= k < n ==> OnHost(calls[k]) || fails[k] !! block.lists.Keys
      ensures n == |calls| ==> shadow == Effects(calls, old(shadow), old(shadow)).0
      ensures n == |calls| ==>
        CopiesFollow(old(accelerators.mem), accelerators.mem, block.lists.Keys, calls, old(shadow))
      ensures n == |calls| ==> |accelerators.log| == |old(accelerators.log)| + Transfers(calls, |block.lists.Keys|)
      ensures n == |calls| && Agree(old(accelerators.mem), block.lists.Keys, block.size) ==>
        Agree(accelerators.mem, block.lists.Keys, block.size)
    {
      hide Valid, CopiesFollow, Agree, Effect, Effects, Transfers, Reached;
      ghost var mem0, shadow0 := accelerators.mem, shadow;
      ValidFacts();
      NothingFollows(shadow0);
      n := 0;
      while n < |calls|
        invariant 0 <= n <= |calls| && Valid()
        invariant forall k :: 0 <= k < n ==> OnHost(calls[k]) || fails[k] !! block.lists.Keys
        invariant AllFit(calls[..n], block.size) && shadow == Effects(calls[..n], shadow0, shadow0).0
        invariant CopiesFollow(mem0, accelerators.mem, block.lists.Keys, calls[..n], shadow0)
        invariant |accelerators.log| == |old(accelerators.log)| + Transfers(calls[..n], |block.lists.Keys|)
      {
        ghost var mem1 := accelerators.mem;
        var ok := Perform(calls[n], fails[n]);
        if !ok {
          return;
        }
        FollowMore(mem0, mem1, accelerators.mem, block.lists.Keys, calls[..n], calls[n], shadow0);
        EffectsMore(calls[..n], calls[n], shadow0, shadow0);
        TransfersMore(calls[..n], calls[n], |block.lists.Keys|);
        assert calls[..n] + [calls[n]] == calls[..n + 1];
        n := n + 1;
      }
      assert calls[..n] == calls;
      if Agree(mem0, block.lists.Keys, block.size) {
        FollowersAgree(mem0, accelerators.mem, block.lists.Keys, calls, shadow0);
      }
    }

    lemma {:induction false} NothingFollows(shadow0: seq<byte>)
      requires Valid() && |shadow0| == block.size
      ensures CopiesFollow(accelerators.mem, accelerators.mem, block.lists.Keys, [], shadow0)
      ensures Effects([], shadow0, shadow0).0 == shadow0
      ensures Transfers([], |block.lists.Keys|) == 0
    {
    }

    /** Every copy holds what the shadow holds. */
    ghost predicate InSync()
      reads this, block, accelerators
    {
      AllHold(accelerators.mem, block.lists.Keys, block.size, shadow)
    }

    /**
     GenericBlock::addOwner. A copy at a new address, when it is not the first, is filled from the shadow if
     the protocol asks for an update. The copies stay in sync exactly if the address is not new, or the
     update succeeds, or the memory happens to hold the block already.
     */
    method AddOwner(mode: Mode, acc: AccPtr, needUpdate: bool, fails: bool)
      requires Valid() && mode !in block.owners && Allocated(accelerators.mem, acc, block.size)
      requires Separate(block.lists.Keys + {acc}, block.size) && accelerators.home(mode) == acc.pas
      modifies block, accelerators
      ensures block.Consistent() && block.owners == old(block.owners)[mode := acc]
      ensures block.lists == AddTo(old(block.lists), acc, mode) && Valid()
      ensures var update := needUpdate && acc !in old(block.lists) && old(block.lists) != map[];
        && accelerators.log == old(accelerators.log) + (if update then [Transfer(mode, acc, shadow)] else [])
        && accelerators.mem ==
          (if update && !fails then Stored(old(accelerators.mem), acc, shadow) else old(accelerators.mem))
      ensures old(InSync()) ==>
        var update := needUpdate && acc !in old(block.lists) && old(block.lists) != map[];
        var held := Copy(old(accelerators.mem), acc, block.size) == shadow;
        (InSync() <==> acc in old(block.lists) || (update && !fails) || held)
    {
      hide Separate, Allocated, Copy, Stored, AddTo, Inverse, Good, AllHold;
      ghost var mem0 := accelerators.mem;
      AddToKeys(block.lists, acc, mode);
      var filled := false;
      if needUpdate && acc !in block.lists && |block.lists| > 0 {
        filled := accelerators.Write(mode, acc, shadow, fails);
      }
      JoinedCopies(mem0, accelerators.mem, block.lists.Keys, acc, block.size, shadow, filled);
      StillCurrent(block, mode, acc);
      block.AddOwner(mode, acc);
    }

    lemma {:induction false} ValidFacts()
      requires Valid()
      ensures forall a :: a in block.lists ==> Allocated(accelerators.mem, a, block.size)
      ensures |shadow| == block.size && block.Consistent() && (|block.owners| > 0 ==> block.ownerShortcut.Some?)
    {
    }

    lemma {:induction false} FirstOwns(a: AccPtr)
      requires Valid() && a in block.lists && |block.owners| != 1
      ensures |block.lists[a]| > 0 && Issuers(block)[a] == block.lists[a][0]
      ensures accelerators.home(block.lists[a][0]) == a.pas
    {
      assert block.lists[a][0] in block.lists[a];
    }
  }

  /** A stray write leaves the copy as it was, so that it is right exactly when it held the bytes already. */
  lemma {:induction false} StrayWrite(m: Device, pas: nat, a: AccPtr, size: nat, off: nat, data: seq<byte>)
    requires Allocated(m, a, size) && off + |data| <= size
    ensures var after := Stored(m, AccPtr(pas, a.addr + off), data);
      && Allocated(after, a, size)
      && (Copy(after, a, size) == Splice(Copy(m, a, size), off, data)
          <==> pas == a.pas || Copy(m, a, size)[off..off + |data|] == data)
  {
    hide Allocated, Copy, Separate, Wrote;
    var after := Stored(m, AccPtr(pas, a.addr + off), data);
    SpliceSame(Copy(m, a, size), off, data);
    if pas == a.pas {
      WroteNothing(m, off, data);
      OneIsSeparate(a, size);
      assert {} + {a} == {a};
      WroteOneMore(m, m, {}, a, size, off, data);
      WrittenCopy(m, after, {a}, size, off, data, a);
    } else {
      ElsewhereCopy(m, AccPtr(pas, a.addr + off), data, a, size);
    }
  }

  lemma {:induction false} OneIsSeparate(a: AccPtr, size: nat)
    ensures Separate({} + {a}, size) && Separate({a}, size)
  {
  }

  lemma {:induction false} ElsewhereCopy(m: Device, to: AccPtr, data: seq<byte>, a: AccPtr, size: nat)
    requires Allocated(m, a, size) && to.pas != a.pas
    ensures Allocated(Stored(m, to, data), a, size) && Copy(Stored(m, to, data), a, size) == Copy(m, a, size)
  {
    var after := Stored(m, to, data);
    assert forall k :: 0 <= k < size ==> Copy(after, a, size)[k] == Copy(m, a, size)[k];
  }

  lemma {:induction false} StoredKeys(m: Device, to: AccPtr, data: seq<byte>)
    ensures Stored(m, to, data).Keys == m.Keys
  {
  }

  /**
   What a loop over the addresses has done: the addresses of `order` were tried, one transfer each, and
   all of them were written, except that when it was not `ok` the last transfer failed.
   */
  ghost predicate Attempted(before: Device, mem: Device, sent: seq<Transfer>, order: seq<AccPtr>, ok: bool,
      fails: set<AccPtr>, issuers: map<AccPtr, Mode>, off: nat, data: seq<byte>)
  {
    && OneEach(sent, order, issuers, off, data)
    && (ok ==> Wrote(before, mem, Elements(order), off, data))
    && (!ok ==> order != [] && order[|order| - 1] in fails)
    && (!ok ==> Wrote(before, mem, Elements(order[..|order| - 1]), off, data))
  }

  /** One more address tried. */
  lemma {:induction false} AttemptMore(before: Device, mem: Device, sent: seq<Transfer>, order: seq<AccPtr>,
      fails: set<AccPtr>, issuers: map<AccPtr, Mode>, off: nat, data: seq<byte>, a: AccPtr, size: nat)
    requires Attempted(before, mem, sent, order, true, fails, issuers, off, data)
    requires a in issuers && a !in order && off + |data| <= size && Separate(Elements(order) + {a}, size)
    ensures Attempted(before, if a in fails then mem else Stored(mem, a.Plus(off), data),
      sent + [Transfer(issuers[a], a.Plus(off), data)], order + [a], a !in fails, fails, issuers, off, data)
  {
    hide OneEach, Wrote, Separate, Stored;
    OneMore(sent, order, issuers, off, data, a);
    WroteOneMore(before, mem, Elements(order), a, size, off, data);
    assert (order + [a])[..|order|] == order;
  }

  lemma {:induction false} NoneAttempted(m: Device, fails: set<AccPtr>, issuers: map<AccPtr, Mode>, off: nat,
      data: seq<byte>)
    ensures Attempted(m, m, [], [], true, fails, issuers, off, data)
  {
    NoneSent(issuers, off, data);
    WroteNothing(m, off, data);
  }

  // ---- calls and their flat effects ----

  /** A call of toAccelerator, copyFromBuffer or memset. */
  datatype Call =
    | FromShadow(off: nat, count: nat)
    | FromBuffer(off: nat, buffer: seq<byte>, bufferOff: nat, count: nat, toHost: bool)
    | Fill(v: int, count: nat, off: nat, toHost: bool)

  predicate OnHost(c: Call) {
    !c.FromShadow? && c.toHost
  }

  /** The call stays within a block of `size` bytes and within its buffer. */
  predicate Fits(c: Call, size: nat) {
    c.off + c.count <= size && (c.FromBuffer? ==> c.bufferOff + c.count <= |c.buffer|)
  }

  predicate AllFit(calls: seq<Call>, size: nat) {
    forall k :: 0 <= k < |calls| ==> Fits(calls[k], size)
  }

  /** The bytes a call writes. */
  function DataOf(c: Call, shadow: seq<byte>): (d: seq<byte>)
    requires Fits(c, |shadow|)
    ensures |d| == c.count
  {
    match c
    case FromShadow(off, count) => shadow[off..off + count]
    case FromBuffer(_, buffer, bufferOff, count, _) => buffer[bufferOff..bufferOff + count]
    case Fill(v, count, _, _) => Repeated(v, count)
  }

  /** What a call makes of the shadow and of the flat block that every copy is. */
  function Effect(c: Call, shadow: seq<byte>, flat: seq<byte>): (r: (seq<byte>, seq<byte>))
    requires |flat| == |shadow| && Fits(c, |shadow|)
    ensures |r.0| == |r.1| == |shadow|
  {
    if OnHost(c) then (Splice(shadow, c.off, DataOf(c, shadow)), flat)
    else (shadow, Splice(flat, c.off, DataOf(c, shadow)))
  }

  function Effects(calls: seq<Call>, shadow: seq<byte>, flat: seq<byte>): (r: (seq<byte>, seq<byte>))
    requires |flat| == |shadow| && AllFit(calls, |shadow|)
    ensures |r.0| == |r.1| == |shadow|
  {
    if calls == [] then (shadow, flat) else
      var (s, f) := Effects(calls[..|calls| - 1], shadow, flat);
      Effect(calls[|calls| - 1], s, f)
  }

  lemma {:induction false} EffectsMore(calls: seq<Call>, c: Call, shadow: seq<byte>, flat: seq<byte>)
    requires |flat| == |shadow| && AllFit(calls, |shadow|) && Fits(c, |shadow|)
    ensures AllFit(calls + [c], |shadow|)
    ensures var (s, f) := Effects(calls, shadow, flat);
      && Effects(calls + [c], shadow, flat) == Effect(c, s, f) == Effects([c], s, f)
      && Effects(calls + [c], shadow, flat).0 == Effect(c, s, s).0
    ensures Effects(calls, shadow, flat).0 == Effects(calls, shadow, shadow).0
  {
    hide Effect;
    assert (calls + [c])[..|calls|] == calls;
    var (s, f) := Effects(calls, shadow, flat);
    OneEffect(c, s, f);
    ShadowEffect(c, s, f);
    SameShadow(calls, shadow, flat);
  }

  lemma {:induction false} OneEffect(c: Call, shadow: seq<byte>, flat: seq<byte>)
    requires |flat| == |shadow| && Fits(c, |shadow|)
    ensures Effects([c], shadow, flat) == Effect(c, shadow, flat)
  {
    assert [c][..0] == [];
  }

  lemma {:induction false} ShadowEffect(c: Call, shadow: seq<byte>, flat: seq<byte>)
    requires |flat| == |shadow| && Fits(c, |shadow|)
    ensures Effect(c, shadow, flat).0 == Effect(c, shadow, shadow).0
  {
  }

  /** The shadow does not depend on the copies. */
  lemma {:induction false} SameShadow(calls: seq<Call>, shadow: seq<byte>, flat: seq<byte>)
    requires |flat| == |shadow| && AllFit(calls, |shadow|)
    ensures Effects(calls, shadow, flat).0 == Effects(calls, shadow, shadow).0
  {
    if calls != [] {
      SameShadow(calls[..|calls| - 1], shadow, flat);
    }
  }

  lemma {:induction false} TransfersMore(calls: seq<Call>, call: Call, c: nat)
    ensures Transfers(calls + [call], c) == Transfers(calls, c) + if OnHost(call) then 0 else c
  {
    assert (calls + [call])[..|calls|] == calls;
  }

  /** Every copy is what the flat effects of the calls make of it. */
  ghost predicate CopiesFollow(before: Device, after: Device, bases: set<AccPtr>, calls: seq<Call>, shadow: seq<byte>)
    requires AllFit(calls, |shadow|)
  {
    forall a :: a in bases ==>
      && Allocated(before, a, |shadow|) && Allocated(after, a, |shadow|)
      && Copy(after, a, |shadow|) == Effects(calls, shadow, Copy(before, a, |shadow|)).1
  }

  /** Following some calls and then one more is following all of them. */
  lemma {:induction false} FollowMore(before: Device, mid: Device, after: Device, bases: set<AccPtr>,
      calls: seq<Call>, c: Call, shadow: seq<byte>)
    requires AllFit(calls, |shadow|) && Fits(c, |shadow|) && CopiesFollow(before, mid, bases, calls, shadow)
    requires CopiesFollow(mid, after, bases, [c], Effects(calls, shadow, shadow).0)
    ensures AllFit(calls + [c], |shadow|) && CopiesFollow(before, after, bases, calls + [c], shadow)
  {
    hide Copy, Allocated, Effect, Effects;
    forall a | a in bases
      ensures Copy(after, a, |shadow|) == Effects(calls + [c], shadow, Copy(before, a, |shadow|)).1
    {
      EffectsMore(calls, c, shadow, Copy(before, a, |shadow|));
    }
  }

  /** Copies that follow the same calls agree if they did before. */
  lemma {:induction false} FollowersAgree(before: Device, after: Device, bases: set<AccPtr>, calls: seq<Call>,
      shadow: seq<byte>)
    requires AllFit(calls, |shadow|) && CopiesFollow(before, after, bases, calls, shadow)
    requires Agree(before, bases, |shadow|)
    ensures Agree(after, bases, |shadow|)
  {
    hide Copy, Allocated, Effects;
  }

  /** The transfers of the calls, for `c` addresses. */
  function Transfers(calls: seq<Call>, c: nat): nat {
    if calls == [] then 0 else
      Transfers(calls[..|calls| - 1], c) + if OnHost(calls[|calls| - 1]) then 0 else c
  }

  lemma {:induction false} OrderCount(order: seq<AccPtr>)
    requires forall j, k :: 0 <= j < k < |order| ==> order[j] != order[k]
    ensures |Elements(order)| == |order|
  {
    if order != [] {
      var rest := order[1..];
      OrderCount(rest);
      assert forall k :: 0 <= k < |rest| ==> rest[k] == order[k + 1] != order[0];
      assert order[0] !in Elements(rest);
      assert Elements(order) == Elements(rest) + {order[0]};
    }
  }

  lemma {:induction false} AddToKeys(l: Lists, a: AccPtr, m: Mode)
    ensures AddTo(l, a, m).Keys == l.Keys + {a}
  {
  }

  /** A block that had owners has more than one after another joins. */
  lemma {:induction false} StillCurrent(b: GenericBlock, mode: Mode, acc: AccPtr)
    requires b.Consistent() && mode !in b.owners
    ensures |b.owners[mode := acc]| == |b.owners| + 1
    ensures b.lists != map[] <==> |b.owners| > 0
  {
    assert b.owners[mode := acc].Keys == b.owners.Keys + {mode};
    if b.lists != map[] {
      var a :| a in b.lists;
      assert b.lists[a][0] in b.lists[a];
    }
    if |b.owners| > 0 {
      var m := FirstKey(b.owners);
    }
  }

  ghost predicate AllHold(m: Device, bases: set<AccPtr>, size: nat, shadow: seq<byte>) {
    forall a :: a in bases ==> Allocated(m, a, size) && Copy(m, a, size) == shadow
  }

  /** A copy that joins is filled or not; the others stay as they are. */
  lemma {:induction false} JoinedCopies(before: Device, after: Device, bases: set<AccPtr>, acc: AccPtr, size: nat,
      shadow: seq<byte>, filled: bool)
    requires |shadow| == size && Separate(bases + {acc}, size) && Allocated(before, acc, size)
    requires after == if filled then Stored(before, acc, shadow) else before
    requires filled ==> acc !in bases
    requires forall a :: a in bases ==> Allocated(before, a, size)
    ensures forall a :: a in bases + {acc} ==> Allocated(after, a, size)
    ensures AllHold(before, bases, size, shadow) ==>
      (AllHold(after, bases + {acc}, size, shadow) <==> acc in bases || filled || Copy(before, acc, size) == shadow)
  {
    hide Copy, Allocated, Separate, Stored;
    if filled {
      FilledCopy(before, bases, acc, size, shadow);
    }
  }

  /** A copy filled from the shadow holds it, and the other copies are as they were. */
  lemma {:induction false} FilledCopy(m: Device, bases: set<AccPtr>, acc: AccPtr, size: nat, shadow: seq<byte>)
    requires |shadow| == size && Separate(bases + {acc}, size) && acc !in bases && Allocated(m, acc, size)
    requires forall a :: a in bases ==> Allocated(m, a, size)
    ensures forall a :: a in bases + {acc} ==> Allocated(Stored(m, acc, shadow), a, size)
    ensures Copy(Stored(m, acc, shadow), acc, size) == shadow
    ensures forall a :: a in bases ==> Copy(Stored(m, acc, shadow), a, size) == Copy(m, a, size)
  {
    hide Copy, Allocated, Wrote, Separate, Stored;
    WroteAt(m, acc, shadow);
    SubsetSeparate(bases + {acc}, {acc}, size);
    WrittenCopy(m, Stored(m, acc, shadow), {acc}, size, 0, shadow, acc);
    assert Splice(Copy(m, acc, size), 0, shadow) == shadow;
    forall a | a in bases
      ensures Allocated(Stored(m, acc, shadow), a, size) && Copy(Stored(m, acc, shadow), a, size) == Copy(m, a, size)
    {
      SubsetSeparate(bases + {acc}, {acc} + {a}, size);
      UnwrittenCopy(m, Stored(m, acc, shadow), {acc}, size, 0, shadow, a);
    }
  }

  lemma {:induction false} WroteAt(m: Device, acc: AccPtr, data: seq<byte>)
    ensures Wrote(m, Stored(m, acc, data), {acc}, 0, data)
  {
    assert acc.Plus(0) == acc;
  }

  lemma {:induction false} NoneSent(issuers: map<AccPtr, Mode>, off: nat, data: seq<byte>)
    ensures OneEach([], [], issuers, off, data) && Elements([]) == {}
  {
  }

  // ---- agreement ----

  /** The block as one flat byte string, written by one call after another. */
  ghost function Flat(s: seq<byte>, offs: seq<nat>, datas: seq<seq<byte>>): (r: seq<byte>)
    requires |offs| == |datas| && forall k :: 0 <= k < |offs| ==> offs[k] + |datas[k]| <= |s|
    ensures |r| == |s|
  {
    if offs == [] then s else
      var n := |offs| - 1;
      Splice(Flat(s, offs[..n], datas[..n]), offs[n], datas[n])
  }

  /** One byte of a written copy. */
  lemma {:induction false} WrittenByte(before: Device, after: Device, bases: set<AccPtr>, size: nat, off: nat,
      data: seq<byte>, a: AccPtr, k: nat)
    requires Wrote(before, after, bases, off, data) && off + |data| <= size && k < size
    requires Allocated(before, a, size) && a in bases && Separate(bases, size)
    ensures a.Plus(k) in before && a.Plus(k) in after
    ensures after[a.Plus(k)] == if off <= k < off + |data| then data[k - off] else before[a.Plus(k)]
  {
    var p := a.Plus(k);
    assert Covers(a, size, p);
    if off <= k < off + |data| {
      assert Covers(a.Plus(off), |data|, p);
    } else {
      forall b | b in bases
        ensures !Covers(b.Plus(off), |data|, p)
      {
        assert Covers(b.Plus(off), |data|, p) ==> Covers(b, size, p);
      }
    }
  }

  /** A written copy is the old copy with the data spliced in. */
  lemma {:induction false} WrittenCopy(before: Device, after: Device, bases: set<AccPtr>, size: nat, off: nat,
      data: seq<byte>, a: AccPtr)
    requires Wrote(before, after, bases, off, data) && off + |data| <= size
    requires Allocated(before, a, size) && a in bases && Separate(bases, size)
    ensures Allocated(after, a, size) && Copy(after, a, size) == Splice(Copy(before, a, size), off, data)
  {
    assert Allocated(after, a, size);
    hide Wrote, Allocated, Separate, Covers;
    forall k | 0 <= k < size
      ensures Copy(after, a, size)[k] == Splice(Copy(before, a, size), off, data)[k]
    {
      WrittenByte(before, after, bases, size, off, data, a, k);
    }
  }

  /** A copy that was not written is as before. */
  lemma {:induction false} UnwrittenCopy(before: Device, after: Device, done: set<AccPtr>, size: nat, off: nat,
      data: seq<byte>, a: AccPtr)
    requires Wrote(before, after, done, off, data) && off + |data| <= size
    requires Allocated(before, a, size) && a !in done && Separate(done + {a}, size)
    ensures Allocated(after, a, size) && Copy(after, a, size) == Copy(before, a, size)
  {
    forall k | 0 <= k < size
      ensures Copy(after, a, size)[k] == Copy(before, a, size)[k]
    {
      var p := a.Plus(k);
      assert Covers(a, size, p);
      forall b | b in done
        ensures !Covers(b.Plus(off), |data|, p)
      {
        assert Covers(b.Plus(off), |data|, p) ==> Covers(b, size, p);
      }
    }
  }

  ghost predicate Agree(m: Device, bases: set<AccPtr>, size: nat) {
    && (forall a :: a in bases ==> Allocated(m, a, size))
    && (forall a, b :: a in bases && b in bases ==> Copy(m, a, size) == Copy(m, b, size))
  }

  /** The states of the accelerators before and after each of a sequence of successful calls. */
  ghost predicate Calls(states: seq<Device>, offs: seq<nat>, datas: seq<seq<byte>>, bases: set<AccPtr>, size: nat) {
    && |states| == |offs| + 1 && |offs| == |datas|
    && (forall k :: 0 <= k < |offs| ==>
        offs[k] + |datas[k]| <= size && Wrote(states[k], states[k + 1], bases, offs[k], datas[k]))
  }

  /** After any successful calls, every copy is the flat block they write. */
  lemma {:induction false} CopyIsFlat(states: seq<Device>, offs: seq<nat>, datas: seq<seq<byte>>, bases: set<AccPtr>,
      size: nat, a: AccPtr)
    requires Calls(states, offs, datas, bases, size) && Separate(bases, size) && a in bases &&
      Allocated(states[0], a, size)
    ensures Allocated(states[|offs|], a, size)
    ensures Copy(states[|offs|], a, size) == Flat(Copy(states[0], a, size), offs, datas)
  {
    if offs != [] {
      hide Wrote, Allocated, Copy, Separate;
      var n := |offs| - 1;
      CopyIsFlat(states[..|offs|], offs[..n], datas[..n], bases, size, a);
      WrittenCopy(states[n], states[n + 1], bases, size, offs[n], datas[n], a);
    }
  }

  /** Copies that agree before any successful calls agree after them. */
  lemma {:induction false} ReplicasAgree(states: seq<Device>, offs: seq<nat>, datas: seq<seq<byte>>,
      bases: set<AccPtr>, size: nat)
    requires Calls(states, offs, datas, bases, size) && Separate(bases, size) && Agree(states[0], bases, size)
    ensures Agree(states[|offs|], bases, size)
  {
    hide Separate, Allocated, Copy, Wrote;
    forall a | a in bases
      ensures Allocated(states[|offs|], a, size)
      ensures Copy(states[|offs|], a, size) == Flat(Copy(states[0], a, size), offs, datas)
    {
      CopyIsFlat(states, offs, datas, bases, size, a);
    }
  }

  /**
   When a call fails half-way, the copies still agree exactly when it wrote none of them, or wrote what
   they already held.
   */
  lemma {:induction false} AgreementAfterFailure(before: Device, after: Device, bases: set<AccPtr>, done: set<AccPtr>,
      size: nat, off: nat, data: seq<byte>, a: AccPtr)
    requires Wrote(before, after, done, off, data) && off + |data| <= size && Separate(bases, size) &&
      Agree(before, bases, size)
    requires done < bases && a in bases
    ensures Agree(after, bases, size) <==> done == {} || Copy(before, a, size)[off..off + |data|] == data
  {
    hide Wrote, Allocated, Copy;
    var was := Copy(before, a, size);
    SubsetSeparate(bases, done, size);
    forall b | b in bases
      ensures Allocated(after, b, size) && Copy(after, b, size) == if b in done then Splice(was, off, data) else was
    {
      if b in done {
        WrittenCopy(before, after, done, size, off, data, b);
      } else {
        SubsetSeparate(bases, done + {b}, size);
        UnwrittenCopy(before, after, done, size, off, data, b);
      }
    }
    SpliceSame(was, off, data);
    var other :| other in bases && other !in done;
    if done != {} {
      var one :| one in done;
      assert Copy(after, one, size) == Splice(was, off, data) && Copy(after, other, size) == was;
    }
  }

  /** Two copies of one byte, of which a failed call has written the first. */
  lemma {:induction false} HalfWrittenExample(before: Device, after: Device, a: AccPtr, b: AccPtr)
    requires a == AccPtr(0, 0) && b == AccPtr(1, 0)
    requires before == map[a := 0, b := 0] && after == map[a := 1, b := 0]
    ensures Separate({a, b}, 1) && Agree(before, {a, b}, 1)
    ensures Wrote(before, after, {a}, 0, [1]) && !Agree(after, {a, b}, 1)
  {
    assert forall c, p :: Covers(c, 1, p) ==> p == c;
    assert a.Plus(0) == a && b.Plus(0) == b;
    assert Copy(before, a, 1) == [0] && Copy(before, b, 1) == [0];
    assert Copy(after, a, 1) == [1] && Copy(after, b, 1) == [0];
  }

  lemma {:induction false} SubsetSeparate(bases: set<AccPtr>, some: set<AccPtr>, size: nat)
    requires Separate(bases, size) && some <= bases
    ensures Separate(some, size)
  {
  }

  lemma {:induction false} SpliceSame(s: seq<byte>, off: nat, data: seq<byte>)
    requires off + |data| <= |s|
    ensures Splice(s, off, data) == s <==> s[off..off + |data|] == data
  {
    var spliced := Splice(s, off, data);
    assert spliced == s[..off] + data + s[off + |data|..];
    assert s == s[..off] + s[off..off + |data|] + s[off + |data|..];
    assert spliced[off..off + |data|] == data;
  }
}
