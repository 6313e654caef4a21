/**
 The memory all copies act on, and the I/O buffers that carry asynchronous transfers.

 `mem` is the sequential state of memory. The ghost program `trace` records every operation performed,
 so that Transfers.ScheduleIndependence applies to whatever a routine did: `Valid` says that the program
 is disciplined and that `mem` and `out` are its sequential result.
 */
module Machine {
  import opened Bytes
  import opened Transfers

  datatype State = Idle | ToHost | ToAccelerator

  class IOBuffer {
    const id: nat
    const addr: nat
    const size: nat
    var state: State

    constructor (id: nat, addr: nat, size: nat)
      ensures this.id == id && this.addr == addr && this.size == size && state == Idle
    {
      this.id, this.addr, this.size := id, addr, size;
      state := Idle;
    }
  }

  class Machine {
    var mem: seq<byte>
    var created: nat
    ghost var out: map<nat, Transfer>
    ghost var trace: seq<Op>
    ghost const start: seq<byte>

    ghost predicate Valid()
      reads this
    {
      && Disciplined(Snapshot(start, map[]), trace)
      && Run(Snapshot(start, map[]), trace) == Snapshot(mem, out)
      && (forall b :: b in out ==> b < created)
    }

    /** A buffer of this machine, idle exactly when none of its transfers is outstanding. */
    ghost predicate Owns(b: IOBuffer)
      reads this, b
    {
      && b.id < created
      && b.addr + b.size <= |mem|
      && (b.state == Idle <==> b.id !in out)
    }

    lemma {:induction false} OwnsFits(b: IOBuffer)
      requires Owns(b)
      ensures b.id < created && b.addr + b.size <= |mem|
      ensures b.state == Idle <==> b.id !in out
    {
    }

    constructor (contents: seq<byte>)
      ensures Valid() && mem == contents && out == map[] && start == contents && trace == []
    {
      mem, created := contents, 0;
      out, trace, start := map[], [], contents;
    }

    ghost method Record(op: Op)
      requires Disciplined(Snapshot(start, map[]), trace)
      requires Run(Snapshot(start, map[]), trace).out == out
      requires Allowed(op, Run(Snapshot(start, map[]), trace))
      requires Next(op, Run(Snapshot(start, map[]), trace)).mem == mem
      requires forall b :: b in Next(op, Run(Snapshot(start, map[]), trace)).out ==> b < created
      modifies `trace, `out
      ensures Valid()
      ensures out == Next(op, Snapshot(old(Run(Snapshot(start, map[]), trace).mem), old(out))).out
      ensures trace == old(trace) + [op]
    {
      hide Disciplined, Run, Allowed;
      RunAppend(Snapshot(start, map[]), trace, op);
      out := Next(op, Run(Snapshot(start, map[]), trace)).out;
      trace := trace + [op];
    }

    /** mode.createIOBuffer: fresh memory of at least the requested size, with unknown contents. */
    method CreateIOBuffer(size: nat) returns (b: IOBuffer)
      requires Valid()
      modifies this
      ensures Valid() && fresh(b) && Owns(b) && b.state == Idle
      ensures b.id == old(created) && created == old(created) + 1
      ensures b.addr == |old(mem)| && b.size >= size
      ensures |mem| == |old(mem)| + b.size && mem[..|old(mem)|] == old(mem)
      ensures out == old(out) && old(trace) <= trace
    {
      var contents: seq<byte> :| |contents| >= size by { assert |seq(size, _ => 0 as byte)| >= size; }
      b := new IOBuffer(created, |mem|, |contents|);
      mem := mem + contents;
      created := created + 1;
      Record(Create(contents));
    }

    /** ::memcpy, and the device copies that return only when they are done. */
    method Memcpy(dst: nat, src: nat, n: nat)
      requires Valid() && dst + n <= |mem| && src + n <= |mem| && MoveAllowed(out, dst, src, n)
      modifies `mem, `trace, `out
      ensures Valid() && mem == Moved(old(mem), dst, src, n) && out == old(out)
    {
      mem := Moved(mem, dst, src, n);
      Record(HostMove(dst, src, n));
    }

    /** ::memset, and the device fills that return only when they are done. */
    method Memset(dst: nat, v: int, n: nat)
      requires Valid() && dst + n <= |mem| && NoRace(out, Range(dst, n), {})
      modifies `mem, `trace, `out
      ensures Valid() && mem == Splice(old(mem), dst, Repeated(v, n)) && out == old(out)
    {
      mem := Splice(mem, dst, Repeated(v, n));
      Record(HostFill(dst, v, n));
    }

    /** ::memcpy(b.addr(), src, n): the host overwrites an idle buffer. */
    method FillBuffer(b: IOBuffer, src: nat, n: nat)
      requires Valid() && Owns(b) && b.state == Idle
      requires n <= b.size && src + n <= |mem| && MoveAllowed(out, b.addr, src, n)
      modifies `mem, `trace, `out
      ensures Valid() && Owns(b) && mem == Moved(old(mem), b.addr, src, n) && out == old(out)
    {
      Memcpy(b.addr, src, n);
    }

    /** ::memcpy(dst, b.addr(), n): the host reads an idle buffer. */
    method DrainBuffer(b: IOBuffer, dst: nat, n: nat)
      requires Valid() && Owns(b) && b.state == Idle
      requires n <= b.size && dst + n <= |mem| && MoveAllowed(out, dst, b.addr, n)
      modifies `mem, `trace, `out
      ensures Valid() && Owns(b) && mem == Moved(old(mem), dst, b.addr, n) && out == old(out)
    {
      Memcpy(dst, b.addr, n);
    }

    /** mode.bufferToAccelerator: start an asynchronous copy out of an idle buffer. */
    method BufferToAccelerator(b: IOBuffer, dst: nat, n: nat, off: nat)
      requires Valid() && Owns(b) && b.state == Idle
      requires off + n <= b.size && dst + n <= |mem| && MoveAllowed(out, dst, b.addr + off, n)
      modifies `mem, `trace, `out, b`state
      ensures Valid() && Owns(b) && b.state == ToAccelerator
      ensures mem == Moved(old(mem), dst, b.addr + off, n)
      ensures out == old(out)[b.id := Transfer(dst, b.addr + off, n)]
    {
      b.state := ToAccelerator;
      mem := Moved(mem, dst, b.addr + off, n);
      Record(Issue(b.id, dst, b.addr + off, n));
    }

    /** mode.acceleratorToBuffer: start an asynchronous copy into an idle buffer. */
    method AcceleratorToBuffer(b: IOBuffer, src: nat, n: nat, off: nat)
      requires Valid() && Owns(b) && b.state == Idle
      requires off + n <= b.size && src + n <= |mem| && MoveAllowed(out, b.addr + off, src, n)
      modifies `mem, `trace, `out, b`state
      ensures Valid() && Owns(b) && b.state == ToHost
      ensures mem == Moved(old(mem), b.addr + off, src, n)
      ensures out == old(out)[b.id := Transfer(b.addr + off, src, n)]
    {
      b.state := ToHost;
      mem := Moved(mem, b.addr + off, src, n);
      Record(Issue(b.id, b.addr + off, src, n));
    }

    /** buffer.wait(): returns once the buffer's transfer has completed. */
    method Wait(b: IOBuffer)
      requires Valid() && Owns(b)
      modifies `trace, `out, b`state
      ensures Valid() && Owns(b) && b.state == Idle
      ensures out == old(out) - {b.id}
    {
      if b.state != Idle {
        b.state := Idle;
        Record(Op.Wait(b.id));
      }
    }

    /** mode.destroyIOBuffer: a buffer may be given back only when it is idle. */
    method DestroyIOBuffer(b: IOBuffer)
      requires Valid() && Owns(b) && b.state == Idle
    {
    }
  }

  /** Whatever the completion schedule of the operations performed so far, memory ends as `m.mem` says. */
  lemma EverySchedule(m: Machine, run: seq<Config>)
    requires m.Valid() && m.out == map[]
    requires Schedule(m.trace, m.start, run) && run[|run| - 1].pc == |m.trace|
    ensures run[|run| - 1].mem == m.mem && run[|run| - 1].pending == {}
  {
    ScheduleIndependence(m.trace, m.start, run);
  }
}
