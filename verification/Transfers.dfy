/**
 Asynchronous transfers. A program is a sequence of operations: the host copies and fills memory,
 transfers are issued on I/O buffers and later waited for. The device may move the bytes of an issued
 transfer one by one, in any order, at any moment until the buffer is waited for.

 The sequential meaning of a program performs every transfer at the moment it is issued. A program is
 disciplined when no operation touches what an outstanding transfer still reads or writes. The theorem
 of this module is that a disciplined program leaves the same memory under every completion schedule,
 never deadlocks, and always terminates.
 */
module Transfers {
  import opened Bytes

  datatype Op =
    | Create(contents: seq<byte>)                    // a new I/O buffer at the end of memory
    | HostMove(dst: nat, src: nat, n: nat)           // ::memcpy, or a synchronous device copy
    | HostFill(dst: nat, v: int, n: nat)             // ::memset, or a synchronous device memset
    | Issue(buf: nat, dst: nat, src: nat, n: nat)    // start a transfer on buffer buf
    | Wait(buf: nat)                                 // wait until buf is idle

  datatype Transfer = Transfer(dst: nat, src: nat, n: nat)

  /** The sequential state: the memory, and the transfers issued but not yet waited for. */
  datatype Snapshot = Snapshot(mem: seq<byte>, out: map<nat, Transfer>)

  ghost predicate Fits(op: Op, len: nat) {
    match op
    case Create(_) => true
    case HostMove(dst, src, n) => dst + n <= len && src + n <= len
    case HostFill(dst, _, n) => dst + n <= len
    case Issue(_, dst, src, n) => dst + n <= len && src + n <= len
    case Wait(_) => true
  }

  /** One operation performed at once. */
  ghost function Next(op: Op, s: Snapshot): Snapshot {
    if !Fits(op, |s.mem|) then s
    else
      match op
      case Create(contents) => s.(mem := s.mem + contents)
      case HostMove(dst, src, n) => s.(mem := Moved(s.mem, dst, src, n))
      case HostFill(dst, v, n) => s.(mem := Splice(s.mem, dst, Repeated(v, n)))
      case Issue(buf, dst, src, n) =>
        Snapshot(Moved(s.mem, dst, src, n), s.out[buf := Transfer(dst, src, n)])
      case Wait(buf) => s.(out := s.out - {buf})
  }

  /** The sequential meaning of a program started in `s`. */
  ghost function Run(s: Snapshot, trace: seq<Op>): Snapshot {
    if |trace| == 0 then s else Next(trace[|trace| - 1], Run(s, trace[..|trace| - 1]))
  }

  /** Writing the addresses `written` and reading `read` disturbs no outstanding transfer. */
  ghost predicate NoRace(out: map<nat, Transfer>, written: set<nat>, read: set<nat>) {
    forall b :: b in out ==>
      && written !! Range(out[b].dst, out[b].n)
      && written !! Range(out[b].src, out[b].n)
      && read !! Range(out[b].dst, out[b].n)
  }

  ghost predicate MoveAllowed(out: map<nat, Transfer>, dst: nat, src: nat, n: nat) {
    Range(dst, n) !! Range(src, n) && NoRace(out, Range(dst, n), Range(src, n))
  }

  ghost predicate Allowed(op: Op, s: Snapshot) {
    && Fits(op, |s.mem|)
    && match op
       case Create(_) => true
       case HostMove(dst, src, n) => MoveAllowed(s.out, dst, src, n)
       case HostFill(dst, _, n) => NoRace(s.out, Range(dst, n), {})
       case Issue(buf, dst, src, n) => buf !in s.out && MoveAllowed(s.out, dst, src, n)
       case Wait(_) => true
  }

  ghost predicate Disciplined(s: Snapshot, trace: seq<Op>) {
    |trace| == 0 ||
    (Disciplined(s, trace[..|trace| - 1]) && Allowed(trace[|trace| - 1], Run(s, trace[..|trace| - 1])))
  }

  lemma {:induction false} PrefixDisciplined(s: Snapshot, trace: seq<Op>, k: nat)
    requires Disciplined(s, trace) && k <= |trace|
    ensures Disciplined(s, trace[..k])
    ensures k < |trace| ==> Allowed(trace[k], Run(s, trace[..k]))
    ensures k < |trace| ==> Run(s, trace[..k + 1]) == Next(trace[k], Run(s, trace[..k]))
    decreases |trace|
  {
    if k == |trace| {
      assert trace[..k] == trace;
    } else {
      var front := trace[..|trace| - 1];
      assert front[..k] == trace[..k];
      assert trace[..k + 1][..k] == trace[..k];
      PrefixDisciplined(s, front, k);
      if k == |front| {
        assert trace[..k] == front;
      }
    }
  }

  /** A disciplined program, continued by an operation that is allowed next. */
  lemma {:induction false} RunAppend(s: Snapshot, trace: seq<Op>, op: Op)
    requires Disciplined(s, trace) && Allowed(op, Run(s, trace))
    ensures Disciplined(s, trace + [op]) && Run(s, trace + [op]) == Next(op, Run(s, trace))
  {
    hide Next, Allowed;
    assert (trace + [op])[..|trace|] == trace;
  }

  // ---- the asynchronous machine ----

  /** One byte a transfer still has to move. */
  datatype Move = Move(buf: nat, dst: nat, src: nat)

  datatype Config = Config(pc: nat, mem: seq<byte>, pending: set<Move>)

  ghost function Moves(buf: nat, dst: nat, src: nat, n: nat): (r: set<Move>)
    ensures forall mv: Move :: mv in r <==> mv.buf == buf && dst <= mv.dst < dst + n && mv.src - src == mv.dst - dst
  {
    if n == 0 then {} else Moves(buf, dst, src, n - 1) + {Move(buf, dst + n - 1, src + n - 1)}
  }

  /** The host performs the operation at its program counter; a Wait blocks until its buffer has no pending byte. */
  ghost predicate HostStep(trace: seq<Op>, c: Config, c': Config) {
    && c.pc < |trace|
    && c'.pc == c.pc + 1
    && Fits(trace[c.pc], |c.mem|)
    && match trace[c.pc]
       case Create(contents) => c'.mem == c.mem + contents && c'.pending == c.pending
       case HostMove(dst, src, n) => c'.mem == Moved(c.mem, dst, src, n) && c'.pending == c.pending
       case HostFill(dst, v, n) => c'.mem == Splice(c.mem, dst, Repeated(v, n)) && c'.pending == c.pending
       case Issue(buf, dst, src, n) => c'.mem == c.mem && c'.pending == c.pending + Moves(buf, dst, src, n)
       case Wait(buf) =>
         && (forall mv :: mv in c.pending ==> mv.buf != buf)
         && c'.mem == c.mem && c'.pending == c.pending
  }

  /** The device moves one pending byte. */
  ghost predicate DeviceStep(c: Config, c': Config, mv: Move) {
    && mv in c.pending
    && mv.dst < |c.mem| && mv.src < |c.mem|
    && c' == Config(c.pc, c.mem[mv.dst := c.mem[mv.src]], c.pending - {mv})
  }

  ghost predicate Step(trace: seq<Op>, c: Config, c': Config) {
    HostStep(trace, c, c') || exists mv :: DeviceStep(c, c', mv)
  }

  /** `run` is an execution of `trace` from memory `mem`, under some completion schedule. */
  ghost predicate Schedule(trace: seq<Op>, mem: seq<byte>, run: seq<Config>) {
    && |run| > 0
    && run[0] == Config(0, mem, {})
    && forall k :: 0 <= k < |run| - 1 ==> Step(trace, run[k], run[k + 1])
  }

  // ---- the simulation between the two ----

  ghost predicate PartOf(mv: Move, t: Transfer) {
    t.dst <= mv.dst < t.dst + t.n && mv.src - t.src == mv.dst - t.dst
  }

  /** No outstanding transfer writes what another one (or itself) reads or writes. */
  ghost predicate Quiet(out: map<nat, Transfer>) {
    && (forall b :: b in out ==> Range(out[b].dst, out[b].n) !! Range(out[b].src, out[b].n))
    && (forall b, c :: b in out && c in out && b != c ==>
          && Range(out[b].dst, out[b].n) !! Range(out[c].dst, out[c].n)
          && Range(out[b].dst, out[b].n) !! Range(out[c].src, out[c].n))
  }

  ghost predicate Unwritten(pending: set<Move>, a: nat) {
    forall mv :: mv in pending ==> mv.dst != a
  }

  ghost predicate Bounded(out: map<nat, Transfer>, len: nat) {
    forall b :: b in out ==> out[b].dst + out[b].n <= len && out[b].src + out[b].n <= len
  }

  ghost predicate Accounted(out: map<nat, Transfer>, pending: set<Move>) {
    forall mv :: mv in pending ==> mv.buf in out && PartOf(mv, out[mv.buf])
  }

  /** Bytes no transfer still has to write have their sequential value. */
  ghost predicate Settled(mem: seq<byte>, now: seq<byte>, pending: set<Move>)
    requires |now| == |mem|
  {
    forall a :: 0 <= a < |now| && Unwritten(pending, a) ==> now[a] == mem[a]
  }

  /** Every pending byte will arrive with its sequential value. */
  ghost predicate Awaited(mem: seq<byte>, now: seq<byte>, pending: set<Move>) {
    forall mv :: mv in pending ==> mv.dst < |mem| && mv.src < |now| && now[mv.src] == mem[mv.dst]
  }

  /** `c` is the sequential state `s`, except that the pending bytes have not arrived yet. */
  ghost predicate Agrees(s: Snapshot, c: Config) {
    && |c.mem| == |s.mem|
    && Quiet(s.out)
    && Bounded(s.out, |s.mem|)
    && Accounted(s.out, c.pending)
    && Settled(s.mem, c.mem, c.pending)
    && Awaited(s.mem, c.mem, c.pending)
  }

  lemma {:induction false} PendingAddresses(s: Snapshot, c: Config, mv: Move)
    requires Agrees(s, c) && mv in c.pending
    ensures mv.dst in Range(s.out[mv.buf].dst, s.out[mv.buf].n)
    ensures mv.src in Range(s.out[mv.buf].src, s.out[mv.buf].n)
    ensures mv.dst < |c.mem| && mv.src < |c.mem|
  {
  }

  lemma {:induction false} OthersUndisturbed(s: Snapshot, c: Config, mv: Move, other: Move)
    requires Agrees(s, c) && mv in c.pending && other in c.pending && other != mv
    ensures other.src != mv.dst && other.dst != mv.dst
  {
    PendingAddresses(s, c, mv);
    PendingAddresses(s, c, other);
    assert other.buf == mv.buf && other.dst == mv.dst ==> other == mv;
  }

  lemma {:induction false} DeviceKeepsAgreement(s: Snapshot, c: Config, c': Config, mv: Move)
    requires Agrees(s, c) && DeviceStep(c, c', mv)
    ensures Agrees(s, c')
  {
    PendingAddresses(s, c, mv);
    forall other | other in c'.pending
      ensures other.src != mv.dst && other.dst != mv.dst
    {
      OthersUndisturbed(s, c, mv, other);
    }
    forall a | 0 <= a < |c'.mem| && Unwritten(c'.pending, a)
      ensures c'.mem[a] == s.mem[a]
    {
      if a != mv.dst {
        assert Unwritten(c.pending, a);
      }
    }
  }

  /** A write by the host where no transfer reads or writes keeps the agreement. */
  lemma {:induction false} WriteKeepsAgreement(s: Snapshot, c: Config, dst: nat, d: seq<byte>)
    requires Agrees(s, c) && dst + |d| <= |s.mem|
    requires forall b :: b in s.out ==>
      Range(dst, |d|) !! Range(s.out[b].dst, s.out[b].n) && Range(dst, |d|) !! Range(s.out[b].src, s.out[b].n)
    ensures Agrees(s.(mem := Splice(s.mem, dst, d)), c.(mem := Splice(c.mem, dst, d)))
  {
    forall mv | mv in c.pending
      ensures !(dst <= mv.dst < dst + |d|) && !(dst <= mv.src < dst + |d|)
    {
      PendingAddresses(s, c, mv);
      assert mv.dst !in Range(dst, |d|) && mv.src !in Range(dst, |d|);
    }
  }

  lemma {:induction false} ReadAgrees(s: Snapshot, c: Config, src: nat, n: nat)
    requires Agrees(s, c) && src + n <= |s.mem|
    requires forall b :: b in s.out ==> Range(src, n) !! Range(s.out[b].dst, s.out[b].n)
    ensures c.mem[src..src + n] == s.mem[src..src + n]
    ensures forall i :: src <= i < src + n ==> c.mem[i] == s.mem[i]
  {
    forall i | src <= i < src + n
      ensures c.mem[i] == s.mem[i]
    {
      assert i in Range(src, n);
      forall mv | mv in c.pending
        ensures mv.dst != i
      {
        PendingAddresses(s, c, mv);
      }
      assert Unwritten(c.pending, i);
    }
  }

  lemma {:induction false} IssueKeepsQuiet(out: map<nat, Transfer>, buf: nat, t: Transfer)
    requires Quiet(out) && buf !in out
    requires MoveAllowed(out, t.dst, t.src, t.n)
    ensures Quiet(out[buf := t])
  {
  }

  lemma {:induction false} MovedByte(mem: seq<byte>, t: Transfer, mv: Move)
    requires t.dst + t.n <= |mem| && t.src + t.n <= |mem|
    requires mv.dst < |mem|
    ensures PartOf(mv, t) ==> Moved(mem, t.dst, t.src, t.n)[mv.dst] == mem[mv.src]
    ensures mv.dst !in Range(t.dst, t.n) ==> Moved(mem, t.dst, t.src, t.n)[mv.dst] == mem[mv.dst]
  {
  }

  lemma {:induction false} IssueKeepsAwaited(s: Snapshot, c: Config, buf: nat, t: Transfer)
    requires Agrees(s, c) && t.dst + t.n <= |s.mem| && t.src + t.n <= |s.mem|
    requires MoveAllowed(s.out, t.dst, t.src, t.n)
    ensures Awaited(Moved(s.mem, t.dst, t.src, t.n), c.mem, c.pending + Moves(buf, t.dst, t.src, t.n))
  {
    ReadAgrees(s, c, t.src, t.n);
    var after := Moved(s.mem, t.dst, t.src, t.n);
    forall mv | mv in c.pending + Moves(buf, t.dst, t.src, t.n)
      ensures mv.dst < |after| && mv.src < |c.mem| && c.mem[mv.src] == after[mv.dst]
    {
      if mv in c.pending {
        PendingAddresses(s, c, mv);
      } else {
        assert PartOf(mv, t);
      }
      MovedByte(s.mem, t, mv);
    }
  }

  lemma {:induction false} IssueKeepsSettled(mem: seq<byte>, now: seq<byte>, pending: set<Move>, buf: nat, t: Transfer)
    requires |now| == |mem| && t.dst + t.n <= |mem| && t.src + t.n <= |mem|
    requires Settled(mem, now, pending)
    ensures Settled(Moved(mem, t.dst, t.src, t.n), now, pending + Moves(buf, t.dst, t.src, t.n))
  {
    var pending' := pending + Moves(buf, t.dst, t.src, t.n);
    forall a | 0 <= a < |now| && Unwritten(pending', a)
      ensures now[a] == Moved(mem, t.dst, t.src, t.n)[a]
    {
      assert Unwritten(pending, a);
      if t.dst <= a < t.dst + t.n {
        IssuedAddressIsPending(pending, buf, t, a);
      }
    }
  }

  lemma {:induction false} IssuedAddressIsPending(pending: set<Move>, buf: nat, t: Transfer, a: nat)
    requires t.dst <= a < t.dst + t.n
    ensures !Unwritten(pending + Moves(buf, t.dst, t.src, t.n), a)
  {
    assert Move(buf, a, t.src + (a - t.dst)) in Moves(buf, t.dst, t.src, t.n);
  }

  lemma {:induction false} IssueKeepsAgreement(s: Snapshot, c: Config, buf: nat, dst: nat, src: nat, n: nat)
    requires Agrees(s, c) && Allowed(Issue(buf, dst, src, n), s)
    ensures Agrees(Next(Issue(buf, dst, src, n), s), c.(pending := c.pending + Moves(buf, dst, src, n)))
  {
    var t := Transfer(dst, src, n);
    IssueKeepsQuiet(s.out, buf, t);
    IssueKeepsAwaited(s, c, buf, t);
    IssueKeepsSettled(s.mem, c.mem, c.pending, buf, t);
  }

  lemma {:induction false} CreateKeepsAgreement(s: Snapshot, c: Config, contents: seq<byte>)
    requires Agrees(s, c)
    ensures Agrees(s.(mem := s.mem + contents), c.(mem := c.mem + contents))
  {
    forall mv | mv in c.pending
      ensures mv.dst < |c.mem| && mv.src < |c.mem|
    {
      PendingAddresses(s, c, mv);
    }
  }

  lemma {:induction false} WaitKeepsAgreement(s: Snapshot, c: Config, buf: nat)
    requires Agrees(s, c)
    requires forall mv :: mv in c.pending ==> mv.buf != buf
    ensures Agrees(s.(out := s.out - {buf}), c)
  {
  }

  lemma {:induction false} HostKeepsAgreement(s: Snapshot, trace: seq<Op>, c: Config, c': Config)
    requires Agrees(s, c) && HostStep(trace, c, c') && Allowed(trace[c.pc], s)
    ensures Agrees(Next(trace[c.pc], s), c')
  {
    hide Quiet, Bounded, Accounted, Settled, Awaited, Moves, Repeated, Splice;
    match trace[c.pc]
    case Create(contents) =>
      CreateKeepsAgreement(s, c, contents);
    case HostMove(dst, src, n) =>
      ReadAgrees(s, c, src, n);
      WriteKeepsAgreement(s, c, dst, s.mem[src..src + n]);
    case HostFill(dst, v, n) =>
      WriteKeepsAgreement(s, c, dst, Repeated(v, n));
    case Issue(buf, dst, src, n) =>
      IssueKeepsAgreement(s, c, buf, dst, src, n);
    case Wait(buf) =>
      WaitKeepsAgreement(s, c, buf);
  }

  /** Every configuration of every schedule agrees with the sequential state at the same program point. */
  lemma {:induction false} ScheduleAgrees(trace: seq<Op>, mem: seq<byte>, run: seq<Config>)
    requires Disciplined(Snapshot(mem, map[]), trace)
    requires Schedule(trace, mem, run)
    ensures run[|run| - 1].pc <= |trace|
    ensures Agrees(Run(Snapshot(mem, map[]), trace[..run[|run| - 1].pc]), run[|run| - 1])
    decreases |run|
  {
    if |run| > 1 {
      var front := run[..|run| - 1];
      forall k | 0 <= k < |front| - 1
        ensures Step(trace, front[k], front[k + 1])
      {
        assert Step(trace, run[k], run[k + 1]);
      }
      ScheduleAgrees(trace, mem, front);
      var c, c' := front[|front| - 1], run[|run| - 1];
      assert Step(trace, run[|run| - 2], run[|run| - 2 + 1]);
      PrefixDisciplined(Snapshot(mem, map[]), trace, c.pc);
      var s := Run(Snapshot(mem, map[]), trace[..c.pc]);
      if HostStep(trace, c, c') {
        HostKeepsAgreement(s, trace, c, c');
      } else {
        var mv :| DeviceStep(c, c', mv);
        DeviceKeepsAgreement(s, c, c', mv);
      }
    }
  }

  /**
   Schedule independence: once a disciplined program that waits for all its transfers has finished, the
   memory is the sequential result, whatever the completion schedule was.
   */
  lemma {:induction false} ScheduleIndependence(trace: seq<Op>, mem: seq<byte>, run: seq<Config>)
    requires Disciplined(Snapshot(mem, map[]), trace)
    requires Run(Snapshot(mem, map[]), trace).out == map[]
    requires Schedule(trace, mem, run) && run[|run| - 1].pc == |trace|
    ensures run[|run| - 1].mem == Run(Snapshot(mem, map[]), trace).mem
    ensures run[|run| - 1].pending == {}
  {
    ScheduleAgrees(trace, mem, run);
    assert trace[..|trace|] == trace;
    var c := run[|run| - 1];
    assert forall mv :: mv in c.pending ==> mv.buf in Run(Snapshot(mem, map[]), trace).out;
    forall a | 0 <= a < |c.mem|
      ensures Unwritten(c.pending, a)
    {
    }
  }

  /** What is left to do, compared lexicographically: host operations, then pending bytes. */
  ghost predicate Closer(trace: seq<Op>, c: Config, c': Config) {
    c.pc < c'.pc <= |trace| || (c'.pc == c.pc && |c'.pending| < |c.pending|)
  }

  /** The step the host takes when no byte is pending. */
  ghost function HostNext(op: Op, c: Config): Config
    requires Fits(op, |c.mem|)
  {
    match op
    case Create(contents) => Config(c.pc + 1, c.mem + contents, c.pending)
    case HostMove(dst, src, n) => Config(c.pc + 1, Moved(c.mem, dst, src, n), c.pending)
    case HostFill(dst, v, n) => Config(c.pc + 1, Splice(c.mem, dst, Repeated(v, n)), c.pending)
    case Issue(buf, dst, src, n) => Config(c.pc + 1, c.mem, c.pending + Moves(buf, dst, src, n))
    case Wait(_) => Config(c.pc + 1, c.mem, c.pending)
  }

  /** No schedule deadlocks: until the program is over and every byte has arrived, some step is possible. */
  lemma {:induction false} NoDeadlock(trace: seq<Op>, mem: seq<byte>, run: seq<Config>) returns (c': Config)
    requires Disciplined(Snapshot(mem, map[]), trace)
    requires Schedule(trace, mem, run)
    requires run[|run| - 1].pc < |trace| || run[|run| - 1].pending != {}
    ensures Step(trace, run[|run| - 1], c')
  {
    ScheduleAgrees(trace, mem, run);
    var c := run[|run| - 1];
    var s := Run(Snapshot(mem, map[]), trace[..c.pc]);
    if mv :| mv in c.pending {
      PendingAddresses(s, c, mv);
      c' := Config(c.pc, c.mem[mv.dst := c.mem[mv.src]], c.pending - {mv});
      assert DeviceStep(c, c', mv);
    } else {
      PrefixDisciplined(Snapshot(mem, map[]), trace, c.pc);
      c' := HostNext(trace[c.pc], c);
      assert HostStep(trace, c, c');
    }
  }

  /** Every step brings the program closer to its end, so every schedule is finite. */
  lemma {:induction false} EveryStepAdvances(trace: seq<Op>, c: Config, c': Config)
    requires Step(trace, c, c')
    ensures Closer(trace, c, c')
  {
    if !HostStep(trace, c, c') {
      var mv :| DeviceStep(c, c', mv);
      SmallerSet(c'.pending, c.pending);
    }
  }

  lemma {:induction false} SmallerSet(a: set<Move>, b: set<Move>)
    requires a < b
    ensures |a| < |b|
  {
    var x :| x in b && x !in a;
    assert b == (b - a) + a && x in b - a;
    assert |b| == |b - a| + |a|;
  }
}
