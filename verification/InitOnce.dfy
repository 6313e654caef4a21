/**
 The one-time initialisation of the runtime: any number of threads enter and leave it, the first one to
 swap a flag initialises it, and the others wait. A step of a thread is one access to shared memory.
 */
module InitOnce {
  import opened Wrappers

  datatype Call = Enter | Exclusive

  /** Where a thread is. The points from Won to Publish are those of the winner of the swap in enterGmac. */
  datatype Point =
    | Outside
    | Starting(call: Call)
    | Won | Initialising | Publish
    | Lost | Waiting | Marking
    | ExclusiveInitialising | ExclusiveMarking
    | Inside(call: Call)

  datatype Thread = Thread(at: Point, inGmac: bool, runtime: bool)

  /** History: who swapped the flag, from which function. */
  datatype Winner = Nobody | Winner(thread: nat, call: Call)

  /** `claimed` is gmacInit__; `started` and `completed` count the calls of initGmac and their returns. */
  datatype State = State(threads: seq<Thread>, claimed: bool, initialized: bool, started: nat, completed: nat,
    winner: Winner)

  datatype Action = Begin(thread: nat, call: Call) | Exit(thread: nat) | Step(thread: nat)

  ghost predicate Initial(s: State) {
    && (forall t :: 0 <= t < |s.threads| ==> s.threads[t].at == Outside && !s.threads[t].inGmac)
    && !s.claimed && !s.initialized && s.started == 0 && s.completed == 0 && s.winner == Nobody
  }

  function MoveTo(s: State, t: nat, p: Point): State
    requires t < |s.threads|
  {
    s.(threads := s.threads[t := s.threads[t].(at := p)])
  }

  /** inGmac_.set(&privateTrue), then on to `p`. */
  function Mark(s: State, t: nat, p: Point): State
    requires t < |s.threads|
  {
    s.(threads := s.threads[t := s.threads[t].(at := p, inGmac := true)])
  }

  /** The next step of a thread that is inside one of the functions. */
  function Advance(s: State, t: nat): Option<State>
    requires t < |s.threads|
  {
    match s.threads[t].at
    case Outside => None
    case Starting(Enter) =>
      Some(if s.claimed then MoveTo(s, t, Lost) else MoveTo(s, t, Won).(claimed := true, winner := Winner(t, Enter)))
    case Won => Some(Mark(s, t, Initialising).(started := s.started + 1))
    case Initialising => Some(MoveTo(s, t, Publish).(completed := s.completed + 1))
    case Publish => Some(MoveTo(s, t, Inside(Enter)).(initialized := true))
    case Lost => Some(MoveTo(s, t, if s.threads[t].runtime then Marking else Waiting))
    case Waiting => Some(if s.initialized then MoveTo(s, t, Marking) else s)
    case Marking => Some(Mark(s, t, Inside(Enter)))
    case Starting(Exclusive) =>
      Some(if s.claimed then MoveTo(s, t, ExclusiveMarking)
        else MoveTo(s, t, ExclusiveInitialising).(claimed := true, winner := Winner(t, Exclusive),
          started := s.started + 1))
    case ExclusiveInitialising => Some(MoveTo(s, t, ExclusiveMarking).(completed := s.completed + 1))
    case ExclusiveMarking => Some(Mark(s, t, Inside(Exclusive)))
    case Inside(_) => None
  }

  function Apply(s: State, a: Action): Option<State> {
    if a.thread >= |s.threads| then None else
      var at := s.threads[a.thread].at;
      match a
      case Begin(t, call) => if at == Outside then Some(MoveTo(s, t, Starting(call))) else None
      case Exit(t) =>
        if at.Inside? then Some(s.(threads := s.threads[t := s.threads[t].(at := Outside, inGmac := false)])) else None
      case Step(t) => Advance(s, t)
  }

  /** The state after a sequence of actions of any threads, in any order. */
  function Run(s: State, actions: seq<Action>): Option<State>
    decreases |actions|
  {
    if actions == [] then Some(s) else
      match Run(s, actions[..|actions| - 1])
      case None => None
      case Some(mid) => Apply(mid, actions[|actions| - 1])
  }

  // ---- the invariant ----

  predicate OfWinner(p: Point) {
    p.Won? || p.Initialising? || p.Publish? || p.ExclusiveInitialising?
  }

  predicate Marked(p: Point) {
    p.Initialising? || p.Publish? || p.Inside?
  }

  ghost predicate ThreadInvariant(s: State, t: nat)
    requires t < |s.threads|
  {
    var th := s.threads[t];
    && th.inGmac == Marked(th.at)
    && (OfWinner(th.at) ==> s.winner == Winner(t, if th.at.ExclusiveInitialising? then Exclusive else Enter))
    && (!th.at.Outside? && !th.at.Starting? ==> s.claimed)
    && ((th.at.Marking? || th.at == Inside(Enter)) && !th.runtime ==> s.completed == 1)
  }

  /** How far the winner is determines the two counts and the flag. */
  ghost predicate Progress(s: State) {
    match s.winner
    case Nobody => s.started == 0 && s.completed == 0 && !s.initialized
    case Winner(w, Enter) => w < |s.threads| && var p := s.threads[w].at;
      && s.started == (if p.Won? then 0 else 1)
      && s.completed == (if p.Won? || p.Initialising? then 0 else 1)
      && s.initialized == !OfWinner(p)
    case Winner(w, Exclusive) => w < |s.threads| && var p := s.threads[w].at;
      && s.started == 1 && s.completed == (if p.ExclusiveInitialising? then 0 else 1) && !s.initialized
  }

  ghost predicate Invariant(s: State) {
    && (s.claimed <==> s.winner != Nobody)
    && Progress(s)
    && (forall t :: 0 <= t < |s.threads| ==> ThreadInvariant(s, t))
  }

  lemma {:induction false} ProgressKept(s: State, a: Action)
    requires Invariant(s) && Apply(s, a).Some?
    ensures Progress(Apply(s, a).value) && (Apply(s, a).value.claimed <==> Apply(s, a).value.winner != Nobody)
  {
    hide Invariant, Advance;
    InvariantOf(s, a.thread);
    if a.Step? {
      StepProgress(s, a.thread);
    }
  }

  lemma {:induction false} InvariantOf(s: State, t: nat)
    requires Invariant(s) && t < |s.threads|
    ensures ThreadInvariant(s, t) && Progress(s) && (s.claimed <==> s.winner != Nobody)
  {
  }

  lemma {:induction false} StepProgress(s: State, t: nat)
    requires t < |s.threads| && ThreadInvariant(s, t) && Progress(s) && (s.claimed <==> s.winner != Nobody)
    requires Advance(s, t).Some?
    ensures Progress(Advance(s, t).value) && (Advance(s, t).value.claimed <==> Advance(s, t).value.winner != Nobody)
  {
  }

  lemma {:induction false} MoverKept(s: State, a: Action)
    requires Invariant(s) && Apply(s, a).Some?
    ensures ThreadInvariant(Apply(s, a).value, a.thread)
  {
    assert ThreadInvariant(s, a.thread);
  }

  /** What a step of one thread leaves as it is for the others. */
  lemma {:induction false} OthersUntouched(s: State, a: Action, t: nat)
    requires Invariant(s) && Apply(s, a).Some? && t < |s.threads| && t != a.thread
    ensures var r := Apply(s, a).value;
      && |r.threads| == |s.threads| && r.threads[t] == s.threads[t]
      && (s.claimed ==> r.claimed && r.winner == s.winner)
      && (s.completed == 1 ==> r.completed == 1)
  {
    assert ThreadInvariant(s, a.thread);
  }

  lemma {:induction false} InvariantKept(s: State, a: Action)
    requires Invariant(s) && Apply(s, a).Some?
    ensures Invariant(Apply(s, a).value)
  {
    hide Apply, Progress;
    var s' := Apply(s, a).value;
    ProgressKept(s, a);
    MoverKept(s, a);
    SameThreads(s, a);
    forall t | 0 <= t < |s'.threads| && t != a.thread
      ensures ThreadInvariant(s', t)
    {
      assert ThreadInvariant(s, t);
      OthersUntouched(s, a, t);
    }
  }

  lemma {:induction false} SameThreads(s: State, a: Action)
    requires Apply(s, a).Some?
    ensures a.thread < |s.threads| && |Apply(s, a).value.threads| == |s.threads|
  {
  }

  lemma {:induction false} InvariantHolds(s: State, actions: seq<Action>)
    requires Invariant(s) && Run(s, actions).Some?
    ensures Invariant(Run(s, actions).value)
    decreases |actions|
  {
    if actions != [] {
      var front := actions[..|actions| - 1];
      InvariantHolds(s, front);
      InvariantKept(Run(s, front).value, actions[|actions| - 1]);
    }
  }

  // ---- safety ----

  /**
   In every interleaving initGmac is called at most once; a thread that is no runtime thread has left
   enterGmac only when it has returned; and a thread is marked as being in the runtime while it is.
   */
  lemma {:induction false} InitialisedOnce(s: State, actions: seq<Action>, t: nat)
    requires Initial(s) && Run(s, actions).Some? && t < |Run(s, actions).value.threads|
    ensures var r := Run(s, actions).value;
      && r.completed <= r.started <= 1
      && (r.initialized ==> r.completed == 1)
      && (r.threads[t].at == Inside(Enter) && !r.threads[t].runtime ==> r.completed == 1)
      && (r.threads[t].at.Inside? ==> r.threads[t].inGmac)
      && (r.threads[t].at == Initialising ==> r.threads[t].inGmac && r.started == 1 && r.completed == 0)
      && (r.threads[t].at == ExclusiveInitialising ==> !r.threads[t].inGmac && r.started == 1 && r.completed == 0)
      && (r.threads[t].at.Outside? ==> !r.threads[t].inGmac)
  {
    InvariantHolds(s, actions);
    assert ThreadInvariant(Run(s, actions).value, t);
  }

  /** Two threads that are about to enter for the first time. */
  function TwoThreads(runtime: bool): State {
    State([Thread(Outside, false, false), Thread(Outside, false, runtime)], false, false, 0, 0, Nobody)
  }

  /**
   A thread that loses the swap does not wait in enterGmacExclusive, and as a runtime thread it does not
   wait in enterGmac: it can be inside while another thread has not even called initGmac.
   */
  lemma {:induction false} EntersEarly(call: Call, runtime: bool) returns (actions: seq<Action>)
    requires call == Exclusive || runtime
    ensures Initial(TwoThreads(runtime)) && Run(TwoThreads(runtime), actions).Some?
    ensures var r := Run(TwoThreads(runtime), actions).value;
      |r.threads| == 2 && r.threads[1].at == Inside(call) && r.threads[1].runtime == runtime && r.completed == 0
  {
    var s := TwoThreads(runtime);
    var r;
    r, actions := OtherWins(s);
    r, actions := Then(s, r, actions, Begin(1, call));
    r, actions := Then(s, r, actions, Step(1));
    r, actions := Then(s, r, actions, Step(1));
    if call == Enter {
      r, actions := Then(s, r, actions, Step(1));
    }
  }

  /** The first of two threads wins the swap in enterGmac. */
  lemma {:induction false} OtherWins(s: State) returns (r: State, actions: seq<Action>)
    requires |s.threads| == 2 && s.threads[0].at == Outside && !s.claimed
    ensures Run(s, actions) == Some(r) && |r.threads| == 2 && r.threads[1] == s.threads[1]
    ensures r.claimed && r.completed == s.completed
  {
    r, actions := Then(s, s, [], Begin(0, Enter));
    r, actions := Then(s, r, actions, Step(0));
  }

  /** In every run, threads of this kind that have come in by this function are inside an initialised runtime. */
  ghost predicate Safe(call: Call, runtime: bool) {
    forall s, actions, t: nat :: Initial(s) && Run(s, actions).Some? && t < |Run(s, actions).value.threads| ==>
      Run(s, actions).value.threads[t].at == Inside(call) && Run(s, actions).value.threads[t].runtime == runtime ==>
      Run(s, actions).value.completed == 1
  }

  /** That holds of enterGmac for threads that are no runtime threads, and of nothing else. */
  lemma {:induction false} SafeIff(call: Call, runtime: bool)
    ensures Safe(call, runtime) <==> call == Enter && !runtime
  {
    hide Run, Initial;
    if call == Enter && !runtime {
      forall s, actions, t: nat | Initial(s) && Run(s, actions).Some? && t < |Run(s, actions).value.threads|
        ensures var r := Run(s, actions).value;
          r.threads[t].at == Inside(call) && r.threads[t].runtime == runtime ==> r.completed == 1
      {
        InitialisedOnce(s, actions, t);
      }
    } else {
      var actions := EntersEarly(call, runtime);
      assert Run(TwoThreads(runtime), actions).value.threads[1].at == Inside(call);
    }
  }

  lemma {:induction false} Then(s: State, mid: State, actions: seq<Action>, a: Action)
    returns (r: State, more: seq<Action>)
    requires Run(s, actions) == Some(mid) && Apply(mid, a).Some?
    ensures more == actions + [a] && Run(s, more) == Some(r) && Some(r) == Apply(mid, a)
  {
    r := Apply(mid, a).value;
    more := actions + [a];
    assert more[..|actions|] == actions;
  }

  // ---- progress ----

  /** No thread ever has to wait for its turn: inside enterGmac and enterGmacExclusive it can always step. */
  lemma {:induction false} NeverBlocked(s: State, t: nat)
    requires t < |s.threads|
    ensures Apply(s, Step(t)).Some? <==> !s.threads[t].at.Outside? && !s.threads[t].at.Inside?
  {
  }

  /** The steps of one thread in a run. */
  ghost function StepsOf(actions: seq<Action>, t: nat): nat {
    if actions == [] then 0 else
      StepsOf(actions[..|actions| - 1], t) + (if actions[|actions| - 1] == Step(t) then 1 else 0)
  }

  /** The steps the winner still has to take before the flag is set. */
  function Remaining(p: Point): nat {
    match p
    case Won => 3
    case Initialising => 2
    case Publish => 1
    case _ => 0
  }

  lemma {:induction false} WinnerAdvances(s: State, a: Action, w: nat)
    requires Invariant(s) && s.winner == Winner(w, Enter) && Apply(s, a).Some?
    ensures var r := Apply(s, a).value;
      && r.winner == s.winner && w < |s.threads| && w < |r.threads|
      && var n := Remaining(s.threads[w].at);
      && Remaining(r.threads[w].at) == (if a == Step(w) && n > 0 then n - 1 else n)
  {
    if a.thread == w {
      assert ThreadInvariant(s, w);
    } else {
      OthersUntouched(s, a, w);
    }
  }

  lemma {:induction false} WinnerRuns(s: State, actions: seq<Action>, w: nat)
    requires Invariant(s) && s.winner == Winner(w, Enter) && Run(s, actions).Some?
    ensures var r := Run(s, actions).value;
      && Invariant(r) && r.winner == s.winner && w < |s.threads| && w < |r.threads|
      && var n, k := Remaining(s.threads[w].at), StepsOf(actions, w);
      && Remaining(r.threads[w].at) == (if k < n then n - k else 0)
    decreases |actions|
  {
    if actions != [] {
      hide Invariant, Apply;
      var front := actions[..|actions| - 1];
      WinnerRuns(s, front, w);
      InvariantHolds(s, actions);
      WinnerAdvances(Run(s, front).value, actions[|actions| - 1], w);
    }
  }

  lemma {:induction false} FlagSet(s: State, w: nat)
    requires Invariant(s) && s.winner == Winner(w, Enter)
    ensures w < |s.threads| && (s.initialized <==> Remaining(s.threads[w].at) == 0)
    ensures Remaining(s.threads[w].at) <= 3
  {
    assert ThreadInvariant(s, w);
  }

  /**
   Under any schedule: once the thread that won the swap in enterGmac has taken three more steps, the
   next step of any waiting thread ends its wait.
   */
  lemma {:induction false} WaitersProceed(s: State, actions: seq<Action>, w: nat, t: nat)
    requires Invariant(s) && s.winner == Winner(w, Enter) && Run(s, actions).Some? && StepsOf(actions, w) >= 3
    requires t < |Run(s, actions).value.threads| && Run(s, actions).value.threads[t].at == Waiting
    ensures Run(s, actions + [Step(t)]).Some?
    ensures Run(s, actions + [Step(t)]).value == MoveTo(Run(s, actions).value, t, Marking)
  {
    hide Invariant, Run;
    var mid := Run(s, actions).value;
    FlagSet(s, w);
    WinnerRuns(s, actions, w);
    FlagSet(mid, w);
    var r, longer := Then(s, mid, actions, Step(t));
  }

  /** The winner's own steps set the flag, whatever the others do. */
  lemma {:induction false} WinnerCanFinish(s: State, w: nat, k: nat) returns (actions: seq<Action>)
    requires Invariant(s) && s.winner == Winner(w, Enter) && w < |s.threads| && k <= Remaining(s.threads[w].at)
    ensures Run(s, actions).Some? && StepsOf(actions, w) == k && forall a :: a in actions ==> a == Step(w)
  {
    if k == 0 {
      actions := [];
    } else {
      hide Invariant, Apply;
      var front := WinnerCanFinish(s, w, k - 1);
      WinnerRuns(s, front, w);
      var mid := Run(s, front).value;
      NeverBlocked(mid, w);
      var r;
      r, actions := Then(s, mid, front, Step(w));
      assert actions[..|actions| - 1] == front;
    }
  }

  lemma {:induction false} OthersStay(s: State, actions: seq<Action>, t: nat, w: nat)
    requires Invariant(s) && t < |s.threads| && t != w && Run(s, actions).Some?
    requires forall a :: a in actions ==> a == Step(w)
    ensures t < |Run(s, actions).value.threads| && Run(s, actions).value.threads[t] == s.threads[t]
    decreases |actions|
  {
    if actions != [] {
      hide Invariant, Apply;
      var front := actions[..|actions| - 1];
      assert actions[|actions| - 1] in actions && forall a :: a in front ==> a in actions;
      OthersStay(s, front, t, w);
      InvariantHolds(s, front);
      OthersUntouched(Run(s, front).value, actions[|actions| - 1], t);
    }
  }

  /** After enterGmacExclusive has won the swap, the flag is never set and no wait ever ends. */
  lemma {:induction false} StuckStep(s: State, a: Action, t: nat)
    requires Invariant(s) && s.winner.Winner? && s.winner.call == Exclusive && Apply(s, a).Some?
    requires t < |s.threads| && s.threads[t].at == Waiting
    ensures var r := Apply(s, a).value;
      r.winner == s.winner && t < |r.threads| && r.threads[t].at == Waiting
  {
    if a.thread != t {
      OthersUntouched(s, a, t);
    }
  }

  lemma {:induction false} StuckForever(s: State, actions: seq<Action>, t: nat)
    requires Invariant(s) && s.winner.Winner? && s.winner.call == Exclusive && Run(s, actions).Some?
    requires t < |s.threads| && s.threads[t].at == Waiting
    ensures var r := Run(s, actions).value;
      r.winner == s.winner && t < |r.threads| && r.threads[t].at == Waiting
    decreases |actions|
  {
    if actions != [] {
      hide Invariant, Apply;
      var front := actions[..|actions| - 1];
      StuckForever(s, front, t);
      InvariantHolds(s, front);
      StuckStep(Run(s, front).value, actions[|actions| - 1], t);
    }
  }

  lemma {:induction false} WaiterHasWinner(s: State, t: nat)
    requires Invariant(s) && t < |s.threads| && s.threads[t].at == Waiting
    ensures s.winner.Winner? && s.winner.thread < |s.threads|
    ensures s.winner.call == Enter && s.winner.thread == t ==> s.initialized
  {
    assert ThreadInvariant(s, t);
  }

  /** From a reachable state, a waiting thread can get on if and only if enterGmac won the swap. */
  lemma {:induction false} WaiterProceedsIff(start: State, before: seq<Action>, t: nat)
    requires Initial(start) && Run(start, before).Some?
    requires t < |Run(start, before).value.threads| && Run(start, before).value.threads[t].at == Waiting
    ensures var s := Run(start, before).value;
      s.winner.Winner? && (s.winner.call == Enter <==>
        exists more :: Run(s, more).Some? && t < |Run(s, more).value.threads| &&
          Run(s, more).value.threads[t].at != Waiting)
  {
    hide Apply, Advance, Run, Invariant;
    InitialInvariant(start);
    InvariantHolds(start, before);
    var s := Run(start, before).value;
    WaiterHasWinner(s, t);
    if s.winner.call == Enter {
      var more := WayOut(s, t);
    } else {
      forall more | Run(s, more).Some?
        ensures t < |Run(s, more).value.threads| && Run(s, more).value.threads[t].at == Waiting
      {
        StuckForever(s, more, t);
      }
    }
  }

  /** For example, after enterGmacExclusive has won the swap a thread in enterGmac waits for ever. */
  lemma {:induction false} WaitingForEverExample() returns (actions: seq<Action>)
    ensures Initial(TwoThreads(false)) && Run(TwoThreads(false), actions).Some?
    ensures var r := Run(TwoThreads(false), actions).value;
      && |r.threads| == 2 && r.threads[1].at == Waiting && r.winner == Winner(0, Exclusive)
      && forall more :: Run(r, more).Some? ==>
        |Run(r, more).value.threads| > 1 && Run(r, more).value.threads[1].at == Waiting
  {
    var s := TwoThreads(false);
    var r;
    r, actions := Then(s, s, [], Begin(0, Exclusive));
    r, actions := Then(s, r, actions, Step(0));
    r, actions := Then(s, r, actions, Begin(1, Enter));
    r, actions := Then(s, r, actions, Step(1));
    r, actions := Then(s, r, actions, Step(1));
    InitialInvariant(s);
    InvariantHolds(s, actions);
    forall more | Run(r, more).Some?
      ensures |Run(r, more).value.threads| > 1 && Run(r, more).value.threads[1].at == Waiting
    {
      StuckForever(r, more, 1);
    }
  }

  lemma {:induction false} InitialInvariant(s: State)
    requires Initial(s)
    ensures Invariant(s)
  {
  }

  lemma {:induction false} WayOut(s: State, t: nat) returns (more: seq<Action>)
    requires Invariant(s) && s.winner.Winner? && s.winner.call == Enter && t < |s.threads| && s.threads[t].at == Waiting
    ensures Run(s, more).Some? && t < |Run(s, more).value.threads| && Run(s, more).value.threads[t].at != Waiting
  {
    hide Invariant;
    var w := s.winner.thread;
    WaiterHasWinner(s, t);
    FlagSet(s, w);
    var wins := WinnerCanFinish(s, w, Remaining(s.threads[w].at));
    WinnerRuns(s, wins, w);
    var mid := Run(s, wins).value;
    FlagSet(mid, w);
    if t == w {
      AllSteps(wins, w);
      assert wins == [];
    } else {
      OthersStay(s, wins, t, w);
    }
    var r;
    r, more := Then(s, mid, wins, Step(t));
  }

  lemma {:induction false} AllSteps(actions: seq<Action>, w: nat)
    requires forall a :: a in actions ==> a == Step(w)
    ensures StepsOf(actions, w) == |actions|
  {
    if actions != [] {
      var front := actions[..|actions| - 1];
      assert actions[|actions| - 1] in actions && forall a :: a in front ==> a in actions;
      AllSteps(front, w);
    }
  }
}
