/** The two worker pools: a caller hands items over an unbuffered channel, closes it and waits
    for every worker.  A worker that downloads may retire early; one that patches does not. */
module WorkerPool {

  datatype Worker = Idle | Busy(item: nat) | Done | Gone

  /** How far the caller is: items handed over, the channel closed and so many workers heard
      of, or returned. */
  datatype Caller = Sending(next: nat) | Waiting(heard: nat) | Returned

  /** `log` says which worker was handed each item; `retired` counts the early retirements. */
  datatype State = State(items: nat, workers: seq<Worker>, caller: Caller, log: seq<nat>, retired: nat)

  /** Sending and receiving on an unbuffered channel are one step of both sides. */
  datatype Action = Hand(w: nat) | Finish(w: nat) | Retire(w: nat) | Close | Quit(w: nat) | Report(w: nat) | Return

  function Initial(items: nat, parallel: nat): State {
    State(items, seq(parallel, _ => Idle), Sending(0), [], 0)
  }

  predicate Is(st: State, w: nat, worker: Worker) {
    w < |st.workers| && st.workers[w] == worker
  }

  /** When a step can be taken; `mayRetire` for the pool whose workers can break off. */
  predicate Enabled(st: State, mayRetire: bool, a: Action) {
    match a
    case Hand(w) => st.caller.Sending? && st.caller.next < st.items && Is(st, w, Idle)
    case Finish(w) => w < |st.workers| && st.workers[w].Busy?
    case Retire(w) => mayRetire && w < |st.workers| && st.workers[w].Busy?
    case Close => st.caller == Sending(st.items)
    case Quit(w) => st.caller.Waiting? && Is(st, w, Idle)
    case Report(w) => st.caller.Waiting? && st.caller.heard < |st.workers| && Is(st, w, Done)
    case Return => st.caller == Waiting(|st.workers|)
  }

  function Step(st: State, a: Action): State
    requires Enabled(st, true, a)
  {
    match a
    case Hand(w) =>
      st.(workers := st.workers[w := Busy(st.caller.next)], caller := Sending(st.caller.next + 1), log := st.log + [w])
    case Finish(w) => st.(workers := st.workers[w := Idle])
    case Retire(w) => st.(workers := st.workers[w := Done], retired := st.retired + 1)
    case Close => st.(caller := Waiting(0))
    case Quit(w) => st.(workers := st.workers[w := Done])
    case Report(w) => st.(workers := st.workers[w := Gone], caller := Waiting(st.caller.heard + 1))
    case Return => st.(caller := Returned)
  }

  predicate Runs(st: State, mayRetire: bool, actions: seq<Action>)
    decreases |actions|
  {
    actions == []
    || (Enabled(st, mayRetire, actions[0]) && Runs(Step(st, actions[0]), mayRetire, actions[1..]))
  }

  function After(st: State, mayRetire: bool, actions: seq<Action>): State
    requires Runs(st, mayRetire, actions)
    decreases |actions|
  {
    if actions == [] then st else After(Step(st, actions[0]), mayRetire, actions[1..])
  }

  // ----- Counting workers

  function Sum(ws: seq<Worker>, f: Worker -> int): int {
    if ws == [] then 0 else Sum(ws[..|ws| - 1], f) + f(ws[|ws| - 1])
  }

  lemma {:induction false} SumUpdate(ws: seq<Worker>, f: Worker -> int, i: nat, w: Worker)
    requires i < |ws|
    ensures Sum(ws[i := w], f) == Sum(ws, f) - f(ws[i]) + f(w)
  {
    var n := |ws| - 1;
    if i < n {
      SumUpdate(ws[..n], f, i, w);
      assert ws[i := w][..n] == ws[..n][i := w];
    } else {
      assert ws[i := w][..n] == ws[..n];
    }
  }

  lemma {:induction false} SumBounds(ws: seq<Worker>, f: Worker -> int)
    requires forall w :: 0 <= f(w) <= 1
    ensures 0 <= Sum(ws, f) <= |ws|
    ensures Sum(ws, f) == |ws| <==> forall i :: 0 <= i < |ws| ==> f(ws[i]) == 1
    ensures Sum(ws, f) == 0 <==> forall i :: 0 <= i < |ws| ==> f(ws[i]) == 0
  {
    if ws != [] {
      var n := |ws| - 1;
      SumBounds(ws[..n], f);
      assert forall i :: 0 <= i < n ==> ws[i] == ws[..n][i];
    }
  }

  function IsGone(w: Worker): int {
    if w.Gone? then 1 else 0
  }

  function IsDone(w: Worker): int {
    if w.Done? then 1 else 0
  }

  function IsBusy(w: Worker): int {
    if w.Busy? then 1 else 0
  }

  /** How much a worker has before it. */
  function Weight(w: Worker): int {
    match w
    case Idle => 2
    case Busy(_) => 3
    case Done => 1
    case Gone => 0
  }

  // ----- What every step keeps

  ghost predicate Invariant(st: State) {
    && st.retired + Sum(st.workers, IsBusy) <= |st.log| <= st.items
    && (forall i :: 0 <= i < |st.log| ==> st.log[i] < |st.workers|)
    && (forall w :: 0 <= w < |st.workers| && st.workers[w].Busy? ==>
      st.workers[w].item < |st.log| && st.log[st.workers[w].item] == w)
    && match st.caller
       case Sending(next) =>
         && next == |st.log| && Sum(st.workers, IsGone) == 0
         && Sum(st.workers, IsDone) == st.retired
       case Waiting(heard) => |st.log| == st.items && heard == Sum(st.workers, IsGone) <= |st.workers|
       case Returned => |st.log| == st.items && Sum(st.workers, IsGone) == |st.workers|
  }

  lemma StepKeepsInvariant(st: State, mayRetire: bool, a: Action)
    requires Invariant(st) && Enabled(st, mayRetire, a)
    ensures Invariant(Step(st, a))
  {
    hide Sum;
    var next := Step(st, a);
    if !a.Close? && !a.Return? {
      SumUpdate(st.workers, IsGone, a.w, next.workers[a.w]);
      SumUpdate(st.workers, IsDone, a.w, next.workers[a.w]);
      SumUpdate(st.workers, IsBusy, a.w, next.workers[a.w]);
      SumBounds(next.workers, IsGone);
    }
  }

  lemma {:induction false} RunKeepsInvariant(st: State, mayRetire: bool, actions: seq<Action>)
    requires Invariant(st) && Runs(st, mayRetire, actions)
    ensures Invariant(After(st, mayRetire, actions))
    ensures var end := After(st, mayRetire, actions);
      && end.items == st.items && |end.workers| == |st.workers|
      && (!mayRetire ==> end.retired == st.retired)
    decreases |actions|
  {
    hide Invariant, Sum;
    if actions != [] {
      StepKeepsInvariant(st, mayRetire, actions[0]);
      RunKeepsInvariant(Step(st, actions[0]), mayRetire, actions[1..]);
    }
  }

  lemma InitialIsInvariant(items: nat, parallel: nat)
    ensures Invariant(Initial(items, parallel))
  {
    var ws := Initial(items, parallel).workers;
    SumBounds(ws, IsGone);
    SumBounds(ws, IsDone);
    SumBounds(ws, IsBusy);
  }

  // ----- No deadlock, and no endless run

  ghost predicate Stuck(st: State, mayRetire: bool) {
    forall a: Action :: !Enabled(st, mayRetire, a)
  }

  /** The one way to get stuck: items are left and every worker has retired. */
  ghost predicate Deserted(st: State) {
    && st.caller.Sending? && st.caller.next < st.items
    && forall w :: 0 <= w < |st.workers| ==> st.workers[w] == Done
  }

  lemma StuckStates(st: State, mayRetire: bool)
    requires Invariant(st)
    ensures Stuck(st, mayRetire) <==> st.caller.Returned? || Deserted(st)
  {
    SumBounds(st.workers, IsGone);
    if st.caller.Returned? || Deserted(st) {
      forall a: Action
        ensures !Enabled(st, mayRetire, a)
      {
      }
    } else if st.caller.Sending? {
      SomeSenderStep(st, mayRetire);
    } else {
      SomeWaiterStep(st, mayRetire);
    }
  }

  lemma SomeSenderStep(st: State, mayRetire: bool)
    requires Invariant(st) && st.caller.Sending? && !Deserted(st)
    ensures !Stuck(st, mayRetire)
  {
    SumBounds(st.workers, IsGone);
    if st.caller.next == st.items {
      assert Enabled(st, mayRetire, Close);
    } else {
      var w: nat :| w < |st.workers| && st.workers[w] != Done;
      assert IsGone(st.workers[w]) == 0;
      if st.workers[w].Idle? {
        assert Enabled(st, mayRetire, Hand(w));
      } else {
        assert Enabled(st, mayRetire, Finish(w));
      }
    }
  }

  lemma SomeWaiterStep(st: State, mayRetire: bool)
    requires Invariant(st) && st.caller.Waiting?
    ensures !Stuck(st, mayRetire)
  {
    SumBounds(st.workers, IsGone);
    if st.caller.heard == |st.workers| {
      assert Enabled(st, mayRetire, Return);
    } else {
      var w: nat :| w < |st.workers| && IsGone(st.workers[w]) != 1;
      match st.workers[w] {
        case Idle => assert Enabled(st, mayRetire, Quit(w));
        case Busy(_) => assert Enabled(st, mayRetire, Finish(w));
        case Done => assert Enabled(st, mayRetire, Report(w));
      }
    }
  }

  /** What is left to do, in steps. */
  ghost function Potential(st: State): int {
    Sum(st.workers, Weight) + 3 * (st.items - |st.log|)
    + match st.caller
      case Sending(_) => 2
      case Waiting(_) => 1
      case Returned => 0
  }

  lemma {:induction false} WeightIsNatural(ws: seq<Worker>)
    ensures 0 <= Sum(ws, Weight)
  {
    if ws != [] {
      WeightIsNatural(ws[..|ws| - 1]);
    }
  }

  lemma StepsAreProgress(st: State, mayRetire: bool, a: Action)
    requires Enabled(st, mayRetire, a)
    ensures Potential(Step(st, a)) < Potential(st)
  {
    if !a.Close? && !a.Return? {
      SumUpdate(st.workers, Weight, a.w, Step(st, a).workers[a.w]);
    }
  }

  lemma {:induction false} RunsAreBounded(st: State, mayRetire: bool, actions: seq<Action>)
    requires Invariant(st) && Runs(st, mayRetire, actions)
    ensures |actions| <= Potential(st)
    decreases |actions|
  {
    if actions == [] {
      WeightIsNatural(st.workers);
    } else {
      StepsAreProgress(st, mayRetire, actions[0]);
      StepKeepsInvariant(st, mayRetire, actions[0]);
      hide Invariant, Potential;
      RunsAreBounded(Step(st, actions[0]), mayRetire, actions[1..]);
    }
  }

  lemma {:induction false} InitialPotential(parallel: nat)
    ensures Sum(seq(parallel, _ => Idle), Weight) == 2 * parallel
  {
    if parallel > 0 {
      var ws := seq(parallel, _ => Idle);
      assert ws[..parallel - 1] == seq(parallel - 1, _ => Idle);
      InitialPotential(parallel - 1);
    }
  }

  /** The workers of the Hand steps of a run, in order: the k-th of them is handed item k. */
  function Hands(actions: seq<Action>): seq<nat> {
    if actions == [] then []
    else (if actions[0].Hand? then [actions[0].w] else []) + Hands(actions[1..])
  }

  lemma {:induction false} LogIsHands(st: State, mayRetire: bool, actions: seq<Action>)
    requires Runs(st, mayRetire, actions)
    ensures After(st, mayRetire, actions).log == st.log + Hands(actions)
    decreases |actions|
  {
    if actions != [] {
      LogIsHands(Step(st, actions[0]), mayRetire, actions[1..]);
      var first := if actions[0].Hand? then [actions[0].w] else [];
      assert Step(st, actions[0]).log == st.log + first;
      assert (st.log + first) + Hands(actions[1..]) == st.log + (first + Hands(actions[1..]));
    }
  }

  /** Once the caller has returned, in either pool: every item has been handed to exactly one
      worker, and every worker has finished. */
  lemma ReturnedMeansFinished(items: nat, parallel: nat, mayRetire: bool, actions: seq<Action>)
    requires Runs(Initial(items, parallel), mayRetire, actions)
    requires After(Initial(items, parallel), mayRetire, actions).caller.Returned?
    ensures |Hands(actions)| == items
    ensures forall i :: 0 <= i < items ==> Hands(actions)[i] < parallel
    ensures forall w :: 0 <= w < parallel ==>
      Is(After(Initial(items, parallel), mayRetire, actions), w, Gone)
  {
    hide Hands, After;
    InitialIsInvariant(items, parallel);
    RunKeepsInvariant(Initial(items, parallel), mayRetire, actions);
    LogIsHands(Initial(items, parallel), mayRetire, actions);
    assert [] + Hands(actions) == Hands(actions);
    var end := After(Initial(items, parallel), mayRetire, actions);
    assert end.log == Hands(actions);
    SumBounds(end.workers, IsGone);
  }

  /** Every run of either pool is finite: it has at most so many steps. */
  lemma PoolTerminates(items: nat, parallel: nat, mayRetire: bool, actions: seq<Action>)
    requires Runs(Initial(items, parallel), mayRetire, actions)
    ensures |actions| <= 2 * parallel + 3 * items + 2
  {
    InitialIsInvariant(items, parallel);
    RunsAreBounded(Initial(items, parallel), mayRetire, actions);
    InitialPotential(parallel);
  }

  /** A run of the patching pool that can go no further has returned, if and only if there is a
      worker or nothing to do. */
  lemma PatchingReturns(items: nat, parallel: nat, actions: seq<Action>)
    requires Runs(Initial(items, parallel), false, actions)
    requires Stuck(After(Initial(items, parallel), false, actions), false)
    ensures After(Initial(items, parallel), false, actions).caller.Returned? <==> parallel > 0 || items == 0
  {
    var end := After(Initial(items, parallel), false, actions);
    InitialIsInvariant(items, parallel);
    RunKeepsInvariant(Initial(items, parallel), false, actions);
    StuckStates(end, false);
    SumBounds(end.workers, IsDone);
    LogIsHands(Initial(items, parallel), false, actions);
  }

  /** A run of the downloading pool that can go no further has returned, unless every worker has
      retired with items left; then there were more items than workers. */
  lemma DownloadingReturns(items: nat, parallel: nat, actions: seq<Action>)
    requires Runs(Initial(items, parallel), true, actions)
    requires Stuck(After(Initial(items, parallel), true, actions), true)
    ensures var end := After(Initial(items, parallel), true, actions);
      && (end.caller.Returned? <==> !(end.retired == parallel && |Hands(actions)| < items))
      && (!end.caller.Returned? ==> parallel < items)
  {
    var end := After(Initial(items, parallel), true, actions);
    InitialIsInvariant(items, parallel);
    RunKeepsInvariant(Initial(items, parallel), true, actions);
    LogIsHands(Initial(items, parallel), true, actions);
    StuckStates(end, true);
    SumBounds(end.workers, IsDone);
    SumBounds(end.workers, IsBusy);
  }

  // ----- More items than workers that can all retire do deadlock

  function RetireAll(w: nat, parallel: nat): seq<Action>
    requires w <= parallel
    decreases parallel - w
  {
    if w == parallel then [] else [Hand(w), Retire(w)] + RetireAll(w + 1, parallel)
  }

  function RetiredUpTo(items: nat, parallel: nat, w: nat): State
    requires w <= parallel
  {
    State(items, seq(parallel, k => if k < w then Done else Idle), Sending(w), seq(w, k => k), w)
  }

  lemma {:induction false} AllRetire(items: nat, parallel: nat, w: nat)
    requires w <= parallel < items
    ensures Runs(RetiredUpTo(items, parallel, w), true, RetireAll(w, parallel))
    ensures After(RetiredUpTo(items, parallel, w), true, RetireAll(w, parallel)) == RetiredUpTo(items, parallel, parallel)
    decreases parallel - w
  {
    if w < parallel {
      var st, rest := RetiredUpTo(items, parallel, w), RetireAll(w + 1, parallel);
      var actions := [Hand(w), Retire(w)] + rest;
      var busy := Step(st, Hand(w));
      assert Step(busy, Retire(w)) == RetiredUpTo(items, parallel, w + 1);
      AllRetire(items, parallel, w + 1);
      assert actions[1..] == [Retire(w)] + rest && actions[1..][1..] == rest;
      assert Runs(busy, true, actions[1..]);
    }
  }

  /** With more items than workers, the downloading pool can deadlock: when every worker fails
      to make the directory of its first item. */
  lemma DownloadingCanDeadlock(items: nat, parallel: nat)
    requires parallel < items
    ensures Runs(Initial(items, parallel), true, RetireAll(0, parallel))
    ensures var end := After(Initial(items, parallel), true, RetireAll(0, parallel));
      Stuck(end, true) && !end.caller.Returned?
  {
    assert Initial(items, parallel) == RetiredUpTo(items, parallel, 0);
    AllRetire(items, parallel, 0);
    InitialIsInvariant(items, parallel);
    RunKeepsInvariant(Initial(items, parallel), true, RetireAll(0, parallel));
    StuckStates(RetiredUpTo(items, parallel, parallel), true);
  }
}
