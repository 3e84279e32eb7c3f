/**
 * The N-party barrier program of src/lv07_read-write_with-glibc/entry-pth.c as a state machine.
 *
 * The main thread creates threads 1..N-1, runs read_write(0) itself and joins the others.  Thread k
 * opens the file, waits on the barrier k times, prints its line and waits N-k times more.  Any
 * enabled thread may take the next step.  The barrier follows POSIX pthread_barrier_wait: the N-th
 * arrival of a round releases everyone who arrived in it, and each released thread leaves later, at
 * its own pace, possibly after others have arrived in the next round.
 */
module BarrierPrint {
  import opened Prelude

  /** What fopen answers in each thread; the number of entries is thread_num. */
  type Opens = o: seq<bool> | |o| >= 1 witness [true]

  datatype Thread =
    | Unborn
    | Opening                                            // about to call fopen
    | Counting(i: nat, printed: bool)                    // at a loop head, i waits done
    | Waiting(i: nat, printed: bool, round: nat)         // inside the wait, arrived in that round
    | Done                                               // returned after the second loop
    | Failed                                             // returned after fopen failed

  datatype Main = Creating(next: nat) | Calling | Joining(next: nat) | Exited

  datatype State = State(main: Main, threads: seq<Thread>, arrived: nat, round: nat, output: seq<nat>)

  datatype Action = MainStep | ThreadStep(k: nat)

  predicate Shape(o: Opens, s: State) {
    && |s.threads| == |o|
    && (s.main.Creating? || s.main.Joining? ==> 1 <= s.main.next <= |o|)
  }

  function Init(o: Opens): (s: State)
    ensures Shape(o, s)
  {
    State(Creating(1), seq(|o|, _ => Unborn), 0, 0, [])
  }

  predicate Returned(t: Thread) {
    t.Done? || t.Failed?
  }

  function MainNext(o: Opens, s: State): (r: Option<State>)
    requires Shape(o, s)
    ensures r.Some? ==> Shape(o, r.value)
  {
    match s.main
    case Creating(j) =>
      if j < |o| then Some(s.(main := Creating(j + 1), threads := s.threads[j := Opening]))
      else Some(s.(main := Calling, threads := s.threads[0 := Opening]))
    case Calling =>
      if Returned(s.threads[0]) then Some(s.(main := Joining(1))) else None
    case Joining(j) =>
      if j == |o| then Some(s.(main := Exited))
      else if Returned(s.threads[j]) then Some(s.(main := Joining(j + 1)))
      else None
    case Exited => None
  }

  /** pthread_barrier_wait up to the point where the caller blocks or is released. */
  function Arrive(o: Opens, s: State, k: nat): (r: State)
    requires Shape(o, s) && k < |o| && s.threads[k].Counting?
    ensures Shape(o, r)
  {
    var t := s.threads[k];
    var threads := s.threads[k := Waiting(t.i, t.printed, s.round)];
    if s.arrived + 1 == |o|
    then s.(threads := threads, arrived := 0, round := s.round + 1)
    else s.(threads := threads, arrived := s.arrived + 1)
  }

  function ThreadNext(o: Opens, s: State, k: nat): (r: Option<State>)
    requires Shape(o, s) && k < |o|
    ensures r.Some? ==> Shape(o, r.value)
  {
    match s.threads[k]
    case Unborn => None
    case Opening => Some(s.(threads := s.threads[k := if o[k] then Counting(0, false) else Failed]))
    case Counting(i, printed) =>
      if !printed && i == k then
        Some(s.(threads := s.threads[k := Counting(i, true)], output := s.output + [k]))
      else if i < |o| then Some(Arrive(o, s, k))
      else Some(s.(threads := s.threads[k := Done]))
    case Waiting(i, printed, round) =>
      if round < s.round then Some(s.(threads := s.threads[k := Counting(i + 1, printed)])) else None
    case Done => None
    case Failed => None
  }

  function Next(o: Opens, s: State, a: Action): (r: Option<State>)
    requires Shape(o, s)
    ensures r.Some? ==> Shape(o, r.value)
  {
    match a
    case MainStep => MainNext(o, s)
    case ThreadStep(k) => if k < |o| then ThreadNext(o, s, k) else None
  }

  /** The state after a schedule, or None when the schedule picks a thread that cannot move. */
  function Run(o: Opens, acts: seq<Action>): (r: Option<State>)
    ensures r.Some? ==> Shape(o, r.value)
  {
    if acts == [] then Some(Init(o))
    else
      var before := Run(o, acts[..|acts| - 1]);
      if before.None? then None else Next(o, before.value, acts[|acts| - 1])
  }

  /** No thread can move. */
  ghost predicate Stuck(o: Opens, s: State)
    requires Shape(o, s)
  {
    forall a :: Next(o, s, a).None?
  }

  // ----- the invariant

  predicate HasPrinted(t: Thread) {
    t.Done? || ((t.Counting? || t.Waiting?) && t.printed)
  }

  /** What thread k may be doing when `round` rounds of the barrier are complete. */
  predicate ThreadInv(o: Opens, round: nat, k: nat, t: Thread)
    requires k < |o|
  {
    match t
    case Unborn => round == 0
    case Opening => round == 0
    case Counting(i, printed) => o[k] && i == round <= |o| && (if printed then k <= i else i <= k)
    case Waiting(i, printed, r) =>
      o[k] && r == i < |o| && (i == round || i + 1 == round) && (if printed then k <= i else i < k)
    case Done => o[k] && round == |o|
    case Failed => !o[k] && round == 0
  }

  predicate MainInv(s: State) {
    && (s.main.Creating? ==> forall t :: 0 <= t < |s.threads| ==>
          (s.threads[t].Unborn? <==> t == 0 || s.main.next <= t))
    && (!s.main.Creating? ==> forall t :: 0 <= t < |s.threads| ==> !s.threads[t].Unborn?)
    && (s.main.Joining? ==> forall t :: 0 <= t < s.main.next && t < |s.threads| ==> Returned(s.threads[t]))
    && (s.main.Exited? ==> forall t :: 0 <= t < |s.threads| ==> Returned(s.threads[t]))
  }

  /** One entry per thread: 1 when it is blocked in the round that is filling up. */
  function Blocked(s: State): (r: seq<int>)
    ensures |r| == |s.threads|
  {
    seq(|s.threads|, t requires 0 <= t < |s.threads| =>
      if s.threads[t].Waiting? && s.threads[t].round == s.round then 1 else 0)
  }

  /** Lines on the output when `round` rounds are complete: one per round, and maybe the next one. */
  function Printed(o: Opens, s: State): nat
    requires Shape(o, s)
  {
    s.round + if s.round < |o| && HasPrinted(s.threads[s.round]) then 1 else 0
  }

  predicate Inv(o: Opens, s: State) {
    && Shape(o, s)
    && s.round <= |o|
    && s.arrived < |o|
    && s.arrived == Sum(Blocked(s))
    && (forall t :: 0 <= t < |o| ==> ThreadInv(o, s.round, t, s.threads[t]))
    && MainInv(s)
    && s.output == Iota(Printed(o, s))
  }

  lemma {:induction false} InitInv(o: Opens)
    ensures Inv(o, Init(o))
  {
    SumAtLeast(Blocked(Init(o)), 0);
    SumAtMost(Blocked(Init(o)), 0);
  }

  /** Replacing a thread that was not blocked by one that is not blocked leaves the count alone. */
  lemma {:induction false} BlockedUnchanged(s: State, k: nat, t: Thread)
    requires k < |s.threads|
    requires !(t.Waiting? && t.round == s.round)
    requires !(s.threads[k].Waiting? && s.threads[k].round == s.round)
    ensures Sum(Blocked(s.(threads := s.threads[k := t]))) == Sum(Blocked(s))
  {
    assert Blocked(s.(threads := s.threads[k := t])) == Blocked(s);
  }

  lemma {:induction false} MainKeepsInv(o: Opens, s: State)
    requires Inv(o, s) && MainNext(o, s).Some?
    ensures Inv(o, MainNext(o, s).value)
  {
    var s' := MainNext(o, s).value;
    if s.main.Creating? {
      BlockedUnchanged(s, if s.main.next < |o| then s.main.next else 0, Opening);
    }
    assert Blocked(s') == Blocked(s.(threads := s'.threads));
  }

  /** Thread k is at a loop head and its next step is a barrier wait. */
  predicate MayArrive(o: Opens, s: State, k: nat)
    requires Shape(o, s) && k < |o|
  {
    var t := s.threads[k];
    t.Counting? && t.i < |o| && (t.printed || t.i != k)
  }

  /** Everyone but the last to arrive is blocked when the last one arrives. */
  lemma {:induction false} LastArrival(o: Opens, s: State, k: nat, t: nat)
    requires Inv(o, s) && s.arrived + 1 == |o|
    requires k < |o| && t < |o| && t != k
    requires s.threads[k].Counting?
    ensures s.threads[t].Waiting? && s.threads[t].i == s.round
  {
    var b := Blocked(s)[k := 1];
    SumUpdate(Blocked(s), k, 1);
    SumFull(b, t);
  }

  /** An arrival that leaves the round open. */
  lemma {:induction false} EarlyArrivalKeepsInv(o: Opens, s: State, k: nat)
    requires Inv(o, s) && k < |o| && MayArrive(o, s, k)
    requires s.arrived + 1 < |o|
    ensures Inv(o, Arrive(o, s, k))
  {
    var s' := Arrive(o, s, k);
    SumUpdate(Blocked(s), k, 1);
    assert Blocked(s') == Blocked(s)[k := 1];
    assert forall t :: 0 <= t < |o| ==> ThreadInv(o, s'.round, t, s'.threads[t]);
    assert HasPrinted(s'.threads[k]) == HasPrinted(s.threads[k]);
    assert Printed(o, s') == Printed(o, s);
  }

  /** The arrival that completes a round: the thread the round belongs to has printed by now. */
  lemma {:induction false} LastArrivalKeepsInv(o: Opens, s: State, k: nat)
    requires Inv(o, s) && k < |o| && MayArrive(o, s, k)
    requires s.arrived + 1 == |o|
    ensures Inv(o, Arrive(o, s, k))
  {
    var s' := Arrive(o, s, k);
    forall t | 0 <= t < |o|
      ensures s'.threads[t].Waiting? && s'.threads[t].i == s.round
      ensures ThreadInv(o, s'.round, t, s'.threads[t])
      ensures HasPrinted(s'.threads[t]) <==> t <= s.round
      ensures HasPrinted(s'.threads[t]) == HasPrinted(s.threads[t])
    {
      if t != k {
        LastArrival(o, s, k, t);
      }
    }
    SumAtLeast(Blocked(s'), 0);
    SumAtMost(Blocked(s'), 0);
    assert Printed(o, s') == Printed(o, s) == s.round + 1;
  }

  /** A step that neither arrives nor touches the round: open, print, leave or return. */
  lemma {:induction false} QuietStepKeepsInv(o: Opens, s: State, k: nat)
    requires Inv(o, s) && k < |o| && ThreadNext(o, s, k).Some? && !MayArrive(o, s, k)
    ensures Inv(o, ThreadNext(o, s, k).value)
  {
    var s' := ThreadNext(o, s, k).value;
    var t' := s'.threads[k];
    assert ThreadInv(o, s.round, k, s.threads[k]);
    assert ThreadInv(o, s.round, k, t');
    assert Sum(Blocked(s')) == s.arrived by {
      BlockedUnchanged(s, k, t');
      assert Blocked(s') == Blocked(s.(threads := s.threads[k := t']));
    }
    assert MainInv(s');
    assert s'.output == Iota(Printed(o, s')) by {
      if s.threads[k].Counting? && !s.threads[k].printed {
        assert k == s.round && Printed(o, s') == Printed(o, s) + 1;
      } else {
        assert Printed(o, s') == Printed(o, s);
      }
    }
  }

  lemma {:induction false} ThreadKeepsInv(o: Opens, s: State, k: nat)
    requires Inv(o, s) && k < |o| && ThreadNext(o, s, k).Some?
    ensures Inv(o, ThreadNext(o, s, k).value)
  {
    if MayArrive(o, s, k) {
      if s.arrived + 1 == |o| {
        LastArrivalKeepsInv(o, s, k);
      } else {
        EarlyArrivalKeepsInv(o, s, k);
      }
    } else {
      QuietStepKeepsInv(o, s, k);
    }
  }

  lemma {:induction false} RunInv(o: Opens, acts: seq<Action>)
    requires Run(o, acts).Some?
    ensures Inv(o, Run(o, acts).value)
  {
    if acts == [] {
      InitInv(o);
    } else {
      RunInv(o, acts[..|acts| - 1]);
      var s := Run(o, acts[..|acts| - 1]).value;
      match acts[|acts| - 1]
      case MainStep => MainKeepsInv(o, s);
      case ThreadStep(k) => ThreadKeepsInv(o, s, k);
    }
  }

  // ----- the measure: every step uses up exactly one unit

  function ThreadWork(o: Opens, k: nat, t: Thread): int
    requires k < |o|
  {
    match t
    case Unborn => if o[k] then 2 * |o| + 3 else 1
    case Opening => if o[k] then 2 * |o| + 3 else 1
    case Counting(i, printed) => 2 * (|o| - i) + (if printed then 1 else 2)
    case Waiting(i, printed, _) => 2 * (|o| - i) - 1 + (if printed then 1 else 2)
    case Done => 0
    case Failed => 0
  }

  function MainWork(o: Opens, m: Main): int {
    match m
    case Creating(j) => 2 * |o| + 2 - j
    case Calling => |o| + 1
    case Joining(j) => |o| + 1 - j
    case Exited => 0
  }

  function Works(o: Opens, s: State): (r: seq<int>)
    requires Shape(o, s)
    ensures |r| == |o|
  {
    seq(|o|, k requires 0 <= k < |o| => ThreadWork(o, k, s.threads[k]))
  }

  function Work(o: Opens, s: State): int
    requires Shape(o, s)
  {
    MainWork(o, s.main) + Sum(Works(o, s))
  }

  lemma {:induction false} WorksUpdate(o: Opens, s: State, s': State, k: nat)
    requires Shape(o, s) && Shape(o, s') && k < |o|
    requires s'.threads == s.threads[k := s'.threads[k]]
    ensures Sum(Works(o, s')) ==
            Sum(Works(o, s)) - ThreadWork(o, k, s.threads[k]) + ThreadWork(o, k, s'.threads[k])
  {
    SumUpdate(Works(o, s), k, ThreadWork(o, k, s'.threads[k]));
    assert Works(o, s') == Works(o, s)[k := ThreadWork(o, k, s'.threads[k])];
  }

  lemma {:induction false} ThreadStepWork(o: Opens, s: State, k: nat)
    requires Shape(o, s) && k < |o| && ThreadNext(o, s, k).Some?
    requires ThreadInv(o, s.round, k, s.threads[k])
    ensures Work(o, ThreadNext(o, s, k).value) == Work(o, s) - 1
  {
    WorksUpdate(o, s, ThreadNext(o, s, k).value, k);
  }

  lemma {:induction false} MainStepWork(o: Opens, s: State)
    requires Shape(o, s) && MainInv(s) && MainNext(o, s).Some?
    ensures Work(o, MainNext(o, s).value) == Work(o, s) - 1
  {
    var k := if s.main.Creating? && s.main.next < |o| then s.main.next else 0;
    WorksUpdate(o, s, MainNext(o, s).value, k);
  }

  lemma {:induction false} RunWork(o: Opens, acts: seq<Action>)
    requires Run(o, acts).Some?
    ensures |acts| + Work(o, Run(o, acts).value) == Work(o, Init(o))
  {
    if acts != [] {
      var prior := acts[..|acts| - 1];
      RunWork(o, prior);
      RunInv(o, prior);
      match acts[|acts| - 1]
      case MainStep => MainStepWork(o, Run(o, prior).value);
      case ThreadStep(k) => ThreadStepWork(o, Run(o, prior).value, k);
    }
  }

  lemma {:induction false} WorkIsNatural(o: Opens, s: State)
    requires Inv(o, s)
    ensures Work(o, s) >= 0
  {
    forall k | 0 <= k < |o|
      ensures Works(o, s)[k] >= 0
    {
      assert ThreadInv(o, s.round, k, s.threads[k]);
    }
    SumAtLeast(Works(o, s), 0);
  }

  // ----- main results

  ghost predicate AllOpen(o: Opens) {
    forall k :: 0 <= k < |o| ==> o[k]
  }

  ghost predicate NoneOpen(o: Opens) {
    forall k :: 0 <= k < |o| ==> !o[k]
  }

  /** Every schedule prints some prefix of 0, 1, 2, ... and takes no more steps than the first state allows. */
  lemma {:induction false} OutputInOrder(o: Opens, acts: seq<Action>)
    requires Run(o, acts).Some?
    ensures Run(o, acts).value.output <= Iota(|o|)
    ensures |acts| <= Work(o, Init(o))
  {
    RunInv(o, acts);
    RunWork(o, acts);
    WorkIsNatural(o, Run(o, acts).value);
  }

  /**
   * Thread k prints exactly when k rounds of the barrier are complete: every thread has then waited
   * k times, none has got past its (k+1)-th wait or returned, and from the second line on all are
   * inside their loops.
   */
  lemma {:induction false} PrintsInItsRound(o: Opens, acts: seq<Action>, k: nat)
    requires Run(o, acts).Some? && k < |o|
    requires ThreadNext(o, Run(o, acts).value, k).Some?
    requires ThreadNext(o, Run(o, acts).value, k).value.output != Run(o, acts).value.output
    ensures Run(o, acts).value.round == k
    ensures Run(o, acts).value.output == Iota(k)
    ensures forall t :: 0 <= t < |o| ==>
              var th := Run(o, acts).value.threads[t];
              && (th.Counting? ==> th.i == k) && (th.Waiting? ==> k <= th.i + 1 <= k + 1)
              && !th.Done? && (k > 0 ==> th.Counting? || th.Waiting?)
  {
    RunInv(o, acts);
    var s := Run(o, acts).value;
    assert ThreadInv(o, s.round, k, s.threads[k]);
    assert forall t :: 0 <= t < |o| ==> ThreadInv(o, s.round, t, s.threads[t]);
  }

  /** In a stuck state a thread is finished or blocked in the round that cannot fill up. */
  lemma {:induction false} StuckThread(o: Opens, s: State, k: nat)
    requires Inv(o, s) && Stuck(o, s) && k < |o|
    ensures Returned(s.threads[k]) || Blocked(s)[k] == 1
    ensures s.threads[k].Failed? <==> !o[k]
    ensures !s.main.Creating?
  {
    assert Next(o, s, MainStep).None?;
    assert Next(o, s, ThreadStep(k)).None?;
    assert ThreadInv(o, s.round, k, s.threads[k]);
  }

  lemma {:induction false} StuckMain(o: Opens, s: State)
    requires Inv(o, s) && Stuck(o, s)
    requires forall k :: 0 <= k < |o| ==> Returned(s.threads[k])
    ensures s.main.Exited?
  {
    StuckThread(o, s, 0);
    assert Next(o, s, MainStep).None?;
  }

  /** With every file opened no thread can be left waiting: a full house would have ended the round. */
  lemma {:induction false} NoDeadlock(o: Opens, s: State)
    requires Inv(o, s) && Stuck(o, s) && AllOpen(o)
    ensures s.main.Exited? && s.output == Iota(|o|)
  {
    if s.round < |o| {
      forall k | 0 <= k < |o|
        ensures Blocked(s)[k] >= 1
      {
        StuckThread(o, s, k);
        assert ThreadInv(o, s.round, k, s.threads[k]);
      }
      SumAtLeast(Blocked(s), 1);
      assert false;
    }
    forall k | 0 <= k < |o|
      ensures Returned(s.threads[k])
    {
      StuckThread(o, s, k);
      assert ThreadInv(o, s.round, k, s.threads[k]);
    }
    StuckMain(o, s);
  }

  /** A thread whose fopen failed keeps the first round open for ever. */
  lemma {:induction false} OneFailure(o: Opens, s: State, f: nat)
    requires Inv(o, s) && Stuck(o, s) && f < |o| && !o[f]
    ensures s.main.Exited? <==> NoneOpen(o)
    ensures s.output == if o[0] then [0] else []
  {
    StuckThread(o, s, f);
    StuckThread(o, s, 0);
    assert ThreadInv(o, s.round, f, s.threads[f]);
    assert ThreadInv(o, s.round, 0, s.threads[0]);
    forall k | 0 <= k < |o|
      ensures Returned(s.threads[k]) <==> !o[k]
    {
      StuckThread(o, s, k);
      assert ThreadInv(o, s.round, k, s.threads[k]);
    }
    if NoneOpen(o) {
      StuckMain(o, s);
    }
  }

  /** The steps of a run in which every file opens: a fixed number per thread, and main's own. */
  lemma {:induction false} InitialWork(o: Opens)
    requires AllOpen(o)
    ensures Work(o, Init(o)) == 2 * |o| + 1 + (2 * |o| + 3) * |o|
  {
    SumAtLeast(Works(o, Init(o)), 2 * |o| + 3);
    SumAtMost(Works(o, Init(o)), 2 * |o| + 3);
  }

  /** When every thread has returned and main has exited, no work is left. */
  lemma {:induction false} NoWorkLeft(o: Opens, s: State)
    requires Inv(o, s) && s.main.Exited?
    ensures Work(o, s) == 0
  {
    assert forall k :: 0 <= k < |o| ==> Works(o, s)[k] == 0;
    SumAtLeast(Works(o, s), 0);
    SumAtMost(Works(o, s), 0);
  }

  /**
   * What every complete schedule ends in.  main returns exactly when fopen answered the same in all
   * threads; when it succeeded in all of them every line was printed, in order; and a schedule in
   * which main returns has one fixed length (InitialWork says which).
   */
  lemma {:induction false} CompleteRun(o: Opens, acts: seq<Action>)
    requires Run(o, acts).Some? && Stuck(o, Run(o, acts).value)
    ensures Run(o, acts).value.main.Exited? <==> AllOpen(o) || NoneOpen(o)
    ensures AllOpen(o) ==> Run(o, acts).value.output == Iota(|o|)
    ensures !AllOpen(o) ==> Run(o, acts).value.output == if o[0] then [0] else []
    ensures Run(o, acts).value.main.Exited? ==> |acts| == Work(o, Init(o))
  {
    RunInv(o, acts);
    RunWork(o, acts);
    var s := Run(o, acts).value;
    if AllOpen(o) {
      NoDeadlock(o, s);
    } else {
      var f :| 0 <= f < |o| && !o[f];
      OneFailure(o, s, f);
    }
    if s.main.Exited? {
      NoWorkLeft(o, s);
    }
  }

  /** Every schedule can be carried on until nobody can move, so the theorem above speaks of all of them. */
  lemma {:induction false} CanComplete(o: Opens, acts: seq<Action>) returns (full: seq<Action>)
    requires Run(o, acts).Some?
    ensures acts <= full && Run(o, full).Some? && Stuck(o, Run(o, full).value)
    decreases Work(o, Init(o)) - |acts|
  {
    OutputInOrder(o, acts);
    if Stuck(o, Run(o, acts).value) {
      return acts;
    }
    var a :| Next(o, Run(o, acts).value, a).Some?;
    assert (acts + [a])[..|acts|] == acts;
    OutputInOrder(o, acts + [a]);
    full := CanComplete(o, acts + [a]);
  }
}
