/**
 * The spin gate of src/test_mck/src/cpu_thread_limits/001.c as a state machine, for any division of
 * the work into consecutive ranges.
 *
 * The main thread creates the children, scans their `waiting` flags from the beginning until one
 * scan finds them all set, opens `threads_barrier`, joins the children and adds up their partial
 * sums.  A child sets its flag, spins on the barrier, accumulates its range and leaves its partial
 * sum.  Arithmetic is exact (real).
 */
module SpinGate {
  import opened Prelude

  /** Child t works on [cuts[t], cuts[t+1]) with terms term(i), and scales its sum by dx. */
  datatype Config = Config(count: nat, cuts: seq<int>, term: int -> real, dx: real) {
    ghost predicate Valid() {
      && |cuts| == count + 1
      && forall t :: 0 <= t < count ==> cuts[t] <= cuts[t + 1]
    }
  }

  /** Sum of the terms of [lo, hi), accumulated in that order. */
  function RangeSum(term: int -> real, lo: int, hi: int): real
    decreases hi - lo
  {
    if hi <= lo then 0.0 else RangeSum(term, lo, hi - 1) + term(hi - 1)
  }

  lemma {:induction false} RangeSumSplit(term: int -> real, lo: int, mid: int, hi: int)
    requires lo <= mid <= hi
    ensures RangeSum(term, lo, hi) == RangeSum(term, lo, mid) + RangeSum(term, mid, hi)
    decreases hi - mid
  {
    if mid < hi {
      RangeSumSplit(term, lo, mid, hi - 1);
    }
  }

  lemma {:induction false} CutsAscend(c: Config, j: nat)
    requires c.Valid() && j <= c.count
    ensures c.cuts[0] <= c.cuts[j]
  {
    if j > 0 {
      CutsAscend(c, j - 1);
    }
  }

  // ----- the program

  datatype Pc =
    | Unborn
    | Begun                              // about to set waiting
    | Spinning                           // reading threads_barrier
    | Computing(i: int, sum: real)
    | Finished

  datatype Child = Child(pc: Pc, waiting: bool, psum: real)

  datatype Main = Creating(next: nat) | Scanning(next: nat) | Releasing | Joining(next: nat) | Printed

  datatype State = State(main: Main, children: seq<Child>, barrier: bool, pi: real)

  datatype Action = MainStep | ChildStep(t: nat)

  predicate Shape(c: Config, s: State) {
    && |s.children| == c.count
    && (s.main.Creating? || s.main.Scanning? || s.main.Joining? ==> s.main.next <= c.count)
  }

  function Init(c: Config): (s: State)
    ensures Shape(c, s)
  {
    State(Creating(0), seq(c.count, _ => Child(Unborn, false, 0.0)), false, 0.0)
  }

  function MainNext(c: Config, s: State): (r: Option<State>)
    requires Shape(c, s)
    ensures r.Some? ==> Shape(c, r.value)
  {
    match s.main
    case Creating(j) =>
      if j == c.count then Some(s.(main := Scanning(0)))
      else Some(s.(main := Creating(j + 1), children := s.children[j := Child(Begun, false, 0.0)]))
    case Scanning(j) =>
      if j == c.count then Some(s.(main := Releasing))
      else if s.children[j].waiting then Some(s.(main := Scanning(j + 1)))
      else Some(s.(main := Scanning(0)))
    case Releasing => Some(s.(main := Joining(0), barrier := true))
    case Joining(j) =>
      if j == c.count then Some(s.(main := Printed))
      else if s.children[j].pc.Finished?
      then Some(s.(main := Joining(j + 1), pi := s.pi + s.children[j].psum))
      else None
    case Printed => None
  }

  function ChildMove(c: Config, t: nat, me: Child, barrier: bool): (r: Option<Child>)
    requires c.Valid() && t < c.count
  {
    match me.pc
    case Unborn => None
    case Begun => Some(me.(pc := Spinning, waiting := true))
    case Spinning => Some(if barrier then me.(pc := Computing(c.cuts[t], 0.0)) else me)
    case Computing(i, sum) =>
      if i < c.cuts[t + 1] then Some(me.(pc := Computing(i + 1, sum + c.term(i))))
      else Some(me.(pc := Finished, psum := sum * c.dx))
    case Finished => None
  }

  function Next(c: Config, s: State, a: Action): (r: Option<State>)
    requires c.Valid() && Shape(c, s)
    ensures r.Some? ==> Shape(c, r.value)
  {
    match a
    case MainStep => MainNext(c, s)
    case ChildStep(t) =>
      if t >= c.count then None
      else
        var m := ChildMove(c, t, s.children[t], s.barrier);
        if m.None? then None else Some(s.(children := s.children[t := m.value]))
  }

  function Exec(c: Config, s: State, acts: seq<Action>): (r: Option<State>)
    requires c.Valid() && Shape(c, s)
    ensures r.Some? ==> Shape(c, r.value)
    decreases |acts|
  {
    if acts == [] then Some(s)
    else
      var s' := Next(c, s, acts[0]);
      if s'.None? then None else Exec(c, s'.value, acts[1..])
  }

  // ----- the invariant

  predicate ChildInv(c: Config, s: State, t: nat)
    requires c.Valid() && Shape(c, s) && t < c.count
  {
    var me := s.children[t];
    && (me.pc.Unborn? <==> s.main.Creating? && s.main.next <= t)
    && (me.waiting <==> !me.pc.Unborn? && !me.pc.Begun?)
    && (s.main.Scanning? && t < s.main.next ==> me.waiting)
    && (s.main.Releasing? || s.barrier ==> me.waiting)
    && (me.pc.Computing? || me.pc.Finished? ==> s.barrier)
    && (me.pc.Computing? ==>
          c.cuts[t] <= me.pc.i <= c.cuts[t + 1] && me.pc.sum == RangeSum(c.term, c.cuts[t], me.pc.i))
    && (me.pc.Finished? ==> me.psum == RangeSum(c.term, c.cuts[t], c.cuts[t + 1]) * c.dx)
  }

  /** What the joined children have left so far. */
  function JoinedSum(c: Config, m: Main): real
    requires c.Valid() && (m.Joining? ==> m.next <= c.count)
  {
    match m
    case Joining(j) => RangeSum(c.term, c.cuts[0], c.cuts[j]) * c.dx
    case Printed => RangeSum(c.term, c.cuts[0], c.cuts[c.count]) * c.dx
    case _ => 0.0
  }

  ghost predicate Inv(c: Config, s: State) {
    && c.Valid()
    && Shape(c, s)
    && (forall t :: 0 <= t < c.count ==> ChildInv(c, s, t))
    && (s.barrier <==> s.main.Joining? || s.main.Printed?)
    && s.pi == JoinedSum(c, s.main)
  }

  lemma {:induction false} InitInv(c: Config)
    requires c.Valid()
    ensures Inv(c, Init(c))
  {
  }

  lemma {:induction false} JoinOne(c: Config, j: nat, psum: real)
    requires c.Valid() && j < c.count
    requires psum == RangeSum(c.term, c.cuts[j], c.cuts[j + 1]) * c.dx
    ensures JoinedSum(c, Joining(j)) + psum == JoinedSum(c, Joining(j + 1))
  {
    CutsAscend(c, j);
    RangeSumSplit(c.term, c.cuts[0], c.cuts[j], c.cuts[j + 1]);
  }

  lemma {:induction false} MainKeepsSum(c: Config, s: State)
    requires Inv(c, s) && MainNext(c, s).Some?
    ensures MainNext(c, s).value.pi == JoinedSum(c, MainNext(c, s).value.main)
  {
    if s.main.Joining? && s.main.next < c.count {
      var j := s.main.next;
      assert ChildInv(c, s, j);
      JoinOne(c, j, s.children[j].psum);
    }
  }

  lemma {:induction false} MainKeepsInv(c: Config, s: State)
    requires Inv(c, s) && MainNext(c, s).Some?
    ensures Inv(c, MainNext(c, s).value)
  {
    MainKeepsSum(c, s);
    var s' := MainNext(c, s).value;
    forall t | 0 <= t < c.count
      ensures ChildInv(c, s', t)
    {
      assert ChildInv(c, s, t);
    }
  }

  lemma {:induction false} ChildKeepsInv(c: Config, s: State, t: nat)
    requires Inv(c, s) && t < c.count && Next(c, s, ChildStep(t)).Some?
    ensures Inv(c, Next(c, s, ChildStep(t)).value)
  {
    var s' := Next(c, s, ChildStep(t)).value;
    assert ChildInv(c, s, t);
    assert ChildInv(c, s', t);
    forall u | 0 <= u < c.count && u != t
      ensures ChildInv(c, s', u)
    {
      assert ChildInv(c, s, u);
    }
  }

  lemma {:induction false} StepKeepsInv(c: Config, s: State, a: Action)
    requires Inv(c, s) && Next(c, s, a).Some?
    ensures Inv(c, Next(c, s, a).value)
  {
    match a
    case MainStep => MainKeepsInv(c, s);
    case ChildStep(t) => ChildKeepsInv(c, s, t);
  }

  lemma {:induction false} ExecInv(c: Config, s: State, acts: seq<Action>)
    requires Inv(c, s) && Exec(c, s, acts).Some?
    ensures Inv(c, Exec(c, s, acts).value)
    decreases |acts|
  {
    if acts != [] {
      StepKeepsInv(c, s, acts[0]);
      ExecInv(c, Next(c, s, acts[0]).value, acts[1..]);
    }
  }

  // ----- main results

  /** No child computes until every child has set its flag. */
  lemma {:induction false} GateHolds(c: Config, acts: seq<Action>, t: nat, u: nat)
    requires c.Valid() && Exec(c, Init(c), acts).Some? && t < c.count && u < c.count
    ensures var s := Exec(c, Init(c), acts).value;
            s.children[t].pc.Computing? || s.children[t].pc.Finished? ==> s.children[u].waiting
  {
    InitInv(c);
    ExecInv(c, Init(c), acts);
    var s := Exec(c, Init(c), acts).value;
    assert ChildInv(c, s, t);
    assert ChildInv(c, s, u);
  }

  /** The joined partial sums are the sum over the whole range [lo, hi). */
  lemma {:induction false} PrintedSum(c: Config, acts: seq<Action>, lo: int, hi: int)
    requires c.Valid() && c.cuts[0] == lo && c.cuts[c.count] == hi
    requires Exec(c, Init(c), acts).Some? && Exec(c, Init(c), acts).value.main.Printed?
    ensures Exec(c, Init(c), acts).value.pi == RangeSum(c.term, lo, hi) * c.dx
  {
    InitInv(c);
    ExecInv(c, Init(c), acts);
  }

  // ----- the program finishes

  ghost predicate AllWaiting(s: State) {
    forall t :: 0 <= t < |s.children| ==> s.children[t].waiting
  }

  /** Giving the turn to a helps: it gets something done that is not done again. */
  ghost predicate Helps(c: Config, s: State, a: Action)
    requires Shape(c, s)
  {
    match a
    case MainStep =>
      || s.main.Creating? || s.main.Releasing?
      || (s.main.Scanning? && AllWaiting(s))
      || (s.main.Joining? && (s.main.next == c.count || s.children[s.main.next].pc.Finished?))
    case ChildStep(t) =>
      t < c.count && var pc := s.children[t].pc; pc.Begun? || pc.Computing? || (pc.Spinning? && s.barrier)
  }

  function ChildRank(c: Config, t: nat, pc: Pc): int
    requires c.Valid() && t < c.count
  {
    var len := c.cuts[t + 1] - c.cuts[t];
    match pc
    case Unborn => len + 3
    case Begun => len + 3
    case Spinning => len + 2
    case Computing(i, _) => c.cuts[t + 1] - i + 1
    case Finished => 0
  }

  /** How far main has got in its scan counts only once all flags are set, when it cannot start again. */
  ghost function MainRank(c: Config, s: State): int {
    match s.main
    case Creating(j) => 3 * c.count + 5 - j
    case Scanning(j) => if AllWaiting(s) then 2 * c.count + 3 - j else 2 * c.count + 4
    case Releasing => c.count + 2
    case Joining(j) => c.count + 1 - j
    case Printed => 0
  }

  function ChildRanks(c: Config, s: State): (r: seq<int>)
    requires c.Valid() && Shape(c, s)
    ensures |r| == c.count
  {
    seq(c.count, t requires 0 <= t < c.count => ChildRank(c, t, s.children[t].pc))
  }

  ghost function Rank(c: Config, s: State): int
    requires c.Valid() && Shape(c, s)
  {
    MainRank(c, s) + Sum(ChildRanks(c, s))
  }

  lemma {:induction false} RankIsNatural(c: Config, s: State)
    requires Inv(c, s)
    ensures Rank(c, s) >= 0
  {
    forall t | 0 <= t < c.count
      ensures ChildRanks(c, s)[t] >= 0
    {
      assert ChildInv(c, s, t);
    }
    SumAtLeast(ChildRanks(c, s), 0);
  }

  lemma {:induction false} MainRankStep(c: Config, s: State)
    requires Inv(c, s) && MainNext(c, s).Some?
    ensures var s' := MainNext(c, s).value;
            if Helps(c, s, MainStep) then Rank(c, s') < Rank(c, s) else Rank(c, s') == Rank(c, s)
  {
    var s' := MainNext(c, s).value;
    forall t | 0 <= t < c.count
      ensures ChildRanks(c, s')[t] == ChildRanks(c, s)[t]
      ensures s.main == Scanning(c.count) ==> s.children[t].waiting
    {
      assert ChildInv(c, s, t);
    }
    assert ChildRanks(c, s') == ChildRanks(c, s);
    assert s.main == Scanning(c.count) ==> AllWaiting(s);
    assert s.main.Scanning? ==> AllWaiting(s') == AllWaiting(s);
  }

  lemma {:induction false} ChildRankStep(c: Config, s: State, t: nat)
    requires Inv(c, s) && t < c.count && Next(c, s, ChildStep(t)).Some?
    ensures var s' := Next(c, s, ChildStep(t)).value;
            if Helps(c, s, ChildStep(t)) then Rank(c, s') < Rank(c, s) else Rank(c, s') == Rank(c, s)
  {
    var s' := Next(c, s, ChildStep(t)).value;
    var r := ChildRank(c, t, s'.children[t].pc);
    assert ChildInv(c, s, t);
    SumUpdate(ChildRanks(c, s), t, r);
    assert ChildRanks(c, s') == ChildRanks(c, s)[t := r];
    if !Helps(c, s, ChildStep(t)) {
      assert s' == s;
    }
  }

  /** No step raises the rank, and a step lowers it exactly when the turn helps. */
  lemma {:induction false} RankStep(c: Config, s: State, a: Action)
    requires Inv(c, s) && Next(c, s, a).Some?
    ensures var s' := Next(c, s, a).value;
            if Helps(c, s, a) then Rank(c, s') < Rank(c, s) else Rank(c, s') == Rank(c, s)
  {
    match a
    case MainStep => MainRankStep(c, s);
    case ChildStep(t) => ChildRankStep(c, s, t);
  }

  /** Until the result is printed, some thread's turn helps. */
  lemma {:induction false} SomeoneHelps(c: Config, s: State) returns (a: Action)
    requires Inv(c, s) && !s.main.Printed?
    ensures Helps(c, s, a) && Next(c, s, a).Some?
  {
    if t :| 0 <= t < c.count && Helps(c, s, ChildStep(t)) {
      return ChildStep(t);
    }
    forall t | 0 <= t < c.count
      ensures s.main.Scanning? ==> s.children[t].waiting
      ensures s.main.Joining? ==> s.children[t].pc.Finished?
    {
      assert ChildInv(c, s, t) && !Helps(c, s, ChildStep(t));
    }
    a := MainStep;
  }

  /** From every reachable state some schedule leads straight to the printed result. */
  lemma {:induction false} CanFinish(c: Config, s: State) returns (acts: seq<Action>)
    requires Inv(c, s)
    ensures Exec(c, s, acts).Some? && Exec(c, s, acts).value.main.Printed?
    ensures |acts| <= Rank(c, s)
    decreases Rank(c, s)
  {
    RankIsNatural(c, s);
    if s.main.Printed? {
      return [];
    }
    var a := SomeoneHelps(c, s);
    StepKeepsInv(c, s, a);
    RankStep(c, s, a);
    var s' := Next(c, s, a).value;
    RankIsNatural(c, s');
    var rest := CanFinish(c, s');
    acts := [a] + rest;
    assert acts[1..] == rest;
  }

  /** The same, said of schedules: whatever has run so far, the program can still print its result. */
  lemma {:induction false} ReachableCanFinish(c: Config, acts: seq<Action>) returns (more: seq<Action>)
    requires c.Valid() && Exec(c, Init(c), acts).Some?
    ensures var s := Exec(c, Init(c), acts).value;
            Exec(c, s, more).Some? && Exec(c, s, more).value.main.Printed?
  {
    InitInv(c);
    ExecInv(c, Init(c), acts);
    more := CanFinish(c, Exec(c, Init(c), acts).value);
  }

  // ----- the scan

  function CountMain(acts: seq<Action>): nat {
    if acts == [] then 0 else CountMain(acts[1..]) + if acts[0].MainStep? then 1 else 0
  }

  /** From child j on, a scan takes a step for every child and one more to end. */
  lemma {:induction false} ScanTakes(c: Config, s: State, acts: seq<Action>)
    requires c.Valid() && Shape(c, s) && s.main.Scanning?
    requires Exec(c, s, acts).Some? && Exec(c, s, acts).value.main.Releasing?
    ensures CountMain(acts) >= c.count - s.main.next + 1
    decreases |acts|
  {
    var s' := Next(c, s, acts[0]).value;
    if s'.main.Scanning? {
      ScanTakes(c, s', acts[1..]);
    }
  }

  /** A scan that finds a flag unset starts over: every child is looked at again before the barrier opens. */
  lemma {:induction false} ScanStartsOver(c: Config, s: State, acts: seq<Action>)
    requires c.Valid() && Shape(c, s) && s.main.Scanning? && s.main.next < c.count
    requires !s.children[s.main.next].waiting && acts != [] && acts[0] == MainStep
    requires Exec(c, s, acts).Some? && Exec(c, s, acts).value.main.Releasing?
    ensures CountMain(acts) >= c.count + 2
  {
    ScanTakes(c, Next(c, s, acts[0]).value, acts[1..]);
  }

  // ----- fair schedules

  /** A turn of a: nothing happens if that thread cannot move. */
  function Turn(c: Config, s: State, a: Action): (r: State)
    requires c.Valid() && Shape(c, s)
    ensures Shape(c, r)
  {
    if Next(c, s, a).None? then s else Next(c, s, a).value
  }

  /** The state after the first k turns of an infinite schedule. */
  function After(c: Config, sched: nat -> Action, k: nat): (s: State)
    requires c.Valid()
    ensures Shape(c, s)
  {
    if k == 0 then Init(c) else Turn(c, After(c, sched, k - 1), sched(k - 1))
  }

  predicate IsThread(c: Config, a: Action) {
    a.ChildStep? ==> a.t < c.count
  }

  ghost predicate Again(sched: nat -> Action, k: nat, a: Action) {
    exists m :: k <= m && sched(m) == a
  }

  /** Every thread gets its turn again and again. */
  ghost predicate Fair(c: Config, sched: nat -> Action) {
    forall k: nat, a :: IsThread(c, a) ==> Again(sched, k, a)
  }

  /** run lists the states of an infinite schedule. */
  ghost predicate IsRun(c: Config, sched: nat -> Action, run: nat -> State)
    requires c.Valid()
  {
    && run(0) == Init(c)
    && forall k: nat {:trigger sched(k)} :: Shape(c, run(k)) && run(k + 1) == Turn(c, run(k), sched(k))
  }

  lemma {:induction false} RunInv(c: Config, sched: nat -> Action, run: nat -> State, k: nat)
    requires c.Valid() && IsRun(c, sched, run)
    ensures Inv(c, run(k))
  {
    if k == 0 {
      InitInv(c);
    } else {
      var j, a := k - 1, sched(k - 1);
      RunInv(c, sched, run, j);
      assert run(j + 1) == Turn(c, run(j), a);
      if Next(c, run(j), a).Some? {
        StepKeepsInv(c, run(j), a);
      }
    }
  }

  /** A turn that helps still helps after somebody else has had a turn. */
  lemma {:induction false} StillHelps(c: Config, s: State, a: Action, h: Action)
    requires Inv(c, s) && Helps(c, s, h) && a != h
    ensures Helps(c, Turn(c, s, a), h)
  {
    if h.ChildStep? {
      assert ChildInv(c, s, h.t);
    } else if s.main.Joining? && s.main.next < c.count {
      assert ChildInv(c, s, s.main.next);
    }
  }

  /** A turn of the helpful thread lowers the rank; anybody else's leaves it helpful. */
  lemma {:induction false} TurnHelps(c: Config, s: State, a: Action, h: Action)
    requires Inv(c, s) && Helps(c, s, h) && IsThread(c, h)
    ensures Inv(c, Turn(c, s, a)) && Rank(c, Turn(c, s, a)) <= Rank(c, s)
    ensures if a == h then Rank(c, Turn(c, s, a)) < Rank(c, s) else Helps(c, Turn(c, s, a), h)
  {
    if Next(c, s, a).Some? {
      StepKeepsInv(c, s, a);
      RankStep(c, s, a);
    }
    if a != h {
      StillHelps(c, s, a, h);
    }
  }

  /** Sooner or later the helpful thread gets its turn. */
  lemma {:induction false} RankFalls(c: Config, sched: nat -> Action, run: nat -> State, k: nat, h: Action, end: nat)
    returns (m: nat)
    requires c.Valid() && IsRun(c, sched, run) && k <= end && sched(end) == h
    requires IsThread(c, h) && Inv(c, run(k)) && Helps(c, run(k), h)
    ensures Inv(c, run(m)) && Rank(c, run(m)) < Rank(c, run(k))
    decreases end - k
  {
    var a := sched(k);
    TurnHelps(c, run(k), a, h);
    m := k + 1;
    if a != h {
      m := RankFalls(c, sched, run, k + 1, h, end);
    }
  }

  lemma {:induction false} RunPrints(c: Config, sched: nat -> Action, run: nat -> State, k: nat) returns (m: nat)
    requires c.Valid() && IsRun(c, sched, run) && Fair(c, sched) && Inv(c, run(k))
    ensures run(m).main.Printed?
    decreases Rank(c, run(k))
  {
    if run(k).main.Printed? {
      return k;
    }
    var h := SomeoneHelps(c, run(k));
    assert IsThread(c, h) && Again(sched, k, h);
    var end :| k <= end && sched(end) == h;
    m := RankFalls(c, sched, run, k, h, end);
    RankIsNatural(c, run(k));
    RankIsNatural(c, run(m));
    m := RunPrints(c, sched, run, m);
  }

  lemma {:induction false} StaysPrinted(c: Config, sched: nat -> Action, run: nat -> State, m: nat, k: nat)
    requires c.Valid() && IsRun(c, sched, run) && m <= k && run(m).main.Printed?
    ensures run(k).main.Printed?
  {
    if m < k {
      var j := k - 1;
      StaysPrinted(c, sched, run, m, j);
      assert run(j + 1) == Turn(c, run(j), sched(j));
    }
  }

  /** From turn m on, for ever, the program is done and total is printed. */
  ghost predicate PrintsFrom(run: nat -> State, m: nat, total: real) {
    forall k: nat :: m <= k ==> run(k).main.Printed? && run(k).pi == total
  }

  /** Every infinite run that gives each thread its turn again and again prints the sum over [lo, hi) times dx. */
  lemma {:induction false} FairRunsPrint(c: Config, sched: nat -> Action, run: nat -> State, lo: int, hi: int)
    returns (m: nat)
    requires c.Valid() && c.cuts[0] == lo && c.cuts[c.count] == hi
    requires IsRun(c, sched, run) && Fair(c, sched)
    ensures PrintsFrom(run, m, RangeSum(c.term, lo, hi) * c.dx)
  {
    InitInv(c);
    m := RunPrints(c, sched, run, 0);
    forall k: nat | m <= k
      ensures run(k).main.Printed? && run(k).pi == RangeSum(c.term, lo, hi) * c.dx
    {
      StaysPrinted(c, sched, run, m, k);
      RunInv(c, sched, run, k);
    }
  }

  /** Every schedule has its run. */
  lemma {:induction false} RunOf(c: Config, sched: nat -> Action) returns (run: nat -> State)
    requires c.Valid()
    ensures IsRun(c, sched, run)
  {
    run := (k: nat) => After(c, sched, k);
  }

  /** Counting 0, 1, ..., n, 0, 1, ..., n and so on. */
  function Slot(n: nat, k: nat): (r: nat)
    ensures r <= n
  {
    if k == 0 || Slot(n, k - 1) == n then 0 else Slot(n, k - 1) + 1
  }

  lemma {:induction false} SlotAgain(n: nat, k: nat, r: nat) returns (m: nat)
    requires r <= n
    ensures k <= m && Slot(n, m) == r
    decreases r - Slot(n, k) + if Slot(n, k) <= r then 0 else n + 1
  {
    if Slot(n, k) == r {
      m := k;
    } else {
      m := SlotAgain(n, k + 1, r);
    }
  }

  /** The children in turn, then main, over and over. */
  function RoundRobin(c: Config): nat -> Action {
    (k: nat) => if Slot(c.count, k) == c.count then MainStep else ChildStep(Slot(c.count, k))
  }

  /** There are fair schedules. */
  lemma {:induction false} RoundRobinIsFair(c: Config)
    ensures Fair(c, RoundRobin(c))
  {
    forall k: nat, a | IsThread(c, a)
      ensures Again(RoundRobin(c), k, a)
    {
      var m := SlotAgain(c.count, k, if a.MainStep? then c.count else a.t);
      assert k <= m && RoundRobin(c)(m) == a;
    }
  }
}
