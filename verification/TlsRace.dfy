/**
 * The thread-local-storage test of src/test_mck/src/tls/001.c as a state machine.
 *
 * The main thread creates the children, waits for each child's `sync` semaphore, posts each child's
 * `start` semaphore, joins the children and checks their results.  A child posts `sync`, waits for
 * `start` and then increments its own `tls` and the shared `notls` INC_COUNT times.  The shared
 * increment is a load followed by a store, and any other thread may run between the two.
 */
module TlsRace {
  import opened Prelude

  datatype Pc =
    | Unborn
    | Begun                              // about to post sync
    | Posted                             // in sem_wait(start)
    | Looping(i: nat)                    // at the loop head, i iterations done
    | Loading(i: nat)                    // tls incremented, about to read notls
    | Storing(i: nat, loaded: int)       // about to write loaded + 1
    | Finished

  datatype Child = Child(pc: Pc, sync: nat, start: nat, tls: int, result: int)

  datatype Main =
    | Creating(next: nat) | Syncing(next: nat) | Starting(next: nat) | Joining(next: nat)
    | Checking(next: nat) | Passed | Rejected

  datatype State = State(main: Main, children: seq<Child>, notls: int)

  datatype Action = MainStep | ChildStep(t: nat)

  /** child_count children, at least one; incCount is INC_COUNT. */
  datatype Config = Config(count: nat, incCount: nat) {
    ghost predicate Valid() { count >= 1 }
  }

  predicate Shape(c: Config, s: State) {
    && |s.children| == c.count
    && (!s.main.Passed? && !s.main.Rejected? ==> s.main.next <= c.count)
  }

  function Init(c: Config): (s: State)
    ensures Shape(c, s)
  {
    State(Creating(0), seq(c.count, _ => Child(Unborn, 0, 0, 0, 0)), 0)
  }

  function MainNext(c: Config, s: State): (r: Option<State>)
    requires Shape(c, s)
    ensures r.Some? ==> Shape(c, r.value)
  {
    var ch := s.children;
    match s.main
    case Creating(j) =>
      if j == c.count then Some(s.(main := Syncing(0)))
      else Some(s.(main := Creating(j + 1), children := ch[j := ch[j].(pc := Begun)]))
    case Syncing(j) =>
      if j == c.count then Some(s.(main := Starting(0)))
      else if ch[j].sync == 0 then None
      else Some(s.(main := Syncing(j + 1), children := ch[j := ch[j].(sync := ch[j].sync - 1)]))
    case Starting(j) =>
      if j == c.count then Some(s.(main := Joining(0)))
      else Some(s.(main := Starting(j + 1), children := ch[j := ch[j].(start := ch[j].start + 1)]))
    case Joining(j) =>
      if j == c.count then Some(s.(main := Checking(0)))
      else if ch[j].pc.Finished? then Some(s.(main := Joining(j + 1))) else None
    case Checking(j) =>
      if j == c.count then Some(s.(main := Passed))
      else if ch[j].result == c.incCount then Some(s.(main := Checking(j + 1)))
      else Some(s.(main := Rejected))
    case Passed => None
    case Rejected => None
  }

  /** One step of child t: its new record and the new value of notls. */
  function ChildMove(c: Config, me: Child, notls: int): (r: Option<(Child, int)>) {
    match me.pc
    case Unborn => None
    case Begun => Some((me.(pc := Posted, sync := me.sync + 1), notls))
    case Posted =>
      if me.start == 0 then None else Some((me.(pc := Looping(0), start := me.start - 1), notls))
    case Looping(i) =>
      if i < c.incCount then Some((me.(pc := Loading(i), tls := me.tls + 1), notls))
      else Some((me.(pc := Finished, result := me.tls), notls))
    case Loading(i) => Some((me.(pc := Storing(i, notls)), notls))
    case Storing(i, loaded) => Some((me.(pc := Looping(i + 1)), loaded + 1))
    case Finished => None
  }

  function Next(c: Config, s: State, a: Action): (r: Option<State>)
    requires Shape(c, s)
    ensures r.Some? ==> Shape(c, r.value)
  {
    match a
    case MainStep => MainNext(c, s)
    case ChildStep(t) =>
      if t >= c.count then None
      else
        var m := ChildMove(c, s.children[t], s.notls);
        if m.None? then None
        else Some(s.(children := s.children[t := m.value.0], notls := m.value.1))
  }

  /** The state after a schedule from s, or None when it picks a thread that cannot move. */
  function Exec(c: Config, s: State, acts: seq<Action>): (r: Option<State>)
    requires Shape(c, s)
    ensures r.Some? ==> Shape(c, r.value)
    decreases |acts|
  {
    if acts == [] then Some(s)
    else
      var s' := Next(c, s, acts[0]);
      if s'.None? then None else Exec(c, s'.value, acts[1..])
  }

  ghost predicate Stuck(c: Config, s: State)
    requires Shape(c, s)
  {
    forall a :: Next(c, s, a).None?
  }

  // ----- the invariant

  predicate Created(m: Main, t: nat) {
    m.Creating? ==> t < m.next
  }

  predicate Synced(m: Main, t: nat) {
    !m.Creating? && (m.Syncing? ==> t < m.next)
  }

  predicate Started(m: Main, t: nat) {
    !m.Creating? && !m.Syncing? && (m.Starting? ==> t < m.next)
  }

  predicate Joined(m: Main, t: nat) {
    m.Passed? || m.Rejected? || m.Checking? || (m.Joining? && t < m.next)
  }

  predicate HasPosted(pc: Pc) {
    !pc.Unborn? && !pc.Begun?
  }

  predicate PastGate(pc: Pc) {
    HasPosted(pc) && !pc.Posted?
  }

  /** Stores to notls that a child has completed. */
  function Stores(c: Config, pc: Pc): int {
    match pc
    case Looping(i) => i
    case Loading(i) => i
    case Storing(i, _) => i
    case Finished => c.incCount
    case _ => 0
  }

  predicate ChildInv(c: Config, m: Main, t: nat, me: Child) {
    && (me.pc.Unborn? <==> !Created(m, t))
    && me.sync == Bit(HasPosted(me.pc)) - Bit(Synced(m, t))
    && me.start == Bit(Started(m, t)) - Bit(PastGate(me.pc))
    && (Joined(m, t) ==> me.pc.Finished?)
    && me.tls == Stores(c, me.pc) + Bit(me.pc.Loading? || me.pc.Storing?)
    && me.tls <= c.incCount
    && (me.pc.Finished? ==> me.result == c.incCount)
  }

  function StoreCounts(c: Config, s: State): (r: seq<int>)
    ensures |r| == |s.children|
  {
    seq(|s.children|, t requires 0 <= t < |s.children| => Stores(c, s.children[t].pc))
  }

  function TotalStores(c: Config, s: State): int {
    Sum(StoreCounts(c, s))
  }

  /** What a value read from notls may be, given how many stores have happened before now. */
  predicate LoadedInv(total: int, pc: Pc) {
    pc.Storing? ==> 0 <= pc.loaded <= total && (pc.i >= 1 ==> pc.loaded >= 1)
  }

  function Least(k: int): int {
    if k < 2 then k else 2
  }

  /** notls is bounded by the stores, and from below by what its last writer is known to have seen. */
  ghost predicate SharedInv(c: Config, s: State) {
    && 0 <= s.notls <= TotalStores(c, s)
    && (TotalStores(c, s) >= 1 ==>
          exists t :: 0 <= t < |s.children| && Stores(c, s.children[t].pc) >= 1
                      && s.notls >= Least(Stores(c, s.children[t].pc)))
  }

  ghost predicate Inv(c: Config, s: State) {
    && Shape(c, s)
    && !s.main.Rejected?
    && (forall t :: 0 <= t < c.count ==> ChildInv(c, s.main, t, s.children[t]))
    && (forall t :: 0 <= t < c.count ==> LoadedInv(TotalStores(c, s), s.children[t].pc))
    && SharedInv(c, s)
  }

  // ----- the measure: every step uses up exactly one unit

  function ChildWork(c: Config, pc: Pc): int {
    match pc
    case Unborn => 3 * c.incCount + 3
    case Begun => 3 * c.incCount + 3
    case Posted => 3 * c.incCount + 2
    case Looping(i) => 3 * (c.incCount - i) + 1
    case Loading(i) => 3 * (c.incCount - i)
    case Storing(i, _) => 3 * (c.incCount - i) - 1
    case Finished => 0
  }

  function MainWork(c: Config, m: Main): int {
    match m
    case Creating(j) => 5 * (c.count + 1) - j
    case Syncing(j) => 4 * (c.count + 1) - j
    case Starting(j) => 3 * (c.count + 1) - j
    case Joining(j) => 2 * (c.count + 1) - j
    case Checking(j) => c.count + 1 - j
    case Passed => 0
    case Rejected => 0
  }

  function Works(c: Config, s: State): (r: seq<int>)
    ensures |r| == |s.children|
  {
    seq(|s.children|, t requires 0 <= t < |s.children| => ChildWork(c, s.children[t].pc))
  }

  function Work(c: Config, s: State): int {
    MainWork(c, s.main) + Sum(Works(c, s))
  }

  // ----- every step keeps the invariant

  lemma {:induction false} InitInv(c: Config)
    ensures Inv(c, Init(c))
  {
    SumAtLeast(StoreCounts(c, Init(c)), 0);
    SumAtMost(StoreCounts(c, Init(c)), 0);
  }

  lemma {:induction false} MainStepChild(c: Config, s: State, t: nat)
    requires Inv(c, s) && MainNext(c, s).Some? && t < c.count
    ensures var s' := MainNext(c, s).value;
            && ChildInv(c, s'.main, t, s'.children[t])
            && Stores(c, s'.children[t].pc) == Stores(c, s.children[t].pc)
            && ChildWork(c, s'.children[t].pc) == ChildWork(c, s.children[t].pc)
            && LoadedInv(TotalStores(c, s), s'.children[t].pc)
  {
    assert ChildInv(c, s.main, t, s.children[t]);
    assert LoadedInv(TotalStores(c, s), s.children[t].pc);
  }

  lemma {:induction false} MainKeepsInv(c: Config, s: State)
    requires Inv(c, s) && MainNext(c, s).Some?
    ensures Inv(c, MainNext(c, s).value)
    ensures Works(c, MainNext(c, s).value) == Works(c, s)
  {
    var s' := MainNext(c, s).value;
    forall t | 0 <= t < c.count
      ensures ChildInv(c, s'.main, t, s'.children[t])
      ensures Stores(c, s'.children[t].pc) == Stores(c, s.children[t].pc)
      ensures ChildWork(c, s'.children[t].pc) == ChildWork(c, s.children[t].pc)
      ensures LoadedInv(TotalStores(c, s), s'.children[t].pc)
    {
      MainStepChild(c, s, t);
    }
    assert StoreCounts(c, s') == StoreCounts(c, s);
    assert s.main.Checking? && s.main.next < c.count ==> ChildInv(c, s.main, s.main.next, s.children[s.main.next]);
  }

  lemma {:induction false} TotalUpdate(c: Config, s: State, s': State, t: nat)
    requires t < |s.children| == |s'.children| && s'.children == s.children[t := s'.children[t]]
    ensures TotalStores(c, s') == TotalStores(c, s) - Stores(c, s.children[t].pc) + Stores(c, s'.children[t].pc)
  {
    SumUpdate(StoreCounts(c, s), t, Stores(c, s'.children[t].pc));
    assert StoreCounts(c, s') == StoreCounts(c, s)[t := Stores(c, s'.children[t].pc)];
  }

  lemma {:induction false} OwnStores(c: Config, s: State, t: nat)
    requires Inv(c, s) && t < c.count
    ensures 0 <= Stores(c, s.children[t].pc) <= TotalStores(c, s)
  {
    SumMember(StoreCounts(c, s), t);
  }

  lemma {:induction false} ChildKeepsInv(c: Config, s: State, t: nat)
    requires Inv(c, s) && t < c.count && Next(c, s, ChildStep(t)).Some?
    ensures Inv(c, Next(c, s, ChildStep(t)).value)
  {
    var s' := Next(c, s, ChildStep(t)).value;
    var old' := s.children[t].pc;
    assert ChildInv(c, s.main, t, s.children[t]);
    assert LoadedInv(TotalStores(c, s), old');
    TotalUpdate(c, s, s', t);
    OwnStores(c, s, t);
    assert ChildInv(c, s.main, t, s'.children[t]);
    assert LoadedInv(TotalStores(c, s'), s'.children[t].pc);
    if old'.Storing? {
      assert s'.notls >= Least(Stores(c, s'.children[t].pc));
    } else {
      assert forall u :: 0 <= u < c.count ==> Stores(c, s'.children[u].pc) == Stores(c, s.children[u].pc);
    }
  }

  lemma {:induction false} StepKeepsInv(c: Config, s: State, a: Action)
    requires Inv(c, s) && Next(c, s, a).Some?
    ensures Inv(c, Next(c, s, a).value)
  {
    match a
    case MainStep => MainKeepsInv(c, s);
    case ChildStep(t) => ChildKeepsInv(c, s, t);
  }

  lemma {:induction false} ExecInv(c: Config, s: State, acts: seq<Action>)
    requires Inv(c, s) && Exec(c, s, acts).Some?
    ensures Inv(c, Exec(c, s, acts).value)
    decreases |acts|
  {
    if acts != [] {
      StepKeepsInv(c, s, acts[0]);
      ExecInv(c, Next(c, s, acts[0]).value, acts[1..]);
    }
  }

  // ----- every schedule is finite

  lemma {:induction false} ChildStepWork(c: Config, s: State, t: nat)
    requires Inv(c, s) && t < c.count && Next(c, s, ChildStep(t)).Some?
    ensures Work(c, Next(c, s, ChildStep(t)).value) == Work(c, s) - 1
  {
    var s' := Next(c, s, ChildStep(t)).value;
    var w := ChildWork(c, s'.children[t].pc);
    assert ChildInv(c, s.main, t, s.children[t]);
    assert w == ChildWork(c, s.children[t].pc) - 1;
    SumUpdate(Works(c, s), t, w);
    assert Works(c, s') == Works(c, s)[t := w];
  }

  lemma {:induction false} WorkIsNatural(c: Config, s: State)
    requires Inv(c, s)
    ensures Work(c, s) >= 0
  {
    forall t | 0 <= t < c.count
      ensures Works(c, s)[t] >= 0
    {
      assert ChildInv(c, s.main, t, s.children[t]);
    }
    SumAtLeast(Works(c, s), 0);
  }

  /** Every step uses up exactly one unit of work. */
  lemma {:induction false} StepWork(c: Config, s: State, a: Action)
    requires Inv(c, s) && Next(c, s, a).Some?
    ensures Work(c, Next(c, s, a).value) == Work(c, s) - 1
  {
    match a
    case MainStep => MainKeepsInv(c, s);
    case ChildStep(t) => ChildStepWork(c, s, t);
  }

  lemma {:induction false} ExecWork(c: Config, s: State, acts: seq<Action>)
    requires Inv(c, s) && Exec(c, s, acts).Some?
    ensures |acts| <= Work(c, s)
    decreases |acts|
  {
    WorkIsNatural(c, s);
    if acts != [] {
      StepKeepsInv(c, s, acts[0]);
      StepWork(c, s, acts[0]);
      ExecWork(c, Next(c, s, acts[0]).value, acts[1..]);
    }
  }

  // ----- main results

  /** The gate: once any child is past sem_wait(start), all children have posted sync. */
  lemma {:induction false} GateHolds(c: Config, acts: seq<Action>, t: nat, u: nat)
    requires Exec(c, Init(c), acts).Some? && t < c.count && u < c.count
    requires PastGate(Exec(c, Init(c), acts).value.children[t].pc)
    ensures HasPosted(Exec(c, Init(c), acts).value.children[u].pc)
  {
    InitInv(c);
    ExecInv(c, Init(c), acts);
    var s := Exec(c, Init(c), acts).value;
    assert ChildInv(c, s.main, t, s.children[t]);
    assert ChildInv(c, s.main, u, s.children[u]);
  }

  /** At every moment of every schedule notls has gained at most one per completed store. */
  lemma {:induction false} SharedUpperBound(c: Config, acts: seq<Action>)
    requires Exec(c, Init(c), acts).Some?
    ensures 0 <= Exec(c, Init(c), acts).value.notls <= TotalStores(c, Exec(c, Init(c), acts).value)
    ensures TotalStores(c, Exec(c, Init(c), acts).value) <= c.incCount * c.count
  {
    InitInv(c);
    ExecInv(c, Init(c), acts);
    var s := Exec(c, Init(c), acts).value;
    assert forall t :: 0 <= t < c.count ==> ChildInv(c, s.main, t, s.children[t]);
    SumAtMost(StoreCounts(c, s), c.incCount);
  }

  lemma {:induction false} StuckChild(c: Config, s: State, t: nat)
    requires Inv(c, s) && Stuck(c, s) && t < c.count
    ensures s.children[t].pc.Finished?
    ensures s.main.Joining? || s.main.Passed?
  {
    assert ChildInv(c, s.main, t, s.children[t]);
    assert Next(c, s, MainStep).None?;
    var j := if s.main.Syncing? && s.main.next < c.count then s.main.next else t;
    assert ChildInv(c, s.main, j, s.children[j]);
    assert Next(c, s, ChildStep(j)).None?;
    assert Next(c, s, ChildStep(t)).None?;
  }

  /**
   * Every schedule is finite, and one that cannot be continued ends with the check passed: each
   * private counter is INC_COUNT, while the shared one lost updates down to no less than 2.
   */
  lemma {:induction false} CompleteRun(c: Config, acts: seq<Action>)
    requires c.Valid() && Exec(c, Init(c), acts).Some?
    ensures |acts| <= Work(c, Init(c))
    ensures Stuck(c, Exec(c, Init(c), acts).value) ==>
              var s := Exec(c, Init(c), acts).value;
              && s.main.Passed?
              && (forall t :: 0 <= t < c.count ==> s.children[t].result == c.incCount)
              && Least(c.incCount) <= s.notls <= c.incCount * c.count
  {
    InitInv(c);
    ExecInv(c, Init(c), acts);
    ExecWork(c, Init(c), acts);
    SharedUpperBound(c, acts);
    var s := Exec(c, Init(c), acts).value;
    if Stuck(c, s) {
      forall t | 0 <= t < c.count
        ensures s.children[t].pc.Finished? && s.children[t].result == c.incCount
      {
        StuckChild(c, s, t);
        assert ChildInv(c, s.main, t, s.children[t]);
      }
      StuckChild(c, s, 0);
      OwnStores(c, s, 0);
      assert Next(c, s, MainStep).None?;
    }
  }

  // ----- the check of the results

  function MainSteps(n: nat): (acts: seq<Action>)
    ensures |acts| == n
  {
    seq(n, _ => MainStep)
  }

  /** Every child from number j on has left INC_COUNT. */
  predicate AllCounted(c: Config, s: State, j: nat) {
    forall t :: j <= t < |s.children| ==> s.children[t].result == c.incCount
  }

  /** The check, on any results: it passes exactly if every child from number j on has left INC_COUNT. */
  lemma {:induction false} Checks(c: Config, s: State, j: nat) returns (n: nat)
    requires Shape(c, s) && s.main == Checking(j)
    ensures Exec(c, s, MainSteps(n)) == Some(s.(main := if AllCounted(c, s, j) then Passed else Rejected))
    decreases c.count - j
  {
    n := 1;
    var s' := MainNext(c, s).value;
    if j < c.count && s.children[j].result == c.incCount {
      n := Checks(c, s', j + 1);
      n := n + 1;
      assert AllCounted(c, s, j) <==> AllCounted(c, s', j + 1);
    }
    assert MainSteps(n)[1..] == MainSteps(n - 1);
    assert n == 1 ==> Exec(c, s', MainSteps(0)) == Some(s');
  }

  /** With a single child nothing is ever lost. */
  predicate OneChildInv(c: Config, s: State) {
    && |s.children| == 1
    && s.notls == Stores(c, s.children[0].pc)
    && (s.children[0].pc.Storing? ==> s.children[0].pc.loaded == s.notls)
  }

  lemma {:induction false} OneChildStep(c: Config, s: State, a: Action)
    requires Shape(c, s) && c.count == 1 && ChildInv(c, s.main, 0, s.children[0])
    requires OneChildInv(c, s) && Next(c, s, a).Some?
    ensures OneChildInv(c, Next(c, s, a).value)
  {
    match a
    case MainStep =>
      assert MainNext(c, s).value.children[0].pc == s.children[0].pc
             || (s.main == Creating(0) && MainNext(c, s).value.children[0].pc == Begun);
    case ChildStep(t) =>
      assert t == 0;
  }

  lemma {:induction false} OneChildExec(c: Config, s: State, acts: seq<Action>)
    requires Inv(c, s) && OneChildInv(c, s) && Exec(c, s, acts).Some?
    ensures OneChildInv(c, Exec(c, s, acts).value)
    decreases |acts|
  {
    if acts != [] {
      OneChildStep(c, s, acts[0]);
      StepKeepsInv(c, s, acts[0]);
      OneChildExec(c, Next(c, s, acts[0]).value, acts[1..]);
    }
  }

  /** A single child leaves the shared counter at INC_COUNT. */
  lemma {:induction false} OneChild(c: Config, acts: seq<Action>)
    requires c.count == 1 && Exec(c, Init(c), acts).Some?
    requires Stuck(c, Exec(c, Init(c), acts).value)
    ensures Exec(c, Init(c), acts).value.notls == c.incCount
  {
    InitInv(c);
    ExecInv(c, Init(c), acts);
    OneChildExec(c, Init(c), acts);
    StuckChild(c, Exec(c, Init(c), acts).value, 0);
  }
}
