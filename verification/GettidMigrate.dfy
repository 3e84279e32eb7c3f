/**
 * The migration test of src/test_mck/src/gettid/002.c.
 *
 * Children are created one at a time; each reads the shared `child_cpu`, either writes it or builds
 * a CPU mask from it, and posts `sync` before the next one is created.  The main thread then opens
 * every child's `start` gate, joins the children and compares the ids they recorded.
 */
module GettidMigrate {
  import opened Prelude

  datatype Pc =
    | Unborn
    | Testing                            // about to compare child_cpu with -1
    | Writing                            // about to store sched_getcpu() in child_cpu
    | Masking                            // about to read child_cpu for CPU_SET
    | Posting                            // about to post sync
    | AtGate                             // in sem_wait(start)
    | Finished

  datatype Child = Child(pc: Pc, sync: nat, start: nat, mask: Option<int>)

  datatype Main = Creating(next: nat) | Syncing(next: nat) | Starting(next: nat) | Joining(next: nat) | Joined

  /** writers lists the children that stored to child_cpu, in the order of their stores. */
  datatype State = State(main: Main, children: seq<Child>, childCpu: int, writers: seq<nat>)

  datatype Action = MainStep | ChildStep(t: nat)

  /** What sched_getcpu answers when child t stores it; -1 is its error return. */
  type Cpus = seq<int>

  predicate Shape(cpus: Cpus, s: State) {
    && |s.children| == |cpus|
    && (!s.main.Joined? ==> s.main.next <= |cpus|)
    && (s.main.Syncing? ==> s.main.next < |cpus|)
  }

  function Init(cpus: Cpus): (s: State)
    ensures Shape(cpus, s)
  {
    State(Creating(0), seq(|cpus|, _ => Child(Unborn, 0, 0, None)), -1, [])
  }

  function MainNext(cpus: Cpus, s: State): (r: Option<State>)
    requires Shape(cpus, s)
    ensures r.Some? ==> Shape(cpus, r.value)
  {
    var ch := s.children;
    match s.main
    case Creating(j) =>
      if j == |cpus| then Some(s.(main := Starting(0)))
      else Some(s.(main := Syncing(j), children := ch[j := ch[j].(pc := Testing)]))
    case Syncing(j) =>
      if ch[j].sync == 0 then None
      else Some(s.(main := Creating(j + 1), children := ch[j := ch[j].(sync := ch[j].sync - 1)]))
    case Starting(j) =>
      if j == |cpus| then Some(s.(main := Joining(0)))
      else Some(s.(main := Starting(j + 1), children := ch[j := ch[j].(start := ch[j].start + 1)]))
    case Joining(j) =>
      if j == |cpus| then Some(s.(main := Joined))
      else if ch[j].pc.Finished? then Some(s.(main := Joining(j + 1))) else None
    case Joined => None
  }

  function ChildNext(cpus: Cpus, s: State, t: nat): (r: Option<State>)
    requires Shape(cpus, s) && t < |cpus|
    ensures r.Some? ==> Shape(cpus, r.value)
  {
    var me := s.children[t];
    match me.pc
    case Unborn => None
    case Testing => Some(s.(children := s.children[t := me.(pc := if s.childCpu == -1 then Writing else Masking)]))
    case Writing =>
      Some(s.(children := s.children[t := me.(pc := Posting)], childCpu := cpus[t], writers := s.writers + [t]))
    case Masking => Some(s.(children := s.children[t := me.(pc := Posting, mask := Some(s.childCpu))]))
    case Posting => Some(s.(children := s.children[t := me.(pc := AtGate, sync := me.sync + 1)]))
    case AtGate =>
      if me.start == 0 then None
      else Some(s.(children := s.children[t := me.(pc := Finished, start := me.start - 1)]))
    case Finished => None
  }

  function Next(cpus: Cpus, s: State, a: Action): (r: Option<State>)
    requires Shape(cpus, s)
    ensures r.Some? ==> Shape(cpus, r.value)
  {
    match a
    case MainStep => MainNext(cpus, s)
    case ChildStep(t) => if t < |cpus| then ChildNext(cpus, s, t) else None
  }

  function Exec(cpus: Cpus, s: State, acts: seq<Action>): (r: Option<State>)
    requires Shape(cpus, s)
    ensures r.Some? ==> Shape(cpus, r.value)
    decreases |acts|
  {
    if acts == [] then Some(s)
    else
      var s' := Next(cpus, s, acts[0]);
      if s'.None? then None else Exec(cpus, s'.value, acts[1..])
  }

  ghost predicate Stuck(cpus: Cpus, s: State)
    requires Shape(cpus, s)
  {
    forall a :: Next(cpus, s, a).None?
  }

  // ----- the invariant

  /** child_cpu once the first m children have dealt with it: the first answer that is not -1. */
  function CpuAfter(cpus: Cpus, m: nat): int
    requires m <= |cpus|
  {
    if m == 0 then -1
    else if CpuAfter(cpus, m - 1) == -1 then cpus[m - 1]
    else CpuAfter(cpus, m - 1)
  }

  /** The children among the first m that find child_cpu still unset. */
  function WritersAmong(cpus: Cpus, m: nat): seq<nat>
    requires m <= |cpus|
  {
    if m == 0 then []
    else WritersAmong(cpus, m - 1) + if CpuAfter(cpus, m - 1) == -1 then [m - 1] else []
  }

  predicate Decided(pc: Pc) {
    pc.Posting? || pc.AtGate? || pc.Finished?
  }

  predicate HasPosted(pc: Pc) {
    pc.AtGate? || pc.Finished?
  }

  /** Children that main has heard from. */
  function Heard(cpus: Cpus, m: Main): nat {
    if m.Creating? || m.Syncing? then m.next else |cpus|
  }

  predicate StartPosted(m: Main, t: nat) {
    m.Joining? || m.Joined? || (m.Starting? && t < m.next)
  }

  predicate ChildInv(cpus: Cpus, m: Main, childCpu: int, t: nat, me: Child)
    requires t < |cpus|
  {
    && (me.pc.Unborn? <==> Heard(cpus, m) <= t && !(m.Syncing? && t == m.next))
    && me.sync == Bit(HasPosted(me.pc)) - Bit(t < Heard(cpus, m))
    && me.start == Bit(StartPosted(m, t)) - Bit(me.pc.Finished?)
    && (m.Joined? || (m.Joining? && t < m.next) ==> me.pc.Finished?)
    && (me.pc.Writing? ==> childCpu == -1)
    && (me.pc.Masking? ==> childCpu != -1)
    && me.mask == if Decided(me.pc) && CpuAfter(cpus, t) != -1 then Some(CpuAfter(cpus, t)) else None
  }

  /** Children whose dealings with child_cpu are over. */
  function DecidedCount(cpus: Cpus, s: State): nat
    requires Shape(cpus, s)
  {
    Heard(cpus, s.main) + Bit(s.main.Syncing? && Decided(s.children[s.main.next].pc))
  }

  predicate Inv(cpus: Cpus, s: State) {
    && Shape(cpus, s)
    && (forall t :: 0 <= t < |cpus| ==> ChildInv(cpus, s.main, s.childCpu, t, s.children[t]))
    && s.childCpu == CpuAfter(cpus, DecidedCount(cpus, s))
    && s.writers == WritersAmong(cpus, DecidedCount(cpus, s))
  }

  lemma {:induction false} MainKeepsInv(cpus: Cpus, s: State)
    requires Inv(cpus, s) && MainNext(cpus, s).Some?
    ensures Inv(cpus, MainNext(cpus, s).value)
  {
    var s' := MainNext(cpus, s).value;
    if s.main.Syncing? {
      assert ChildInv(cpus, s.main, s.childCpu, s.main.next, s.children[s.main.next]);
    }
    assert DecidedCount(cpus, s') == DecidedCount(cpus, s);
    forall t | 0 <= t < |cpus|
      ensures ChildInv(cpus, s'.main, s'.childCpu, t, s'.children[t])
    {
      assert ChildInv(cpus, s.main, s.childCpu, t, s.children[t]);
    }
  }

  /** A child that is still dealing with child_cpu is the one main is waiting for. */
  lemma {:induction false} OneAtATime(cpus: Cpus, s: State, t: nat)
    requires Inv(cpus, s) && t < |cpus|
    requires !s.children[t].pc.Unborn? && !HasPosted(s.children[t].pc)
    ensures s.main == Syncing(t)
  {
    assert ChildInv(cpus, s.main, s.childCpu, t, s.children[t]);
  }

  lemma {:induction false} ChildKeepsInv(cpus: Cpus, s: State, t: nat)
    requires Inv(cpus, s) && t < |cpus| && ChildNext(cpus, s, t).Some?
    ensures Inv(cpus, ChildNext(cpus, s, t).value)
  {
    var s' := ChildNext(cpus, s, t).value;
    assert ChildInv(cpus, s.main, s.childCpu, t, s.children[t]);
    if !HasPosted(s.children[t].pc) {
      OneAtATime(cpus, s, t);
    }
    forall u | 0 <= u < |cpus|
      ensures ChildInv(cpus, s'.main, s'.childCpu, u, s'.children[u])
    {
      assert ChildInv(cpus, s.main, s.childCpu, u, s.children[u]);
    }
  }

  lemma {:induction false} StepKeepsInv(cpus: Cpus, s: State, a: Action)
    requires Inv(cpus, s) && Next(cpus, s, a).Some?
    ensures Inv(cpus, Next(cpus, s, a).value)
  {
    match a
    case MainStep => MainKeepsInv(cpus, s);
    case ChildStep(t) => ChildKeepsInv(cpus, s, t);
  }

  lemma {:induction false} ExecConcat(cpus: Cpus, s: State, xs: seq<Action>, ys: seq<Action>)
    requires Shape(cpus, s) && Exec(cpus, s, xs).Some?
    ensures Exec(cpus, s, xs + ys) == Exec(cpus, Exec(cpus, s, xs).value, ys)
    decreases |xs|
  {
    if xs == [] {
      assert xs + ys == ys;
    } else {
      assert (xs + ys)[1..] == xs[1..] + ys;
      ExecConcat(cpus, Next(cpus, s, xs[0]).value, xs[1..], ys);
    }
  }

  lemma {:induction false} ExecInv(cpus: Cpus, s: State, acts: seq<Action>)
    requires Inv(cpus, s) && Exec(cpus, s, acts).Some?
    ensures Inv(cpus, Exec(cpus, s, acts).value)
    decreases |acts|
  {
    if acts != [] {
      StepKeepsInv(cpus, s, acts[0]);
      ExecInv(cpus, Next(cpus, s, acts[0]).value, acts[1..]);
    }
  }

  // ----- main results

  /** No child passes start until all children have posted sync. */
  lemma {:induction false} GateHolds(cpus: Cpus, acts: seq<Action>, t: nat, u: nat)
    requires Exec(cpus, Init(cpus), acts).Some? && t < |cpus| && u < |cpus|
    requires Exec(cpus, Init(cpus), acts).value.children[t].pc.Finished?
    ensures HasPosted(Exec(cpus, Init(cpus), acts).value.children[u].pc)
  {
    ExecInv(cpus, Init(cpus), acts);
    var s := Exec(cpus, Init(cpus), acts).value;
    assert ChildInv(cpus, s.main, s.childCpu, t, s.children[t]);
    assert ChildInv(cpus, s.main, s.childCpu, u, s.children[u]);
  }

  lemma {:induction false} AllUnset(cpus: Cpus, m: nat)
    requires m <= |cpus| && forall u :: 0 <= u < m ==> cpus[u] == -1
    ensures CpuAfter(cpus, m) == -1 && WritersAmong(cpus, m) == Iota(m)
  {
    if m > 0 {
      AllUnset(cpus, m - 1);
    }
  }

  /** The value child_cpu settles on is the first answer that is not -1. */
  lemma {:induction false} CpuAfterFirst(cpus: Cpus, w: nat, m: nat)
    requires w < m <= |cpus| && cpus[w] != -1 && forall u :: 0 <= u < w ==> cpus[u] == -1
    ensures CpuAfter(cpus, m) == cpus[w] && CpuAfter(cpus, w) == -1
    ensures WritersAmong(cpus, m) == Iota(w + 1)
  {
    if m == w + 1 {
      AllUnset(cpus, w);
    } else {
      CpuAfterFirst(cpus, w, m - 1);
    }
  }

  /**
   * In every interleaving, if w is the first child to get a real CPU number then exactly the
   * children 0..w write child_cpu, in order, and every child after w builds its mask from the
   * number child w got.  With no error return w is 0: one write, by child 0.
   */
  lemma {:induction false} WriteOnce(cpus: Cpus, acts: seq<Action>, w: nat)
    requires Exec(cpus, Init(cpus), acts).Some? && Exec(cpus, Init(cpus), acts).value.main.Joined?
    requires w < |cpus| && cpus[w] != -1 && forall u :: 0 <= u < w ==> cpus[u] == -1
    ensures var s := Exec(cpus, Init(cpus), acts).value;
            && s.writers == Iota(w + 1)
            && s.childCpu == cpus[w]
            && (forall t :: w < t < |cpus| ==> s.children[t].mask == Some(cpus[w]))
            && (forall t :: 0 <= t <= w ==> s.children[t].mask == None)
  {
    ExecInv(cpus, Init(cpus), acts);
    var s := Exec(cpus, Init(cpus), acts).value;
    CpuAfterFirst(cpus, w, |cpus|);
    forall t | 0 <= t < |cpus|
      ensures s.children[t].mask == if w < t then Some(cpus[w]) else None
    {
      assert ChildInv(cpus, s.main, s.childCpu, t, s.children[t]);
      if w < t {
        CpuAfterFirst(cpus, w, t);
      } else {
        AllUnset(cpus, t);
      }
    }
  }

  /** When every call fails, every child writes child_cpu, it stays -1 and no mask is built. */
  lemma {:induction false} AllFail(cpus: Cpus, acts: seq<Action>)
    requires Exec(cpus, Init(cpus), acts).Some? && Exec(cpus, Init(cpus), acts).value.main.Joined?
    requires forall u :: 0 <= u < |cpus| ==> cpus[u] == -1
    ensures var s := Exec(cpus, Init(cpus), acts).value;
            && s.writers == Iota(|cpus|)
            && s.childCpu == -1
            && (forall t :: 0 <= t < |cpus| ==> s.children[t].mask == None)
  {
    ExecInv(cpus, Init(cpus), acts);
    var s := Exec(cpus, Init(cpus), acts).value;
    AllUnset(cpus, |cpus|);
    forall t | 0 <= t < |cpus|
      ensures s.children[t].mask == None
    {
      assert ChildInv(cpus, s.main, s.childCpu, t, s.children[t]);
      AllUnset(cpus, t);
    }
  }

  /** The first answer from i on that is not -1, or the number of children. */
  function FirstSet(cpus: Cpus, i: nat): (w: nat)
    requires i <= |cpus|
    ensures i <= w <= |cpus| && (forall u :: i <= u < w ==> cpus[u] == -1) && (w < |cpus| ==> cpus[w] != -1)
    decreases |cpus| - i
  {
    if i == |cpus| || cpus[i] != -1 then i else FirstSet(cpus, i + 1)
  }

  /**
   * In every interleaving child_cpu is written exactly once iff there is only one child or the first
   * child's call does not fail.
   */
  lemma {:induction false} WrittenOnceIff(cpus: Cpus, acts: seq<Action>)
    requires Exec(cpus, Init(cpus), acts).Some? && Exec(cpus, Init(cpus), acts).value.main.Joined?
    ensures |Exec(cpus, Init(cpus), acts).value.writers| == 1
      <==> |cpus| == 1 || (|cpus| > 1 && cpus[0] != -1)
  {
    var w := FirstSet(cpus, 0);
    if w == |cpus| {
      AllFail(cpus, acts);
    } else {
      WriteOnce(cpus, acts, w);
    }
  }

  function ChildWork(pc: Pc): int {
    match pc
    case Unborn => 4
    case Testing => 4
    case Writing => 3
    case Masking => 3
    case Posting => 2
    case AtGate => 1
    case Finished => 0
  }

  function MainWork(cpus: Cpus, m: Main): int {
    match m
    case Creating(j) => 4 * |cpus| + 3 - 2 * j
    case Syncing(j) => 4 * |cpus| + 2 - 2 * j
    case Starting(j) => 2 * |cpus| + 2 - j
    case Joining(j) => |cpus| + 1 - j
    case Joined => 0
  }

  function Works(s: State): (r: seq<int>)
    ensures |r| == |s.children|
  {
    seq(|s.children|, t requires 0 <= t < |s.children| => ChildWork(s.children[t].pc))
  }

  function Work(cpus: Cpus, s: State): int {
    MainWork(cpus, s.main) + Sum(Works(s))
  }

  /** Every step uses up exactly one unit of work: first a child's, then main's. */
  lemma {:induction false} ChildStepWork(cpus: Cpus, s: State, t: nat)
    requires Shape(cpus, s) && t < |cpus| && ChildNext(cpus, s, t).Some?
    ensures Work(cpus, ChildNext(cpus, s, t).value) == Work(cpus, s) - 1
  {
    var s' := ChildNext(cpus, s, t).value;
    SumUpdate(Works(s), t, ChildWork(s'.children[t].pc));
    assert Works(s') == Works(s)[t := ChildWork(s'.children[t].pc)];
  }

  lemma {:induction false} MainStepWork(cpus: Cpus, s: State)
    requires Inv(cpus, s) && MainNext(cpus, s).Some?
    ensures Work(cpus, MainNext(cpus, s).value) == Work(cpus, s) - 1
  {
    var s' := MainNext(cpus, s).value;
    if s.main.Creating? && s.main.next < |cpus| {
      assert ChildInv(cpus, s.main, s.childCpu, s.main.next, s.children[s.main.next]);
    }
    assert Works(s') == Works(s);
  }

  lemma {:induction false} StepWork(cpus: Cpus, s: State, a: Action)
    requires Inv(cpus, s) && Next(cpus, s, a).Some?
    ensures Work(cpus, Next(cpus, s, a).value) == Work(cpus, s) - 1
  {
    match a
    case MainStep => MainStepWork(cpus, s);
    case ChildStep(t) => ChildStepWork(cpus, s, t);
  }

  lemma {:induction false} ExecWork(cpus: Cpus, s: State, acts: seq<Action>)
    requires Inv(cpus, s) && Exec(cpus, s, acts).Some?
    ensures |acts| <= Work(cpus, s)
    decreases |acts|
  {
    if acts == [] {
      SumAtLeast(Works(s), 0);
    } else {
      StepKeepsInv(cpus, s, acts[0]);
      StepWork(cpus, s, acts[0]);
      ExecWork(cpus, Next(cpus, s, acts[0]).value, acts[1..]);
    }
  }

  lemma {:induction false} StuckIsJoined(cpus: Cpus, s: State)
    requires Inv(cpus, s) && Stuck(cpus, s)
    ensures s.main.Joined?
  {
    assert Next(cpus, s, MainStep).None?;
    if |cpus| > 0 {
      var j := if !s.main.Joined? && s.main.next < |cpus| then s.main.next else 0;
      assert ChildInv(cpus, s.main, s.childCpu, j, s.children[j]);
      assert Next(cpus, s, ChildStep(j)).None?;
    }
  }

  /** Every schedule is finite and none deadlocks: when nobody can move, main has joined everybody. */
  lemma {:induction false} NoDeadlock(cpus: Cpus, acts: seq<Action>)
    requires Exec(cpus, Init(cpus), acts).Some?
    ensures |acts| <= Work(cpus, Init(cpus))
    ensures Stuck(cpus, Exec(cpus, Init(cpus), acts).value) ==> Exec(cpus, Init(cpus), acts).value.main.Joined?
  {
    ExecInv(cpus, Init(cpus), acts);
    ExecWork(cpus, Init(cpus), acts);
    if Stuck(cpus, Exec(cpus, Init(cpus), acts).value) {
      StuckIsJoined(cpus, Exec(cpus, Init(cpus), acts).value);
    }
  }

  /** From every reachable state some schedule ends with main having joined everybody. */
  lemma {:induction false} CanJoinFrom(cpus: Cpus, s: State) returns (more: seq<Action>)
    requires Inv(cpus, s)
    ensures Exec(cpus, s, more).Some? && Exec(cpus, s, more).value.main.Joined?
    decreases Work(cpus, s)
  {
    ExecWork(cpus, s, []);
    if Stuck(cpus, s) {
      StuckIsJoined(cpus, s);
      return [];
    }
    var a :| Next(cpus, s, a).Some?;
    StepKeepsInv(cpus, s, a);
    StepWork(cpus, s, a);
    ExecWork(cpus, Next(cpus, s, a).value, []);
    var rest := CanJoinFrom(cpus, Next(cpus, s, a).value);
    more := [a] + rest;
    assert more[1..] == rest;
  }

  /** Every schedule extends to one after which main has joined everybody. */
  lemma {:induction false} CanJoin(cpus: Cpus, acts: seq<Action>) returns (more: seq<Action>)
    requires Exec(cpus, Init(cpus), acts).Some?
    ensures Exec(cpus, Init(cpus), acts + more).Some? && Exec(cpus, Init(cpus), acts + more).value.main.Joined?
  {
    ExecInv(cpus, Init(cpus), acts);
    more := CanJoinFrom(cpus, Exec(cpus, Init(cpus), acts).value);
    ExecConcat(cpus, Init(cpus), acts, more);
  }

  // ----- the checks at the end

  datatype Ids = Ids(prePid: int, postPid: int, preTid: int, postTid: int)

  /** What the checks of row i have established up to column m. */
  predicate RowOk(children: seq<Ids>, i: nat, m: nat)
    requires i < |children| && m <= |children|
  {
    && children[i].prePid == children[i].postPid
    && children[i].preTid == children[i].postTid
    && forall j :: i < j < m ==>
         children[i].prePid == children[j].postPid && children[i].preTid != children[j].postTid
  }

  predicate Accepts(children: seq<Ids>) {
    forall i :: 0 <= i < |children| - 1 ==> RowOk(children, i, |children|)
  }

  /** Everything the test is after, with the pre/post pairs of all children but the last. */
  predicate Migrated(children: seq<Ids>) {
    && (forall i :: 0 <= i < |children| ==> children[i].postPid == children[0].postPid)
    && (forall i, j :: 0 <= i < j < |children| ==> children[i].postTid != children[j].postTid)
    && (forall i :: 0 <= i < |children| - 1 ==>
          children[i].prePid == children[i].postPid && children[i].preTid == children[i].postTid)
  }

  lemma {:induction false} AcceptsMeans(children: seq<Ids>)
    ensures Accepts(children) <==> Migrated(children)
  {
    if Accepts(children) {
      forall i | 0 <= i < |children|
        ensures children[i].postPid == children[0].postPid
      {
        if i > 0 {
          assert RowOk(children, 0, |children|);
        }
      }
      forall i, j | 0 <= i < j < |children|
        ensures children[i].postTid != children[j].postTid
      {
        assert RowOk(children, i, |children|);
      }
      forall i | 0 <= i < |children| - 1
        ensures children[i].prePid == children[i].postPid && children[i].preTid == children[i].postTid
      {
        assert RowOk(children, i, |children|);
      }
    }
    if Migrated(children) {
      forall i | 0 <= i < |children| - 1
        ensures RowOk(children, i, |children|)
      {
        assert children[i].postPid == children[0].postPid;
      }
    }
  }

  /**
   * The nested check loops; true when no tp_assert fires.  Accepting is the same as: all
   * post-migration pids equal, all post-migration tids distinct, and no id changed in any child but
   * the last, whose own pair is never looked at.
   */
  method Check(children: seq<Ids>) returns (ok: bool)
    ensures ok <==> Migrated(children)
  {
    AcceptsMeans(children);
    var i := 0;
    while i < |children| - 1
      invariant 0 <= i && (i < |children| || i == 0)
      invariant forall k :: 0 <= k < i ==> RowOk(children, k, |children|)
    {
      if children[i].prePid != children[i].postPid || children[i].preTid != children[i].postTid {
        assert !RowOk(children, i, |children|);
        return false;
      }
      var j := i + 1;
      while j < |children|
        invariant i < j <= |children|
        invariant RowOk(children, i, j)
      {
        if children[i].prePid != children[j].postPid || children[i].preTid == children[j].postTid {
          assert !RowOk(children, i, |children|);
          return false;
        }
        j := j + 1;
      }
      i := i + 1;
    }
    return true;
  }
}
