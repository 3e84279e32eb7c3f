/**
 * Which values the racy counter of src/test_mck/src/tls/001.c can end with: schedules are built that
 * reach every value between the bounds of TlsRace.
 */
module TlsSchedule {
  import opened Prelude
  import opened TlsRace

  ghost predicate Reaches(c: Config, s: State, s': State) {
    Shape(c, s) && exists acts :: Exec(c, s, acts) == Some(s')
  }

  lemma {:induction false} ExecConcat(c: Config, s: State, xs: seq<Action>, ys: seq<Action>)
    requires Shape(c, s) && Exec(c, s, xs).Some?
    ensures Exec(c, s, xs + ys) == Exec(c, Exec(c, s, xs).value, ys)
    decreases |xs|
  {
    if xs == [] {
      assert xs + ys == ys;
    } else {
      assert (xs + ys)[1..] == xs[1..] + ys;
      ExecConcat(c, Next(c, s, xs[0]).value, xs[1..], ys);
    }
  }

  lemma {:induction false} Join(c: Config, a: State, b: State, d: State)
    requires Reaches(c, a, b) && Reaches(c, b, d)
    ensures Reaches(c, a, d)
  {
    var xs :| Exec(c, a, xs) == Some(b);
    var ys :| Exec(c, b, ys) == Some(d);
    ExecConcat(c, a, xs, ys);
  }

  lemma {:induction false} Step(c: Config, a: State, b: State, x: Action, d: State)
    requires Reaches(c, a, b) && Shape(c, b) && Next(c, b, x) == Some(d)
    ensures Reaches(c, a, d)
  {
    assert Exec(c, b, [x]) == Some(d);
    Join(c, a, b, d);
  }

  lemma {:induction false} Here(c: Config, a: State)
    requires Shape(c, a)
    ensures Reaches(c, a, a)
  {
    assert Exec(c, a, []) == Some(a);
  }

  /** The first j children have record x, the others y. */
  function Mix(n: nat, j: nat, x: Child, y: Child): (r: seq<Child>)
    ensures |r| == n
  {
    seq(n, t => if t < j then x else y)
  }

  function Rec(pc: Pc, sync: nat, start: nat): Child {
    Child(pc, sync, start, 0, 0)
  }

  /** One step per child turns every record y into x, whoever makes the steps. */
  lemma {:induction false} Sweep(c: Config, j: nat, x: Child, y: Child, mains: nat -> Main, acts: nat -> Action, v: int)
    requires j <= c.count
    requires forall i :: 0 <= i <= c.count ==> Shape(c, State(mains(i), Mix(c.count, i, x, y), v))
    requires forall i :: 0 <= i < c.count ==>
      Next(c, State(mains(i), Mix(c.count, i, x, y), v), acts(i))
        == Some(State(mains(i + 1), Mix(c.count, i + 1, x, y), v))
    ensures Reaches(c, State(mains(0), Mix(c.count, 0, x, y), v), State(mains(j), Mix(c.count, j, x, y), v))
  {
    if j == 0 {
      Here(c, State(mains(0), Mix(c.count, 0, x, y), v));
    } else {
      Sweep(c, j - 1, x, y, mains, acts, v);
      Step(c, State(mains(0), Mix(c.count, 0, x, y), v), State(mains(j - 1), Mix(c.count, j - 1, x, y), v),
           acts(j - 1), State(mains(j), Mix(c.count, j, x, y), v));
    }
  }

  lemma {:induction false} MixStep(n: nat, j: nat, x: Child, y: Child)
    requires j < n
    ensures Mix(n, j, x, y)[j] == y && Mix(n, j, x, y)[j := x] == Mix(n, j + 1, x, y)
  {
  }

  /** All children have record x. */
  function All(c: Config, m: Main, x: Child, v: int): State {
    State(m, seq(c.count, _ => x), v)
  }

  lemma {:induction false} MixEnds(n: nat, x: Child, y: Child)
    ensures Mix(n, 0, x, y) == seq(n, _ => y) && Mix(n, n, x, y) == seq(n, _ => x)
  {
  }

  /** The main thread makes one pass over the children. */
  lemma {:induction false} MainSweep(c: Config, x: Child, y: Child, mains: nat -> Main, v: int)
    requires forall i :: 0 <= i <= c.count ==> Shape(c, State(mains(i), Mix(c.count, i, x, y), v))
    requires forall i :: 0 <= i < c.count ==>
      MainNext(c, State(mains(i), Mix(c.count, i, x, y), v))
        == Some(State(mains(i + 1), Mix(c.count, i, x, y)[i := x], v))
    ensures Reaches(c, All(c, mains(0), y, v), All(c, mains(c.count), x, v))
  {
    forall i | 0 <= i < c.count
      ensures Next(c, State(mains(i), Mix(c.count, i, x, y), v), MainStep)
              == Some(State(mains(i + 1), Mix(c.count, i + 1, x, y), v))
    {
      MixStep(c.count, i, x, y);
    }
    Sweep(c, c.count, x, y, mains, _ => MainStep, v);
    MixEnds(c.count, x, y);
  }

  /** Every child makes the same step, in order. */
  lemma {:induction false} ChildSweep(c: Config, x: Child, y: Child, m: Main, v: int)
    requires Shape(c, All(c, m, y, v))
    requires ChildMove(c, y, v) == Some((x, v))
    ensures Reaches(c, All(c, m, y, v), All(c, m, x, v))
  {
    forall i | 0 <= i < c.count
      ensures Next(c, State(m, Mix(c.count, i, x, y), v), ChildStep(i))
              == Some(State(m, Mix(c.count, i + 1, x, y), v))
    {
      MixStep(c.count, i, x, y);
    }
    Sweep(c, c.count, x, y, _ => m, (i: nat) => ChildStep(i), v);
    MixEnds(c.count, x, y);
  }

  /** The main thread goes on to its next loop. */
  lemma {:induction false} MainTurn(c: Config, a: State, m: Main, x: Child, v: int)
    requires Reaches(c, a, All(c, m, x, v)) && !m.Passed? && !m.Rejected? && m.next == c.count
    ensures Reaches(c, a, MainNext(c, All(c, m, x, v)).value)
  {
    Step(c, a, All(c, m, x, v), MainStep, MainNext(c, All(c, m, x, v)).value);
  }

  lemma {:induction false} AllPosted(c: Config)
    ensures Reaches(c, Init(c), All(c, Creating(c.count), Rec(Posted, 1, 0), 0))
  {
    assert Init(c) == All(c, Creating(0), Rec(Unborn, 0, 0), 0);
    MainSweep(c, Rec(Begun, 0, 0), Rec(Unborn, 0, 0), (j: nat) => Creating(j), 0);
    ChildSweep(c, Rec(Posted, 1, 0), Rec(Begun, 0, 0), Creating(c.count), 0);
    Join(c, Init(c), All(c, Creating(c.count), Rec(Begun, 0, 0), 0), All(c, Creating(c.count), Rec(Posted, 1, 0), 0));
  }

  lemma {:induction false} AllSynced(c: Config)
    ensures Reaches(c, Init(c), All(c, Starting(0), Rec(Posted, 0, 0), 0))
  {
    AllPosted(c);
    MainTurn(c, Init(c), Creating(c.count), Rec(Posted, 1, 0), 0);
    MainSweep(c, Rec(Posted, 0, 0), Rec(Posted, 1, 0), (j: nat) => Syncing(j), 0);
    Join(c, Init(c), All(c, Syncing(0), Rec(Posted, 1, 0), 0), All(c, Syncing(c.count), Rec(Posted, 0, 0), 0));
    MainTurn(c, Init(c), Syncing(c.count), Rec(Posted, 0, 0), 0);
  }

  /** A child record inside the loop after i iterations. */
  function At(pc: Pc, tls: int): Child {
    Child(pc, 0, 0, tls, 0)
  }

  /** A schedule that opens the gate with every child at the top of its loop. */
  lemma {:induction false} OpenGate(c: Config)
    ensures Reaches(c, Init(c), All(c, Joining(0), At(Looping(0), 0), 0))
  {
    AllSynced(c);
    MainSweep(c, Rec(Posted, 0, 1), Rec(Posted, 0, 0), (j: nat) => Starting(j), 0);
    Join(c, Init(c), All(c, Starting(0), Rec(Posted, 0, 0), 0), All(c, Starting(c.count), Rec(Posted, 0, 1), 0));
    MainTurn(c, Init(c), Starting(c.count), Rec(Posted, 0, 1), 0);
    ChildSweep(c, At(Looping(0), 0), Rec(Posted, 0, 1), Joining(0), 0);
    Join(c, Init(c), All(c, Joining(0), Rec(Posted, 0, 1), 0), All(c, Joining(0), At(Looping(0), 0), 0));
  }

  /** The state with child t's record and notls replaced. */
  function Put(s: State, t: nat, x: Child, v: int): (r: State)
    requires t < |s.children|
    ensures |r.children| == |s.children| && r.children[t] == x
  {
    s.(children := s.children[t := x], notls := v)
  }

  /** After a state in which child t has record x it may move on to record y. */
  lemma {:induction false} Move(c: Config, a: State, s: State, t: nat, x: Child, v: int, y: Child, w: int)
    requires t < |s.children| && Reaches(c, a, Put(s, t, x, v)) && Shape(c, s)
    requires ChildMove(c, x, v) == Some((y, w))
    ensures Reaches(c, a, Put(s, t, y, w))
  {
    assert Put(Put(s, t, x, v), t, y, w) == Put(s, t, y, w);
    Step(c, a, Put(s, t, x, v), ChildStep(t), Put(s, t, y, w));
  }

  /** One child runs m iterations with nobody in between. */
  lemma {:induction false} Solo(c: Config, s: State, t: nat, i: nat, m: nat)
    requires Shape(c, s) && t < c.count && i + m <= c.incCount
    requires s.children[t] == At(Looping(i), i)
    ensures Reaches(c, s, Put(s, t, At(Looping(i + m), i + m), s.notls + m))
  {
    if m == 0 {
      Here(c, s);
      assert Put(s, t, s.children[t], s.notls) == s;
    } else {
      Solo(c, s, t, i, m - 1);
      var k := i + m - 1;
      var v := s.notls + m - 1;
      Move(c, s, s, t, At(Looping(k), k), v, At(Loading(k), k + 1), v);
      Move(c, s, s, t, At(Loading(k), k + 1), v, At(Storing(k, v), k + 1), v);
      Move(c, s, s, t, At(Storing(k, v), k + 1), v, At(Looping(k + 1), k + 1), v + 1);
    }
  }

  /** A child record at the very end. */
  function End(c: Config): Child {
    Child(Finished, 0, 0, c.incCount, c.incCount)
  }

  lemma {:induction false} MixSame(n: nat, j: nat, x: Child)
    requires j < n
    ensures Mix(n, j, x, x)[j := x] == Mix(n, j, x, x)
  {
  }

  /** The main thread passes over finished children without changing them. */
  lemma {:induction false} PassOver(c: Config, a: State, mains: nat -> Main, v: int)
    requires Reaches(c, a, All(c, mains(0), End(c), v))
    requires (forall j :: 0 <= j <= c.count ==> mains(j) == Joining(j))
             || (forall j :: 0 <= j <= c.count ==> mains(j) == Checking(j))
    ensures Reaches(c, a, All(c, mains(c.count), End(c), v))
  {
    forall j | 0 <= j < c.count
      ensures MainNext(c, State(mains(j), Mix(c.count, j, End(c), End(c)), v))
              == Some(State(mains(j + 1), Mix(c.count, j, End(c), End(c))[j := End(c)], v))
    {
      MixSame(c.count, j, End(c));
    }
    MainSweep(c, End(c), End(c), mains, v);
    Join(c, a, All(c, mains(0), End(c), v), All(c, mains(c.count), End(c), v));
  }

  /** From the end of all loops: the children return, main joins and checks them. */
  lemma {:induction false} WrapUp(c: Config, a: State, v: int)
    requires Reaches(c, a, All(c, Joining(0), At(Looping(c.incCount), c.incCount), v))
    ensures Reaches(c, a, All(c, Passed, End(c), v))
  {
    ChildSweep(c, End(c), At(Looping(c.incCount), c.incCount), Joining(0), v);
    Join(c, a, All(c, Joining(0), At(Looping(c.incCount), c.incCount), v), All(c, Joining(0), End(c), v));
    PassOver(c, a, (j: nat) => Joining(j), v);
    MainTurn(c, a, Joining(c.count), End(c), v);
    PassOver(c, a, (j: nat) => Checking(j), v);
    MainTurn(c, a, Checking(c.count), End(c), v);
  }

  // ----- iterations still to be done

  function Lefts(c: Config, s: State): (r: seq<int>)
    ensures |r| == |s.children|
  {
    seq(|s.children|, t requires 0 <= t < |s.children| => c.incCount - Stores(c, s.children[t].pc))
  }

  /** The stores that are still to come. */
  function Left(c: Config, s: State): int {
    Sum(Lefts(c, s))
  }

  lemma {:induction false} LeftPut(c: Config, s: State, t: nat, x: Child, v: int)
    requires t < |s.children|
    ensures Left(c, Put(s, t, x, v)) == Left(c, s) + Stores(c, s.children[t].pc) - Stores(c, x.pc)
  {
    SumUpdate(Lefts(c, s), t, c.incCount - Stores(c, x.pc));
    assert Lefts(c, Put(s, t, x, v)) == Lefts(c, s)[t := c.incCount - Stores(c, x.pc)];
  }

  /** The child stands at its loop head. */
  predicate AtHead(c: Config, x: Child) {
    x.pc.Looping? && x.pc.i <= c.incCount && x == At(x.pc, x.pc.i)
  }

  /** All children from number lo on stand at their loop heads, and main waits for the first to return. */
  predicate HeadsFrom(c: Config, s: State, lo: nat) {
    && |s.children| == c.count && s.main == Joining(0)
    && forall t :: lo <= t < c.count ==> AtHead(c, s.children[t])
  }

  /** One iteration of child t, undisturbed. */
  lemma {:induction false} Iterate(c: Config, a: State, s: State, lo: nat, t: nat) returns (s': State)
    requires HeadsFrom(c, s, lo) && Reaches(c, a, s) && lo <= t < c.count && Lefts(c, s)[t] > 0
    ensures HeadsFrom(c, s', lo) && Reaches(c, a, s') && s'.children[..lo] == s.children[..lo]
    ensures s'.notls == s.notls + 1 && Left(c, s') == Left(c, s) - 1
  {
    var i := s.children[t].pc.i;
    assert AtHead(c, s.children[t]);
    Solo(c, s, t, i, 1);
    s' := Put(s, t, At(Looping(i + 1), i + 1), s.notls + 1);
    LeftPut(c, s, t, At(Looping(i + 1), i + 1), s.notls + 1);
    Join(c, a, s, s');
  }

  /** With everybody at a loop head, running one child after the other adds every store that is left. */
  lemma {:induction false} FinishLoops(c: Config, a: State, s: State)
    requires HeadsFrom(c, s, 0) && Reaches(c, a, s)
    ensures Reaches(c, a, All(c, Passed, End(c), s.notls + Left(c, s)))
    decreases Left(c, s)
  {
    assert forall t :: 0 <= t < c.count ==> AtHead(c, s.children[t]);
    SumAtLeast(Lefts(c, s), 0);
    if Left(c, s) > 0 {
      var t := SumPositive(Lefts(c, s));
      var s' := Iterate(c, a, s, 0, t);
      SumAtLeast(Lefts(c, s'), 0) by {
        assert forall t :: 0 <= t < c.count ==> AtHead(c, s'.children[t]);
      }
      FinishLoops(c, a, s');
    } else {
      forall t | 0 <= t < c.count
        ensures s.children[t] == At(Looping(c.incCount), c.incCount)
      {
        SumMember(Lefts(c, s), t);
        assert AtHead(c, s.children[t]);
      }
      assert s == All(c, Joining(0), At(Looping(c.incCount), c.incCount), s.notls);
      WrapUp(c, a, s.notls);
    }
  }

  // ----- losing updates

  /** Child 0 has read 0 and is held before its first store; everybody else is at a loop head. */
  predicate Held(c: Config, s: State) {
    c.count >= 1 && HeadsFrom(c, s, 1) && s.children[0] == At(Storing(0, 0), 1)
  }

  lemma {:induction false} HoldFirst(c: Config) returns (s: State)
    requires c.Valid() && c.incCount >= 1
    ensures Held(c, s) && Reaches(c, Init(c), s) && Left(c, s) == c.incCount * c.count
  {
    var top := All(c, Joining(0), At(Looping(0), 0), 0);
    OpenGate(c);
    assert Put(top, 0, At(Looping(0), 0), 0) == top;
    Move(c, Init(c), top, 0, At(Looping(0), 0), 0, At(Loading(0), 1), 0);
    Move(c, Init(c), top, 0, At(Loading(0), 1), 0, At(Storing(0, 0), 1), 0);
    s := Put(top, 0, At(Storing(0, 0), 1), 0);
    SumAtLeast(Lefts(c, s), c.incCount);
    SumAtMost(Lefts(c, s), c.incCount);
  }

  /** While child 0 is held there is somebody else to run, as long as more is left than its own loop. */
  lemma {:induction false} SomebodyElse(c: Config, s: State) returns (t: nat)
    requires Held(c, s) && Left(c, s) > c.incCount
    ensures 1 <= t < c.count && 0 < Lefts(c, s)[t] <= Left(c, s) - c.incCount
  {
    var others := Lefts(c, s)[0 := 0];
    SumUpdate(Lefts(c, s), 0, 0);
    t := SumPositive(others);
    forall u | 0 <= u < c.count
      ensures others[u] >= 0
    {
      assert u >= 1 ==> AtHead(c, s.children[u]);
    }
    SumMember(others, t);
  }

  /** The others run until exactly left stores are still to come; child 0 will overwrite all they did. */
  lemma {:induction false} Waste(c: Config, a: State, s: State, left: nat) returns (s': State)
    requires Held(c, s) && Reaches(c, a, s) && c.incCount <= left <= Left(c, s)
    ensures Held(c, s') && Reaches(c, a, s') && Left(c, s') == left
    decreases Left(c, s)
  {
    s' := s;
    if left < Left(c, s) {
      var t := SomebodyElse(c, s);
      s' := Iterate(c, a, s, 1, t);
      assert s'.children[0] == s'.children[..1][0];
      s' := Waste(c, a, s', left);
    }
  }

  /** Held until left stores are to come, child 0 stores 1. */
  lemma {:induction false} LateStore(c: Config, left: nat) returns (s: State)
    requires c.Valid() && 1 <= c.incCount <= left <= c.incCount * c.count
    ensures HeadsFrom(c, s, 0) && Reaches(c, Init(c), s)
    ensures s.children[0] == At(Looping(1), 1) && s.notls == 1 && Left(c, s) == left - 1
  {
    var held := HoldFirst(c);
    held := Waste(c, Init(c), held, left);
    s := Put(held, 0, At(Looping(1), 1), 1);
    LeftPut(c, held, 0, At(Looping(1), 1), 1);
    assert Put(held, 0, At(Storing(0, 0), 1), held.notls) == held;
    Move(c, Init(c), held, 0, At(Storing(0, 0), 1), held.notls, At(Looping(1), 1), 1);
  }

  /** From INC_COUNT up: one late store, then nothing is lost any more. */
  lemma {:induction false} HighValue(c: Config, v: nat)
    requires c.Valid() && 1 <= c.incCount <= v <= c.incCount * c.count
    ensures Reaches(c, Init(c), All(c, Passed, End(c), v))
  {
    var s := LateStore(c, v);
    FinishLoops(c, Init(c), s);
  }

  /** After the late store with one iteration left outside child 0, somebody else is at the last iteration. */
  lemma {:induction false} LastOne(c: Config, s: State) returns (u: nat)
    requires c.incCount >= 1 && HeadsFrom(c, s, 0) && c.count >= 1
    requires s.children[0] == At(Looping(1), 1) && Left(c, s) == c.incCount
    ensures 1 <= u < c.count && s.children[u] == At(Looping(c.incCount - 1), c.incCount - 1)
  {
    var others := Lefts(c, s)[0 := 0];
    SumUpdate(Lefts(c, s), 0, 0);
    u := SumPositive(others);
    assert forall t :: 0 <= t < c.count ==> AtHead(c, s.children[t]);
    SumMember(others, u);
  }

  /** That child reads the 1; child 0 runs r iterations more; then the 2 is stored over them. */
  lemma {:induction false} SecondLateStore(c: Config, s: State, u: nat, r: nat) returns (s': State)
    requires HeadsFrom(c, s, 0) && Reaches(c, Init(c), s) && s.notls == 1 && 1 <= u < c.count && r < c.incCount
    requires s.children[0] == At(Looping(1), 1) && s.children[u] == At(Looping(c.incCount - 1), c.incCount - 1)
    ensures HeadsFrom(c, s', 0) && Reaches(c, Init(c), s')
    ensures s'.notls == 2 && Left(c, s') == Left(c, s) - 1 - r
  {
    var k := c.incCount;
    var read := Put(s, u, At(Storing(k - 1, 1), k), 1);
    assert Put(s, u, At(Looping(k - 1), k - 1), 1) == s;
    Move(c, Init(c), s, u, At(Looping(k - 1), k - 1), 1, At(Loading(k - 1), k), 1);
    Move(c, Init(c), s, u, At(Loading(k - 1), k), 1, At(Storing(k - 1, 1), k), 1);
    LeftPut(c, s, u, At(Storing(k - 1, 1), k), 1);
    var ran := Put(read, 0, At(Looping(1 + r), 1 + r), 1 + r);
    Solo(c, read, 0, 1, r);
    Join(c, Init(c), read, ran);
    LeftPut(c, read, 0, At(Looping(1 + r), 1 + r), 1 + r);
    s' := Put(ran, u, At(Looping(k), k), 2);
    assert Put(ran, u, At(Storing(k - 1, 1), k), 1 + r) == ran;
    Move(c, Init(c), ran, u, At(Storing(k - 1, 1), k), 1 + r, At(Looping(k), k), 2);
    LeftPut(c, ran, u, At(Looping(k), k), 2);
  }

  /** From 2 to INC_COUNT + 1: two late stores. */
  lemma {:induction false} LowValue(c: Config, v: nat)
    requires c.count >= 2 && 2 <= v <= c.incCount + 1
    ensures Reaches(c, Init(c), All(c, Passed, End(c), v))
  {
    assert c.incCount * c.count >= c.incCount * 2;
    var s := LateStore(c, c.incCount + 1);
    var u := LastOne(c, s);
    s := SecondLateStore(c, s, u, c.incCount + 1 - v);
    FinishLoops(c, Init(c), s);
  }

  /** Without an increment there is nothing to lose. */
  lemma {:induction false} NoIncrement(c: Config)
    requires c.incCount == 0
    ensures Reaches(c, Init(c), All(c, Passed, End(c), 0))
  {
    OpenGate(c);
    WrapUp(c, Init(c), 0);
  }

  // ----- the exact outcomes

  /** The values the shared counter may end with. */
  predicate Possible(c: Config, v: int) {
    if c.count == 1 then v == c.incCount else Least(c.incCount) <= v <= c.incCount * c.count
  }

  /** A complete schedule of the program that leaves the shared counter at v. */
  ghost predicate EndsWith(c: Config, acts: seq<Action>, v: int) {
    var r := Exec(c, Init(c), acts);
    r.Some? && Stuck(c, r.value) && r.value.notls == v
  }

  lemma {:induction false} PassedIsStuck(c: Config, v: int)
    ensures Shape(c, All(c, Passed, End(c), v)) && Stuck(c, All(c, Passed, End(c), v))
  {
  }

  /**
   * For every number of children and every INC_COUNT: the complete schedules end with exactly the
   * possible values.  One child loses nothing; two or more can lose any number of updates down to 2,
   * or down to 1 when INC_COUNT is 1.
   */
  lemma {:induction false} Outcomes(c: Config, v: int)
    requires c.Valid()
    ensures Possible(c, v) <==> exists acts :: EndsWith(c, acts, v)
  {
    if Possible(c, v) {
      assert c.count == 1 ==> c.incCount * c.count == c.incCount;
      if c.incCount == 0 {
        assert v == 0;
        NoIncrement(c);
      } else if c.incCount <= v {
        HighValue(c, v);
      } else {
        LowValue(c, v);
      }
      var acts :| Exec(c, Init(c), acts) == Some(All(c, Passed, End(c), v));
      PassedIsStuck(c, v);
      assert EndsWith(c, acts, v);
    }
    if acts :| EndsWith(c, acts, v) {
      CompleteRun(c, acts);
      if c.count == 1 {
        OneChild(c, acts);
      }
    }
  }

  lemma {:induction false} CanCompleteFrom(c: Config, s: State) returns (more: seq<Action>)
    requires Inv(c, s)
    ensures Exec(c, s, more).Some? && Stuck(c, Exec(c, s, more).value)
    decreases Work(c, s)
  {
    if Stuck(c, s) {
      return [];
    }
    var a :| Next(c, s, a).Some?;
    var s' := Next(c, s, a).value;
    StepKeepsInv(c, s, a);
    StepWork(c, s, a);
    WorkIsNatural(c, s');
    var rest := CanCompleteFrom(c, s');
    more := [a] + rest;
    assert more[1..] == rest;
  }

  /** Every schedule extends to a complete one. */
  lemma {:induction false} CanComplete(c: Config, acts: seq<Action>) returns (more: seq<Action>)
    requires Exec(c, Init(c), acts).Some?
    ensures Exec(c, Init(c), acts + more).Some? && Stuck(c, Exec(c, Init(c), acts + more).value)
  {
    InitInv(c);
    ExecInv(c, Init(c), acts);
    more := CanCompleteFrom(c, Exec(c, Init(c), acts).value);
    ExecConcat(c, Init(c), acts, more);
  }
}
