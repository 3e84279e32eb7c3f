/**
 * Loading and unloading the test driver: test_mck_setup, test_mck_cleanup and their procfs halves in
 * src/test_drv/test_mck_drv.c.  What each kernel call answers is a parameter.
 */
module DriverSetup {
  import opened Prelude

  /** What the kernel answers to each call of setup, which checks all but device_create; an error code is never 0. */
  datatype Answers = Answers(
    region: int,                         // alloc_chrdev_region
    classes: seq<bool>,                  // class_create
    cdevs: seq<int>,                     // cdev_add
    devices: seq<bool>,                  // device_create
    inits: seq<int>,                     // dev->init
    procdir: bool,                       // proc_mkdir
    procents: seq<bool>)                 // proc_create_data

  predicate Shape(a: Answers, devs: nat, ents: nat) {
    a.region <= 0 && |a.classes| == |a.cdevs| == |a.devices| == |a.inits| == devs && |a.procents| == ents
  }

  /** The call that makes setup give up. */
  datatype Failure = NoFailure | Region | Class(i: nat) | Cdev(i: nat) | DevInit(i: nat) | ProcDir | ProcEnt(i: nat)

  function FirstProcFailure(a: Answers, i: nat): Failure
    requires i <= |a.procents|
    decreases |a.procents| - i
  {
    if i == |a.procents| then NoFailure else if !a.procents[i] then ProcEnt(i) else FirstProcFailure(a, i + 1)
  }

  function ProcOutcome(a: Answers): Failure {
    if !a.procdir then ProcDir else FirstProcFailure(a, 0)
  }

  /** The first failing call, among those from device i on. */
  function FirstFailure(a: Answers, i: nat): Failure
    requires i <= |a.classes| == |a.cdevs| == |a.inits|
    decreases |a.classes| - i
  {
    if i == |a.classes| then ProcOutcome(a)
    else if !a.classes[i] then Class(i)
    else if a.cdevs[i] != 0 then Cdev(i)
    else if a.inits[i] != 0 then DevInit(i)
    else FirstFailure(a, i + 1)
  }

  /** The failure of a whole setup. */
  function Outcome(a: Answers): Failure
    requires |a.classes| == |a.cdevs| == |a.inits|
  {
    if a.region < 0 then Region else FirstFailure(a, 0)
  }

  /** All that setup checks of device k succeeds. */
  predicate DeviceWorks(a: Answers, k: nat)
    requires |a.classes| == |a.cdevs| == |a.inits| && k < |a.classes|
  {
    a.classes[k] && a.cdevs[k] == 0 && a.inits[k] == 0
  }

  predicate DevicesWork(a: Answers, n: nat)
    requires |a.classes| == |a.cdevs| == |a.inits| && n <= |a.classes|
  {
    forall k :: 0 <= k < n ==> DeviceWorks(a, k)
  }

  /** f is the first call to fail: the calls before it succeed, in the order in which setup makes them. */
  predicate FailsFirst(a: Answers, f: Failure)
    requires |a.classes| == |a.cdevs| == |a.inits|
  {
    var all := |a.classes|;
    match f
    case Region => a.region < 0
    case Class(i) => a.region >= 0 && i < all && DevicesWork(a, i) && !a.classes[i]
    case Cdev(i) => a.region >= 0 && i < all && DevicesWork(a, i) && a.classes[i] && a.cdevs[i] != 0
    case DevInit(i) =>
      a.region >= 0 && i < all && DevicesWork(a, i) && a.classes[i] && a.cdevs[i] == 0 && a.inits[i] != 0
    case ProcDir => a.region >= 0 && DevicesWork(a, all) && !a.procdir
    case ProcEnt(i) =>
      && a.region >= 0 && DevicesWork(a, all) && a.procdir
      && i < |a.procents| && !a.procents[i] && forall k :: 0 <= k < i ==> a.procents[k]
    case NoFailure =>
      a.region >= 0 && DevicesWork(a, all) && a.procdir && forall k :: 0 <= k < |a.procents| ==> a.procents[k]
  }

  lemma {:induction false} ProcOutcomeFailsFirst(a: Answers, i: nat)
    requires |a.classes| == |a.cdevs| == |a.inits| && i <= |a.procents|
    requires a.region >= 0 && DevicesWork(a, |a.classes|) && a.procdir && forall k :: 0 <= k < i ==> a.procents[k]
    ensures FailsFirst(a, FirstProcFailure(a, i))
    decreases |a.procents| - i
  {
    if i < |a.procents| && a.procents[i] {
      ProcOutcomeFailsFirst(a, i + 1);
    }
  }

  lemma {:induction false} OutcomeFailsFirst(a: Answers, i: nat)
    requires |a.classes| == |a.cdevs| == |a.inits| && i <= |a.classes| && a.region >= 0 && DevicesWork(a, i)
    ensures FailsFirst(a, FirstFailure(a, i))
    decreases |a.classes| - i
  {
    if i == |a.classes| {
      if a.procdir {
        ProcOutcomeFailsFirst(a, 0);
      }
    } else if DeviceWorks(a, i) {
      OutcomeFailsFirst(a, i + 1);
    }
  }

  lemma {:induction false} OneFailsFirst(a: Answers, f: Failure, g: Failure)
    requires |a.classes| == |a.cdevs| == |a.inits| && FailsFirst(a, f) && FailsFirst(a, g)
    ensures f == g
  {
    assert f.Class? || f.Cdev? || f.DevInit? ==> !DeviceWorks(a, f.i);
    assert g.Class? || g.Cdev? || g.DevInit? ==> !DeviceWorks(a, g.i);
  }

  /** The outcome of a setup is the call that fails first, for every kind of call and every device. */
  lemma {:induction false} OutcomeIs(a: Answers, f: Failure)
    requires |a.classes| == |a.cdevs| == |a.inits|
    ensures Outcome(a) == f <==> FailsFirst(a, f)
  {
    if a.region >= 0 {
      OutcomeFailsFirst(a, 0);
    }
    if FailsFirst(a, f) {
      OneFailsFirst(a, f, Outcome(a));
    }
  }

  /** The result that setup hands on: the failing call's own code, but 0 for class_create. */
  predicate Reports(a: Answers, f: Failure, res: int) {
    match f
    case NoFailure => res == 0
    case Region => res == a.region
    case Class(_) => res == 0
    case Cdev(i) => i < |a.cdevs| && res == a.cdevs[i]
    case DevInit(i) => i < |a.inits| && res == a.inits[i]
    case ProcDir => res == -12
    case ProcEnt(_) => res == -12
  }

  /** One of the calls made for device i failed. */
  predicate DeviceFailure(f: Failure, i: nat) {
    f == Class(i) || f == Cdev(i) || f == DevInit(i)
  }

  /** What a device holds. */
  datatype Held = Held(cls: bool, cdev: bool, device: bool, buffer: bool)

  const NOTHING := Held(false, false, false, false)
  const ALL := Held(true, true, true, true)

  /** The calls that cleanup makes without looking whether there is anything to release. */
  datatype Release = RemoveDir | CdevDel(i: nat) | DeviceDestroy(i: nat) | ClassDestroy(i: nat) | Unregister

  function When(held: bool, r: Release): seq<Release> {
    if held then [] else [r]
  }

  /** The releases of device i that hit nothing. */
  function StaleDevice(h: Held, i: nat): seq<Release> {
    When(h.cdev, CdevDel(i)) + When(h.device, DeviceDestroy(i)) + When(h.cls, ClassDestroy(i))
  }

  function StaleDevices(devs: seq<Held>, n: nat): seq<Release>
    requires n <= |devs|
  {
    if n == 0 then [] else StaleDevices(devs, n - 1) + StaleDevice(devs[n - 1], n - 1)
  }

  /** All releases of one cleanup that hit nothing, in the order of the calls. */
  function Stale(region: bool, procdir: bool, devs: seq<Held>): seq<Release> {
    When(procdir, RemoveDir) + StaleDevices(devs, |devs|) + When(region, Unregister)
  }

  predicate Releasable(h: Held) {
    h.cls && h.cdev && h.device
  }

  lemma {:induction false} NoStaleDevices(devs: seq<Held>, n: nat)
    requires n <= |devs|
    ensures StaleDevices(devs, n) == [] <==> forall i :: 0 <= i < n ==> Releasable(devs[i])
  {
    if n > 0 {
      NoStaleDevices(devs, n - 1);
    }
  }

  /** A cleanup hits only what is held exactly when region, directory and every device are there. */
  lemma {:induction false} NoStale(region: bool, procdir: bool, devs: seq<Held>)
    ensures Stale(region, procdir, devs) == []
      <==> region && procdir && forall i :: 0 <= i < |devs| ==> Releasable(devs[i])
  {
    NoStaleDevices(devs, |devs|);
  }

  /** What device k holds when setup is through with it: everything, if device_create did not fail. */
  function Full(a: Answers, k: int): Held
    requires 0 <= k < |a.devices|
  {
    ALL.(device := a.devices[k])
  }

  /** What device k holds when f makes setup give up. */
  function HeldAt(a: Answers, f: Failure, k: int): Held
    requires 0 <= k < |a.devices|
  {
    match f
    case Region => NOTHING
    case Class(i) => if k < i then Full(a, k) else NOTHING
    case Cdev(i) => if k < i then Full(a, k) else if k == i then NOTHING.(cls := true) else NOTHING
    case DevInit(i) => if k < i then Full(a, k) else if k == i then Full(a, k).(buffer := false) else NOTHING
    case _ => Full(a, k)
  }

  function DevicesAt(a: Answers, f: Failure): (r: seq<Held>)
    ensures |r| == |a.devices| && forall k :: 0 <= k < |a.devices| ==> r[k] == HeldAt(a, f, k)
  {
    seq(|a.devices|, k requires 0 <= k < |a.devices| => HeldAt(a, f, k))
  }

  /** The releases that hit nothing in a setup that ends with f. */
  function SetupStale(a: Answers, f: Failure): seq<Release> {
    if f == NoFailure then [] else Stale(f != Region, f.ProcEnt?, DevicesAt(a, f))
  }

  predicate AllCreated(a: Answers) {
    forall k :: 0 <= k < |a.devices| ==> a.devices[k]
  }

  /**
   * A setup releases only what it held exactly when nothing it checks failed, or a proc entry did and
   * no device_create: any other failure comes before the proc directory is made.
   */
  lemma {:induction false} NoStaleSetup(a: Answers, f: Failure)
    ensures SetupStale(a, f) == [] <==> f == NoFailure || (f.ProcEnt? && AllCreated(a))
  {
    if f != NoFailure {
      var devs := DevicesAt(a, f);
      NoStale(f != Region, f.ProcEnt?, devs);
      if f.ProcEnt? {
        assert forall k :: 0 <= k < |devs| ==> Releasable(devs[k]) == a.devices[k];
      }
    }
  }

  lemma {:induction false} ProcFailure(a: Answers, i: nat)
    requires i <= |a.procents|
    ensures FirstProcFailure(a, i) == NoFailure || FirstProcFailure(a, i).ProcEnt?
    decreases |a.procents| - i
  {
    if i < |a.procents| {
      ProcFailure(a, i + 1);
    }
  }

  lemma {:induction false} FailureCode(a: Answers, i: nat)
    requires i <= |a.classes| == |a.cdevs| == |a.inits|
    ensures FirstFailure(a, i) != Region
    ensures FirstFailure(a, i).Cdev? ==> FirstFailure(a, i).i < |a.cdevs| && a.cdevs[FirstFailure(a, i).i] != 0
    ensures FirstFailure(a, i).DevInit? ==> FirstFailure(a, i).i < |a.inits| && a.inits[FirstFailure(a, i).i] != 0
    decreases |a.classes| - i
  {
    if i < |a.classes| {
      FailureCode(a, i + 1);
    } else {
      ProcFailure(a, 0);
    }
  }

  /** A zero result means success or a failed class_create, and nothing else. */
  lemma {:induction false} ZeroResult(a: Answers, devs: nat, ents: nat, res: int)
    requires Shape(a, devs, ents) && Reports(a, Outcome(a), res)
    ensures res == 0 <==> Outcome(a) == NoFailure || Outcome(a).Class?
  {
    if a.region == 0 {
      FailureCode(a, 0);
    }
  }

  class Driver {
    var region: bool
    var devs: seq<Held>
    var procdir: bool
    var procents: seq<bool>
    var stale: seq<Release>              // the releases so far of things that were not held

    /** Nothing acquired is held. */
    ghost predicate Clean()
      reads this
    {
      && !region && !procdir
      && (forall i :: 0 <= i < |devs| ==> devs[i] == Held(false, false, false, false))
      && (forall i :: 0 <= i < |procents| ==> !procents[i])
    }

    /** Everything setup acquires is held, whatever became of device_create. */
    ghost predicate Loaded(a: Answers)
      reads this
    {
      && region && procdir && |devs| == |a.devices|
      && (forall i :: 0 <= i < |devs| ==> devs[i] == Held(true, true, a.devices[i], true))
      && (forall i :: 0 <= i < |procents| ==> procents[i])
    }

    constructor (devs: nat, ents: nat)
      ensures |this.devs| == devs && |procents| == ents && Clean() && stale == []
    {
      region, procdir, stale := false, false, [];
      this.devs := seq(devs, _ => NOTHING);
      procents := seq(ents, _ => false);
    }

    method CleanupProcfs()
      modifies this
      ensures region == old(region) && devs == old(devs) && |procents| == |old(procents)|
      ensures !procdir && forall i :: 0 <= i < |procents| ==> !procents[i]
      ensures stale == old(stale) + When(old(procdir), RemoveDir)
    {
      for i := 0 to |procents|
        invariant region == old(region) && devs == old(devs) && |procents| == |old(procents)|
        invariant procdir == old(procdir) && stale == old(stale)
        invariant forall k :: 0 <= k < i ==> !procents[k]
      {
        if procents[i] {
          procents := procents[i := false];
        }
      }
      stale := stale + When(procdir, RemoveDir);
      procdir := false;
    }

    /** The loop body of cleanup for device i; fin frees the buffer only if there is one. */
    method ReleaseDevice(i: nat)
      requires i < |devs|
      modifies this
      ensures region == old(region) && procdir == old(procdir) && procents == old(procents)
      ensures devs == old(devs)[i := NOTHING] && stale == old(stale) + StaleDevice(old(devs[i]), i)
    {
      var h := devs[i];
      if h.buffer {
        h := h.(buffer := false);
      }
      stale := stale + When(h.cdev, CdevDel(i));
      h := h.(cdev := false);
      stale := stale + When(h.device, DeviceDestroy(i));
      h := h.(device := false);
      stale := stale + When(h.cls, ClassDestroy(i));
      h := h.(cls := false);
      devs := devs[i := h];
    }

    /** The device loop of cleanup. */
    method ReleaseDevices()
      modifies this
      ensures region == old(region) && procdir == old(procdir) && procents == old(procents)
      ensures |devs| == |old(devs)| && forall i :: 0 <= i < |devs| ==> devs[i] == NOTHING
      ensures stale == old(stale) + StaleDevices(old(devs), |devs|)
    {
      ghost var was, before := devs, stale;
      for i := 0 to |devs|
        invariant region == old(region) && procdir == old(procdir) && procents == old(procents)
        invariant |devs| == |was|
        invariant forall k :: 0 <= k < i ==> devs[k] == NOTHING
        invariant forall k :: i <= k < |devs| ==> devs[k] == was[k]
        invariant stale == before + StaleDevices(was, i)
      {
        ghost var soFar, more := StaleDevices(was, i), StaleDevice(was[i], i);
        ReleaseDevice(i);
        assert before + soFar + more == before + (soFar + more);
      }
    }

    /** test_mck_cleanup: nothing is held after, and the releases that hit nothing are known exactly. */
    method Cleanup()
      modifies this
      ensures Clean() && |devs| == |old(devs)| && |procents| == |old(procents)|
      ensures stale == old(stale) + Stale(old(region), old(procdir), old(devs))
    {
      CleanupProcfs();
      ReleaseDevices();
      stale := stale + When(region, Unregister);
      region := false;
    }

    method InitProcfs(a: Answers) returns (res: int)
      requires |a.procents| == |procents|
      modifies this
      ensures region == old(region) && devs == old(devs) && |procents| == |old(procents)|
      ensures stale == old(stale) && (procdir <==> old(procdir) || a.procdir)
      ensures Reports(a, ProcOutcome(a), res)
      ensures ProcOutcome(a) == NoFailure ==> procdir && forall i :: 0 <= i < |procents| ==> procents[i]
    {
      if !a.procdir {
        return -ENOMEM;
      }
      procdir := true;
      for i := 0 to |procents|
        invariant region == old(region) && devs == old(devs) && |procents| == |old(procents)| && procdir
        invariant stale == old(stale)
        invariant forall k :: 0 <= k < i ==> procents[k]
        invariant FirstProcFailure(a, 0) == FirstProcFailure(a, i)
      {
        if !a.procents[i] {
          return -ENOMEM;
        }
        procents := procents[i := true];
      }
      return 0;
    }

    /** The loop body of setup for device i: the first of its three checked calls to fail ends it. */
    method SetupDevice(a: Answers, i: nat, res0: int) returns (res: int, failed: bool)
      requires Shape(a, |devs|, |procents|) && i < |devs| && res0 == 0 && devs[i] == NOTHING
      modifies this
      ensures region == old(region) && procdir == old(procdir) && procents == old(procents) && stale == old(stale)
      ensures |devs| == |old(devs)| && forall k :: 0 <= k < |devs| && k != i ==> devs[k] == old(devs[k])
      ensures !failed ==> res == 0 && devs[i] == Full(a, i) && FirstFailure(a, i) == FirstFailure(a, i + 1)
      ensures failed ==> DeviceFailure(FirstFailure(a, i), i) && devs[i] == HeldAt(a, FirstFailure(a, i), i)
      ensures failed ==> Reports(a, FirstFailure(a, i), res)
    {
      res, failed := res0, true;
      if !a.classes[i] {
        return;
      }
      devs := devs[i := devs[i].(cls := true)];
      res := a.cdevs[i];
      if res != 0 {
        return;
      }
      devs := devs[i := devs[i].(cdev := true, device := a.devices[i])];
      res := a.inits[i];
      if res != 0 {
        return;
      }
      devs := devs[i := devs[i].(buffer := true)];
      failed := false;
    }

    /**
     * test_mck_setup.  Either every call succeeds and everything is held, or nothing is; the result
     * is the failing call's code, except that a failed class_create leaves the 0 of the call before.
     * The cleanup on the way out also releases things that setup never got to.
     */
    method Setup(a: Answers) returns (res: int)
      requires Clean() && Shape(a, |devs|, |procents|)
      modifies this
      ensures |devs| == |old(devs)| && |procents| == |old(procents)|
      ensures Reports(a, Outcome(a), res)
      ensures if Outcome(a) == NoFailure then Loaded(a) else Clean()
      ensures stale == old(stale) + SetupStale(a, Outcome(a))
    {
      res := a.region;
      if res < 0 {
        assert devs == DevicesAt(a, Outcome(a));
        Cleanup();
        return;
      }
      region := true;
      for i := 0 to |devs|
        invariant region && !procdir && res == 0 && procents == old(procents) && |devs| == |old(devs)|
        invariant Shape(a, |devs|, |procents|) && stale == old(stale)
        invariant forall k :: 0 <= k < |devs| ==> devs[k] == if k < i then Full(a, k) else NOTHING
        invariant FirstFailure(a, 0) == FirstFailure(a, i)
      {
        var failed;
        res, failed := SetupDevice(a, i, res);
        if failed {
          assert devs == DevicesAt(a, Outcome(a));
          Cleanup();
          return;
        }
      }
      res := InitProcfs(a);
      ProcFailure(a, 0);
      if res != 0 {
        assert devs == DevicesAt(a, Outcome(a));
        Cleanup();
      }
    }

    /**
     * Loading the module and, if that reported success, unloading it: test_mck_init and
     * test_mck_exit.  Nothing stays behind; only what was held has been released exactly when every
     * device was created and nothing else failed, or only a proc entry.
     */
    method LoadAndUnload(a: Answers) returns (res: int)
      requires Clean() && Shape(a, |devs|, |procents|) && stale == []
      modifies this
      ensures Clean() && Reports(a, Outcome(a), res)
      ensures stale == [] <==> (Outcome(a) == NoFailure || Outcome(a).ProcEnt?) && AllCreated(a)
    {
      res := Setup(a);
      NoStaleSetup(a, Outcome(a));
      ZeroResult(a, |devs|, |procents|, res);
      if res == 0 {
        NoStale(region, procdir, devs);
        assert Outcome(a) == NoFailure ==> forall i :: 0 <= i < |devs| ==> Releasable(devs[i]) == a.devices[i];
        Cleanup();
      }
    }
  }

  /** The answers of a kernel that refuses the first of two classes. */
  const FIRST_CLASS_FAILS := Answers(0, [false, true], [0, 0], [true, true], [0, 0], true, [true, true])

  /**
   * Two devices, and the first class_create fails: setup reports 0 with nothing held, after releasing
   * seven things that were never there; the unload that the 0 allows releases those and the region again.
   */
  lemma {:induction false} FirstClassFails()
    ensures Outcome(FIRST_CLASS_FAILS) == Class(0) && Reports(FIRST_CLASS_FAILS, Class(0), 0)
    ensures var once := [RemoveDir, CdevDel(0), DeviceDestroy(0), ClassDestroy(0),
                         CdevDel(1), DeviceDestroy(1), ClassDestroy(1)];
            && SetupStale(FIRST_CLASS_FAILS, Class(0)) == once
            && Stale(false, false, [NOTHING, NOTHING]) == once + [Unregister]
  {
    var devs := DevicesAt(FIRST_CLASS_FAILS, Class(0));
    assert devs == [NOTHING, NOTHING];
    assert StaleDevices(devs, 1) == StaleDevices(devs, 0) + StaleDevice(NOTHING, 0);
    assert StaleDevices(devs, 2) == StaleDevices(devs, 1) + StaleDevice(NOTHING, 1);
  }

  /** One device, every checked call successful, but no device node: the load succeeds. */
  const NO_DEVICE_NODE := Answers(0, [true], [0], [false], [0], true, [true])

  /** Setup cannot tell this from a full success; the unload then destroys a device that was never created. */
  lemma {:induction false} NoDeviceNode()
    ensures Outcome(NO_DEVICE_NODE) == NoFailure && SetupStale(NO_DEVICE_NODE, NoFailure) == []
    ensures Stale(true, true, [Full(NO_DEVICE_NODE, 0)]) == [DeviceDestroy(0)]
  {
    var a := NO_DEVICE_NODE;
    assert FirstProcFailure(a, 0) == FirstProcFailure(a, 1) == NoFailure;
    assert FirstFailure(a, 0) == FirstFailure(a, 1) == ProcOutcome(a);
    var devs := [Full(a, 0)];
    assert StaleDevices(devs, 1) == StaleDevices(devs, 0) + StaleDevice(devs[0], 0);
  }
}
