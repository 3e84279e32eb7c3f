/** The choice of a CPU to migrate to in src/test_mck/src/sched_setaffinity/008.c and 009.c. */
module MigrateTarget {

  /** get_migrate_target_cpuid. */
  function Target(parent: int, child: int, target: int): (r: int)
    ensures r <= target
    decreases if target >= 0 then target + 2 else if target == child then 1 else 0
  {
    var t := if child == target then Target(parent, child, target - 1) else target;
    if t >= 0 && parent == t then Target(parent, child, t - 1) else t
  }

  /** A CPU that hosts neither process; a negative number never counts as the parent's CPU. */
  predicate Free(parent: int, child: int, cpu: int) {
    cpu != child && !(cpu >= 0 && cpu == parent)
  }

  /** The result is the largest free CPU at or below the target. */
  lemma {:induction false} TargetIsLargestFree(parent: int, child: int, target: int)
    ensures Free(parent, child, Target(parent, child, target))
    ensures forall cpu :: Target(parent, child, target) < cpu <= target ==> !Free(parent, child, cpu)
    decreases if target >= 0 then target + 2 else if target == child then 1 else 0
  {
    var t := target;
    if child == target {
      TargetIsLargestFree(parent, child, target - 1);
      t := Target(parent, child, target - 1);
    }
    if t >= 0 && parent == t {
      TargetIsLargestFree(parent, child, t - 1);
    }
  }

  /** With three CPUs or more there is always one to migrate to. */
  lemma {:induction false} TargetExists(parent: int, child: int, cpus: int)
    requires cpus >= 3
    ensures 0 <= Target(parent, child, cpus - 1) < cpus
  {
    TargetIsLargestFree(parent, child, cpus - 1);
    assert Free(parent, child, cpus - 1) || Free(parent, child, cpus - 2) || Free(parent, child, cpus - 3);
  }

  /**
   * The inline choice of 009.  It never picks the child's CPU, and it agrees with 008 except when the
   * parent alone sits on the last CPU: there it picks the parent's CPU.
   */
  method InlineChoice(parent: int, child: int, cpus: int) returns (migrate: int)
    requires cpus >= 3
    ensures migrate != child && 0 <= migrate < cpus
    ensures migrate == Target(parent, child, cpus - 1) <==> !(parent == cpus - 1 && child != cpus - 1)
    ensures parent == cpus - 1 && child != cpus - 1 ==> migrate == parent
  {
    migrate := cpus - 1;
    if migrate == child {
      migrate := migrate - 1;
      if migrate == parent {
        migrate := migrate - 1;
      }
    }
    TargetIsLargestFree(parent, child, cpus - 1);
    assert Free(parent, child, cpus - 1) || Free(parent, child, cpus - 2) || Free(parent, child, cpus - 3);
  }
}
