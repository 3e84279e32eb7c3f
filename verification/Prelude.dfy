/** Small definitions shared by the models: options, machine sizes, finite sums. */
module Prelude {

  datatype Option<+T> = None | Some(value: T)

  /** How a test ends: no check fires, one does, or a signal (SIGSEGV, SIGBUS) stops the program. */
  datatype Verdict = Pass | Fail | Signal

  const PAGE_SIZE: nat := 4096

  const INT_MAX: int := 0x7fff_ffff
  const TWO32: int := 0x1_0000_0000
  const TWO63: int := 0x8000_0000_0000_0000
  const TWO64: int := 0x1_0000_0000_0000_0000

  type SizeT = x: int | 0 <= x < 0x1_0000_0000_0000_0000
  type Int32 = x: int | -0x8000_0000 <= x < 0x8000_0000
  type Byte = x: int | 0 <= x < 256

  const CHAR_Z: Byte := 90

  const ENOMEM: int := 12
  const EFAULT: int := 14
  const EINVAL: int := 22

  /** The numbers behind the names. */
  lemma {:induction false} Numbers()
    ensures PAGE_SIZE == 4096 && INT_MAX == 2147483647 && CHAR_Z == 'Z' as int
    ensures TWO32 == 65536 * 65536 && TWO63 == TWO32 * 2147483648 && TWO64 == TWO32 * TWO32
    ensures ENOMEM == 12 && EFAULT == 14 && EINVAL == 22
  {
  }

  /** Conversion to int: the low 32 bits, read as two's complement. */
  function ToInt(x: int): (r: Int32)
    ensures 0 <= x < 0x8000_0000 ==> r == x
  {
    var m := x % TWO32;
    if m < 0x8000_0000 then m else m - TWO32
  }

  function Min(a: int, b: int): int {
    if a < b then a else b
  }

  function Bit(b: bool): int {
    if b then 1 else 0
  }

  /** The naturals below n, in order. */
  function Iota(n: nat): (r: seq<nat>)
    ensures |r| == n
  {
    seq(n, i => i)
  }

  /** Sum of a sequence, built from the right end. */
  function Sum(s: seq<int>): int {
    if s == [] then 0 else Sum(s[..|s| - 1]) + s[|s| - 1]
  }

  lemma {:induction false} SumUpdate(s: seq<int>, k: nat, x: int)
    requires k < |s|
    ensures Sum(s[k := x]) == Sum(s) - s[k] + x
  {
    var m := |s| - 1;
    if k == m {
      assert s[k := x][..m] == s[..m];
    } else {
      assert s[k := x][..m] == s[..m][k := x];
      SumUpdate(s[..m], k, x);
    }
  }

  lemma {:induction false} SumAtLeast(s: seq<int>, lo: int)
    requires forall i :: 0 <= i < |s| ==> lo <= s[i]
    ensures lo * |s| <= Sum(s)
  {
    if s != [] {
      SumAtLeast(s[..|s| - 1], lo);
    }
  }

  lemma {:induction false} SumAtMost(s: seq<int>, hi: int)
    requires forall i :: 0 <= i < |s| ==> s[i] <= hi
    ensures Sum(s) <= hi * |s|
  {
    if s != [] {
      SumAtMost(s[..|s| - 1], hi);
    }
  }

  /** An entry never exceeds a sum whose entries are all non-negative. */
  lemma {:induction false} SumMember(s: seq<int>, k: nat)
    requires k < |s|
    requires forall i :: 0 <= i < |s| ==> 0 <= s[i]
    ensures s[k] <= Sum(s)
  {
    SumUpdate(s, k, 0);
    SumAtLeast(s[k := 0], 0);
  }

  /** Entries at most 1 that add up to the length are all 1. */
  lemma {:induction false} SumFull(s: seq<int>, k: nat)
    requires k < |s|
    requires forall i :: 0 <= i < |s| ==> s[i] <= 1
    requires Sum(s) >= |s|
    ensures s[k] == 1
  {
    SumUpdate(s, k, 1);
    SumAtMost(s[k := 1], 1);
  }

  /** A positive sum has a positive entry. */
  lemma {:induction false} SumPositive(s: seq<int>) returns (k: nat)
    requires Sum(s) > 0
    ensures k < |s| && s[k] > 0
  {
    k := |s| - 1;
    if s[k] <= 0 {
      k := SumPositive(s[..k]);
    }
  }
}
