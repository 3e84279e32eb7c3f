/**
 * The stack consumer of src/test_mck/src/mem_stack_limits/000.c: the split of a byte count into
 * GiB, MiB and KiB, the mutual recursion that uses one local array per unit, and the loop that
 * touches every page of such an array while keeping its counter inside that array.
 */
module StackConsumer {
  import opened Prelude

  const KIB: nat := 0x400
  const MIB: nat := 0x100000
  const GIB: nat := 0x40000000

  // ----- value_to_unit

  /** Conversion of an int to size_t and back into the 64-bit range. */
  function ToSize(x: int): SizeT {
    x % TWO64
  }

  /** What the three counts stand for. */
  function Units(gib: int, mib: int, kib: int): int {
    gib * GIB + mib * MIB + kib * KIB
  }

  const TWO61: int := 0x2000_0000_0000_0000
  const TWO62: int := 0x4000_0000_0000_0000

  /** The bit that becomes the sign of the GiB count is clear. */
  predicate SignClear(value: SizeT) {
    value % TWO62 < TWO61
  }

  /** Multiples of 2^62 stay in front of the quotients by a GiB, a MiB and a KiB. */
  lemma {:induction false} QuotientOfSum(h: nat, x: nat)
    ensures (h * TWO62 + x) / GIB == h * 0x1_0000_0000 + x / GIB
    ensures (h * TWO62 + x) / MIB == h * 0x400_0000_0000 + x / MIB
    ensures (h * TWO62 + x) / KIB == h * 0x10_0000_0000_0000 + x / KIB
    ensures (h * TWO62 + x) % KIB == x % KIB
  {
  }

  lemma {:induction false} WrapsAway(q: nat, x: nat)
    requires x < 0x8000_0000
    ensures ToInt(q * TWO32 + x) == x
  {
  }

  /** The low 32 bits of a quotient do not see the multiples of 2^32 in front of it. */
  lemma {:induction false} ToIntOfSum(h: nat, x: nat)
    requires x < 0x8000_0000
    ensures ToInt(h * 0x1_0000_0000 + x) == ToInt(h * 0x400_0000_0000 + x) == x
    ensures ToInt(h * 0x10_0000_0000_0000 + x) == x
  {
    WrapsAway(h, x);
    WrapsAway(h * 1024, x);
    WrapsAway(h * 0x10_0000, x);
  }

  /** The GiB count that the first assignment stores is the true one modulo 2^32, and may be negative. */
  lemma {:induction false} GibCount(value: SizeT)
    ensures SignClear(value) ==> ToInt(value / GIB) == value % TWO62 / GIB
    ensures !SignClear(value) ==> ToInt(value / GIB) < 0
  {
    var h, x := value / TWO62, value % TWO62;
    QuotientOfSum(h, x);
    assert (h * 0x1_0000_0000 + x / GIB) % TWO32 == x / GIB;
  }

  /** What is left after the whole GiB, split into MiB and KiB. */
  lemma {:induction false} SmallUnits(rest: int)
    requires 0 <= rest < GIB
    ensures rest / MIB < 1024 && (rest - rest / MIB * MIB) / KIB < 1024
    ensures rest / MIB * MIB + (rest - rest / MIB * MIB) / KIB * KIB == rest - rest % KIB
    ensures 0 <= rest - rest / MIB * MIB < MIB
  {
    var m := rest / MIB;
    var s := rest - m * MIB;
    var k := s / KIB;
    assert s - k * KIB == s % KIB;
    assert rest == (m * 1024 + k) * KIB + s % KIB;
  }

  lemma {:induction false} ToIntSmall(x: int)
    requires 0 <= x < 0x8000_0000
    ensures ToInt(x) == x && ToSize(x) == x
  {
  }

  /** Whole GiB in front change neither the KiB remainder nor the rest of the split. */
  lemma {:induction false} AddGib(g: nat, rest: int)
    requires 0 <= rest < GIB
    ensures (g * GIB + rest) % KIB == rest % KIB
  {
    var q, t := rest / KIB, rest % KIB;
    var n := g * 0x100000 + q;
    assert g * GIB + rest == n * KIB + t;
    assert (n * KIB + t) / KIB == n;
  }

  /** The MiB and KiB counts are those of the part below 2^62. */
  lemma {:induction false} LowCounts(h: nat, rest: nat)
    requires h < 4 && rest < GIB
    ensures var tmp := h * TWO62 + rest;
            var mib := rest / MIB;
            var tmp' := tmp - mib * MIB;
            && ToInt(tmp / MIB) == mib < 1024
            && ToSize(tmp - ToInt(mib * MIB)) == tmp'
            && ToInt(tmp' / KIB) == (rest - mib * MIB) / KIB < 1024
  {
    SmallUnits(rest);
    var mib := rest / MIB;
    QuotientOfSum(h, rest);
    ToIntOfSum(h, mib);
    ToIntSmall(mib * MIB);
    QuotientOfSum(h, rest - mib * MIB);
    ToIntOfSum(h, (rest - mib * MIB) / KIB);
  }

  /** With the sign bit clear the split is the exact split of the value modulo 2^62. */
  lemma {:induction false} ClearUnits(value: SizeT, tmp: SizeT)
    requires SignClear(value) && tmp == value - value % TWO62 / GIB * GIB
    ensures var mib := ToInt(tmp / MIB);
            var tmp' := ToSize(tmp - ToInt(mib * MIB));
            var kib := ToInt(tmp' / KIB);
            && 0 <= mib < 1024 && 0 <= kib < 1024
            && Units(value % TWO62 / GIB, mib, kib) == value % TWO62 - value % KIB
  {
    var h, low := value / TWO62, value % TWO62;
    var rest := low - low / GIB * GIB;
    assert tmp == h * TWO62 + rest;
    LowCounts(h, rest);
    SmallUnits(rest);
    AddGib(low / GIB, rest);
    QuotientOfSum(h, low);
  }

  lemma {:induction false} SmallIff(value: SizeT)
    requires SignClear(value)
    ensures value % TWO62 == value <==> value < TWO61
  {
  }

  /** An int's worth of MiB and of KiB cannot make up for a negative GiB count. */
  lemma {:induction false} NegativeUnits(value: SizeT, gib: Int32, mib: Int32, kib: Int32)
    requires value >= TWO61 && gib < 0
    ensures Units(gib, mib, kib) < value - value % KIB
  {
  }

  /** The loop that subtracts the whole GiB; a negative count subtracts nothing. */
  method TakeGib(value: SizeT, gib: Int32) returns (tmp: SizeT)
    requires gib * GIB <= value
    ensures tmp == if gib >= 0 then value - gib * GIB else value
  {
    tmp := value;
    var i := 0;
    while i < gib
      invariant 0 <= i && (gib >= 0 ==> i <= gib) && (gib < 0 ==> i == 0)
      invariant tmp == value - i * GIB
    {
      tmp := ToSize(tmp - GIB);
      i := i + 1;
    }
  }

  /**
   * value_to_unit.  With bit 61 clear the counts are non-negative, MiB and KiB below 1024, and they
   * stand for the value modulo 2^62 without its part of a KiB; with bit 61 set the GiB count is
   * negative.  So the split is exact exactly below 2^61.
   */
  method ValueToUnit(value: SizeT) returns (gib: Int32, mib: Int32, kib: Int32)
    ensures SignClear(value) ==>
              && 0 <= gib && 0 <= mib < 1024 && 0 <= kib < 1024
              && Units(gib, mib, kib) == value % TWO62 - value % KIB
    ensures !SignClear(value) ==> gib < 0
    ensures Units(gib, mib, kib) == value - value % KIB <==> value < TWO61
  {
    GibCount(value);
    gib := ToInt(value / GIB);
    var tmp := TakeGib(value, gib);
    ghost var rest := tmp;
    mib := ToInt(tmp / MIB);
    tmp := ToSize(tmp - ToInt(mib * MIB));
    kib := ToInt(tmp / KIB);
    tmp := ToSize(tmp - ToInt(kib * KIB));
    if SignClear(value) {
      ClearUnits(value, rest);
      SmallIff(value);
    } else {
      NegativeUnits(value, gib, mib, kib);
    }
  }

  // ----- the page-touch loop

  /** The number that a little-endian run of bytes stores. */
  function Load(bytes: seq<Byte>): nat {
    if bytes == [] then 0 else bytes[0] + 256 * Load(bytes[1..])
  }

  /** The n low bytes of v, lowest first. */
  function Store(v: nat, n: nat): (r: seq<Byte>)
    ensures |r| == n
  {
    if n == 0 then [] else [v % 256] + Store(v / 256, n - 1)
  }

  function Pow256(n: nat): nat {
    if n == 0 then 1 else 256 * Pow256(n - 1)
  }

  lemma {:induction false} LoadStore(v: nat, n: nat)
    requires v < Pow256(n)
    ensures Load(Store(v, n)) == v
  {
    if n > 0 {
      LoadStore(v / 256, n - 1);
      assert Store(v, n)[1..] == Store(v / 256, n - 1);
    }
  }

  lemma {:induction false} Quotient(x: nat, d: nat, q: nat)
    requires d > 0 && q * d <= x < q * d + d
    ensures x / d == q
  {
    var e := x / d;
    assert e * d <= x < e * d + d;
    assert (q - e) * d < d && (e - q) * d < d;
    assert q - e >= 1 ==> (q - e) * d >= d;
    assert e - q >= 1 ==> (e - q) * d >= d;
  }

  lemma {:induction false} DivTwice(v: nat, d: nat)
    requires d > 0
    ensures v / 256 / d == v / (256 * d)
  {
    var w := v / 256;
    var q := w / d;
    assert w == q * d + w % d;
    assert q * (256 * d) == 256 * (q * d);
    Quotient(v, 256 * d, q);
  }

  /** Byte i of the stored number is its i-th digit to base 256, the lowest first. */
  lemma {:induction false} StoreByte(v: nat, n: nat, i: nat)
    requires i < n
    ensures Pow256(i) > 0 && Store(v, n)[i] == v / Pow256(i) % 256
  {
    if i > 0 {
      StoreByte(v / 256, n - 1, i - 1);
      DivTwice(v, Pow256(i - 1));
    }
  }

  lemma {:induction false} Pow256Of8()
    ensures Pow256(8) == TWO64
  {
    assert Pow256(3) == 0x100_0000;
    assert Pow256(6) == 0x1_0000_0000_0000;
  }

  /** tmp[1] of a buffer of unsigned longs. */
  function Counter(buffer: seq<Byte>): nat
    requires |buffer| >= 16
  {
    Load(buffer[8..16])
  }

  method SetCounter(tmp: array<Byte>, v: nat)
    requires tmp.Length >= 16 && v < TWO64
    modifies tmp
    ensures Counter(tmp[..]) == v
    ensures forall j :: 0 <= j < tmp.Length && !(8 <= j < 16) ==> tmp[j] == old(tmp[j])
  {
    var bytes := Store(v, 8);
    for i := 0 to 8
      invariant forall j :: 0 <= j < i ==> tmp[8 + j] == bytes[j]
      invariant forall j :: 0 <= j < tmp.Length && !(8 <= j < 16) ==> tmp[j] == old(tmp[j])
    {
      tmp[8 + i] := bytes[i];
    }
    assert tmp[..][8..16] == bytes;
    Pow256Of8();
    LoadStore(v, 8);
  }

  /** Byte j is the first of one of the first n pages. */
  predicate TouchedByte(j: nat, n: nat) {
    j % PAGE_SIZE == 0 && j < n * PAGE_SIZE
  }

  /** Outside the counter, only the first bytes of the first n pages have changed. */
  ghost predicate Touched(before: seq<Byte>, now: seq<Byte>, n: nat) {
    && |before| == |now|
    && forall j :: 0 <= j < |now| && !(8 <= j < 16) ==> now[j] == if TouchedByte(j, n) then 0xFF else before[j]
  }

  lemma {:induction false} TouchedNext(j: nat, n: nat)
    ensures TouchedByte(j, n + 1) <==> TouchedByte(j, n) || j == n * PAGE_SIZE
  {
  }

  lemma {:induction false} TouchStep(before: seq<Byte>, now: seq<Byte>, after: seq<Byte>, n: nat)
    requires Touched(before, now, n) && n * PAGE_SIZE < |now| == |after|
    requires forall j :: 0 <= j < |now| && !(8 <= j < 16) ==> after[j] == if j == n * PAGE_SIZE then 0xFF else now[j]
    ensures Touched(before, after, n + 1)
  {
    forall j | 0 <= j < |now| && !(8 <= j < 16)
      ensures after[j] == if TouchedByte(j, n + 1) then 0xFF else before[j]
    {
      TouchedNext(j, n);
    }
  }

  /** The memset of one byte at a page boundary: the counter, in bytes 8 to 15, is not on one. */
  method TouchOne(tmp: array<Byte>, off: nat)
    requires 16 <= tmp.Length && off < tmp.Length && !(8 <= off < 16)
    modifies tmp
    ensures tmp[..] == old(tmp[..])[off := 0xFF]
    ensures Counter(tmp[..]) == Counter(old(tmp[..]))
  {
    tmp[off] := 0xFF;
    assert tmp[..][8..16] == old(tmp[..][8..16]);
  }

  /**
   * The loop of kib_func, mib_func and gib_func.  Its counter lives in bytes 8 to 15 of the buffer
   * whose pages it touches.  It ends, having set the first byte of every page and nothing else but
   * the counter, which is left at the first page boundary at or past the end.
   */
  method TouchPages(tmp: array<Byte>)
    requires 16 <= tmp.Length && tmp.Length + PAGE_SIZE <= TWO64
    modifies tmp
    ensures forall j :: 0 <= j < tmp.Length && !(8 <= j < 16) ==>
              tmp[j] == if j % PAGE_SIZE == 0 then 0xFF else old(tmp[j])
    ensures tmp.Length <= Counter(tmp[..]) < tmp.Length + PAGE_SIZE && Counter(tmp[..]) % PAGE_SIZE == 0
  {
    SetCounter(tmp, 0);
    ghost var n := 0;
    while Counter(tmp[..]) < tmp.Length
      invariant Counter(tmp[..]) == n * PAGE_SIZE < tmp.Length + PAGE_SIZE
      invariant Touched(old(tmp[..]), tmp[..], n)
      decreases tmp.Length + PAGE_SIZE - n * PAGE_SIZE
    {
      ghost var now := tmp[..];
      TouchOne(tmp, Counter(tmp[..]));
      SetCounter(tmp, Counter(tmp[..]) + PAGE_SIZE);
      TouchStep(old(tmp[..]), now, tmp[..], n);
      n := n + 1;
    }
    assert forall j :: 0 <= j < tmp.Length ==> (TouchedByte(j, n) <==> j % PAGE_SIZE == 0);
  }

  // ----- the recursion

  /** The lengths of the arrays on the stack, outermost first. */
  function Lengths(stack: seq<array<Byte>>): (r: seq<int>)
    ensures |r| == |stack| && forall i :: 0 <= i < |stack| ==> r[i] == stack[i].Length
  {
    seq(|stack|, i requires 0 <= i < |stack| => stack[i].Length)
  }

  /** Array number i of a chain that uses up those counts: first the GiB arrays, then the MiB, then the KiB ones. */
  function UnitAt(gib: nat, mib: nat, i: int): nat {
    if i < gib then 0x4000_0000 else if i < gib + mib then 0x10_0000 else 0x400
  }

  /** The chain added to the stack, by the sizes of its arrays. */
  ghost predicate Chained(before: seq<array<Byte>>, now: seq<array<Byte>>, gib: nat, mib: nat, kib: nat) {
    && |now| == |before| + gib + mib + kib && before <= now
    && forall i {:trigger now[i]} :: |before| <= i < |now| ==> now[i].Length == UnitAt(gib, mib, i - |before|)
  }

  /** The first byte of every page of an array is set. */
  ghost predicate AllTouched(tmp: array<Byte>)
    reads tmp
  {
    forall j :: 0 <= j < tmp.Length && j % 4096 == 0 ==> tmp[j] == 0xFF
  }

  lemma {:induction false} SumUnits(s: seq<int>, g: nat, m: nat, k: nat)
    requires |s| >= g + m + k
    requires forall i :: |s| - g - m - k <= i < |s| ==> s[i] == UnitAt(g, m, i - (|s| - g - m - k))
    ensures Sum(s) == Sum(s[..|s| - g - m - k]) + Units(g, m, k)
  {
    var last := |s| - 1;
    if k > 0 {
      SumUnits(s[..last], g, m, k - 1);
      assert s[..last][..last - g - m - (k - 1)] == s[..|s| - g - m - k];
    } else if m > 0 {
      SumUnits(s[..last], g, m - 1, 0);
      assert s[..last][..last - g - (m - 1)] == s[..|s| - g - m];
    } else if g > 0 {
      SumUnits(s[..last], g - 1, 0, 0);
      assert s[..last][..last - (g - 1)] == s[..|s| - g];
    } else {
      assert s[..|s|] == s;
    }
  }

  /** One more array in front of a chain. */
  lemma {:induction false} ChainStep(before: seq<array<Byte>>, tmp: array<Byte>, now: seq<array<Byte>>,
                                     gib: nat, mib: nat, kib: nat)
    requires Chained(before + [tmp], now, gib, mib, kib)
    ensures tmp.Length == 0x4000_0000 ==> Chained(before, now, gib + 1, mib, kib)
    ensures tmp.Length == 0x10_0000 && gib == 0 ==> Chained(before, now, 0, mib + 1, kib)
    ensures tmp.Length == 0x400 && gib == mib == 0 ==> Chained(before, now, 0, 0, kib + 1)
    ensures |before| < |now| && now[|before|] == tmp
  {
    assert (before + [tmp])[|before|] == tmp;
    assert before <= before + [tmp];
  }

  /** The globals of the program, and the local arrays of the call chain. */
  class Consumer {
    var kib: int
    var mib: int
    var gib: int
    var stack: seq<array<Byte>>

    constructor ()
      ensures kib == 0 && mib == 0 && gib == 0 && stack == []
    {
      kib, mib, gib, stack := 0, 0, 0, [];
    }

    method KibFunc()
      requires kib > 0 && gib == mib == 0
      modifies this
      ensures gib == mib == kib == 0 && Chained(old(stack), stack, 0, 0, old(kib))
      ensures forall i {:trigger stack[i]} :: |old(stack)| <= i < |stack| ==> fresh(stack[i]) && AllTouched(stack[i])
      decreases gib + mib + kib, 0
    {
      var tmp := new Byte[KIB];
      TouchPages(tmp);
      stack := stack + [tmp];
      kib := kib - 1;
      StackLimitFunc();
      ChainStep(old(stack), tmp, stack, 0, 0, old(kib) - 1);
    }

    method MibFunc()
      requires mib > 0 && kib >= 0 && gib == 0
      modifies this
      ensures gib == mib == kib == 0 && Chained(old(stack), stack, 0, old(mib), old(kib))
      ensures forall i {:trigger stack[i]} :: |old(stack)| <= i < |stack| ==> fresh(stack[i]) && AllTouched(stack[i])
      decreases gib + mib + kib, 0
    {
      var tmp := new Byte[MIB];
      TouchPages(tmp);
      stack := stack + [tmp];
      mib := mib - 1;
      StackLimitFunc();
      ChainStep(old(stack), tmp, stack, 0, old(mib) - 1, old(kib));
    }

    method GibFunc()
      requires gib > 0 && mib >= 0 && kib >= 0
      modifies this
      ensures gib == mib == kib == 0 && Chained(old(stack), stack, old(gib), old(mib), old(kib))
      ensures forall i {:trigger stack[i]} :: |old(stack)| <= i < |stack| ==> fresh(stack[i]) && AllTouched(stack[i])
      decreases gib + mib + kib, 0
    {
      var tmp := new Byte[GIB];
      TouchPages(tmp);
      stack := stack + [tmp];
      gib := gib - 1;
      StackLimitFunc();
      ChainStep(old(stack), tmp, stack, old(gib) - 1, old(mib), old(kib));
    }

    /**
     * stack_limit_func: uses up all counts, the biggest unit first, and ends.  What it leaves on the
     * stack are new arrays of those sizes, the first byte of every page set.
     */
    method StackLimitFunc()
      requires gib >= 0 && mib >= 0 && kib >= 0
      modifies this
      ensures gib == mib == kib == 0 && Chained(old(stack), stack, old(gib), old(mib), old(kib))
      ensures forall i {:trigger stack[i]} :: |old(stack)| <= i < |stack| ==> fresh(stack[i]) && AllTouched(stack[i])
      decreases gib + mib + kib, 1
    {
      if gib != 0 {
        GibFunc();
      } else if mib != 0 {
        MibFunc();
      } else if kib != 0 {
        KibFunc();
      }
    }

    /**
     * The run function.  It refuses 0; otherwise the arrays of the chain add up to the value modulo
     * 2^62, less its part of a KiB.  With bit 61 set the GiB count starts out negative and the
     * recursion has no end.
     */
    method Consume(value: SizeT) returns (ok: bool)
      requires SignClear(value)
      modifies this
      ensures ok <==> value != 0
      ensures !ok ==> unchanged(this)
      ensures ok ==> gib == mib == kib == 0
      ensures ok ==> exists g: nat, m: nat, k: nat :: m < 1024 && k < 1024 && Chained(old(stack), stack, g, m, k)
      ensures ok ==> Sum(Lengths(stack)) == Sum(Lengths(old(stack))) + value % TWO62 - value % 1024
      ensures forall i {:trigger stack[i]} :: |old(stack)| <= i < |stack| ==> fresh(stack[i]) && AllTouched(stack[i])
    {
      ok := value != 0;
      if !ok {
        return;
      }
      gib, mib, kib := ValueToUnit(value);
      ghost var g, m, k := gib, mib, kib;
      StackLimitFunc();
      assert Lengths(stack)[..|old(stack)|] == Lengths(old(stack));
      SumUnits(Lengths(stack), g, m, k);
    }
  }
}
