/** The address-space formatter and checkers of src/test_mck/src/mremap_mmap_anon/mremap_mmap_anon.c. */
module MremapAnon {
  import opened Prelude
  import opened AddressSpace

  /** struct mremap_mmap_anon_param; an addr of None is MAP_FAILED. */
  datatype Param = Param(addr: Option<nat>, size: SizeT, nopage: bool, shared: bool, prot: Prot)

  /** What the caller asks for: the params without their addresses. */
  function Requests(params: seq<Param>): (r: seq<Param>)
    ensures |r| == |params|
  {
    seq(|params|, i requires 0 <= i < |params| => params[i].(addr := None))
  }

  /** Where region i begins, relative to the reserved base: the exact sum of the sizes before it. */
  function Offset(params: seq<Param>, i: nat): (r: nat)
    requires i <= |params|
  {
    if i == 0 then 0 else Offset(params, i - 1) + params[i - 1].size
  }

  lemma {:induction false} OffsetAscends(params: seq<Param>, i: nat, j: nat)
    requires i <= j <= |params|
    ensures Offset(params, i) <= Offset(params, j)
    decreases j - i
  {
    if i < j {
      OffsetAscends(params, i, j - 1);
    }
  }

  /** The fill byte of region i: (char)('0' + i). */
  function FillByte(i: nat): Byte {
    (48 + i) % 256
  }

  /** What the formatter leaves in each byte of region i. */
  function RegionCell(p: Param, i: nat): Option<Cell> {
    if p.nopage then None
    else Some(Cell(if p.prot.write then FillByte(i) else 0, p.prot, p.shared))
  }

  /** What it leaves behind the end of the region, up to the next page. */
  function TailCell(p: Param): Option<Cell> {
    if p.nopage then None else Some(Cell(0, p.prot, p.shared))
  }

  /** One byte of region i as the request says, the fill character being '0' + i as a char. */
  predicate AsAsked(p: Param, i: nat, byte: Option<Cell>) {
    if p.nopage then byte == None
    else
      && byte.Some? && byte.value.prot == p.prot && byte.value.shared == p.shared
      && byte.value.val == if p.prot.write then (48 + i) % 256 else 0
  }

  predicate InRegion(params: seq<Param>, base: int, i: nat, a: int)
    requires i < |params|
  {
    base + Offset(params, i) <= a < base + Offset(params, i + 1)
  }

  /**
   * The memory when the first n regions are done: each of them as asked for, the rest of the last
   * one's last page up to `next` as its mapping left it, the reservation [base, limit) untouched from
   * there on, everything outside it as it was.
   */
  ghost predicate Formatted(before: Memory, now: Memory, params: seq<Param>, base: int, n: nat, next: int, limit: int)
    requires n <= |params|
  {
    && (forall i, a {:trigger InRegion(params, base, i, a)} ::
          0 <= i < n && InRegion(params, base, i, a) ==> At(now, a) == RegionCell(params[i], i))
    && (n > 0 ==> forall a :: base + Offset(params, n) <= a < next ==> At(now, a) == TailCell(params[n - 1]))
    && (forall a :: next <= a < limit ==> At(now, a) == Some(Cell(0, Prot(false, false), true)))
    && (forall a :: !(base <= a < limit) ==> At(now, a) == At(before, a))
  }

  /** Region i can be mapped or unmapped where it falls. */
  predicate Placeable(params: seq<Param>, base: nat, grants: seq<bool>, i: nat)
    requires i < |params| == |grants|
  {
    Aligned(base + Offset(params, i)) && params[i].size > 0 && grants[i]
  }

  /** One round of the formatting loop: only [its start, next) changes. */
  lemma {:induction false} FormatStep(before: Memory, now: Memory, after: Memory, params: seq<Param>,
                                      base: int, i: nat, next: int, limit: int)
    requires i < |params| && Formatted(before, now, params, base, i, base + Offset(params, i), limit)
    requires base + Offset(params, i + 1) <= next <= limit
    requires forall a :: !(base + Offset(params, i) <= a < next) ==> At(after, a) == At(now, a)
    requires forall a :: InRegion(params, base, i, a) ==> At(after, a) == RegionCell(params[i], i)
    requires forall a :: base + Offset(params, i + 1) <= a < next ==> At(after, a) == TailCell(params[i])
    ensures Formatted(before, after, params, base, i + 1, next, limit)
  {
    forall k, a | 0 <= k < i + 1 && InRegion(params, base, k, a)
      ensures At(after, a) == RegionCell(params[k], k)
    {
      if k < i {
        OffsetAscends(params, k + 1, i);
      }
    }
  }

  /** The running-sum test of the source: the 64-bit sum wrapped. */
  predicate Wraps(total: SizeT, size: SizeT) {
    (total + size) % TWO64 < total
  }

  /** A wrapped sum is smaller than what it was added to, and only a wrapped one is. */
  lemma {:induction false} WrapsIffOverflow(total: SizeT, size: SizeT)
    ensures Wraps(total, size) <==> total + size >= TWO64
  {
  }

  /** How many sizes, from number i on, are added up before the sum leaves 64 bits. */
  function Summed(ps: seq<Param>, i: nat): (n: nat)
    requires i <= |ps|
    ensures i <= n <= |ps|
    decreases |ps| - i
  {
    if i == |ps| || Offset(ps, i + 1) >= TWO64 then i else Summed(ps, i + 1)
  }

  /** The params with the first n addresses set to MAP_FAILED. */
  function Cleared(ps: seq<Param>, n: nat): (r: seq<Param>)
    requires n <= |ps|
    ensures |r| == |ps|
  {
    Requests(ps)[..n] + ps[n..]
  }

  /**
   * The first loop: the running 64-bit sum.  It gives up exactly when the mathematical total does
   * not fit in a size_t.
   */
  method SumSizes(params: array<Param>) returns (total: Option<SizeT>)
    modifies params
    ensures total.Some? <==> Offset(Requests(old(params[..])), params.Length) < TWO64
    ensures total.Some? ==> total.value == Offset(Requests(old(params[..])), params.Length)
    ensures params[..] == Cleared(old(params[..]), Summed(Requests(old(params[..])), 0))
    ensures total.Some? ==> params[..] == Requests(old(params[..]))
  {
    ghost var was, ps := params[..], Requests(params[..]);
    var sum: SizeT := 0;
    var i := 0;
    while i < params.Length
      invariant 0 <= i <= params.Length
      invariant sum == Offset(ps, i)
      invariant forall k :: 0 <= k < i ==> params[k] == ps[k]
      invariant forall k :: i <= k < params.Length ==> params[k] == was[k]
      invariant Summed(ps, 0) == Summed(ps, i)
    {
      WrapsIffOverflow(sum, params[i].size);
      if Wraps(sum, params[i].size) {
        OffsetAscends(ps, i + 1, params.Length);
        return None;
      }
      sum := sum + params[i].size;
      params[i] := params[i].(addr := None);
      i := i + 1;
    }
    return Some(sum);
  }

  /** The body of the second loop: unmap a hole, or map a region and fill it when it is writable. */
  method FormatRegion(k: Kernel, p: Param, addr: nat, i: nat, grant: bool) returns (ok: bool)
    modifies k`mem
    ensures ok <==> Aligned(addr) && p.size > 0 && grant
    ensures !ok ==> k.mem == old(k.mem)
    ensures ok ==> forall a :: !(addr <= a < addr + RoundUp(p.size)) ==> At(k.mem, a) == At(old(k.mem), a)
    ensures ok ==> forall a :: addr <= a < addr + p.size ==> At(k.mem, a) == RegionCell(p, i)
    ensures ok ==> forall a :: addr <= a < addr + p.size ==> AsAsked(p, i, At(k.mem, a))
    ensures ok ==> forall a :: addr + p.size <= a < addr + RoundUp(p.size) ==> At(k.mem, a) == TailCell(p)
  {
    if p.nopage {
      ok := k.Munmap(addr, p.size, grant);
    } else {
      ok := k.MmapFixed(addr, p.size, p.prot, p.shared, grant);
      if ok && p.prot.write {
        assert forall a :: Within(a, addr, p.size) ==> At(k.mem, a) == Some(Cell(0, p.prot, p.shared));
        var filled := k.Memset(addr, FillByte(i), p.size);
        assert filled;
      }
    }
  }

  /** The formatted state at the head of the second loop, before region n. */
  ghost predicate Progress(before: Memory, now: Memory, params: seq<Param>, base: nat, n: nat)
    requires n <= |params|
  {
    Formatted(before, now, params, base, n,
              base + RoundUp(Offset(params, n)), base + RoundUp(Offset(params, |params|)))
  }

  lemma {:induction false} NextRegion(ps: seq<Param>, base: nat, i: nat)
    requires i < |ps| && Aligned(base) && Aligned(base + Offset(ps, i))
    ensures RoundUp(Offset(ps, i)) == Offset(ps, i)
    ensures RoundUp(Offset(ps, i + 1)) == Offset(ps, i) + RoundUp(ps[i].size)
    ensures RoundUp(Offset(ps, i + 1)) <= RoundUp(Offset(ps, |ps|))
  {
    var o := Offset(ps, i);
    RoundUpFrom(base, o);
    RoundUpFrom(o, 0);
    RoundUpFrom(o, ps[i].size);
    OffsetAscends(ps, i + 1, |ps|);
    RoundUpMonotone(Offset(ps, i + 1), Offset(ps, |ps|));
  }

  lemma {:induction false} ProgressStep(before: Memory, now: Memory, after: Memory, ps: seq<Param>, base: nat, i: nat)
    requires i < |ps| && Progress(before, now, ps, base, i)
    requires Aligned(base) && Aligned(base + Offset(ps, i))
    requires var addr := base + Offset(ps, i);
             && (forall a :: !(addr <= a < addr + RoundUp(ps[i].size)) ==> At(after, a) == At(now, a))
             && (forall a :: addr <= a < addr + ps[i].size ==> At(after, a) == RegionCell(ps[i], i))
             && (forall a :: addr + ps[i].size <= a < addr + RoundUp(ps[i].size) ==> At(after, a) == TailCell(ps[i]))
    ensures Progress(before, after, ps, base, i + 1)
  {
    NextRegion(ps, base, i);
    FormatStep(before, now, after, ps, base, i,
               base + RoundUp(Offset(ps, i + 1)), base + RoundUp(Offset(ps, |ps|)));
  }

  /** One round of the second loop at the address the earlier regions have led to. */
  method CarveOne(k: Kernel, p: Param, addr: nat, i: nat, grant: bool,
                  ghost before: Memory, ghost ps: seq<Param>, ghost base: nat, ghost grants: seq<bool>)
    returns (ok: bool)
    requires i < |ps| == |grants| && p == ps[i].(addr := p.addr) && grant == grants[i]
    requires Aligned(base) && addr == base + Offset(ps, i)
    requires Progress(before, k.mem, ps, base, i)
    modifies k`mem
    ensures ok <==> Placeable(ps, base, grants, i)
    ensures Progress(before, k.mem, ps, base, if ok then i + 1 else i)
  {
    ok := FormatRegion(k, p, addr, i, grant);
    if ok {
      ProgressStep(before, old(k.mem), k.mem, ps, base, i);
    }
  }

  /** Region i was given the address that the sizes before it lead to. */
  predicate PlacedAt(ps: seq<Param>, base: nat, i: nat, addr: Option<nat>)
    requires i <= |ps|
  {
    addr == Some(base + Offset(ps, i))
  }

  /** The params in the second loop: the addresses of the first n regions are set, nothing else changed. */
  ghost predicate Placed(ps: seq<Param>, now: seq<Param>, base: nat, n: nat) {
    && |ps| == |now| && n <= |ps|
    && (forall i :: 0 <= i < |ps| ==> now[i] == ps[i].(addr := now[i].addr))
    && (forall i {:trigger PlacedAt(ps, base, i, now[i].addr)} :: 0 <= i < n ==> PlacedAt(ps, base, i, now[i].addr))
    && (forall i :: n <= i < |ps| ==> now[i] == ps[i])
  }

  lemma {:induction false} PlacedStep(ps: seq<Param>, now: seq<Param>, base: nat, n: nat, addr: nat)
    requires Placed(ps, now, base, n) && n < |ps| && addr == base + Offset(ps, n)
    ensures Placed(ps, now[n := now[n].(addr := Some(addr))], base, n + 1)
    ensures addr + ps[n].size == base + Offset(ps, n + 1)
  {
    var after := now[n := now[n].(addr := Some(addr))];
    assert PlacedAt(ps, base, n, after[n].addr);
    forall i | 0 <= i < n
      ensures PlacedAt(ps, base, i, after[i].addr)
    {
      assert PlacedAt(ps, base, i, now[i].addr);
    }
  }

  /** The second loop: it stops at the first region that cannot be placed. */
  method Carve(k: Kernel, params: array<Param>, base: nat, grants: seq<bool>, ghost before: Memory)
    returns (n: nat)
    requires |grants| == params.Length && Aligned(base)
    requires Progress(before, k.mem, params[..], base, 0)
    modifies k`mem, params
    ensures n <= params.Length
    ensures Placed(old(params[..]), params[..], base, if n < params.Length then n + 1 else n)
    ensures forall i :: 0 <= i < n ==> Placeable(old(params[..]), base, grants, i)
    ensures n < params.Length ==> !Placeable(old(params[..]), base, grants, n)
    ensures Progress(before, k.mem, old(params[..]), base, n)
  {
    ghost var ps := params[..];
    var addr := base;
    n := 0;
    while n < params.Length
      invariant n <= params.Length
      invariant addr == base + Offset(ps, n)
      invariant Placed(ps, params[..], base, n)
      invariant forall i :: 0 <= i < n ==> Placeable(ps, base, grants, i)
      invariant Progress(before, k.mem, ps, base, n)
    {
      ghost var was := params[..];
      PlacedStep(ps, was, base, n, addr);
      params[n] := params[n].(addr := Some(addr));
      assert params[..] == was[n := was[n].(addr := Some(addr))];
      var ok := CarveOne(k, params[n], addr, n, grants[n], before, ps, base, grants);
      if !ok {
        return;
      }
      addr := addr + params[n].size;
      n := n + 1;
    }
  }

  /** Byte a belongs to a region, by the address the region was given. */
  predicate Inside(p: Param, a: int) {
    p.addr.Some? && p.addr.value <= a < p.addr.value + p.size
  }

  /** The first n regions lie one behind the other from the base on, and every byte in them is as asked. */
  ghost predicate LaidOut(now: seq<Param>, mem: Memory, base: nat, n: nat) {
    && n <= |now|
    && (forall i :: 0 <= i < n ==> now[i].addr.Some?)
    && (n > 0 ==> now[0].addr.value == base)
    && (forall i :: 0 < i < n ==> now[i].addr.value == now[i - 1].addr.value + now[i - 1].size)
    && (forall i, a {:trigger Inside(now[i], a)} :: 0 <= i < n && Inside(now[i], a) ==> AsAsked(now[i], i, At(mem, a)))
  }

  lemma {:induction false} ProgressLaysOut(before: Memory, mem: Memory, ps: seq<Param>, now: seq<Param>,
                                           base: nat, n: nat)
    requires n <= |ps| && Progress(before, mem, ps, base, n) && Placed(ps, now, base, if n < |ps| then n + 1 else n)
    ensures LaidOut(now, mem, base, n)
  {
    forall i | 0 <= i < n
      ensures now[i].addr == Some(base + Offset(ps, i))
    {
      assert PlacedAt(ps, base, i, now[i].addr);
    }
    forall i | 0 < i < n
      ensures now[i].addr.value == now[i - 1].addr.value + now[i - 1].size
    {
      assert Offset(ps, i) == Offset(ps, i - 1) + ps[i - 1].size;
    }
    forall i, a | 0 <= i < n && Inside(now[i], a)
      ensures AsAsked(now[i], i, At(mem, a))
    {
      assert Offset(ps, i + 1) == Offset(ps, i) + ps[i].size;
      assert InRegion(ps, base, i, a);
    }
  }

  /** The second loop, with what it leaves behind said by the addresses it has set. */
  method CarveOut(k: Kernel, params: array<Param>, base: nat, grants: seq<bool>, ghost before: Memory)
    returns (n: nat)
    requires |grants| == params.Length && Aligned(base)
    requires Progress(before, k.mem, params[..], base, 0)
    modifies k`mem, params
    ensures n <= params.Length
    ensures Placed(old(params[..]), params[..], base, if n < params.Length then n + 1 else n)
    ensures forall i :: 0 <= i < n ==> Placeable(old(params[..]), base, grants, i)
    ensures n < params.Length ==> !Placeable(old(params[..]), base, grants, n)
    ensures Progress(before, k.mem, old(params[..]), base, n)
    ensures LaidOut(params[..], k.mem, base, n)
  {
    n := Carve(k, params, base, grants, before);
    ProgressLaysOut(before, k.mem, old(params[..]), params[..], base, n);
  }

  /** The kernel's answer to the reservation: none, or an aligned non-zero address with enough room. */
  ghost predicate GoodChoice(mem: Memory, asked: seq<Param>, choice: Option<nat>) {
    choice.Some? ==>
      && choice.value > 0 && Aligned(choice.value)
      && forall a :: choice.value <= a < choice.value + RoundUp(Offset(asked, |asked|)) ==> a !in mem
  }

  /** mremap_mmap_anon gets as far as the second loop. */
  predicate Reserves(asked: seq<Param>, choice: Option<nat>) {
    0 < Offset(asked, |asked|) < TWO64 && choice.Some?
  }

  /**
   * mremap_mmap_anon.  Without a reservation it returns 0 and maps nothing; the addresses are then
   * MAP_FAILED as far as the sizes could be added up.  With one it returns the
   * index of the first region that cannot be placed, or the number of regions; the regions before
   * that are contiguous from the base and hold what was asked for, and nothing outside the
   * reservation changes.
   */
  method Format(k: Kernel, params: array<Param>, choice: Option<nat>, grants: seq<bool>) returns (n: nat)
    requires |grants| == params.Length
    requires GoodChoice(k.mem, Requests(params[..]), choice)
    modifies k`mem, params
    ensures var asked := Requests(old(params[..]));
            && (!Reserves(asked, choice) ==>
                  n == 0 && k.mem == old(k.mem) && params[..] == Cleared(old(params[..]), Summed(asked, 0)))
            && (Reserves(asked, choice) ==>
                  && n <= params.Length
                  && Placed(asked, params[..], choice.value, if n < params.Length then n + 1 else n)
                  && (forall i :: 0 <= i < n ==> Placeable(asked, choice.value, grants, i))
                  && (n < params.Length ==> !Placeable(asked, choice.value, grants, n))
                  && Progress(old(k.mem), k.mem, asked, choice.value, n)
                  && LaidOut(params[..], k.mem, choice.value, n))
  {
    ghost var asked := Requests(params[..]);
    var total := SumSizes(params);
    if total.None? {
      return 0;
    }
    var addr := k.MmapAnywhere(total.value, PROT_NONE, true, choice);
    if addr.None? {
      return 0;
    }
    n := CarveOut(k, params, addr.value, grants, old(k.mem));
  }

  // ----- the checkers

  /** Byte a can be read and is exp. */
  predicate Holds(m: Memory, a: int, exp: Byte) {
    Readable(m, a) && m[a].val == exp
  }

  /** Byte a is the first of the range that does not hold exp. */
  ghost predicate FirstBad(m: Memory, addr: int, len: nat, exp: Byte, a: int) {
    addr <= a < addr + len && !Holds(m, a, exp) && forall b :: addr <= b < a ==> Holds(m, b, exp)
  }

  /** mremap_mmap_anon_data_check: the verdict is decided by the first byte that does not hold. */
  method DataCheck(k: Kernel, addr: int, len: nat, exp: Byte) returns (r: Verdict)
    ensures r == Pass <==> forall a :: addr <= a < addr + len ==> Holds(k.mem, a, exp)
    ensures r != Pass ==> exists a :: FirstBad(k.mem, addr, len, exp, a) && (r == Signal <==> !Readable(k.mem, a))
  {
    var idx := 0;
    while idx < len
      invariant 0 <= idx <= len
      invariant forall a :: addr <= a < addr + idx ==> Holds(k.mem, a, exp)
    {
      if !Readable(k.mem, addr + idx) {
        assert FirstBad(k.mem, addr, len, exp, addr + idx);
        return Signal;
      }
      if k.mem[addr + idx].val != exp {
        assert FirstBad(k.mem, addr, len, exp, addr + idx);
        return Fail;
      }
      idx := idx + 1;
    }
    return Pass;
  }

  const CHAR_A: Byte := 65
  const CHAR_0: Byte := 48

  /** One character written and read back. */
  method Poke1(k: Kernel, a: int, ch: Byte) returns (r: Verdict)
    modifies k`mem
    ensures r == Pass <==> Writable(old(k.mem), a) && Readable(old(k.mem), a)
    ensures r == Pass ==> k.mem == Poke(old(k.mem), a, 1, ch)
  {
    var stored := k.Memset(a, ch, 1);
    assert Within(a, a, 1);
    if !stored || !Readable(k.mem, a) {
      return Signal;
    }
    assert At(k.mem, a).Some?;
    r := if k.mem[a].val == ch then Pass else Fail;
  }

  lemma {:induction false} PokeKeepsAccess(m: Memory, lo: int, len: nat, v: Byte)
    ensures forall a :: Writable(Poke(m, lo, len, v), a) == Writable(m, a)
    ensures forall a :: Readable(Poke(m, lo, len, v), a) == Readable(m, a)
  {
    forall a
      ensures Writable(Poke(m, lo, len, v), a) == Writable(m, a)
      ensures Readable(Poke(m, lo, len, v), a) == Readable(m, a)
    {
      assert At(Poke(m, lo, len, v), a).Some? == At(m, a).Some?;
    }
  }

  /** Every byte can be written, and the first and last one read as well. */
  ghost predicate Accessible(m: Memory, addr: int, len: nat) {
    && (forall a :: Within(a, addr, len) ==> Writable(m, a))
    && (len > 0 ==> Readable(m, addr) && Readable(m, addr + len - 1))
  }

  /** mremap_mmap_anon_access_check; address 0 is NULL.  When it passes, the range is filled with '0'. */
  method AccessCheck(k: Kernel, addr: int, len: nat) returns (r: Verdict)
    modifies k`mem
    ensures r == Pass <==> addr != 0 && Accessible(old(k.mem), addr, len)
    ensures r == Pass ==> forall a :: At(k.mem, a) == At(Poke(old(k.mem), addr, len, 48), a)
  {
    if addr == 0 {
      return Fail;
    }
    if len == 0 {
      return Pass;
    }
    assert Within(addr, addr, len) && Within(addr + len - 1, addr, len);
    r := Poke1(k, addr, CHAR_A);
    if r != Pass {
      return;
    }
    PokeKeepsAccess(old(k.mem), addr, 1, CHAR_A);
    ghost var m := k.mem;
    r := Poke1(k, addr + len - 1, CHAR_Z);
    if r != Pass {
      return;
    }
    PokeKeepsAccess(m, addr + len - 1, 1, CHAR_Z);
    var ok := k.Memset(addr, CHAR_0, len);
    r := if ok then Pass else Signal;
  }
}
