/**
 * A byte-addressed address space and the four system calls that the mremap tests make on it.
 *
 * Every mapped byte has a value, a protection and a sharing flag.  Lengths are rounded up to whole
 * pages, as mmap, munmap and mremap do.  Where a call may fail for want of resources the outcome is
 * a parameter (`grant`).
 */
module AddressSpace {
  import opened Prelude

  datatype Prot = Prot(read: bool, write: bool)

  const PROT_NONE := Prot(false, false)

  datatype Cell = Cell(val: Byte, prot: Prot, shared: bool)

  /** Addresses to the bytes mapped there. */
  type Memory = map<int, Cell>

  function At(m: Memory, a: int): Option<Cell> {
    if a in m then Some(m[a]) else None
  }

  predicate Readable(m: Memory, a: int) {
    a in m && m[a].prot.read
  }

  predicate Writable(m: Memory, a: int) {
    a in m && m[a].prot.write
  }

  /** n is a whole number of pages (counted page by page, which is easier to reason about than n % PAGE_SIZE). */
  predicate Aligned(n: nat) {
    n == 0 || (n >= PAGE_SIZE && Aligned(n - PAGE_SIZE))
  }

  /** n bytes rounded up to whole pages. */
  function RoundUp(n: nat): (r: nat)
    ensures n <= r < n + PAGE_SIZE
    ensures r > 0 <==> n > 0
  {
    if n == 0 then 0 else if n <= PAGE_SIZE then PAGE_SIZE else PAGE_SIZE + RoundUp(n - PAGE_SIZE)
  }

  lemma {:induction false} AlignedMeans(n: nat)
    ensures Aligned(n) <==> n % PAGE_SIZE == 0
    ensures RoundUp(n) == (n + PAGE_SIZE - 1) / PAGE_SIZE * PAGE_SIZE
  {
    if n > PAGE_SIZE {
      AlignedMeans(n - PAGE_SIZE);
    }
  }

  /** Whole pages in front change nothing about the rounding behind them. */
  lemma {:induction false} RoundUpFrom(x: nat, y: nat)
    requires Aligned(x)
    ensures RoundUp(x + y) == x + RoundUp(y)
    ensures Aligned(x + y) <==> Aligned(y)
  {
    if x > 0 {
      RoundUpFrom(x - PAGE_SIZE, y);
    }
  }

  lemma {:induction false} RoundUpMonotone(x: nat, y: nat)
    requires x <= y
    ensures RoundUp(x) <= RoundUp(y)
  {
    if x > PAGE_SIZE {
      RoundUpMonotone(x - PAGE_SIZE, y - PAGE_SIZE);
    }
  }

  predicate Within(a: int, lo: int, len: int) {
    lo <= a < lo + len
  }

  /** m with every byte of [lo, lo+len) mapped and equal to cell. */
  function Fill(m: Memory, lo: int, len: int, cell: Cell): (r: Memory)
    ensures forall a :: At(r, a) == if Within(a, lo, len) then Some(cell) else At(m, a)
  {
    m + map a | lo <= a < lo + len && Within(a, lo, len) :: cell
  }

  function Unmap(m: Memory, lo: int, len: int): (r: Memory)
    ensures forall a :: At(r, a) == if Within(a, lo, len) then None else At(m, a)
  {
    map a | a in m && !Within(a, lo, len) :: m[a]
  }

  /** m with the mapped bytes of [lo, lo+len) set to v. */
  function Poke(m: Memory, lo: int, len: int, v: Byte): (r: Memory)
    ensures forall a :: At(r, a) == if Within(a, lo, len) && a in m then Some(m[a].(val := v)) else At(m, a)
  {
    map a | a in m :: if Within(a, lo, len) then m[a].(val := v) else m[a]
  }

  /** Byte a of the target of a move: the source's byte, or zero past the source's end. */
  function MovedCell(m: Memory, src: int, oldLen: int, dst: int, a: int): Cell
    requires src in m && dst <= a
    requires forall d :: src <= d < src + oldLen ==> d in m
  {
    if a - dst < oldLen then m[src + (a - dst)] else m[src].(val := 0)
  }

  function Move(m: Memory, src: int, oldLen: int, dst: int, newLen: int): (r: Memory)
    requires oldLen > 0
    requires forall d :: src <= d < src + oldLen ==> d in m
    ensures forall a :: At(r, a) ==
              if Within(a, dst, newLen) then Some(MovedCell(m, src, oldLen, dst, a))
              else if Within(a, src, oldLen) then None
              else At(m, a)
  {
    Unmap(m, src, oldLen) + map a | dst <= a < dst + newLen :: MovedCell(m, src, oldLen, dst, a)
  }

  predicate Overlap(lo: int, len: int, lo': int, len': int) {
    lo < lo' + len' && lo' < lo + len
  }

  /** The arguments that mremap does not refuse out of hand. */
  predicate GoodMove(addr: nat, oldSize: nat, newSize: nat, naddr: nat) {
    && Aligned(addr) && Aligned(naddr) && oldSize > 0 && newSize > 0
    && !Overlap(addr, RoundUp(oldSize), naddr, RoundUp(newSize))
  }

  /** What mremap answers: the new address, or an error number. */
  datatype Remap = Mapped(addr: nat) | Refused(errno: int)

  /** The arguments of one call of mremap. */
  datatype RemapCall = RemapCall(addr: nat, oldSize: nat, newSize: nat, naddr: nat)

  /** Some other answer to mremap, and the memory that goes with it: what a test is there to find. */
  datatype Quirk = Quirk(answer: Remap, mem: Memory)

  /**
   * The kernel side of the process: one address space, changed in place by the calls, and the calls of
   * mremap so far.  With a quirk, mremap does that in place of what it should.
   */
  class Kernel {
    var mem: Memory
    var calls: seq<RemapCall>
    const quirk: Option<Quirk>

    constructor (mem: Memory, quirk: Option<Quirk>)
      ensures this.mem == mem && calls == [] && this.quirk == quirk
    {
      this.mem, calls, this.quirk := mem, [], quirk;
    }

    /** mmap(0, len, ...): the kernel chooses a free place, or refuses (choice is None). */
    method MmapAnywhere(len: nat, prot: Prot, shared: bool, choice: Option<nat>) returns (r: Option<nat>)
      requires choice.Some? ==> Aligned(choice.value)
      requires choice.Some? ==> forall a :: choice.value <= a < choice.value + RoundUp(len) ==> a !in mem
      modifies `mem
      ensures r == if len == 0 then None else choice
      ensures mem == if r.None? then old(mem) else Fill(old(mem), r.value, RoundUp(len), Cell(0, prot, shared))
    {
      if len == 0 || choice.None? {
        return None;
      }
      mem := Fill(mem, choice.value, RoundUp(len), Cell(0, prot, shared));
      return choice;
    }

    method MmapFixed(addr: nat, len: nat, prot: Prot, shared: bool, grant: bool) returns (ok: bool)
      modifies `mem
      ensures ok <==> Aligned(addr) && len > 0 && grant
      ensures mem == if ok then Fill(old(mem), addr, RoundUp(len), Cell(0, prot, shared)) else old(mem)
    {
      ok := Aligned(addr) && len > 0 && grant;
      if ok {
        mem := Fill(mem, addr, RoundUp(len), Cell(0, prot, shared));
      }
    }

    method Munmap(addr: nat, len: nat, grant: bool) returns (ok: bool)
      modifies `mem
      ensures ok <==> Aligned(addr) && len > 0 && grant
      ensures mem == if ok then Unmap(old(mem), addr, RoundUp(len)) else old(mem)
    {
      ok := Aligned(addr) && len > 0 && grant;
      if ok {
        mem := Unmap(mem, addr, RoundUp(len));
      }
    }

    /** memset by the process itself; false stands for the SIGSEGV of a page it may not write. */
    method Memset(lo: int, v: Byte, len: nat) returns (ok: bool)
      modifies `mem
      ensures ok <==> forall a :: Within(a, lo, len) ==> Writable(old(mem), a)
      ensures mem == if ok then Poke(old(mem), lo, len, v) else old(mem)
    {
      ok := forall a :: lo <= a < lo + len && Within(a, lo, len) ==> Writable(mem, a);
      if ok {
        mem := Poke(mem, lo, len, v);
      }
    }

    /**
     * mremap with MREMAP_MAYMOVE|MREMAP_FIXED, with the rules the scenarios fix: a target that
     * overlaps the source is EINVAL (008 to 011), anything mapped at the target gives way (007),
     * the source disappears (007, 012, 013).  A source that is not all mapped is EFAULT.
     */
    method MremapFixed(addr: nat, oldSize: nat, newSize: nat, naddr: nat) returns (r: Remap)
      modifies this
      ensures calls == old(calls) + [RemapCall(addr, oldSize, newSize, naddr)]
      ensures quirk.Some? ==> r == quirk.value.answer && mem == quirk.value.mem
      ensures quirk.None? ==> (r == Refused(EINVAL) <==> !GoodMove(addr, oldSize, newSize, naddr))
      ensures quirk.None? ==>
                (r == Mapped(naddr) <==>
                   && GoodMove(addr, oldSize, newSize, naddr)
                   && forall a :: addr <= a < addr + RoundUp(oldSize) ==> a in old(mem))
      ensures quirk.None? && r.Refused? ==> mem == old(mem)
      ensures quirk.None? && r.Mapped? ==>
                r.addr == naddr && mem == Move(old(mem), addr, RoundUp(oldSize), naddr, RoundUp(newSize))
    {
      calls := calls + [RemapCall(addr, oldSize, newSize, naddr)];
      if quirk.Some? {
        mem := quirk.value.mem;
        return quirk.value.answer;
      }
      if !GoodMove(addr, oldSize, newSize, naddr) {
        return Refused(EINVAL);
      }
      if !forall a :: addr <= a < addr + RoundUp(oldSize) ==> a in mem {
        return Refused(EFAULT);
      }
      mem := Move(mem, addr, RoundUp(oldSize), naddr, RoundUp(newSize));
      return Mapped(naddr);
    }
  }
}
