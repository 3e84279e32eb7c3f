/**
 * What the formatted layout guarantees to the checkers, and the fixed-move scenarios of
 * src/test_mck/src/mremap_mmap_anon (007 to 013) for any list of page-multiple regions.
 */
module MremapScenarios {
  import opened Prelude
  import opened AddressSpace
  import opened MremapAnon

  /** First address of region i. */
  function Addr(asked: seq<Param>, base: nat, i: nat): nat
    requires i <= |asked|
  {
    base + Offset(asked, i)
  }

  /** Regions do not overlap: each ends at or before the start of any later one. */
  lemma {:induction false} RegionsDisjoint(asked: seq<Param>, base: nat, i: nat, j: nat)
    requires i < j < |asked|
    ensures Addr(asked, base, i) + asked[i].size <= Addr(asked, base, j)
  {
    OffsetAscends(asked, i + 1, j);
  }

  /** In a formatted space every finished region passes or faults as its request says. */
  lemma {:induction false} RegionAsAsked(before: Memory, mem: Memory, asked: seq<Param>, base: nat, n: nat, i: nat)
    requires i < n <= |asked| && Progress(before, mem, asked, base, n)
    ensures forall a :: Addr(asked, base, i) <= a < Addr(asked, base, i) + asked[i].size ==>
              At(mem, a) == RegionCell(asked[i], i)
  {
    forall a | Addr(asked, base, i) <= a < Addr(asked, base, i) + asked[i].size
      ensures At(mem, a) == RegionCell(asked[i], i)
    {
      assert InRegion(asked, base, i, a);
    }
  }

  /**
   * The check of region i on a formatted space, with any expected character.  On a readable and
   * writable region it passes exactly for '0' + i, as a char, and reports a mismatch otherwise; on a
   * hole or an unreadable region it faults.
   */
  method CheckRegion(k: Kernel, ghost before: Memory, asked: seq<Param>, base: nat, ghost n: nat, i: nat, exp: Byte)
    returns (r: Verdict)
    requires i < n <= |asked| && Progress(before, k.mem, asked, base, n) && asked[i].size > 0
    ensures !asked[i].nopage && asked[i].prot.read && asked[i].prot.write ==>
              r == if exp == (48 + i) % 256 then Pass else Fail
    ensures asked[i].nopage || !asked[i].prot.read ==> r == Signal
  {
    RegionAsAsked(before, k.mem, asked, base, n, i);
    ghost var a0 := Addr(asked, base, i);
    forall a | a0 <= a < a0 + asked[i].size
      ensures !asked[i].nopage && asked[i].prot.read && asked[i].prot.write ==>
                Readable(k.mem, a) && k.mem[a].val == FillByte(i)
      ensures asked[i].nopage || !asked[i].prot.read ==> !Readable(k.mem, a)
    {
      assert At(k.mem, a) == RegionCell(asked[i], i);
    }
    r := DataCheck(k, Addr(asked, base, i), asked[i].size, exp);
    assert a0 <= a0 < a0 + asked[i].size;
    if asked[i].nopage || !asked[i].prot.read || (asked[i].prot.write && exp != FillByte(i)) {
      assert !Holds(k.mem, a0, exp);
    }
  }

  lemma {:induction false} CharacterIs(i: nat)
    ensures FillByte(i) == if i % 256 < 208 then i % 256 + 48 else i % 256 - 208
  {
  }

  /** The characters of two regions are the same exactly when their numbers agree modulo 256. */
  lemma {:induction false} SameCharacter(i: nat, j: nat)
    ensures FillByte(i) == FillByte(j) <==> i % 256 == j % 256
  {
    CharacterIs(i);
    CharacterIs(j);
  }

  // ----- moving one region onto another

  /** What the tables of the scenarios have in common: whole pages everywhere, and a total that fits. */
  ghost predicate WholePages(asked: seq<Param>) {
    && Offset(asked, |asked|) < TWO64
    && forall i :: 0 <= i < |asked| ==> asked[i].size > 0 && Aligned(asked[i].size)
  }

  lemma {:induction false} OffsetsAligned(asked: seq<Param>, i: nat)
    requires i <= |asked| && forall k :: 0 <= k < |asked| ==> Aligned(asked[k].size)
    ensures Aligned(Offset(asked, i))
  {
    if i > 0 {
      OffsetsAligned(asked, i - 1);
      RoundUpFrom(Offset(asked, i - 1), asked[i - 1].size);
    }
  }

  lemma {:induction false} AddrAligned(asked: seq<Param>, base: nat, i: nat)
    requires i <= |asked| && Aligned(base) && forall k :: 0 <= k < |asked| ==> Aligned(asked[k].size)
    ensures Aligned(Addr(asked, base, i))
  {
    OffsetsAligned(asked, i);
    RoundUpFrom(base, Offset(asked, i));
  }

  /** In a table of whole pages a region can be placed exactly when the kernel grants it. */
  lemma {:induction false} PlaceableIfGranted(asked: seq<Param>, base: nat, grants: seq<bool>, i: nat)
    requires WholePages(asked) && Aligned(base) && i < |asked| == |grants|
    ensures Placeable(asked, base, grants, i) <==> grants[i]
  {
    AddrAligned(asked, base, i);
  }

  predicate ReadWrite(p: Param) {
    !p.nopage && p.prot == Prot(true, true)
  }

  /** The source of a move is readable and writable; the target is another such region, or a hole, no smaller. */
  predicate MoveRow(asked: seq<Param>, src: nat, dst: nat) {
    && src < |asked| && dst < |asked| && src != dst
    && ReadWrite(asked[src]) && (asked[dst].nopage || ReadWrite(asked[dst]))
    && asked[src].size <= asked[dst].size
  }

  /**
   * The space after region src has been moved to the front of region dst of a formatted layout and
   * found accessible: the old bytes' place is free, dst's front is accessible memory of the source
   * (overwritten with '0' by the access check), dst's tail, all other regions and everything outside
   * the reservation are untouched.
   */
  ghost predicate Moved(before: Memory, mem: Memory, asked: seq<Param>, base: nat, src: nat, dst: nat)
    requires MoveRow(asked, src, dst)
  {
    var size := asked[src].size;
    && (forall a :: !Within(a, base, RoundUp(Offset(asked, |asked|))) ==> At(mem, a) == At(before, a))
    && (forall a :: Within(a, Addr(asked, base, src), size) ==> At(mem, a) == None)
    && (forall a :: Within(a, Addr(asked, base, dst), size) ==>
          At(mem, a) == Some(Cell(48, asked[src].prot, asked[src].shared)))
    && (forall a :: Within(a, Addr(asked, base, dst) + size, asked[dst].size - size) ==>
          At(mem, a) == RegionCell(asked[dst], dst))
    && (forall i, a {:trigger InRegion(asked, base, i, a)} ::
          0 <= i < |asked| && i != src && i != dst && InRegion(asked, base, i, a) ==>
          At(mem, a) == RegionCell(asked[i], i))
  }

  /** What the move leaves at the target, in the target's tail, at the source and elsewhere. */
  lemma {:induction false} AfterMove(before: Memory, mem: Memory, asked: seq<Param>, base: nat, src: nat, dst: nat)
    requires MoveRow(asked, src, dst) && Progress(before, mem, asked, base, |asked|) && asked[src].size > 0
    ensures forall a :: Addr(asked, base, src) <= a < Addr(asked, base, src) + asked[src].size ==> a in mem
    ensures !Overlap(Addr(asked, base, src), asked[src].size, Addr(asked, base, dst), asked[src].size)
    ensures var size := asked[src].size;
            var mem' := Move(mem, Addr(asked, base, src), size, Addr(asked, base, dst), size);
            && (forall a :: Within(a, Addr(asked, base, src), size) ==> At(mem', a) == None)
            && (forall a :: Within(a, Addr(asked, base, dst), size) ==> At(mem', a) == RegionCell(asked[src], src))
            && (forall a :: Within(a, Addr(asked, base, dst) + size, asked[dst].size - size) ==>
                  At(mem', a) == RegionCell(asked[dst], dst))
  {
    RegionAsAsked(before, mem, asked, base, |asked|, src);
    RegionAsAsked(before, mem, asked, base, |asked|, dst);
    if src < dst {
      RegionsDisjoint(asked, base, src, dst);
    } else {
      RegionsDisjoint(asked, base, dst, src);
    }
    var s, d, size := Addr(asked, base, src), Addr(asked, base, dst), asked[src].size;
    forall a | s <= a < s + size
      ensures a in mem && mem[a] == RegionCell(asked[src], src).value
    {
      assert At(mem, a) == RegionCell(asked[src], src);
    }
  }

  /** A region that is neither end of the move keeps its bytes. */
  lemma {:induction false} OthersKept(before: Memory, mem: Memory, asked: seq<Param>, base: nat,
                                      src: nat, dst: nat, i: nat, a: int)
    requires MoveRow(asked, src, dst) && Progress(before, mem, asked, base, |asked|) && asked[src].size > 0
    requires i < |asked| && i != src && i != dst && InRegion(asked, base, i, a)
    requires forall d :: Addr(asked, base, src) <= d < Addr(asked, base, src) + asked[src].size ==> d in mem
    ensures !Within(a, Addr(asked, base, dst), asked[src].size)
    ensures At(Move(mem, Addr(asked, base, src), asked[src].size, Addr(asked, base, dst), asked[src].size), a)
            == RegionCell(asked[i], i)
  {
    if i < src { RegionsDisjoint(asked, base, i, src); } else { RegionsDisjoint(asked, base, src, i); }
    if i < dst { RegionsDisjoint(asked, base, i, dst); } else { RegionsDisjoint(asked, base, dst, i); }
  }

  /** So does everything outside the reservation. */
  lemma {:induction false} OutsideKept(before: Memory, mem: Memory, asked: seq<Param>, base: nat,
                                       src: nat, dst: nat, a: int)
    requires MoveRow(asked, src, dst) && Progress(before, mem, asked, base, |asked|) && asked[src].size > 0
    requires !Within(a, base, RoundUp(Offset(asked, |asked|)))
    requires forall d :: Addr(asked, base, src) <= d < Addr(asked, base, src) + asked[src].size ==> d in mem
    ensures !Within(a, Addr(asked, base, dst), asked[src].size)
    ensures At(Move(mem, Addr(asked, base, src), asked[src].size, Addr(asked, base, dst), asked[src].size), a)
            == At(before, a)
  {
    OffsetAscends(asked, src + 1, |asked|);
    OffsetAscends(asked, dst + 1, |asked|);
  }

  /** The bytes the data checks of a scenario look at. */
  lemma {:induction false} MovedHolds(before: Memory, mem: Memory, asked: seq<Param>, base: nat, src: nat, dst: nat)
    requires MoveRow(asked, src, dst) && WholePages(asked) && Progress(before, mem, asked, base, |asked|)
    requires forall d :: Addr(asked, base, src) <= d < Addr(asked, base, src) + asked[src].size ==> d in mem
    ensures var size := asked[src].size;
            var naddr := Addr(asked, base, dst);
            var mem' := Move(mem, Addr(asked, base, src), size, naddr, size);
            && (forall a :: naddr <= a < naddr + size ==> Holds(mem', a, FillByte(src)) && Writable(mem', a))
            && (!asked[dst].nopage ==>
                  forall a :: naddr + size <= a < naddr + asked[dst].size ==> Holds(mem', a, FillByte(dst)))
  {
    AfterMove(before, mem, asked, base, src, dst);
    var size := asked[src].size;
    var naddr := Addr(asked, base, dst);
    var mem' := Move(mem, Addr(asked, base, src), size, naddr, size);
    forall a | naddr <= a < naddr + size
      ensures Holds(mem', a, FillByte(src)) && Writable(mem', a)
    {
      assert Within(a, naddr, size) && At(mem', a) == RegionCell(asked[src], src);
    }
    forall a | naddr + size <= a < naddr + asked[dst].size && !asked[dst].nopage
      ensures Holds(mem', a, FillByte(dst))
    {
      assert Within(a, naddr + size, asked[dst].size - size) && At(mem', a) == RegionCell(asked[dst], dst);
    }
  }

  /** mremap finds nothing to object to: both addresses aligned, the ranges apart, the source all mapped. */
  lemma {:induction false} MoveReady(before: Memory, mem: Memory, asked: seq<Param>, base: nat, src: nat, dst: nat)
    requires MoveRow(asked, src, dst) && WholePages(asked) && Aligned(base)
    requires Progress(before, mem, asked, base, |asked|)
    ensures Aligned(Addr(asked, base, src)) && Aligned(Addr(asked, base, dst))
    ensures RoundUp(asked[src].size) == asked[src].size
    ensures !Overlap(Addr(asked, base, src), asked[src].size, Addr(asked, base, dst), asked[src].size)
    ensures forall a :: Addr(asked, base, src) <= a < Addr(asked, base, src) + asked[src].size ==> a in mem
  {
    AfterMove(before, mem, asked, base, src, dst);
    RoundUpFrom(asked[src].size, 0);
    AddrAligned(asked, base, src);
    AddrAligned(asked, base, dst);
  }

  /** The access check of the moved range completes the picture. */
  lemma {:induction false} MovedAndAccessed(before: Memory, mem: Memory, after: Memory, asked: seq<Param>,
                                            base: nat, src: nat, dst: nat)
    requires MoveRow(asked, src, dst) && WholePages(asked)
    requires Progress(before, mem, asked, base, |asked|)
    requires forall d :: Addr(asked, base, src) <= d < Addr(asked, base, src) + asked[src].size ==> d in mem
    requires var size := asked[src].size;
             var moved := Move(mem, Addr(asked, base, src), size, Addr(asked, base, dst), size);
             forall a :: At(after, a) == At(Poke(moved, Addr(asked, base, dst), size, 48), a)
    ensures Moved(before, after, asked, base, src, dst)
  {
    AfterMove(before, mem, asked, base, src, dst);
    forall a | !Within(a, base, RoundUp(Offset(asked, |asked|)))
      ensures At(after, a) == At(before, a)
    {
      OutsideKept(before, mem, asked, base, src, dst, a);
    }
    forall i, a | 0 <= i < |asked| && i != src && i != dst && InRegion(asked, base, i, a)
      ensures At(after, a) == RegionCell(asked[i], i)
    {
      OthersKept(before, mem, asked, base, src, dst, i, a);
    }
  }

  /**
   * What the verify and access blocks of a scenario accept: every byte of the moved range readable,
   * writable and exp, and, unless the target was a hole, every byte of its tail readable and tailExp.
   */
  ghost predicate Accepts(m: Memory, addr: int, size: nat, exp: Byte, tail: nat, hole: bool, tailExp: Byte) {
    && addr != 0
    && (forall a :: addr <= a < addr + size ==> Holds(m, a, exp) && Writable(m, a))
    && (!hole ==> forall a :: addr + size <= a < addr + size + tail ==> Holds(m, a, tailExp))
  }

  /** The three checks together look at exactly that. */
  lemma {:induction false} AcceptsMeans(m: Memory, addr: int, size: nat, exp: Byte,
                                        tail: nat, hole: bool, tailExp: Byte)
    requires size > 0
    ensures Accepts(m, addr, size, exp, tail, hole, tailExp) <==>
              && (forall a :: addr <= a < addr + size ==> Holds(m, a, exp))
              && (!hole ==> forall a :: addr + size <= a < addr + size + tail ==> Holds(m, a, tailExp))
              && addr != 0 && Accessible(m, addr, size)
  {
    if Accepts(m, addr, size, exp, tail, hole, tailExp) {
      assert Holds(m, addr, exp) && Holds(m, addr + size - 1, exp);
    }
    if Accessible(m, addr, size) {
      forall a | addr <= a < addr + size
        ensures Writable(m, a)
      {
        assert Within(a, addr, size);
      }
    }
  }

  /** The memory that a scenario accepts after moving region src onto region dst at naddr. */
  ghost predicate MoveAccepted(m: Memory, asked: seq<Param>, src: nat, dst: nat, naddr: nat)
    requires MoveRow(asked, src, dst)
  {
    Accepts(m, naddr, asked[src].size, (48 + src) % 256,
            asked[dst].size - asked[src].size, asked[dst].nopage, (48 + dst) % 256)
  }

  /** The verify and access blocks of a scenario, on any memory. */
  method Verify(k: Kernel, remap: int, size: nat, exp: Byte, tail: nat, hole: bool, tailExp: Byte) returns (v: Verdict)
    requires size > 0
    modifies k`mem
    ensures v == Pass <==> Accepts(old(k.mem), remap, size, exp, tail, hole, tailExp)
    ensures v == Pass ==> forall a :: At(k.mem, a) == At(Poke(old(k.mem), remap, size, 48), a)
  {
    AcceptsMeans(k.mem, remap, size, exp, tail, hole, tailExp);
    v := DataCheck(k, remap, size, exp);
    if v == Pass && !hole {
      v := DataCheck(k, remap + size, tail, tailExp);
    }
    if v == Pass {
      v := AccessCheck(k, remap, size);
    }
  }

  /** A move as it should be is accepted, and the access check leaves the space as Moved says. */
  lemma {:induction false} MoveIsAccepted(before: Memory, mem: Memory, moved: Memory, after: Memory, asked: seq<Param>,
                                          base: nat, src: nat, dst: nat)
    requires MoveRow(asked, src, dst) && WholePages(asked) && base > 0
    requires Progress(before, mem, asked, base, |asked|)
    requires forall d :: Addr(asked, base, src) <= d < Addr(asked, base, src) + asked[src].size ==> d in mem
    requires moved == Move(mem, Addr(asked, base, src), asked[src].size, Addr(asked, base, dst), asked[src].size)
    ensures MoveAccepted(moved, asked, src, dst, Addr(asked, base, dst))
    ensures (forall a :: At(after, a) == At(Poke(moved, Addr(asked, base, dst), asked[src].size, 48), a)) ==>
              Moved(before, after, asked, base, src, dst)
  {
    MovedHolds(before, mem, asked, base, src, dst);
    var naddr, size := Addr(asked, base, dst), asked[src].size;
    forall a | naddr <= a < naddr + size
      ensures Holds(moved, a, FillByte(src)) && Writable(moved, a)
    {
    }
    assert Accepts(moved, naddr, size, FillByte(src), asked[dst].size - size, asked[dst].nopage, FillByte(dst));
    if forall a :: At(after, a) == At(Poke(moved, Addr(asked, base, dst), asked[src].size, 48), a) {
      MovedAndAccessed(before, mem, after, asked, base, src, dst);
    }
  }

  /**
   * The move, its data checks and the access check of the moved range.  With a kernel that moves as it
   * should they pass; with any other they pass exactly if its answer and memory are acceptable.
   */
  method MoveAndVerify(k: Kernel, asked: seq<Param>, src: nat, dst: nat, addr: nat, naddr: nat,
                       ghost base: nat, ghost before: Memory)
    returns (v: Verdict)
    requires MoveRow(asked, src, dst) && WholePages(asked) && Aligned(base) && base > 0
    requires addr == Addr(asked, base, src) && naddr == Addr(asked, base, dst)
    requires Progress(before, k.mem, asked, base, |asked|)
    modifies k
    ensures k.calls == old(k.calls) + [RemapCall(addr, asked[src].size, asked[src].size, naddr)]
    ensures k.quirk.None? ==> v == Pass && Moved(before, k.mem, asked, base, src, dst)
    ensures k.quirk.Some? ==>
              (v == Pass <==> k.quirk.value.answer == Mapped(naddr)
                              && MoveAccepted(k.quirk.value.mem, asked, src, dst, naddr))
  {
    ghost var formatted := k.mem;
    var size := asked[src].size;
    MoveReady(before, k.mem, asked, base, src, dst);
    var remap := k.MremapFixed(addr, size, size, naddr);
    if remap != Mapped(naddr) {
      return Fail;
    }
    ghost var moved := k.mem;
    v := Verify(k, naddr, size, FillByte(src), asked[dst].size - size, asked[dst].nopage, FillByte(dst));
    if k.quirk.None? {
      MoveIsAccepted(before, formatted, moved, k.mem, asked, base, src, dst);
    }
  }

  // ----- the scenarios

  /** The kernel granted all of the set-up. */
  predicate Granted(choice: Option<nat>, grants: seq<bool>) {
    choice.Some? && forall i :: 0 <= i < |grants| ==> grants[i]
  }

  /** All regions one behind the other from the base on. */
  ghost predicate LaidOutAt(now: seq<Param>, base: nat) {
    && (forall i :: 0 <= i < |now| ==> now[i].addr.Some?)
    && (|now| > 0 ==> now[0].addr.value == base)
    && (forall i :: 0 < i < |now| ==> now[i].addr.value == now[i - 1].addr.value + now[i - 1].size)
  }

  /** The init block of a scenario: all regions in place, or the test fails. */
  method Init(k: Kernel, params: array<Param>, choice: Option<nat>, grants: seq<bool>) returns (ok: bool)
    requires |grants| == params.Length > 0
    requires GoodChoice(k.mem, Requests(params[..]), choice) && WholePages(Requests(params[..]))
    modifies k`mem, params
    ensures ok <==> Granted(choice, grants)
    ensures ok ==> Aligned(choice.value) && choice.value > 0
    ensures ok ==> LaidOutAt(params[..], choice.value)
    ensures ok ==> var asked := Requests(old(params[..]));
                   && Placed(asked, params[..], choice.value, |asked|)
                   && Progress(old(k.mem), k.mem, asked, choice.value, |asked|)
  {
    ghost var asked := Requests(params[..]);
    OffsetAscends(asked, 1, |asked|);
    var maps := Format(k, params, choice, grants);
    if choice.Some? {
      forall i | 0 <= i < |asked|
        ensures Placeable(asked, choice.value, grants, i) <==> grants[i]
      {
        PlaceableIfGranted(asked, choice.value, grants, i);
      }
    }
    ok := maps == params.Length;
  }

  /**
   * Scenarios 007 (src 0, dst 2), 012 (src 2, dst 1) and 013 (src 1, dst 2) over any table of whole
   * pages: format, move, check the moved bytes and the target's tail, check access.  With a kernel
   * that moves as it should the test passes exactly when all of the set-up is granted, and leaves the
   * space as Moved says.  Any other kernel passes exactly if the test has no reason to object.
   */
  method MoveScenario(k: Kernel, params: array<Param>, choice: Option<nat>, grants: seq<bool>, src: nat, dst: nat)
    returns (v: Verdict)
    requires |grants| == params.Length
    requires GoodChoice(k.mem, Requests(params[..]), choice)
    requires MoveRow(Requests(params[..]), src, dst) && WholePages(Requests(params[..]))
    modifies k, params
    ensures k.quirk.None? ==> (v == Pass <==> Granted(choice, grants))
    ensures k.quirk.None? && v == Pass ==> Moved(old(k.mem), k.mem, Requests(old(params[..])), choice.value, src, dst)
    ensures k.quirk.Some? ==>
              (v == Pass <==>
                 && Granted(choice, grants)
                 && params[dst].addr.Some? && k.quirk.value.answer == Mapped(params[dst].addr.value)
                 && MoveAccepted(k.quirk.value.mem, Requests(old(params[..])), src, dst, params[dst].addr.value))
    ensures Granted(choice, grants) ==>
              && LaidOutAt(params[..], choice.value) && params[src].addr.Some? && params[dst].addr.Some?
              && k.calls == old(k.calls) + [RemapCall(params[src].addr.value, params[src].size,
                                                      params[src].size, params[dst].addr.value)]
  {
    var asked := Requests(params[..]);
    ghost var before := k.mem;
    var ok := Init(k, params, choice, grants);
    if !ok {
      return Fail;
    }
    assert PlacedAt(asked, choice.value, src, params[..][src].addr);
    assert PlacedAt(asked, choice.value, dst, params[..][dst].addr);
    v := MoveAndVerify(k, asked, src, dst, params[src].addr.value, params[dst].addr.value, choice.value, before);
  }

  /** The four targets that mremap must refuse. */
  datatype Refusal =
    | OverBothNeighbours                 // 008: from the region below, grown to cover the one above
    | InsideSource                       // 009: one page, one page into the source
    | OntoSmallerNeighbour               // 010: onto the region below, which is too small
    | OnePageFurther                     // 011: the same size, one page further up

  /** Region s is laid out for that refusal. */
  predicate RefusalRow(asked: seq<Param>, s: nat, kind: Refusal) {
    && s < |asked|
    && match kind
       case OverBothNeighbours => 0 < s < |asked| - 1
       case InsideSource => asked[s].size > PAGE_SIZE
       case OntoSmallerNeighbour => 0 < s && asked[s].size > asked[s - 1].size
       case OnePageFurther => asked[s].size > PAGE_SIZE
  }

  /** In each of the layouts the target overlaps the source. */
  lemma {:induction false} TargetsOverlap(addr: nat, size: nat, newSize: nat, naddr: nat)
    requires size > 0 && newSize > 0 && naddr < addr + size && addr < naddr + newSize
    ensures !GoodMove(addr, size, newSize, naddr)
  {
    assert Overlap(addr, RoundUp(size), naddr, RoundUp(newSize));
  }

  /** The remap block of 008 to 011: the call it makes, and that it insists on EINVAL. */
  method RefusedMove(k: Kernel, params: seq<Param>, s: nat, kind: Refusal, ghost base: nat) returns (v: Verdict)
    requires RefusalRow(params, s, kind) && forall i :: 0 <= i < |params| ==> params[i].size > 0
    requires LaidOutAt(params, base)
    modifies k
    ensures var addr, size := params[s].addr.value, params[s].size;
            k.calls == old(k.calls) + [
              match kind
              case OverBothNeighbours =>
                RemapCall(addr, size, params[s - 1].size + size + params[s + 1].size, params[s - 1].addr.value)
              case InsideSource => RemapCall(addr, size, 4096, addr + 4096)
              case OntoSmallerNeighbour => RemapCall(addr, size, size, params[s - 1].addr.value)
              case OnePageFurther => RemapCall(addr, size, size, addr + 4096)]
    ensures k.quirk.None? ==> v == Pass && k.mem == old(k.mem)
    ensures k.quirk.Some? ==> (v == Pass <==> k.quirk.value.answer == Refused(22))
  {
    var addr, size := params[s].addr.value, params[s].size;
    var naddr, newSize := addr + PAGE_SIZE, size;
    match kind {
      case OverBothNeighbours =>
        naddr, newSize := params[s - 1].addr.value, params[s - 1].size + size + params[s + 1].size;
      case InsideSource => newSize := PAGE_SIZE;
      case OntoSmallerNeighbour => naddr := params[s - 1].addr.value;
      case OnePageFurther =>
    }
    TargetsOverlap(addr, size, newSize, naddr);
    var remap := k.MremapFixed(addr, size, newSize, naddr);
    v := if remap == Refused(EINVAL) then Pass else Fail;
  }

  /**
   * Scenarios 008 to 011 over any table of whole pages: format, then a move that mremap must refuse
   * with EINVAL.  With a kernel that does, the test passes exactly when all of the set-up is granted,
   * and every byte of the space is still as the formatter left it; any other kernel passes exactly if
   * it answers EINVAL all the same.
   */
  method RefusedScenario(k: Kernel, params: array<Param>, choice: Option<nat>, grants: seq<bool>, s: nat, kind: Refusal)
    returns (v: Verdict)
    requires |grants| == params.Length
    requires GoodChoice(k.mem, Requests(params[..]), choice)
    requires WholePages(Requests(params[..])) && RefusalRow(params[..], s, kind)
    modifies k, params
    ensures k.quirk.None? ==> (v == Pass <==> Granted(choice, grants))
    ensures k.quirk.None? && v == Pass ==>
              var asked := Requests(old(params[..]));
              Progress(old(k.mem), k.mem, asked, choice.value, |asked|)
    ensures k.quirk.Some? ==> (v == Pass <==> Granted(choice, grants) && k.quirk.value.answer == Refused(22))
    ensures Granted(choice, grants) ==>
              var now := params[..];
              && LaidOutAt(now, choice.value) && RefusalRow(now, s, kind)
              && var addr, size := now[s].addr.value, now[s].size;
                 k.calls == old(k.calls) + [
                   match kind
                   case OverBothNeighbours =>
                     RemapCall(addr, size, now[s - 1].size + size + now[s + 1].size, now[s - 1].addr.value)
                   case InsideSource => RemapCall(addr, size, 4096, addr + 4096)
                   case OntoSmallerNeighbour => RemapCall(addr, size, size, now[s - 1].addr.value)
                   case OnePageFurther => RemapCall(addr, size, size, addr + 4096)]
  {
    ghost var asked := Requests(params[..]);
    var ok := Init(k, params, choice, grants);
    if !ok {
      return Fail;
    }
    assert forall i :: 0 <= i < params.Length ==> params[..][i].size == asked[i].size;
    v := RefusedMove(k, params[..], s, kind, choice.value);
  }
}
