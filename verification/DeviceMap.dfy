/**
 * The mmap test device of src/test_drv/test_mck_drv-mmap_dev2.c and the two programs that write
 * through a mapping of it and validate what they see: src/test_mck/src/mmap_dev/001.c (private) and
 * 002.c (shared, validated through a second mapping).
 */
module DeviceMap {
  import opened Prelude

  /** The device: its buffer is kept in whole pages behind the mappings. */
  class Device {
    const buf: array<Byte>

    constructor (size: nat)
      ensures buf.Length == size && fresh(buf)
    {
      buf := new Byte[size](_ => 0);
    }

    method Memset(lo: nat, val: int, len: nat)
      requires lo + len <= buf.Length
      modifies buf
      ensures forall j :: 0 <= j < buf.Length ==>
                buf[j] == if lo <= j < lo + len then val % 256 else old(buf[j])
    {
      for i := 0 to len
        invariant forall j :: 0 <= j < buf.Length ==>
                    buf[j] == if lo <= j < lo + i then val % 256 else old(buf[j])
      {
        buf[lo + i] := val % 256;
      }
    }

    /** test_mck_mmap_dev2_buffer_reset, for a buffer of any length. */
    method Reset()
      modifies buf
      ensures forall j :: 0 <= j < buf.Length ==> buf[j] == (j / 4096 + 1) % 256
    {
      var val := 1;
      var off := 0;
      while off < buf.Length
        invariant off == (val - 1) * PAGE_SIZE && val >= 1
        invariant forall j :: 0 <= j < buf.Length && j < off ==> buf[j] == (j / PAGE_SIZE + 1) % 256
        decreases buf.Length - off
      {
        var len := if off + PAGE_SIZE < buf.Length then PAGE_SIZE else buf.Length - off;
        Memset(off, val, len);
        forall j | off <= j < off + len
          ensures (j / PAGE_SIZE + 1) % 256 == val % 256
        {
          assert j / PAGE_SIZE == val - 1;
        }
        val := val + 1;
        off := off + PAGE_SIZE;
      }
    }

    /** test_mck_mmap_dev2_vma_fault: a page of the buffer, or an error past its end. */
    predicate Faults(pgoff: nat) {
      buf.Length <= pgoff * PAGE_SIZE
    }
  }

  /** The mapping covers that many pages of the buffer. */
  predicate Covers(dev: Device, pages: nat) {
    pages * PAGE_SIZE <= dev.buf.Length
  }

  /** Page p as the validation expects it: 'Z' in front, then the number of the page, from 1, as a byte. */
  predicate AsExpected(page: seq<Byte>, p: nat) {
    |page| == 4096 && page[0] == 90 && forall j :: 0 < j < 4096 ==> page[j] == (p + 1) % 256
  }

  /** Page p of a buffer. */
  function PageOf(content: seq<Byte>, p: nat): (r: seq<Byte>)
    requires (p + 1) * PAGE_SIZE <= |content|
    ensures |r| == PAGE_SIZE
  {
    content[p * PAGE_SIZE..(p + 1) * PAGE_SIZE]
  }

  /** The buffer is as it was but for a 'Z' in front of each of the first n pages. */
  ghost predicate Stamped(content: seq<Byte>, now: seq<Byte>, n: nat) {
    && |now| == |content|
    && forall j :: 0 <= j < |now| ==> now[j] == if j % 4096 == 0 && j / 4096 < n then 90 else content[j]
  }

  /** A mapping of the device from offset 0.  A private one keeps its own copy of each page it has written. */
  class Mapping {
    const dev: Device
    const shared: bool
    var copies: map<nat, seq<Byte>>

    ghost predicate Valid()
      reads this, dev.buf
    {
      && dev.buf.Length % PAGE_SIZE == 0
      && (shared ==> copies == map[])
      && (forall p :: p in copies ==> |copies[p]| == PAGE_SIZE && !dev.Faults(p))
    }

    constructor (dev: Device, shared: bool)
      requires dev.buf.Length % PAGE_SIZE == 0
      ensures this.dev == dev && this.shared == shared && copies == map[] && Valid()
    {
      this.dev := dev;
      this.shared := shared;
      copies := map[];
    }

    lemma {:induction false} WholePage(p: nat)
      requires Valid() && !dev.Faults(p)
      ensures (p + 1) * PAGE_SIZE <= dev.buf.Length
    {
    }

    /** The page behind page p of the mapping, faulted in. */
    function Page(p: nat): (r: seq<Byte>)
      requires Valid() && !dev.Faults(p)
      reads this, dev.buf
      ensures |r| == PAGE_SIZE
    {
      WholePage(p);
      if p in copies then copies[p] else PageOf(dev.buf[..], p)
    }

    /** A store to the first byte of page p; false is the SIGBUS of a page the device does not have. */
    method StoreFirst(p: nat, v: Byte) returns (ok: bool)
      requires Valid()
      modifies this, dev.buf
      ensures Valid() && (ok <==> !dev.Faults(p))
      ensures !shared ==> dev.buf[..] == old(dev.buf[..])
      ensures shared && ok ==> dev.buf[..] == old(dev.buf[..])[p * PAGE_SIZE := v] && copies == old(copies)
      ensures !shared && ok ==> copies == old(copies)[p := old(Page(p))[0 := v]]
      ensures !ok ==> dev.buf[..] == old(dev.buf[..]) && copies == old(copies)
    {
      ok := !dev.Faults(p);
      if ok {
        if shared {
          dev.buf[p * PAGE_SIZE] := v;
        } else {
          copies := copies[p := Page(p)[0 := v]];
        }
      }
    }
  }

  /** One more stamped page. */
  lemma {:induction false} StampStep(content: seq<Byte>, now: seq<Byte>, after: seq<Byte>, n: nat)
    requires Stamped(content, now, n) && n * PAGE_SIZE < |now| && after == now[n * PAGE_SIZE := 90]
    ensures Stamped(content, after, n + 1)
  {
    forall j | 0 <= j < |now|
      ensures after[j] == if j % 4096 == 0 && j / 4096 < n + 1 then 90 else content[j]
    {
      assert j % 4096 == 0 && j / 4096 == n <==> j == n * PAGE_SIZE;
    }
  }

  /** A page of a stamped buffer. */
  lemma {:induction false} StampedPage(content: seq<Byte>, now: seq<Byte>, n: nat, p: nat)
    requires Stamped(content, now, n) && (p + 1) * PAGE_SIZE <= |now|
    ensures PageOf(now, p) == if p < n then PageOf(content, p)[0 := 90] else PageOf(content, p)
  {
    forall i | p * PAGE_SIZE <= i < (p + 1) * PAGE_SIZE
      ensures now[i] == if i == p * PAGE_SIZE && p < n then 90 else content[i]
    {
      assert i / 4096 == p && i % 4096 == i - p * PAGE_SIZE;
    }
  }

  /** The copies a private mapping holds after stamping n pages. */
  ghost predicate Copied(m: Mapping, content: seq<Byte>, n: nat)
    requires n * PAGE_SIZE <= |content|
    reads m
  {
    forall p :: (p in m.copies <==> 0 <= p < n)
      && (p in m.copies ==> m.copies[p] == PageOf(content, p)[0 := 90])
  }

  /** The access loop: 'Z' into the first byte of every page, until a page is missing. */
  method Stamp(m: Mapping, pages: nat) returns (ok: bool)
    requires m.Valid() && m.copies == map[]
    modifies m, m.dev.buf
    ensures m.Valid() && (ok <==> Covers(m.dev, pages))
    ensures m.shared ==> m.copies == map[] && (ok ==> Stamped(old(m.dev.buf[..]), m.dev.buf[..], pages))
    ensures !m.shared ==> m.dev.buf[..] == old(m.dev.buf[..]) && (ok ==> Copied(m, old(m.dev.buf[..]), pages))
  {
    ghost var content := m.dev.buf[..];
    var i := 0;
    while i < pages
      invariant i <= pages && m.Valid() && Covers(m.dev, i)
      invariant m.shared ==> m.copies == map[] && Stamped(content, m.dev.buf[..], i)
      invariant !m.shared ==> m.dev.buf[..] == content && Copied(m, content, i)
    {
      ghost var before := m.dev.buf[..];
      ok := m.StoreFirst(i, CHAR_Z);
      if !ok {
        return false;
      }
      m.WholePage(i);
      if m.shared {
        StampStep(content, before, m.dev.buf[..], i);
      }
      i := i + 1;
    }
    return true;
  }

  lemma {:induction false} ExpectedIs(page: seq<Byte>, buf: seq<Byte>, p: nat)
    requires |page| == |buf| == PAGE_SIZE && buf[0] == 90 && forall j :: 0 < j < PAGE_SIZE ==> buf[j] == (p + 1) % 256
    ensures page == buf <==> AsExpected(page, p)
  {
  }

  /** The validation loop over the pages of a mapping. */
  method Validate(m: Mapping, pages: nat) returns (v: Verdict)
    requires m.Valid()
    ensures v == Signal ==> !Covers(m.dev, pages)
    ensures v == Pass ==> Covers(m.dev, pages)
    ensures Covers(m.dev, pages) ==>
              (v == Pass <==> forall p :: 0 <= p < pages ==> !m.dev.Faults(p) && AsExpected(m.Page(p), p))
  {
    var val := 1;
    var i := 0;
    while i < pages
      invariant i <= pages && val == i + 1 && Covers(m.dev, i)
      invariant forall p :: 0 <= p < i ==> !m.dev.Faults(p) && AsExpected(m.Page(p), p)
    {
      if m.dev.Faults(i) {
        return Signal;
      }
      m.WholePage(i);
      var buf := seq(PAGE_SIZE, _ => val % 256);
      val := val + 1;
      buf := buf[0 := CHAR_Z];
      ExpectedIs(m.Page(i), buf, i);
      if m.Page(i) != buf {
        return Fail;
      }
      i := i + 1;
    }
    return Pass;
  }

  // ----- the two programs

  /** Pages that a mapping of that size has. */
  function PageCount(size: nat): nat {
    (size + PAGE_SIZE - 1) / PAGE_SIZE
  }

  /** The page count as the programs compute it: a 64-bit sum, kept in an int. */
  function IntPages(size: SizeT): Int32 {
    ToInt((size + PAGE_SIZE - 1) % TWO64 / PAGE_SIZE)
  }

  lemma {:induction false} IntPagesIs(size: SizeT)
    ensures IntPages(size) <= PageCount(size)
    ensures PageCount(size) <= INT_MAX ==> IntPages(size) == PageCount(size)
  {
    var n := (size + PAGE_SIZE - 1) % TWO64 / PAGE_SIZE;
    assert n <= PageCount(size);
    assert ToInt(n) <= n;
  }

  /** The device has every page that the loops touch, which is none at all for a count of 0 or less. */
  predicate Reachable(dev: Device, size: SizeT) {
    IntPages(size) <= 0 || Covers(dev, IntPages(size))
  }

  /** On a buffer of whole pages, covering the pages is the same as covering the bytes. */
  lemma {:induction false} CoversBytes(dev: Device, size: nat)
    requires dev.buf.Length % PAGE_SIZE == 0
    ensures Covers(dev, PageCount(size)) <==> size <= dev.buf.Length
  {
    var n := dev.buf.Length / PAGE_SIZE;
    assert dev.buf.Length == n * PAGE_SIZE;
    assert PageCount(size) <= n <==> size <= n * PAGE_SIZE;
  }

  /**
   * The loops stay inside the buffer exactly when the mapping does, except when the buffer ends between
   * the pages they touch and the pages there are.
   */
  lemma {:induction false} ReachableMeans(dev: Device, size: SizeT)
    requires dev.buf.Length % PAGE_SIZE == 0
    ensures (Reachable(dev, size) <==> size <= dev.buf.Length)
      <==> PageCount(size) <= dev.buf.Length / PAGE_SIZE || dev.buf.Length / PAGE_SIZE < IntPages(size)
  {
    IntPagesIs(size);
    CoversBytes(dev, size);
    var n := dev.buf.Length / PAGE_SIZE;
    assert dev.buf.Length == n * PAGE_SIZE;
  }

  /** So up to INT_MAX pages, which is just below 8 TiB, the tests accept exactly what the device can back. */
  lemma {:induction false} ReachableBelow8TiB(dev: Device, size: SizeT)
    requires dev.buf.Length % PAGE_SIZE == 0 && PageCount(size) <= INT_MAX
    ensures Reachable(dev, size) <==> size <= dev.buf.Length
  {
    IntPagesIs(size);
    CoversBytes(dev, size);
  }

  const TIB8: SizeT := 0x800_0000_0000
  const TIB16: SizeT := 0x1000_0000_0000

  /** At 8 TiB the count is negative and at 16 TiB it is 0: no page is touched, whatever the device. */
  lemma {:induction false} NoPageAt8TiB(dev: Device)
    ensures IntPages(TIB8) == -0x8000_0000 && IntPages(TIB16) == 0
    ensures Reachable(dev, TIB8) && Reachable(dev, TIB16)
  {
    assert (TIB8 + PAGE_SIZE - 1) % TWO64 / PAGE_SIZE == 0x8000_0000;
    assert (TIB16 + PAGE_SIZE - 1) % TWO64 / PAGE_SIZE == 0x1_0000_0000;
  }

  /**
   * What the kernel answers to the calls of the programs: open, the reset, mmap, the second mmap and
   * munmap; whether the device does reset its buffer; and whether MAP_SHARED mappings are shared.
   */
  datatype Answers = Answers(open: bool, reset: bool, mapped: bool, peeked: bool, unmapped: bool,
                             resets: bool, shares: bool)

  /** The program gets as far as its access loop. */
  predicate Starts(size: SizeT, k: Answers) {
    size > 0 && k.open && k.reset && k.mapped
  }

  /** The pages that the loops do touch. */
  function Touched(size: SizeT): nat {
    if IntPages(size) <= 0 then 0 else IntPages(size)
  }

  /** Byte j of the buffer when the access loop starts. */
  function Ready(before: seq<Byte>, k: Answers, j: nat): Byte
    requires j < |before|
  {
    if k.resets then (j / 4096 + 1) % 256 else before[j]
  }

  /** Behind its first byte, page p was ready; the first byte is 'Z' already unless the store gets through. */
  ghost predicate PageReady(before: seq<Byte>, k: Answers, p: nat, stored: bool)
    requires (p + 1) * 4096 <= |before|
  {
    && (stored || Ready(before, k, p * 4096) == 90)
    && forall i :: p * 4096 < i < (p + 1) * 4096 ==> Ready(before, k, i) == (p + 1) % 256
  }

  lemma {:induction false} PageReadyIs(before: seq<Byte>, k: Answers, content: seq<Byte>, p: nat)
    requires |content| == |before| && (p + 1) * PAGE_SIZE <= |content|
    requires forall j :: 0 <= j < |content| ==> content[j] == Ready(before, k, j)
    ensures AsExpected(PageOf(content, p)[0 := 90], p) <==> PageReady(before, k, p, true)
    ensures AsExpected(PageOf(content, p), p) <==> PageReady(before, k, p, false)
  {
    var page := PageOf(content, p);
    assert page[0] == content[p * 4096];
    if PageReady(before, k, p, true) {
      forall j | 0 < j < 4096
        ensures page[j] == (p + 1) % 256
      {
        assert page[j] == content[p * 4096 + j];
      }
    }
    if forall j :: 0 < j < 4096 ==> page[j] == (p + 1) % 256 {
      forall i | p * 4096 < i < (p + 1) * 4096
        ensures Ready(before, k, i) == (p + 1) % 256
      {
        assert page[i - p * 4096] == content[i];
      }
    }
    if AsExpected(page[0 := 90], p) {
      assert forall j :: 0 < j < 4096 ==> page[j] == page[0 := 90][j];
    }
  }

  /** After a reset every page is ready, and no first page begins with 'Z'. */
  lemma {:induction false} ResetIsReady(before: seq<Byte>, k: Answers, p: nat)
    requires k.resets && (p + 1) * 4096 <= |before|
    ensures PageReady(before, k, p, true) && !PageReady(before, k, 0, false)
  {
    forall i | p * 4096 <= i < (p + 1) * 4096
      ensures Ready(before, k, i) == (p + 1) % 256
    {
      assert i / 4096 == p;
    }
  }

  /**
   * 002.c: stamp through one shared mapping, validate through another.  It accepts exactly if the
   * kernel grants all calls and the device has the pages that are touched, with the reset pattern in
   * them, and the stores of one mapping show in the other; the device then holds the stamps.  A page
   * that the device does not have is a SIGBUS.
   */
  method SharedTest(dev: Device, size: SizeT, k: Answers) returns (v: Verdict)
    requires dev.buf.Length % PAGE_SIZE == 0
    modifies dev.buf
    ensures v == Pass <==>
              && Starts(size, k) && Reachable(dev, size) && k.peeked && k.unmapped
              && forall p :: 0 <= p < Touched(size) ==> PageReady(old(dev.buf[..]), k, p, k.shares)
    ensures v == Signal <==> Starts(size, k) && !Reachable(dev, size)
    ensures v == Pass && k.resets && k.shares ==>
              forall j :: 0 <= j < dev.buf.Length ==>
                dev.buf[j] == if j % 4096 == 0 && j / 4096 < IntPages(size) then 90 else (j / 4096 + 1) % 256
  {
    if size == 0 || !k.open || !k.reset {
      return Fail;
    }
    if k.resets {
      dev.Reset();
    }
    ghost var content := dev.buf[..];
    if !k.mapped {
      return Fail;
    }
    var data := new Mapping(dev, k.shares);
    var pages := Touched(size);
    var ok := Stamp(data, pages);
    if !ok {
      return Signal;
    }
    if !k.peeked {
      return Fail;
    }
    var peek := new Mapping(dev, true);
    forall p | 0 <= p < pages
      ensures !dev.Faults(p) && (AsExpected(peek.Page(p), p) <==> PageReady(old(dev.buf[..]), k, p, k.shares))
    {
      PageReadyIs(old(dev.buf[..]), k, content, p);
      if k.shares {
        StampedPage(content, dev.buf[..], pages, p);
      }
    }
    v := Validate(peek, pages);
    if !k.unmapped {
      return Fail;
    }
  }

  /** 001.c: stamp and validate through one private mapping; the buffer of the device stays as it was. */
  method PrivateTest(dev: Device, size: SizeT, k: Answers) returns (v: Verdict)
    requires dev.buf.Length % PAGE_SIZE == 0
    modifies dev.buf
    ensures v == Pass <==>
              && Starts(size, k) && Reachable(dev, size) && k.unmapped
              && forall p :: 0 <= p < Touched(size) ==> PageReady(old(dev.buf[..]), k, p, true)
    ensures v == Signal <==> Starts(size, k) && !Reachable(dev, size)
    ensures forall j :: 0 <= j < dev.buf.Length ==>
              dev.buf[j] == if size > 0 && k.open && k.reset && k.resets then (j / 4096 + 1) % 256 else old(dev.buf[j])
  {
    if size == 0 || !k.open || !k.reset {
      return Fail;
    }
    if k.resets {
      dev.Reset();
    }
    ghost var content := dev.buf[..];
    if !k.mapped {
      return Fail;
    }
    var data := new Mapping(dev, false);
    var pages := Touched(size);
    var ok := Stamp(data, pages);
    assert forall j :: 0 <= j < dev.buf.Length ==> dev.buf[j] == content[j];
    if !ok {
      return Signal;
    }
    forall p | 0 <= p < pages
      ensures !dev.Faults(p) && (AsExpected(data.Page(p), p) <==> PageReady(old(dev.buf[..]), k, p, true))
    {
      PageReadyIs(old(dev.buf[..]), k, content, p);
      assert p in data.copies && data.copies[p] == PageOf(content, p)[0 := 90];
    }
    v := Validate(data, pages);
    if !k.unmapped {
      return Fail;
    }
  }

  /** With a device that resets, both tests accept what is granted and reachable, 002.c only if MAP_SHARED works. */
  lemma {:induction false} WorkingDevice(before: seq<Byte>, k: Answers, n: nat)
    requires k.resets && n * 4096 <= |before|
    ensures forall p :: 0 <= p < n ==> PageReady(before, k, p, true)
    ensures n > 0 && !k.shares ==> !PageReady(before, k, 0, k.shares)
  {
    forall p | 0 <= p < n
      ensures PageReady(before, k, p, true)
    {
      ResetIsReady(before, k, p);
    }
    if n > 0 {
      ResetIsReady(before, k, 0);
    }
  }
}
