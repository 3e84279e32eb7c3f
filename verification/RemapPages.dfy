/**
 * The page-reversal test of src/test_mck/src/remap_file_pages: a file whose pages carry their number,
 * a shared mapping of it whose pages are remapped in reverse order, and the comparison.
 */
module RemapPages {
  import opened Prelude

  /** Whole pages in a file of that size. */
  function Pages(size: nat): nat {
    size / PAGE_SIZE
  }

  function Hash(page: nat): Byte {
    page % 256
  }

  /** remap_file_pages_create_file: the file's pages, in order. */
  method CreateFile(size: nat) returns (file: seq<seq<Byte>>)
    requires Pages(size) <= INT_MAX
    ensures |file| == size / 4096
    ensures forall p :: 0 <= p < |file| ==> |file[p]| == 4096 && file[p][0] == p % 256
    ensures forall p, j :: 0 <= p < |file| && 0 < j < 4096 ==> file[p][j] == 0
  {
    var buf: seq<Byte> := seq(PAGE_SIZE, _ => 0);
    file := [];
    var page := 0;
    while page < Pages(size)
      invariant page == |file| <= Pages(size)
      invariant |buf| == PAGE_SIZE && forall i :: 1 <= i < PAGE_SIZE ==> buf[i] == 0
      invariant forall p :: 0 <= p < |file| ==> |file[p]| == PAGE_SIZE && file[p][0] == Hash(p)
      invariant forall p, j :: 0 <= p < |file| && 0 < j < PAGE_SIZE ==> file[p][j] == 0
    {
      buf := buf[0 := Hash(page)];
      file := file + [buf];
      page := page + 1;
    }
  }

  /** A byte read through a char and promoted to int. */
  function AsChar(b: Byte, signedChar: bool): int {
    if signedChar && b >= 128 then (b as int) - 256 else b
  }

  /** A shared mapping of a file: page p of the mapping shows page table[p] of the file. */
  class Mapping {
    const file: seq<seq<Byte>>
    const table: array<nat>

    ghost predicate Valid()
      reads table
    {
      && table.Length == |file|
      && (forall p :: 0 <= p < table.Length ==> table[p] < |file|)
      && (forall p :: 0 <= p < |file| ==> |file[p]| == PAGE_SIZE)
    }

    /** mmap of the whole file: page p shows page p. */
    constructor (file: seq<seq<Byte>>)
      requires forall p :: 0 <= p < |file| ==> |file[p]| == PAGE_SIZE
      ensures this.file == file && Valid() && fresh(table)
      ensures forall p :: 0 <= p < table.Length ==> table[p] == p
    {
      this.file := file;
      this.table := new nat[|file|](i => i);
    }

    /** The remap loop: afterwards the mapping shows the pages in reverse. */
    method Reverse()
      requires Valid() && |file| <= INT_MAX
      modifies table
      ensures Valid()
      ensures forall p :: 0 <= p < table.Length ==> table[p] == table.Length - 1 - p
    {
      var mmapPage := table.Length - 1;
      var filePage := 0;
      while mmapPage >= 0
        invariant -1 <= mmapPage < table.Length && filePage == table.Length - 1 - mmapPage
        invariant Valid()
        invariant forall p :: mmapPage < p < table.Length ==> table[p] == table.Length - 1 - p
      {
        table[mmapPage] := filePage;
        mmapPage := mmapPage - 1;
        filePage := filePage + 1;
      }
    }

    /** The first byte of page p of the mapping, as the comparison sees it. */
    function FirstChar(p: nat, signedChar: bool): int
      requires Valid() && p < table.Length
      reads table
    {
      AsChar(file[table[p]][0], signedChar)
    }

    /** remap_file_pages_compare: true when no tp_assert fires. */
    method Compare(signedChar: bool) returns (ok: bool)
      requires Valid() && |file| <= INT_MAX
      ensures ok <==> forall p :: 0 <= p < table.Length ==> FirstChar(p, signedChar) == (table.Length - 1 - p) % 256
    {
      var remapPage := 0;
      var origPage := table.Length - 1;
      while origPage >= 0
        invariant 0 <= remapPage <= table.Length && origPage == table.Length - 1 - remapPage
        invariant forall p :: 0 <= p < remapPage ==> FirstChar(p, signedChar) == Hash(table.Length - 1 - p)
      {
        if FirstChar(remapPage, signedChar) != Hash(origPage) {
          return false;
        }
        remapPage := remapPage + 1;
        origPage := origPage - 1;
      }
      return true;
    }
  }

  /**
   * The test; granted says that the kernel refuses neither open, mmap nor any remap.  mmap refuses an
   * empty file, which is what the test runs on without -s.  Every other size is accepted when char is
   * unsigned, which is how the suite is built (-funsigned-char); with a signed char exactly those up to
   * 128 pages are, because the bytes of later pages read back as negative numbers.
   */
  method RunTest(size: nat, signedChar: bool, granted: bool) returns (ok: bool)
    requires Pages(size) <= INT_MAX
    ensures ok <==> granted && size > 0 && (!signedChar || size / 4096 <= 128)
  {
    var file := CreateFile(size);
    if size == 0 || !granted {
      return false;                      // mmap of length 0, or a call that is refused
    }
    var m := new Mapping(file);
    m.Reverse();
    ghost var n := Pages(size);
    assert forall p :: 0 <= p < n ==> m.FirstChar(p, signedChar) == AsChar(Hash(n - 1 - p), signedChar);
    ok := m.Compare(signedChar);
    if signedChar && n > 128 {
      assert m.FirstChar(n - 1 - 128, signedChar) == AsChar(Hash(128), signedChar) == -128;
    }
  }

  /** The comparison is not vacuous: without the remap it rejects every file of two pages or more. */
  method CompareUnremapped(size: nat, signedChar: bool) returns (ok: bool)
    requires Pages(size) <= INT_MAX
    ensures ok <==> size > 0 && size / 4096 <= 1
  {
    var file := CreateFile(size);
    if size == 0 {
      return false;                      // mmap of length 0
    }
    var m := new Mapping(file);
    ok := m.Compare(signedChar);
    var n := Pages(size);
    if n >= 2 {
      assert m.FirstChar(0, signedChar) == 0;
      assert m.FirstChar(1, signedChar) == 1;
      assert Hash(n - 1) == 0 ==> Hash(n - 2) == 255;
    }
  }
}
