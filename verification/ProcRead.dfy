/** The offset-based read of a fixed string in src/test_drv/test_mck_drv.c. */
module ProcRead {
  import opened Prelude

  /** One read call: how many bytes are asked for, and whether the user buffer can be written. */
  datatype Request = Request(nbytes: nat, fault: bool)

  /** The bytes to copy, in the driver's 64-bit unsigned arithmetic, for an offset inside the string. */
  function CopyCount(len: nat, pos: nat, nbytes: nat): nat
    requires pos <= len
  {
    if (pos + nbytes) % TWO64 > len then len - pos else nbytes
  }

  /** The copy stays inside the string exactly when the addition does not wrap. */
  lemma {:induction false} CopyInside(len: nat, pos: nat, nbytes: nat)
    requires pos <= len < TWO63 && nbytes < TWO64
    ensures pos + CopyCount(len, pos, nbytes) <= len <==> pos + nbytes < TWO64
    ensures pos + nbytes < TWO64 ==> CopyCount(len, pos, nbytes) == Min(nbytes, len - pos)
  {
  }

  /**
   * The copy to user space fails: the buffer cannot be written, or the sum wrapped, which leaves a
   * count of 2^63 or more, and no user buffer is that long.
   */
  predicate Fails(text: string, pos: int, q: Request) {
    0 <= pos <= |text| && (pos + q.nbytes >= TWO64 || (q.fault && pos < |text| && q.nbytes > 0))
  }

  /** What a read at pos delivers. */
  function Delivered(text: string, pos: int, q: Request): string {
    if pos < 0 || pos > |text| || Fails(text, pos, q) then ""
    else text[pos..pos + Min(q.nbytes, |text| - pos)]
  }

  /** An open proc file: the string behind it and the file offset. */
  class ProcFile {
    const text: string
    var pos: int

    constructor (text: string)
      ensures this.text == text && pos == 0
    {
      this.text := text;
      pos := 0;
    }

    /**
     * test_mck_procfs_string_read.  Negative offsets compare as huge unsigned ones.  A copy that
     * fails is -EFAULT and moves nothing; otherwise the bytes delivered are counted in the result and
     * in the offset.
     */
    method Read(q: Request) returns (ret: int, data: string)
      requires |text| < TWO63 && -TWO63 <= pos < TWO63 && q.nbytes < TWO64
      modifies this
      ensures data == Delivered(text, old(pos), q) && pos == old(pos) + |data|
      ensures ret == if Fails(text, old(pos), q) then -14 else |data|
      ensures |data| <= q.nbytes
      ensures 0 <= old(pos) <= |text| ==> pos <= |text| && data == text[old(pos)..pos]
      ensures 0 <= old(pos) <= |text| && ret >= 0 ==> ret == q.nbytes || pos == |text|
    {
      ret, data := 0, "";
      if pos % TWO64 > |text| {
        return;
      }
      CopyInside(|text|, pos, q.nbytes);
      var count := CopyCount(|text|, pos, q.nbytes);
      if count >= TWO63 || (q.fault && count > 0) {
        ret := -EFAULT;
        return;
      }
      data := text[pos..pos + count];
      pos := pos + count;
      ret := count;
    }
  }

  // ----- whole runs of reads

  /** Where a run of reads has got to: the offset, and everything delivered so far. */
  datatype Progress = Progress(pos: int, out: string)

  function Step(text: string, p: Progress, q: Request): Progress {
    Progress(p.pos + |Delivered(text, p.pos, q)|, p.out + Delivered(text, p.pos, q))
  }

  /** A sequence of reads from the beginning. */
  function Run(text: string, qs: seq<Request>): Progress {
    if qs == [] then Progress(0, "") else Step(text, Run(text, qs[..|qs| - 1]), qs[|qs| - 1])
  }

  predicate Useful(q: Request) {
    !q.fault && 0 < q.nbytes < TWO63
  }

  /** The reads that ask for something and do not fault. */
  function UsefulCount(qs: seq<Request>): nat {
    if qs == [] then 0 else UsefulCount(qs[..|qs| - 1]) + if Useful(qs[|qs| - 1]) then 1 else 0
  }

  /** The offset is inside the string and what was delivered is the string up to it. */
  predicate InOrder(text: string, p: Progress) {
    0 <= p.pos <= |text| && p.out == text[..p.pos]
  }

  lemma {:induction false} StepInOrder(text: string, p: Progress, q: Request)
    requires InOrder(text, p) && |text| < TWO63
    ensures InOrder(text, Step(text, p, q))
    ensures Step(text, p, q).pos >= p.pos
    ensures Useful(q) && p.pos < |text| ==> Step(text, p, q).pos > p.pos
  {
    var d := |Delivered(text, p.pos, q)|;
    assert text[..p.pos] + text[p.pos..p.pos + d] == text[..p.pos + d];
  }

  /**
   * Any sequence of reads delivers exactly the string up to the offset, which never passes the end;
   * every useful read moves it on, so as many of them as there are bytes reach the end.
   */
  lemma {:induction false} ReadsInOrder(text: string, qs: seq<Request>)
    requires |text| < TWO63
    ensures InOrder(text, Run(text, qs))
    ensures Run(text, qs).pos >= Min(UsefulCount(qs), |text|)
  {
    if qs != [] {
      ReadsInOrder(text, qs[..|qs| - 1]);
      StepInOrder(text, Run(text, qs[..|qs| - 1]), qs[|qs| - 1]);
    }
  }

  lemma {:induction false} StepAtEnd(text: string, q: Request)
    ensures Step(text, Progress(|text|, text), q) == Progress(|text|, text)
  {
    assert Delivered(text, |text|, q) == "";
  }

  lemma {:induction false} RunAppend(text: string, qs: seq<Request>, q: Request)
    ensures Run(text, qs + [q]) == Step(text, Run(text, qs), q)
  {
    assert (qs + [q])[..|qs|] == qs;
  }

  /** Once the end is reached every further read delivers nothing, whatever it asks for. */
  lemma {:induction false} EndOfFile(text: string, qs: seq<Request>, q: Request)
    requires |text| < TWO63 && UsefulCount(qs) >= |text|
    ensures Run(text, qs) == Progress(|text|, text)
    ensures Run(text, qs + [q]) == Run(text, qs)
  {
    ReadsInOrder(text, qs);
    assert text[..|text|] == text;
    StepAtEnd(text, q);
    RunAppend(text, qs, q);
  }

  /** cat: reads of one size until there is nothing more.  It gets the whole string. */
  method Cat(text: string, nbytes: nat) returns (out: string)
    requires |text| < TWO63 && 0 < nbytes < TWO63
    ensures out == text
  {
    var f := new ProcFile(text);
    out := "";
    var ret := 1;
    while ret > 0
      invariant f.text == text && InOrder(text, Progress(f.pos, out))
      invariant ret <= 0 ==> f.pos == |text|
      decreases |text| - f.pos, ret
    {
      StepInOrder(text, Progress(f.pos, out), Request(nbytes, false));
      var data;
      ret, data := f.Read(Request(nbytes, false));
      out := out + data;
    }
  }

  /** One more read of a program, behind what it has already. */
  method ReadOn(f: ProcFile, have: string, q: Request) returns (out: string)
    requires |f.text| < TWO63 && 0 <= f.pos <= |f.text| && q.nbytes < TWO64
    modifies f
    ensures Progress(f.pos, out) == Step(f.text, Progress(old(f.pos), have), q)
  {
    var ret, data := f.Read(q);
    out := have + data;
  }

  /**
   * A program that opens the file and makes those reads: it has the string up to the file's offset,
   * and has it all once it made as many useful reads as there are bytes.
   */
  method ReadAll(text: string, qs: seq<Request>) returns (f: ProcFile, out: string)
    requires |text| < TWO63 && forall i :: 0 <= i < |qs| ==> qs[i].nbytes < TWO64
    ensures f.text == text && 0 <= f.pos <= |text| && out == text[..f.pos]
    ensures f.pos >= Min(UsefulCount(qs), |text|)
    ensures Progress(f.pos, out) == Run(text, qs)
  {
    f := new ProcFile(text);
    out := "";
    for i := 0 to |qs|
      invariant f.text == text && Progress(f.pos, out) == Run(text, qs[..i])
    {
      ReadsInOrder(text, qs[..i]);
      RunAppend(text, qs[..i], qs[i]);
      assert qs[..i] + [qs[i]] == qs[..i + 1];
      out := ReadOn(f, out, qs[i]);
    }
    assert qs[..|qs|] == qs;
    ReadsInOrder(text, qs);
  }
}
