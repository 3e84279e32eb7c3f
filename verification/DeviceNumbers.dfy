/**
 * The device-number round trip: src/test_drv/test_mck_drv.c prints one "%3d:%-3d " entry per device
 * into a buffer of 8 bytes per device plus one, and util/insmod_test_drv.sh splits the text with the
 * shell, cut and sed to recover every major and minor number.
 */
module DeviceNumbers {
  import opened Prelude
  import opened Decimal
  import opened WordSplit
  import ProcRead

  // ----- printing

  /** The padding that brings a number to three columns. */
  function Pad(s: string): string {
    if |s| < 3 then Spaces(3 - |s|) else ""
  }

  /** "%3d:%-3d " */
  function Entry(major: nat, minor: nat): (e: string)
    ensures |e| >= 8
  {
    Pad(Dec(major)) + (Dec(major) + ":" + Dec(minor)) + (Pad(Dec(minor)) + " ")
  }

  lemma {:induction false} Columns(d: string, m: string, e: string, colon: nat, end: nat)
    requires colon == (if |d| < 3 then 3 else |d|) && end == colon + 1 + (if |m| < 3 then 3 else |m|)
    requires e == Pad(d) + (d + ":" + m) + (Pad(m) + " ")
    ensures |e| == end + 1 && e[colon] == ':' && e[colon - |d|..colon] == d && e[colon + 1..colon + 1 + |m|] == m
    ensures forall j :: 0 <= j < colon - |d| ==> e[j] == ' '
    ensures forall j :: colon + 1 + |m| <= j <= end ==> e[j] == ' '
  {
  }

  /** An entry column by column: the major right-justified, the minor left-justified, both to three places. */
  lemma {:induction false} EntryColumns(major: nat, minor: nat, colon: nat, end: nat)
    requires colon == (if |Dec(major)| < 3 then 3 else |Dec(major)|)
    requires end == colon + 1 + (if |Dec(minor)| < 3 then 3 else |Dec(minor)|)
    ensures var e := Entry(major, minor);
            && |e| == end + 1 && e[colon] == ':'
            && e[colon - |Dec(major)|..colon] == Dec(major)
            && e[colon + 1..colon + 1 + |Dec(minor)|] == Dec(minor)
            && (forall j :: 0 <= j < colon - |Dec(major)| ==> e[j] == ' ')
            && (forall j :: colon + 1 + |Dec(minor)| <= j <= end ==> e[j] == ' ')
  {
    Columns(Dec(major), Dec(minor), Entry(major, minor), colon, end);
  }

  lemma {:induction false} EntryWidth(major: nat, minor: nat)
    requires major < 1000 && minor < 1000
    ensures |Entry(major, minor)| == 8
  {
    DecWidth(major);
    DecWidth(minor);
  }

  /** The entries of the first n devices, one after the other. */
  function Entries(major: nat, n: nat): (es: string)
    ensures |es| >= 8 * n
  {
    if n == 0 then "" else Entries(major, n - 1) + Entry(major, n - 1)
  }

  /** The running offset stays far below the sizes that count as negative. */
  lemma {:induction false} EntriesAtMost(major: nat, n: nat)
    requires major <= INT_MAX && n <= INT_MAX
    ensures |Entries(major, n)| <= 0x2_0000_0000 * n
  {
    if n > 0 {
      EntriesAtMost(major, n - 1);
      DecNoLonger(major);
      DecNoLonger(n - 1);
    }
  }

  lemma {:induction false} EntriesWidth(major: nat, n: nat)
    requires major < 1000 && n <= 1000
    ensures |Entries(major, n)| == 8 * n
  {
    if n > 0 {
      EntriesWidth(major, n - 1);
      EntryWidth(major, n - 1);
    }
  }

  lemma {:induction false} EntryWide(major: nat, minor: nat)
    requires major >= 1000 || minor >= 1000
    ensures |Entry(major, minor)| >= 9
  {
    if major >= 1000 {
      DecWide(major);
    } else {
      DecWide(minor);
    }
  }

  lemma {:induction false} EntriesNext(major: nat, n: nat)
    ensures |Entries(major, n + 1)| == |Entries(major, n)| + |Entry(major, n)| >= |Entries(major, n)| + 8
  {
  }

  /** Entries take nine columns or more when a major is too wide for three, */
  lemma {:induction false} WideMajor(major: nat, n: nat)
    requires major >= 1000
    ensures |Entries(major, n)| >= 9 * n
  {
    if n > 0 {
      WideMajor(major, n - 1);
      EntriesNext(major, n - 1);
      EntryWide(major, n - 1);
    }
  }

  /** and those of the devices from number 1000 on do in any case. */
  lemma {:induction false} WideMinors(major: nat, n: nat)
    requires n >= 1000
    ensures |Entries(major, n)| >= 9 * n - 1000
  {
    if n > 1000 {
      WideMinors(major, n - 1);
      EntriesNext(major, n - 1);
      EntryWide(major, n - 1);
    }
  }

  /** A C string: what comes before the first NUL. */
  function CString(buf: seq<char>): string {
    if buf == [] || buf[0] == '\0' then "" else [buf[0]] + CString(buf[1..])
  }

  lemma {:induction false} CStringIs(buf: seq<char>, text: string)
    requires text < buf && buf[|text|] == '\0' && '\0' !in text
    ensures CString(buf) == text
  {
    if text != "" {
      assert buf[0] == text[0] && text[0] in text;
      assert text[1..] < buf[1..];
      CStringIs(buf[1..], text[1..]);
    }
  }

  lemma {:induction false} EntryHasNoNul(major: nat, minor: nat)
    ensures '\0' !in Entry(major, minor)
  {
    assert forall c :: c in Dec(major) ==> IsDigit(c);
    assert forall c :: c in Dec(minor) ==> IsDigit(c);
  }

  lemma {:induction false} EntriesHaveNoNul(major: nat, n: nat)
    ensures '\0' !in Entries(major, n)
  {
    if n > 0 {
      EntriesHaveNoNul(major, n - 1);
      EntryHasNoNul(major, n - 1);
    }
  }

  /**
   * The kernel's snprintf at buf + at with `size` bytes: text cut to fit, a terminating NUL, the full
   * length as result.  Nothing is written for size 0, nor for a size that is no int, where the result
   * is 0.
   */
  method Snprintf(buf: array<char>, at: nat, size: SizeT, text: string) returns (printed: nat)
    requires size <= INT_MAX ==> at + size <= buf.Length
    modifies buf
    ensures printed == if size > INT_MAX then 0 else |text|
    ensures size == 0 || size > INT_MAX ==> buf[..] == old(buf[..])
    ensures 0 < size <= INT_MAX ==>
              var k := Min(|text|, size - 1);
              && buf[..at] == old(buf[..at])
              && buf[at..at + k] == text[..k]
              && buf[at + k] == '\0'
              && buf[at + k + 1..] == old(buf[at + k + 1..])
  {
    if size > INT_MAX {
      return 0;
    }
    printed := |text|;
    if size == 0 {
      return;
    }
    var k := Min(|text|, size - 1);
    for i := 0 to k
      invariant forall j :: 0 <= j < buf.Length && !(at <= j < at + i) ==> buf[j] == old(buf[j])
      invariant forall j :: 0 <= j < i ==> buf[at + j] == text[j]
    {
      buf[at + i] := text[i];
    }
    buf[at + k] := '\0';
  }

  /** The buffer holds text, or as much of it as leaves room for the NUL at its last but one place. */
  ghost predicate Printed(buf: seq<char>, text: string) {
    |buf| >= 2 && var k := Min(|text|, |buf| - 2); buf[..k] == text[..k] && buf[k] == '\0'
  }

  /** Where the next entry goes: behind the text, or past the end for good. */
  predicate NextAt(len: nat, majmin: nat, text: string) {
    if majmin < len then majmin == |text| else majmin <= |text|
  }

  lemma {:induction false} PrintedStep(buf: seq<char>, buf': seq<char>, text: string, entry: string)
    requires Printed(buf, text) && |buf'| == |buf|
    requires |text| >= |buf| - 1 ==> buf' == buf
    requires |text| < |buf| - 1 ==>
               var k := Min(|entry|, |buf| - 2 - |text|);
               && buf'[..|text|] == buf[..|text|]
               && buf'[|text|..|text| + k] == entry[..k]
               && buf'[|text| + k] == '\0'
    ensures Printed(buf', text + entry)
  {
    if |text| < |buf| - 1 {
      var k := Min(|entry|, |buf| - 2 - |text|);
      assert buf'[..|text| + k] == buf'[..|text|] + buf'[|text|..|text| + k];
      assert (text + entry)[..|text| + k] == text + entry[..k];
    } else {
      assert (text + entry)[..|buf| - 2] == text[..|buf| - 2];
    }
  }

  /** The size argument, in unsigned arithmetic: what is left of the buffer but one byte, or no int at all. */
  function Room(len: nat, majmin: nat): (size: SizeT)
    requires 2 <= len <= INT_MAX && majmin < TWO63
    ensures if majmin < len then size == len - 1 - majmin else size > INT_MAX
  {
    (len - majmin - 1) % TWO64
  }

  /** One round of the loop of test_mck_setup, as far as the table is concerned. */
  method PrintEntry(buf: array<char>, majmin: nat, entry: string, ghost text: string) returns (next: nat)
    requires 2 <= buf.Length <= INT_MAX && |text| + |entry| < TWO63
    requires Printed(buf[..], text) && NextAt(buf.Length, majmin, text)
    modifies buf
    ensures Printed(buf[..], text + entry) && NextAt(buf.Length, next, text + entry)
  {
    ghost var was := buf[..];
    var printed := Snprintf(buf, majmin, Room(buf.Length, majmin), entry);
    PrintedStep(was, buf[..], text, entry);
    next := majmin + printed;
  }

  /** What the table holds: the entries, cut at 8n-1 characters. */
  function Table(major: nat, n: nat): string {
    if n == 0 then "" else Entries(major, n)[..8 * n - 1]
  }

  lemma {:induction false} PrintedTable(buf: seq<char>, major: nat, n: nat)
    requires n > 0 && |buf| == 8 * n + 1 && Printed(buf, Entries(major, n))
    ensures CString(buf) == Table(major, n)
  {
    EntriesHaveNoNul(major, n);
    var t := Table(major, n);
    assert t == buf[..8 * n - 1];
    CStringIs(buf, t);
  }

  /** Where the next entry goes, and what is there so far, after i rounds. */
  ghost predicate Progress(buf: seq<char>, majmin: nat, major: nat, i: nat) {
    NextAt(|buf|, majmin, Entries(major, i)) && Printed(buf, Entries(major, i))
  }

  method PrintDevice(buf: array<char>, majmin: nat, major: nat, i: nat) returns (next: nat)
    requires 2 <= buf.Length <= INT_MAX && major <= INT_MAX && 8 * i < INT_MAX
    requires Progress(buf[..], majmin, major, i)
    modifies buf
    ensures Progress(buf[..], next, major, i + 1)
  {
    EntriesAtMost(major, i + 1);
    next := PrintEntry(buf, majmin, Entry(major, i), Entries(major, i));
  }

  lemma {:induction false} EntryAt(major: nat, n: nat, i: nat)
    requires major < 1000 && i < n <= 1000
    ensures |Entries(major, n)| == 8 * n && Entries(major, n)[8 * i..8 * i + 8] == Entry(major, i)
  {
    EntriesWidth(major, n);
    EntriesWidth(major, n - 1);
    EntryWidth(major, n - 1);
    if i < n - 1 {
      EntryAt(major, n - 1, i);
      assert Entries(major, n)[8 * i..8 * i + 8] == Entries(major, n - 1)[8 * i..8 * i + 8];
    }
  }

  lemma {:induction false} EntryEnds(major: nat, minor: nat)
    ensures Entry(major, minor)[|Entry(major, minor)| - 1] == ' '
  {
  }

  lemma {:induction false} CutColumns(es: string, t: string, e: string, n: nat, i: nat)
    requires |es| == 8 * n && i < n && t == es[..8 * n - 1] && |e| == 8 && es[8 * i..8 * i + 8] == e
    ensures t[8 * i..8 * i + 7] == e[..7] && (i < n - 1 ==> t[8 * i + 7] == e[7])
  {
    assert t[8 * i..8 * i + 7] == es[8 * i..8 * i + 8][..7];
    assert i < n - 1 ==> t[8 * i + 7] == es[8 * i..8 * i + 8][7];
  }

  /** While the numbers keep to their columns, the entry of device i is at 8i; the last lacks its last space. */
  lemma {:induction false} TableColumns(major: nat, n: nat, i: nat)
    requires major < 1000 && i < n <= 1000
    ensures |Table(major, n)| == 8 * n - 1 && Table(major, n)[8 * i..8 * i + 7] == Entry(major, i)[..7]
    ensures i < n - 1 ==> Table(major, n)[8 * i + 7] == ' '
  {
    EntryAt(major, n, i);
    EntryWidth(major, i);
    EntryEnds(major, i);
    CutColumns(Entries(major, n), Table(major, n), Entry(major, i), n, i);
  }

  /**
   * The loop of test_mck_setup that prints the table.  The buffer of 8n+1 bytes is never left,
   * however wide the numbers are, and as a C string it holds the entries cut at 8n-1 characters.
   */
  method PrintTable(major: nat, n: nat) returns (buf: array<char>)
    requires major <= INT_MAX && 8 * n < INT_MAX
    ensures fresh(buf) && buf.Length == 8 * n + 1
    ensures CString(buf[..]) == Table(major, n)
  {
    buf := new char[8 * n + 1](_ => '\0');
    if n == 0 {
      return;
    }
    var majmin := 0;
    for i := 0 to n
      invariant Progress(buf[..], majmin, major, i)
    {
      majmin := PrintDevice(buf, majmin, major, i);
    }
    PrintedTable(buf[..], major, n);
  }

  // ----- parsing

  /** echo of several words: one space between them. */
  function Echo(words: seq<string>): string {
    if |words| == 0 then ""
    else if |words| == 1 then words[0]
    else words[0] + " " + Echo(words[1..])
  }

  /** Length of the leading run without a space. */
  function FieldEnd(s: string): (k: nat)
    ensures k <= |s|
  {
    if s == "" || s[0] == ' ' then 0 else 1 + FieldEnd(s[1..])
  }

  /** Field i of a line that is split at every single space. */
  function Field(line: string, i: nat): string
    decreases i
  {
    var k := FieldEnd(line);
    if i == 0 then line[..k] else if k == |line| then "" else Field(line[k + 1..], i - 1)
  }

  /** cut -d' ' -f(i+1): a line without any space is printed whole. */
  function Cut(line: string, i: nat): string {
    if ' ' !in line then line else Field(line, i)
  }

  /** Length of the leading run of digits. */
  function DigitEnd(s: string): (k: nat)
    ensures k <= |s|
  {
    if s == "" || !IsDigit(s[0]) then 0 else 1 + DigitEnd(s[1..])
  }

  // sed 's/:[0-9]*//g'
  function SedMajor(s: string): string
    decreases |s|
  {
    if s == "" then ""
    else if s[0] == ':' then SedMajor(s[1..][DigitEnd(s[1..])..])
    else [s[0]] + SedMajor(s[1..])
  }

  // sed 's/[0-9]*://g': at each place the longest run of digits that a colon follows.
  function SedMinor(s: string): string
    decreases |s|
  {
    if s == "" then ""
    else if DigitEnd(s) < |s| && s[DigitEnd(s)] == ':' then SedMinor(s[DigitEnd(s) + 1..])
    else [s[0]] + SedMinor(s[1..])
  }

  // ----- the pieces of one entry

  function Token(major: nat, minor: nat): (w: string)
    ensures IsWord(w)
  {
    Dec(major) + ":" + Dec(minor)
  }

  /** One entry is its token among spaces, with at least one space behind. */
  lemma {:induction false} EntryShape(major: nat, minor: nat) returns (l: nat, r: nat)
    ensures l == |Pad(Dec(major))|
    ensures Entry(major, minor) == Spaces(l) + (Token(major, minor) + Spaces(r + 1))
  {
    l, r := |Pad(Dec(major))|, |Pad(Dec(minor))|;
    assert Pad(Dec(minor)) + " " == Spaces(r + 1);
  }

  function Tokens(major: nat, n: nat): (r: seq<string>)
    ensures |r| == n
  {
    if n == 0 then [] else Tokens(major, n - 1) + [Token(major, n - 1)]
  }

  lemma {:induction false} TokenAt(major: nat, n: nat, i: nat)
    requires i < n
    ensures Tokens(major, n)[i] == Token(major, i)
  {
    if i < n - 1 {
      TokenAt(major, n - 1, i);
    }
  }

  lemma {:induction false} FeedEntries(major: nat, n: nat)
    ensures FeedAll(Split([], ""), Entries(major, n)) == Split(Tokens(major, n), "")
  {
    if n > 0 {
      FeedEntries(major, n - 1);
      var l, r := EntryShape(major, n - 1);
      NextWord(Entries(major, n - 1), Tokens(major, n - 1), l, Token(major, n - 1), r);
    }
  }

  /** The last token comes before the cut. */
  predicate Fits(major: nat, n: nat) {
    n == 0 || |Entries(major, n - 1)| + |Pad(Dec(major))| + |Token(major, n - 1)| <= 8 * n - 1
  }

  lemma {:induction false} WordsOfSpaces(a: string, ws: seq<string>, l: nat)
    requires FeedAll(Split([], ""), a) == Split(ws, "")
    ensures Words(a + Spaces(l)) == ws
  {
    FeedConcat(Split([], ""), a, Spaces(l));
    FeedSpaces(Split(ws, ""), l);
  }

  /** Text that is cut behind its last word. */
  lemma {:induction false} CutBehind(t: string, a: string, ws: seq<string>, l: nat, w: string, r: nat, len: nat)
    requires FeedAll(Split([], ""), a) == Split(ws, "") && IsWord(w)
    requires |a| + l + |w| <= len <= |a| + l + |w| + r && t == (a + (Spaces(l) + (w + Spaces(r))))[..len]
    ensures Words(t) == ws + [w]
  {
    var k := len - |a| - l - |w|;
    assert t == a + (Spaces(l) + (w + Spaces(k)));
    LastWord(a, ws, l, w, k);
  }

  /** Text that is cut inside its last word keeps the first part of it. */
  lemma {:induction false} CutInside(a: string, ws: seq<string>, l: nat, w: string, r: nat, m: nat)
    requires FeedAll(Split([], ""), a) == Split(ws, "") && IsWord(w) && 0 < m < |w|
    ensures Words((a + (Spaces(l) + (w + Spaces(r))))[..|a| + l + m]) == ws + [w[..m]]
  {
    assert (a + (Spaces(l) + (w + Spaces(r))))[..|a| + l + m] == a + (Spaces(l) + (w[..m] + Spaces(0)));
    LastWord(a, ws, l, w[..m], 0);
  }

  /** Text that is cut before its last word has fewer words. */
  lemma {:induction false} CutBefore(a: string, ws: seq<string>, l: nat, w: string, r: nat, len: nat)
    requires FeedAll(Split([], ""), a) == Split(ws, "") && len <= |a| + l
    ensures |Words((a + (Spaces(l) + (w + Spaces(r))))[..len])| <= |ws|
  {
    var t := a + Spaces(l);
    assert (a + (Spaces(l) + (w + Spaces(r))))[..len] == t[..len];
    assert t[..len] + t[len..] == t;
    WordsOfPrefix(t[..len], t[len..]);
    WordsOfSpaces(a, ws, l);
  }

  /** Text whose last word does not survive a cut: it is gone, or only its first m characters are left. */
  lemma {:induction false} CutShort(t: string, a: string, ws: seq<string>, l: nat, w: string, r: nat, len: nat)
    returns (m: nat)
    requires FeedAll(Split([], ""), a) == Split(ws, "") && IsWord(w)
    requires len < |a| + l + |w| && t == (a + (Spaces(l) + (w + Spaces(r))))[..len]
    ensures m < |w|
    ensures if m == 0 then |Words(t)| <= |ws| else Words(t) == ws + [w[..m]] && |a| < len
  {
    if len <= |a| + l {
      m := 0;
      CutBefore(a, ws, l, w, r, len);
    } else {
      m := len - |a| - l;
      CutInside(a, ws, l, w, r, m);
    }
  }

  /** The table is a cut of some text a with the words before the last, and the last token w among spaces. */
  lemma {:induction false} TableParts(major: nat, n: nat) returns (a: string, l: nat, w: string, r: nat)
    requires n > 0
    ensures a == Entries(major, n - 1) && w == Token(major, n - 1) && l == |Pad(Dec(major))|
    ensures 8 * n - 1 <= |a| + l + |w| + r && Table(major, n) == (a + (Spaces(l) + (w + Spaces(r))))[..8 * n - 1]
  {
    a, w := Entries(major, n - 1), Token(major, n - 1);
    l, r := EntryShape(major, n - 1);
    r := r + 1;
    assert Entries(major, n) == a + (Spaces(l) + (w + Spaces(r)));
  }

  /** If the last token fits, the shell splits the table into the tokens. */
  lemma {:induction false} WordsOfTable(major: nat, n: nat)
    requires Fits(major, n)
    ensures Words(Table(major, n)) == Tokens(major, n)
  {
    if n > 0 {
      var a, l, w, r := TableParts(major, n);
      FeedEntries(major, n - 1);
      CutBehind(Table(major, n), a, Tokens(major, n - 1), l, w, r, 8 * n - 1);
    }
  }

  /** If it does not fit, it is missing, or only its first m characters are left. */
  lemma {:induction false} WordsOfCutTable(major: nat, n: nat) returns (m: nat)
    requires n > 0 && !Fits(major, n)
    ensures m < |Token(major, n - 1)|
    ensures m == 0 ==> |Words(Table(major, n))| < n
    ensures m > 0 ==> Words(Table(major, n)) == Tokens(major, n - 1) + [Token(major, n - 1)[..m]]
    ensures m > 0 ==> |Entries(major, n - 1)| < 8 * n - 1
  {
    var a, l, w, r := TableParts(major, n);
    FeedEntries(major, n - 1);
    m := CutShort(Table(major, n), a, Tokens(major, n - 1), l, w, r, 8 * n - 1);
  }

  // ----- the round trip

  lemma {:induction false} AllWordsTail(ws: seq<string>)
    requires AllWords(ws) && ws != []
    ensures IsWord(ws[0]) && AllWords(ws[1..])
  {
    forall i | 0 <= i < |ws| - 1
      ensures IsWord(ws[1..][i])
    {
      assert IsWord(ws[i + 1]);
    }
  }

  /** echo puts words together so that splitting them again gives them back. */
  lemma {:induction false} FeedEcho(done: seq<string>, ws: seq<string>)
    requires AllWords(ws)
    ensures Close(FeedAll(Split(done, ""), Echo(ws))) == done + ws
    decreases |ws|
  {
    if ws == [] {
      assert done + ws == done;
    } else {
      AllWordsTail(ws);
      var p := Split(done, "");
      FeedWord(p, ws[0]);
      assert "" + ws[0] == ws[0] && ws == [ws[0]] + ws[1..];
      if |ws| > 1 {
        assert Echo(ws) == ws[0] + (" " + Echo(ws[1..]));
        FeedConcat(p, ws[0], " " + Echo(ws[1..]));
        assert (" " + Echo(ws[1..]))[1..] == Echo(ws[1..]);
        FeedEcho(done + [ws[0]], ws[1..]);
        assert done + [ws[0]] + ws[1..] == done + ws;
      }
    }
  }

  lemma {:induction false} FieldEndIs(w: string, rest: string)
    requires IsWord(w) || w == ""
    requires rest == "" || rest[0] == ' '
    ensures FieldEnd(w + rest) == |w|
  {
    if w == "" {
      assert w + rest == rest;
    } else {
      assert (w + rest)[1..] == w[1..] + rest;
      FieldEndIs(w[1..], rest);
    }
  }

  /** The first field of a line and the line behind it. */
  lemma {:induction false} FieldStep(w: string, rest: string, i: nat)
    requires IsWord(w) && (rest == "" || rest[0] == ' ')
    ensures Field(w + rest, 0) == w
    ensures i > 0 && rest != "" ==> Field(w + rest, i) == Field(rest[1..], i - 1)
  {
    FieldEndIs(w, rest);
    assert (w + rest)[..|w|] == w;
    if rest != "" {
      assert (w + rest)[|w| + 1..] == rest[1..];
    }
  }

  lemma {:induction false} FieldOfEcho(ws: seq<string>, i: nat)
    requires i < |ws| && AllWords(ws)
    ensures Field(Echo(ws), i) == ws[i]
    decreases i
  {
    var rest := if |ws| == 1 then "" else " " + Echo(ws[1..]);
    assert Echo(ws) == ws[0] + rest;
    AllWordsTail(ws);
    FieldStep(ws[0], rest, i);
    if i > 0 {
      assert rest[1..] == Echo(ws[1..]);
      FieldOfEcho(ws[1..], i - 1);
    }
  }

  /** cut picks the words of an echo one by one. */
  lemma {:induction false} CutOfEcho(ws: seq<string>, i: nat)
    requires i < |ws| && AllWords(ws)
    ensures Cut(Echo(ws), i) == ws[i]
  {
    FieldOfEcho(ws, i);
    if |ws| > 1 {
      assert Echo(ws)[|ws[0]|] == ' ';
    }
  }

  lemma {:induction false} DigitEndIs(d: string, rest: string)
    requires (forall i :: 0 <= i < |d| ==> IsDigit(d[i])) && (rest == "" || !IsDigit(rest[0]))
    ensures DigitEnd(d + rest) == |d|
  {
    if d == "" {
      assert d + rest == rest;
    } else {
      assert (d + rest)[1..] == d[1..] + rest;
      DigitEndIs(d[1..], rest);
    }
  }

  /** Digits in front of a colon survive the first rule; the colon and the digits behind it do not. */
  lemma {:induction false} SedMajorIs(maj: string, min: string)
    requires forall i :: 0 <= i < |maj| ==> IsDigit(maj[i])
    requires forall i :: 0 <= i < |min| ==> IsDigit(min[i])
    ensures SedMajor(maj + ":" + min) == maj
  {
    var s := maj + ":" + min;
    if maj == "" {
      assert s[1..] == min + "";
      DigitEndIs(min, "");
    } else {
      assert s[1..] == maj[1..] + ":" + min;
      SedMajorIs(maj[1..], min);
    }
  }

  lemma {:induction false} SedMinorDigits(min: string)
    requires forall i :: 0 <= i < |min| ==> IsDigit(min[i])
    ensures SedMinor(min) == min
  {
    if min != "" {
      DigitEndIs(min, "");
      assert min + "" == min;
      SedMinorDigits(min[1..]);
    }
  }

  lemma {:induction false} SedMinorStep(s: string)
    requires DigitEnd(s) < |s| && s[DigitEnd(s)] == ':'
    ensures SedMinor(s) == SedMinor(s[DigitEnd(s) + 1..])
  {
  }

  lemma {:induction false} SedMinorIs(maj: string, min: string)
    requires forall i :: 0 <= i < |maj| ==> IsDigit(maj[i])
    requires forall i :: 0 <= i < |min| ==> IsDigit(min[i])
    ensures SedMinor(maj + ":" + min) == min
  {
    var s := maj + ":" + min;
    assert s == maj + (":" + min);
    DigitEndIs(maj, ":" + min);
    SedMinorStep(s);
    assert s[|maj| + 1..] == min;
    SedMinorDigits(min);
  }

  lemma {:induction false} SedMajorDigits(maj: string)
    requires forall i :: 0 <= i < |maj| ==> IsDigit(maj[i])
    ensures SedMajor(maj) == maj
  {
    if maj != "" {
      SedMajorDigits(maj[1..]);
    }
  }

  /** What the two sed rules make of a word. */
  function PairOf(word: string): (string, string) {
    (SedMajor(word), SedMinor(word))
  }

  lemma {:induction false} PairOfToken(major: nat, minor: nat)
    ensures PairOf(Token(major, minor)) == (Dec(major), Dec(minor))
  {
    SedMajorIs(Dec(major), Dec(minor));
    SedMinorIs(Dec(major), Dec(minor));
  }

  /** A token that is cut short is not taken for the whole one, unless it is cut right before the colon
      and major and minor are the same number. */
  lemma {:induction false} PairOfCutToken(major: nat, minor: nat, m: nat)
    requires 0 < m < |Token(major, minor)| && major != minor
    ensures PairOf(Token(major, minor)[..m]) != (Dec(major), Dec(minor))
  {
    var d, e := Dec(major), Dec(minor);
    if m <= |d| {
      assert Token(major, minor)[..m] == d[..m];
      SedMajorDigits(d[..m]);
      SedMinorDigits(d[..m]);
      DecDenotes(major);
      DecDenotes(minor);
    } else {
      var e' := e[..m - |d| - 1];
      assert Token(major, minor)[..m] == d + ":" + e';
      SedMinorIs(d, e');
    }
  }

  /** The loop of insmod_test_drv.sh over the text of /proc/test_mck/devno: echo, cut and sed see every word once. */
  method ParseTable(devno: string) returns (pairs: seq<(string, string)>)
    ensures |pairs| == |Words(devno)| && forall i :: 0 <= i < |pairs| ==> pairs[i] == PairOf(Words(devno)[i])
  {
    var line := Echo(Words(devno));
    var ents := |Words(line)|;
    WordsOfPrefix(devno, "");
    FeedEcho([], Words(devno));
    pairs := [];
    for i := 0 to ents
      invariant |pairs| == i
      invariant forall k :: 0 <= k < i ==> pairs[k] == PairOf(Words(devno)[k])
    {
      CutOfEcho(Words(devno), i);
      var maj := SedMajor(Cut(line, i));
      var min := SedMinor(Cut(line, i));
      pairs := pairs + [(maj, min)];
    }
  }

  /** Every major and minor number, in order. */
  predicate Recovered(pairs: seq<(string, string)>, major: nat, n: nat) {
    |pairs| == n && forall i :: 0 <= i < n ==> pairs[i] == (Dec(major), Dec(i))
  }

  /** Numbers that keep to their three columns fit. */
  lemma {:induction false} FitsNarrow(major: nat, n: nat)
    requires major < 1000 && n <= 1000
    ensures Fits(major, n)
  {
    if n > 0 {
      EntriesWidth(major, n - 1);
      DecWidth(major);
      DecWidth(n - 1);
    }
  }

  /** A last token that is cut has a minor number other than the major. */
  lemma {:induction false} CutAwayFromDiagonal(major: nat, n: nat)
    requires n > 0 && !Fits(major, n) && |Entries(major, n - 1)| < 8 * n - 1
    ensures major != n - 1
  {
    if major < 1000 && n <= 1000 {
      FitsNarrow(major, n);
    } else if major >= 1000 {
      WideMajor(major, n - 1);
    }
  }

  /**
   * Printing the table, reading it from the proc file in pieces of any size and parsing it recovers
   * every major and minor number, in order, exactly when the last token fits.
   */
  method RoundTrip(major: nat, n: nat, nbytes: nat) returns (pairs: seq<(string, string)>)
    requires major <= INT_MAX && 8 * n < INT_MAX && 0 < nbytes < TWO63
    ensures Recovered(pairs, major, n) <==> Fits(major, n)
    ensures Fits(major, n) ==> forall i :: 0 <= i < n ==> Value(pairs[i].0) == major && Value(pairs[i].1) == i
  {
    var buf := PrintTable(major, n);
    var devnos := ProcRead.Cat(CString(buf[..]), nbytes);
    pairs := ParseTable(devnos);
    if Fits(major, n) {
      WordsOfTable(major, n);
      forall i | 0 <= i < n
        ensures pairs[i] == (Dec(major), Dec(i))
        ensures Value(pairs[i].0) == major && Value(pairs[i].1) == i
      {
        DecDenotes(major);
        DecDenotes(i);
        TokenAt(major, n, i);
        PairOfToken(major, i);
      }
    } else {
      ghost var m := WordsOfCutTable(major, n);
      if m > 0 {
        CutAwayFromDiagonal(major, n);
        PairOfCutToken(major, n - 1, m);
      }
    }
  }

  /** For a 12-bit major: two devices always fit, up to a thousand do when the major keeps to its three columns. */
  lemma {:induction false} FitsMeans(major: nat, n: nat)
    requires major < 4096
    ensures Fits(major, n) <==> n <= 2 || (major < 1000 && n <= 1000)
  {
    if major < 1000 && n <= 1000 {
      FitsNarrow(major, n);
    } else if n <= 2 {
      DecWide(major);
      assert n == 2 ==> Entries(major, 1) == "" + Entry(major, 0);
    } else {
      if major >= 1000 {
        WideMajor(major, n - 1);
        DecWide(major);
      } else {
        WideMinors(major, n - 1);
        DecWide(n - 1);
      }
    }
  }

  /** A four-digit major is too wide for three devices. */
  lemma {:induction false} ThirdDeviceLost()
    ensures !Fits(1000, 3)
  {
    FitsMeans(1000, 3);
  }
}
