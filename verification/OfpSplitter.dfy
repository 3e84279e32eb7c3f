/**
 * The list splitter util/extestcase_ofp.awk, which writes one numbered script per test line, and
 * util/countexclude_ofp.awk, which counts the lines it leaves out.
 */
module OfpSplitter {
  import opened Prelude
  import opened Decimal
  import opened WordSplit

  /** /^##/ */
  predicate IsHeader(line: string) {
    |line| >= 2 && line[0] == '#' && line[1] == '#'
  }

  /** $2, empty when there is none. */
  function Field2(line: string): string {
    var ws := Words(line);
    if |ws| < 2 then "" else ws[1]
  }

  /** The sections that both programs leave out. */
  const SKIP_LIST: set<string> := {
    "mmap_dev", "getegid", "geteuid", "getgid", "getresgid", "getresuid", "getuid", "setfsgid",
    "setfsuid", "setgid", "setregid", "setresgid", "setresuid", "setreuid", "setuid", "force_exit"
  }

  /** "%03d" */
  function Dec3(n: nat): (r: string) {
    if |Dec(n)| < 3 then seq(3 - |Dec(n)|, _ => '0') + Dec(n) else Dec(n)
  }

  /** The file name of a script, below the directory of test cases. */
  function ScriptName(testname: string, count: nat): string {
    testname + "." + Dec3(count)
  }

  /** A script: the number of the list line it runs, its section, its number there, and the line itself. */
  datatype Script = Script(at: nat, testname: string, count: nat, text: string) {
    function Name(): string { ScriptName(testname, count) }
  }

  /** What both programs look at in a line. */
  datatype Item = Item(isHeader: bool, field2: string, text: string)

  function Parse(line: string): Item {
    Item(IsHeader(line), Field2(line), line)
  }

  function ParseAll(lines: seq<string>): (r: seq<Item>)
    ensures |r| == |lines|
  {
    seq(|lines|, i requires 0 <= i < |lines| => Parse(lines[i]))
  }

  // ----- what belongs to which section

  /** The last header before line i, or -1. */
  function Section(items: seq<Item>, i: nat): (h: int)
    requires i <= |items|
    ensures -1 <= h < i
  {
    if i == 0 then -1 else if items[i - 1].isHeader then i - 1 else Section(items, i - 1)
  }

  lemma {:induction false} SectionIs(items: seq<Item>, i: nat)
    requires i <= |items|
    ensures Section(items, i) >= 0 ==> items[Section(items, i)].isHeader
    ensures Section(items, i) + 1 < i ==> !items[Section(items, i) + 1].isHeader
  {
    if i > 0 && !items[i - 1].isHeader {
      SectionIs(items, i - 1);
    }
  }

  /** The name in force below header h; before the first header it is "#". */
  function SectionName(items: seq<Item>, h: int): string
    requires -1 <= h < |items|
  {
    if h == -1 then "#" else items[h].field2
  }

  /** Section h is left out; the lines before the first header never are. */
  predicate Skips(skip: set<string>, items: seq<Item>, h: int)
    requires -1 <= h < |items|
  {
    h >= 0 && SectionName(items, h) in skip
  }

  /** Line i becomes a script. */
  predicate Emits(skip: set<string>, items: seq<Item>, i: nat)
    requires i < |items|
  {
    !items[i].isHeader && !Skips(skip, items, Section(items, i))
  }

  /** The script of line i: numbered by its place in its section, from 0. */
  function ScriptOf(items: seq<Item>, i: nat): Script
    requires i < |items|
  {
    var h := Section(items, i);
    Script(i, SectionName(items, h), i - h - 1, items[i].text)
  }

  /** The scripts of the first n lines, in order. */
  function Scripts(skip: set<string>, items: seq<Item>, n: nat): seq<Script>
    requires n <= |items|
  {
    if n == 0 then []
    else Scripts(skip, items, n - 1) + if Emits(skip, items, n - 1) then [ScriptOf(items, n - 1)] else []
  }

  function CaseLines(items: seq<Item>, n: nat): nat
    requires n <= |items|
  {
    if n == 0 then 0 else CaseLines(items, n - 1) + if items[n - 1].isHeader then 0 else 1
  }

  // ----- the two programs

  /** extestcase_ofp.awk: the scripts it writes, in order. */
  method Generate(skip: set<string>, items: seq<Item>) returns (scripts: seq<Script>)
    ensures scripts == Scripts(skip, items, |items|)
  {
    var testname := "#";
    var count := 0;
    var flagSkip := false;
    scripts := [];
    for i := 0 to |items|
      invariant testname == SectionName(items, Section(items, i))
      invariant count == if flagSkip then 0 else i - Section(items, i) - 1
      invariant flagSkip <==> Skips(skip, items, Section(items, i))
      invariant scripts == Scripts(skip, items, i)
    {
      if items[i].isHeader {
        testname := items[i].field2;
        count := 0;
        flagSkip := testname in skip;
      }
      if !items[i].isHeader && !flagSkip {
        scripts := scripts + [Script(i, testname, count, items[i].text)];
        count := count + 1;
      }
    }
  }

  /** Line i belongs to a section that is left out. */
  predicate Omits(skip: set<string>, items: seq<Item>, i: nat)
    requires i < |items|
  {
    !items[i].isHeader && Skips(skip, items, Section(items, i))
  }

  /** countexclude_ofp.awk.  What it counts is what the generator leaves out: together they are all case lines. */
  method CountExcluded(skip: set<string>, items: seq<Item>) returns (exclude: nat)
    ensures |Scripts(skip, items, |items|)| + exclude == CaseLines(items, |items|)
    ensures exclude == |set i | 0 <= i < |items| && Omits(skip, items, i)|
  {
    exclude := 0;
    var flagSkip := false;
    for i := 0 to |items|
      invariant flagSkip <==> Skips(skip, items, Section(items, i))
      invariant |Scripts(skip, items, i)| + exclude == CaseLines(items, i)
      invariant exclude == |set k | 0 <= k < i && Omits(skip, items, k)|
    {
      ghost var soFar := set k | 0 <= k < i && Omits(skip, items, k);
      assert (set k | 0 <= k < i + 1 && Omits(skip, items, k)) == if Omits(skip, items, i) then soFar + {i} else soFar;
      if items[i].isHeader {
        flagSkip := items[i].field2 in skip;
      }
      if !items[i].isHeader && flagSkip {
        exclude := exclude + 1;
      }
    }
  }

  // ----- names

  lemma {:induction false} ValueOfZeros(k: nat, s: string)
    ensures Value(seq(k, _ => '0') + s) == Value(s)
    decreases |s|, k
  {
    var z := seq(k, _ => '0');
    if s == "" {
      assert z + s == z;
      if k > 0 {
        ValueOfZeros(k - 1, "");
        assert z[..k - 1] == seq(k - 1, _ => '0') == seq(k - 1, _ => '0') + "";
      }
    } else {
      assert (z + s)[..|z + s| - 1] == z + s[..|s| - 1];
      ValueOfZeros(k, s[..|s| - 1]);
    }
  }

  /** The padded number still denotes the count, and holds no dot. */
  lemma {:induction false} Dec3Denotes(n: nat)
    ensures Value(Dec3(n)) == n && '.' !in Dec3(n)
  {
    DecDenotes(n);
    if |Dec(n)| < 3 {
      ValueOfZeros(3 - |Dec(n)|, Dec(n));
    }
    assert forall c :: c in Dec(n) ==> IsDigit(c);
  }

  /** No number but 0 begins with a zero. */
  lemma {:induction false} DecLeads(n: nat)
    ensures n > 0 ==> Dec(n)[0] != '0'
  {
    if n >= 10 {
      DecLeads(n / 10);
    }
  }

  /** Script names determine section name and number: the number holds no dot. */
  lemma {:induction false} ScriptNameInjective(a: string, m: nat, b: string, n: nat)
    requires ScriptName(a, m) == ScriptName(b, n)
    ensures a == b && m == n
  {
    Dec3Denotes(m);
    Dec3Denotes(n);
    var s := ScriptName(a, m);
    var d, e := Dec3(m), Dec3(n);
    assert s[|a|] == '.' && s[|b|] == '.';
    assert s[|a| + 1..] == d && s[|b| + 1..] == e;
    assert |a| == |b|;
    assert s[..|a|] == a && s[..|b|] == b;
  }

  /** Each script is that of a line which becomes one. */
  lemma {:induction false} ScriptsAt(skip: set<string>, items: seq<Item>, n: nat, k: nat)
    requires n <= |items| && k < |Scripts(skip, items, n)|
    ensures var t := Scripts(skip, items, n)[k];
            t.at < n && Emits(skip, items, t.at) && t == ScriptOf(items, t.at)
  {
    if k < |Scripts(skip, items, n - 1)| {
      ScriptsAt(skip, items, n - 1, k);
    }
  }

  lemma {:induction false} ScriptsAscend(skip: set<string>, items: seq<Item>, n: nat, k: nat, l: nat)
    requires n <= |items| && k < l < |Scripts(skip, items, n)|
    ensures Scripts(skip, items, n)[k].at < Scripts(skip, items, n)[l].at
  {
    if l < |Scripts(skip, items, n - 1)| {
      ScriptsAscend(skip, items, n - 1, k, l);
    } else {
      ScriptsAt(skip, items, n - 1, k);
    }
  }

  lemma {:induction false} ScriptsHave(skip: set<string>, items: seq<Item>, n: nat, i: nat) returns (k: nat)
    requires i < n <= |items| && Emits(skip, items, i)
    ensures k < |Scripts(skip, items, n)| && Scripts(skip, items, n)[k] == ScriptOf(items, i)
  {
    if i == n - 1 {
      k := |Scripts(skip, items, n - 1)|;
    } else {
      k := ScriptsHave(skip, items, n - 1, i);
    }
  }

  /** A section that produces scripts: not on the skip list, and a case line right below its header. */
  predicate Active(skip: set<string>, items: seq<Item>, h: int) {
    && -1 <= h < |items| - 1 && (h == -1 || items[h].isHeader)
    && !items[h + 1].isHeader && !Skips(skip, items, h)
  }

  ghost predicate DistinctSections(skip: set<string>, items: seq<Item>) {
    forall h, h' :: h < h' && Active(skip, items, h) && Active(skip, items, h') ==>
      SectionName(items, h) != SectionName(items, h')
  }

  ghost predicate DistinctNames(scripts: seq<Script>) {
    forall k, l :: 0 <= k < l < |scripts| ==> scripts[k].Name() != scripts[l].Name()
  }

  /** The section of a line that becomes a script is active. */
  lemma {:induction false} SectionIsActive(skip: set<string>, items: seq<Item>, i: nat)
    requires i < |items| && Emits(skip, items, i)
    ensures Active(skip, items, Section(items, i))
  {
    SectionIs(items, i);
  }

  lemma {:induction false} SameName(s: Script, t: Script)
    requires s.Name() == t.Name()
    ensures s.testname == t.testname && s.count == t.count
  {
    ScriptNameInjective(s.testname, s.count, t.testname, t.count);
  }

  /** Two scripts of one name have the same number in sections of one name. */
  lemma {:induction false} SameNameSameNumber(items: seq<Item>, i: nat, j: nat)
    requires i < |items| && j < |items| && ScriptOf(items, i).Name() == ScriptOf(items, j).Name()
    ensures SectionName(items, Section(items, i)) == SectionName(items, Section(items, j))
    ensures i - Section(items, i) == j - Section(items, j)
  {
    SameName(ScriptOf(items, i), ScriptOf(items, j));
  }

  lemma {:induction false} OneSection(skip: set<string>, items: seq<Item>, h: int, h': int)
    requires DistinctSections(skip, items) && Active(skip, items, h) && Active(skip, items, h')
    requires SectionName(items, h) == SectionName(items, h')
    ensures h == h'
  {
  }

  /** Two lines whose scripts share a name would lie in two active sections of one name. */
  lemma {:induction false} SameNameSameLine(skip: set<string>, items: seq<Item>, i: nat, j: nat)
    requires i < |items| && j < |items| && Emits(skip, items, i) && Emits(skip, items, j)
    requires DistinctSections(skip, items) && ScriptOf(items, i).Name() == ScriptOf(items, j).Name()
    ensures i == j
  {
    SameNameSameNumber(items, i, j);
    SectionIsActive(skip, items, i);
    SectionIsActive(skip, items, j);
    OneSection(skip, items, Section(items, i), Section(items, j));
  }

  lemma {:induction false} SectionsToScripts(skip: set<string>, items: seq<Item>, k: nat, l: nat)
    requires DistinctSections(skip, items) && k < l < |Scripts(skip, items, |items|)|
    ensures Scripts(skip, items, |items|)[k].Name() != Scripts(skip, items, |items|)[l].Name()
  {
    var s, t := Scripts(skip, items, |items|)[k], Scripts(skip, items, |items|)[l];
    ScriptsAt(skip, items, |items|, k);
    ScriptsAt(skip, items, |items|, l);
    ScriptsAscend(skip, items, |items|, k, l);
    if s.Name() == t.Name() {
      SameNameSameLine(skip, items, s.at, t.at);
      assert false;
    }
  }

  /** The first line of an active section is script number 0 of that section. */
  lemma {:induction false} FirstOfSection(skip: set<string>, items: seq<Item>, h: int)
    requires Active(skip, items, h)
    ensures Emits(skip, items, h + 1)
    ensures ScriptOf(items, h + 1).Name() == ScriptName(SectionName(items, h), 0)
  {
  }

  lemma {:induction false} OneScript(all: seq<Script>, k: nat, l: nat)
    requires DistinctNames(all) && k < |all| && l < |all| && all[k].Name() == all[l].Name()
    ensures k == l
  {
  }

  lemma {:induction false} ScriptsToSections(skip: set<string>, items: seq<Item>, h: int, h': int)
    requires DistinctNames(Scripts(skip, items, |items|))
    requires Active(skip, items, h) && Active(skip, items, h') && SectionName(items, h) == SectionName(items, h')
    ensures h == h'
  {
    FirstOfSection(skip, items, h);
    FirstOfSection(skip, items, h');
    var k := ScriptsHave(skip, items, |items|, h + 1);
    var l := ScriptsHave(skip, items, |items|, h' + 1);
    OneScript(Scripts(skip, items, |items|), k, l);
  }

  /** All scripts get different names exactly when no two active sections have the same name. */
  lemma {:induction false} NamesDistinct(skip: set<string>, items: seq<Item>)
    ensures DistinctNames(Scripts(skip, items, |items|)) <==> DistinctSections(skip, items)
  {
    var all := Scripts(skip, items, |items|);
    if DistinctSections(skip, items) {
      forall k, l | 0 <= k < l < |all|
        ensures all[k].Name() != all[l].Name()
      {
        SectionsToScripts(skip, items, k, l);
      }
    }
    if DistinctNames(all) {
      forall h, h' | h < h' && Active(skip, items, h) && Active(skip, items, h')
        ensures SectionName(items, h) != SectionName(items, h')
      {
        if SectionName(items, h) == SectionName(items, h') {
          ScriptsToSections(skip, items, h, h');
        }
      }
    }
  }

  // ----- the result, on the characters of the list

  /** Line h is the nearest header above line i; -1 if there is none. */
  ghost predicate Above(lines: seq<string>, i: int, h: int) {
    && -1 <= h < i <= |lines| && (h >= 0 ==> "##" <= lines[h])
    && forall j :: h < j < i ==> !("##" <= lines[j])
  }

  /** The names that both programs compare with. */
  predicate Listed(name: string) {
    || name == "mmap_dev" || name == "getegid" || name == "geteuid" || name == "getgid"
    || name == "getresgid" || name == "getresuid" || name == "getuid" || name == "setfsgid"
    || name == "setfsuid" || name == "setgid" || name == "setregid" || name == "setresgid"
    || name == "setresuid" || name == "setreuid" || name == "setuid" || name == "force_exit"
  }

  /** skip is the list of those names. */
  ghost predicate IsList(skip: set<string>) {
    forall name :: name in skip <==> Listed(name)
  }

  lemma {:induction false} SkipListIs()
    ensures IsList(SKIP_LIST)
  {
  }

  /** $2 of a line with two words or more, whatever the white space. */
  lemma {:induction false} SecondField(a: string, w: string, b: string, w': string, c: string)
    requires IsBlank(a) && IsWord(w) && IsBlank(b) && b != "" && IsWord(w') && (c == "" || IsSpace(c[0]))
    ensures Field2(a + (w + (b + (w' + c)))) == w'
  {
    WordsCons(a, w, b + (w' + c));
    WordsCons(b, w', c);
  }

  /** $2 of a line with fewer. */
  lemma {:induction false} NoSecondField(a: string, w: string, b: string)
    requires IsBlank(a) && IsWord(w) && IsBlank(b)
    ensures Field2(a) == "" && Field2(a + (w + b)) == ""
  {
    WordsOfBlank(a);
    WordsCons(a, w, b);
    WordsOfBlank(b);
  }

  /** The nearest header is the one that the programs remember. */
  lemma {:induction false} AboveIs(lines: seq<string>, i: nat, h: int)
    requires i <= |lines|
    ensures Above(lines, i, h) <==> h == Section(ParseAll(lines), i)
  {
    if i > 0 {
      AboveIs(lines, i - 1, h);
      assert IsHeader(lines[i - 1]) <==> "##" <= lines[i - 1];
    }
  }

  /** Line i is a case line of a section that is not on the list, or before the first header. */
  ghost predicate Runs(lines: seq<string>, i: int, h: int) {
    && 0 <= i < |lines| && !("##" <= lines[i]) && Above(lines, i, h)
    && (h >= 0 ==> !Listed(Field2(lines[h])))
  }

  lemma {:induction false} RunsIs(skip: set<string>, lines: seq<string>, i: nat, h: int)
    requires i < |lines| && IsList(skip)
    ensures Runs(lines, i, h) <==> Emits(skip, ParseAll(lines), i) && h == Section(ParseAll(lines), i)
  {
    AboveIs(lines, i, h);
    assert IsHeader(lines[i]) <==> "##" <= lines[i];
  }

  /** All lines between a header and a line below it are case lines of that header. */
  lemma {:induction false} SameSection(items: seq<Item>, j: nat, x: nat)
    requires j <= |items| && Section(items, j) < x < j
    ensures !items[x].isHeader && Section(items, x) == Section(items, j)
  {
    if x < j - 1 {
      SameSection(items, j - 1, x);
    }
  }

  /** Some script is that of line i. */
  ghost predicate HasLine(scripts: seq<Script>, i: int) {
    exists k :: 0 <= k < |scripts| && scripts[k].at == i
  }

  /** The scripts are those of the lines that become one, in order. */
  ghost predicate Complete(skip: set<string>, items: seq<Item>, all: seq<Script>) {
    && (forall k {:trigger all[k]} :: 0 <= k < |all| ==>
          all[k].at < |items| && Emits(skip, items, all[k].at) && all[k] == ScriptOf(items, all[k].at))
    && (forall k, l :: 0 <= k < l < |all| ==> all[k].at < all[l].at)
    && (forall i :: 0 <= i < |items| && Emits(skip, items, i) ==> HasLine(all, i))
  }

  lemma {:induction false} ScriptsComplete(skip: set<string>, items: seq<Item>)
    ensures Complete(skip, items, Scripts(skip, items, |items|))
  {
    var all := Scripts(skip, items, |items|);
    forall k | 0 <= k < |all|
      ensures all[k].at < |items| && Emits(skip, items, all[k].at) && all[k] == ScriptOf(items, all[k].at)
    {
      ScriptsAt(skip, items, |items|, k);
    }
    forall k, l | 0 <= k < l < |all|
      ensures all[k].at < all[l].at
    {
      ScriptsAscend(skip, items, |items|, k, l);
    }
    forall i | 0 <= i < |items| && Emits(skip, items, i)
      ensures HasLine(all, i)
    {
      var k := ScriptsHave(skip, items, |items|, i);
    }
  }

  /** No line that becomes a script lies between the lines of two scripts that follow each other. */
  lemma {:induction false} NoneBetween(skip: set<string>, items: seq<Item>, all: seq<Script>, l: nat, x: nat)
    requires Complete(skip, items, all) && l < |all| && x < all[l].at && Emits(skip, items, x)
    ensures l > 0 && x <= all[l - 1].at
  {
    assert HasLine(all, x);
    var m :| 0 <= m < |all| && all[m].at == x;
    assert m < l;
    assert m < l - 1 ==> all[m].at < all[l - 1].at;
  }

  lemma {:induction false} EmitsAlike(skip: set<string>, items: seq<Item>, j: nat, x: nat)
    requires j < |items| && Emits(skip, items, j) && Section(items, j) < x < j
    ensures Emits(skip, items, x)
  {
    SameSection(items, j, x);
  }

  /** A script is the first of its section, or the line before it is the script before it. */
  lemma {:induction false} NumberIs(skip: set<string>, items: seq<Item>, all: seq<Script>, l: nat)
    requires Complete(skip, items, all) && l < |all|
    ensures all[l].at < |items| && (l > 0 ==> all[l - 1].at < all[l].at)
    ensures if l > 0 && Section(items, all[l].at) < all[l - 1].at
            then all[l - 1].testname == all[l].testname && all[l].count == all[l - 1].count + 1
            else all[l].count == 0
  {
    var j := all[l].at;
    var h := Section(items, j);
    assert all[l] == ScriptOf(items, j);
    if h + 1 < j {
      EmitsAlike(skip, items, j, h + 1);
      NoneBetween(skip, items, all, l, h + 1);
      EmitsAlike(skip, items, j, j - 1);
      NoneBetween(skip, items, all, l, j - 1);
      SameSection(items, j, j - 1);
      assert all[l - 1].at == j - 1 && all[l - 1] == ScriptOf(items, j - 1);
    }
  }

  /** Script k is one more than the script before it if no header lies between them, else number 0. */
  ghost predicate Numbered(lines: seq<string>, scripts: seq<Script>, k: nat)
    requires k < |scripts|
  {
    && (k > 0 ==> scripts[k - 1].at < scripts[k].at <= |lines|)
    && if k > 0 && forall j :: scripts[k - 1].at < j < scripts[k].at ==> !("##" <= lines[j])
       then scripts[k].testname == scripts[k - 1].testname && scripts[k].count == scripts[k - 1].count + 1
       else scripts[k].count == 0
  }

  /** Script k runs its own line, under the second word of the nearest header above it, or "#". */
  ghost predicate Named(lines: seq<string>, scripts: seq<Script>, k: nat)
    requires k < |scripts|
  {
    && scripts[k].at < |lines| && scripts[k].text == lines[scripts[k].at]
    && forall h :: Above(lines, scripts[k].at, h) ==>
         Runs(lines, scripts[k].at, h) && scripts[k].testname == if h < 0 then "#" else Field2(lines[h])
  }

  /** The scripts and the list they come from, with nothing said through what the programs remember. */
  ghost predicate Fits(lines: seq<string>, scripts: seq<Script>) {
    && (forall k :: 0 <= k < |scripts| ==> Named(lines, scripts, k))
    && (forall k :: 0 <= k < |scripts| ==> Numbered(lines, scripts, k))
    && (forall i, h :: Runs(lines, i, h) ==> HasLine(scripts, i))
  }

  /** The number in a script's name: at least three digits, no zero in front of more. */
  lemma {:induction false} NameIs(t: Script) returns (d: string)
    ensures t.Name() == t.testname + "." + d && |d| >= 3 && Value(d) == t.count
    ensures (forall i :: 0 <= i < |d| ==> IsDigit(d[i])) && (|d| > 3 ==> d[0] != '0')
  {
    d := Dec3(t.count);
    Dec3Denotes(t.count);
    DecLeads(t.count);
  }

  /** Whether a header lies between two case lines shows in the section of the second. */
  lemma {:induction false} HeaderBetween(lines: seq<string>, i: nat, j: nat)
    requires i < j < |lines| && !("##" <= lines[i])
    ensures (forall x :: i < x < j ==> !("##" <= lines[x])) <==> Section(ParseAll(lines), j) < i
  {
    var h := Section(ParseAll(lines), j);
    AboveIs(lines, j, h);
  }

  lemma {:induction false} ScriptNumbered(skip: set<string>, lines: seq<string>, all: seq<Script>, k: nat)
    requires Complete(skip, ParseAll(lines), all) && k < |all|
    ensures Numbered(lines, all, k)
  {
    NumberIs(skip, ParseAll(lines), all, k);
    if k > 0 {
      assert !ParseAll(lines)[all[k - 1].at].isHeader;
      HeaderBetween(lines, all[k - 1].at, all[k].at);
    }
  }

  lemma {:induction false} ScriptNamed(skip: set<string>, lines: seq<string>, all: seq<Script>, k: nat)
    requires Complete(skip, ParseAll(lines), all) && IsList(skip) && k < |all|
    ensures Named(lines, all, k)
  {
    var i := all[k].at;
    assert all[k] == ScriptOf(ParseAll(lines), i);
    forall h | Above(lines, i, h)
      ensures Runs(lines, i, h) && all[k].testname == if h < 0 then "#" else Field2(lines[h])
    {
      AboveIs(lines, i, h);
      RunsIs(skip, lines, i, h);
    }
  }

  lemma {:induction false} RunsHasLine(skip: set<string>, lines: seq<string>, all: seq<Script>, i: int, h: int)
    requires Complete(skip, ParseAll(lines), all) && IsList(skip) && Runs(lines, i, h)
    ensures HasLine(all, i)
  {
    RunsIs(skip, lines, i, h);
  }

  lemma {:induction false} CompleteFits(skip: set<string>, lines: seq<string>, all: seq<Script>)
    requires Complete(skip, ParseAll(lines), all) && IsList(skip)
    ensures Fits(lines, all)
  {
    forall k | 0 <= k < |all|
      ensures Named(lines, all, k)
    {
      ScriptNamed(skip, lines, all, k);
    }
    forall k | 0 <= k < |all|
      ensures Numbered(lines, all, k)
    {
      ScriptNumbered(skip, lines, all, k);
    }
    forall i, h | Runs(lines, i, h)
      ensures HasLine(all, i)
    {
      RunsHasLine(skip, lines, all, i, h);
    }
  }

  /** Line i is a case line of a section on the list. */
  ghost predicate LeftOut(lines: seq<string>, i: int) {
    0 <= i < |lines| && !("##" <= lines[i]) && exists h :: h >= 0 && Above(lines, i, h) && Listed(Field2(lines[h]))
  }

  lemma {:induction false} LeftOutIs(skip: set<string>, lines: seq<string>, i: nat)
    requires i < |lines| && IsList(skip)
    ensures LeftOut(lines, i) <==> Omits(skip, ParseAll(lines), i)
  {
    var h := Section(ParseAll(lines), i);
    AboveIs(lines, i, h);
    forall g | Above(lines, i, g)
      ensures g == h
    {
      AboveIs(lines, i, g);
    }
    assert IsHeader(lines[i]) <==> "##" <= lines[i];
  }

  lemma {:induction false} SameOmissions(skip: set<string>, lines: seq<string>)
    requires IsList(skip)
    ensures (set i | 0 <= i < |lines| && LeftOut(lines, i))
            == set i | 0 <= i < |lines| && Omits(skip, ParseAll(lines), i)
  {
    forall i | 0 <= i < |lines|
      ensures LeftOut(lines, i) <==> Omits(skip, ParseAll(lines), i)
    {
      LeftOutIs(skip, lines, i);
    }
  }

  lemma {:induction false} CaseLinesIs(lines: seq<string>, n: nat)
    requires n <= |lines|
    ensures CaseLines(ParseAll(lines), n) == |set i | 0 <= i < n && !("##" <= lines[i])|
  {
    if n > 0 {
      CaseLinesIs(lines, n - 1);
      var before := set i | 0 <= i < n - 1 && !("##" <= lines[i]);
      assert (set i | 0 <= i < n && !("##" <= lines[i]))
             == if "##" <= lines[n - 1] then before else before + {n - 1};
    }
  }

  /** Both programs on one list, with the list of sections they name. */
  method SplitList(lines: seq<string>) returns (scripts: seq<Script>, exclude: nat)
    ensures Fits(lines, scripts)
    ensures exclude == |set i | 0 <= i < |lines| && LeftOut(lines, i)|
    ensures |scripts| + exclude == |set i | 0 <= i < |lines| && !("##" <= lines[i])|
    ensures scripts == Scripts(SKIP_LIST, ParseAll(lines), |lines|)
    ensures DistinctNames(scripts) <==> DistinctSections(SKIP_LIST, ParseAll(lines))
  {
    var items := ParseAll(lines);
    scripts := Generate(SKIP_LIST, items);
    exclude := CountExcluded(SKIP_LIST, items);
    NamesDistinct(SKIP_LIST, items);
    SkipListIs();
    ScriptsComplete(SKIP_LIST, items);
    CompleteFits(SKIP_LIST, lines, scripts);
    CaseLinesIs(lines, |lines|);
    SameOmissions(SKIP_LIST, lines);
  }
}
