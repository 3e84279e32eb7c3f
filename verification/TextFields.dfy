/** Decimal numbers as printf writes them. */
module Decimal {

  predicate IsDigit(c: char) {
    '0' <= c <= '9'
  }

  function Digit(d: nat): (c: char)
    requires d < 10
    ensures IsDigit(c)
  {
    "0123456789"[d]
  }

  /** Decimal digits. */
  function Dec(n: nat): (r: string)
    ensures r != "" && forall i :: 0 <= i < |r| ==> IsDigit(r[i])
  {
    if n < 10 then [Digit(n)] else Dec(n / 10) + [Digit(n % 10)]
  }

  lemma {:induction false} DecWidth(n: nat)
    requires n < 1000
    ensures |Dec(n)| <= 3
  {
    if n >= 100 {
      assert |Dec(n / 10)| == |Dec(n / 10 / 10)| + 1 == 2;
    }
  }

  lemma {:induction false} DecNoLonger(n: nat)
    ensures |Dec(n)| <= n + 1
  {
    if n >= 10 {
      DecNoLonger(n / 10);
    }
  }

  lemma {:induction false} DecWide(n: nat)
    requires n >= 1000
    ensures |Dec(n)| >= 4 && (n < 10000 ==> |Dec(n)| == 4)
  {
    var m := n / 10;
    assert |Dec(n)| == |Dec(m)| + 1 && |Dec(m)| == |Dec(m / 10)| + 1 && |Dec(m / 10)| == |Dec(m / 10 / 10)| + 1;
  }

  function Value(s: string): int {
    if s == "" then 0 else 10 * Value(s[..|s| - 1]) + (s[|s| - 1] as int - '0' as int)
  }

  /** The digits denote the number, so equal texts mean equal numbers. */
  lemma {:induction false} DecDenotes(n: nat)
    ensures Value(Dec(n)) == n
  {
    if n < 10 {
      assert Dec(n)[..0] == "";
    } else {
      DecDenotes(n / 10);
      assert Dec(n)[..|Dec(n)| - 1] == Dec(n / 10);
    }
  }
}

/** Splitting text into words at white space, as the shell and awk do. */
module WordSplit {

  predicate IsSpace(c: char) {
    c == ' ' || c == '\t' || c == '\n'
  }

  /** Word splitting in progress: the words finished so far and the one being read. */
  datatype Split = Split(done: seq<string>, cur: string)

  function Close(p: Split): seq<string> {
    if p.cur == "" then p.done else p.done + [p.cur]
  }

  function Feed(p: Split, c: char): Split {
    if !IsSpace(c) then p.(cur := p.cur + [c]) else Split(Close(p), "")
  }

  function FeedAll(p: Split, s: string): Split
    decreases |s|
  {
    if s == "" then p else FeedAll(Feed(p, s[0]), s[1..])
  }

  /** Word splitting by the shell, and fields as awk counts them. */
  function Words(s: string): seq<string> {
    Close(FeedAll(Split([], ""), s))
  }

  predicate IsWord(w: string) {
    w != "" && forall i :: 0 <= i < |w| ==> !IsSpace(w[i])
  }

  function Spaces(n: nat): (r: string)
    ensures |r| == n
  {
    seq(n, _ => ' ')
  }

  lemma {:induction false} FeedConcat(p: Split, a: string, b: string)
    ensures FeedAll(p, a + b) == FeedAll(FeedAll(p, a), b)
    decreases |a|
  {
    if a == "" {
      assert a + b == b;
    } else {
      assert (a + b)[1..] == a[1..] + b;
      FeedConcat(Feed(p, a[0]), a[1..], b);
    }
  }

  lemma {:induction false} FeedWord(p: Split, w: string)
    requires forall i :: 0 <= i < |w| ==> !IsSpace(w[i])
    ensures FeedAll(p, w) == p.(cur := p.cur + w)
    decreases |w|
  {
    if w == "" {
      assert p.cur + w == p.cur;
    } else {
      FeedWord(Feed(p, w[0]), w[1..]);
      assert p.cur + [w[0]] + w[1..] == p.cur + w;
    }
  }

  lemma {:induction false} FeedSpaces(p: Split, n: nat)
    ensures FeedAll(p, Spaces(n)) == if n == 0 then p else Split(Close(p), "")
    decreases n
  {
    if n > 0 {
      assert Spaces(n)[1..] == Spaces(n - 1);
      FeedSpaces(Feed(p, ' '), n - 1);
    }
  }

  /** A word among spaces adds that word; with a space behind it the word is finished. */
  lemma {:induction false} FeedFramed(ws: seq<string>, l: nat, w: string, r: nat)
    requires IsWord(w)
    ensures FeedAll(Split(ws, ""), Spaces(l) + (w + Spaces(r))) == if r == 0 then Split(ws, w) else Split(ws + [w], "")
  {
    var p := Split(ws, "");
    FeedConcat(p, Spaces(l), w + Spaces(r));
    FeedSpaces(p, l);
    FeedConcat(p, w, Spaces(r));
    FeedWord(p, w);
    assert "" + w == w;
    FeedSpaces(Split(ws, w), r);
  }

  /** A last word among spaces, behind text whose words are ws. */
  lemma {:induction false} LastWord(a: string, ws: seq<string>, l: nat, w: string, r: nat)
    requires FeedAll(Split([], ""), a) == Split(ws, "") && IsWord(w)
    ensures Words(a + (Spaces(l) + (w + Spaces(r)))) == ws + [w]
  {
    FeedConcat(Split([], ""), a, Spaces(l) + (w + Spaces(r)));
    FeedFramed(ws, l, w, r);
  }

  /** A further word among spaces, with a space behind it. */
  lemma {:induction false} NextWord(a: string, ws: seq<string>, l: nat, w: string, r: nat)
    requires FeedAll(Split([], ""), a) == Split(ws, "") && IsWord(w)
    ensures FeedAll(Split([], ""), a + (Spaces(l) + (w + Spaces(r + 1)))) == Split(ws + [w], "")
  {
    FeedConcat(Split([], ""), a, Spaces(l) + (w + Spaces(r + 1)));
    FeedFramed(ws, l, w, r + 1);
  }

  ghost predicate AllWords(ws: seq<string>) {
    forall i {:trigger IsWord(ws[i])} :: 0 <= i < |ws| ==> IsWord(ws[i])
  }

  lemma {:induction false} FeedMakesWords(p: Split, s: string)
    requires AllWords(p.done) && (p.cur == "" || IsWord(p.cur))
    ensures AllWords(Close(FeedAll(p, s)))
    decreases |s|
  {
    if s != "" {
      FeedMakesWords(Feed(p, s[0]), s[1..]);
    }
  }

  lemma {:induction false} FeedAddsWords(p: Split, s: string)
    ensures |Close(p)| <= |Close(FeedAll(p, s))|
    decreases |s|
  {
    if s != "" {
      FeedAddsWords(Feed(p, s[0]), s[1..]);
    }
  }

  /** The words of a text are words, and a shorter text has no more of them. */
  lemma {:induction false} WordsOfPrefix(a: string, b: string)
    ensures AllWords(Words(a)) && |Words(a)| <= |Words(a + b)|
  {
    FeedMakesWords(Split([], ""), a);
    FeedConcat(Split([], ""), a, b);
    FeedAddsWords(FeedAll(Split([], ""), a), b);
  }

  // ----- words, character by character

  predicate IsBlank(a: string) {
    forall i :: 0 <= i < |a| ==> IsSpace(a[i])
  }

  lemma {:induction false} FeedBlank(done: seq<string>, a: string)
    requires IsBlank(a)
    ensures FeedAll(Split(done, ""), a) == Split(done, "")
    decreases |a|
  {
    if a != "" {
      FeedBlank(done, a[1..]);
    }
  }

  /** Words that are finished stay in front. */
  lemma {:induction false} FeedBehind(front: seq<string>, p: Split, s: string)
    ensures Close(FeedAll(Split(front + p.done, p.cur), s)) == front + Close(FeedAll(p, s))
    decreases |s|
  {
    if s == "" {
      assert front + p.done + [p.cur] == front + (p.done + [p.cur]);
    } else {
      var q := Feed(p, s[0]);
      assert front + p.done + [p.cur] == front + (p.done + [p.cur]);
      assert Feed(Split(front + p.done, p.cur), s[0]) == Split(front + q.done, q.cur);
      FeedBehind(front, q, s[1..]);
    }
  }

  /** White space has no words. */
  lemma {:induction false} WordsOfBlank(a: string)
    requires IsBlank(a)
    ensures Words(a) == []
  {
    FeedBlank([], a);
  }

  /** Otherwise the first word is the first run without white space, and the others are those of what follows. */
  lemma {:induction false} WordsCons(a: string, w: string, r: string)
    requires IsBlank(a) && IsWord(w) && (r == "" || IsSpace(r[0]))
    ensures Words(a + (w + r)) == [w] + Words(r)
  {
    var p := Split([], "");
    FeedConcat(p, a, w + r);
    FeedBlank([], a);
    FeedConcat(p, w, r);
    FeedWord(p, w);
    assert "" + w == w;
    if r == "" {
      assert Words(r) == [];
    } else {
      assert Close(Split([], w)) == [w];
      assert [w] + [] == [w];
      FeedBehind([w], p, r[1..]);
    }
  }

  /** Blanks, tabs and newlines separate words, and nothing else does. */
  lemma {:induction false} Separators(c: char)
    ensures Words("a" + ([c] + "b")) == if c == ' ' || c == '\t' || c == '\n' then ["a", "b"] else ["a" + [c] + "b"]
  {
    if IsSpace(c) {
      WordsCons("", "a", [c] + "b");
      WordsCons([c], "b", "");
      assert [c] + ("b" + "") == [c] + "b" && "" + ("a" + ([c] + "b")) == "a" + ([c] + "b");
    } else {
      var w := "a" + ([c] + "b");
      WordsCons("", w, "");
      assert "" + (w + "") == w && w == "a" + [c] + "b";
    }
  }

  lemma {:induction false} LeadingWord(s: string) returns (w: string, r: string)
    requires s != "" && !IsSpace(s[0])
    ensures s == w + r && IsWord(w) && (r == "" || IsSpace(r[0]))
    decreases |s|
  {
    w, r := [s[0]], s[1..];
    if r != "" && !IsSpace(r[0]) {
      w, r := LeadingWord(s[1..]);
      w := [s[0]] + w;
    }
  }

  /** Every text is white space or begins, behind white space, with a word. */
  lemma {:induction false} FirstWord(s: string) returns (a: string, w: string, r: string)
    ensures IsBlank(s) || (s == a + (w + r) && IsBlank(a) && IsWord(w) && (r == "" || IsSpace(r[0])))
    decreases |s|
  {
    a, w, r := "", "", s;
    if s != "" && IsSpace(s[0]) {
      a, w, r := FirstWord(s[1..]);
      a := [s[0]] + a;
    } else if s != "" {
      w, r := LeadingWord(s);
    }
  }
}
