/** The line-anchored substitutions of `markdownToHtml`
    (js/markdown-parser.js): headings, list items, ordered items, block
    quotes and horizontal rules. Each is a `/^…$/gim` replacement whose
    pattern cannot cross a line terminator, so it acts on every line
    independently; `MapLines` is that per-line action. */
module MarkdownLines {
  import opened Text

  /** No line terminator in `s`. */
  predicate OneLine(s: string)
  {
    forall i :: 0 <= i < |s| ==> !IsLineTerminator(s[i])
  }

  /** Index of the first line terminator at or after `from`, or `|s|`. */
  function LineEnd(s: string, from: nat): (k: nat)
    requires from <= |s|
    ensures from <= k <= |s|
    ensures k < |s| ==> IsLineTerminator(s[k])
    ensures forall j :: from <= j < k ==> !IsLineTerminator(s[j])
    decreases |s| - from
  {
    if from == |s| || IsLineTerminator(s[from]) then from else LineEnd(s, from + 1)
  }

  /** Rewrites every line with `f`, keeping the terminators in place. */
  function MapLines(s: string, f: string -> string): string
    decreases |s|
  {
    var k := LineEnd(s, 0);
    if k == |s| then f(s) else f(s[..k]) + [s[k]] + MapLines(s[k + 1..], f)
  }

  /** The lines of `s`: the pieces between line terminators. */
  function Lines(s: string): (ls: seq<string>)
    ensures |ls| >= 1
    ensures forall i :: 0 <= i < |ls| ==> OneLine(ls[i])
    decreases |s|
  {
    var k := LineEnd(s, 0);
    if k == |s| then [s] else [s[..k]] + Lines(s[k + 1..])
  }

  /** The terminators of `s`, in order. */
  function Breaks(s: string): string
    decreases |s|
  {
    var k := LineEnd(s, 0);
    if k == |s| then "" else [s[k]] + Breaks(s[k + 1..])
  }

  lemma {:induction false} LineEndAfter(a: string, rest: string)
    requires OneLine(a)
    requires |rest| == 0 || IsLineTerminator(rest[0])
    ensures LineEnd(a + rest, 0) == |a|
  {
    var s := a + rest;
    forall j | 0 <= j < |a| ensures !IsLineTerminator(s[j]) {
      assert s[j] == a[j];
    }
    assert |a| < |s| ==> s[|a|] == rest[0];
    LineEndIs(s, 0, |a|);
  }

  /** The end of the line is the first terminator. */
  lemma {:induction false} LineEndIs(s: string, from: nat, k: nat)
    requires from <= k <= |s|
    requires forall j :: from <= j < k ==> !IsLineTerminator(s[j])
    requires k < |s| ==> IsLineTerminator(s[k])
    ensures LineEnd(s, from) == k
    decreases k - from
  {
    if from < k {
      LineEndIs(s, from + 1, k);
    }
  }

  /** A per-line rewrite that keeps single lines single leaves the line
      structure alone: the result's lines are the rewritten lines and its
      terminators are the original ones. */
  lemma {:induction false} LinesOfMapLines(s: string, f: string -> string)
    requires KeepsLines(f)
    ensures Lines(MapLines(s, f)) == MapSeq(f, Lines(s))
    ensures Breaks(MapLines(s, f)) == Breaks(s)
    decreases |s|
  {
    var k := LineEnd(s, 0);
    if k == |s| {
      LineEndAfter(f(s), "");
      assert f(s) + "" == f(s);
    } else {
      var head := s[..k];
      var tail := MapLines(s[k + 1..], f);
      var r := f(head) + ([s[k]] + tail);
      assert MapLines(s, f) == r;
      LineEndAfter(f(head), [s[k]] + tail);
      assert r[..|f(head)|] == f(head);
      assert r[|f(head)| + 1..] == tail;
      LinesOfMapLines(s[k + 1..], f);
    }
  }

  /** Two per-line passes in a row are one pass with the composed rewrite. */
  lemma {:induction false} MapLinesCompose(s: string, f: string -> string, g: string -> string, h: string -> string)
    requires KeepsLines(f)
    requires forall l :: h(l) == g(f(l))
    ensures MapLines(MapLines(s, f), g) == MapLines(s, h)
    decreases |s|
  {
    var k := LineEnd(s, 0);
    if k == |s| {
      LineEndAfter(f(s), "");
      assert f(s) + "" == f(s);
    } else {
      var head := s[..k];
      var tail := MapLines(s[k + 1..], f);
      var r := f(head) + ([s[k]] + tail);
      assert MapLines(s, f) == r;
      LineEndAfter(f(head), [s[k]] + tail);
      assert r[..|f(head)|] == f(head) && r[|f(head)|] == s[k];
      assert r[|f(head)| + 1..] == tail;
      assert MapLines(r, g) == g(f(head)) + [s[k]] + MapLines(tail, g);
      MapLinesCompose(s[k + 1..], f, g, h);
      assert MapLines(s, h) == h(head) + [s[k]] + MapLines(s[k + 1..], h);
    }
  }

  /** Three per-line passes in a row are one pass with the composed rewrite. */
  lemma {:induction false} MapLinesCompose3(s: string, f1: string -> string, f2: string -> string,
                                            f3: string -> string, h: string -> string)
    requires KeepsLines(f1) && KeepsLines(f2)
    requires forall l :: h(l) == f3(f2(f1(l)))
    ensures MapLines(MapLines(MapLines(s, f1), f2), f3) == MapLines(s, h)
  {
    var f12 := l => f2(f1(l));
    MapLinesCompose(s, f1, f2, f12);
    assert KeepsLines(f12);
    MapLinesCompose(s, f12, f3, h);
  }

  /** On text without terminators the pass rewrites the whole text once. */
  lemma {:induction false} MapLinesOneLine(s: string, f: string -> string)
    requires OneLine(s)
    ensures MapLines(s, f) == f(s)
  {
    LineEndAfter(s, "");
    assert s + "" == s;
  }

  // ---------------------------------------------------------------------
  // The rules, one line at a time.

  /** `^P(.*)$` (minRest 0) or `^P(.+)$` (minRest 1) replaced by
      `open$1close`. */
  function PrefixRule(line: string, p: string, open: string, close: string, minRest: nat): string
  {
    if StartsWith(line, p) && |line| >= |p| + minRest then open + line[|p|..] + close else line
  }

  function H3(l: string): string { PrefixRule(l, "### ", "<h3>", "</h3>", 0) }
  function H2(l: string): string { PrefixRule(l, "## ", "<h2>", "</h2>", 0) }
  function H1(l: string): string { PrefixRule(l, "# ", "<h1>", "</h1>", 0) }
  function StarItem(l: string): string { PrefixRule(l, "* ", "<li>", "</li>", 1) }
  function DashItem(l: string): string { PrefixRule(l, "- ", "<li>", "</li>", 1) }
  function Quote(l: string): string { PrefixRule(l, "> ", "<blockquote>", "</blockquote>", 1) }

  /** End of the run of decimal digits starting at `from`. */
  function DigitRunEnd(s: string, from: nat): (k: nat)
    requires from <= |s|
    ensures from <= k <= |s|
    ensures forall j :: from <= j < k ==> IsDigit(s[j])
    ensures k < |s| ==> !IsDigit(s[k])
    decreases |s| - from
  {
    if from < |s| && IsDigit(s[from]) then DigitRunEnd(s, from + 1) else from
  }

  /** `^\d+\. (.+)$`: digits, `. `, a non-empty rest. */
  function OrderedItem(l: string): string
  {
    var d := DigitRunEnd(l, 0);
    if d > 0 && StartsWith(l[d..], ". ") && |l| >= d + 3 then "<li>" + l[d + 2..] + "</li>" else l
  }

  /** `^---$` and `^\*\*\*$`: the whole line is the marker. */
  function Rule(l: string, marker: string): string
  {
    if l == marker then "<hr>" else l
  }

  function DashRule(l: string): string { Rule(l, "---") }
  function StarRule(l: string): string { Rule(l, "***") }

  /** `f` maps single lines to single lines. */
  ghost predicate KeepsLines(f: string -> string)
  {
    forall l :: OneLine(l) ==> OneLine(f(l))
  }

  /** Every rule keeps a single line a single line. */
  lemma {:induction false} PrefixRuleOneLine(l: string, p: string, open: string, close: string, minRest: nat)
    requires OneLine(l) && OneLine(open) && OneLine(close)
    ensures OneLine(PrefixRule(l, p, open, close, minRest))
  {
    if StartsWith(l, p) && |l| >= |p| + minRest {
      var r := open + l[|p|..] + close;
      forall i | 0 <= i < |r| ensures !IsLineTerminator(r[i]) {
        if i < |open| {
        } else if i < |open| + |l| - |p| {
          assert r[i] == l[i - |open| + |p|];
        } else {
          assert r[i] == close[i - |open| - |l| + |p|];
        }
      }
    }
  }

  lemma {:induction false} HeadingRulesKeepLines()
    ensures KeepsLines(H3) && KeepsLines(H2) && KeepsLines(H1)
  {
    forall l | OneLine(l) ensures OneLine(H3(l)) {
      PrefixRuleOneLine(l, "### ", "<h3>", "</h3>", 0);
    }
    forall l | OneLine(l) ensures OneLine(H2(l)) {
      PrefixRuleOneLine(l, "## ", "<h2>", "</h2>", 0);
    }
    forall l | OneLine(l) ensures OneLine(H1(l)) {
      PrefixRuleOneLine(l, "# ", "<h1>", "</h1>", 0);
    }
  }

  lemma {:induction false} ItemRulesKeepLines()
    ensures KeepsLines(StarItem) && KeepsLines(DashItem)
  {
    forall l | OneLine(l) ensures OneLine(StarItem(l)) {
      PrefixRuleOneLine(l, "* ", "<li>", "</li>", 1);
    }
    forall l | OneLine(l) ensures OneLine(DashItem(l)) {
      PrefixRuleOneLine(l, "- ", "<li>", "</li>", 1);
    }
  }

  // ---------------------------------------------------------------------
  // What the consecutive per-line passes do together.

  /** The heading a line gets: the longest matching marker wins. */
  function HeadingOf(l: string): string
  {
    if StartsWith(l, "### ") then "<h3>" + l[4..] + "</h3>"
    else if StartsWith(l, "## ") then "<h2>" + l[3..] + "</h2>"
    else if StartsWith(l, "# ") then "<h1>" + l[2..] + "</h1>"
    else l
  }

  /** A line the `###` pass turned into a heading starts with `<`, so the
      `##` and `#` passes leave it alone, and so on down: the three passes
      never wrap a line twice. */
  lemma {:induction false} HeadingPassesPerLine(l: string)
    ensures H1(H2(H3(l))) == HeadingOf(l)
  {
    var a := H3(l);
    if StartsWith(l, "### ") {
      assert a[0] == '<';
      assert !StartsWith(a, "## ") && !StartsWith(a, "# ");
    } else if StartsWith(l, "## ") {
      var b := H2(a);
      assert b[0] == '<';
      assert !StartsWith(b, "# ");
    } else if StartsWith(l, "# ") {
      assert !StartsWith(l, "## ") by { assert l[1] == ' '; }
    } else {
      assert !StartsWith(l, "## ") && !StartsWith(l, "### ");
    }
  }

  /** The three heading passes over a whole text classify each line once. */
  lemma {:induction false} HeadingPasses(s: string)
    ensures MapLines(MapLines(MapLines(s, H3), H2), H1) == MapLines(s, HeadingOf)
  {
    HeadingRulesKeepLines();
    forall l ensures HeadingOf(l) == H1(H2(H3(l))) {
      HeadingPassesPerLine(l);
    }
    MapLinesCompose3(s, H3, H2, H1, HeadingOf);
  }

  /** The item a line becomes under the two bullet passes. */
  function BulletOf(l: string): string
  {
    if (StartsWith(l, "* ") || StartsWith(l, "- ")) && |l| >= 3 then "<li>" + l[2..] + "</li>" else l
  }

  lemma {:induction false} BulletPassesPerLine(l: string)
    ensures DashItem(StarItem(l)) == BulletOf(l)
  {
    var a := StarItem(l);
    if StartsWith(l, "* ") && |l| >= 3 {
      assert a[0] == '<';
    } else if StartsWith(l, "- ") {
      assert !StartsWith(l, "* ") by { assert l[0] == '-'; }
    }
  }

  /** The two bullet passes over a whole text turn each `* ` or `- ` line
      with content into one list item. */
  lemma {:induction false} BulletPasses(s: string)
    ensures MapLines(MapLines(s, StarItem), DashItem) == MapLines(s, BulletOf)
  {
    ItemRulesKeepLines();
    forall l ensures BulletOf(l) == DashItem(StarItem(l)) {
      BulletPassesPerLine(l);
    }
    MapLinesCompose(s, StarItem, DashItem, BulletOf);
  }
}
