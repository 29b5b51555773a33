/** Counting the tags of generated XML. The sitemap and the feed are built
    by appending lines; these definitions say how many times a tag occurs in
    such text, and when the count of a concatenation is the sum of the
    counts of its parts. */
module Markup {
  import XmlEscape

  /** The number of positions at which `p` occurs in `s`. */
  function Count(s: string, p: string): nat
    requires |p| > 0
    decreases |s|
  {
    if |s| < |p| then 0 else (if s[..|p|] == p then 1 else 0) + Count(s[1..], p)
  }

  /** No occurrence of `p` can begin inside `a` and run past its end: no
      suffix of `a` shorter than `p` is a beginning of `p`. */
  predicate NoStraddle(a: string, p: string)
    decreases |a|
  {
    |a| == 0 || ((|a| >= |p| || a != p[..|a|]) && NoStraddle(a[1..], p))
  }

  /** Text that cannot start a tag. */
  predicate Plain(s: string)
  {
    '<' !in s
  }

  /** What may stand between `<` and `>`. */
  predicate TagText(t: string)
  {
    '<' !in t && '>' !in t
  }

  function Tag(t: string): (r: string)
    ensures |r| == |t| + 2 && r[0] == '<' && r[|r| - 1] == '>'
  {
    "<" + t + ">"
  }

  /** The closing tag `</name>`. */
  function Closing(name: string): string
  {
    Tag("/" + name)
  }

  /** The name of a tag that is looked for: no slash and no space, so it is
      neither a closing tag nor a declaration. */
  predicate Name(n: string)
  {
    TagText(n) && '/' !in n && ' ' !in n
  }

  /** A line holding one tag, such as `  <url>`. */
  function TagLine(indent: string, t: string): string
  {
    indent + Tag(t) + "\n"
  }

  /** A line holding one closing tag, such as `  </url>`. */
  function CloseLine(indent: string, name: string): string
  {
    indent + Closing(name) + "\n"
  }

  /** A line holding one element with text content. */
  function Element(indent: string, name: string, content: string): string
  {
    indent + Tag(name) + content + Closing(name) + "\n"
  }

  /** `s` holds the tag `<q>` exactly `n` times, none of them cut off at
      its end. */
  predicate Tally(s: string, q: string, n: nat)
  {
    NoStraddle(s, Tag(q)) && Count(s, Tag(q)) == n
  }

  /** Without an occurrence running across the seam, counting distributes
      over concatenation. */
  lemma {:induction false} CountConcat(a: string, b: string, p: string)
    requires |p| > 0 && NoStraddle(a, p)
    ensures Count(a + b, p) == Count(a, p) + Count(b, p)
    decreases |a|
  {
    if |a| == 0 {
      assert a + b == b;
    } else {
      var s := a + b;
      assert s[1..] == a[1..] + b;
      CountConcat(a[1..], b, p);
      if |a| >= |p| {
        assert s[..|p|] == a[..|p|];
      } else {
        assert a[0..] == a;
      }
    }
  }

  lemma {:induction false} NoStraddleConcat(a: string, b: string, p: string)
    requires NoStraddle(a, p) && NoStraddle(b, p)
    ensures NoStraddle(a + b, p)
    decreases |a|
  {
    if |a| == 0 {
      assert a + b == b;
    } else {
      var s := a + b;
      assert s[1..] == a[1..] + b;
      NoStraddleConcat(a[1..], b, p);
    }
  }

  /** Tallies add up over concatenation. */
  lemma {:induction false} Glue(a: string, b: string, q: string, m: nat, n: nat)
    requires Tally(a, q, m) && Tally(b, q, n)
    ensures Tally(a + b, q, m + n)
  {
    CountConcat(a, b, Tag(q));
    NoStraddleConcat(a, b, Tag(q));
  }

  /** Tallies add up over a concatenation of three. */
  lemma {:induction false} Glue3(a: string, b: string, c: string, q: string, l: nat, m: nat, n: nat)
    requires Tally(a, q, l) && Tally(b, q, m) && Tally(c, q, n)
    ensures Tally(a + b + c, q, l + m + n)
  {
    Glue(a, b, q, l, m);
    Glue(a + b, c, q, l + m, n);
  }

  /** Plain text holds no tag. */
  lemma {:induction false} PlainTally(s: string, q: string)
    requires Plain(s)
    ensures Tally(s, q, 0)
    decreases |s|
  {
    var p := Tag(q);
    if |s| > 0 {
      assert '<' !in s[1..] by {
        assert forall c :: c in s[1..] ==> c in s;
      }
      PlainTally(s[1..], q);
      assert s[0] in s;
      if |s| >= |p| {
        assert s[..|p|][0] != p[0];
      } else {
        assert p[..|s|][0] == '<';
      }
    }
  }

  /** A tag holds the tag `<q>` once if it is `<q>` and never otherwise. */
  lemma {:induction false} TagTally(t: string, q: string)
    requires TagText(t) && TagText(q)
    ensures Tally(Tag(t), q, if t == q then 1 else 0)
  {
    var s := Tag(t);
    var p := Tag(q);
    var rest := t + ">";
    assert s[1..] == rest;
    assert Plain(rest) by {
      assert forall c :: c in rest ==> c in t || c == '>';
    }
    PlainTally(rest, q);
    if |s| >= |p| {
      assert Count(s, p) == (if s[..|p|] == p then 1 else 0) + Count(rest, p);
    }
    if |t| >= |q| {
      if |t| > |q| {
        assert s[..|p|][|p| - 1] == t[|q|];
        assert t[|q|] in t;
      } else {
        assert s[..|p|] == s;
        assert t == s[1..|s| - 1] && q == p[1..|p| - 1];
      }
    } else {
      assert p[..|s|][|s| - 1] == q[|t|] && q[|t|] in q;
    }
  }

  /** A closing tag is never a tag that is looked for. */
  lemma {:induction false} ClosingTally(name: string, q: string)
    requires TagText(name) && Name(q)
    ensures Tally(Closing(name), q, 0)
  {
    var c := "/" + name;
    assert TagText(c) by {
      assert forall x :: x in c ==> x == '/' || x in name;
    }
    assert c != q by {
      assert c[0] == '/';
      if |q| > 0 {
        assert q[0] in q;
      }
    }
    TagTally(c, q);
  }

  lemma {:induction false} TagLineTally(indent: string, t: string, q: string)
    requires Plain(indent) && TagText(t) && TagText(q)
    ensures Tally(TagLine(indent, t), q, if t == q then 1 else 0)
  {
    var n := if t == q then 1 else 0;
    PlainTally(indent, q);
    TagTally(t, q);
    PlainTally("\n", q);
    Glue3(indent, Tag(t), "\n", q, 0, n, 0);
  }

  lemma {:induction false} CloseLineTally(indent: string, name: string, q: string)
    requires Plain(indent) && TagText(name) && Name(q)
    ensures Tally(CloseLine(indent, name), q, 0)
  {
    PlainTally(indent, q);
    ClosingTally(name, q);
    PlainTally("\n", q);
    Glue3(indent, Closing(name), "\n", q, 0, 0, 0);
  }

  /** An element line holds its own opening tag once and no other tag that
      is looked for. */
  lemma {:induction false} ElementTally(indent: string, name: string, content: string, q: string)
    requires Plain(indent) && Plain(content) && TagText(name) && Name(q)
    ensures Tally(Element(indent, name, content), q, if name == q then 1 else 0)
  {
    var n := if name == q then 1 else 0;
    PlainTally(indent, q);
    TagTally(name, q);
    PlainTally(content, q);
    ClosingTally(name, q);
    PlainTally("\n", q);
    Glue3(indent, Tag(name), content, q, 0, n, 0);
    Glue3(indent + Tag(name) + content, Closing(name), "\n", q, n, 0, 0);
  }

  /** One line of generated XML: a line with one tag (an opening tag, a
      declaration or an empty-element tag), an element with text content
      written as it is, an element whose content goes through `escapeXml`,
      or a closing tag. */
  datatype Line =
    | Open(indent: string, name: string)
    | Leaf(indent: string, name: string, content: string)
    | Escaped(indent: string, name: string, raw: string)
    | Shut(indent: string, name: string)

  function LineText(l: Line): string
  {
    match l
    case Open(indent, t) => TagLine(indent, t)
    case Leaf(indent, name, content) => Element(indent, name, content)
    case Escaped(indent, name, raw) => Element(indent, name, XmlEscape.EscapeXml(raw))
    case Shut(indent, name) => CloseLine(indent, name)
  }

  /** The lines written one after the other. */
  function Render(ls: seq<Line>): string
    decreases |ls|
  {
    if |ls| == 0 then "" else LineText(ls[0]) + Render(ls[1..])
  }

  /** A line whose indentation and content cannot start a tag and whose
      tag text is well formed. */
  predicate WellFormed(l: Line)
  {
    Plain(l.indent) && TagText(l.name) && (l.Leaf? ==> Plain(l.content))
  }

  predicate AllWellFormed(ls: seq<Line>)
  {
    forall i :: 0 <= i < |ls| ==> WellFormed(ls[i])
  }

  /** 1 when the line writes the tag `<q>`, else 0. */
  function Opens(l: Line, q: string): nat
  {
    if !l.Shut? && l.name == q then 1 else 0
  }

  /** The number of lines that write the tag `<q>`. */
  function Named(ls: seq<Line>, q: string): nat
    decreases |ls|
  {
    if |ls| == 0 then 0 else Opens(ls[0], q) + Named(ls[1..], q)
  }

  lemma {:induction false} RenderConcat(a: seq<Line>, b: seq<Line>)
    ensures Render(a + b) == Render(a) + Render(b)
    decreases |a|
  {
    if |a| == 0 {
      assert a + b == b;
    } else {
      assert (a + b)[0] == a[0] && (a + b)[1..] == a[1..] + b;
      RenderConcat(a[1..], b);
    }
  }

  lemma {:induction false} NamedConcat(a: seq<Line>, b: seq<Line>, q: string)
    ensures Named(a + b, q) == Named(a, q) + Named(b, q)
    decreases |a|
  {
    if |a| == 0 {
      assert a + b == b;
    } else {
      assert (a + b)[0] == a[0] && (a + b)[1..] == a[1..] + b;
      NamedConcat(a[1..], b, q);
    }
  }

  lemma {:induction false} WellFormedConcat(a: seq<Line>, b: seq<Line>)
    requires AllWellFormed(a) && AllWellFormed(b)
    ensures AllWellFormed(a + b)
  {
    forall i | 0 <= i < |a + b| ensures WellFormed((a + b)[i]) {
      if i >= |a| {
        assert (a + b)[i] == b[i - |a|];
      }
    }
  }

  /** Lines none of which writes `<q>`. */
  lemma {:induction false} NamedNone(ls: seq<Line>, q: string)
    requires forall i :: 0 <= i < |ls| ==> Opens(ls[i], q) == 0
    ensures Named(ls, q) == 0
    decreases |ls|
  {
    if |ls| > 0 {
      NamedNone(ls[1..], q);
    }
  }

  /** Lines of which only the `k`-th may write `<q>`. */
  lemma {:induction false} NamedOne(ls: seq<Line>, q: string, k: nat)
    requires k < |ls| && forall i :: 0 <= i < |ls| && i != k ==> Opens(ls[i], q) == 0
    ensures Named(ls, q) == Opens(ls[k], q)
    decreases |ls|
  {
    if k > 0 {
      NamedOne(ls[1..], q, k - 1);
    } else {
      NamedNone(ls[1..], q);
    }
  }

  lemma {:induction false} LineTally(l: Line, q: string)
    requires WellFormed(l) && Name(q)
    ensures Tally(LineText(l), q, Opens(l, q))
  {
    match l
    case Open(indent, t) => TagLineTally(indent, t, q);
    case Leaf(indent, name, content) => ElementTally(indent, name, content, q);
    case Escaped(indent, name, raw) =>
      var e := XmlEscape.EscapeXml(raw);
      assert Plain(e);
      ElementTally(indent, name, e, q);
    case Shut(indent, name) => CloseLineTally(indent, name, q);
  }

  lemma {:induction false} RenderTally(ls: seq<Line>, q: string)
    requires AllWellFormed(ls) && Name(q)
    ensures Tally(Render(ls), q, Named(ls, q))
    decreases |ls|
  {
    if |ls| == 0 {
      PlainTally("", q);
    } else {
      LineTally(ls[0], q);
      RenderTally(ls[1..], q);
      Glue(LineText(ls[0]), Render(ls[1..]), q, Opens(ls[0], q), Named(ls[1..], q));
    }
  }

  /** Rendered well-formed lines hold the tag `<q>` exactly as many times as
      there are lines that write it. */
  lemma {:induction false} RenderCount(ls: seq<Line>, q: string)
    requires AllWellFormed(ls) && Name(q)
    ensures Count(Render(ls), Tag(q)) == Named(ls, q)
  {
    RenderTally(ls, q);
  }
}
