/** `markdownToHtml` (js/markdown-parser.js): the fixed sequence of
    substitutions, then paragraph splitting. */
module Markdown {
  import opened Text
  import HtmlEscape
  import opened MarkdownInline
  import opened MarkdownLines
  import opened MarkdownBlocks

  /** The three heading passes. */
  function Headings(s: string): string
  {
    MapLines(MapLines(MapLines(s, H3), H2), H1)
  }

  /** The two bold passes, then the two italic passes. */
  function Emphasis(s: string): string
  {
    ItalicUnderscores(ItalicStars(BoldUnderscores(BoldStars(s))))
  }

  /** The two bullet passes. */
  function Bullets(s: string): string
  {
    MapLines(MapLines(s, StarItem), DashItem)
  }

  /** Ordered items, block quotes and the two horizontal-rule passes. */
  function LateLines(s: string): string
  {
    MapLines(MapLines(MapLines(MapLines(s, OrderedItem), Quote), DashRule), StarRule)
  }

  function MarkdownToHtml(md: string): (html: string)
    ensures md == "" ==> html == ""
  {
    if md == "" then ""
    else
      var code := InlineCode(FencedCode(md));
      var linked := Images(Links(Emphasis(Headings(code))));
      Paragraphs(LateLines(WrapList(Bullets(linked))))
  }

  /** No `<` is directly followed by `l`, so no `<li>` occurs. */
  predicate NoItemOpen(s: string)
  {
    forall k :: 0 <= k < |s| - 1 && s[k] == '<' ==> s[k + 1] != 'l'
  }

  lemma {:induction false} NoItemOpenConcat(a: string, b: string)
    requires NoItemOpen(a) && NoItemOpen(b)
    requires |a| > 0 && |b| > 0 ==> a[|a| - 1] != '<' || b[0] != 'l'
    ensures NoItemOpen(a + b)
  {
    var s := a + b;
    forall k | 0 <= k < |s| - 1 && s[k] == '<' ensures s[k + 1] != 'l' {
      if k + 1 < |a| {
        assert s[k] == a[k] && s[k + 1] == a[k + 1];
      } else if k >= |a| {
        assert s[k] == b[k - |a|] && s[k + 1] == b[k + 1 - |a|];
      }
    }
  }

  lemma {:induction false} NoItemOpenNoList(s: string)
    requires NoItemOpen(s)
    ensures ListSpan(s).None?
  {
    forall k | 0 <= k ensures !OccursAt(s, "<li>", k) {
      if k + 4 <= |s| {
        assert s[k..k + 4][0] == s[k] && s[k..k + 4][1] == s[k + 1];
      }
    }
  }

  /** The characters that open a code span, emphasis, a link or an image. */
  predicate IsMarkChar(c: char)
  {
    c == '`' || c == '*' || c == '_' || c == '[' || c == '!'
  }

  predicate Unmarked(s: string)
  {
    forall i :: 0 <= i < |s| ==> !IsMarkChar(s[i])
  }

  /** Text the line, span and link passes have nothing to act on: one line,
      starting with `<`, none of the span, link or image characters. */
  predicate Inert(t: string)
  {
    OneLine(t) && |t| > 0 && t[0] == '<' && Unmarked(t) && NoItemOpen(t)
  }

  lemma {:induction false} InertHeadings(t: string)
    requires OneLine(t) && |t| > 0 && (t[0] == '<' || t[0] == '*')
    ensures Headings(t) == t
  {
    HeadingPasses(t);
    MapLinesOneLine(t, HeadingOf);
  }

  lemma {:induction false} InertEmphasis(t: string)
    requires '*' !in t && '_' !in t
    ensures Emphasis(t) == t
  {
    SpansFrame(t, '*', 2, "strong");
    SpansFrame(t, '_', 2, "strong");
    SpansFrame(t, '*', 1, "em");
    SpansFrame(t, '_', 1, "em");
  }

  lemma {:induction false} InertBullets(t: string)
    requires OneLine(t) && |t| > 0 && t[0] == '<'
    ensures Bullets(t) == t
  {
    BulletPasses(t);
    MapLinesOneLine(t, BulletOf);
  }

  lemma {:induction false} InertLateLines(t: string)
    requires OneLine(t) && |t| > 0 && t[0] == '<'
    ensures LateLines(t) == t
  {
    MapLinesOneLine(t, OrderedItem);
    assert DigitRunEnd(t, 0) == 0;
    MapLinesOneLine(t, Quote);
    MapLinesOneLine(t, DashRule);
    MapLinesOneLine(t, StarRule);
  }

  /** Everything after the fenced-code pass and before the paragraph pass
      leaves inert text unchanged. */
  lemma {:induction false} InertPasses(t: string)
    requires Inert(t)
    ensures LateLines(WrapList(Bullets(Images(Links(Emphasis(Headings(InlineCode(t)))))))) == t
  {
    assert '`' !in t && '*' !in t && '_' !in t && '[' !in t && '!' !in t;
    SpansFrame(t, '`', 1, "code");
    InertHeadings(t);
    InertEmphasis(t);
    LinksFrame(t);
    ImagesFrame(t);
    InertBullets(t);
    NoItemOpenNoList(t);
    InertLateLines(t);
  }

  /** Characters allowed in the plain text of the bold example. */
  predicate PlainChar(c: char)
  {
    ('a' <= c <= 'z') || ('A' <= c <= 'Z') || ('0' <= c <= '9') || c == ' '
  }

  /** After the emphasis passes, a one-line text that starts with `<` and
      has no link, image or list-item opener is left alone. */
  lemma {:induction false} InertTail(t: string)
    requires OneLine(t) && |t| > 0 && t[0] == '<'
    requires '[' !in t && '!' !in t && NoItemOpen(t)
    ensures LateLines(WrapList(Bullets(Images(Links(t))))) == t
  {
    LinksFrame(t);
    ImagesFrame(t);
    InertBullets(t);
    NoItemOpenNoList(t);
    InertLateLines(t);
  }

  /** `**text**` on its own renders as a paragraph holding one `<strong>`
      element. */
  lemma {:induction false} BoldParagraph(w: string)
    requires |w| > 0 && forall i :: 0 <= i < |w| ==> PlainChar(w[i])
    ensures MarkdownToHtml("**" + w + "**") == "<p><strong>" + w + "</strong></p>"
  {
    var s := "**" + w + "**";
    var t := "<strong>" + w + "</strong>";
    BoldSteps(w);
    BoldShape(w);
    InertTail(t);
    assert MarkdownToHtml(s) == Paragraphs(t);
    StrongParagraph(w);
  }

  lemma {:induction false} StrongParagraph(w: string)
    requires !Contains("<strong>" + w + "</strong>", "\n\n")
    ensures Paragraphs("<strong>" + w + "</strong>") == "<p><strong>" + w + "</strong></p>"
  {
    var t := "<strong>" + w + "</strong>";
    assert t[0] == '<' && t[1] == 's' && t[|t| - 1] == '>';
    TaggedParagraph(t);
    StrongShape(w);
  }

  lemma {:induction false} StrongShape(w: string)
    ensures "<p>" + ("<strong>" + w + "</strong>") + "</p>" == "<p><strong>" + w + "</strong></p>"
  {
    var a, b := "<p>" + "<strong>", "</strong>" + "</p>";
    assert a == "<p><strong>" && b == "</strong></p>";
    assert "<p>" + ("<strong>" + w + "</strong>") + "</p>" == a + w + b;
  }

  lemma {:induction false} TaggedParagraph(t: string)
    requires !Contains(t, "\n\n")
    requires |t| >= 2 && t[0] == '<' && t[1] == 's' && t[|t| - 1] == '>'
    ensures Paragraphs(t) == "<p>" + t + "</p>"
  {
    ParagraphsOneChunk(t);
    ParaOfTagged(t);
  }

  /** A chunk that starts with `<s` and ends with `>` becomes one paragraph. */
  lemma {:induction false} ParaOfTagged(t: string)
    requires |t| >= 2 && t[0] == '<' && t[1] == 's' && t[|t| - 1] == '>'
    ensures Para(t) == "<p>" + t + "</p>"
  {
    NotBlock(t);
    assert NoSpaceEnds(t);
    TrimOfTrimmed(t);
  }

  /** `<s…` opens none of the kept block elements. */
  lemma {:induction false} NotBlock(t: string)
    requires |t| >= 2 && t[0] == '<' && t[1] == 's'
    ensures !StartsBlock(t)
  {
    forall p | p in ["<ul", "<ol", "<pre", "<blockquote", "<hr"] ensures !StartsWith(t, p) {
      if |p| <= |t| {
        assert t[..|p|][1] == t[1];
      }
    }
  }

  lemma {:induction false} BoldShape(w: string)
    requires forall i :: 0 <= i < |w| ==> PlainChar(w[i])
    ensures var t := "<strong>" + w + "</strong>";
            OneLine(t) && '[' !in t && '!' !in t && NoItemOpen(t) && !Contains(t, "\n\n")
  {
    var t := "<strong>" + w + "</strong>";
    forall i | 0 <= i < |w| ensures !IsLineTerminator(w[i]) && w[i] != '[' && w[i] != '!' && w[i] != '<' {
      assert PlainChar(w[i]);
    }
    assert '[' !in "<strong>" && '!' !in "<strong>" && '[' !in "</strong>" && '!' !in "</strong>";
    assert OneLine(t) by {
      forall i | 0 <= i < |t| ensures !IsLineTerminator(t[i]) {
        if 8 <= i < 8 + |w| {
          assert t[i] == w[i - 8];
        }
      }
    }
    NoItemOpenConcat("<strong>", w);
    NoItemOpenConcat("<strong>" + w, "</strong>");
    forall j | 0 <= j <= |t| ensures !OccursAt(t, "\n\n", j) {
      if j + 2 <= |t| {
        assert t[j..j + 2][0] == t[j];
      }
    }
  }

  lemma {:induction false} BoldSteps(w: string)
    requires |w| > 0 && forall i :: 0 <= i < |w| ==> PlainChar(w[i])
    ensures Emphasis(Headings(InlineCode(FencedCode("**" + w + "**")))) == "<strong>" + w + "</strong>"
  {
    var s := "**" + w + "**";
    BoldSource(w);
    FencedFrame(s);
    SpansFrame(s, '`', 1, "code");
    InertHeadings(s);
    BoldEmphasis(w);
  }

  lemma {:induction false} BoldSource(w: string)
    requires forall i :: 0 <= i < |w| ==> PlainChar(w[i])
    ensures var s := "**" + w + "**";
            '`' !in s && OneLine(s) && s[0] == '*'
  {
    var s := "**" + w + "**";
    forall i | 0 <= i < |s| ensures s[i] != '`' && !IsLineTerminator(s[i]) {
      if 2 <= i < 2 + |w| {
        assert s[i] == w[i - 2];
      }
    }
  }

  lemma {:induction false} BoldStarsOf(w: string)
    requires |w| > 0 && '*' !in w
    ensures BoldStars("**" + w + "**") == "<strong>" + w + "</strong>"
  {
    var d := Rep('*', 2);
    assert d == "**";
    SpanFront(w, "", '*', 2, "strong");
    assert "**" + w + "**" == d + w + d + "";
    assert Spans("", '*', 2, "strong") == "";
    assert Tagged("strong", w) == "<strong>" + w + "</strong>";
  }

  lemma {:induction false} BoldEmphasis(w: string)
    requires |w| > 0 && forall i :: 0 <= i < |w| ==> PlainChar(w[i])
    ensures Emphasis("**" + w + "**") == "<strong>" + w + "</strong>"
  {
    var s := "**" + w + "**";
    assert '*' !in w by {
      forall i | 0 <= i < |w| ensures w[i] != '*' { assert PlainChar(w[i]); }
    }
    assert '_' !in w by {
      forall i | 0 <= i < |w| ensures w[i] != '_' { assert PlainChar(w[i]); }
    }
    var t := "<strong>" + w + "</strong>";
    BoldStarsOf(w);
    assert '*' !in t && '_' !in t by {
      assert '*' !in "<strong>" && '_' !in "<strong>";
      assert '*' !in "</strong>" && '_' !in "</strong>";
    }
    SpansFrame(t, '_', 2, "strong");
    SpansFrame(t, '*', 1, "em");
    SpansFrame(t, '_', 1, "em");
  }

  /** A one-line fenced block with no language renders as one `<pre><code>`
      element of language `text`, and its body (say a `<script>` tag) comes
      out escaped, with no raw `<` or `>`. */
  lemma {:induction false} FencedParagraph(body: string)
    requires OneLine(body) && Unmarked(body)
    ensures MarkdownToHtml("```\n" + body + "```")
            == "<pre><code class=\"language-text\">" + HtmlEscape.Escape(Trim(body)) + "</code></pre>"
    ensures '<' !in HtmlEscape.Escape(Trim(body)) && '>' !in HtmlEscape.Escape(Trim(body))
  {
    var s := "```\n" + body + "```";
    var e := HtmlEscape.Escape(Trim(body));
    var h := "<pre><code class=\"language-text\">" + e + "</code></pre>";
    FencedWhole(body);
    EscapeNoAngle(Trim(body));
    EscapedInert(body);
    PreStart(e);
    InertPipeline(s, h);
  }

  lemma {:induction false} EscapeNoAngle(x: string)
    ensures '<' !in HtmlEscape.Escape(x) && '>' !in HtmlEscape.Escape(x)
  {
    HtmlEscape.EscapeHasNoMarkup(x);
  }

  lemma {:induction false} PreStart(e: string)
    ensures StartsWith("<pre><code class=\"language-text\">" + e + "</code></pre>", "<pre")
  {
    var h := "<pre><code class=\"language-text\">" + e + "</code></pre>";
    assert h[..4] == "<pre";
  }

  /** Text whose fenced-code pass yields one inert `<pre>` line comes out
      as that line. */
  lemma {:induction false} InertPipeline(md: string, h: string)
    requires md != "" && FencedCode(md) == h && Inert(h) && StartsWith(h, "<pre")
    ensures MarkdownToHtml(md) == h
  {
    InertPasses(h);
    PreParagraph(h);
  }

  /** A character absent from the body and from the four references is
      absent from the escaped, trimmed body. */
  lemma {:induction false} EscapedKeepsOut(body: string, c: char)
    requires c !in body && !HtmlEscape.IsRefChar(c)
    ensures c !in HtmlEscape.Escape(Trim(body))
  {
    var t := Trim(body);
    forall i | 0 <= i < |t| ensures t[i] != c {
      assert t[i] == body[Lead(body) + i];
    }
    HtmlEscape.EscapeChars(t);
  }

  lemma {:induction false} EscapedOneLine(body: string)
    requires OneLine(body)
    ensures OneLine(HtmlEscape.Escape(Trim(body)))
  {
    var e := HtmlEscape.Escape(Trim(body));
    assert '\n' !in body && '\r' !in body && '\U{2028}' !in body && '\U{2029}' !in body;
    EscapedKeepsOut(body, '\n');
    EscapedKeepsOut(body, '\r');
    EscapedKeepsOut(body, '\U{2028}');
    EscapedKeepsOut(body, '\U{2029}');
    forall i | 0 <= i < |e| ensures !IsLineTerminator(e[i]) {
      assert e[i] in e;
    }
  }

  lemma {:induction false} EscapedUnmarked(body: string)
    requires Unmarked(body)
    ensures Unmarked(HtmlEscape.Escape(Trim(body)))
  {
    var e := HtmlEscape.Escape(Trim(body));
    forall c | IsMarkChar(c) ensures c !in e {
      EscapedKeepsOut(body, c);
    }
    UnmarkedOf(e);
  }

  /** A text holding none of the five characters is unmarked. */
  lemma {:induction false} UnmarkedOf(e: string)
    requires '`' !in e && '*' !in e && '_' !in e && '[' !in e && '!' !in e
    ensures Unmarked(e)
  {
    forall i | 0 <= i < |e| ensures !IsMarkChar(e[i]) {
      assert e[i] in e;
    }
  }

  lemma {:induction false} EscapedInert(body: string)
    requires OneLine(body) && Unmarked(body)
    ensures Inert("<pre><code class=\"language-text\">" + HtmlEscape.Escape(Trim(body)) + "</code></pre>")
  {
    var e := HtmlEscape.Escape(Trim(body));
    var pre, post := "<pre><code class=\"language-text\">", "</code></pre>";
    EscapedUnmarked(body);
    EscapedOneLine(body);
    HtmlEscape.EscapeHasNoMarkup(Trim(body));
    CodeWrapper();
    Concat3(pre, e, post);
    assert NoItemOpen(e);
    NoItemOpenConcat(pre, e);
    NoItemOpenConcat(pre + e, post);
  }

  /** The wrapper of a fenced block holds nothing the later passes act on. */
  lemma {:induction false} CodeWrapper()
    ensures var pre, post := "<pre><code class=\"language-text\">", "</code></pre>";
            && Unmarked(pre) && Unmarked(post)
            && OneLine(pre) && OneLine(post) && NoItemOpen(pre) && NoItemOpen(post)
  {
    PreUnmarked();
    PreOneLine();
    PreNoItemOpen();
    PostWrapper();
  }

  lemma {:induction false} PreUnmarked()
    ensures Unmarked("<pre><code class=\"language-text\">")
  {
  }

  lemma {:induction false} PreOneLine()
    ensures OneLine("<pre><code class=\"language-text\">")
  {
  }

  lemma {:induction false} PreNoItemOpen()
    ensures NoItemOpen("<pre><code class=\"language-text\">")
  {
  }

  lemma {:induction false} PostWrapper()
    ensures var post := "</code></pre>";
            Unmarked(post) && OneLine(post) && NoItemOpen(post)
  {
  }

  lemma {:induction false} Concat3(a: string, b: string, c: string)
    requires OneLine(a) && OneLine(b) && OneLine(c)
    requires Unmarked(a) && Unmarked(b) && Unmarked(c)
    ensures OneLine(a + b + c) && Unmarked(a + b + c)
  {
    var h := a + b + c;
    forall i | 0 <= i < |h| ensures !IsLineTerminator(h[i]) && !IsMarkChar(h[i]) {
      if i < |a| {
        assert h[i] == a[i];
      } else if i < |a| + |b| {
        assert h[i] == b[i - |a|];
      } else {
        assert h[i] == c[i - |a| - |b|];
      }
    }
  }

  lemma {:induction false} FencedWhole(body: string)
    requires Unmarked(body)
    ensures FencedCode("```\n" + body + "```")
            == "<pre><code class=\"language-text\">" + HtmlEscape.Escape(Trim(body)) + "</code></pre>"
  {
    NoFenceIn(body);
    assert "```\n" + body + "```" == "```" + "" + "\n" + body + "```" + "";
    FencedBlock("", body, "");
    assert FencedCode("") == "";
    FenceHtmlText(HtmlEscape.Escape(Trim(body)));
  }

  lemma {:induction false} FenceHtmlText(e: string)
    ensures "<pre><code class=\"language-" + "text" + "\">" + e + "</code></pre>"
            == "<pre><code class=\"language-text\">" + e + "</code></pre>"
  {
    assert "<pre><code class=\"language-" + "text" + "\">" == "<pre><code class=\"language-text\">";
  }

  lemma {:induction false} NoFenceIn(body: string)
    requires Unmarked(body)
    ensures !Contains(body, "```") && (|body| == 0 || body[|body| - 1] != '`')
  {
    forall j | 0 <= j <= |body| ensures !OccursAt(body, "```", j) {
      if j + 3 <= |body| {
        assert body[j..j + 3][0] == body[j];
      }
    }
    if |body| > 0 {
      assert !IsMarkChar(body[|body| - 1]);
    }
  }

  /** A chunk that starts with `<pre` is kept as it is. */
  lemma {:induction false} PreParagraph(h: string)
    requires OneLine(h) && StartsWith(h, "<pre")
    ensures Paragraphs(h) == h
  {
    forall j | 0 <= j <= |h| ensures !OccursAt(h, "\n\n", j) {
      if j + 2 <= |h| {
        assert h[j..j + 2][0] == h[j];
      }
    }
    ParagraphsOneChunk(h);
  }
}
