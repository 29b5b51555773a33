/** The substitutions of `markdownToHtml` (js/markdown-parser.js) that are not
    anchored to lines: fenced code, inline code, bold, italic, links and
    images. Each global regex replace is a left-to-right scan: where the
    pattern matches at the current position the match is replaced and the
    scan resumes after it; elsewhere one character is copied. */
module MarkdownInline {
  import opened Text
  import HtmlEscape

  /** `\w`: ASCII letters, digits and `_`. */
  predicate IsWordChar(c: char)
  {
    ('a' <= c <= 'z') || ('A' <= c <= 'Z') || ('0' <= c <= '9') || c == '_'
  }

  /** End of the run of word characters that starts at `from`. */
  function WordRunEnd(s: string, from: nat): (k: nat)
    requires from <= |s|
    ensures from <= k <= |s|
    decreases |s| - from
  {
    if from < |s| && IsWordChar(s[from]) then WordRunEnd(s, from + 1) else from
  }

  /** The run is maximal: word characters up to its end and none at it. */
  lemma {:induction false} WordRunWords(s: string, from: nat)
    requires from <= |s|
    ensures var k := WordRunEnd(s, from);
      && (forall j :: from <= j < k ==> IsWordChar(s[j]))
      && (k < |s| ==> !IsWordChar(s[k]))
    decreases |s| - from
  {
    if from < |s| && IsWordChar(s[from]) {
      WordRunWords(s, from + 1);
    }
  }

  // ---------------------------------------------------------------------
  // Fenced code: /```(\w+)?\n([\s\S]*?)```/g

  datatype Fence = Fence(lang: string, code: string, end: nat)

  /** The fenced-code match at the start of `s`: three backticks, an optional
      word (the language), a newline, then the body up to the FIRST following
      three backticks. */
  function FenceAt(s: string): (m: Option<Fence>)
    ensures m.Some? ==> 0 < m.value.end <= |s|
  {
    if !StartsWith(s, "```") then None
    else
      var a := WordRunEnd(s, 3);
      if a < |s| && s[a] == '\n' then
        match FindFrom(s, "```", a + 1)
        case None => None
        case Some(b) => Some(Fence(s[3..a], s[a + 1..b], b + 3))
      else None
  }

  /** The replacement: language defaults to `text`; the body is trimmed and
      HTML-escaped. */
  function FenceHtml(lang: string, code: string): string
  {
    "<pre><code class=\"language-" + (if lang == "" then "text" else lang) + "\">"
    + HtmlEscape.Escape(Trim(code)) + "</code></pre>"
  }

  function FencedCode(s: string): string
    decreases |s|
  {
    if |s| == 0 then ""
    else match FenceAt(s)
      case Some(f) => FenceHtml(f.lang, f.code) + FencedCode(s[f.end..])
      case None => [s[0]] + FencedCode(s[1..])
  }

  /** A well-formed fenced block at the front of the text becomes one
      `<pre><code>` element holding the trimmed, escaped body, whatever it
      contains (other than three backticks, or a backtick right before the
      closing fence), and the scan continues after it. */
  lemma {:induction false} FencedBlock(lang: string, body: string, rest: string)
    requires forall i :: 0 <= i < |lang| ==> IsWordChar(lang[i])
    requires !Contains(body, "```")
    requires |body| == 0 || body[|body| - 1] != '`'
    ensures FencedCode("```" + lang + "\n" + body + "```" + rest)
            == FenceHtml(lang, body) + FencedCode(rest)
  {
    var s := "```" + lang + "\n" + body + "```" + rest;
    var e := |lang| + |body| + 7;
    FenceAtBlock(lang, body, rest);
    assert s[e..] == rest;
  }

  lemma {:induction false} FenceAtBlock(lang: string, body: string, rest: string)
    requires forall i :: 0 <= i < |lang| ==> IsWordChar(lang[i])
    requires !Contains(body, "```")
    requires |body| == 0 || body[|body| - 1] != '`'
    ensures FenceAt("```" + lang + "\n" + body + "```" + rest)
            == Some(Fence(lang, body, |lang| + |body| + 7))
  {
    var s := "```" + lang + "\n" + body + "```" + rest;
    var a := 3 + |lang|;
    var b := a + 1 + |body|;
    assert s[..3] == "```" && s[3..a] == lang && s[a] == '\n';
    assert s[a + 1..b] == body && s[b..b + 3] == "```";
    FenceIn(s, lang, body, b + 3);
  }

  /** The fence recognised where the text has three backticks, a word, a
      newline, a body as above and three backticks. */
  lemma {:induction false} FenceIn(s: string, lang: string, body: string, e: nat)
    requires forall i :: 0 <= i < |lang| ==> IsWordChar(lang[i])
    requires !Contains(body, "```")
    requires |body| == 0 || body[|body| - 1] != '`'
    requires e == |lang| + |body| + 7 <= |s|
    requires s[..3] == "```" && s[3..3 + |lang|] == lang && s[3 + |lang|] == '\n'
    requires s[4 + |lang|..e - 3] == body && s[e - 3..e] == "```"
    ensures FenceAt(s) == Some(Fence(lang, body, e))
  {
    var a := 3 + |lang|;
    var b := e - 3;
    assert StartsWith(s, "```");
    WordRunEndOver(s, lang);
    assert forall j :: a + 1 <= j < b ==> !OccursAt(s, "```", j) by {
      forall j | a + 1 <= j < b ensures !OccursAt(s, "```", j) {
        FenceStraddle(s, body, a + 1, j);
      }
    }
    assert OccursAt(s, "```", b);
    FindFromAt(s, "```", a + 1, b);
    assert Fence(s[3..a], s[a + 1..b], b + 3) == Fence(lang, body, e);
  }

  /** Text without a backtick has no fenced block. */
  lemma {:induction false} FencedFrame(s: string)
    requires '`' !in s
    ensures FencedCode(s) == s
    decreases |s|
  {
    if |s| > 0 {
      assert !StartsWith(s, "```") by { assert s[0] != '`'; }
      FencedFrame(s[1..]);
    }
  }

  lemma {:induction false} WordRunEndOver(s: string, lang: string)
    requires forall i :: 0 <= i < |lang| ==> IsWordChar(lang[i])
    requires |s| > 3 + |lang| && s[3..3 + |lang|] == lang && s[3 + |lang|] == '\n'
    ensures WordRunEnd(s, 3) == 3 + |lang|
  {
    WordRunWords(s, 3);
  }

  /** Three backticks cannot start inside such a body: wholly inside it they
      would be an occurrence in the body, and reaching into the closing fence
      they would make the body end in a backtick. */
  lemma {:induction false} FenceStraddle(s: string, body: string, start: nat, j: nat)
    requires start + |body| + 3 <= |s|
    requires s[start..start + |body|] == body && s[start + |body|..start + |body| + 3] == "```"
    requires !Contains(body, "```")
    requires |body| == 0 || body[|body| - 1] != '`'
    requires start <= j < start + |body|
    ensures !OccursAt(s, "```", j)
  {
    var b := start + |body|;
    if OccursAt(s, "```", j) {
      assert s[j..j + 3] == "```";
      assert s[j] == s[j..j + 3][0] && s[j + 1] == s[j..j + 3][1] && s[j + 2] == s[j..j + 3][2];
      if j + 3 <= b {
        assert OccursAt(body, "```", j - start);
      }
    }
  }

  // ---------------------------------------------------------------------
  // Delimited spans: inline code /`([^`]+)`/g, bold /\*\*([^*]+)\*\*/g and
  // /__([^_]+)__/g, italic /\*([^*]+)\*/g and /_([^_]+)_/g. Each is: a
  // delimiter of n copies of c, a non-empty run without c, the delimiter.

  function Rep(c: char, n: nat): (r: string)
    ensures |r| == n && forall i :: 0 <= i < n ==> r[i] == c
  {
    seq(n, _ => c)
  }

  /** Where the closing delimiter of a span starting at index 0 begins. */
  function SpanAt(s: string, c: char, n: nat): (k: Option<nat>)
    requires n >= 1
    ensures k.Some? ==> n < k.value && k.value + n <= |s|
                        && s[..n] == Rep(c, n) && s[k.value..k.value + n] == Rep(c, n)
                        && forall j :: n <= j < k.value ==> s[j] != c
  {
    if !StartsWith(s, Rep(c, n)) then None
    else
      var k := FindChar(s, c, n);
      FindCharSkips(s, c, n);
      if k > n && StartsWith(s[k..], Rep(c, n)) then
        assert s[k..k + n] == s[k..][..n];
        Some(k)
      else None
  }

  function Tagged(tag: string, inner: string): string
  {
    "<" + tag + ">" + inner + "</" + tag + ">"
  }

  function Spans(s: string, c: char, n: nat, tag: string): string
    requires n >= 1
    decreases |s|
  {
    if |s| == 0 then ""
    else match SpanAt(s, c, n)
      case Some(k) => Tagged(tag, s[n..k]) + Spans(s[k + n..], c, n, tag)
      case None => [s[0]] + Spans(s[1..], c, n, tag)
  }

  function InlineCode(s: string): string { Spans(s, '`', 1, "code") }
  function BoldStars(s: string): string { Spans(s, '*', 2, "strong") }
  function BoldUnderscores(s: string): string { Spans(s, '_', 2, "strong") }
  function ItalicStars(s: string): string { Spans(s, '*', 1, "em") }
  function ItalicUnderscores(s: string): string { Spans(s, '_', 1, "em") }

  /** Text without the delimiter character passes through unchanged. */
  lemma {:induction false} SpansFrame(s: string, c: char, n: nat, tag: string)
    requires n >= 1
    requires c !in s
    ensures Spans(s, c, n, tag) == s
    decreases |s|
  {
    if |s| > 0 {
      SpansFrame(s[1..], c, n, tag);
    }
  }

  /** A span at the front: delimiter, non-empty run free of the delimiter
      character, delimiter. It becomes one element and the scan goes on. */
  lemma {:induction false} SpanFront(w: string, rest: string, c: char, n: nat, tag: string)
    requires n >= 1 && |w| > 0
    requires c !in w
    ensures Spans(Rep(c, n) + w + Rep(c, n) + rest, c, n, tag)
            == Tagged(tag, w) + Spans(rest, c, n, tag)
  {
    var d := Rep(c, n);
    var s := d + w + d + rest;
    assert s[..n] == d && s[n..n + |w|] == w;
    assert s[n + |w|..n + |w| + n] == d && s[n + |w| + n..] == rest;
    SpansIn(s, w, rest, c, n, tag);
  }

  /** The same, for any text laid out as delimiter, run, delimiter, rest. */
  lemma {:induction false} SpansIn(s: string, w: string, rest: string, c: char, n: nat, tag: string)
    requires n >= 1 && |w| > 0 && c !in w && n + |w| + n <= |s|
    requires s[..n] == Rep(c, n) && s[n..n + |w|] == w && s[n + |w|..n + |w| + n] == Rep(c, n)
    requires s[n + |w| + n..] == rest
    ensures Spans(s, c, n, tag) == Tagged(tag, w) + Spans(rest, c, n, tag)
  {
    SpanAtIn(s, w, c, n);
  }

  lemma {:induction false} SpanAtIn(s: string, w: string, c: char, n: nat)
    requires n >= 1 && |w| > 0 && c !in w && n + |w| + n <= |s|
    requires s[..n] == Rep(c, n) && s[n..n + |w|] == w && s[n + |w|..n + |w| + n] == Rep(c, n)
    ensures SpanAt(s, c, n) == Some(n + |w|)
  {
    var k := n + |w|;
    FindCharAt(s, c, n, k);
    assert s[k..][..n] == s[k..k + n];
  }

  /** Erases the tags a span pass inserted, putting the delimiters back. */
  function Unspan(s: string, c: char, n: nat, tag: string): string
    decreases |s|
  {
    if |s| == 0 then ""
    else if StartsWith(s, "<" + tag + ">") then Rep(c, n) + Unspan(s[|tag| + 2..], c, n, tag)
    else if StartsWith(s, "</" + tag + ">") then Rep(c, n) + Unspan(s[|tag| + 3..], c, n, tag)
    else [s[0]] + Unspan(s[1..], c, n, tag)
  }

  lemma {:induction false} UnspanPlain(a: string, rest: string, c: char, n: nat, tag: string)
    requires '<' !in a
    ensures Unspan(a + rest, c, n, tag) == a + Unspan(rest, c, n, tag)
    decreases |a|
  {
    if |a| > 0 {
      var s := a + rest;
      assert s[0] == a[0];
      assert s[1..] == a[1..] + rest;
      UnspanPlain(a[1..], rest, c, n, tag);
    } else {
      assert a + rest == rest;
    }
  }

  /** The tags the passes use (`code`, `strong`, `em`) have no `/`, so the
      opening tag cannot be read where a closing tag stands. */
  lemma {:induction false} UnspanTagged(w: string, rest: string, c: char, n: nat, tag: string)
    requires '<' !in w && '/' !in tag
    ensures Unspan(Tagged(tag, w) + rest, c, n, tag) == Rep(c, n) + w + Rep(c, n) + Unspan(rest, c, n, tag)
  {
    var open, close := "<" + tag + ">", "</" + tag + ">";
    TaggedSplit(tag, w, rest);
    UnspanOpen(w + (close + rest), c, n, tag);
    UnspanPlain(w, close + rest, c, n, tag);
    UnspanClose(rest, c, n, tag);
  }

  lemma {:induction false} TaggedSplit(tag: string, w: string, rest: string)
    ensures Tagged(tag, w) + rest == ("<" + tag + ">") + (w + (("</" + tag + ">") + rest))
  {
    var open, close := "<" + tag + ">", "</" + tag + ">";
    assert Tagged(tag, w) == open + w + close;
    assert open + w + close + rest == open + (w + (close + rest));
  }

  lemma {:induction false} UnspanOpen(x: string, c: char, n: nat, tag: string)
    ensures Unspan("<" + tag + ">" + x, c, n, tag) == Rep(c, n) + Unspan(x, c, n, tag)
  {
    var open := "<" + tag + ">";
    var s := open + x;
    assert s[..|open|] == open && s[|tag| + 2..] == x;
  }

  lemma {:induction false} UnspanClose(x: string, c: char, n: nat, tag: string)
    requires '/' !in tag
    ensures Unspan("</" + tag + ">" + x, c, n, tag) == Rep(c, n) + Unspan(x, c, n, tag)
  {
    var open, close := "<" + tag + ">", "</" + tag + ">";
    var s := close + x;
    assert !StartsWith(s, open) by {
      assert s[1] == '/';
      if |s| >= |open| && |tag| > 0 { assert s[..|open|][1] == s[1] && open[1] == tag[0]; }
    }
    assert s[..|close|] == close && s[|tag| + 3..] == x;
  }

  /** For text without `<`, a span pass only inserts tags around runs:
      erasing them (putting the delimiters back) gives back the input. */
  lemma {:induction false} SpansRoundTrip(s: string, c: char, n: nat, tag: string)
    requires n >= 1
    requires '<' !in s && '/' !in tag
    ensures Unspan(Spans(s, c, n, tag), c, n, tag) == s
    decreases |s|
  {
    if |s| > 0 {
      match SpanAt(s, c, n)
      case Some(k) =>
        var w, rest := s[n..k], s[k + n..];
        SpanParts(s, c, n, k);
        var out := Spans(rest, c, n, tag);
        assert Spans(s, c, n, tag) == Tagged(tag, w) + out;
        UnspanTagged(w, out, c, n, tag);
        SpansRoundTrip(rest, c, n, tag);
      case None =>
        var out := Spans(s[1..], c, n, tag);
        assert Spans(s, c, n, tag) == [s[0]] + out;
        UnspanPlain([s[0]], out, c, n, tag);
        SpansRoundTrip(s[1..], c, n, tag);
        assert s == [s[0]] + s[1..];
    }
  }

  /** A recognised span splits the text into delimiter, run, delimiter and
      the rest; the run holds no character the text does not. */
  lemma {:induction false} SpanParts(s: string, c: char, n: nat, k: nat)
    requires n >= 1 && SpanAt(s, c, n) == Some(k)
    ensures s == Rep(c, n) + s[n..k] + Rep(c, n) + s[k + n..]
    ensures forall x :: x in s[n..k] ==> x in s
  {
    assert s == s[..n] + s[n..k] + s[k..k + n] + s[k + n..];
  }

  /** Italic's run `[^*]+` crosses newlines: a `* ` bullet followed by a
      second `* ` bullet becomes one `<em>` span, so neither line is left
      starting with `* ` for the list rule. */
  lemma {:induction false} ItalicEatsBullets(a: string, b: string)
    requires '*' !in a
    requires '*' !in b
    ensures ItalicStars("* " + a + "\n* " + b) == "<em> " + a + "\n</em> " + b
  {
    var w := " " + a + "\n";
    var rest := " " + b;
    BulletsShape(a, b);
    SpanFront(w, rest, '*', 1, "em");
    SpansFrame(rest, '*', 1, "em");
    EmShape(a, b);
  }

  lemma {:induction false} BulletsShape(a: string, b: string)
    ensures "* " + a + "\n* " + b == Rep('*', 1) + (" " + a + "\n") + Rep('*', 1) + (" " + b)
  {
    assert Rep('*', 1) == "*";
  }

  lemma {:induction false} EmShape(a: string, b: string)
    ensures Tagged("em", " " + a + "\n") + (" " + b) == "<em> " + a + "\n</em> " + b
  {
  }

  // ---------------------------------------------------------------------
  // Links /\[([^\]]+)\]\(([^)]+)\)/g and images /!\[([^\]]*)\]\(([^)]+)\)/g

  datatype Bracket = Bracket(text: string, target: string, end: nat)

  /** `[text](target)` starting at `from`: the text runs to the first `]`,
      which must be followed by `(`; the target is non-empty and runs to the
      first `)`. */
  function BracketAt(s: string, from: nat): (m: Option<Bracket>)
    requires from <= |s|
    ensures m.Some? ==> from < m.value.end <= |s|
  {
    if from < |s| && s[from] == '[' then
      var j := FindChar(s, ']', from + 1);
      if j + 1 < |s| && s[j + 1] == '(' then
        var k := FindChar(s, ')', j + 2);
        if j + 2 < k < |s| then Some(Bracket(s[from + 1..j], s[j + 2..k], k + 1)) else None
      else None
    else None
  }

  function Anchor(text: string, url: string): string
  {
    "<a href=\"" + url + "\" target=\"_blank\" rel=\"noopener noreferrer\">" + text + "</a>"
  }

  function Img(alt: string, src: string): string
  {
    "<img src=\"" + src + "\" alt=\"" + alt + "\" loading=\"lazy\">"
  }

  function Links(s: string): string
    decreases |s|
  {
    if |s| == 0 then ""
    else match BracketAt(s, 0)
      case Some(b) =>
        if |b.text| > 0 then Anchor(b.text, b.target) + Links(s[b.end..])
        else [s[0]] + Links(s[1..])
      case None => [s[0]] + Links(s[1..])
  }

  /** An image match at index 0: `!` then a bracket whose text may be empty. */
  function ImageAt(s: string): Option<Bracket>
  {
    if |s| > 0 && s[0] == '!' then BracketAt(s, 1) else None
  }

  function Images(s: string): string
    decreases |s|
  {
    if |s| == 0 then ""
    else match ImageAt(s)
      case Some(b) => Img(b.text, b.target) + Images(s[b.end..])
      case None => [s[0]] + Images(s[1..])
  }

  lemma {:induction false} LinksFrame(s: string)
    requires '[' !in s
    ensures Links(s) == s
    decreases |s|
  {
    if |s| > 0 {
      LinksFrame(s[1..]);
    }
  }

  lemma {:induction false} ImagesFrame(s: string)
    requires '!' !in s
    ensures Images(s) == s
    decreases |s|
  {
    if |s| > 0 {
      ImagesFrame(s[1..]);
    }
  }

  /** `[text](target)` with the shapes the regex accepts is recognised with
      exactly that text and target. */
  lemma {:induction false} BracketOf(pre: string, text: string, target: string, rest: string)
    requires ']' !in text
    requires |target| > 0 && ')' !in target
    ensures BracketAt(pre + "[" + text + "](" + target + ")" + rest, |pre|)
            == Some(Bracket(text, target, |pre| + |text| + |target| + 4))
  {
    var s := pre + "[" + text + "](" + target + ")" + rest;
    var f := |pre|;
    var j := f + 1 + |text|;
    var k := j + 2 + |target|;
    assert s[f] == '[' && s[j] == ']' && s[j + 1] == '(' && s[k] == ')';
    assert s[f + 1..j] == text;
    assert s[j + 2..k] == target;
    BracketIn(s, f, text, target, k + 1);
  }

  /** The bracket recognised where the text has `[`, a run without `]`,
      `](`, a non-empty run without `)` and `)`. */
  lemma {:induction false} BracketIn(s: string, f: nat, text: string, target: string, e: nat)
    requires e == f + |text| + |target| + 4 <= |s|
    requires s[f] == '[' && s[f + 1..f + 1 + |text|] == text && s[f + 1 + |text|] == ']'
    requires s[f + 2 + |text|] == '(' && s[f + 3 + |text|..e - 1] == target && s[e - 1] == ')'
    requires ']' !in text && |target| > 0 && ')' !in target
    ensures BracketAt(s, f) == Some(Bracket(text, target, e))
  {
    var j := f + 1 + |text|;
    FindCharAt(s, ']', f + 1, j);
    FindCharAt(s, ')', j + 2, e - 1);
  }

  /** Where no link with text starts, the link pass copies one character. */
  lemma {:induction false} LinksCopy(s: string)
    requires |s| > 0
    requires BracketAt(s, 0).None? || BracketAt(s, 0).value.text == ""
    ensures Links(s) == [s[0]] + Links(s[1..])
  {
  }

  /** Links run before images, so an image with non-empty alt text is taken
      by the link rule and comes out as `!` followed by an anchor; the image
      rule never sees it. */
  lemma {:induction false} ImageWithAltBecomesLink(alt: string, src: string)
    requires |alt| > 0 && |src| > 0
    requires ']' !in alt && '[' !in alt && '!' !in alt
    requires ')' !in src && '[' !in src && '!' !in src
    ensures Images(Links("![" + alt + "](" + src + ")")) == "!" + Anchor(alt, src)
  {
    LinksOfImage(alt, src);
    var a := Anchor(alt, src);
    AnchorNoBang(alt, src);
    ImagesFrame(a);
    ImagesCopy("!" + a);
  }

  lemma {:induction false} AnchorNoBang(text: string, url: string)
    requires '!' !in text && '!' !in url
    ensures '!' !in Anchor(text, url)
  {
    AnchorHeadNoBang();
  }

  lemma {:induction false} AnchorHeadNoBang()
    ensures '!' !in "<a href=\"" && '!' !in "</a>"
    ensures '!' !in "\" target=\"_blank\" rel=\"noopener noreferrer\">"
  {
  }

  /** Where no image starts, the image pass copies one character. */
  lemma {:induction false} ImagesCopy(s: string)
    requires |s| > 1 && s[1] != '['
    ensures Images(s) == [s[0]] + Images(s[1..])
  {
  }

  lemma {:induction false} LinksOfImage(alt: string, src: string)
    requires |alt| > 0 && |src| > 0
    requires ']' !in alt && ')' !in src
    ensures Links("![" + alt + "](" + src + ")") == "!" + Anchor(alt, src)
  {
    var s := "![" + alt + "](" + src + ")";
    var t := "[" + alt + "](" + src + ")";
    assert s[0] == '!' && s[1..] == t;
    LinksCopy(s);
    LinksOfBracket(alt, src);
  }

  /** A whole `[text](url)` is one anchor. */
  lemma {:induction false} LinksOfBracket(text: string, url: string)
    requires |text| > 0 && |url| > 0
    requires ']' !in text && ')' !in url
    ensures Links("[" + text + "](" + url + ")") == Anchor(text, url)
  {
    var t := "[" + text + "](" + url + ")";
    assert t == "" + "[" + text + "](" + url + ")" + "";
    BracketOf("", text, url, "");
    assert t[|t|..] == "";
  }

  /** Only images with empty alt text reach the image rule. */
  lemma {:induction false} EmptyAltImage(src: string)
    requires |src| > 0
    requires ')' !in src && '[' !in src && '!' !in src
    ensures Images(Links("![](" + src + ")")) == Img("", src)
  {
    var s := "![](" + src + ")";
    assert s[0] == '!' && s[1] == '[' && s[2] == ']' && s[3] == '(';
    assert s[4..|s| - 1] == src && s[|s| - 1] == ')';
    EmptyAltIn(s, src);
  }

  /** The link pass leaves `![](src)` as it is, since the bracket has no
      text; the image pass then turns it into one image. */
  lemma {:induction false} EmptyAltIn(s: string, src: string)
    requires |s| == |src| + 5 && |src| > 0 && ')' !in src && '[' !in src
    requires s[0] == '!' && s[1] == '[' && s[2] == ']' && s[3] == '('
    requires s[4..|s| - 1] == src && s[|s| - 1] == ')'
    ensures Links(s) == s && Images(s) == Img("", src)
  {
    EmptyAltImagesIn(s, src);
    var t := s[1..];
    assert t[0] == '[' && t[1] == ']' && t[2] == '(' && t[3..|t| - 1] == src && t[|t| - 1] == ')';
    EmptyBracketLinks(t, src);
    LinksCopy(s);
    assert s == [s[0]] + t;
  }

  lemma {:induction false} EmptyAltImagesIn(s: string, src: string)
    requires |s| == |src| + 5 && |src| > 0 && ')' !in src
    requires s[0] == '!' && s[1] == '[' && s[2] == ']' && s[3] == '('
    requires s[4..|s| - 1] == src && s[|s| - 1] == ')'
    ensures Images(s) == Img("", src)
  {
    BracketIn(s, 1, "", src, |s|);
    assert s[|s|..] == "";
  }

  lemma {:induction false} EmptyBracketLinks(t: string, src: string)
    requires |t| == |src| + 4 && |src| > 0 && ')' !in src && '[' !in src
    requires t[0] == '[' && t[1] == ']' && t[2] == '(' && t[3..|t| - 1] == src && t[|t| - 1] == ')'
    ensures Links(t) == t
  {
    BracketIn(t, 0, "", src, |t|);
    LinksCopy(t);
    var u := t[1..];
    forall i | 0 <= i < |u| ensures u[i] != '[' {
      if 2 <= i < |u| - 1 {
        assert u[i] == t[3..|t| - 1][i - 2];
      }
    }
    LinksFrame(u);
    assert t == [t[0]] + u;
  }
}
