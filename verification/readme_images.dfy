/** The README image rewrite of `buildProjectCache` (build/build.js):
    relative image targets, in Markdown images and in HTML `<img>` tags,
    are made absolute by prefixing the raw-content URL of the repository's
    `main` branch. */
module ReadmeImages {
  import opened Text

  function RawPrefix(repo: string): string
  {
    "https://raw.githubusercontent.com/" + repo + "/main/"
  }

  /** The negative lookahead `(?!https?:\/\/)` fails here: the text starts
      with `http://` or `https://`. */
  predicate Absolute(s: string)
  {
    && |s| >= 7 && s[0] == 'h' && s[1] == 't' && s[2] == 't' && s[3] == 'p'
    && ((s[4] == ':' && s[5] == '/' && s[6] == '/')
        || (|s| >= 8 && s[4] == 's' && s[5] == ':' && s[6] == '/' && s[7] == '/'))
  }

  // ---------------------------------------------------------------------
  // Markdown images: /!\[([^\]]*)\]\((?!https?:\/\/)([^)]+)\)/g

  /** A match: alt text, target, and the index just past the `)`. */
  datatype MdImage = MdImage(alt: string, target: string, end: nat)

  /** The alt text runs to the first `]`, which must be followed by `(`;
      the target must not be absolute, is not empty and runs to the first
      `)`. */
  function MdImageAt(s: string): (m: Option<MdImage>)
    ensures m.Some? ==> 0 < m.value.end <= |s| && s[0] == '!'
  {
    if |s| >= 2 && s[0] == '!' && s[1] == '[' then
      var c := FindChar(s, ']', 2);
      if c + 1 < |s| && s[c + 1] == '(' && !Absolute(s[c + 2..]) then
        var e := FindChar(s, ')', c + 2);
        if c + 2 < e < |s| then Some(MdImage(s[2..c], s[c + 2..e], e + 1)) else None
      else None
    else None
  }

  function RewriteMd(s: string, repo: string): string
    decreases |s|
  {
    if |s| == 0 then ""
    else
      match MdImageAt(s)
      case Some(m) => "![" + m.alt + "](" + RawPrefix(repo) + m.target + ")" + RewriteMd(s[m.end..], repo)
      case None => [s[0]] + RewriteMd(s[1..], repo)
  }

  function MdImageText(alt: string, target: string): string
  {
    "![" + alt + "](" + target + ")"
  }

  /** Text before the first `!` is copied. */
  lemma {:induction false} MdPrefix(a: string, b: string, repo: string)
    requires '!' !in a
    ensures RewriteMd(a + b, repo) == a + RewriteMd(b, repo)
    decreases |a|
  {
    if |a| > 0 {
      assert (a + b)[0] == a[0];
      assert (a + b)[1..] == a[1..] + b;
      MdPrefix(a[1..], b, repo);
    } else {
      assert a + b == b;
    }
  }

  /** Where the match of an image with a well-formed alt text and target
      ends, and what it captures. */
  lemma {:induction false} MdImageOfText(alt: string, target: string, tail: string)
    requires ']' !in alt && ')' !in target && |target| > 0
    ensures var s := MdImageText(alt, target) + tail;
            var c := 2 + |alt|;
            && FindChar(s, ']', 2) == c && s[c + 1] == '(' && s[c + 2..] == target + ")" + tail
            && FindChar(s, ')', c + 2) == c + 2 + |target|
            && s[2..c] == alt && s[c + 2..c + 2 + |target|] == target
  {
    var s := MdImageText(alt, target) + tail;
    var c := 2 + |alt|;
    assert s[2..c] == alt;
    assert s[c] == ']';
    FindCharAt(s, ']', 2, c);
    assert s[c + 2..c + 2 + |target|] == target;
    assert s[c + 2 + |target|] == ')';
    FindCharAt(s, ')', c + 2, c + 2 + |target|);
    assert s[c + 2..] == target + ")" + tail;
  }

  /** Absoluteness of a target followed by a character that cannot occur in
      `https://` is decided by the target alone. */
  lemma {:induction false} AbsoluteTarget(target: string, d: char, tail: string)
    requires d == ')' || d == '"'
    ensures Absolute(target + [d] + tail) <==> Absolute(target)
  {
    var x := target + [d] + tail;
    assert forall i :: 0 <= i < |target| ==> x[i] == target[i];
    assert x[|target|] == d;
  }

  /** The match of a well-formed image: it fails exactly when the target
      is absolute. */
  lemma {:induction false} MdImageAtText(alt: string, target: string, tail: string)
    requires ']' !in alt && ')' !in target && |target| > 0
    ensures MdImageAt(MdImageText(alt, target) + tail)
            == if Absolute(target) then None else Some(MdImage(alt, target, 5 + |alt| + |target|))
  {
    MdImageOfText(alt, target, tail);
    AbsoluteTarget(target, ')', tail);
  }

  /** Without a match at the front, one character is copied. */
  lemma {:induction false} MdSkip(s: string, repo: string)
    requires |s| > 0 && MdImageAt(s).None?
    ensures RewriteMd(s, repo) == [s[0]] + RewriteMd(s[1..], repo)
  {
  }

  /** A `!` that starts no image is copied, together with the `!`-free
      text after it. */
  lemma {:induction false} MdCopyBang(body: string, tail: string, repo: string)
    requires '!' !in body && MdImageAt("!" + body + tail).None?
    ensures RewriteMd("!" + body + tail, repo) == "!" + body + RewriteMd(tail, repo)
  {
    var s := "!" + body + tail;
    MdSkip(s, repo);
    assert s[1..] == body + tail;
    MdPrefix(body, tail, repo);
  }

  /** A relative image gets the prefix; the rest is rewritten on its own. */
  lemma {:induction false} MdRelative(alt: string, target: string, tail: string, repo: string)
    requires ']' !in alt && ')' !in target && |target| > 0 && !Absolute(target)
    ensures RewriteMd(MdImageText(alt, target) + tail, repo)
            == MdImageText(alt, RawPrefix(repo) + target) + RewriteMd(tail, repo)
  {
    var s := MdImageText(alt, target) + tail;
    MdImageAtText(alt, target, tail);
    assert s[5 + |alt| + |target|..] == tail;
  }

  /** An absolute image is copied. */
  lemma {:induction false} MdAbsolute(alt: string, target: string, tail: string, repo: string)
    requires ']' !in alt && ')' !in target && Absolute(target) && '!' !in alt && '!' !in target
    ensures RewriteMd(MdImageText(alt, target) + tail, repo) == MdImageText(alt, target) + RewriteMd(tail, repo)
  {
    var body := "[" + alt + "](" + target + ")";
    assert MdImageText(alt, target) == "!" + body;
    MdImageAtText(alt, target, tail);
    MdCopyBang(body, tail, repo);
  }

  /** Rewriting an image twice changes nothing more than rewriting it once,
      when no `!` occurs inside or after it. */
  lemma {:induction false} MdIdempotent(alt: string, target: string, tail: string, repo: string)
    requires ']' !in alt && ')' !in target && |target| > 0
    requires '!' !in alt && '!' !in target && '!' !in tail && '!' !in repo && ')' !in repo
    ensures var once := RewriteMd(MdImageText(alt, target) + tail, repo);
            RewriteMd(once, repo) == once
  {
    MdPrefix(tail, "", repo);
    assert tail + "" == tail;
    if Absolute(target) {
      MdAbsolute(alt, target, tail, repo);
    } else {
      MdRelative(alt, target, tail, repo);
      var t := RawPrefix(repo) + target;
      PrefixFacts(repo, target);
      MdAbsolute(alt, t, tail, repo);
    }
  }

  /** The conditions under which an image inside an image's target is
      rewritten on the second pass. */
  predicate NestedParts(a: string, b: string, c: string, repo: string)
  {
    && ']' !in a && ']' !in b && ')' !in b && '!' !in a
    && ')' !in c && '!' !in c && |c| > 0 && !Absolute(c)
    && '!' !in repo && ')' !in repo
  }

  /** The outer image's target runs to the inner image's `)`. */
  function NestedTarget(b: string, c: string): string
  {
    "![" + b + "](" + c
  }

  /** First pass over a nested image: the outer target swallows the inner
      image up to its `)`. */
  lemma {:induction false} MdNestedOnce(a: string, b: string, c: string, repo: string)
    requires NestedParts(a, b, c, repo)
    ensures RewriteMd(MdImageText(a, NestedTarget(b, c)) + ")", repo)
            == MdImageText(a, RawPrefix(repo) + NestedTarget(b, c)) + ")"
  {
    var t := NestedTarget(b, c);
    assert ')' !in t;
    assert !Absolute(t) by { assert t[0] == '!'; }
    MdRelative(a, t, ")", repo);
    MdPrefix(")", "", repo);
    assert ")" + "" == ")";
  }

  /** The raw-content prefix brings no `!` or `)` of its own and makes any
      target absolute. */
  lemma {:induction false} PrefixFacts(repo: string, x: string)
    requires '!' !in repo && ')' !in repo
    ensures '!' !in RawPrefix(repo) && ')' !in RawPrefix(repo) && Absolute(RawPrefix(repo) + x)
  {
    assert '!' !in "https://raw.githubusercontent.com/" && '!' !in "/main/";
    assert ')' !in "https://raw.githubusercontent.com/" && ')' !in "/main/";
    PrefixAbsolute(repo, x);
  }

  /** Anything after the raw-content prefix is an absolute target. */
  lemma {:induction false} PrefixAbsolute(repo: string, x: string)
    ensures Absolute(RawPrefix(repo) + x)
  {
    var y := RawPrefix(repo) + x;
    assert y[..8] == "https://";
    assert y[0] == y[..8][0] && y[1] == y[..8][1] && y[2] == y[..8][2] && y[3] == y[..8][3];
    assert y[4] == y[..8][4] && y[5] == y[..8][5] && y[6] == y[..8][6] && y[7] == y[..8][7];
  }

  /** The raw-content prefix ends with `/`. */
  lemma {:induction false} PrefixSlash(repo: string)
    ensures |RawPrefix(repo)| > 0 && RawPrefix(repo)[|RawPrefix(repo)| - 1] == '/'
  {
  }

  /** An absolute image whose target holds no `!` of its own before `rest`
      is copied up to `rest`. */
  lemma {:induction false} MdAbsoluteBefore(a: string, p: string, rest: string, tail: string, repo: string)
    requires ']' !in a && '!' !in a && '!' !in p && ')' !in p + rest && Absolute(p + rest)
    ensures RewriteMd(MdImageText(a, p + rest) + tail, repo)
            == "![" + a + "](" + p + RewriteMd(rest + ")" + tail, repo)
  {
    var head := "[" + a + "](" + p;
    var after := rest + ")" + tail;
    var s := MdImageText(a, p + rest) + tail;
    MdImageAtText(a, p + rest, tail);
    assert s == "!" + head + after by {
      assert MdImageText(a, p + rest) == "!" + head + rest + ")";
    }
    MdCopyBang(head, after, repo);
    assert "!" + head == "![" + a + "](" + p by {
      assert "!" + "[" == "![";
      assert "!" + head == ("!" + "[") + a + "](" + p;
    }
  }

  /** Second pass: the outer image is absolute now and is copied, but the
      inner image is relative and is rewritten. */
  lemma {:induction false} MdNestedTwice(a: string, b: string, c: string, repo: string)
    requires NestedParts(a, b, c, repo)
    ensures RewriteMd(MdImageText(a, RawPrefix(repo) + NestedTarget(b, c)) + ")", repo)
            == "![" + a + "](" + RawPrefix(repo) + MdImageText(b, RawPrefix(repo) + c) + ")"
  {
    var p := RawPrefix(repo);
    PrefixFacts(repo, NestedTarget(b, c));
    MdAbsoluteBefore(a, p, NestedTarget(b, c), ")", repo);
    assert NestedTarget(b, c) + ")" + ")" == MdImageText(b, c) + ")";
    MdRelative(b, c, ")", repo);
    MdPrefix(")", "", repo);
    assert ")" + "" == ")";
  }

  /** The rewrite is not idempotent: an image whose target holds another
      image is rewritten once, and the inner image again on a second pass. */
  lemma {:induction false} MdNestedNotIdempotent(a: string, b: string, c: string, repo: string)
    requires NestedParts(a, b, c, repo)
    ensures var once := RewriteMd(MdImageText(a, NestedTarget(b, c)) + ")", repo);
            RewriteMd(once, repo) != once
  {
    MdNestedOnce(a, b, c, repo);
    MdNestedTwice(a, b, c, repo);
    var p := RawPrefix(repo);
    assert |MdImageText(a, p + NestedTarget(b, c)) + ")"| < |"![" + a + "](" + p + MdImageText(b, p + c) + ")"|;
  }

  // ---------------------------------------------------------------------
  // HTML images: /<img\s+([^>]*\s+)?src="(?!https?:\/\/)([^"]+)"([^>]*)>/g

  const SrcOpen: string := "src=\""

  /** What may stand between `<img` and `src="`: `\s+([^>]*\s+)?` matches
      exactly the non-empty text that starts and ends with white space and
      holds no `>`. */
  predicate Gap(m: string)
  {
    |m| > 0 && IsJsSpace(m[0]) && IsJsSpace(m[|m| - 1]) && '>' !in m
  }

  /** What follows `src="` at index `c`: a non-absolute, non-empty target up
      to the first `"`, then attributes up to the first `>`. Gives the index
      of that quote and of that `>`. */
  function SrcTail(s: string, c: nat): (r: Option<(nat, nat)>)
    ensures r.Some? ==> c < r.value.0 < r.value.1 < |s|
  {
    if c < |s| && s[c] != '"' && !Absolute(s[c..]) then
      var q := FindChar(s, '"', c);
      if q < |s| then
        var e := FindChar(s, '>', q + 1);
        if e < |s| then Some((q, e)) else None
      else None
    else None
  }

  /** `src="` stands at index `p`, after `<img` and a gap. */
  predicate SrcCandidate(s: string, p: nat)
  {
    5 <= p && p + 5 <= |s| && OccursAt(s, SrcOpen, p) && Gap(s[4..p])
  }

  /** `src="` can start at index `p` of a tag opened at index 0. */
  predicate SrcAt(s: string, p: nat)
  {
    SrcCandidate(s, p) && SrcTail(s, p + 5).Some?
  }

  /** Whether `src="` can start at each index below `n`. */
  function SrcMask(s: string, n: nat): (m: seq<bool>)
    ensures |m| == n && forall k :: 0 <= k < n ==> m[k] == SrcAt(s, k)
    decreases n
  {
    if n == 0 then [] else SrcMask(s, n - 1) + [SrcAt(s, n - 1)]
  }

  /** The last index at or below `p` whose flag is set. */
  function LastSet(m: seq<bool>, p: nat): Option<nat>
    requires p < |m|
    decreases p
  {
    if m[p] then Some(p) else if p == 0 then None else LastSet(m, p - 1)
  }

  lemma {:induction false} LastSetIs(m: seq<bool>, p: nat)
    requires p < |m|
    ensures var r := LastSet(m, p);
      && (r.Some? ==> r.value <= p && m[r.value] && forall k :: r.value < k <= p ==> !m[k])
      && (r.None? ==> forall k :: 0 <= k <= p ==> !m[k])
    decreases p
  {
    if !m[p] && p > 0 {
      LastSetIs(m, p - 1);
    }
  }

  /** The last index where `src="` can start. The engine backtracks the
      greedy `[^>]*` from the right, so the match it settles on uses the last
      such `src="`. */
  function LastSrc(s: string): Option<nat>
  {
    LastSet(SrcMask(s, |s| + 1), |s|)
  }

  /** `LastSrc` finds the last candidate, or says there is none. */
  lemma {:induction false} LastSrcIs(s: string)
    ensures var r := LastSrc(s);
      && (r.Some? ==> r.value <= |s| && SrcAt(s, r.value) && forall k: nat :: r.value < k ==> !SrcAt(s, k))
      && (r.None? ==> forall k: nat :: !SrcAt(s, k))
  {
    LastSetIs(SrcMask(s, |s| + 1), |s|);
    forall k: nat | k > |s| ensures !SrcAt(s, k) {
    }
  }

  /** The end of the run of white space starting at `i`. */
  function SpaceRun(s: string, i: nat): (j: nat)
    requires i <= |s|
    ensures i <= j <= |s|
    decreases |s| - i
  {
    if i < |s| && IsJsSpace(s[i]) then SpaceRun(s, i + 1) else i
  }

  /** The run is all white space and stops at the first other character. */
  lemma {:induction false} SpaceRunSpaces(s: string, i: nat)
    requires i <= |s|
    ensures var j := SpaceRun(s, i);
            (j < |s| ==> !IsJsSpace(s[j])) && forall k :: i <= k < j ==> IsJsSpace(s[k])
    decreases |s| - i
  {
    if i < |s| && IsJsSpace(s[i]) {
      SpaceRunSpaces(s, i + 1);
    }
  }

  /** A match: the optional group between the first white-space run and
      `src="` (empty when it did not take part), the target, the
      attributes after it, and the index just past the `>`. */
  datatype ImgTag = ImgTag(group: string, target: string, rest: string, end: nat)

  function ImgTagAt(s: string): (t: Option<ImgTag>)
    ensures t.Some? ==> 0 < t.value.end <= |s| && s[0] == '<'
  {
    if |s| >= 4 && s[0] == '<' && s[1] == 'i' && s[2] == 'm' && s[3] == 'g' then
      match LastSrc(s)
      case None => None
      case Some(p) =>
        match SrcTail(s, p + 5)
        case None => None
        case Some((q, e)) => Some(TagOf(s, p, q, e))
    else None
  }

  /** The groups of a match whose candidate `src="` is at `p`, whose value
      closes at `q` and whose tag closes at `e`: the attributes between the
      first white-space run and the candidate, the value, and the rest. */
  function TagOf(s: string, p: nat, q: nat, e: nat): ImgTag
    requires 4 <= p + 5 <= q < e < |s|
  {
    var w := SpaceRun(s, 4);
    ImgTag(if w < p then s[w..p] else "", s[p + 5..q], s[q + 1..e], e + 1)
  }

  /** The replacement `<img $1src="…/main/$2"$3>`. */
  function Replacement(t: ImgTag, repo: string): string
  {
    "<img " + t.group + SrcOpen + RawPrefix(repo) + t.target + "\"" + t.rest + ">"
  }

  function RewriteImg(s: string, repo: string): string
    decreases |s|
  {
    if |s| == 0 then ""
    else
      match ImgTagAt(s)
      case Some(t) => Replacement(t, repo) + RewriteImg(s[t.end..], repo)
      case None => [s[0]] + RewriteImg(s[1..], repo)
  }

  /** Both rewrites, in the order the build applies them. */
  function RewriteReadme(s: string, repo: string): string
  {
    RewriteImg(RewriteMd(s, repo), repo)
  }

  /** Text before the first `<` is copied. */
  lemma {:induction false} ImgPrefix(a: string, b: string, repo: string)
    requires '<' !in a
    ensures RewriteImg(a + b, repo) == a + RewriteImg(b, repo)
    decreases |a|
  {
    if |a| > 0 {
      assert (a + b)[0] == a[0];
      assert (a + b)[1..] == a[1..] + b;
      ImgPrefix(a[1..], b, repo);
    } else {
      assert a + b == b;
    }
  }

  predicate Spaces(w: string)
  {
    forall i :: 0 <= i < |w| ==> IsJsSpace(w[i])
  }

  /** A tag with white space `w`, other attributes `g`, then `src="` and
      `x` up to the closing `>`. */
  function ImgText(w: string, g: string, x: string): string
  {
    "<img" + w + g + SrcOpen + x + ">"
  }

  /** In a tag laid out as `<img`, white space `w`, attributes `g`, `src="`,
      then `x` up to the first `>`, only the intended `src="` is a
      candidate when neither `g` nor `x` holds another. */
  lemma {:induction false} OnlySrc(s: string, w: string, g: string, x: string, k: nat)
    requires |w| > 0 && Spaces(w) && '>' !in g && !Contains(g, SrcOpen) && '>' !in x && !Contains(x, SrcOpen)
    requires 4 + |w| + |g| + 5 + |x| < |s|
    requires s[4..4 + |w|] == w && s[4 + |w|..4 + |w| + |g|] == g
    requires s[4 + |w| + |g|..4 + |w| + |g| + 5] == SrcOpen
    requires s[4 + |w| + |g| + 5..4 + |w| + |g| + 5 + |x|] == x && s[4 + |w| + |g| + 5 + |x|] == '>'
    ensures SrcCandidate(s, k) ==> k == 4 + |w| + |g|
  {
    var a0 := 4 + |w|;
    var a := a0 + |g|;
    var b := a + 5;
    var e := b + |x|;
    if 4 <= k < a0 {
      assert s[k] == s[4..a0][k - 4];
    } else if a0 <= k && k + 5 <= a {
      var u := s[k..k + 5];
      var v := g[k - a0..k - a0 + 5];
      forall i | 0 <= i < 5 ensures u[i] == v[i] {
        assert g[k - a0 + i] == s[a0..a][k - a0 + i];
      }
      assert !OccursAt(g, SrcOpen, k - a0);
    } else if a0 <= k < a {
      assert s[k + 4] == s[a..b][k + 4 - a];
      assert SrcOpen[k + 4 - a] != SrcOpen[4];
    } else if a < k < b {
      assert s[k] == s[a..b][k - a];
      assert SrcOpen[k - a] != SrcOpen[0];
    } else if b <= k && k + 5 <= e {
      var u := s[k..k + 5];
      var v := x[k - b..k - b + 5];
      forall i | 0 <= i < 5 ensures u[i] == v[i] {
        assert x[k - b + i] == s[b..e][k - b + i];
      }
      assert !OccursAt(x, SrcOpen, k - b);
    } else if b <= k <= e {
      if k + 5 <= |s| {
        assert s[k..k + 5][e - k] == '>';
      }
    } else if e < k <= |s| {
      assert s[4..k][e - 4] == '>';
    }
  }

  /** The run of white space at `i` ends at `j`. */
  lemma {:induction false} SpaceRunIs(s: string, i: nat, j: nat)
    requires i <= j <= |s| && (forall k :: i <= k < j ==> IsJsSpace(s[k])) && (j < |s| ==> !IsJsSpace(s[j]))
    ensures SpaceRun(s, i) == j
    decreases j - i
  {
    if i < j {
      SpaceRunIs(s, i + 1, j);
    }
  }

  /** The conditions on the attributes before `src="`: if there are any,
      they start after the white space, end with white space, and hold no
      `>` and no other `src="`. */
  predicate GroupParts(g: string)
  {
    '>' !in g && !Contains(g, SrcOpen) && (|g| > 0 ==> !IsJsSpace(g[0]) && IsJsSpace(g[|g| - 1]))
  }

  /** The conditions on the target and the attributes after it: they end at
      the first `"` and the first `>`, and hold no other `src="`. */
  predicate TargetParts(target: string, rest: string)
  {
    && |target| > 0 && '"' !in target && '>' !in target && '>' !in rest
    && !Contains(target + "\"" + rest, SrcOpen)
  }

  /** The conditions on a single tag `<img w g src="target"rest>`. */
  predicate TagParts(w: string, g: string, target: string, rest: string)
  {
    |w| > 0 && Spaces(w) && GroupParts(g) && TargetParts(target, rest)
  }

  /** Where the pieces of `<img w g src="target"rest>` stand in a text
      that starts with that tag. */
  predicate Layout(s: string, w: string, g: string, target: string, rest: string)
  {
    var p := 4 + |w| + |g|;
    var b := p + 5;
    var q := b + |target|;
    var e := q + 1 + |rest|;
    && e < |s| && s[0] == '<' && s[1] == 'i' && s[2] == 'm' && s[3] == 'g'
    && s[4..4 + |w|] == w && s[4 + |w|..p] == g && s[4..p] == w + g && s[p..b] == SrcOpen
    && s[b..q] == target && s[q] == '"' && s[q + 1..e] == rest && s[e] == '>'
    && s[b..e] == target + "\"" + rest
  }

  lemma {:induction false} TagLayout(w: string, g: string, target: string, rest: string, tail: string)
    ensures Layout(ImgText(w, g, target + "\"" + rest) + tail, w, g, target, rest)
  {
  }

  /** When a `"` follows the target, the target alone decides whether the
      text from `b` on is absolute. */
  lemma {:induction false} AbsoluteAt(s: string, b: nat, target: string)
    requires b + |target| < |s| && s[b..b + |target|] == target && s[b + |target|] == '"'
    ensures Absolute(s[b..]) <==> Absolute(target)
  {
    var q := b + |target|;
    assert s[b..] == target + ['"'] + s[q + 1..];
    AbsoluteTarget(target, '"', s[q + 1..]);
  }

  /** `SrcTail` at `b` when the first `"` from `b` is at `q` and the first
      `>` after it at `e`. */
  lemma {:induction false} SrcTailAt(s: string, b: nat, q: nat, e: nat)
    requires b < q < e < |s| && s[q] == '"' && s[e] == '>' && s[b] != '"'
    requires '"' !in s[b..q] && '>' !in s[q + 1..e]
    ensures SrcTail(s, b) == if Absolute(s[b..]) then None else Some((q, e))
  {
    FindCharAt(s, '"', b, q);
    FindCharAt(s, '>', q + 1, e);
  }

  /** What follows the `src="` of such a tag. */
  lemma {:induction false} SrcTailIn(s: string, w: string, g: string, target: string, rest: string)
    requires Layout(s, w, g, target, rest) && TargetParts(target, rest)
    ensures var b := 4 + |w| + |g| + 5;
            var q := b + |target|;
            SrcTail(s, b) == if Absolute(target) then None else Some((q, q + 1 + |rest|))
  {
    var b := 4 + |w| + |g| + 5;
    var q := b + |target|;
    var e := q + 1 + |rest|;
    AbsoluteAt(s, b, target);
    assert s[b] == s[b..q][0];
    SrcTailAt(s, b, q, e);
  }

  /** In such a tag only its own `src="` can start a match. */
  lemma {:induction false} OnlySrcIn(s: string, w: string, g: string, target: string, rest: string)
    requires Layout(s, w, g, target, rest) && TagParts(w, g, target, rest)
    ensures forall k: nat :: SrcAt(s, k) ==> k == 4 + |w| + |g|
  {
    var x := target + "\"" + rest;
    forall k: nat ensures SrcAt(s, k) ==> k == 4 + |w| + |g| {
      OnlySrc(s, w, g, x, k);
    }
  }

  /** The tag's own `src="` starts a match when its target is relative. */
  lemma {:induction false} SrcAtIn(s: string, w: string, g: string, target: string, rest: string)
    requires Layout(s, w, g, target, rest) && TagParts(w, g, target, rest) && !Absolute(target)
    ensures SrcAt(s, 4 + |w| + |g|)
  {
    SrcTailIn(s, w, g, target, rest);
    TagGap(w, g);
  }

  /** The white-space run after `<img` is exactly `w`. */
  lemma {:induction false} SpaceRunIn(s: string, w: string, g: string, target: string, rest: string)
    requires Layout(s, w, g, target, rest) && |w| > 0 && Spaces(w) && GroupParts(g)
    ensures SpaceRun(s, 4) == 4 + |w|
  {
    var p := 4 + |w| + |g|;
    if |g| > 0 {
      assert s[4 + |w|] == s[4 + |w|..p][0];
    } else {
      assert s[4 + |w|] == s[p..p + 5][0];
    }
    assert forall k :: 4 <= k < 4 + |w| ==> s[k] == s[4..4 + |w|][k - 4];
    SpaceRunIs(s, 4, 4 + |w|);
  }

  /** The text between `<img` and `src="` of such a tag is a gap. */
  lemma {:induction false} TagGap(w: string, g: string)
    requires |w| > 0 && Spaces(w) && GroupParts(g)
    ensures Gap(w + g)
  {
    var m := w + g;
    assert m[0] == w[0];
    if |g| > 0 {
      assert m[|m| - 1] == g[|g| - 1];
    } else {
      assert m[|m| - 1] == w[|w| - 1];
    }
    assert forall i :: 0 <= i < |w| ==> w[i] != '>';
  }

  /** A single candidate is the last one. */
  lemma {:induction false} LastSrcOnly(s: string, p: nat)
    requires SrcAt(s, p) && forall k: nat :: SrcAt(s, k) ==> k == p
    ensures LastSrc(s) == Some(p)
  {
    LastSrcIs(s);
  }

  /** The match of a text with those facts: the group runs from the end of
      the first white-space run to the only candidate. */
  lemma {:induction false} ImgTagOnly(s: string, w: string, g: string, target: string, rest: string, n: nat)
    requires MatchFacts(s, w, g, target, rest) && n == 4 + |w| + |g| + 5 + |target| + 1 + |rest| + 1
    ensures ImgTagAt(s) == Some(ImgTag(g, target, rest, n))
  {
    var p := 4 + |w| + |g|;
    var q := p + 5 + |target|;
    var e := q + 1 + |rest|;
    LastSrcOnly(s, p);
    ImgTagAtOf(s, p, q, e);
    var t := TagOf(s, p, q, e);
    var ws := SpaceRun(s, 4);
    if ws < p {
      assert t.group == s[ws..p] == g;
    } else {
      assert t.group == [] == g;
    }
    assert t.target == target && t.rest == rest && t.end == n;
  }

  /** One unfolding of the tag match, given the candidate and its tail. */
  lemma {:induction false} ImgTagAtOf(s: string, p: nat, q: nat, e: nat)
    requires |s| >= 4 && s[0] == '<' && s[1] == 'i' && s[2] == 'm' && s[3] == 'g'
    requires LastSrc(s) == Some(p) && SrcTail(s, p + 5) == Some((q, e))
    ensures 4 <= p + 5 <= q < e < |s|
    ensures ImgTagAt(s) == Some(TagOf(s, p, q, e))
  {
  }

  /** No match without a candidate. */
  lemma {:induction false} ImgTagNone(s: string)
    requires forall k: nat :: !SrcAt(s, k)
    ensures ImgTagAt(s).None?
  {
    LastSrcIs(s);
  }

  /** A text starting with an absolute tag has no match at the front. */
  lemma {:induction false} NoTagIn(s: string, w: string, g: string, target: string, rest: string)
    requires Layout(s, w, g, target, rest) && TagParts(w, g, target, rest) && Absolute(target)
    ensures ImgTagAt(s).None?
  {
    SrcTailIn(s, w, g, target, rest);
    OnlySrcIn(s, w, g, target, rest);
    assert forall k: nat :: !SrcAt(s, k);
    ImgTagNone(s);
  }

  /** What fixes the match of a text starting with a relative tag: its
      `src="` is the last candidate, the white space ends where `g` starts,
      and the target and the other attributes stand where the tag puts
      them. */
  ghost predicate MatchFacts(s: string, w: string, g: string, target: string, rest: string)
  {
    var p := 4 + |w| + |g|;
    var q := p + 5 + |target|;
    var e := q + 1 + |rest|;
    && |s| >= 4 && s[0] == '<' && s[1] == 'i' && s[2] == 'm' && s[3] == 'g'
    && SrcAt(s, p) && (forall k: nat :: SrcAt(s, k) ==> k == p)
    && SpaceRun(s, 4) == 4 + |w| && SrcTail(s, p + 5) == Some((q, e))
    && s[4 + |w|..p] == g && s[p + 5..q] == target && s[q + 1..e] == rest
  }

  lemma {:induction false} FactsIn(s: string, w: string, g: string, target: string, rest: string)
    requires Layout(s, w, g, target, rest) && TagParts(w, g, target, rest) && !Absolute(target)
    ensures MatchFacts(s, w, g, target, rest)
  {
    SrcTailIn(s, w, g, target, rest);
    OnlySrcIn(s, w, g, target, rest);
    SrcAtIn(s, w, g, target, rest);
    SpaceRunIn(s, w, g, target, rest);
  }

  /** A text starting with a relative tag matches that tag. */
  lemma {:induction false} RelativeIn(s: string, w: string, g: string, target: string, rest: string, n: nat)
    requires Layout(s, w, g, target, rest) && TagParts(w, g, target, rest) && !Absolute(target)
    requires n == 4 + |w| + |g| + 5 + |target| + 1 + |rest| + 1
    ensures ImgTagAt(s) == Some(ImgTag(g, target, rest, n))
  {
    FactsIn(s, w, g, target, rest);
    ImgTagOnly(s, w, g, target, rest, n);
  }

  lemma {:induction false} TagLength(w: string, g: string, x: string)
    ensures |ImgText(w, g, x)| == 4 + |w| + |g| + 5 + |x| + 1
  {
  }

  /** An absolute tag is not matched. */
  lemma {:induction false} ImgTagAbsolute(w: string, g: string, target: string, rest: string, tail: string)
    requires TagParts(w, g, target, rest) && Absolute(target)
    ensures ImgTagAt(ImgText(w, g, target + "\"" + rest) + tail).None?
  {
    TagLayout(w, g, target, rest, tail);
    NoTagIn(ImgText(w, g, target + "\"" + rest) + tail, w, g, target, rest);
  }

  /** A relative tag is matched whole, with its attributes before `src="`
      as the group. */
  lemma {:induction false} ImgTagRelative(w: string, g: string, target: string, rest: string, tail: string)
    requires TagParts(w, g, target, rest) && !Absolute(target)
    ensures var t := ImgText(w, g, target + "\"" + rest);
            ImgTagAt(t + tail) == Some(ImgTag(g, target, rest, |t|))
  {
    var t := ImgText(w, g, target + "\"" + rest);
    TagLayout(w, g, target, rest, tail);
    TagLength(w, g, target + "\"" + rest);
    RelativeIn(t + tail, w, g, target, rest, |t|);
  }

  /** A match at the front is replaced and the text after it rewritten. */
  lemma {:induction false} ImgStep(s: string, t: ImgTag, repo: string)
    requires ImgTagAt(s) == Some(t)
    ensures RewriteImg(s, repo) == Replacement(t, repo) + RewriteImg(s[t.end..], repo)
  {
  }

  /** Without a match at the front, one character is copied. */
  lemma {:induction false} ImgSkip(s: string, repo: string)
    requires |s| > 0 && ImgTagAt(s).None?
    ensures RewriteImg(s, repo) == [s[0]] + RewriteImg(s[1..], repo)
  {
  }

  /** A relative tag gets the prefix and keeps its other attributes; the
      white space after `<img` becomes one space. */
  lemma {:induction false} ImgRelative(w: string, g: string, target: string, rest: string, tail: string, repo: string)
    requires TagParts(w, g, target, rest) && !Absolute(target)
    ensures RewriteImg(ImgText(w, g, target + "\"" + rest) + tail, repo)
            == ImgText(" ", g, RawPrefix(repo) + target + "\"" + rest) + RewriteImg(tail, repo)
  {
    var t := ImgText(w, g, target + "\"" + rest);
    ImgTagRelative(w, g, target, rest, tail);
    ImgStep(t + tail, ImgTag(g, target, rest, |t|), repo);
    assert (t + tail)[|t|..] == tail;
    ReplacementText(g, target, rest, |t|, repo);
  }

  /** The replacement is a tag with one space after `<img`. */
  lemma {:induction false} ReplacementText(g: string, target: string, rest: string, n: nat, repo: string)
    ensures Replacement(ImgTag(g, target, rest, n), repo) == ImgText(" ", g, RawPrefix(repo) + target + "\"" + rest)
  {
  }

  /** A `<` that starts no tag match is copied, together with the
      `<`-free text after it. */
  lemma {:induction false} ImgCopyLt(s: string, body: string, tail: string, repo: string)
    requires |s| > 0 && s[0] == '<' && s[1..] == body + tail
    requires '<' !in body && ImgTagAt(s).None?
    ensures RewriteImg(s, repo) == "<" + body + RewriteImg(tail, repo)
  {
    ImgSkip(s, repo);
    ImgPrefix(body, tail, repo);
    assert [s[0]] + (body + RewriteImg(tail, repo)) == "<" + body + RewriteImg(tail, repo);
  }

  /** The tag text after its `<`. */
  function TagBody(w: string, g: string, x: string): string
  {
    "img" + w + g + SrcOpen + x + ">"
  }

  lemma {:induction false} TagSplit(w: string, g: string, x: string, tail: string)
    ensures var s := ImgText(w, g, x) + tail;
            |s| > 0 && s[0] == '<' && s[1..] == TagBody(w, g, x) + tail
            && ImgText(w, g, x) == "<" + TagBody(w, g, x)
  {
  }

  /** An absolute tag is copied. */
  lemma {:induction false} ImgAbsolute(w: string, g: string, target: string, rest: string, tail: string, repo: string)
    requires TagParts(w, g, target, rest) && Absolute(target) && '<' !in g && '<' !in target && '<' !in rest
    ensures RewriteImg(ImgText(w, g, target + "\"" + rest) + tail, repo)
            == ImgText(w, g, target + "\"" + rest) + RewriteImg(tail, repo)
  {
    var x := target + "\"" + rest;
    ImgTagAbsolute(w, g, target, rest, tail);
    TagSplit(w, g, x, tail);
    BodyNoLt(w, g, target, rest);
    ImgCopyLt(ImgText(w, g, x) + tail, TagBody(w, g, x), tail, repo);
  }

  lemma {:induction false} BodyNoLt(w: string, g: string, target: string, rest: string)
    requires Spaces(w) && '<' !in g && '<' !in target && '<' !in rest
    ensures '<' !in TagBody(w, g, target + "\"" + rest)
  {
    assert '<' !in w by { assert forall i :: 0 <= i < |w| ==> w[i] != '<'; }
  }

  /** The fixed parts of the prefix hold no markup character, so the
      prefix holds one only when the repository name does. */
  lemma {:induction false} PrefixNoLt(repo: string)
    requires '<' !in repo
    ensures '<' !in RawPrefix(repo)
  {
    assert '<' !in "https://raw.githubusercontent.com/" && '<' !in "/main/";
  }

  lemma {:induction false} PrefixNoQuote(repo: string)
    requires '"' !in repo
    ensures '"' !in RawPrefix(repo)
  {
    assert '"' !in "https://raw.githubusercontent.com/" && '"' !in "/main/";
  }

  lemma {:induction false} PrefixNoGt(repo: string)
    requires '>' !in repo
    ensures '>' !in RawPrefix(repo)
  {
    assert '>' !in "https://raw.githubusercontent.com/" && '>' !in "/main/";
  }

  /** Putting a `"`-free text ending in `/` in front creates no `src="`. */
  lemma {:induction false} NoSrcAfterPrefix(p: string, y: string)
    requires |p| > 0 && p[|p| - 1] == '/' && '"' !in p && !Contains(y, SrcOpen)
    ensures !Contains(p + y, SrcOpen)
  {
    var s := p + y;
    forall j | 0 <= j <= |s| ensures !OccursAt(s, SrcOpen, j) {
      if j + 5 <= |p| {
        assert s[j + 4] == p[j + 4];
      } else if |p| <= j {
        if j + 5 <= |s| {
          assert s[j..j + 5] == y[j - |p|..j - |p| + 5];
        }
        assert !OccursAt(y, SrcOpen, j - |p|);
      } else if j + 5 <= |s| {
        assert s[j..j + 5][|p| - 1 - j] == '/';
      }
    }
  }

  /** A rewritten tag is a well-formed tag with an absolute target. */
  lemma {:induction false} RewrittenTagParts(g: string, target: string, rest: string, repo: string)
    requires GroupParts(g) && TargetParts(target, rest)
    requires '<' !in target && '<' !in repo && '"' !in repo && '>' !in repo
    ensures TagParts(" ", g, RawPrefix(repo) + target, rest) && Absolute(RawPrefix(repo) + target)
    ensures '<' !in RawPrefix(repo) + target
    ensures RawPrefix(repo) + target + "\"" + rest == RawPrefix(repo) + (target + "\"" + rest)
  {
    var p := RawPrefix(repo);
    PrefixNoLt(repo);
    PrefixNoQuote(repo);
    PrefixNoGt(repo);
    PrefixSlash(repo);
    PrefixAbsolute(repo, target);
    NoSrcAfterPrefix(p, target + "\"" + rest);
    assert p + target + "\"" + rest == p + (target + "\"" + rest);
    assert Spaces(" ");
  }

  /** Rewriting a single tag twice changes nothing more than rewriting it
      once. */
  lemma {:induction false} ImgIdempotent(w: string, g: string, target: string, rest: string, tail: string, repo: string)
    requires TagParts(w, g, target, rest)
    requires '<' !in g && '<' !in target && '<' !in rest && '<' !in tail
    requires '<' !in repo && '"' !in repo && '>' !in repo
    ensures var once := RewriteImg(ImgText(w, g, target + "\"" + rest) + tail, repo);
            RewriteImg(once, repo) == once
  {
    ImgPrefix(tail, "", repo);
    assert tail + "" == tail;
    if Absolute(target) {
      ImgAbsolute(w, g, target, rest, tail, repo);
    } else {
      ImgRelative(w, g, target, rest, tail, repo);
      var p := RawPrefix(repo);
      RewrittenTagParts(g, target, rest, repo);
      ImgAbsolute(" ", g, p + target, rest, tail, repo);
    }
  }

  /** In a README, a relative Markdown image gets the prefix once: the
      second rewrite finds no tag in it. */
  lemma {:induction false} ReadmeMarkdownImage(alt: string, target: string, tail: string, repo: string)
    requires ']' !in alt && ')' !in target && |target| > 0 && !Absolute(target)
    requires '<' !in alt && '<' !in target && '<' !in repo
    ensures RewriteReadme(MdImageText(alt, target) + tail, repo)
            == MdImageText(alt, RawPrefix(repo) + target) + RewriteReadme(tail, repo)
  {
    MdRelative(alt, target, tail, repo);
    PrefixNoLt(repo);
    ImgPrefix(MdImageText(alt, RawPrefix(repo) + target), RewriteMd(tail, repo), repo);
  }

  /** In a README, a relative `<img>` tag is left alone by the first
      rewrite and gets the prefix from the second. */
  lemma {:induction false} ReadmeHtmlImage(w: string, g: string, target: string, rest: string, tail: string, repo: string)
    requires TagParts(w, g, target, rest) && !Absolute(target)
    requires '!' !in w && '!' !in g && '!' !in target && '!' !in rest
    ensures RewriteReadme(ImgText(w, g, target + "\"" + rest) + tail, repo)
            == ImgText(" ", g, RawPrefix(repo) + target + "\"" + rest) + RewriteReadme(tail, repo)
  {
    var t := ImgText(w, g, target + "\"" + rest);
    assert '!' !in t;
    MdPrefix(t, tail, repo);
    ImgRelative(w, g, target, rest, RewriteMd(tail, repo), repo);
  }
}
