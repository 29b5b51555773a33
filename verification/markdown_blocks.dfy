/** The two block steps of `markdownToHtml` (js/markdown-parser.js) that
    look beyond one line: wrapping list items in `<ul>` and splitting the
    text into paragraphs. */
module MarkdownBlocks {
  import opened Text

  /** Index of the last occurrence of `p` in `s` at or after `from`. */
  function FindLast(s: string, p: string, from: nat): (k: Option<nat>)
    requires |p| > 0
    ensures k.Some? ==> from <= k.value && OccursAt(s, p, k.value)
                        && forall j :: k.value < j ==> !OccursAt(s, p, j)
    ensures k.None? ==> forall j :: from <= j ==> !OccursAt(s, p, j)
    decreases |s| - from
  {
    if from + |p| > |s| then None
    else match FindLast(s, p, from + 1)
      case Some(k) => Some(k)
      case None => if OccursAt(s, p, from) then Some(from) else None
  }

  /** The match of `/(<li>.*<\/li>)/s` (no `g`): it starts at the first
      `<li>` and, `.*` being greedy and `s` letting it cross lines, ends with
      the last `</li>` that does not overlap that `<li>`. There is no match
      exactly when no `</li>` starts four or more characters after an
      `<li>`. */
  function ListSpan(s: string): (m: Option<(nat, nat)>)
    ensures m.Some? ==>
              var (i, j) := m.value;
              OccursAt(s, "<li>", i) && (forall k :: 0 <= k < i ==> !OccursAt(s, "<li>", k))
              && i + 4 <= j && OccursAt(s, "</li>", j)
              && (forall k :: j < k ==> !OccursAt(s, "</li>", k))
    ensures m.None? ==>
              forall i, j :: OccursAt(s, "<li>", i) && OccursAt(s, "</li>", j) ==> j < i + 4
  {
    match FindFrom(s, "<li>", 0)
    case None => None
    case Some(i) =>
      match FindLast(s, "</li>", i + 4)
      case None => None
      case Some(j) => Some((i, j))
  }

  /** Wraps the matched run of items in one `<ul>` element. */
  function WrapList(s: string): string
  {
    match ListSpan(s)
    case None => s
    case Some((i, j)) => Wrapped(s, i, j)
  }

  /** The text with `<ul>` inserted at `i` and `</ul>` after the `</li>` at `j`. */
  function Wrapped(s: string, i: nat, j: nat): string
    requires i <= j + 5 <= |s|
  {
    s[..i] + "<ul>" + s[i..j + 5] + "</ul>" + s[j + 5..]
  }

  /** Only the first run is wrapped: the output holds one `<ul>` more than
      the input when there is a match, and taking it and its `</ul>` out
      again gives back the input. */
  lemma {:induction false} WrapListErase(s: string)
    requires ListSpan(s).Some?
    ensures var (i, j) := ListSpan(s).value;
            var r := WrapList(s);
            r[..i] + r[i + 4..j + 9] + r[j + 14..] == s
            && r[i..i + 4] == "<ul>" && r[j + 9..j + 14] == "</ul>"
  {
    var (i, j) := ListSpan(s).value;
    assert WrapList(s) == Wrapped(s, i, j);
    WrappedErase(s, i, j);
  }

  lemma {:induction false} WrappedErase(s: string, i: nat, j: nat)
    requires i <= j + 5 <= |s|
    ensures var r := Wrapped(s, i, j);
            r[..i] + r[i + 4..j + 9] + r[j + 14..] == s
            && r[i..i + 4] == "<ul>" && r[j + 9..j + 14] == "</ul>"
  {
    var r := Wrapped(s, i, j);
    var a, b, c := s[..i], s[i..j + 5], s[j + 5..];
    assert r[..i] == a;
    assert r[i + 4..j + 9] == b;
    assert r[j + 14..] == c;
    assert a + b + c == s;
  }

  // ---------------------------------------------------------------------
  // Paragraphs: split on blank-line separators, classify each chunk, join
  // with single newlines.

  /** `/^<(h[1-6]|ul|ol|pre|blockquote|hr)/`, anchored at the chunk start. */
  predicate StartsBlock(c: string)
  {
    || StartsWith(c, "<ul") || StartsWith(c, "<ol") || StartsWith(c, "<pre")
    || StartsWith(c, "<blockquote") || StartsWith(c, "<hr")
    || (|c| >= 3 && c[0] == '<' && c[1] == 'h' && '1' <= c[2] <= '6')
  }

  function Para(c: string): string
  {
    if StartsBlock(c) then c
    else if Trim(c) != "" then "<p>" + Trim(c) + "</p>"
    else ""
  }

  function Paragraphs(s: string): string
  {
    Join(MapSeq(Para, Split(s, "\n\n")), "\n")
  }

  /** A chunk is dropped exactly when it is not a rendered block and holds
      nothing but white space; otherwise it is kept as it is (a block) or
      becomes a paragraph whose text has no white space at either end. */
  lemma {:induction false} ParaCases(c: string)
    ensures Para(c) == "" <==> !StartsBlock(c) && forall k :: 0 <= k < |c| ==> IsJsSpace(c[k])
    ensures !StartsBlock(c) && Para(c) != "" ==>
              exists t :: Para(c) == "<p>" + t + "</p>" && t != "" && NoSpaceEnds(t)
  {
    var t := Trim(c);
    if !StartsBlock(c) && t == "" {
      forall k | 0 <= k < |c| ensures IsJsSpace(c[k]) {
        if Lead(c) <= k { }
      }
    }
    if StartsBlock(c) {
      assert c != "";
    }
  }

  /** Text without a blank-line separator is one chunk. */
  lemma {:induction false} ParagraphsOneChunk(s: string)
    requires !Contains(s, "\n\n")
    ensures Paragraphs(s) == Para(s)
  {
    assert FindFrom(s, "\n\n", 0).None?;
    assert Split(s, "\n\n") == [s];
  }
}
