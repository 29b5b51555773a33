/** The two rewrites `generateBlogPostPages` (build/build.js) applies to the
    HTML of a post: GitHub `@name` mentions become an avatar link and a
    profile link, and every external link opens in a new tab unless it
    already names a target or is a mention link. */
module PostLinks {
  import opened Text

  /** The attributes both rewrites add to a link. */
  const NewTab: string := " target=\"_blank\" rel=\"noopener noreferrer\""

  // ---------------------------------------------------------------------
  // Mentions: /@([a-zA-Z0-9_-]+)/g

  predicate IsUserChar(c: char)
  {
    ('a' <= c <= 'z') || ('A' <= c <= 'Z') || ('0' <= c <= '9') || c == '_' || c == '-'
  }

  predicate IsUserName(u: string)
  {
    |u| > 0 && forall i :: 0 <= i < |u| ==> IsUserChar(u[i])
  }

  /** End of the maximal run of user-name characters from `from`. */
  function UserRunEnd(s: string, from: nat): (k: nat)
    requires from <= |s|
    ensures from <= k <= |s|
    ensures forall j :: from <= j < k ==> IsUserChar(s[j])
    ensures k < |s| ==> !IsUserChar(s[k])
    decreases |s| - from
  {
    if from < |s| && IsUserChar(s[from]) then UserRunEnd(s, from + 1) else from
  }

  function ProfileUrl(u: string): string
  {
    "https://github.com/" + u
  }

  /** The avatar link: a 16-pixel profile picture linking to the profile. */
  function AvatarLink(u: string): string
  {
    AvatarTag(u) + AvatarImg(u) + "</a>"
  }

  function AvatarImg(u: string): string
  {
    "<" + ImgAttrs(u)
  }

  /** The picture tag after its `<`. */
  function ImgAttrs(u: string): string
  {
    "img src=\"" + ProfileUrl(u) + ".png\" width=\"16\" height=\"16\" alt=\"@" + u
    + "\" class=\"user-avatar\" loading=\"lazy\">"
  }

  /** The profile link showing `@name`. */
  function NameLink(u: string): string
  {
    "<a href=\"" + ProfileUrl(u) + "\"" + NewTab + " class=\"user-mention\">@" + u + "</a>"
  }

  function MentionHtml(u: string): string
  {
    AvatarLink(u) + NameLink(u)
  }

  /** Each `@` followed by a user-name character starts a mention that takes
      the whole run of user-name characters. */
  function Mentions(s: string): string
    decreases |s|
  {
    if |s| == 0 then ""
    else if s[0] == '@' && |s| > 1 && IsUserChar(s[1]) then
      var e := UserRunEnd(s, 1);
      MentionHtml(s[1..e]) + Mentions(s[e..])
    else [s[0]] + Mentions(s[1..])
  }

  /** Text before the first `@` is copied. */
  lemma {:induction false} MentionsPrefix(a: string, b: string)
    requires '@' !in a
    ensures Mentions(a + b) == a + Mentions(b)
    decreases |a|
  {
    if |a| > 0 {
      assert (a + b)[0] == a[0];
      assert (a + b)[1..] == a[1..] + b;
      MentionsPrefix(a[1..], b);
    } else {
      assert a + b == b;
    }
  }

  /** A mention followed by a non-name character becomes the two links. */
  lemma {:induction false} MentionOf(u: string, rest: string)
    requires IsUserName(u)
    requires rest == [] || !IsUserChar(rest[0])
    ensures Mentions("@" + u + rest) == MentionHtml(u) + Mentions(rest)
  {
    var s := "@" + u + rest;
    assert s[1] == u[0];
    UserRunEndOver(s, 1, |u|);
    MentionStep(s);
    assert s[1..1 + |u|] == u && s[1 + |u|..] == rest;
  }

  /** One step of the mention pass at an `@` that starts a name. */
  lemma {:induction false} MentionStep(s: string)
    requires |s| > 1 && s[0] == '@' && IsUserChar(s[1])
    ensures var e := UserRunEnd(s, 1);
            Mentions(s) == MentionHtml(s[1..e]) + Mentions(s[e..])
  {
  }

  lemma {:induction false} UserRunEndOver(s: string, from: nat, n: nat)
    requires from + n <= |s|
    requires forall j :: from <= j < from + n ==> IsUserChar(s[j])
    requires from + n == |s| || !IsUserChar(s[from + n])
    ensures UserRunEnd(s, from) == from + n
    decreases n
  {
    if n > 0 {
      UserRunEndOver(s, from + 1, n - 1);
    }
  }

  /** An e-mail address is not told apart from a mention: its domain's
      first label is taken for a user name. */
  lemma {:induction false} MentionInMailAddress(local: string, domain: string, top: string)
    requires '@' !in local && IsUserName(domain) && '@' !in top
    ensures Mentions(local + "@" + domain + "." + top) == local + MentionHtml(domain) + "." + top
  {
    var rest := "." + top;
    var x := "@" + domain + rest;
    MailShape(local, domain, top);
    MentionsPrefix(local, x);
    MentionOf(domain, rest);
    MentionsPrefix(".", top);
    MentionsPrefix(top, "");
    assert top + "" == top;
    Regroup3(local, MentionHtml(domain), ".", top);
  }

  lemma {:induction false} MailShape(local: string, domain: string, top: string)
    ensures local + "@" + domain + "." + top == local + ("@" + domain + ("." + top))
  {
  }

  lemma {:induction false} Regroup3(a: string, b: string, c: string, d: string)
    ensures a + b + c + d == a + (b + (c + d))
  {
  }

  // ---------------------------------------------------------------------
  // External links: /<a href="(https?:\/\/[^"]+)"([^>]*)>/gi

  /** A matched start tag: the URL, the attributes after its closing quote,
      and the index just past the tag's `>`. */
  datatype AnchorTag = AnchorTag(url: string, rest: string, end: nat)

  /** After `<a href="` (any letter case), the index just past `https?://`. */
  function SchemeEnd(s: string): Option<nat>
    requires |s| >= 9
  {
    if |s| >= 13 && Lower(s[9..13]) == "http" then
      var v := if |s| > 13 && LowerChar(s[13]) == 's' then 14 else 13;
      if v + 3 <= |s| && s[v..v + 3] == "://" then Some(v + 3) else None
    else None
  }

  /** The match at the start of `s`: the URL runs to the first `"` and must
      have a character after the scheme; the attributes run to the first
      following `>`. */
  function AnchorAt(s: string): (m: Option<AnchorTag>)
    ensures m.Some? ==> 9 < m.value.end <= |s| && s[0] == '<'
  {
    if |s| < 9 || Lower(s[..9]) != "<a href=\"" then None
    else
      assert LowerChar(s[0]) == '<';
      match SchemeEnd(s)
      case None => None
      case Some(h) =>
        if h < |s| && s[h] != '"' then
          var q := FindChar(s, '"', h);
          if q < |s| then
            var g := FindChar(s, '>', q + 1);
            if g < |s| then Some(AnchorTag(s[9..q], s[q + 1..g], g + 1)) else None
          else None
        else None
  }

  /** A tag that already names a target, and mention links, stay as they
      are; every other match gains the new-tab attributes. */
  function Retarget(tag: string, m: AnchorTag): string
  {
    if Contains(m.rest, "target=") || Contains(m.rest, "user-mention") then tag
    else "<a href=\"" + m.url + "\"" + NewTab + m.rest + ">"
  }

  function MarkExternal(s: string): string
    decreases |s|
  {
    if |s| == 0 then ""
    else
      match AnchorAt(s)
      case Some(m) => Retarget(s[..m.end], m) + MarkExternal(s[m.end..])
      case None => [s[0]] + MarkExternal(s[1..])
  }

  /** Text before the first `<` is copied. */
  lemma {:induction false} ExternalPrefix(a: string, b: string)
    requires '<' !in a
    ensures MarkExternal(a + b) == a + MarkExternal(b)
    decreases |a|
  {
    if |a| > 0 {
      assert (a + b)[0] == a[0];
      assert (a + b)[1..] == a[1..] + b;
      ExternalPrefix(a[1..], b);
    } else {
      assert a + b == b;
    }
  }

  /** A `<` that does not open `<a` is copied. */
  lemma {:induction false} ExternalNotAnchor(s: string)
    requires |s| > 1 && s[0] == '<' && s[1] != 'a' && s[1] != 'A'
    ensures MarkExternal(s) == "<" + MarkExternal(s[1..])
  {
    assert AnchorAt(s).None? by {
      if |s| >= 9 {
        assert Lower(s[..9])[1] == LowerChar(s[1]);
      }
    }
  }

  /** An external URL as the pattern accepts it, written in lower case. */
  predicate ExternalUrl(url: string)
  {
    '"' !in url
    && ((|url| > 7 && url[..7] == "http://") || (|url| > 8 && url[..8] == "https://"))
  }

  /** The tag written with lower-case `<a href="`. */
  function Tag(url: string, rest: string): string
  {
    "<a href=\"" + url + "\"" + rest + ">"
  }

  lemma {:induction false} AnchorOfTag(url: string, rest: string, tail: string)
    requires ExternalUrl(url) && '>' !in rest
    ensures AnchorAt(Tag(url, rest) + tail) == Some(AnchorTag(url, rest, |Tag(url, rest)|))
  {
    var s := Tag(url, rest) + tail;
    var q := 9 + |url|;
    var g := q + 1 + |rest|;
    assert s[..9] == "<a href=\"";
    assert s[9..q] == url && s[q] == '"';
    assert s[q + 1..g] == rest && s[g] == '>';
    AnchorIn(s, url, rest, |Tag(url, rest)|);
  }

  /** The match where the text has `<a href="`, an external URL, `"`,
      attributes without `>` and `>`. */
  lemma {:induction false} AnchorIn(s: string, url: string, rest: string, n: nat)
    requires ExternalUrl(url) && '>' !in rest
    requires n == 9 + |url| + 1 + |rest| + 1 <= |s|
    requires s[..9] == "<a href=\"" && s[9..9 + |url|] == url && s[9 + |url|] == '"'
    requires s[10 + |url|..n - 1] == rest && s[n - 1] == '>'
    ensures AnchorAt(s) == Some(AnchorTag(url, rest, n))
  {
    var q := 9 + |url|;
    var g := n - 1;
    assert Lower(s[..9]) == "<a href=\"";
    SchemeOf(s, url);
    var h := SchemeEnd(s).value;
    assert s[h] == url[h - 9];
    FindCharAt(s, '"', h, q);
    FindCharAt(s, '>', q + 1, g);
  }

  lemma {:induction false} SchemeOf(s: string, url: string)
    requires |s| > 9 + |url| && s[9..9 + |url|] == url && ExternalUrl(url)
    ensures SchemeEnd(s) == Some(if url[..7] == "http://" then 16 else 17)
    ensures 9 < SchemeEnd(s).value < 9 + |url|
  {
    assert forall k :: 0 <= k < |url| ==> s[9 + k] == url[k];
    assert url[..4] == "http" by {
      if url[..7] != "http://" {
        assert url[..8] == "https://";
      }
    }
    assert s[9..13] == "http";
    assert Lower(s[9..13]) == "http";
    if url[..7] == "http://" {
      assert url[4] == ':' && url[5] == '/' && url[6] == '/';
      assert s[13..16] == "://";
    } else {
      assert url[..8] == "https://";
      assert url[4] == 's' && url[5] == ':' && url[6] == '/' && url[7] == '/';
      assert LowerChar(s[13]) == 's';
      assert s[14..17] == "://";
    }
  }

  /** A tag without a target or mention class gains the new-tab attributes;
      the rest of the text is rewritten on its own. */
  lemma {:induction false} ExternalRetargets(url: string, rest: string, tail: string)
    requires ExternalUrl(url) && '>' !in rest
    requires !Contains(rest, "target=") && !Contains(rest, "user-mention")
    ensures MarkExternal(Tag(url, rest) + tail) == Tag(url, NewTab + rest) + MarkExternal(tail)
  {
    var t := Tag(url, rest);
    AnchorOfTag(url, rest, tail);
    assert (t + tail)[..|t|] == t && (t + tail)[|t|..] == tail;
    assert "<a href=\"" + url + "\"" + NewTab + rest + ">" == Tag(url, NewTab + rest);
  }

  /** A tag that names a target, or a mention link, is kept. */
  lemma {:induction false} ExternalKeeps(url: string, rest: string, tail: string)
    requires ExternalUrl(url) && '>' !in rest
    requires Contains(rest, "target=") || Contains(rest, "user-mention")
    ensures MarkExternal(Tag(url, rest) + tail) == Tag(url, rest) + MarkExternal(tail)
  {
    var t := Tag(url, rest);
    AnchorOfTag(url, rest, tail);
    assert (t + tail)[..|t|] == t && (t + tail)[|t|..] == tail;
  }

  lemma {:induction false} NewTabNamesTarget(rest: string)
    ensures Contains(NewTab + rest, "target=")
    ensures '>' !in rest ==> '>' !in NewTab + rest
  {
    var x := NewTab + rest;
    NewTabTarget();
    assert x[1..8] == NewTab[1..8];
    assert OccursAt(x, "target=", 1);
    NewTabNoGt();
  }

  lemma {:induction false} NewTabTarget()
    ensures |NewTab| >= 8 && NewTab[1..8] == "target="
  {
    var x := NewTab;
    assert x[1] == 't' && x[2] == 'a' && x[3] == 'r' && x[4] == 'g' && x[5] == 'e' && x[6] == 't' && x[7] == '=';
  }

  lemma {:induction false} NewTabNoGt()
    ensures '>' !in NewTab
  {
  }

  // ---------------------------------------------------------------------
  // Idempotence of the new-tab rewrite

  /** `s` opens with `<a href="` in any letter case and an `http://` or
      `https://` scheme ending at `h`. */
  predicate Opens(s: string, h: nat)
  {
    |s| >= 9 && Lower(s[..9]) == "<a href=\"" && SchemeEnd(s) == Some(h)
  }

  /** The pieces of a match: the URL from 9 to the quote at `q`, and the
      attributes from `q + 1` to the `>` at `g`. */
  predicate Matched(s: string, h: nat, q: nat, g: nat)
  {
    Opens(s, h) && h < q < g < |s|
    && s[q] == '"' && '"' !in s[h..q]
    && s[g] == '>' && '>' !in s[q + 1..g]
  }

  /** The opening of a match holds no `<` after its first character. */
  lemma {:induction false} OpensBounds(s: string, h: nat)
    requires Opens(s, h)
    ensures 16 <= h <= 17 && h <= |s| && s[0] == '<'
    ensures '<' !in s[1..h]
  {
    var pat := "<a href=\"";
    assert LowerChar(s[0]) == pat[0];
    forall i | 1 <= i < h
      ensures s[i] != '<'
    {
      if i < 9 {
        assert LowerChar(s[i]) == pat[i];
      } else if i < 13 {
        assert LowerChar(s[i]) == Lower(s[9..13])[i - 9];
      }
    }
  }

  /** The opening is read from the first `h` characters only, the first
      nine of them up to letter case. */
  lemma {:induction false} OpensLocal(s: string, t: string, h: nat)
    requires Opens(s, h) && h <= |s| && 9 <= h <= |t|
    requires Lower(t[..9]) == "<a href=\"" && t[9..h] == s[9..h]
    ensures Opens(t, h)
  {
    OpensBounds(s, h);
    assert forall i :: 9 <= i < h ==> t[i] == s[i];
    assert t[9..13] == s[9..13];
    if h == 16 {
      assert t[13..16] == s[13..16];
    } else {
      assert t[14..17] == s[14..17];
    }
  }

  /** Reading a match off its pieces. */
  lemma {:induction false} AnchorFrom(t: string, h: nat, q: nat, g: nat)
    requires Matched(t, h, q, g)
    ensures AnchorAt(t) == Some(AnchorTag(t[9..q], t[q + 1..g], g + 1))
  {
    FindCharAt(t, '"', h, q);
    FindCharAt(t, '>', q + 1, g);
  }

  /** The pieces of a match read off the match. */
  lemma {:induction false} AnchorParts(s: string)
    requires AnchorAt(s).Some?
    ensures |s| >= 9 && SchemeEnd(s).Some?
    ensures var m := AnchorAt(s).value;
            var q := 9 + |m.url|;
            Matched(s, SchemeEnd(s).value, q, m.end - 1)
            && m.url == s[9..q] && m.rest == s[q + 1..m.end - 1]
  {
    var h := SchemeEnd(s).value;
    var q := FindChar(s, '"', h);
    FindCharSkips(s, '"', h);
    FindCharSkips(s, '>', q + 1);
  }

  /** A match depends only on the text up to its end. */
  lemma {:induction false} AnchorLocal(s: string, t: string)
    requires AnchorAt(s).Some? && AnchorAt(s).value.end <= |t|
    requires t[..AnchorAt(s).value.end] == s[..AnchorAt(s).value.end]
    ensures AnchorAt(t) == AnchorAt(s)
  {
    var m := AnchorAt(s).value;
    AnchorParts(s);
    var h, q, g := SchemeEnd(s).value, 9 + |m.url|, m.end - 1;
    assert forall i :: 0 <= i < m.end ==> t[i] == s[i];
    assert t[..9] == s[..9] && t[9..h] == s[9..h];
    OpensLocal(s, t, h);
    assert t[h..q] == s[h..q] && t[q + 1..g] == s[q + 1..g];
    AnchorFrom(t, h, q, g);
    assert t[9..q] == s[9..q] && t[q + 1..g] == s[q + 1..g];
  }

  lemma {:induction false} LowerPattern()
    ensures Lower("<a href=\"") == "<a href=\""
  {
  }

  /** One step of the scan at a match. */
  lemma {:induction false} MarkExternalAt(t: string, m: AnchorTag)
    requires AnchorAt(t) == Some(m)
    ensures MarkExternal(t) == Retarget(t[..m.end], m) + MarkExternal(t[m.end..])
  {
  }

  /** A tag the rewrite gave the new-tab attributes matches again, with
      those attributes in front of the old ones. */
  lemma {:induction false} NewTagMatch(s: string, m: AnchorTag, t: string, g: nat)
    requires AnchorAt(s) == Some(m) && g == 10 + |m.url| + |NewTab + m.rest| < |t|
    requires t[..9] == "<a href=\"" && t[9..9 + |m.url|] == m.url && t[9 + |m.url|] == '"'
    requires t[10 + |m.url|..g] == NewTab + m.rest && t[g] == '>'
    ensures AnchorAt(t) == Some(AnchorTag(m.url, NewTab + m.rest, g + 1))
  {
    AnchorParts(s);
    var h, q := SchemeEnd(s).value, 9 + |m.url|;
    LowerPattern();
    OpensBounds(s, h);
    assert forall i :: 9 <= i < q ==> t[i] == s[i];
    assert t[9..h] == s[9..h];
    OpensLocal(s, t, h);
    assert t[h..q] == s[h..q];
    NewTabNamesTarget(m.rest);
    AnchorFrom(t, h, q, g);
  }

  /** Where the parts of a tag lie in a text it begins. */
  lemma {:induction false} TagLayout(url: string, rest: string, tail: string)
    ensures var t := Tag(url, rest) + tail;
            var g := 10 + |url| + |rest|;
            |Tag(url, rest)| == g + 1 && g < |t|
            && t[..9] == "<a href=\"" && t[9..9 + |url|] == url && t[9 + |url|] == '"'
            && t[10 + |url|..g] == rest && t[g] == '>'
            && t[..g + 1] == Tag(url, rest) && t[g + 1..] == tail
  {
    var t := Tag(url, rest) + tail;
    var g := 10 + |url| + |rest|;
    assert Tag(url, rest) == "<a href=\"" + url + "\"" + rest + ">";
    assert t[..g + 1] == Tag(url, rest);
    assert t[..9] == Tag(url, rest)[..9];
  }

  /** A tag that gained the new-tab attributes is kept by a second pass. */
  lemma {:induction false} RetargetNew(s: string, tail: string)
    requires AnchorAt(s).Some?
    requires !Contains(AnchorAt(s).value.rest, "target=")
    requires !Contains(AnchorAt(s).value.rest, "user-mention")
    ensures var m := AnchorAt(s).value;
            var piece := Tag(m.url, NewTab + m.rest);
            MarkExternal(piece + tail) == piece + MarkExternal(tail)
  {
    var m := AnchorAt(s).value;
    var rest := NewTab + m.rest;
    var t := Tag(m.url, rest) + tail;
    var g := 10 + |m.url| + |rest|;
    TagLayout(m.url, rest, tail);
    NewTagMatch(s, m, t, g);
    MarkExternalAt(t, AnchorTag(m.url, rest, g + 1));
    NewTabNamesTarget(m.rest);
  }

  /** What the rewrite makes of a match is a match it keeps. */
  lemma {:induction false} RetargetStable(s: string, tail: string)
    requires AnchorAt(s).Some?
    ensures var m := AnchorAt(s).value;
            var piece := Retarget(s[..m.end], m);
            MarkExternal(piece + tail) == piece + MarkExternal(tail)
  {
    var m := AnchorAt(s).value;
    if Contains(m.rest, "target=") || Contains(m.rest, "user-mention") {
      var t := s[..m.end] + tail;
      assert t[..m.end] == s[..m.end] && t[m.end..] == tail;
      AnchorLocal(s, t);
      MarkExternalAt(t, m);
    } else {
      assert Retarget(s[..m.end], m) == Tag(m.url, NewTab + m.rest);
      RetargetNew(s, tail);
    }
  }

  /** No `"` at or after `from` is followed by a `>`. */
  predicate NoPairFrom(s: string, from: nat)
  {
    forall i, j :: from <= i < j < |s| ==> !(s[i] == '"' && s[j] == '>')
  }

  /** Without a `"` followed by a `>` nothing matches, so the text is
      copied. */
  lemma {:induction false} NoPairCopies(s: string, from: nat)
    requires from <= |s| && NoPairFrom(s, from)
    ensures MarkExternal(s[from..]) == s[from..]
    decreases |s| - from
  {
    var y := s[from..];
    if |y| > 0 {
      if AnchorAt(y).Some? {
        AnchorParts(y);
      }
      assert y[1..] == s[from + 1..];
      NoPairCopies(s, from + 1);
    }
  }

  /** An opening that does not match, with no `"` right after it, has no
      `"` followed by a `>` after it. */
  lemma {:induction false} NoMatchNoPair(s: string, h: nat)
    requires Opens(s, h) && h < |s| && s[h] != '"' && AnchorAt(s).None?
    ensures NoPairFrom(s, h)
  {
    var q := FindChar(s, '"', h);
    FindCharSkips(s, '"', h);
    if q < |s| {
      FindCharSkips(s, '>', q + 1);
    }
  }

  /** The first character of the rewrite is the first of the text. */
  lemma {:induction false} MarkExternalHead(y: string)
    requires |y| > 0
    ensures |MarkExternal(y)| > 0 && MarkExternal(y)[0] == y[0]
  {
  }

  /** The rewrite copies everything up to the next `<`. */
  lemma {:induction false} CopyToLt(s: string, k: nat)
    requires 1 <= |s| && k == FindChar(s, '<', 1)
    ensures '<' !in s[1..k]
    ensures MarkExternal(s[1..]) == s[1..k] + MarkExternal(s[k..])
  {
    FindCharSkips(s, '<', 1);
    assert s[1..] == s[1..k] + s[k..];
    ExternalPrefix(s[1..k], s[k..]);
  }

  /** Past an opening without a `"` right after it where nothing matches,
      no `"` is followed by a `>`. */
  lemma {:induction false} NoPairPast(s: string, h: nat, k: nat)
    requires Opens(s, h) && h <= k < |s| && s[h] != '"' && AnchorAt(s).None?
    ensures NoPairFrom(s, k)
  {
    NoMatchNoPair(s, h);
  }

  /** A match has no `"` right after its scheme. */
  lemma {:induction false} MatchedHead(t: string, h: nat, q: nat, g: nat)
    requires Matched(t, h, q, g)
    ensures t[h] != '"'
  {
    assert t[h..q][0] == t[h];
  }

  /** A `<` after the first character lies past the opening. */
  lemma {:induction false} LtPastOpening(t: string, h: nat, k: nat)
    requires Opens(t, h) && 1 <= k < |t| && t[k] == '<'
    ensures h <= k
  {
    OpensBounds(t, h);
  }

  /** The case of `StepNone` where another `<` follows at `k`, with `t`
      standing for the text with everything from `k` on rewritten. */
  lemma {:induction false} StepAtLt(s: string, k: nat, t: string)
    requires AnchorAt(s).None? && 1 <= k < |s| && s[k] == '<'
    requires k < |t| && t[..k] == s[..k] && t[k] == '<'
    requires NoPairFrom(s, k) ==> t == s
    ensures AnchorAt(t).None?
  {
    if AnchorAt(t).Some? {
      AnchorParts(t);
      var m := AnchorAt(t).value;
      var h := SchemeEnd(t).value;
      MatchedHead(t, h, 9 + |m.url|, m.end - 1);
      LtPastOpening(t, h, k);
      OpensBehind(s, t, h, k);
    }
  }

  /** An opening of `t` that ends by `k`, where `t` and `s` agree before
      `k`, is an opening of `s`; with no match in `s`, no `"` there is
      followed by `>` from `k` on. */
  lemma {:induction false} OpensBehind(s: string, t: string, h: nat, k: nat)
    requires Opens(t, h) && h <= k < |s| && k < |t| && t[..k] == s[..k]
    requires s[k] == '<' && t[k] == '<' && t[h] != '"' && AnchorAt(s).None?
    ensures NoPairFrom(s, k)
  {
    OpensBounds(t, h);
    assert t[..h] == s[..h] by {
      assert t[..h] == t[..k][..h] && s[..h] == s[..k][..h];
    }
    OpensLocal(t, s, h);
    assert s[h] != '"';
    NoPairPast(s, h, k);
  }

  /** `StepNone` with `x` for the rewrite of `s[1..]` and `w` for the
      rewrite of the text from the next `<` on. */
  lemma {:induction false} StepParts(s: string, k: nat, x: string, w: string)
    requires |s| > 0 && s[0] == '<' && AnchorAt(s).None?
    requires 1 <= k <= |s| && '<' !in s[1..k] && (k < |s| ==> s[k] == '<')
    requires x == s[1..k] + w
    requires k == |s| ==> w == []
    requires k < |s| ==> |w| > 0 && w[0] == '<'
    requires NoPairFrom(s, k) ==> w == s[k..]
    ensures AnchorAt([s[0]] + x).None?
  {
    var t := [s[0]] + x;
    assert t == s[..k] + w;
    if k == |s| {
      assert t == s;
    } else {
      assert t[..k] == s[..k] && t[k] == w[0];
      if NoPairFrom(s, k) {
        assert t == s[..k] + s[k..];
      }
      StepAtLt(s, k, t);
    }
  }

  /** A position where nothing matches still matches nothing once the text
      after it is rewritten. */
  lemma {:induction false} StepNone(s: string)
    requires |s| > 0 && AnchorAt(s).None?
    ensures AnchorAt([s[0]] + MarkExternal(s[1..])).None?
  {
    if s[0] == '<' {
      var k := FindChar(s, '<', 1);
      CopyToLt(s, k);
      var w := MarkExternal(s[k..]);
      if k < |s| {
        MarkExternalHead(s[k..]);
      } else {
        assert s[k..] == [];
      }
      if NoPairFrom(s, k) {
        NoPairCopies(s, k);
      }
      StepParts(s, k, MarkExternal(s[1..]), w);
    } else {
      var t := [s[0]] + MarkExternal(s[1..]);
      assert t[0] == s[0];
    }
  }

  /** Rewriting twice changes nothing more than rewriting once. */
  lemma {:induction false} ExternalIdempotent(s: string)
    ensures MarkExternal(MarkExternal(s)) == MarkExternal(s)
    decreases |s|
  {
    if |s| > 0 {
      match AnchorAt(s)
      case Some(m) =>
        ExternalIdempotent(s[m.end..]);
        RetargetStable(s, MarkExternal(s[m.end..]));
      case None =>
        var rest := MarkExternal(s[1..]);
        ExternalIdempotent(s[1..]);
        StepNone(s);
        var t := [s[0]] + rest;
        assert t[1..] == rest;
    }
  }

  /** The links a mention produces are left alone by the new-tab rewrite. */
  lemma {:induction false} MentionLinksKept(u: string)
    requires IsUserName(u)
    ensures MarkExternal(MentionHtml(u)) == MentionHtml(u)
  {
    NameLinkKept(u);
    ClosingCopied(NameLink(u));
    ImgCopied(u, "</a>" + NameLink(u));
    var x := AvatarImg(u) + ("</a>" + NameLink(u));
    AvatarLinkKept(u, x);
    MentionHtmlShape(u);
  }

  lemma {:induction false} MentionHtmlShape(u: string)
    ensures MentionHtml(u) == AvatarTag(u) + (AvatarImg(u) + ("</a>" + NameLink(u)))
  {
    Regroup3(AvatarTag(u), AvatarImg(u), "</a>", NameLink(u));
  }

  function AvatarTag(u: string): string
  {
    Tag(ProfileUrl(u), NewTab + " class=\"user-avatar-link\"")
  }

  lemma {:induction false} ProfileUrlExternal(u: string)
    requires IsUserName(u)
    ensures ExternalUrl(ProfileUrl(u))
  {
    var url := ProfileUrl(u);
    assert url[..8] == "https://";
    assert forall i :: 0 <= i < |u| ==> u[i] != '"';
    assert '"' !in "https://github.com/";
  }

  lemma {:induction false} AvatarLinkKept(u: string, tail: string)
    requires IsUserName(u)
    ensures MarkExternal(AvatarTag(u) + tail) == AvatarTag(u) + MarkExternal(tail)
  {
    ProfileUrlExternal(u);
    NewTabNamesTarget(" class=\"user-avatar-link\"");
    ExternalKeeps(ProfileUrl(u), NewTab + " class=\"user-avatar-link\"", tail);
  }

  lemma {:induction false} NameLinkKept(u: string)
    requires IsUserName(u)
    ensures MarkExternal(NameLink(u)) == NameLink(u)
  {
    var rest := NewTab + " class=\"user-mention\"";
    var tail := "@" + u + "</a>";
    ProfileUrlExternal(u);
    NewTabNamesTarget(" class=\"user-mention\"");
    NameLinkShape(u);
    NameTailCopied(u);
    KeptThenCopied(ProfileUrl(u), rest, tail);
  }

  lemma {:induction false} NameLinkShape(u: string)
    ensures NameLink(u) == Tag(ProfileUrl(u), NewTab + " class=\"user-mention\"") + ("@" + u + "</a>")
  {
  }

  /** A kept tag followed by text the rewrite copies. */
  lemma {:induction false} KeptThenCopied(url: string, rest: string, tail: string)
    requires ExternalUrl(url) && '>' !in rest
    requires Contains(rest, "target=") || Contains(rest, "user-mention")
    requires MarkExternal(tail) == tail
    ensures MarkExternal(Tag(url, rest) + tail) == Tag(url, rest) + tail
  {
    ExternalKeeps(url, rest, tail);
  }

  lemma {:induction false} ClosingCopied(tail: string)
    ensures MarkExternal("</a>" + tail) == "</a>" + MarkExternal(tail)
  {
    PlainTagCopied("/a>", tail);
    assert "<" + "/a>" == "</a>";
  }

  /** `ExternalNotAnchor` for a `<` put in front of a string. */
  lemma {:induction false} LtCopied(rest: string)
    requires |rest| > 0 && rest[0] != 'a' && rest[0] != 'A'
    ensures MarkExternal("<" + rest) == "<" + MarkExternal(rest)
  {
    var s := "<" + rest;
    assert s[1..] == rest;
    ExternalNotAnchor(s);
  }

  lemma {:induction false} ImgCopied(u: string, tail: string)
    requires IsUserName(u)
    ensures MarkExternal(AvatarImg(u) + tail) == AvatarImg(u) + MarkExternal(tail)
  {
    assert '<' !in u by {
      assert forall i :: 0 <= i < |u| ==> u[i] != '<';
    }
    ImgAttrsPlain(u);
    PlainTagCopied(ImgAttrs(u), tail);
  }

  /** A tag other than `<a` without a further `<` is copied. */
  lemma {:induction false} PlainTagCopied(body: string, tail: string)
    requires '<' !in body && |body| > 0 && body[0] != 'a' && body[0] != 'A'
    ensures MarkExternal("<" + body + tail) == "<" + body + MarkExternal(tail)
  {
    LtCopied(body + tail);
    assert "<" + (body + tail) == "<" + body + tail;
    ExternalPrefix(body, tail);
  }

  lemma {:induction false} ImgAttrsPlain(u: string)
    requires '<' !in u
    ensures '<' !in ImgAttrs(u) && ImgAttrs(u)[0] == 'i'
  {
    ImgAttrsLiterals();
  }

  lemma {:induction false} ImgAttrsLiterals()
    ensures '<' !in "img src=\"" && '<' !in "https://github.com/"
    ensures '<' !in ".png\" width=\"16\" height=\"16\" alt=\"@"
    ensures '<' !in "\" class=\"user-avatar\" loading=\"lazy\">"
  {
    SizeAttrsNoLt();
    ClassAttrsNoLt();
  }

  lemma {:induction false} SizeAttrsNoLt()
    ensures '<' !in ".png\" width=\"16\" height=\"16\" alt=\"@"
  {
  }

  lemma {:induction false} ClassAttrsNoLt()
    ensures '<' !in "\" class=\"user-avatar\" loading=\"lazy\">"
  {
  }

  lemma {:induction false} NameTailCopied(u: string)
    requires IsUserName(u)
    ensures MarkExternal("@" + u + "</a>") == "@" + u + "</a>"
  {
    assert '<' !in "@" + u by {
      assert forall i :: 0 <= i < |u| ==> u[i] != '<';
    }
    ExternalPrefix("@" + u, "</a>");
    ClosingCopied("");
    ExternalPrefix("", "");
    assert "</a>" + "" == "</a>";
  }
}
