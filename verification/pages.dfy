/** The page generators of build/build.js: `{{NAME}}` placeholders of the
    post and project templates are replaced, one name after the other, by
    the record's values. */
module Pages {
  import opened Text
  import opened Frontmatter
  import opened BlogIndex
  import PostLinks

  function Placeholder(name: string): string
  {
    "{{" + name + "}}"
  }

  /** A placeholder name: no braces. */
  predicate PlainName(n: string)
  {
    '{' !in n && '}' !in n
  }

  /** Replacing one placeholder leaves a different one alone. */
  lemma {:induction false} OtherPlaceholderKept(a: string, n: string, b: string, m: string, r: string)
    requires '{' !in a && '{' !in b && PlainName(n) && PlainName(m) && n != m
    ensures ReplaceAll(a + Placeholder(n) + b, Placeholder(m), r) == a + Placeholder(n) + b
  {
    var s := a + Placeholder(n) + b;
    var q := Placeholder(m);
    var pn := Placeholder(n);
    assert |pn| == |n| + 4 && |q| == |m| + 4;
    forall j | 0 <= j ensures !OccursAt(s, q, j) {
      if j + |q| <= |s| {
        var w := s[j..j + |q|];
        assert w[0] == s[j] && q[0] == '{';
        if j < |a| {
          assert s[j] == a[j] && a[j] in a;
        } else if j == |a| {
          if |m| < |n| {
            assert w[2 + |m|] == n[|m|] && n[|m|] in n;
            assert q[2 + |m|] == '}';
          } else if |m| > |n| {
            assert w[2 + |n|] == '}';
            assert q[2 + |n|] == m[|n|] && m[|n|] in m;
          } else {
            assert w[2..2 + |n|] == n;
            assert q[2..2 + |m|] == m;
          }
        } else if j == |a| + 1 {
          assert q[1] == '{';
          if |n| > 0 {
            assert w[1] == n[0] && n[0] in n;
          } else {
            assert w[1] == '}';
          }
        } else if j < |a| + |pn| {
          var k := j - |a|;
          assert s[j] == pn[k];
          if k < 2 + |n| {
            assert pn[k] == n[k - 2] && n[k - 2] in n;
          } else {
            assert pn[k] == '}';
          }
        } else {
          assert s[j] == b[j - |a| - |pn|] && b[j - |a| - |pn|] in b;
        }
      }
    }
    ReplaceAllAbsent(s, q, r);
  }

  // ---------------------------------------------------------------------
  // Blog post pages (`generateBlogPostPages`).

  /** The tag list, or a throw when `tags` is a non-empty string, whose
      `map` does not exist. */
  function TagsHtml(tags: Value): (r: Outcome<string>)
    ensures r.Throws? <==> tags.Str? && tags.s != ""
    ensures r == Returns("") <==> tags == Str("") || tags == List([])
  {
    match tags
    case Str(s) => if s == "" then Returns("") else Throws(TypeError)
    case List(items) =>
      if |items| == 0 then Returns("")
      else Returns("<div class=\"post-tags\">" + Join(MapSeq(TagSpan, items), "") + "</div>")
  }

  function TagSpan(t: string): string
  {
    "<span class=\"tag\">" + t + "</span>"
  }

  /** `von <author>` when the author is truthy. */
  function AuthorHtml(author: Value): string
  {
    if Truthy(author) then "<span>von " + ValueText(author) + "</span>" else ""
  }

  /** The post body: `marked`, then mention links, then new-tab marking.
      `marked` is the Markdown library, which this model does not define. */
  function ContentHtml(content: string, marked: string -> string): string
  {
    PostLinks.MarkExternal(PostLinks.Mentions(marked(content)))
  }

  /** The values in substitution order. `formatDate` is the German long
      date `toLocaleDateString` gives. */
  function PostValues(p: Post, tags: string, marked: string -> string, formatDate: Value -> string): seq<(string, string)>
  {
    [("POST_TITLE", ValueText(p.title)),
     ("POST_EXCERPT", ValueText(if Truthy(p.excerpt) then p.excerpt else p.title)),
     ("POST_DATE", ValueText(p.date)),
     ("POST_DATE_FORMATTED", formatDate(p.date)),
     ("POST_AUTHOR", AuthorHtml(p.author)),
     ("POST_TAGS", tags),
     ("POST_CONTENT", ContentHtml(p.content, marked)),
     ("POST_SLUG", p.slug)]
  }

  /** Replaces each name's placeholder in turn; a value may bring in a
      placeholder that a later name then replaces. */
  function Fill(template: string, values: seq<(string, string)>): string
    decreases |values|
  {
    if |values| == 0 then template
    else Fill(ReplaceAll(template, Placeholder(values[0].0), values[0].1), values[1..])
  }

  function PostPage(template: string, p: Post, marked: string -> string, formatDate: Value -> string): (r: Outcome<string>)
    ensures r.Throws? <==> TagsHtml(p.tags).Throws?
  {
    match TagsHtml(p.tags)
    case Throws(e) => Throws(e)
    case Returns(tags) => Returns(Fill(template, PostValues(p, tags, marked, formatDate)))
  }

  /** A written file: its path and its text. */
  datatype Page = Page(path: string, html: string)

  predicate ThrowsOnTags(p: Post)
  {
    p.tags.Str? && p.tags.s != ""
  }

  function PostPath(p: Post): string
  {
    "blog/posts/" + p.slug + ".html"
  }

  /** One page per post, in order. The first post whose page throws, or
      whose file cannot be written (its path is in `unwritable`), stops the
      loop, and the pages written before it remain. */
  function PostPages(template: string, posts: seq<Post>, marked: string -> string, formatDate: Value -> string,
                     unwritable: set<string>): (pages: seq<Page>)
    ensures |pages| <= |posts|
    ensures forall i :: 0 <= i < |pages| ==> pages[i].path == PostPath(posts[i])
                                              && !ThrowsOnTags(posts[i]) && PostPath(posts[i]) !in unwritable
    ensures |pages| == |posts| <==>
              forall i :: 0 <= i < |posts| ==> !ThrowsOnTags(posts[i]) && PostPath(posts[i]) !in unwritable
    ensures |pages| < |posts| ==> ThrowsOnTags(posts[|pages|]) || PostPath(posts[|pages|]) in unwritable
    decreases |posts|
  {
    if |posts| == 0 then []
    else
      match PostPage(template, posts[0], marked, formatDate)
      case Throws(_) => []
      case Returns(html) =>
        if PostPath(posts[0]) in unwritable then []
        else
          var rest := PostPages(template, posts[1..], marked, formatDate, unwritable);
          assert forall i :: 1 <= i < |posts| ==> posts[i] == posts[1..][i - 1];
          [Page(PostPath(posts[0]), html)] + rest
  }

  /** A template holding only the content placeholder, among text without
      braces, receives the rendered body unchanged when the body has no
      brace either. */
  lemma {:induction false} PostPageContent(a: string, b: string, p: Post, marked: string -> string, formatDate: Value -> string)
    requires '{' !in a && '{' !in b && !ThrowsOnTags(p)
    requires '{' !in ContentHtml(p.content, marked)
    ensures PostPage(a + Placeholder("POST_CONTENT") + b, p, marked, formatDate)
            == Returns(a + ContentHtml(p.content, marked) + b)
  {
    var vs := PostValues(p, TagsHtml(p.tags).value, marked, formatDate);
    PostNamesBeforeContent(p, TagsHtml(p.tags).value, marked, formatDate);
    FillContent(a, b, vs, ContentHtml(p.content, marked), p.slug);
  }

  /** A template whose only placeholder is the content: the six names
      before it change nothing, the content fills it, and the slug after it
      finds nothing. */
  lemma {:induction false} FillContent(a: string, b: string, vs: seq<(string, string)>, c: string, slug: string)
    requires '{' !in a && '{' !in b && '{' !in c
    requires |vs| == 8 && vs[6] == ("POST_CONTENT", c) && vs[7] == ("POST_SLUG", slug)
    requires forall i :: 0 <= i < 6 ==> PlainName(vs[i].0) && vs[i].0 != "POST_CONTENT"
    ensures Fill(a + Placeholder("POST_CONTENT") + b, vs) == a + c + b
  {
    var t := a + Placeholder("POST_CONTENT") + b;
    OthersKept(a, b, "POST_CONTENT", vs, 6);
    ReplaceAllOnce(a, Placeholder("POST_CONTENT"), b, c);
    ReplaceAllNoLead(a + c + b, Placeholder("POST_SLUG"), slug);
    FillStep(vs, 6, t, a + c + b);
    FillStep(vs, 7, a + c + b, a + c + b);
    assert vs[8..] == [];
  }

  lemma {:induction false} PostNamesBeforeContent(p: Post, tags: string, marked: string -> string, formatDate: Value -> string)
    ensures var vs := PostValues(p, tags, marked, formatDate);
            && |vs| == 8 && vs[6] == ("POST_CONTENT", ContentHtml(p.content, marked)) && vs[7] == ("POST_SLUG", p.slug)
            && forall i :: 0 <= i < 6 ==> PlainName(vs[i].0) && vs[i].0 != "POST_CONTENT"
  {
  }

  /** Names other than `n` keep a template whose only placeholder is `n`. */
  lemma {:induction false} OthersKept(a: string, b: string, n: string, vs: seq<(string, string)>, k: nat)
    requires k <= |vs| && '{' !in a && '{' !in b && PlainName(n)
    requires forall i :: 0 <= i < k ==> PlainName(vs[i].0) && vs[i].0 != n
    ensures Fill(a + Placeholder(n) + b, vs) == Fill(a + Placeholder(n) + b, vs[k..])
  {
    var t := a + Placeholder(n) + b;
    forall i | 0 <= i < k ensures ReplaceAll(t, Placeholder(vs[i].0), vs[i].1) == t {
      OtherPlaceholderKept(a, n, b, vs[i].0, vs[i].1);
    }
    FillKept(t, vs, k);
  }

  /** The first `n` names leave `t` alone. */
  lemma {:induction false} FillKept(t: string, vs: seq<(string, string)>, n: nat)
    requires n <= |vs|
    requires forall i :: 0 <= i < n ==> ReplaceAll(t, Placeholder(vs[i].0), vs[i].1) == t
    ensures Fill(t, vs) == Fill(t, vs[n..])
    decreases n
  {
    if n > 0 {
      assert vs[1..][n - 1..] == vs[n..];
      FillKept(t, vs[1..], n - 1);
    }
  }

  lemma {:induction false} FillStep(vs: seq<(string, string)>, n: nat, t: string, u: string)
    requires n < |vs| && ReplaceAll(t, Placeholder(vs[n].0), vs[n].1) == u
    ensures Fill(t, vs[n..]) == Fill(u, vs[n + 1..])
  {
    assert vs[n..][1..] == vs[n + 1..];
  }

  // ---------------------------------------------------------------------
  // Project pages (`generateProjectPage`).

  datatype Project = Project(id: string, name: string, repo: string, description: string)

  function ProjectValues(p: Project): seq<(string, string)>
  {
    [("PROJECT_NAME", p.name),
     ("PROJECT_DESCRIPTION", p.description),
     ("REPO_NAME", p.repo),
     ("PROJECT_ID", p.id)]
  }

  function ProjectPage(template: string, p: Project): Page
  {
    Page("projects/" + p.id + ".html", Fill(template, ProjectValues(p)))
  }

  /** A template with only the name placeholder shows the project name. */
  lemma {:induction false} ProjectPageName(a: string, b: string, p: Project)
    requires '{' !in a && '{' !in b && '{' !in p.name
    ensures ProjectPage(a + Placeholder("PROJECT_NAME") + b, p).html == a + p.name + b
  {
    var vs := ProjectValues(p);
    var t := a + p.name + b;
    ReplaceAllOnce(a, Placeholder("PROJECT_NAME"), b, p.name);
    ReplaceAllNoLead(t, Placeholder("PROJECT_DESCRIPTION"), p.description);
    ReplaceAllNoLead(t, Placeholder("REPO_NAME"), p.repo);
    ReplaceAllNoLead(t, Placeholder("PROJECT_ID"), p.id);
    FillStep(vs, 0, a + Placeholder("PROJECT_NAME") + b, t);
    FillKept(t, vs[1..], 3);
  }
}
