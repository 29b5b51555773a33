/** `generateSitemap` and `generateRssFeed` of build/build.js: the text of
    sitemap.xml and feed.xml, built line by line from the posts and the
    projects. The build date and each post's publication date arrive as
    text, as the date library renders them. */
module Feeds {
  import opened Text
  import opened Frontmatter
  import opened Markup
  import XmlEscape
  import BlogIndex
  import Pages

  const BaseUrl: string := "https://muggelbude.it"
  const XmlDecl: string := "?xml version=\"1.0\"" + " encoding=\"UTF-8\"?"

  function PostUrl(slug: string): string
  {
    BaseUrl + "/blog/posts/" + slug + ".html"
  }

  function ProjectUrl(id: string): string
  {
    BaseUrl + "/projects/" + id + ".html"
  }

  lemma {:induction false} UrlsPlain(s: string)
    requires Plain(s)
    ensures Plain(PostUrl(s)) && Plain(ProjectUrl(s)) && Plain(BaseUrl + "/")
  {
  }

  lemma {:induction false} TextOfTwo(a: string, b: string)
    requires TagText(a) && TagText(b)
    ensures TagText(a + b)
  {
  }

  lemma {:induction false} XmlDeclText()
    ensures TagText(XmlDecl)
  {
    var a, b := "?xml version=\"1.0\"", " encoding=\"UTF-8\"?";
    assert TagText(a);
    assert TagText(b);
    TextOfTwo(a, b);
  }

  // ---------------------------------------------------------------------
  // sitemap.xml

  const UrlsetDecl: string := "urlset xmlns=" + "\"http://www.sitemaps.org" + "/schemas/sitemap/0.9\""

  /** The lines of one `<url>` entry. */
  function UrlLines(loc: string, lastmod: string, changefreq: string, priority: string): seq<Line>
  {
    [Open("  ", "url"), Leaf("    ", "loc", loc), Leaf("    ", "lastmod", lastmod),
     Leaf("    ", "changefreq", changefreq), Leaf("    ", "priority", priority),
     Shut("  ", "url")]
  }

  /** `${post.date || now}`. */
  function LastMod(post: BlogIndex.Post, now: string): string
  {
    if BlogIndex.Truthy(post.date) then ValueText(post.date) else now
  }

  function PostUrls(posts: seq<BlogIndex.Post>, now: string): seq<Line>
    decreases |posts|
  {
    if |posts| == 0 then []
    else UrlLines(PostUrl(posts[0].slug), LastMod(posts[0], now), "monthly", "0.8") + PostUrls(posts[1..], now)
  }

  function ProjectUrls(projects: seq<Pages.Project>, now: string): seq<Line>
    decreases |projects|
  {
    if |projects| == 0 then []
    else UrlLines(ProjectUrl(projects[0].id), now, "monthly", "0.7") + ProjectUrls(projects[1..], now)
  }

  function SitemapHead(): seq<Line>
  {
    [Open("", XmlDecl), Open("", UrlsetDecl)]
  }

  /** The lines of the sitemap: declarations, the home page, the posts, the
      projects. */
  function SitemapLines(projects: seq<Pages.Project>, posts: seq<BlogIndex.Post>, now: string): seq<Line>
  {
    SitemapHead() + UrlLines(BaseUrl + "/", now, "weekly", "1.0") + PostUrls(posts, now) + ProjectUrls(projects, now)
  }

  /** `generateSitemap`: the lines, then the end of the url set without a
      line break. */
  function Sitemap(projects: seq<Pages.Project>, posts: seq<BlogIndex.Post>, now: string): string
  {
    Render(SitemapLines(projects, posts, now)) + Closing("urlset")
  }

  /** The posts' entries come in the order of the posts. */
  lemma {:induction false} PostUrlsConcat(a: seq<BlogIndex.Post>, b: seq<BlogIndex.Post>, now: string)
    ensures PostUrls(a + b, now) == PostUrls(a, now) + PostUrls(b, now)
    decreases |a|
  {
    if |a| > 0 {
      assert (a + b)[0] == a[0] && (a + b)[1..] == a[1..] + b;
      PostUrlsConcat(a[1..], b, now);
    } else {
      assert a + b == b;
    }
  }

  /** The projects' entries come in the order of the projects. */
  lemma {:induction false} ProjectUrlsConcat(a: seq<Pages.Project>, b: seq<Pages.Project>, now: string)
    ensures ProjectUrls(a + b, now) == ProjectUrls(a, now) + ProjectUrls(b, now)
    decreases |a|
  {
    if |a| > 0 {
      assert (a + b)[0] == a[0] && (a + b)[1..] == a[1..] + b;
      ProjectUrlsConcat(a[1..], b, now);
    } else {
      assert a + b == b;
    }
  }

  /** An entry is well formed when its texts cannot open a tag, and it
      writes one `<url>` tag. */
  lemma {:induction false} UrlLinesFacts(loc: string, lastmod: string, changefreq: string, priority: string)
    requires Plain(loc) && Plain(lastmod) && Plain(changefreq) && Plain(priority)
    ensures AllWellFormed(UrlLines(loc, lastmod, changefreq, priority))
    ensures Named(UrlLines(loc, lastmod, changefreq, priority), "url") == 1
  {
    var ls := UrlLines(loc, lastmod, changefreq, priority);
    UrlNames();
    NamedOne(ls, "url", 0);
  }

  lemma {:induction false} UrlNames()
    ensures TagText("url") && TagText("loc") && TagText("lastmod")
    ensures TagText("changefreq") && TagText("priority")
  {
  }

  /** A post whose slug and date text cannot open a tag. */
  predicate PlainPostUrl(post: BlogIndex.Post)
  {
    Plain(post.slug) && Plain(ValueText(post.date))
  }

  lemma {:induction false} PostUrlsFacts(posts: seq<BlogIndex.Post>, now: string)
    requires Plain(now) && forall i :: 0 <= i < |posts| ==> PlainPostUrl(posts[i])
    ensures AllWellFormed(PostUrls(posts, now)) && Named(PostUrls(posts, now), "url") == |posts|
    decreases |posts|
  {
    if |posts| > 0 {
      var p := posts[0];
      assert PlainPostUrl(p);
      UrlsPlain(p.slug);
      var entry := UrlLines(PostUrl(p.slug), LastMod(p, now), "monthly", "0.8");
      UrlLinesFacts(PostUrl(p.slug), LastMod(p, now), "monthly", "0.8");
      PostUrlsFacts(posts[1..], now);
      WellFormedConcat(entry, PostUrls(posts[1..], now));
      NamedConcat(entry, PostUrls(posts[1..], now), "url");
    }
  }

  lemma {:induction false} ProjectUrlsFacts(projects: seq<Pages.Project>, now: string)
    requires Plain(now) && forall i :: 0 <= i < |projects| ==> Plain(projects[i].id)
    ensures AllWellFormed(ProjectUrls(projects, now)) && Named(ProjectUrls(projects, now), "url") == |projects|
    decreases |projects|
  {
    if |projects| > 0 {
      var p := projects[0];
      UrlsPlain(p.id);
      var entry := UrlLines(ProjectUrl(p.id), now, "monthly", "0.7");
      UrlLinesFacts(ProjectUrl(p.id), now, "monthly", "0.7");
      ProjectUrlsFacts(projects[1..], now);
      WellFormedConcat(entry, ProjectUrls(projects[1..], now));
      NamedConcat(entry, ProjectUrls(projects[1..], now), "url");
    }
  }

  lemma {:induction false} UrlsetDeclText()
    ensures TagText(UrlsetDecl)
  {
    var a, b, c := "urlset xmlns=", "\"http://www.sitemaps.org", "/schemas/sitemap/0.9\"";
    assert TagText(a);
    assert TagText(b);
    assert TagText(c);
    TextOfTwo(a, b);
    TextOfTwo(a + b, c);
  }

  lemma {:induction false} SitemapHeadFacts()
    ensures AllWellFormed(SitemapHead()) && Named(SitemapHead(), "url") == 0
  {
    XmlDeclText();
    UrlsetDeclText();
    NamedNone(SitemapHead(), "url");
  }

  lemma {:induction false} SitemapLinesFacts(projects: seq<Pages.Project>, posts: seq<BlogIndex.Post>, now: string)
    requires Plain(now)
    requires forall i :: 0 <= i < |posts| ==> PlainPostUrl(posts[i])
    requires forall i :: 0 <= i < |projects| ==> Plain(projects[i].id)
    ensures AllWellFormed(SitemapLines(projects, posts, now))
    ensures Named(SitemapLines(projects, posts, now), "url") == 1 + |posts| + |projects|
  {
    var head, home := SitemapHead(), UrlLines(BaseUrl + "/", now, "weekly", "1.0");
    var ps, js := PostUrls(posts, now), ProjectUrls(projects, now);
    SitemapHeadFacts();
    UrlsPlain("");
    UrlLinesFacts(BaseUrl + "/", now, "weekly", "1.0");
    PostUrlsFacts(posts, now);
    ProjectUrlsFacts(projects, now);
    WellFormedConcat(head, home);
    WellFormedConcat(head + home, ps);
    WellFormedConcat(head + home + ps, js);
    NamedConcat(head, home, "url");
    NamedConcat(head + home, ps, "url");
    NamedConcat(head + home + ps, js, "url");
  }

  /** The sitemap lists 1 + |posts| + |projects| pages: it holds that many
      `<url>` tags when no slug, id or date text contains `<`. */
  lemma {:induction false} SitemapUrlCount(projects: seq<Pages.Project>, posts: seq<BlogIndex.Post>, now: string)
    requires Plain(now)
    requires forall i :: 0 <= i < |posts| ==> PlainPostUrl(posts[i])
    requires forall i :: 0 <= i < |projects| ==> Plain(projects[i].id)
    ensures Count(Sitemap(projects, posts, now), Tag("url")) == 1 + |posts| + |projects|
  {
    var ls := SitemapLines(projects, posts, now);
    SitemapLinesFacts(projects, posts, now);
    assert Name("url");
    RenderTally(ls, "url");
    ClosingTally("urlset", "url");
    Glue(Render(ls), Closing("urlset"), "url", Named(ls, "url"), 0);
  }

  // ---------------------------------------------------------------------
  // feed.xml

  const RssDecl: string := "rss version=\"2.0\"" + " xmlns:atom=" + "\"http://www.w3.org/2005/Atom\""
  const AtomLink: string := "atom:link href=\"" + BaseUrl + "/feed.xml\" rel=\"self\"" + " type=\"application/rss+xml\"/"
  const ChannelTitle: string := "Nicolettas-Muggelbude Blog"
  const ChannelDescription: string := "Portfolio &amp; Blog von Nicoletta" + " - Linux, Automation, Entwicklung"

  /** The channel's head: declarations, title, link, description, language,
      build date and the self link. */
  function ChannelHead(now: string): seq<Line>
  {
    [Open("", XmlDecl), Open("", RssDecl), Open("  ", "channel"),
     Leaf("    ", "title", ChannelTitle), Leaf("    ", "link", BaseUrl + "/"),
     Leaf("    ", "description", ChannelDescription), Leaf("    ", "language", "de"),
     Leaf("    ", "lastBuildDate", now), Open("    ", AtomLink)]
  }

  /** The author line, present only for a truthy author, who is written
      without escaping. */
  function AuthorLines(author: Value): seq<Line>
  {
    if BlogIndex.Truthy(author) then [Leaf("      ", "author", "noreply@muggelbude.it (" + ValueText(author) + ")")]
    else []
  }

  /** The escaped excerpt, present only for a truthy excerpt. */
  function DescriptionLines(excerpt: Value): seq<Line>
  {
    if BlogIndex.Truthy(excerpt) then [Escaped("      ", "description", ValueText(excerpt))]
    else []
  }

  /** One `<category>` line per tag, escaped, in the order of the tags. */
  function Categories(tags: seq<string>): seq<Line>
    decreases |tags|
  {
    if |tags| == 0 then []
    else [Escaped("      ", "category", tags[0])] + Categories(tags[1..])
  }

  /** `post.tags && post.tags.length > 0` guards a `forEach`: an empty text
      is skipped, a non-empty text has no `forEach` and throws. */
  function CategoryLines(tags: Value): Outcome<seq<Line>>
  {
    match tags
    case Str(s) => if s == "" then Returns([]) else Throws(TypeError)
    case List(items) => Returns(Categories(items))
  }

  /** The fixed lines at the top of an item. */
  function ItemHead(post: BlogIndex.Post, pubDate: Value -> string): seq<Line>
  {
    [Open("    ", "item"), Escaped("      ", "title", ValueText(post.title)),
     Leaf("      ", "link", PostUrl(post.slug)), Leaf("      ", "guid", PostUrl(post.slug)),
     Leaf("      ", "pubDate", pubDate(post.date))]
  }

  function ItemLines(post: BlogIndex.Post, pubDate: Value -> string, cats: seq<Line>): seq<Line>
  {
    ItemHead(post, pubDate) + AuthorLines(post.author) + DescriptionLines(post.excerpt) + cats + [Shut("    ", "item")]
  }

  /** One `<item>`; it throws exactly when the post's tags are a non-empty text. */
  function Item(post: BlogIndex.Post, pubDate: Value -> string): (r: Outcome<seq<Line>>)
    ensures r.Throws? <==> Pages.ThrowsOnTags(post)
    ensures r.Throws? ==> r.error == TypeError
  {
    match CategoryLines(post.tags)
    case Throws(e) => Throws(e)
    case Returns(cats) => Returns(ItemLines(post, pubDate, cats))
  }

  /** The items of all posts, in order; the first post that throws ends the
      feed with that error. */
  function Items(posts: seq<BlogIndex.Post>, pubDate: Value -> string): (r: Outcome<seq<Line>>)
    ensures r.Returns? <==> forall i :: 0 <= i < |posts| ==> !Pages.ThrowsOnTags(posts[i])
    ensures r.Throws? ==> r.error == TypeError
    decreases |posts|
  {
    if |posts| == 0 then Returns([])
    else
      match Item(posts[0], pubDate)
      case Throws(e) => Throws(e)
      case Returns(item) =>
        match Items(posts[1..], pubDate)
        case Throws(e) => Throws(e)
        case Returns(rest) =>
          assert forall i :: 1 <= i < |posts| ==> posts[i] == posts[1..][i - 1];
          Returns(item + rest)
  }

  function RssLines(now: string, items: seq<Line>): seq<Line>
  {
    ChannelHead(now) + items + [Shut("  ", "channel")]
  }

  /** `generateRssFeed`: the whole feed, or the error that stops it (the
      build then writes no feed). */
  function Rss(posts: seq<BlogIndex.Post>, now: string, pubDate: Value -> string): (r: Outcome<string>)
    ensures r.Returns? <==> forall i :: 0 <= i < |posts| ==> !Pages.ThrowsOnTags(posts[i])
    ensures r.Throws? ==> r.error == TypeError
  {
    match Items(posts, pubDate)
    case Throws(e) => Throws(e)
    case Returns(items) => Returns(Render(RssLines(now, items)) + Closing("rss"))
  }

  /** The items of two runs of posts follow each other. */
  lemma {:induction false} ItemsConcat(a: seq<BlogIndex.Post>, b: seq<BlogIndex.Post>, pubDate: Value -> string)
    requires Items(a, pubDate).Returns? && Items(b, pubDate).Returns?
    ensures Items(a + b, pubDate) == Returns(Items(a, pubDate).value + Items(b, pubDate).value)
    decreases |a|
  {
    if |a| == 0 {
      assert a + b == b;
      assert Items(a, pubDate).value == [];
      assert [] + Items(b, pubDate).value == Items(b, pubDate).value;
    } else {
      assert (a + b)[0] == a[0] && (a + b)[1..] == a[1..] + b;
      assert !Pages.ThrowsOnTags(a[0]);
      ItemsConcat(a[1..], b, pubDate);
      Associative(Item(a[0], pubDate).value, Items(a[1..], pubDate).value, Items(b, pubDate).value);
    }
  }

  lemma {:induction false} Associative(x: seq<Line>, y: seq<Line>, z: seq<Line>)
    ensures x + (y + z) == x + y + z
  {
  }

  /** The tag names counted in the feed. */
  predicate FeedName(q: string)
  {
    q == "item" || q == "author" || q == "description" || q == "category"
  }

  lemma {:induction false} FeedNameIsName(q: string)
    requires FeedName(q)
    ensures Name(q)
  {
  }

  /** How many `<q>` tags one post's item holds: one `<item>`, an `<author>`
      for a truthy author, a `<description>` for a truthy excerpt, one
      `<category>` per listed tag. */
  function Share(post: BlogIndex.Post, q: string): nat
  {
    if q == "item" then 1
    else if q == "author" then (if BlogIndex.Truthy(post.author) then 1 else 0)
    else if q == "description" then (if BlogIndex.Truthy(post.excerpt) then 1 else 0)
    else if q == "category" && post.tags.List? then |post.tags.items|
    else 0
  }

  function Shares(posts: seq<BlogIndex.Post>, q: string): nat
    decreases |posts|
  {
    if |posts| == 0 then 0 else Share(posts[0], q) + Shares(posts[1..], q)
  }

  /** A post whose slug, publication date and author cannot open a tag. */
  predicate PlainPost(post: BlogIndex.Post, pubDate: Value -> string)
  {
    Plain(post.slug) && Plain(pubDate(post.date)) && Plain(ValueText(post.author))
  }

  lemma {:induction false} ItemHeadFacts(post: BlogIndex.Post, pubDate: Value -> string, q: string)
    requires PlainPost(post, pubDate) && FeedName(q)
    ensures AllWellFormed(ItemHead(post, pubDate))
    ensures Named(ItemHead(post, pubDate), q) == (if q == "item" then 1 else 0)
  {
    ItemHeadWellFormed(post, pubDate);
    NamedOne(ItemHead(post, pubDate), q, 0);
  }

  lemma {:induction false} ItemHeadWellFormed(post: BlogIndex.Post, pubDate: Value -> string)
    requires PlainPost(post, pubDate)
    ensures AllWellFormed(ItemHead(post, pubDate))
  {
    UrlsPlain(post.slug);
    assert TagText("item") && TagText("title") && TagText("link");
    assert TagText("guid") && TagText("pubDate");
  }

  lemma {:induction false} AuthorLinesFacts(post: BlogIndex.Post, q: string)
    requires Plain(ValueText(post.author))
    ensures AllWellFormed(AuthorLines(post.author))
    ensures Named(AuthorLines(post.author), q) == (if q == "author" then Share(post, q) else 0)
  {
    if BlogIndex.Truthy(post.author) {
      var who := "noreply@muggelbude.it (" + ValueText(post.author) + ")";
      assert Plain("noreply@muggelbude.it (");
      assert Plain(who);
      assert TagText("author");
    }
  }

  lemma {:induction false} DescriptionLinesFacts(post: BlogIndex.Post, q: string)
    ensures AllWellFormed(DescriptionLines(post.excerpt))
    ensures Named(DescriptionLines(post.excerpt), q) == (if q == "description" then Share(post, q) else 0)
  {
    assert TagText("description");
  }

  lemma {:induction false} CategoriesFacts(tags: seq<string>, q: string)
    ensures AllWellFormed(Categories(tags))
    ensures Named(Categories(tags), q) == (if q == "category" then |tags| else 0)
    decreases |tags|
  {
    if |tags| > 0 {
      var line := [Escaped("      ", "category", tags[0])];
      assert TagText("category");
      CategoriesFacts(tags[1..], q);
      WellFormedConcat(line, Categories(tags[1..]));
      NamedConcat(line, Categories(tags[1..]), q);
    }
  }

  /** An item is well formed and holds its post's share of each counted tag. */
  lemma {:induction false} ItemFacts(post: BlogIndex.Post, pubDate: Value -> string, q: string)
    requires PlainPost(post, pubDate) && FeedName(q) && !Pages.ThrowsOnTags(post)
    ensures AllWellFormed(Item(post, pubDate).value) && Named(Item(post, pubDate).value, q) == Share(post, q)
  {
    var head, au, de := ItemHead(post, pubDate), AuthorLines(post.author), DescriptionLines(post.excerpt);
    var cats := CategoryLines(post.tags).value;
    var shut := [Shut("    ", "item")];
    ItemHeadFacts(post, pubDate, q);
    AuthorLinesFacts(post, q);
    DescriptionLinesFacts(post, q);
    if post.tags.List? {
      CategoriesFacts(post.tags.items, q);
    }
    assert AllWellFormed(shut) && Named(shut, q) == 0 by {
      assert TagText("item");
    }
    WellFormedConcat(head, au);
    WellFormedConcat(head + au, de);
    WellFormedConcat(head + au + de, cats);
    WellFormedConcat(head + au + de + cats, shut);
    NamedConcat(head, au, q);
    NamedConcat(head + au, de, q);
    NamedConcat(head + au + de, cats, q);
    NamedConcat(head + au + de + cats, shut, q);
  }

  lemma {:induction false} ItemsFacts(posts: seq<BlogIndex.Post>, pubDate: Value -> string, q: string)
    requires FeedName(q)
    requires forall i :: 0 <= i < |posts| ==> PlainPost(posts[i], pubDate) && !Pages.ThrowsOnTags(posts[i])
    ensures AllWellFormed(Items(posts, pubDate).value) && Named(Items(posts, pubDate).value, q) == Shares(posts, q)
    decreases |posts|
  {
    if |posts| > 0 {
      var item := Item(posts[0], pubDate).value;
      ItemFacts(posts[0], pubDate, q);
      ItemsFacts(posts[1..], pubDate, q);
      WellFormedConcat(item, Items(posts[1..], pubDate).value);
      NamedConcat(item, Items(posts[1..], pubDate).value, q);
    }
  }

  lemma {:induction false} RssDeclText()
    ensures TagText(RssDecl)
  {
    var a, b, c := "rss version=\"2.0\"", " xmlns:atom=", "\"http://www.w3.org/2005/Atom\"";
    assert TagText(a);
    assert TagText(b);
    assert TagText(c);
    TextOfTwo(a, b);
    TextOfTwo(a + b, c);
  }

  lemma {:induction false} AtomLinkText()
    ensures TagText(AtomLink)
  {
    var a, b, c := "atom:link href=\"", "/feed.xml\" rel=\"self\"", " type=\"application/rss+xml\"/";
    AtomLinkHead();
    AtomLinkTail();
    TextOfTwo(a + BaseUrl, b + c);
    assert a + BaseUrl + (b + c) == AtomLink;
  }

  lemma {:induction false} AtomLinkHead()
    ensures TagText("atom:link href=\"" + BaseUrl)
  {
    var a := "atom:link href=\"";
    assert TagText(a);
    assert TagText(BaseUrl);
    TextOfTwo(a, BaseUrl);
  }

  lemma {:induction false} AtomLinkTail()
    ensures TagText("/feed.xml\" rel=\"self\"" + " type=\"application/rss+xml\"/")
  {
    var b, c := "/feed.xml\" rel=\"self\"", " type=\"application/rss+xml\"/";
    assert TagText(b);
    assert TagText(c);
    TextOfTwo(b, c);
  }

  lemma {:induction false} ChannelTextPlain()
    ensures Plain(ChannelTitle) && Plain(ChannelDescription) && Plain("de")
  {
    DescriptionPlain();
  }

  lemma {:induction false} DescriptionPlain()
    ensures Plain(ChannelDescription)
  {
    assert Plain("Portfolio &amp; Blog von Nicoletta");
    assert Plain(" - Linux, Automation, Entwicklung");
  }

  lemma {:induction false} ChannelNames()
    ensures TagText("channel") && TagText("title") && TagText("link")
    ensures TagText("description") && TagText("language") && TagText("lastBuildDate")
  {
  }

  /** The channel's head is well formed and holds one `<description>`, the
      channel's own. */
  lemma {:induction false} ChannelHeadFacts(now: string, q: string)
    requires Plain(now) && FeedName(q)
    ensures AllWellFormed(ChannelHead(now))
    ensures Named(ChannelHead(now), q) == (if q == "description" then 1 else 0)
  {
    XmlDeclText();
    RssDeclText();
    AtomLinkText();
    ChannelTextPlain();
    ChannelNames();
    UrlsPlain("");
    NamedOne(ChannelHead(now), q, 5);
  }

  lemma {:induction false} OneItemEach(posts: seq<BlogIndex.Post>)
    ensures Shares(posts, "item") == |posts|
    decreases |posts|
  {
    if |posts| > 0 {
      OneItemEach(posts[1..]);
    }
  }

  lemma {:induction false} RssLinesFacts(now: string, items: seq<Line>, q: string, n: nat)
    requires Plain(now) && FeedName(q) && AllWellFormed(items) && Named(items, q) == n
    ensures AllWellFormed(RssLines(now, items))
    ensures Named(RssLines(now, items), q) == (if q == "description" then 1 else 0) + n
  {
    var head, shut := ChannelHead(now), [Shut("  ", "channel")];
    ChannelHeadFacts(now, q);
    assert AllWellFormed(shut) && Named(shut, q) == 0 by {
      assert TagText("channel");
    }
    WellFormedConcat(head, items);
    WellFormedConcat(head + items, shut);
    NamedConcat(head, items, q);
    NamedConcat(head + items, shut, q);
  }

  lemma {:induction false} RssTally(posts: seq<BlogIndex.Post>, now: string, pubDate: Value -> string, q: string)
    requires Plain(now) && FeedName(q)
    requires forall i :: 0 <= i < |posts| ==> PlainPost(posts[i], pubDate) && !Pages.ThrowsOnTags(posts[i])
    ensures Rss(posts, now, pubDate).Returns?
    ensures Tally(Rss(posts, now, pubDate).value, q, (if q == "description" then 1 else 0) + Shares(posts, q))
  {
    var ls := RssLines(now, Items(posts, pubDate).value);
    FeedNameIsName(q);
    ItemsFacts(posts, pubDate, q);
    RssLinesFacts(now, Items(posts, pubDate).value, q, Shares(posts, q));
    RenderTally(ls, q);
    assert TagText("rss");
    ClosingTally("rss", q);
    Glue(Render(ls), Closing("rss"), q, Named(ls, q), 0);
  }

  /** The feed holds one `<item>` per post, one `<author>` per post with an
      author, one `<description>` for the channel and one per post with an
      excerpt, and one `<category>` per listed tag, when no slug,
      publication date or author text contains `<`. */
  lemma {:induction false} RssCounts(posts: seq<BlogIndex.Post>, now: string, pubDate: Value -> string)
    requires Plain(now)
    requires forall i :: 0 <= i < |posts| ==> PlainPost(posts[i], pubDate) && !Pages.ThrowsOnTags(posts[i])
    ensures Rss(posts, now, pubDate).Returns?
    ensures var feed := Rss(posts, now, pubDate).value;
      && Count(feed, Tag("item")) == |posts|
      && Count(feed, Tag("author")) == Shares(posts, "author")
      && Count(feed, Tag("description")) == 1 + Shares(posts, "description")
      && Count(feed, Tag("category")) == Shares(posts, "category")
  {
    RssTally(posts, now, pubDate, "item");
    RssTally(posts, now, pubDate, "author");
    RssTally(posts, now, pubDate, "description");
    RssTally(posts, now, pubDate, "category");
    OneItemEach(posts);
  }
}
