/** `buildBlogIndex` of build/build.js: reads the Markdown files of
    blog/posts, turns each one with a frontmatter block into a post record,
    sorts the posts newest first and writes the index without the bodies. */
module BlogIndex {
  import opened Text
  import opened Frontmatter

  /** A file of the posts folder: its name and its text. */
  datatype File = File(name: string, text: string)

  datatype Post = Post(slug: string, title: Value, date: Value, author: Value,
                       tags: Value, excerpt: Value, content: string)

  /** An entry of blog-index.json: a post without its body. */
  datatype IndexEntry = IndexEntry(slug: string, title: Value, date: Value, author: Value,
                                   tags: Value, excerpt: Value)

  /** JavaScript truthiness of a stored value: arrays are always truthy. */
  predicate Truthy(v: Value)
  {
    v.List? || v.s != ""
  }

  /** `frontmatter[key] || fallback`. */
  function Field(m: map<string, Value>, key: string, fallback: Value): Value
  {
    if key in m && Truthy(m[key]) then m[key] else fallback
  }

  /** `file.replace('.md', '')`: only the first `.md` goes. */
  function Slug(file: string): string
  {
    ReplaceFirst(file, ".md", "")
  }

  /** A name that contains `.md` only as its extension loses exactly the
      extension. */
  lemma {:induction false} SlugOfName(base: string)
    requires !Contains(base, ".md")
    ensures Slug(base + ".md") == base
  {
    var s := base + ".md";
    var n := |base|;
    assert OccursAt(s, ".md", n) by { assert s[n..n + 3] == ".md"; }
    forall j | 0 <= j < n ensures !OccursAt(s, ".md", j) {
      if j + 3 <= n {
        assert s[j..j + 3] == base[j..j + 3];
        assert !OccursAt(base, ".md", j);
      } else if j == n - 1 {
        assert s[j..j + 3][1] == '.';
      } else {
        assert s[j..j + 3][2] == '.';
      }
    }
    FindFromAt(s, ".md", 0, n);
    assert s[..n] == base;
  }

  /** A name with `.md` inside loses that one, not the extension. */
  lemma {:induction false} SlugOfDoubleExtension()
    ensures Slug("a.md.md") == "a.md"
  {
    var s := "a.md.md";
    assert OccursAt(s, ".md", 1) by { assert s[1..4] == ".md"; }
    assert !OccursAt(s, ".md", 0) by { assert s[0..3][0] == 'a'; }
    FindFromAt(s, ".md", 0, 1);
    assert s[..1] + "" + s[4..] == "a.md";
  }

  /** The record `buildBlogIndex` pushes for a file with a frontmatter block:
      empty or missing fields fall back to `Untitled`, the empty string or
      the empty list. */
  function MakePost(f: File, m: map<string, Value>): (p: Post)
    ensures Truthy(p.title) && Truthy(p.tags)
    ensures forall key :: key in m && Truthy(m[key]) ==>
              (key == "title" ==> p.title == m[key]) && (key == "date" ==> p.date == m[key])
              && (key == "author" ==> p.author == m[key]) && (key == "tags" ==> p.tags == m[key])
              && (key == "excerpt" ==> p.excerpt == m[key])
    ensures !("title" in m && Truthy(m["title"])) ==> p.title == Str("Untitled")
    ensures !("date" in m && Truthy(m["date"])) ==> p.date == Str("")
    ensures !("author" in m && Truthy(m["author"])) ==> p.author == Str("")
    ensures !("tags" in m && Truthy(m["tags"])) ==> p.tags == List([])
    ensures !("excerpt" in m && Truthy(m["excerpt"])) ==> p.excerpt == Str("")
    ensures p.slug == Slug(f.name) && p.content == StripBlock(f.text)
  {
    Post(Slug(f.name),
         Field(m, "title", Str("Untitled")),
         Field(m, "date", Str("")),
         Field(m, "author", Str("")),
         Field(m, "tags", List([])),
         Field(m, "excerpt", Str("")),
         StripBlock(f.text))
  }

  /** A block without any field gives the fallbacks everywhere. */
  lemma {:induction false} MakePostDefaults(f: File)
    ensures MakePost(f, map[]) == Post(Slug(f.name), Str("Untitled"), Str(""), Str(""), List([]), Str(""), StripBlock(f.text))
  {
  }

  predicate IsMarkdown(f: File)
  {
    EndsWith(f.name, ".md")
  }

  /** `files.filter(f => f.endsWith('.md'))`. */
  function MarkdownFiles(fs: seq<File>): (r: seq<File>)
    ensures |r| <= |fs|
    ensures forall f :: f in r <==> f in fs && IsMarkdown(f)
    decreases |fs|
  {
    if |fs| == 0 then []
    else
      var rest := MarkdownFiles(fs[1..]);
      assert forall f :: f in fs <==> f == fs[0] || f in fs[1..];
      if IsMarkdown(fs[0]) then [fs[0]] + rest else rest
  }

  /** The filter keeps folder order: filtering a concatenation filters
      each part. */
  lemma {:induction false} MarkdownFilesConcat(a: seq<File>, b: seq<File>)
    ensures MarkdownFiles(a + b) == MarkdownFiles(a) + MarkdownFiles(b)
    decreases |a|
  {
    if |a| > 0 {
      assert (a + b)[0] == a[0] && (a + b)[1..] == a[1..] + b;
      MarkdownFilesConcat(a[1..], b);
    } else {
      assert a + b == b;
    }
  }

  predicate HasBlock(f: File)
  {
    BuildFrontmatter(f.text).Some?
  }

  function PostOf(f: File): Post
    requires HasBlock(f)
  {
    MakePost(f, BuildFrontmatter(f.text).value)
  }

  /** The loop over the Markdown files: one post per file with a block, in
      folder order; files without a block are skipped. */
  function ReadPosts(fs: seq<File>): (ps: seq<Post>)
    ensures |ps| <= |fs|
    ensures forall p :: p in ps ==> exists f :: f in fs && HasBlock(f) && p == PostOf(f)
    ensures forall f :: f in fs && HasBlock(f) ==> PostOf(f) in ps
    decreases |fs|
  {
    if |fs| == 0 then []
    else
      var rest := ReadPosts(fs[1..]);
      assert forall f :: f in fs <==> f == fs[0] || f in fs[1..];
      if HasBlock(fs[0]) then [PostOf(fs[0])] + rest else rest
  }

  /** The read loop keeps folder order: reading a concatenation reads each
      part in turn. */
  lemma {:induction false} ReadPostsConcat(a: seq<File>, b: seq<File>)
    ensures ReadPosts(a + b) == ReadPosts(a) + ReadPosts(b)
    decreases |a|
  {
    if |a| > 0 {
      assert (a + b)[0] == a[0] && (a + b)[1..] == a[1..] + b;
      ReadPostsConcat(a[1..], b);
    } else {
      assert a + b == b;
    }
  }

  // ---------------------------------------------------------------------
  // `posts.sort((a, b) => new Date(b.date) - new Date(a.date))`. The date
  // is compared through `key`, the time value `new Date` gives it.

  /** Newest first: keys never increase along the sequence. */
  predicate Sorted(ps: seq<Post>, key: Value -> int)
  {
    forall i, j :: 0 <= i < j < |ps| ==> key(ps[i].date) >= key(ps[j].date)
  }

  /** Places `p` after the strictly newer posts and before the rest, so
      that, inserting from the back of the folder order, posts with equal
      dates keep their order. */
  function Insert(p: Post, s: seq<Post>, key: Value -> int): (r: seq<Post>)
    ensures |r| == |s| + 1
    ensures multiset(r) == multiset(s) + multiset{p}
    ensures r[0] == p || (|s| > 0 && r[0] == s[0])
    decreases |s|
  {
    if |s| == 0 then [p]
    else if key(s[0].date) > key(p.date) then
      assert s == [s[0]] + s[1..];
      [s[0]] + Insert(p, s[1..], key)
    else [p] + s
  }

  /** Inserting into a sorted sequence keeps it sorted. */
  lemma {:induction false} InsertKeepsSorted(p: Post, s: seq<Post>, key: Value -> int)
    requires Sorted(s, key)
    ensures Sorted(Insert(p, s, key), key)
    decreases |s|
  {
    if |s| > 0 && key(s[0].date) > key(p.date) {
      var t := Insert(p, s[1..], key);
      var r := [s[0]] + t;
      assert Sorted(s[1..], key);
      InsertKeepsSorted(p, s[1..], key);
      assert key(r[0].date) >= key(t[0].date);
      forall i, j | 0 <= i < j < |r| ensures key(r[i].date) >= key(r[j].date) {
        if i == 0 && j > 1 {
          assert key(t[0].date) >= key(t[j - 1].date);
        } else if i > 0 {
          assert r[i] == t[i - 1] && r[j] == t[j - 1];
        }
      }
    }
  }

  /** Stable insertion sort by date, newest first. */
  function SortByDate(ps: seq<Post>, key: Value -> int): (r: seq<Post>)
    ensures Sorted(r, key)
    ensures multiset(r) == multiset(ps)
    decreases |ps|
  {
    if |ps| == 0 then []
    else
      assert ps == [ps[0]] + ps[1..];
      InsertKeepsSorted(ps[0], SortByDate(ps[1..], key), key);
      Insert(ps[0], SortByDate(ps[1..], key), key)
  }

  /** The posts whose date has time value `k`, in order. */
  function WithKey(ps: seq<Post>, key: Value -> int, k: int): seq<Post>
    decreases |ps|
  {
    if |ps| == 0 then []
    else (if key(ps[0].date) == k then [ps[0]] else []) + WithKey(ps[1..], key, k)
  }

  lemma {:induction false} WithKeyInsert(p: Post, s: seq<Post>, key: Value -> int, k: int)
    ensures WithKey(Insert(p, s, key), key, k)
            == (if key(p.date) == k then [p] else []) + WithKey(s, key, k)
    decreases |s|
  {
    if |s| == 0 {
      assert [p][1..] == [];
    } else if key(s[0].date) > key(p.date) {
      WithKeyInsert(p, s[1..], key, k);
      assert ([s[0]] + Insert(p, s[1..], key))[1..] == Insert(p, s[1..], key);
    } else {
      assert ([p] + s)[1..] == s;
    }
  }

  /** Posts with the same date keep the order they had in the folder. */
  lemma {:induction false} SortIsStable(ps: seq<Post>, key: Value -> int, k: int)
    ensures WithKey(SortByDate(ps, key), key, k) == WithKey(ps, key, k)
    decreases |ps|
  {
    if |ps| > 0 {
      SortIsStable(ps[1..], key, k);
      WithKeyInsert(ps[0], SortByDate(ps[1..], key), key, k);
    }
  }

  // ---------------------------------------------------------------------

  function Entry(p: Post): IndexEntry
  {
    IndexEntry(p.slug, p.title, p.date, p.author, p.tags, p.excerpt)
  }

  /** What a completed run produces: the posts with their bodies, handed on
      to the page generators, and the entries written to blog-index.json. */
  datatype Index = Index(posts: seq<Post>, entries: seq<IndexEntry>)

  /** The posts folder: missing (the `access` check fails), present but not
      listable (`readdir` throws), or listed. */
  datatype Folder = Missing | Unlistable | Listed(files: seq<File>)

  /** How a run ends: without an index and returning `undefined`, in the
      `catch` returning `[]` after a failed read or write, or with the index
      written and the posts returned. */
  datatype BlogRun = NotBuilt | Failed | Built(index: Index)

  /** `buildBlogIndex`. Reading a file whose name is in `unreadable` throws,
      and `writeOk` says whether writing blog-index.json succeeds. */
  function BuildBlogIndex(folder: Folder, unreadable: set<string>, writeOk: bool,
                          key: Value -> int): (r: BlogRun)
    ensures r.NotBuilt? <==> folder.Missing? || (folder.Listed? && MarkdownFiles(folder.files) == [])
    ensures r.Failed? <==>
              folder.Unlistable?
              || (folder.Listed? && MarkdownFiles(folder.files) != []
                  && (!writeOk || exists f :: f in folder.files && IsMarkdown(f) && f.name in unreadable))
    ensures r.Built? ==>
              && Sorted(r.index.posts, key)
              && multiset(r.index.posts) == multiset(ReadPosts(MarkdownFiles(folder.files)))
              && |r.index.entries| == |r.index.posts|
              && forall i :: 0 <= i < |r.index.posts| ==> r.index.entries[i] == Entry(r.index.posts[i])
    ensures r.Built? ==>
              forall k :: WithKey(r.index.posts, key, k) == WithKey(ReadPosts(MarkdownFiles(folder.files)), key, k)
  {
    match folder
    case Missing => NotBuilt
    case Unlistable => Failed
    case Listed(fs) =>
      var md := MarkdownFiles(fs);
      if md == [] then NotBuilt
      else if exists f :: f in md && f.name in unreadable then Failed
      else if !writeOk then Failed
      else
        var posts := SortByDate(ReadPosts(md), key);
        assert forall k :: WithKey(posts, key, k) == WithKey(ReadPosts(md), key, k) by {
          forall k { SortIsStable(ReadPosts(md), key, k); }
        }
        Built(Index(posts, seq(|posts|, i requires 0 <= i < |posts| => Entry(posts[i]))))
  }

  /** Every indexed post comes from a Markdown file with a block, and every
      such file yields an indexed post. */
  lemma {:induction false} IndexedPosts(fs: seq<File>, unreadable: set<string>, writeOk: bool, key: Value -> int)
    requires BuildBlogIndex(Listed(fs), unreadable, writeOk, key).Built?
    ensures var posts := BuildBlogIndex(Listed(fs), unreadable, writeOk, key).index.posts;
            && (forall f :: f in fs && IsMarkdown(f) && HasBlock(f) ==> PostOf(f) in posts)
            && (forall p :: p in posts ==> exists f :: f in fs && IsMarkdown(f) && HasBlock(f) && p == PostOf(f))
  {
    var md := MarkdownFiles(fs);
    var read := ReadPosts(md);
    var posts := SortByDate(read, key);
    assert BuildBlogIndex(Listed(fs), unreadable, writeOk, key).index.posts == posts;
    forall p | p in posts
      ensures exists f :: f in fs && IsMarkdown(f) && HasBlock(f) && p == PostOf(f)
    {
      assert p in multiset(posts);
      assert p in read;
      var f :| f in md && HasBlock(f) && p == PostOf(f);
      assert f in fs && IsMarkdown(f);
    }
    forall f | f in fs && IsMarkdown(f) && HasBlock(f)
      ensures PostOf(f) in posts
    {
      assert f in md;
      assert PostOf(f) in multiset(read);
    }
  }
}
