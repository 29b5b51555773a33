/** The pure parts of the project page script (js/project-page.js): the
    screenshot filter over README images, the gallery it fills, the project
    id under which the build cached the project, and the release read back
    from that cache. */
module ProjectPage {
  import opened Text
  import opened Http
  import ProjectCache
  import Pages

  // ---------------------------------------------------------------------
  // `parseInt` with no radix argument.

  /** The value of `c` as a digit, in base 16 when `hex` holds, else base 10. */
  function DigitValue(c: char, hex: bool): (d: Option<nat>)
    ensures d.Some? ==> d.value < (if hex then 16 else 10)
  {
    if '0' <= c <= '9' then Some(c as int - '0' as int)
    else if hex && 'a' <= c <= 'f' then Some(c as int - 'a' as int + 10)
    else if hex && 'A' <= c <= 'F' then Some(c as int - 'A' as int + 10)
    else None
  }

  predicate AllDigits(s: string, hex: bool)
  {
    forall i :: 0 <= i < |s| ==> DigitValue(s[i], hex).Some?
  }

  /** The length of the longest prefix of digits. */
  function DigitRun(s: string, hex: bool): (n: nat)
    ensures n <= |s| && AllDigits(s[..n], hex)
    ensures n < |s| ==> DigitValue(s[n], hex).None?
    decreases |s|
  {
    if |s| > 0 && DigitValue(s[0], hex).Some? then
      var n := 1 + DigitRun(s[1..], hex);
      assert forall i :: 1 <= i < n ==> s[..n][i] == s[1..][..n - 1][i - 1];
      n
    else 0
  }

  /** The value of a digit string, most significant digit first. */
  function RunValue(s: string, hex: bool): nat
    requires AllDigits(s, hex)
    decreases |s|
  {
    if |s| == 0 then 0
    else
      assert AllDigits(s[..|s| - 1], hex) by {
        var t := s[..|s| - 1];
        forall i | 0 <= i < |t| ensures DigitValue(t[i], hex).Some? {
          assert t[i] == s[i];
        }
      }
      RunValue(s[..|s| - 1], hex) * (if hex then 16 else 10) + DigitValue(s[|s| - 1], hex).value
  }

  /** `parseInt(s)`: leading white space is skipped, a sign is read, `0x` or
      `0X` switches to base 16, and the longest run of digits is read; no
      digits is `NaN` (`None`). */
  function ParseInt(s: string): (r: Option<int>)
  {
    var t := TrimStart(s);
    var neg := |t| > 0 && t[0] == '-';
    var u := if |t| > 0 && (t[0] == '-' || t[0] == '+') then t[1..] else t;
    var hex := |u| >= 2 && u[0] == '0' && (u[1] == 'x' || u[1] == 'X');
    var v := if hex then u[2..] else u;
    var n := DigitRun(v, hex);
    if n == 0 then None
    else
      var value: int := RunValue(v[..n], hex);
      Some(if neg then -value else value)
  }

  /** Decimal digits read the same way as `DigitsValue` reads them. */
  lemma {:induction false} RunValueDecimal(s: string)
    requires forall i :: 0 <= i < |s| ==> IsDigit(s[i])
    ensures AllDigits(s, false) && RunValue(s, false) == DigitsValue(s)
    decreases |s|
  {
    if |s| > 0 {
      RunValueDecimal(s[..|s| - 1]);
    }
  }

  /** The run of digits is exactly `d` when `rest` does not continue it. */
  lemma {:induction false} DigitRunOf(d: string, rest: string, hex: bool)
    requires AllDigits(d, hex) && (rest == [] || DigitValue(rest[0], hex).None?)
    ensures DigitRun(d + rest, hex) == |d|
    decreases |d|
  {
    if |d| > 0 {
      assert (d + rest)[1..] == d[1..] + rest;
      DigitRunOf(d[1..], rest, hex);
    } else {
      assert d + rest == rest;
    }
  }

  /** A printed number followed by a unit reads back as the number:
      `parseInt("640px")` is 640. */
  lemma {:induction false} ParseIntOfNumber(n: nat, rest: string)
    requires rest == [] || (!IsDigit(rest[0]) && rest[0] != 'x' && rest[0] != 'X')
    ensures ParseInt(NatToString(n) + rest) == Some(n)
  {
    var d := NatToString(n);
    var s := d + rest;
    assert s[0] == d[0] && IsDigit(s[0]) && !IsJsSpace(s[0]);
    assert TrimStart(s) == s;
    NatToStringRoundTrip(n);
    if |d| >= 2 {
      assert s[1] == d[1];
    } else {
      assert |s| >= 2 ==> s[1] == rest[0];
    }
    RunValueDecimal(d);
    DigitRunOf(d, rest, false);
    assert s[..|d|] == d;
  }

  // ---------------------------------------------------------------------
  // The screenshot filter of `extractScreenshots`.

  /** A README image: its resolved `src`, its `alt` text (`""` when absent)
      and its `width` attribute, if any. */
  datatype Img = Img(src: string, alt: string, width: Option<string>)

  /** `parseInt(width) || 999`: a missing, unparsable or zero width counts
      as 999. */
  function Width(img: Img): (w: int)
    ensures w != 0
    ensures img.width.None? ==> w == 999
    ensures img.width.Some? && ParseInt(img.width.value).Some? && ParseInt(img.width.value).value != 0
            ==> w == ParseInt(img.width.value).value
  {
    match img.width
    case None => 999
    case Some(a) =>
      match ParseInt(a)
      case None => 999
      case Some(n) => if n == 0 then 999 else n
  }

  /** The filter callback, test by test in the order the script makes them. */
  predicate IsScreenshot(img: Img)
  {
    var src := Lower(img.src);
    var alt := Lower(img.alt);
    if Contains(src, "shields.io") || Contains(src, "badge") then false
    else if Contains(alt, "logo") || Contains(alt, "icon") || Contains(src, "/icon") then false
    else if Contains(alt, "badge") || alt == "tipels" then false
    else if Width(img) < 200 then false
    else if Contains(src, "screenshot") || Contains(alt, "screenshot") then true
    else if Contains(src, "/docs/") || Contains(src, "/assets/screenshots/") then true
    else Width(img) > 400
  }

  /** The name-based exclusions, on the lower-cased `src` and `alt`. */
  predicate ExclusionHit(src: string, alt: string)
  {
    var s := Lower(src);
    var a := Lower(alt);
    Contains(s, "shields.io") || Contains(s, "badge") || Contains(s, "/icon")
    || Contains(a, "logo") || Contains(a, "icon") || Contains(a, "badge") || a == "tipels"
  }

  /** The name-based inclusions. */
  predicate NamedScreenshot(src: string, alt: string)
  {
    var s := Lower(src);
    Contains(s, "screenshot") || Contains(Lower(alt), "screenshot")
    || Contains(s, "/docs/") || Contains(s, "/assets/screenshots/")
  }

  /** The filter as one statement: no exclusion hit, a width of at least
      200, and either a screenshot name or a width above 400. */
  lemma {:induction false} ScreenshotRule(img: Img)
    ensures IsScreenshot(img) <==>
              && !ExclusionHit(img.src, img.alt)
              && Width(img) >= 200
              && (NamedScreenshot(img.src, img.alt) || Width(img) > 400)
  {
  }

  /** An exclusion hit rules an image out whatever its width. */
  lemma {:induction false} ExclusionWins(src: string, alt: string, width: Option<string>)
    requires ExclusionHit(src, alt)
    ensures !IsScreenshot(Img(src, alt, width))
  {
    ScreenshotRule(Img(src, alt, width));
  }

  /** An image without a width attribute and without an exclusion hit is
      taken, whatever its name. */
  lemma {:induction false} NoWidthIncluded(src: string, alt: string)
    requires !ExclusionHit(src, alt)
    ensures IsScreenshot(Img(src, alt, None))
  {
    ScreenshotRule(Img(src, alt, None));
  }

  lemma {:induction false} LowerIdempotent(s: string)
    ensures Lower(Lower(s)) == Lower(s)
  {
    forall i | 0 <= i < |s| ensures Lower(Lower(s))[i] == Lower(s)[i] {
      assert LowerChar(LowerChar(s[i])) == LowerChar(s[i]);
    }
  }

  /** The filter ignores letter case in `src` and `alt`. */
  lemma {:induction false} CaseBlind(img: Img)
    ensures IsScreenshot(img) == IsScreenshot(Img(Lower(img.src), Lower(img.alt), img.width))
  {
    LowerIdempotent(img.src);
    LowerIdempotent(img.alt);
  }

  /** `Array.from(images).filter(...)`. */
  function Screenshots(imgs: seq<Img>): (r: seq<Img>)
    ensures |r| <= |imgs|
    ensures forall x :: x in r <==> x in imgs && IsScreenshot(x)
    decreases |imgs|
  {
    if |imgs| == 0 then []
    else (if IsScreenshot(imgs[0]) then [imgs[0]] else []) + Screenshots(imgs[1..])
  }

  /** The filter keeps README order: filtering a concatenation filters
      each part. */
  lemma {:induction false} ScreenshotsConcat(a: seq<Img>, b: seq<Img>)
    ensures Screenshots(a + b) == Screenshots(a) + Screenshots(b)
    decreases |a|
  {
    if |a| > 0 {
      assert (a + b)[0] == a[0] && (a + b)[1..] == a[1..] + b;
      ScreenshotsConcat(a[1..], b);
    } else {
      assert a + b == b;
    }
  }

  /** One gallery entry: the image source and the alt text used both as
      `alt` and as the caption. */
  datatype Figure = Figure(src: string, caption: string)

  datatype Gallery = Hidden | Shown(figures: seq<Figure>)

  function FigureOf(img: Img): (f: Figure)
    ensures f.src == img.src && f.caption != ""
    ensures img.alt != "" ==> f.caption == img.alt
    ensures img.alt == "" ==> f.caption == "Screenshot"
  {
    Figure(img.src, if img.alt == "" then "Screenshot" else img.alt)
  }

  /** The end of `extractScreenshots`: the section is hidden when the grid is
      missing or nothing passed the filter; otherwise one figure per
      screenshot, in order. */
  function ShowScreenshots(grid: bool, imgs: seq<Img>): (g: Gallery)
    ensures g.Hidden? <==> !grid || |Screenshots(imgs)| == 0
    ensures g.Shown? ==> (&& |g.figures| == |Screenshots(imgs)|
                          && forall i :: 0 <= i < |g.figures| ==> g.figures[i] == FigureOf(Screenshots(imgs)[i]))
  {
    var shots := Screenshots(imgs);
    if !grid || |shots| == 0 then Hidden
    else Shown(seq(|shots|, i requires 0 <= i < |shots| => FigureOf(shots[i])))
  }

  // ---------------------------------------------------------------------
  // The cached release of `loadLatestRelease`.

  /** `this.repo.split('/')[1].toLowerCase()`; without a `/` the index is
      `undefined`, the call throws and the cache is skipped. */
  function ProjectId(repo: string): (r: Option<string>)
    ensures r.Some? <==> '/' in repo
  {
    var parts := Split(repo, "/");
    if |parts| > 1 then
      assert '/' in repo by {
        if '/' !in repo {
          SplitAbsent(repo, '/');
        }
      }
      Some(Lower(parts[1]))
    else
      assert '/' !in repo by {
        if '/' in repo {
          var k :| 0 <= k < |repo| && repo[k] == '/';
          assert OccursAt(repo, "/", k) by { assert repo[k..k + 1] == "/"; }
        }
      }
      None
  }

  /** For `owner/name` the id is the lower-cased name. */
  lemma {:induction false} ProjectIdOf(owner: string, name: string)
    requires '/' !in owner && '/' !in name
    ensures ProjectId(owner + "/" + name) == Some(Lower(name))
  {
    SplitAtChar(owner, '/', name);
    SplitAbsent(name, '/');
  }

  /** The release in the shape the GitHub API uses, rebuilt from the cached
      camelCase fields. */
  function RestoredRelease(r: ProjectCache.Release): (m: map<string, Option<Json>>)
    ensures forall k :: k in m <==> k in ProjectCache.ReleaseKeys
  {
    map["tag_name" := r.tagName, "name" := r.name, "body" := r.body,
        "published_at" := r.publishedAt, "html_url" := r.htmlUrl]
  }

  /** Caching a release and restoring it gives back every release field of
      the original body. */
  lemma {:induction false} ReleaseRoundTrip(j: Json)
    ensures forall i :: 0 <= i < 5 ==>
              RestoredRelease(ProjectCache.ReleaseOf(j))[ProjectCache.ReleaseKeys[i]] == Member(j, ProjectCache.ReleaseKeys[i])
  {
    ProjectCache.ReleaseOfFields(j);
  }

  /** The release read from the cache file of the project, if the id can be
      derived, the file is there and it holds a release; otherwise the page
      asks the API. */
  function CachedRelease(repo: string, file: string -> Option<ProjectCache.Cache>): (r: Option<map<string, Option<Json>>>)
    ensures r.Some? ==> (&& ProjectId(repo).Some?
                         && file(ProjectCache.CachePath(ProjectId(repo).value)).Some?
                         && file(ProjectCache.CachePath(ProjectId(repo).value)).value.latestRelease.Some?)
  {
    match ProjectId(repo)
    case None => None
    case Some(id) =>
      match file(ProjectCache.CachePath(id))
      case None => None
      case Some(c) => if c.latestRelease.Some? then Some(RestoredRelease(c.latestRelease.value)) else None
  }

  /** What the build stores the page reads back: for a project `owner/name`
      whose id is the lower-cased name, a snapshot written with a release
      gives the page the release fields of the body GitHub sent. */
  lemma {:induction false} BuildThenPage(owner: string, name: string, p: Pages.Project, now: string,
                                         fetch: string -> Response, parse: string -> Option<Json>,
                                         marked: string -> string)
    requires '/' !in owner && '/' !in name && p.repo == owner + "/" + name && p.id == Lower(name)
    requires ProjectCache.BuildProjectCache(p, now, fetch, parse, marked, true).cache.Some?
    requires ProjectCache.BuildProjectCache(p, now, fetch, parse, marked, true).cache.value.latestRelease.Some?
    ensures var b := ProjectCache.BuildProjectCache(p, now, fetch, parse, marked, true);
            var file := (path: string) => if path == b.written.value.0 then Some(b.written.value.1) else None;
            var body := parse(fetch(ReleaseUrl(p.repo)).text).value;
            && CachedRelease(p.repo, file).Some?
            && forall i :: 0 <= i < 5 ==>
                 CachedRelease(p.repo, file).value[ProjectCache.ReleaseKeys[i]] == Member(body, ProjectCache.ReleaseKeys[i])
  {
    ProjectIdOf(owner, name);
    var b := ProjectCache.BuildProjectCache(p, now, fetch, parse, marked, true);
    var body := parse(fetch(ReleaseUrl(p.repo)).text).value;
    ProjectCache.SnapshotFields(p, now, fetch, parse, marked, true);
    var file := (path: string) => if path == b.written.value.0 then Some(b.written.value.1) else None;
    ReadBack(p.repo, p.id, b.cache.value, body, file);
    ReleaseRoundTrip(body);
  }

  /** The page finds the snapshot stored under the project's id and
      restores the release it holds. */
  lemma {:induction false} ReadBack(repo: string, id: string, c: ProjectCache.Cache, body: Json,
                                    file: string -> Option<ProjectCache.Cache>)
    requires ProjectId(repo) == Some(id) && file(ProjectCache.CachePath(id)) == Some(c)
    requires c.latestRelease == Some(ProjectCache.ReleaseOf(body))
    ensures CachedRelease(repo, file) == Some(RestoredRelease(ProjectCache.ReleaseOf(body)))
  {
  }
}
