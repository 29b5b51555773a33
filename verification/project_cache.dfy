/** `githubFetch` and `buildProjectCache` of build/build.js: one project's
    GitHub data fetched and stored as a JSON snapshot. The network answers
    are a function from URL to response, the JSON parser and `marked` are
    parameters, and whether the file system accepts the write is a flag. */
module ProjectCache {
  import opened Text
  import opened Http
  import ReadmeImages
  import Pages

  /** `githubFetch`: `null` on 404, an error naming status and URL on any
      other failure status, otherwise the parsed body. */
  function GithubFetch(r: Response, url: string, parse: string -> Option<Json>): (o: Outcome<Json>)
    ensures o.Returns? <==> r.Response? && (r.status == 404 || (Ok(r.status) && parse(r.text).Some?))
    ensures r.Response? && r.status == 404 ==> o == Returns(JNull)
    ensures r.Response? && Ok(r.status) && parse(r.text).Some? ==> o == Returns(parse(r.text).value)
    ensures r.Response? && !Ok(r.status) && r.status != 404 ==> o == Throws(ApiError(r.status, url))
  {
    match r
    case Rejected => Throws(NetworkError)
    case Response(status, text) =>
      if !Ok(status) then
        if status == 404 then Returns(JNull) else Throws(ApiError(status, url))
      else
        match parse(text)
        case Some(j) => Returns(j)
        case None => Throws(SyntaxError)
  }

  /** `cache.repoInfo`: fields the body lacks stay undefined. */
  datatype RepoInfo = RepoInfo(
    stars: Option<Json>, forks: Option<Json>, openIssues: Option<Json>,
    description: Option<Json>, homepage: Option<Json>, topics: Option<Json>)

  function RepoInfoOf(j: Json): RepoInfo
  {
    RepoInfo(Member(j, "stargazers_count"), Member(j, "forks_count"), Member(j, "open_issues_count"),
             Member(j, "description"), Member(j, "homepage"), Member(j, "topics"))
  }

  /** `cache.latestRelease`, in camelCase. */
  datatype Release = Release(
    tagName: Option<Json>, name: Option<Json>, body: Option<Json>,
    publishedAt: Option<Json>, htmlUrl: Option<Json>)

  /** The GitHub field each cached release field is read from. */
  const ReleaseKeys: seq<string> := ["tag_name", "name", "body", "published_at", "html_url"]

  function ReleaseOf(j: Json): Release
  {
    Release(Member(j, ReleaseKeys[0]), Member(j, ReleaseKeys[1]), Member(j, ReleaseKeys[2]),
            Member(j, ReleaseKeys[3]), Member(j, ReleaseKeys[4]))
  }

  /** The cached fields of a release, in the order of `ReleaseKeys`. */
  function ReleaseFields(r: Release): seq<Option<Json>>
  {
    [r.tagName, r.name, r.body, r.publishedAt, r.htmlUrl]
  }

  /** Each cached release field holds what the body held under its GitHub
      name. */
  lemma {:induction false} ReleaseOfFields(j: Json)
    ensures forall i :: 0 <= i < 5 ==> ReleaseFields(ReleaseOf(j))[i] == Member(j, ReleaseKeys[i])
  {
  }

  /** The snapshot written to `data/cache/projects/{id}.json`. */
  datatype Cache = Cache(
    repo: string, name: string, description: string, lastUpdate: string,
    repoInfo: Option<RepoInfo>, latestRelease: Option<Release>,
    readmeHtml: Option<string>, changelogHtml: Option<string>, roadmapHtml: Option<string>)

  /** The result of a run: the returned snapshot (`null` is `None`) and the
      file written, if any. */
  datatype Build = Build(cache: Option<Cache>, written: Option<(string, Cache)>)

  function CachePath(id: string): string
  {
    "data/cache/projects/" + id + ".json"
  }

  /** An optional document: only an ok response gives the field, and any
      failure is caught and leaves it out. */
  function RawDoc(r: Response, render: string -> string): (d: Option<string>)
    ensures d.Some? <==> r.Response? && Ok(r.status)
    ensures d.Some? ==> d.value == render(r.text)
  {
    match r
    case Rejected => None
    case Response(status, text) => if Ok(status) then Some(render(text)) else None
  }

  /** The README is rendered after its image targets are made absolute. */
  function ReadmeRender(repo: string, marked: string -> string): string -> string
  {
    t => marked(ReadmeImages.RewriteReadme(t, repo))
  }

  /** The snapshot once both required fetches have returned. */
  function Snapshot(p: Pages.Project, now: string, info: Json, release: Json,
                    fetch: string -> Response, marked: string -> string): Cache
  {
    Cache(p.repo, p.name, p.description, now,
          if Truthy(info) then Some(RepoInfoOf(info)) else None,
          if Truthy(release) then Some(ReleaseOf(release)) else None,
          RawDoc(fetch(ReadmeUrl(p.repo)), ReadmeRender(p.repo, marked)),
          RawDoc(fetch(ContentsUrl(p.repo, "CHANGELOG.md")), marked),
          RawDoc(fetch(ContentsUrl(p.repo, "ROADMAP.md")), marked))
  }

  /** `buildProjectCache`. */
  function BuildProjectCache(p: Pages.Project, now: string, fetch: string -> Response,
                             parse: string -> Option<Json>, marked: string -> string,
                             writeOk: bool): (b: Build)
    ensures b.cache.Some? <==>
              && GithubFetch(fetch(RepoUrl(p.repo)), RepoUrl(p.repo), parse).Returns?
              && GithubFetch(fetch(ReleaseUrl(p.repo)), ReleaseUrl(p.repo), parse).Returns?
              && writeOk
    ensures b.written.Some? <==> b.cache.Some?
    ensures b.written.Some? ==> b.written.value == (CachePath(p.id), b.cache.value)
  {
    match GithubFetch(fetch(RepoUrl(p.repo)), RepoUrl(p.repo), parse)
    case Throws(_) => Build(None, None)
    case Returns(info) =>
      match GithubFetch(fetch(ReleaseUrl(p.repo)), ReleaseUrl(p.repo), parse)
      case Throws(_) => Build(None, None)
      case Returns(release) =>
        var c := Snapshot(p, now, info, release, fetch, marked);
        if writeOk then Build(Some(c), Some((CachePath(p.id), c))) else Build(None, None)
  }

  /** What a stored snapshot holds: the project's own fields, repository
      info and release only when their bodies were truthy (a 404 leaves
      them out), and each document exactly when its response was ok. */
  lemma {:induction false} SnapshotFields(p: Pages.Project, now: string, fetch: string -> Response,
                                          parse: string -> Option<Json>, marked: string -> string, writeOk: bool)
    requires BuildProjectCache(p, now, fetch, parse, marked, writeOk).cache.Some?
    ensures var c := BuildProjectCache(p, now, fetch, parse, marked, writeOk).cache.value;
            var info := fetch(RepoUrl(p.repo));
            var rel := fetch(ReleaseUrl(p.repo));
            var readme := fetch(ReadmeUrl(p.repo));
            && c.repo == p.repo && c.name == p.name && c.description == p.description && c.lastUpdate == now
            && (info.status == 404 ==> c.repoInfo.None?)
            && (rel.status == 404 ==> c.latestRelease.None?)
            && (c.repoInfo.Some? ==> Ok(info.status) && c.repoInfo.value == RepoInfoOf(parse(info.text).value))
            && (c.latestRelease.Some? ==> Ok(rel.status) && c.latestRelease.value == ReleaseOf(parse(rel.text).value))
            && (c.readmeHtml.Some? <==> readme.Response? && Ok(readme.status))
            && (c.readmeHtml.Some? ==> c.readmeHtml.value == marked(ReadmeImages.RewriteReadme(readme.text, p.repo)))
  {
  }

  /** README, CHANGELOG and ROADMAP failures never abort: two runs whose
      network agrees on the repository and release endpoints either both
      store a snapshot or both do not, and their snapshots differ at most in
      the three documents. */
  lemma {:induction false} DocumentsNeverAbort(p: Pages.Project, now: string, f: string -> Response, g: string -> Response,
                                               parse: string -> Option<Json>, marked: string -> string, writeOk: bool)
    requires f(RepoUrl(p.repo)) == g(RepoUrl(p.repo)) && f(ReleaseUrl(p.repo)) == g(ReleaseUrl(p.repo))
    ensures var a := BuildProjectCache(p, now, f, parse, marked, writeOk);
            var b := BuildProjectCache(p, now, g, parse, marked, writeOk);
            && (a.cache.Some? <==> b.cache.Some?)
            && (a.cache.Some? ==> a.cache.value.(readmeHtml := None, changelogHtml := None, roadmapHtml := None)
                                  == b.cache.value.(readmeHtml := None, changelogHtml := None, roadmapHtml := None))
  {
  }

  /** Any failure of the repository or release fetch other than a 404
      returns `null` and writes nothing, so an earlier file stays as it
      was. */
  lemma {:induction false} RequiredFailureAborts(p: Pages.Project, now: string, fetch: string -> Response,
                                                 parse: string -> Option<Json>, marked: string -> string, writeOk: bool)
    requires var r := fetch(RepoUrl(p.repo));
             var l := fetch(ReleaseUrl(p.repo));
             r.Rejected? || (r.Response? && !Ok(r.status) && r.status != 404)
             || l.Rejected? || (l.Response? && !Ok(l.status) && l.status != 404)
    ensures BuildProjectCache(p, now, fetch, parse, marked, writeOk) == Build(None, None)
  {
  }
}
