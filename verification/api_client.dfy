/** The browser's GitHub client (js/github-api.js): a response cache from URL
    to parsed data and the time it was stored, consulted before every
    request. Each call reads the clock twice: `now` when it checks the
    cache and `later` when it stores a response. Base64 decoding is a
    parameter. */
module ApiClient {
  import opened Text
  import opened Http

  /** `CACHE_DURATION`: five minutes, in milliseconds. */
  const CacheDuration: int := 5 * 60 * 1000

  datatype Entry = Entry(data: Json, timestamp: int)

  type Store = map<string, Entry>

  /** The stored entry for `url` is younger than five minutes. */
  predicate Fresh(store: Store, url: string, now: int)
  {
    url in store && now - store[url].timestamp < CacheDuration
  }

  /** The result of a call: what it returned or threw, the store after it,
      and whether it went to the network. */
  datatype Call<T> = Call(out: Outcome<T>, store: Store, requested: bool)

  /** `GitHubAPI.fetch`. */
  function Fetch(store: Store, url: string, now: int, later: int, r: Response,
                 parse: string -> Option<Json>): (c: Call<Json>)
    ensures c.requested <==> !Fresh(store, url, now)
    ensures !c.requested ==> c.out == Returns(store[url].data) && c.store == store
    ensures c.requested && r.Response? && !Ok(r.status) ==>
              c.store == store && c.out == (if r.status == 404 then Returns(JNull) else Throws(StatusError(r.status)))
    ensures c.requested && r.Response? && Ok(r.status) && parse(r.text).Some? ==>
              c.out == Returns(parse(r.text).value) && c.store == store[url := Entry(parse(r.text).value, later)]
    ensures c.requested && (r.Rejected? || (Ok(r.status) && parse(r.text).None?)) ==> c.out.Throws? && c.store == store
  {
    if Fresh(store, url, now) then Call(Returns(store[url].data), store, false)
    else
      match r
      case Rejected => Call(Throws(NetworkError), store, true)
      case Response(status, text) =>
        if !Ok(status) then
          if status == 404 then Call(Returns(JNull), store, true)
          else Call(Throws(StatusError(status)), store, true)
        else
          match parse(text)
          case None => Call(Throws(SyntaxError), store, true)
          case Some(j) => Call(Returns(j), store[url := Entry(j, later)], true)
  }

  /** Entries are never evicted: a call only adds or overwrites. */
  lemma {:induction false} FetchKeepsKeys(store: Store, url: string, now: int, later: int, r: Response,
                                          parse: string -> Option<Json>)
    ensures var c := Fetch(store, url, now, later, r, parse);
            store.Keys <= c.store.Keys && c.store.Keys <= store.Keys + {url}
            && forall u :: u in store && u != url ==> c.store[u] == store[u]
  {
  }

  /** A stored response answers every call for the same URL during the
      next five minutes without a request, and none after that. */
  lemma {:induction false} StoredThenFresh(store: Store, url: string, now: int, later: int, text: string,
                                           parse: string -> Option<Json>, t: int)
    requires !Fresh(store, url, now) && parse(text).Some?
    ensures var c := Fetch(store, url, now, later, Response(200, text), parse);
            Fresh(c.store, url, t) <==> t < later + CacheDuration
  {
  }

  /** A 404 stores nothing, so the next call for the URL goes to the
      network again. */
  lemma {:induction false} NotFoundMissesAgain(store: Store, url: string, now: int, later: int, text: string,
                                               parse: string -> Option<Json>, t: int, r: Response)
    requires !Fresh(store, url, now) && now <= t
    ensures var c := Fetch(store, url, now, later, Response(404, text), parse);
            c.out == Returns(JNull) && Fetch(c.store, url, t, t, r, parse).requested
  {
  }

  function ReleasesUrl(repo: string, perPage: nat): string
  {
    RepoUrl(repo) + "/releases?per_page=" + NatToString(perPage)
  }

  /** `getReadme`: the raw README text, cached under the README URL. It never
      throws: a failure status or a rejected request gives `null` and
      stores nothing. */
  function GetReadme(store: Store, repo: string, now: int, later: int, r: Response): (c: Call<Json>)
    ensures c.out.Returns?
    ensures c.requested <==> !Fresh(store, ReadmeUrl(repo), now)
    ensures c.requested && r.Response? && Ok(r.status) ==>
              c.out.value == JStr(r.text) && c.store == store[ReadmeUrl(repo) := Entry(JStr(r.text), later)]
    ensures c.requested && !(r.Response? && Ok(r.status)) ==> c.out.value == JNull && c.store == store
    ensures !c.requested ==> c.out.value == store[ReadmeUrl(repo)].data && c.store == store
  {
    var key := ReadmeUrl(repo);
    if Fresh(store, key, now) then Call(Returns(store[key].data), store, false)
    else
      match r
      case Rejected => Call(Returns(JNull), store, true)
      case Response(status, text) =>
        if !Ok(status) then Call(Returns(JNull), store, true)
        else Call(Returns(JStr(text)), store[key := Entry(JStr(text), later)], true)
  }

  /** `.replace(/\s/g, '')`. */
  function StripSpaces(s: string): (r: string)
    ensures forall i :: 0 <= i < |r| ==> !IsJsSpace(r[i])
    ensures |r| <= |s|
    decreases |s|
  {
    if |s| == 0 then ""
    else if IsJsSpace(s[0]) then StripSpaces(s[1..])
    else [s[0]] + StripSpaces(s[1..])
  }

  /** Stripping keeps every other character, in order: text without white
      space is unchanged. */
  lemma {:induction false} StripSpacesKeeps(s: string)
    requires forall i :: 0 <= i < |s| ==> !IsJsSpace(s[i])
    ensures StripSpaces(s) == s
    decreases |s|
  {
    if |s| > 0 {
      StripSpacesKeeps(s[1..]);
    }
  }

  /** Stripping is idempotent. */
  lemma {:induction false} StripSpacesIdempotent(s: string)
    ensures StripSpaces(StripSpaces(s)) == StripSpaces(s)
  {
    StripSpacesKeeps(StripSpaces(s));
  }

  /** Stripping distributes over concatenation. */
  lemma {:induction false} StripSpacesConcat(a: string, b: string)
    ensures StripSpaces(a + b) == StripSpaces(a) + StripSpaces(b)
    decreases |a|
  {
    if |a| > 0 {
      assert (a + b)[0] == a[0] && (a + b)[1..] == a[1..] + b;
      StripSpacesConcat(a[1..], b);
    } else {
      assert a + b == b;
    }
  }

  /** `getFileContent`: the decoded `content` of the contents endpoint, or
      `null` (`None`) when the request throws, the body is falsy, its
      `content` is falsy or not a string, or decoding fails. */
  function GetFileContent(store: Store, repo: string, path: string, now: int, later: int, r: Response,
                          parse: string -> Option<Json>, decode: string -> Option<string>): (c: Call<Option<string>>)
    ensures c.out.Returns?
    ensures c.out.value.Some? <==>
              var f := Fetch(store, ContentsUrl(repo, path), now, later, r, parse);
              && f.out.Returns? && Member(f.out.value, "content").Some?
              && Member(f.out.value, "content").value.JStr?
              && Member(f.out.value, "content").value.s != ""
              && decode(StripSpaces(Member(f.out.value, "content").value.s)).Some?
    ensures c.out.value.Some? ==>
              exists text :: Member(Fetch(store, ContentsUrl(repo, path), now, later, r, parse).out.value, "content") == Some(JStr(text))
                             && decode(StripSpaces(text)) == Some(c.out.value.value)
    ensures c.store == Fetch(store, ContentsUrl(repo, path), now, later, r, parse).store
  {
    var f := Fetch(store, ContentsUrl(repo, path), now, later, r, parse);
    var result :=
      match f.out
      case Throws(_) => None
      case Returns(body) =>
        if !Truthy(body) then None
        else
          match Member(body, "content")
          case None => None
          case Some(content) =>
            if !Truthy(content) then None
            else
              match content
              case JStr(text) => decode(StripSpaces(text))
              case _ => None;
    Call(Returns(result), f.store, f.requested)
  }

  /** `getIssueCount`: `open_issues_count` of a truthy body, 0 for a falsy
      one; errors of the request propagate. */
  function GetIssueCount(store: Store, repo: string, now: int, later: int, r: Response,
                         parse: string -> Option<Json>): (c: Call<Option<Json>>)
    ensures var f := Fetch(store, RepoUrl(repo), now, later, r, parse);
            && (c.out.Throws? <==> f.out.Throws?)
            && (f.out.Returns? && !Truthy(f.out.value) ==> c.out == Returns(Some(JNum(0))))
            && (f.out.Returns? && Truthy(f.out.value) ==> c.out == Returns(Member(f.out.value, "open_issues_count")))
            && c.store == f.store
  {
    var f := Fetch(store, RepoUrl(repo), now, later, r, parse);
    match f.out
    case Throws(e) => Call(Throws(e), f.store, f.requested)
    case Returns(info) =>
      Call(Returns(if Truthy(info) then Member(info, "open_issues_count") else Some(JNum(0))), f.store, f.requested)
  }

  /** A repository that is not found has zero open issues. */
  lemma {:induction false} MissingRepoHasNoIssues(store: Store, repo: string, now: int, later: int, text: string,
                                                  parse: string -> Option<Json>)
    requires !Fresh(store, RepoUrl(repo), now)
    ensures GetIssueCount(store, repo, now, later, Response(404, text), parse).out == Returns(Some(JNum(0)))
  {
  }
}
