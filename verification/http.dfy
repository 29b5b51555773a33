/** What the GitHub REST API hands back, shared by the build script and the
    browser client: parsed JSON values, HTTP responses and the endpoint
    URLs both of them use. */
module Http {
  import opened Text

  const GithubApi: string := "https://api.github.com"

  /** A parsed JSON value. Numbers are kept as integers. */
  datatype Json =
    | JNull
    | JBool(b: bool)
    | JNum(n: int)
    | JStr(s: string)
    | JArr(items: seq<Json>)
    | JObj(fields: map<string, Json>)

  /** JavaScript truthiness of a parsed value: `null`, `false`, `0` and `""`
      are falsy; arrays and objects are truthy even when empty. */
  predicate Truthy(j: Json)
  {
    match j
    case JNull => false
    case JBool(b) => b
    case JNum(n) => n != 0
    case JStr(s) => s != ""
    case JArr(_) => true
    case JObj(_) => true
  }

  /** Property access `j.key`; `None` stands for `undefined`. Only objects
      carry the keys the code reads. */
  function Member(j: Json, key: string): (r: Option<Json>)
    ensures r.Some? <==> j.JObj? && key in j.fields
    ensures r.Some? ==> r.value == j.fields[key]
  {
    match j
    case JObj(m) => if key in m then Some(m[key]) else None
    case _ => None
  }

  /** A `fetch` that resolved with a status and a body text, or that
      rejected. */
  datatype Response = Response(status: int, text: string) | Rejected

  /** `response.ok`. */
  predicate Ok(status: int)
  {
    200 <= status <= 299
  }

  function RepoUrl(repo: string): string
  {
    GithubApi + "/repos/" + repo
  }

  function ReleaseUrl(repo: string): string
  {
    RepoUrl(repo) + "/releases/latest"
  }

  function ReadmeUrl(repo: string): string
  {
    RepoUrl(repo) + "/readme"
  }

  function ContentsUrl(repo: string, path: string): string
  {
    RepoUrl(repo) + "/contents/" + path
  }

  /** The endpoints of one repository differ from each other whatever its
      name, so answers keyed by URL never get mixed up. */
  lemma {:induction false} EndpointsDistinct(repo: string, path: string)
    ensures RepoUrl(repo) != ReleaseUrl(repo) && RepoUrl(repo) != ReadmeUrl(repo)
    ensures ReleaseUrl(repo) != ReadmeUrl(repo)
    ensures ReleaseUrl(repo) != ContentsUrl(repo, path) && ReadmeUrl(repo) != ContentsUrl(repo, path)
    ensures RepoUrl(repo) != ContentsUrl(repo, path)
  {
    var b := RepoUrl(repo);
    assert |ReleaseUrl(repo)| > |b| && |ReadmeUrl(repo)| > |b| && |ContentsUrl(repo, path)| > |b|;
    assert ReleaseUrl(repo)[|b| + 1] == 'r' && ReadmeUrl(repo)[|b| + 1] == 'r';
    assert ReleaseUrl(repo)[|b| + 3] == 'l' && ReadmeUrl(repo)[|b| + 3] == 'a';
    assert ContentsUrl(repo, path)[|b| + 1] == 'c';
  }
}
