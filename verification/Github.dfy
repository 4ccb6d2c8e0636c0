/** The per-repository side of main.go: turning a branch-list URI template into
    a URL, interpreting the service's answer, and building the Repository
    result that one fetch unit sends to the collector. */
module Github {
  import opened Types

  /** strings.Index with a one-character needle: the position of the first
      `c` in `s`, or -1 when `s` has none. Positions count characters, where
      Go counts bytes; the prefix before the position is the same text. */
  function IndexOf(s: string, c: char): (i: int)
    ensures -1 <= i < |s|
    ensures i == -1 <==> c !in s
    ensures 0 <= i ==> s[i] == c && c !in s[..i]
  {
    if s == [] then -1
    else if s[0] == c then 0
    else
      var k := IndexOf(s[1..], c);
      if k == -1 then -1
      else
        assert s[..k + 1] == [s[0]] + s[1..][..k];
        k + 1
  }

  /** The first `c` in `p + [c] + rest` is the one right after `p` when `p` has none. */
  lemma {:induction false} IndexOfAfterPrefix(p: string, c: char, rest: string)
    requires c !in p
    ensures IndexOf(p + [c] + rest, c) == |p|
  {
    var s := p + [c] + rest;
    if p != [] {
      assert s[0] == p[0] && s[1..] == p[1..] + [c] + rest;
      IndexOfAfterPrefix(p[1..], c, rest);
    }
  }

  /** prepareBranchURL (main.go:128-130): cut a URI template at its first `{`.
      Without a `{`, strings.Index gives -1 and the slice panics, so callers
      must supply one. The result is the part of `url` before its first `{`. */
  function PrepareBranchURL(url: string): (r: string)
    requires '{' in url
    ensures r <= url && |r| < |url| && url[|r|] == '{'
    ensures '{' !in r
  {
    url[..IndexOf(url, '{')]
  }

  /** Cutting `p{rest}` gives back `p` whenever `p` has no `{`: the truncation
      removes exactly the template segment. */
  lemma PrepareBranchURLOfTemplate(p: string, rest: string)
    requires '{' !in p
    ensures '{' in p + "{" + rest
    ensures PrepareBranchURL(p + "{" + rest) == p
  {
    IndexOfAfterPrefix(p, '{', rest);
    assert (p + "{" + rest)[|p|] == '{';
    assert (p + "{" + rest)[..|p|] == p;
  }

  /** Putting a `{` back after a truncated URL and truncating again changes nothing. */
  lemma PrepareBranchURLIdempotent(url: string)
    requires '{' in url
    ensures '{' in PrepareBranchURL(url) + "{"
    ensures PrepareBranchURL(PrepareBranchURL(url) + "{") == PrepareBranchURL(url)
  {
    var p := PrepareBranchURL(url);
    PrepareBranchURLOfTemplate(p, "");
    assert p + "{" + "" == p + "{";
  }

  /** The branches_url form the service hands out becomes the plain branch-list URL. */
  lemma PrepareBranchURLExample()
    ensures PrepareBranchURL("https://api.github.com/repos/o/r/branches{/branch}")
         == "https://api.github.com/repos/o/r/branches"
  {
    var p := "https://api.github.com/repos/o/r/branches";
    PrepareBranchURLOfTemplate(p, "/branch}");
    assert p + "{" + "/branch}" == "https://api.github.com/repos/o/r/branches{/branch}";
  }

  /** The status check of handleGithubError (main.go:155-167), with the decoding
      of the error payload taken as an input: nil exactly for status 200;
      otherwise the payload's message, or the decoder's own error when the
      payload does not decode. */
  function HandleGithubError(statusCode: int, errorBody: Decoding<GithubError>): (err: Option<Error>)
    ensures err.None? <==> statusCode == 200
    ensures statusCode != 200 && errorBody.err.Some? ==> err == errorBody.err
    ensures statusCode != 200 && errorBody.err.None? ==>
              err.Some? && err.value.RemoteError? && err.value.Text() == errorBody.value.message
  {
    if statusCode != 200 then
      if errorBody.err.Some? then errorBody.err
      else Some(RemoteError(errorBody.value.message))
    else None
  }

  /** The control flow that fetchBranchesFromGithub (main.go:106-126) and
      getRepositories (main.go:132-153) share once the request is made: the
      list is reported without error exactly when the request went through,
      the status was 200 and the body decoded; before decoding is reached the
      list stays empty. */
  function FetchList<T>(outcome: HttpOutcome<T>): (r: Fetched<T>)
    ensures r.err.None? <==>
              outcome.Received? && outcome.response.statusCode == 200 && outcome.response.listBody.err.None?
    ensures outcome.Received? && outcome.response.statusCode == 200 ==>
              r.items == outcome.response.listBody.value && r.err == outcome.response.listBody.err
    ensures outcome.TransportFailed? ==> r.items == [] && r.err == Some(outcome.err)
    ensures outcome.Received? && outcome.response.statusCode != 200 ==>
              r.items == [] && r.err == HandleGithubError(outcome.response.statusCode, outcome.response.errorBody)
  {
    match outcome
    case TransportFailed(e) => Fetched([], Some(e))
    case Received(response) =>
      var err := HandleGithubError(response.statusCode, response.errorBody);
      if err.Some? then Fetched([], err)
      else Fetched(response.listBody.value, response.listBody.err)
  }

  /** getBranches (main.go:89-104) without the final send on the channel.
      `get` stands for http.Get and the decoders on a given URL. The result
      carries the repository's name, the fetch error exactly when there was
      one, and the names of the fetched branches in order, copied whether or
      not an error occurred. */
  method GetBranches(repository: GithubRepo, get: string -> HttpOutcome<GithubBranch>) returns (repo: Repository)
    requires '{' in repository.branchesURL
    ensures repo.name == repository.name
    ensures var fetched := FetchList(get(PrepareBranchURL(repository.branchesURL)));
            && repo.error == fetched.err
            && |repo.branches| == |fetched.items|
            && forall i :: 0 <= i < |fetched.items| ==> repo.branches[i] == fetched.items[i].name
  {
    repo := Repository(repository.name, [], None);
    var fetched := FetchList(get(PrepareBranchURL(repository.branchesURL)));
    var branches, err := fetched.items, fetched.err;
    if err.Some? {
      repo := repo.(error := err);
    }
    for k := 0 to |branches|
      invariant repo.name == repository.name && repo.error == err
      invariant |repo.branches| == k
      invariant forall i :: 0 <= i < k ==> repo.branches[i] == branches[i].name
    {
      repo := repo.(branches := repo.branches + [branches[k].name]);
    }
  }
}
