/** Values handled by the branch-statistics tool (main.go): the records decoded
    from the hosting service, the per-repository result sent to the collector,
    and abstract stand-ins for what the network and the JSON decoder produce. */
module Types {

  datatype Option<+T> = None | Some(value: T)

  /** A Go `error` value as main.go can meet it. Go only distinguishes nil from
      non-nil; the variants record where the error came from. */
  datatype Error =
    | TransportError(reason: string)  // http.Get failed
    | RemoteError(message: string)    // errors.New(githubError.Message)
    | DecodeError(reason: string)     // the JSON decoder failed
  {
    /** The text `Error()` returns. */
    function Text(): string {
      match this
      case TransportError(r) => r
      case RemoteError(m) => m
      case DecodeError(r) => r
    }
  }

  /** GithubRepo (main.go:15-18): a repository as listed by the service. */
  datatype GithubRepo = GithubRepo(name: string, branchesURL: string)

  /** GithubBranch (main.go:21-23). */
  datatype GithubBranch = GithubBranch(name: string)

  /** GithubError (main.go:26-28): the service's error payload. */
  datatype GithubError = GithubError(message: string)

  /** Repository (main.go:31-35): the result built for one repository and
      sent to the collector; `error` is `None` for Go's nil. */
  datatype Repository = Repository(name: string, branches: seq<string>, error: Option<Error>)

  /** What `json.NewDecoder(body).Decode(&target)` leaves behind: the value in
      the target (possibly partial when decoding fails) and the error it returned. */
  datatype Decoding<T> = Decoding(value: T, err: Option<Error>)

  /** A response as far as main.go looks at it: the status code, and what
      decoding the body would give either as an error payload or as a list. */
  datatype Response<T> = Response(statusCode: int, errorBody: Decoding<GithubError>, listBody: Decoding<seq<T>>)

  /** The outcome of `http.Get`. */
  datatype HttpOutcome<T> = TransportFailed(err: Error) | Received(response: Response<T>)

  /** The pair `(list, error)` returned by fetchBranchesFromGithub and getRepositories. */
  datatype Fetched<T> = Fetched(items: seq<T>, err: Option<Error>)
}
