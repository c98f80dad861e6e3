/** The content-API client of src/services/github.js. Every operation is a
    request built from the configuration (repository and token) and a reply;
    the network is the parameter `server`, which answers each request. The
    URL text and the percent-encoding of the path are not modelled: the
    endpoint is kept as a structured value. */
module GitHub {
  import opened Wrappers
  import opened Text
  import Utf8
  import Base64

  /** `b64`: the text's UTF-8 octets in base64. */
  function B64(s: string): string {
    Base64.Encode(Utf8.Encode(s))
  }

  /** `unb64`: `None` where `atob` or `decodeURIComponent` throws. */
  function Unb64(s: string): Option<string> {
    match Base64.Decode(s)
    case None => None
    case Some(bs) => Utf8.Decode(bs)
  }

  /** The headline round trip: every string survives `b64` then `unb64`. */
  lemma Unb64B64(s: string)
    ensures Unb64(B64(s)) == Some(s)
  {
    Base64.DecodeEncode(Utf8.Encode(s));
    Utf8.DecodeEncode(s);
  }

  /** Whatever `unb64` accepts, `b64` encodes back to the same octets that
      `atob` read: the decoder loses nothing. */
  lemma B64Unb64(t: string)
    requires Unb64(t).Some?
    ensures Base64.Decode(B64(Unb64(t).value)) == Base64.Decode(t)
  {
    var bs := Base64.Decode(t).value;
    Utf8.EncodeDecode(bs);
    Base64.DecodeEncode(bs);
  }

  const DefaultBranch := "main"
  const AcceptValue := "application/vnd.github+json"

  /** `{ owner, name, branch }`; an empty string stands for a missing field. */
  datatype Repo = Repo(owner: string, name: string, branch: string)

  /** What the client's two getters return: the repository and the token. */
  datatype Config = Config(repo: Option<Repo>, token: Option<string>)

  /** JavaScript truthiness of a string that may be `null`. */
  predicate Truthy(o: Option<string>) {
    o.Some? && o.value != ""
  }

  /** `x || undefined` for a string that may be missing. */
  function NonEmpty(o: Option<string>): (r: Option<string>)
    ensures r.Some? <==> Truthy(o)
    ensures r.Some? ==> r == o
  {
    if Truthy(o) then o else None
  }

  /** An entry of the recursive tree listing: `{ path, sha, type }`. */
  datatype FileEntry = FileEntry(path: string, sha: string, kind: string)

  datatype Target = Target(owner: string, repo: string, branch: string, path: string)

  /** The reasons an operation throws; the callers never tell them apart. */
  datatype Error =
    | RepoNotConfigured
    | TransportFailed
    | HttpFailed(operation: string)
    | MalformedBody
    | DecodeFailed

  /** `_repoPath`: throws without a repository; the branch falls back to
      `main` when unset, so the target branch is never empty. */
  function RepoPath(repo: Option<Repo>, path: string): (r: Result<Target, Error>)
    ensures r.Err? <==> repo.None?
    ensures r.Err? ==> r.error == RepoNotConfigured
    ensures r.Ok? ==> r.value.branch != ""
    ensures r.Ok? ==> r.value.branch == if repo.value.branch != "" then repo.value.branch else DefaultBranch
    ensures r.Ok? ==> r.value.owner == repo.value.owner && r.value.repo == repo.value.name && r.value.path == path
  {
    match repo
    case None => Err(RepoNotConfigured)
    case Some(rp) =>
      var branch := if rp.branch != "" then rp.branch else DefaultBranch;
      Ok(Target(rp.owner, rp.name, branch, path))
  }

  /** `_headers`: the media type always, the bearer token exactly when the
      token is truthy, nothing else. */
  function Headers(token: Option<string>): (h: map<string, string>)
    ensures "Accept" in h && h["Accept"] == AcceptValue
    ensures "Authorization" in h <==> Truthy(token)
    ensures "Authorization" in h ==> h["Authorization"] == "Bearer " + token.value
    ensures h.Keys <= {"Accept", "Authorization"}
  {
    var h := map["Accept" := AcceptValue];
    if Truthy(token) then h["Authorization" := "Bearer " + token.value] else h
  }

  /** The headers of the two requests that carry a JSON body. */
  function JsonHeaders(token: Option<string>): (h: map<string, string>)
    ensures h.Keys == Headers(token).Keys + {"Content-Type"}
    ensures h["Content-Type"] == "application/json"
    ensures forall k | k in Headers(token) :: h[k] == Headers(token)[k]
  {
    Headers(token)["Content-Type" := "application/json"]
  }

  datatype Method = Get | Put | Delete

  datatype Endpoint =
    | Branches(owner: string, repo: string)
    | Tree(owner: string, repo: string, branch: string)
    | Contents(owner: string, repo: string, path: string, ref: Option<string>)

  /** The JSON bodies; a `None` field is one `JSON.stringify` leaves out. */
  datatype Body =
    | PutBody(message: string, content: string, branch: string, sha: Option<string>)
    | DeleteBody(message: string, sha: Option<string>, branch: string)

  datatype Request = Request(verb: Method, endpoint: Endpoint, headers: map<string, string>, body: Option<Body>)

  /** The outcome of a `fetch`: a rejected promise, or a response with its
      `ok` flag and its JSON body (`None` when `res.json()` fails). */
  datatype Reply<T> = TransportError | Response(ok: bool, body: Option<T>)

  /** An operation's effect: the request sent, if one was, and what it returns. */
  datatype Call<T> = Call(sent: Option<Request>, result: Result<T, Error>)

  /** The shared reply check: any non-OK response throws, with no retry and
      no look at the status; only an OK response with a JSON body succeeds. */
  function Receive<T>(reply: Reply<T>, operation: string): (r: Result<T, Error>)
    ensures r.Ok? <==> reply.Response? && reply.ok && reply.body.Some?
    ensures r.Ok? ==> r.value == reply.body.value
    ensures reply.Response? && !reply.ok ==> r == Err(HttpFailed(operation))
  {
    match reply
    case TransportError => Err(TransportFailed)
    case Response(ok, body) =>
      if !ok then Err(HttpFailed(operation))
      else if body.None? then Err(MalformedBody)
      else Ok(body.value)
  }

  datatype BranchInfo = BranchInfo(name: string)

  function Names(bs: seq<BranchInfo>): (r: seq<string>)
    ensures |r| == |bs| && forall k | 0 <= k < |bs| :: r[k] == bs[k].name
  {
    if bs == [] then [] else [bs[0].name] + Names(bs[1..])
  }

  /** `listBranches`: the branch names, in the server's order. */
  function ListBranches(cfg: Config, server: Request -> Reply<seq<BranchInfo>>): (c: Call<seq<string>>)
    ensures c.sent.None? <==> cfg.repo.None?
    ensures c.sent.Some? ==> (c.sent.value.verb == Get && c.sent.value.body.None?
      && c.sent.value.endpoint == Branches(cfg.repo.value.owner, cfg.repo.value.name)
      && c.sent.value.headers == Headers(cfg.token))
    ensures c.result.Ok? <==> c.sent.Some? && Receive(server(c.sent.value), "").Ok?
    ensures c.result.Ok? ==> c.result.value == Names(server(c.sent.value).body.value)
  {
    match RepoPath(cfg.repo, "")
    case Err(e) => Call(None, Err(e))
    case Ok(t) =>
      var req := Request(Get, Branches(t.owner, t.repo), Headers(cfg.token), None);
      match Receive(server(req), "GitHub branches failed")
      case Err(e) => Call(Some(req), Err(e))
      case Ok(data) => Call(Some(req), Ok(Names(data)))
  }

  /** `listRepoTree`: the recursive listing of the configured (or default) branch. */
  function ListRepoTree(cfg: Config, server: Request -> Reply<seq<FileEntry>>): (c: Call<seq<FileEntry>>)
    ensures c.sent.None? <==> cfg.repo.None?
    ensures c.sent.Some? ==> (c.sent.value.verb == Get && c.sent.value.body.None?
      && c.sent.value.endpoint == Tree(cfg.repo.value.owner, cfg.repo.value.name, RepoPath(cfg.repo, "").value.branch)
      && c.sent.value.headers == Headers(cfg.token))
    ensures c.result.Ok? <==> c.sent.Some? && Receive(server(c.sent.value), "GitHub tree failed").Ok?
    ensures c.result.Ok? ==> c.result.value == server(c.sent.value).body.value
  {
    match RepoPath(cfg.repo, "")
    case Err(e) => Call(None, Err(e))
    case Ok(t) =>
      var req := Request(Get, Tree(t.owner, t.repo, t.branch), Headers(cfg.token), None);
      Call(Some(req), Receive(server(req), "GitHub tree failed"))
  }

  /** The JSON of a contents response: base64 text (wrapped with newlines by
      the server) and the blob's sha. */
  datatype FilePayload = FilePayload(content: Option<string>, sha: Option<string>)

  datatype FileData = FileData(content: string, sha: Option<string>)

  function RemoveNewlines(s: string): (r: string)
    ensures '\n' !in r
    ensures '\n' !in s ==> r == s
  {
    if s == [] then []
    else if s[0] == '\n' then RemoveNewlines(s[1..])
    else [s[0]] + RemoveNewlines(s[1..])
  }

  /** The decoding step of `getFile`: an absent or empty payload is the empty
      text; otherwise every newline is removed before `unb64`. */
  function DecodePayload(p: FilePayload): (r: Result<FileData, Error>)
    ensures r.Ok? ==> r.value.sha == p.sha
    ensures p.content.None? || p.content.value == "" ==> r == Ok(FileData("", p.sha))
    ensures r.Err? ==> r.error == DecodeFailed
  {
    if p.content.None? || p.content.value == "" then Ok(FileData("", p.sha))
    else
      match Unb64(RemoveNewlines(p.content.value))
      case None => Err(DecodeFailed)
      case Some(s) => Ok(FileData(s, p.sha))
  }

  /** Reading back what was written: a payload whose text is `b64(s)`, with
      line breaks inserted anywhere, decodes to exactly `s`. */
  lemma DecodePayloadOfB64(s: string, wrapped: string, sha: Option<string>)
    requires RemoveNewlines(wrapped) == B64(s)
    ensures DecodePayload(FilePayload(Some(wrapped), sha)) == Ok(FileData(s, sha))
  {
    Unb64B64(s);
  }

  /** `getFile`: reads the path at the configured branch. */
  function GetFile(cfg: Config, path: string, server: Request -> Reply<FilePayload>): (c: Call<FileData>)
    ensures c.sent.None? <==> cfg.repo.None?
    ensures c.sent.Some? ==> (c.sent.value.verb == Get && c.sent.value.body.None?
      && c.sent.value.endpoint == Contents(cfg.repo.value.owner, cfg.repo.value.name, path, Some(RepoPath(cfg.repo, path).value.branch))
      && c.sent.value.headers == Headers(cfg.token))
    ensures c.result.Ok? ==> c.sent.Some? && Receive(server(c.sent.value), "").Ok?
    ensures c.sent.Some? && Receive(server(c.sent.value), "").Ok? ==>
      c.result == DecodePayload(server(c.sent.value).body.value)
    ensures c.sent.Some? && server(c.sent.value).Response? && !server(c.sent.value).ok ==>
      c.result == Err(HttpFailed("GitHub get file failed"))
  {
    match RepoPath(cfg.repo, path)
    case Err(e) => Call(None, Err(e))
    case Ok(t) =>
      var req := Request(Get, Contents(t.owner, t.repo, path, Some(t.branch)), Headers(cfg.token), None);
      match Receive(server(req), "GitHub get file failed")
      case Err(e) => Call(Some(req), Err(e))
      case Ok(data) => Call(Some(req), DecodePayload(data))
  }

  /** The request of `upsertFile`: the content goes out unchanged when it is
      already base64, through `b64` otherwise; the sha only when truthy; the
      branch always. */
  function UpsertRequest(cfg: Config, path: string, content: string, sha: Option<string>,
                         message: string, isBase64: bool): (r: Result<Request, Error>)
    ensures r.Err? <==> cfg.repo.None?
    ensures r.Ok? ==> (r.value.verb == Put && r.value.headers == JsonHeaders(cfg.token)
      && r.value.endpoint == Contents(cfg.repo.value.owner, cfg.repo.value.name, path, None)
      && r.value.body.Some? && r.value.body.value.PutBody?)
    ensures r.Ok? ==> var b := r.value.body.value;
      && b.message == message
      && b.content == (if isBase64 then content else B64(content))
      && b.branch == RepoPath(cfg.repo, path).value.branch
      && (b.sha.Some? <==> Truthy(sha))
      && (b.sha.Some? ==> b.sha == sha)
  {
    match RepoPath(cfg.repo, path)
    case Err(e) => Err(e)
    case Ok(t) =>
      var body := PutBody(message, if isBase64 then content else B64(content), t.branch, NonEmpty(sha));
      Ok(Request(Put, Contents(t.owner, t.repo, path, None), JsonHeaders(cfg.token), Some(body)))
  }

  /** `upsertFile`; the reply's JSON is reduced to `content.sha`, the new sha. */
  function UpsertFile(cfg: Config, path: string, content: string, sha: Option<string>,
                      message: string, isBase64: bool, server: Request -> Reply<string>): (c: Call<string>)
    ensures c.sent.None? <==> cfg.repo.None?
    ensures c.sent.Some? ==> c.sent == Some(UpsertRequest(cfg, path, content, sha, message, isBase64).value)
    ensures c.result.Ok? <==> c.sent.Some? && Receive(server(c.sent.value), "").Ok?
    ensures c.result.Ok? ==> c.result.value == server(c.sent.value).body.value
  {
    match UpsertRequest(cfg, path, content, sha, message, isBase64)
    case Err(e) => Call(None, Err(e))
    case Ok(req) => Call(Some(req), Receive(server(req), "GitHub upsert failed"))
  }

  /** What a text note put by `upsertFile` reads back as through `getFile`,
      whatever line wrapping the server adds to the base64. */
  lemma WriteThenRead(cfg: Config, path: string, s: string, sha: Option<string>, message: string,
                      served: string, newSha: Option<string>)
    requires cfg.repo.Some?
    requires RemoveNewlines(served) == UpsertRequest(cfg, path, s, sha, message, false).value.body.value.content
    ensures DecodePayload(FilePayload(Some(served), newSha)) == Ok(FileData(s, newSha))
  {
    DecodePayloadOfB64(s, served, newSha);
  }

  /** The request of `deleteFile`: its body is exactly message, sha, branch. */
  function DeleteRequest(cfg: Config, path: string, sha: Option<string>, message: string): (r: Result<Request, Error>)
    ensures r.Err? <==> cfg.repo.None?
    ensures r.Ok? ==> (r.value.verb == Delete && r.value.headers == JsonHeaders(cfg.token)
      && r.value.endpoint == Contents(cfg.repo.value.owner, cfg.repo.value.name, path, None)
      && r.value.body == Some(DeleteBody(message, sha, RepoPath(cfg.repo, path).value.branch)))
  {
    match RepoPath(cfg.repo, path)
    case Err(e) => Err(e)
    case Ok(t) =>
      Ok(Request(Delete, Contents(t.owner, t.repo, path, None), JsonHeaders(cfg.token), Some(DeleteBody(message, sha, t.branch))))
  }

  /** `deleteFile`; the reply's JSON is not used by any caller. */
  function DeleteFile(cfg: Config, path: string, sha: Option<string>, message: string,
                      server: Request -> Reply<()>): (c: Call<()>)
    ensures c.sent.None? <==> cfg.repo.None?
    ensures c.sent.Some? ==> c.sent == Some(DeleteRequest(cfg, path, sha, message).value)
    ensures c.result.Ok? <==> c.sent.Some? && Receive(server(c.sent.value), "").Ok?
  {
    match DeleteRequest(cfg, path, sha, message)
    case Err(e) => Call(None, Err(e))
    case Ok(req) => Call(Some(req), Receive(server(req), "GitHub delete failed"))
  }
}
