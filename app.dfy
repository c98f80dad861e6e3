/** The controller of src/app.js: the shared `state` object and the event
    handlers that move a note between the editor, the browser session and
    the repository. Each handler is a method of `NotesApp` proved against a
    function of the state before it; prompts and confirmations are
    parameters, every server is a function from request to reply, and the
    DOM updates are left out. */
module App {
  import opened Wrappers
  import opened Text
  import opened GitHub
  import opened Search
  import opened Storage
  import Images
  import Tags
  import Base64

  /** The state `bootstrap` starts from, before the session is restored. */
  const Initial := AppState(None, None, [], None, "", false, None, Some([]), None)

  /** `Object.assign(state, saved)`: the stored fields overwrite the state. */
  function Restore(st: AppState, saved: Option<Snapshot>): (r: AppState)
    ensures saved.None? ==> r == st
    ensures saved.Some? ==> (
      && r.repo == saved.value.repo && r.token == saved.value.token
      && r.activePath == saved.value.activePath && r.content == saved.value.content
      && r.tags == Some(saved.value.tags)
      && r.files == st.files && r.dirty == st.dirty && r.activeSha == st.activeSha
      && r.searchIndex == st.searchIndex)
  {
    match saved
    case None => st
    case Some(s) => st.(repo := s.repo, token := s.token, activePath := s.activePath, content := s.content, tags := Some(s.tags))
  }

  /** A reload brings back the repository, the open path and the text; the
      token only when it was saved with `includeToken` and non-empty. */
  lemma ReloadAfterSave(st: AppState, includeToken: bool)
    ensures var r := Restore(Initial, Load(Stored(Minimal(st, includeToken))));
      && r.repo == st.repo && r.activePath == st.activePath && r.content == st.content
      && (r.token.Some? <==> includeToken && Truthy(st.token))
      && (r.token.Some? ==> r.token == st.token)
      && !r.dirty
  {
  }

  // ---------------------------------------------------------------------
  // Settings dialog

  /** The fields of the settings dialog as typed. */
  datatype SettingsForm = SettingsForm(owner: string, repo: string, branch: string, token: string, remember: bool)

  /** The settings save: the fields are trimmed; a missing owner or
      repository is refused; the branch falls back to `main`; an empty
      token becomes `null`. */
  function ApplySettings(st: AppState, form: SettingsForm): (r: Option<AppState>)
    ensures r.None? <==> Trim(form.owner) == "" || Trim(form.repo) == ""
    ensures r.Some? ==> (
      && r.value.repo.Some?
      && r.value.repo.value.owner == Trim(form.owner) && r.value.repo.value.name == Trim(form.repo)
      && r.value.repo.value.branch != ""
      && (Trim(form.branch) != "" ==> r.value.repo.value.branch == Trim(form.branch))
      && (Trim(form.branch) == "" ==> r.value.repo.value.branch == DefaultBranch)
      && (r.value.token.Some? <==> Trim(form.token) != "")
      && (r.value.token.Some? ==> r.value.token.value == Trim(form.token))
      && r.value.(repo := st.repo, token := st.token) == st)
  {
    var owner, repo, token := Trim(form.owner), Trim(form.repo), Trim(form.token);
    var branch := if Trim(form.branch) != "" then Trim(form.branch) else DefaultBranch;
    if owner == "" || repo == "" then None
    else Some(st.(repo := Some(Repo(owner, repo, branch)), token := if token != "" then Some(token) else None))
  }

  /** The repository test that guards a save. */
  predicate RepoReady(st: AppState) {
    st.repo.Some? && st.repo.value.owner != "" && st.repo.value.name != "" && Truthy(st.token)
  }

  /** Accepted settings let a save through exactly when a token was given. */
  lemma SettingsEnableSave(st: AppState, form: SettingsForm)
    requires ApplySettings(st, form).Some?
    ensures RepoReady(ApplySettings(st, form).value) <==> Trim(form.token) != ""
  {
  }

  // ---------------------------------------------------------------------
  // The file list

  /** The `type` app.js:191 keeps, and the one the git trees API gives a file. */
  const WrittenKind := "file"
  const BlobKind := "blob"

  /** The filter of `renderFileList` for notes of type `kind`: Markdown files
      first, then the active tag when it is truthy, then the search query
      (trimmed and lower-cased by `lower`) when it is not empty. */
  function VisibleFiles(files: seq<FileEntry>, kind: string, tag: Option<string>, ix: Option<SearchIndex>,
                        query: string, lower: string -> string): (r: seq<FileEntry>)
    ensures IsSubsequence(r, files)
    ensures forall f :: f in r <==> (
      && f in files && f.kind == kind && EndsWith(f.path, ".md")
      && (Truthy(tag) ==> tag.value in Tags.GetTagsForFile(ix, f.path))
      && (lower(Trim(query)) != "" ==> Matches(ix, lower(Trim(query)), lower, f)))
  {
    var q := lower(Trim(query));
    var isNote := (f: FileEntry) => f.kind == kind && EndsWith(f.path, ".md");
    var hasTag := (f: FileEntry) => Tagged(ix, tag, f);
    var notes := Keep(files, isNote);
    KeepIsSubsequence(files, isNote);
    var tagged := if Truthy(tag) then Keep(notes, hasTag) else notes;
    KeepIsSubsequence(notes, hasTag);
    SubsequenceRefl(notes);
    SubsequenceTrans(tagged, notes, files);
    var shown := if q != "" then FilterFiles(ix, tagged, q, lower) else tagged;
    SubsequenceRefl(tagged);
    SubsequenceTrans(shown, tagged, files);
    shown
  }

  /** `fileHasTag` for an active tag `tag`. */
  predicate Tagged(ix: Option<SearchIndex>, tag: Option<string>, f: FileEntry) {
    tag.Some? && tag.value in Tags.GetTagsForFile(ix, f.path)
  }

  lemma {:induction false} SubsequenceTrans<T>(xs: seq<T>, ys: seq<T>, zs: seq<T>)
    requires IsSubsequence(xs, ys) && IsSubsequence(ys, zs)
    ensures IsSubsequence(xs, zs)
    decreases |zs|
  {
    if xs != [] {
      if ys[0] == zs[0] {
        if xs[0] == ys[0] {
          SubsequenceTrans(xs[1..], ys[1..], zs[1..]);
        } else {
          SubsequenceTrans(xs, ys[1..], zs[1..]);
          SubsequenceOfTail(xs, zs);
        }
      } else {
        SubsequenceTrans(xs, ys, zs[1..]);
        SubsequenceOfTail(xs, zs);
      }
    }
  }

  lemma {:induction false} SubsequenceRefl<T>(xs: seq<T>)
    ensures IsSubsequence(xs, xs)
  {
    if xs != [] {
      SubsequenceRefl(xs[1..]);
    }
  }

  /** As written, the filter keeps entries of type `file`; the recursive
      git trees listing types a file `blob` (a directory `tree`, a
      submodule `commit`), so no entry of a real listing is ever shown. */
  lemma FileKindHidesTree(files: seq<FileEntry>, tag: Option<string>, ix: Option<SearchIndex>,
                          query: string, lower: string -> string)
    requires forall k | 0 <= k < |files| :: files[k].kind in {"blob", "tree", "commit"}
    ensures VisibleFiles(files, WrittenKind, tag, ix, query, lower) == []
  {
    assert forall f | f in files :: f.kind != WrittenKind;
  }

  /** With the kind a listing actually uses, every Markdown blob is shown
      while no tag is active and the query is blank, in listing order. */
  lemma BlobKindListsNotes(files: seq<FileEntry>, ix: Option<SearchIndex>, query: string, lower: string -> string)
    requires lower(Trim(query)) == ""
    ensures var r := VisibleFiles(files, BlobKind, None, ix, query, lower);
      && IsSubsequence(r, files)
      && forall k | 0 <= k < |files| && files[k].kind == BlobKind && EndsWith(files[k].path, ".md") :: files[k] in r
  {
  }

  // ---------------------------------------------------------------------
  // Opening a note

  /** The outcome of `onSelectFile`: the request sent, the new state, and
      whether the session was saved (the `finally` clause). */
  datatype Opened = Opened(sent: Option<Request>, state: AppState, stored: bool)

  function OpenNote(st: AppState, path: string, confirmDiscard: bool, server: Request -> Reply<FilePayload>): (o: Opened)
    ensures o.stored <==> !st.dirty || confirmDiscard
    ensures !o.stored ==> o.sent.None? && o.state == st
    ensures o.stored ==> o.sent == GetFile(Config(st.repo, st.token), path, server).sent
    ensures o.state != st ==> (
      && o.stored && o.state.activePath == Some(path) && !o.state.dirty
      && GetFile(Config(st.repo, st.token), path, server).result == Ok(FileData(o.state.content, o.state.activeSha)))
    ensures o.state.(activePath := st.activePath, content := st.content, dirty := st.dirty, activeSha := st.activeSha) == st
    ensures st.dirty && o.state.content != st.content ==> confirmDiscard
    ensures o.stored ==> var c := GetFile(Config(st.repo, st.token), path, server);
      o.state == if c.result.Ok? then st.(activePath := Some(path), content := c.result.value.content,
                                         dirty := false, activeSha := c.result.value.sha)
                 else st
  {
    if st.dirty && !confirmDiscard then Opened(None, st, false)
    else
      var c := GetFile(Config(st.repo, st.token), path, server);
      match c.result
      case Err(_) => Opened(c.sent, st, true)
      case Ok(data) => Opened(c.sent, st.(activePath := Some(path), content := data.content, dirty := false, activeSha := data.sha), true)
  }

  /** Opening a note the server serves as `b64(s)`, however the base64 is
      wrapped, puts exactly `s` in the editor, clean, with the served sha. */
  lemma OpenReadsWhatWasWritten(st: AppState, path: string, server: Request -> Reply<FilePayload>,
                                s: string, served: string, sha: Option<string>)
    requires st.repo.Some? && !st.dirty
    requires server(GetFile(Config(st.repo, st.token), path, server).sent.value) == Response(true, Some(FilePayload(Some(served), sha)))
    requires RemoveNewlines(served) == B64(s)
    ensures var o := OpenNote(st, path, false, server);
      o.state.content == s && o.state.activeSha == sha && o.state.activePath == Some(path) && !o.state.dirty
  {
    DecodePayloadOfB64(s, served, sha);
  }

  // ---------------------------------------------------------------------
  // Creating a note

  /** The last `/`-separated segment of `name` without a final `.md`. */
  function Title(name: string): string {
    var parts := Split(name, "/");
    var last := parts[|parts| - 1];
    if EndsWith(last, ".md") then last[..|last| - 3] else last
  }

  /** The text of a new note: a level-one heading of its title and a blank line. */
  function Stub(name: string): string {
    "# " + Title(name) + "\n\n"
  }

  lemma TitleOfNestedPath(dir: string, t: string)
    requires '/' !in t
    ensures Title(dir + "/" + t + ".md") == t
  {
    assert dir + "/" + t + ".md" == dir + ['/'] + (t + ".md");
    SplitAppend(dir, '/', t + ".md");
  }

  lemma TitleOfRootPath(t: string)
    requires '/' !in t
    ensures Title(t + ".md") == t
  {
    var s := t + ".md";
    forall i | 0 <= i <= |s| - 1
      ensures !OccursAt(s, "/", i)
    {
      assert s[i..i + 1][0] == s[i];
    }
    SplitAbsent(s, "/");
  }

  /** `onNewFile` as written: a cancelled or empty name and a name not
      ending in `.md` change nothing; otherwise the note becomes active,
      holds its stub and is dirty. `activeSha` keeps its value. */
  function NewNoteAsWritten(st: AppState, name: Option<string>): (r: AppState)
    ensures !Truthy(name) || !EndsWith(name.value, ".md") ==> r == st
    ensures Truthy(name) && EndsWith(name.value, ".md") ==> (
      && r.activePath == name && r.content == Stub(name.value) && r.dirty
      && r.(activePath := st.activePath, content := st.content, dirty := st.dirty) == st)
  {
    if !Truthy(name) || !EndsWith(name.value, ".md") then st
    else st.(activePath := name, content := Stub(name.value), dirty := true)
  }

  /** `onNewFile` with the sha of the previous note dropped, so that the
      first commit creates the file. */
  function NewNote(st: AppState, name: Option<string>): (r: AppState)
    ensures !Truthy(name) || !EndsWith(name.value, ".md") ==> r == st
    ensures Truthy(name) && EndsWith(name.value, ".md") ==> (
      && r.activePath == name && r.content == Stub(name.value) && r.dirty && r.activeSha.None?
      && r.(activePath := st.activePath, content := st.content, dirty := st.dirty, activeSha := st.activeSha) == st)
  {
    var r := NewNoteAsWritten(st, name);
    if !Truthy(name) || !EndsWith(name.value, ".md") then r else r.(activeSha := None)
  }

  // ---------------------------------------------------------------------
  // Saving a note

  const ImageMessage := "Add pasted image"

  /** `split('/').slice(0, -1).join('/')`: the directory of a path, "" at the root. */
  function Dir(path: string): string {
    var parts := Split(path, "/");
    Join(parts[..|parts| - 1], "/")
  }

  /** Where a pending image is uploaded: `assets/` in the note's directory,
      the `.images/` prefix of the placeholder replaced by `assets/`. */
  function AssetPath(note: string, name: string): string {
    var dir := Dir(note);
    (if dir != "" then dir + "/" else "")
    + (if StartsWith(name, ".images/") then "assets/" + name[8..] else "assets/" + name)
  }

  lemma AssetNextToNote(dir: string, file: string, n: string)
    requires dir != "" && '/' !in file
    ensures AssetPath(dir + "/" + file, ".images/" + n) == dir + "/assets/" + n
  {
    assert dir + "/" + file == dir + ['/'] + file;
    SplitAppend(dir, '/', file);
    var parts := Split(dir + "/" + file, "/");
    assert parts[..|parts| - 1] == Split(dir, "/");
    JoinSplit(dir, "/");
    assert (".images/" + n)[8..] == n;
  }

  lemma AssetAtRoot(file: string, n: string)
    requires '/' !in file
    ensures AssetPath(file, ".images/" + n) == "assets/" + n
  {
    forall i | 0 <= i <= |file| - 1
      ensures !OccursAt(file, "/", i)
    {
      assert file[i..i + 1][0] == file[i];
    }
    SplitAbsent(file, "/");
    assert (".images/" + n)[8..] == n;
  }

  /** The upload of one pending image: already base64, no sha. */
  function ImageRequest(cfg: Config, note: string, item: Images.PendingImage): Request
    requires cfg.repo.Some?
  {
    UpsertRequest(cfg, AssetPath(note, item.name), Base64.Encode(item.blob.bytes), None, ImageMessage, true).value
  }

  /** The server takes the request. */
  predicate Accepted<T>(server: Request -> Reply<T>, req: Request) {
    Receive(server(req), "").Ok?
  }

  /** `upsertFile` for one pending image. */
  function UploadImage(cfg: Config, note: string, item: Images.PendingImage, server: Request -> Reply<string>): (c: Call<string>)
    requires cfg.repo.Some?
    ensures c.sent == Some(ImageRequest(cfg, note, item))
    ensures c.result.Ok? <==> Accepted(server, ImageRequest(cfg, note, item))
  {
    UpsertFile(cfg, AssetPath(note, item.name), Base64.Encode(item.blob.bytes), None, ImageMessage, true, server)
  }

  /** The uploads of a queue, one per image, in queue order. */
  function ImageRequests(cfg: Config, note: string, items: seq<Images.PendingImage>): (r: seq<Request>)
    requires cfg.repo.Some?
    ensures |r| == |items|
    ensures forall k | 0 <= k < |items| :: r[k] == ImageRequest(cfg, note, items[k])
  {
    seq(|items|, k requires 0 <= k < |items| => ImageRequest(cfg, note, items[k]))
  }

  datatype Uploaded = Uploaded(sent: seq<Request>, failed: bool)

  /** The upload loop: the requests in order, stopping after the first one
      the server refuses (the `await` throws out of the loop). */
  function SendInOrder(reqs: seq<Request>, server: Request -> Reply<string>): (u: Uploaded)
    ensures |u.sent| <= |reqs|
    ensures !u.failed ==> |u.sent| == |reqs|
    ensures u.failed ==> |u.sent| >= 1
    decreases |reqs|
  {
    if reqs == [] then Uploaded([], false)
    else
      var prev := SendInOrder(reqs[..|reqs| - 1], server);
      if prev.failed then prev
      else Uploaded(prev.sent + [reqs[|reqs| - 1]], !Accepted(server, reqs[|reqs| - 1]))
  }

  /** What is sent is a prefix of the requests, all accepted but possibly
      the last, which is refused exactly when the loop stopped. */
  lemma {:induction false} SendOrder(reqs: seq<Request>, server: Request -> Reply<string>)
    ensures var u := SendInOrder(reqs, server);
      && u.sent == reqs[..|u.sent|]
      && (forall k | 0 <= k < |u.sent| - 1 :: Accepted(server, u.sent[k]))
      && (u.failed ==> !Accepted(server, u.sent[|u.sent| - 1]))
      && (!u.failed ==> forall k | 0 <= k < |reqs| :: Accepted(server, reqs[k]))
    decreases |reqs|
  {
    if reqs != [] {
      var init := reqs[..|reqs| - 1];
      SendOrder(init, server);
      var prev := SendInOrder(init, server);
      assert init[..|prev.sent|] == reqs[..|prev.sent|];
      if !prev.failed {
        assert prev.sent + [reqs[|reqs| - 1]] == reqs;
      }
    }
  }

  /** Once a prefix has failed, the rest is never sent. */
  lemma {:induction false} SendStopsAtFailure(reqs: seq<Request>, server: Request -> Reply<string>, j: nat)
    requires j <= |reqs| && SendInOrder(reqs[..j], server).failed
    ensures SendInOrder(reqs, server) == SendInOrder(reqs[..j], server)
    decreases |reqs|
  {
    if j < |reqs| {
      var init := reqs[..|reqs| - 1];
      assert init[..j] == reqs[..j];
      SendStopsAtFailure(init, server, j);
    } else {
      assert reqs[..j] == reqs;
    }
  }

  datatype Replacement = Replacement(from: string, to: string)

  /** Each placeholder with the path its image was uploaded to. */
  function Replacements(note: string, items: seq<Images.PendingImage>): (r: seq<Replacement>)
    ensures |r| == |items|
    ensures forall k | 0 <= k < |items| :: r[k] == Replacement(items[k].name, AssetPath(note, items[k].name))
  {
    seq(|items|, k requires 0 <= k < |items| => Replacement(items[k].name, AssetPath(note, items[k].name)))
  }

  lemma ReplacementsSnoc(note: string, items: seq<Images.PendingImage>, i: nat)
    requires i < |items|
    ensures Replacements(note, items[..i + 1])
            == Replacements(note, items[..i]) + [Replacement(items[i].name, AssetPath(note, items[i].name))]
  {
  }

  /** `split(from).join(to)` for each replacement in order. */
  function Rewrite(text: string, reps: seq<Replacement>): string
    requires forall k | 0 <= k < |reps| :: reps[k].from != ""
    decreases |reps|
  {
    if reps == [] then text else Rewrite(ReplaceAll(text, reps[0].from, reps[0].to), reps[1..])
  }

  /** Text that mentions no placeholder is committed as it is. */
  lemma {:induction false} RewriteAbsent(text: string, reps: seq<Replacement>)
    requires forall k | 0 <= k < |reps| :: reps[k].from != "" && !Contains(text, reps[k].from)
    ensures Rewrite(text, reps) == text
  {
    if reps != [] {
      ReplaceAbsent(text, reps[0].from, reps[0].to);
      RewriteAbsent(text, reps[1..]);
    }
  }

  /** A placeholder that occurs once is replaced by its asset path, in place. */
  lemma RewriteOne(text: string, i: nat, note: string, item: Images.PendingImage)
    requires item.name != "" && OccursAt(text, item.name, i)
    requires forall j | 0 <= j <= |text| - |item.name| && j != i :: !OccursAt(text, item.name, j)
    ensures Rewrite(text, Replacements(note, [item]))
            == text[..i] + AssetPath(note, item.name) + text[i + |item.name|..]
  {
    ReplaceOnly(text, item.name, AssetPath(note, item.name), i);
  }

  /** A name that starts with a character absent from `pre` and differing
      from its second one occurs in `pre + name + post`, with `post` at
      most one character long, only after `pre`. */
  lemma OnlyAfter(pre: string, name: string, post: string)
    requires |name| >= 2 && name[0] != name[1] && name[0] !in pre && |post| <= 1
    ensures var text := pre + name + post;
      && OccursAt(text, name, |pre|)
      && forall j | 0 <= j <= |text| - |name| && j != |pre| :: !OccursAt(text, name, j)
  {
    var text := pre + name + post;
    assert text[|pre|..|pre| + |name|] == name;
    forall j | 0 <= j <= |text| - |name| && j != |pre|
      ensures !OccursAt(text, name, j)
    {
      assert text[j..j + |name|][0] == text[j];
      if j < |pre| {
        assert text[j] == pre[j];
      } else {
        assert text[j] == name[1];
      }
    }
  }

  /** Images pasted into `notes/idea.md` go to `notes/assets/`. */
  lemma IdeaAssets(file: string)
    ensures AssetPath("notes/idea.md", ".images/" + file) == "notes/assets/" + file
  {
    AssetNextToNote("notes", "idea.md", file);
    assert "notes" + "/" + "idea.md" == "notes/idea.md";
    assert "notes" + "/assets/" + file == "notes/assets/" + file;
  }

  /** Markup closing a text whose earlier part cannot hold the placeholder. */
  lemma RewriteClosingMarkup(pre: string, note: string, item: Images.PendingImage)
    requires |item.name| >= 2 && item.name[0] != item.name[1] && item.name[0] !in pre
    ensures Rewrite(pre + item.name + ")", Replacements(note, [item])) == pre + AssetPath(note, item.name) + ")"
  {
    var text := pre + item.name + ")";
    OnlyAfter(pre, item.name, ")");
    RewriteOne(text, |pre|, note, item);
    assert text[..|pre|] == pre && text[|pre| + |item.name|..] == ")";
  }

  /** The rewrite of the paste-and-save scenario below. */
  lemma PasteRewrite(pre: string, file: string, blob: Images.Blob)
    requires '.' !in pre
    ensures Rewrite(pre + (".images/" + file) + ")", Replacements("notes/idea.md", [Images.PendingImage(".images/" + file, blob)]))
            == pre + ("notes/assets/" + file) + ")"
  {
    var name := ".images/" + file;
    assert name[0] == '.' && name[1] == 'i';
    RewriteClosingMarkup(pre, "notes/idea.md", Images.PendingImage(name, blob));
    IdeaAssets(file);
  }

  /** The paste-and-save scenario: `notes/idea.md` whose text ends in the
      markup of one pasted image (the text before it, such as
      `# idea\n\n![pasted image](`, holds no `.`). Once the server takes the
      image, the save uploads it to `notes/assets/<file>` and commits the
      text with the reference rewritten to that path, and the queue is
      empty. */
  lemma PasteThenSave(st: AppState, pre: string, file: string, blob: Images.Blob, msg: string,
                      server: Request -> Reply<string>)
    requires '.' !in pre && StartsWith(file, "paste-")
    requires SaveAllowed(st) && st.activePath == Some("notes/idea.md")
    requires st.content == pre + (".images/" + file) + ")"
    requires Accepted(server, ImageRequest(Config(st.repo, st.token), "notes/idea.md", Images.PendingImage(".images/" + file, blob)))
    ensures Placeholders([Images.PendingImage(".images/" + file, blob)])
    ensures var o := Save(st, [Images.PendingImage(".images/" + file, blob)], Some(msg), server);
      && |o.sent| == 2 && o.pending == []
      && o.sent[0].endpoint == Contents(st.repo.value.owner, st.repo.value.name, "notes/assets/" + file, None)
      && o.state.content == pre + ("notes/assets/" + file) + ")"
      && o.sent[1].body.value.content == B64(pre + ("notes/assets/" + file) + ")")
  {
    var item := Images.PendingImage(".images/" + file, blob);
    PastedPlaceholder(file, blob);
    var cfg := Config(st.repo, st.token);
    var reqs := ImageRequests(cfg, "notes/idea.md", [item]);
    OneAcceptedUpload(reqs, server);
    var o := Save(st, [item], Some(msg), server);
    assert o.sent[..1] == reqs;
    assert o.sent[0] == ImageRequest(cfg, "notes/idea.md", item);
    IdeaAssets(file);
    PasteRewrite(pre, file, blob);
  }

  lemma PastedPlaceholder(file: string, blob: Images.Blob)
    requires StartsWith(file, "paste-")
    ensures Placeholders([Images.PendingImage(".images/" + file, blob)])
  {
    assert (".images/" + file)[..|Images.PlaceholderPrefix|] == ".images/" + file[..6];
  }

  /** A single upload the server takes is sent and ends the loop without failure. */
  lemma OneAcceptedUpload(reqs: seq<Request>, server: Request -> Reply<string>)
    requires |reqs| == 1 && Accepted(server, reqs[0])
    ensures SendInOrder(reqs, server) == Uploaded(reqs, false)
  {
    assert reqs[..0] == [];
    assert [] + [reqs[0]] == reqs;
  }

  /** The guard of `saveNote`: an active note and a complete configuration. */
  predicate SaveAllowed(st: AppState) {
    Truthy(st.activePath) && RepoReady(st)
  }

  predicate Placeholders(pending: seq<Images.PendingImage>) {
    forall k | 0 <= k < |pending| :: StartsWith(pending[k].name, Images.PlaceholderPrefix)
  }

  /** The outcome of `saveNote`: the requests in order, the new state and
      queue, and whether the note itself was committed. */
  datatype Saved = Saved(sent: seq<Request>, state: AppState, pending: seq<Images.PendingImage>, committed: bool)

  /** `saveNote`: without an active note, a configuration or a commit
      message nothing happens. The pending images are uploaded first; a
      refused upload ends the save with nothing changed. Otherwise the
      queue is emptied and the placeholders rewritten before the note is
      committed with its sha; only an accepted commit adopts the new sha
      and clears `dirty`. */
  function Save(st: AppState, pending: seq<Images.PendingImage>, msg: Option<string>,
                server: Request -> Reply<string>): (o: Saved)
    requires Placeholders(pending)
    ensures o.sent == [] <==> !SaveAllowed(st) || msg.None?
    ensures |o.sent| <= |pending| + 1
    ensures o.state.dirty == (st.dirty && !o.committed)
    ensures o.state.(content := st.content, activeSha := st.activeSha, dirty := st.dirty) == st
    ensures !SaveAllowed(st) || msg.None? ==> o == Saved([], st, pending, false)
    ensures SaveAllowed(st) && msg.Some? ==>
      var note := st.activePath.value;
      var up := SendInOrder(ImageRequests(Config(st.repo, st.token), note, pending), server);
      if up.failed then o == Saved(up.sent, st, pending, false)
      else
        && o.pending == [] && |o.sent| == |up.sent| + 1 && o.sent[..|up.sent|] == up.sent
        && o.state.content == Rewrite(st.content, Replacements(note, pending))
        && var commit := o.sent[|up.sent|];
        && commit == UpsertRequest(Config(st.repo, st.token), note, o.state.content,
                                   NonEmpty(st.activeSha), msg.value, false).value
        && (o.committed <==> Accepted(server, commit))
        && o.state.activeSha == if o.committed then Some(server(commit).body.value) else st.activeSha
  {
    if !SaveAllowed(st) || msg.None? then Saved([], st, pending, false)
    else
      var note := st.activePath.value;
      var up := SendInOrder(ImageRequests(Config(st.repo, st.token), note, pending), server);
      if up.failed then Saved(up.sent, st, pending, false)
      else
        var c := Commit(st.(content := Rewrite(st.content, Replacements(note, pending))), msg.value, server);
        c.(sent := up.sent + c.sent)
  }

  /** The note commit that ends `saveNote`, of the text as it stands, with
      the last sha; only an accepted commit adopts the returned sha and
      clears `dirty`. */
  function Commit(st: AppState, msg: string, server: Request -> Reply<string>): (o: Saved)
    requires SaveAllowed(st)
    ensures |o.sent| == 1 && o.pending == []
    ensures o.sent[0] == UpsertRequest(Config(st.repo, st.token), st.activePath.value, st.content,
                                       NonEmpty(st.activeSha), msg, false).value
    ensures o.committed <==> Accepted(server, o.sent[0])
    ensures o.state == if o.committed then st.(activeSha := Some(server(o.sent[0]).body.value), dirty := false) else st
  {
    var commit := UpsertRequest(Config(st.repo, st.token), st.activePath.value, st.content, NonEmpty(st.activeSha), msg, false).value;
    if Accepted(server, commit) then
      Saved([commit], st.(activeSha := Some(server(commit).body.value), dirty := false), [], true)
    else
      Saved([commit], st, [], false)
  }

  /** What a commit sends reads back as the committed text. */
  lemma CommitReadsBack(st: AppState, pending: seq<Images.PendingImage>, msg: Option<string>,
                        server: Request -> Reply<string>)
    requires Placeholders(pending)
    requires Save(st, pending, msg, server).committed
    ensures var o := Save(st, pending, msg, server);
      Unb64(o.sent[|o.sent| - 1].body.value.content) == Some(o.state.content)
  {
    Unb64B64(Save(st, pending, msg, server).state.content);
  }

  /** Finding, as written: a note created after another one was opened
      keeps that note's sha, and its first commit sends it. */
  lemma NewNoteKeepsStaleSha(st: AppState, name: string, msg: string, server: Request -> Reply<string>)
    requires name != "" && EndsWith(name, ".md") && RepoReady(st) && Truthy(st.activeSha)
    ensures var o := Save(NewNoteAsWritten(st, Some(name)), [], Some(msg), server);
      o.sent[|o.sent| - 1].body.value.sha == st.activeSha
  {
  }

  /** Corrected: the first commit of a new note carries no sha. */
  lemma NewNoteCommitsWithoutSha(st: AppState, name: string, msg: string, server: Request -> Reply<string>)
    requires name != "" && EndsWith(name, ".md") && RepoReady(st)
    ensures var o := Save(NewNote(st, Some(name)), [], Some(msg), server);
      o.sent != [] && o.sent[|o.sent| - 1].body.value.sha.None?
  {
  }

  // ---------------------------------------------------------------------
  // Deleting a note

  const DeleteMessage := "Delete note"

  datatype Deleted = Deleted(sent: Option<Request>, state: AppState)

  /** `onDeleteFile`: with an active note and the user's confirmation, a
      delete with its sha (or none); only an accepted delete clears the
      editor. */
  function DeleteNote(st: AppState, confirm: bool, server: Request -> Reply<()>): (d: Deleted)
    ensures d.sent.Some? <==> Truthy(st.activePath) && confirm && st.repo.Some?
    ensures d.sent.Some? ==> (
      && d.sent.value.verb == Delete
      && d.sent.value.endpoint == Contents(st.repo.value.owner, st.repo.value.name, st.activePath.value, None)
      && d.sent.value.headers == JsonHeaders(st.token)
      && d.sent.value.body == Some(DeleteBody(DeleteMessage, NonEmpty(st.activeSha),
                                              RepoPath(st.repo, st.activePath.value).value.branch)))
    ensures d.state != st ==> (
      && d.sent.Some? && Accepted(server, d.sent.value)
      && d.state.activePath.None? && d.state.content == "" && !d.state.dirty)
    ensures d.state.(activePath := st.activePath, content := st.content, dirty := st.dirty) == st
    ensures d.sent.None? ==> d.state == st
    ensures d.sent.Some? ==>
      d.state == if Accepted(server, d.sent.value) then st.(activePath := None, content := "", dirty := false) else st
  {
    if !Truthy(st.activePath) || !confirm then Deleted(None, st)
    else
      var c := DeleteFile(Config(st.repo, st.token), st.activePath.value, NonEmpty(st.activeSha), DeleteMessage, server);
      Deleted(c.sent, if c.result.Ok? then st.(activePath := None, content := "", dirty := false) else st)
  }

  /** After a delete there is nothing to save. */
  lemma NothingToSaveAfterDelete(st: AppState, confirm: bool, deleteServer: Request -> Reply<()>,
                                 pending: seq<Images.PendingImage>, msg: Option<string>,
                                 server: Request -> Reply<string>)
    requires Placeholders(pending)
    requires DeleteNote(st, confirm, deleteServer).state != st
    ensures var after := DeleteNote(st, confirm, deleteServer).state;
      Save(after, pending, msg, server) == Saved([], after, pending, false)
  {
  }

  // ---------------------------------------------------------------------
  // Editing

  /** `onContentChange`: the text is replaced and the note is dirty. */
  function Edited(st: AppState, value: string): (r: AppState)
    ensures r.content == value && r.dirty
    ensures r.(content := st.content, dirty := st.dirty) == st
  {
    st.(content := value, dirty := true)
  }

  /** An edit followed by a save with no image queued commits the edited
      text itself, which reads back unchanged. */
  lemma EditThenSave(st: AppState, value: string, msg: string, server: Request -> Reply<string>)
    requires SaveAllowed(st)
    ensures var o := Save(Edited(st, value), [], Some(msg), server);
      && |o.sent| == 1
      && o.sent[0].body.value.content == B64(value)
      && Unb64(o.sent[0].body.value.content) == Some(value)
      && (o.state.dirty <==> !Accepted(server, o.sent[0]))
  {
    Unb64B64(value);
  }

  // ---------------------------------------------------------------------
  // Refreshing the file list

  datatype Refreshed = Refreshed(sent: seq<Request>, state: AppState)

  /** `refreshFiles`: a failed listing changes nothing; otherwise the
      listing replaces `files` and the search index is reloaded from it. */
  function Refresh(st: AppState, treeServer: Request -> Reply<seq<FileEntry>>,
                   fileServer: Request -> Reply<FilePayload>, parse: string -> Option<SearchIndex>): (r: Refreshed)
    ensures ListRepoTree(Config(st.repo, st.token), treeServer).result.Err? ==> r.state == st
    ensures ListRepoTree(Config(st.repo, st.token), treeServer).result.Ok? ==> (
      && r.state.files == ListRepoTree(Config(st.repo, st.token), treeServer).result.value
      && (r.state.searchIndex.Some? ==> HasIndexFile(r.state.files))
      && r.state.(files := st.files, searchIndex := st.searchIndex) == st)
    ensures |r.sent| <= 2
    ensures var c := ListRepoTree(Config(st.repo, st.token), treeServer);
      && (c.result.Err? ==> r.sent == if c.sent.Some? then [c.sent.value] else [])
      && (c.result.Ok? ==>
            var l := MaybeLoadReverseIndex(c.result.value, Config(st.repo, st.token), fileServer, parse);
            && r.state.searchIndex == l.index
            && r.sent == [c.sent.value] + if l.sent.Some? then [l.sent.value] else [])
  {
    var cfg := Config(st.repo, st.token);
    var c := ListRepoTree(cfg, treeServer);
    match c.result
    case Err(_) => Refreshed(if c.sent.Some? then [c.sent.value] else [], st)
    case Ok(files) =>
      var l := MaybeLoadReverseIndex(files, cfg, fileServer, parse);
      Refreshed([c.sent.value] + (if l.sent.Some? then [l.sent.value] else []), st.(files := files, searchIndex := l.index))
  }

  // ---------------------------------------------------------------------
  // The application object

  class NotesApp {
    var repo: Option<Repo>
    var token: Option<string>
    var files: seq<FileEntry>
    var activePath: Option<string>
    var content: string
    var dirty: bool
    var activeSha: Option<string>
    var tags: Option<seq<string>>
    var searchIndex: Option<SearchIndex>
    const images: Images.ImagePaste
    const storage: SessionStore
    const tagFeature: Tags.Tags

    function State(): AppState
      reads this
    {
      AppState(repo, token, files, activePath, content, dirty, activeSha, tags, searchIndex)
    }

    ghost predicate Valid()
      reads this, images
    {
      images.Valid()
    }

    /** `bootstrap`: the features start empty and the stored session, if
        any, is laid over the initial state. */
    constructor (store: SessionStore)
      ensures Valid() && images.pending == [] && tagFeature.activeTag.None?
      ensures storage == store && fresh(images) && fresh(tagFeature)
      ensures State() == Restore(Initial, Load(store.slot))
    {
      var saved := Load(store.slot);
      var st := Restore(Initial, saved);
      repo, token, files, activePath, content := st.repo, st.token, st.files, st.activePath, st.content;
      dirty, activeSha, tags, searchIndex := st.dirty, st.activeSha, st.tags, st.searchIndex;
      storage := store;
      images := new Images.ImagePaste();
      tagFeature := new Tags.Tags();
    }

    /** The paths `renderFileList` shows, for the search box's text `query`. */
    function ListedFiles(query: string, lower: string -> string): (r: seq<FileEntry>)
      reads this, tagFeature
      ensures r == VisibleFiles(files, BlobKind, tagFeature.activeTag, searchIndex, query, lower)
      ensures IsSubsequence(r, files)
      ensures forall f | f in r :: f.kind == BlobKind && EndsWith(f.path, ".md") && tagFeature.FileHasTag(searchIndex, f.path)
    {
      VisibleFiles(files, BlobKind, tagFeature.activeTag, searchIndex, query, lower)
    }

    method SaveSettings(form: SettingsForm)
      modifies this, storage
      ensures var r := ApplySettings(old(State()), form);
        && (r.None? ==> State() == old(State()) && storage.slot == old(storage.slot))
        && (r.Some? ==> (
              && State() == r.value
              && storage.slot == if storage.writable then Stored(Minimal(r.value, form.remember)) else old(storage.slot)))
    {
      var owner, repoName, tok := Trim(form.owner), Trim(form.repo), Trim(form.token);
      var branch := if Trim(form.branch) != "" then Trim(form.branch) else DefaultBranch;
      if owner == "" || repoName == "" {
        return;
      }
      var r, t := Some(Repo(owner, repoName, branch)), if tok != "" then Some(tok) else None;
      assert ApplySettings(old(State()), form) == Some(old(State()).(repo := r, token := t));
      SetConnection(r, t);
      storage.SaveSession(State(), form.remember);
    }

    /** The two assignments of an accepted settings save. */
    method SetConnection(r: Option<Repo>, t: Option<string>)
      modifies this`repo, this`token
      ensures State() == old(State()).(repo := r, token := t)
    {
      repo := r;
      token := t;
    }

    method RefreshFiles(treeServer: Request -> Reply<seq<FileEntry>>, fileServer: Request -> Reply<FilePayload>,
                        parse: string -> Option<SearchIndex>) returns (sent: seq<Request>)
      modifies this
      ensures var r := Refresh(old(State()), treeServer, fileServer, parse);
        sent == r.sent && State() == r.state
    {
      var cfg := Config(repo, token);
      var c := ListRepoTree(cfg, treeServer);
      sent := if c.sent.Some? then [c.sent.value] else [];
      if c.result.Err? {
        return;
      }
      files := c.result.value;
      var l := MaybeLoadReverseIndex(files, cfg, fileServer, parse);
      searchIndex := l.index;
      if l.sent.Some? {
        sent := sent + [l.sent.value];
      }
    }

    method OnSelectFile(path: string, confirmDiscard: bool, server: Request -> Reply<FilePayload>)
      returns (sent: Option<Request>)
      modifies this, storage
      ensures var o := OpenNote(old(State()), path, confirmDiscard, server);
        && sent == o.sent && State() == o.state
        && storage.slot == if o.stored && storage.writable then Stored(Minimal(o.state, false)) else old(storage.slot)
    {
      sent := None;
      if dirty && !confirmDiscard {
        return;
      }
      var c := GetFile(Config(repo, token), path, server);
      sent := c.sent;
      if c.result.Ok? {
        activePath := Some(path);
        content := c.result.value.content;
        dirty := false;
        activeSha := c.result.value.sha;
      }
      storage.SaveSession(State(), false);
    }

    method OnNewFile(name: Option<string>)
      modifies this
      ensures State() == NewNote(old(State()), name)
    {
      if name.None? || name.value == "" {
        return;
      }
      if !EndsWith(name.value, ".md") {
        return;
      }
      activePath := name;
      content := Stub(name.value);
      dirty := true;
      activeSha := None;
    }

    method OnDeleteFile(confirm: bool, server: Request -> Reply<()>) returns (sent: Option<Request>)
      modifies this
      ensures var d := DeleteNote(old(State()), confirm, server);
        sent == d.sent && State() == d.state
    {
      sent := None;
      if !Truthy(activePath) || !confirm {
        return;
      }
      var c := DeleteFile(Config(repo, token), activePath.value, NonEmpty(activeSha), DeleteMessage, server);
      sent := c.sent;
      if c.result.Ok? {
        activePath := None;
        content := "";
        dirty := false;
      }
    }

    method OnContentChange(value: string)
      modifies this, storage
      ensures State() == Edited(old(State()), value)
      ensures storage.slot == if storage.writable then Stored(Minimal(State(), false)) else old(storage.slot)
    {
      content := value;
      dirty := true;
      storage.SaveSession(State(), false);
    }

    /** The upload loop of `saveNote`: each pending image in order, stopping
        at the first refusal, collecting its placeholder and asset path. */
    method UploadPending(cfg: Config, note: string, server: Request -> Reply<string>)
      returns (sent: seq<Request>, failed: bool, replacements: seq<Replacement>)
      requires cfg.repo.Some?
      ensures SendInOrder(ImageRequests(cfg, note, images.pending), server) == Uploaded(sent, failed)
      ensures !failed ==> replacements == Replacements(note, images.pending)
    {
      ghost var reqs := ImageRequests(cfg, note, images.pending);
      sent, failed, replacements := [], false, [];
      var i := 0;
      while i < |images.pending|
        invariant 0 <= i <= |images.pending|
        invariant SendInOrder(reqs[..i], server) == Uploaded(sent, false)
        invariant replacements == Replacements(note, images.pending[..i])
      {
        var item := images.pending[i];
        var path := AssetPath(note, item.name);
        var call := UploadImage(cfg, note, item, server);
        sent := sent + [call.sent.value];
        assert reqs[..i + 1][..i] == reqs[..i];
        assert SendInOrder(reqs[..i + 1], server) == Uploaded(sent, !Accepted(server, reqs[i]));
        if call.result.Err? {
          SendStopsAtFailure(reqs, server, i + 1);
          return sent, true, replacements;
        }
        ReplacementsSnoc(note, images.pending, i);
        replacements := replacements + [Replacement(item.name, path)];
        i := i + 1;
      }
      assert reqs[..i] == reqs;
    }

    /** The placeholder loop of `saveNote`. */
    method RewritePlaceholders(replacements: seq<Replacement>)
      requires forall k | 0 <= k < |replacements| :: replacements[k].from != ""
      modifies this`content
      ensures content == Rewrite(old(content), replacements)
    {
      var j := 0;
      while j < |replacements|
        invariant 0 <= j <= |replacements|
        invariant Rewrite(content, replacements[j..]) == Rewrite(old(content), replacements)
      {
        assert replacements[j..][1..] == replacements[j + 1..];
        content := ReplaceAll(content, replacements[j].from, replacements[j].to);
        j := j + 1;
      }
    }

    method SaveNote(msg: Option<string>, server: Request -> Reply<string>) returns (sent: seq<Request>)
      requires Valid()
      modifies this, images, storage
      ensures Valid()
      ensures var o := Save(old(State()), old(images.pending), msg, server);
        && sent == o.sent && State() == o.state && images.pending == o.pending
        && storage.slot == if o.committed && storage.writable then Stored(Minimal(o.state, false)) else old(storage.slot)
    {
      sent := [];
      if !Truthy(activePath) {
        return;
      }
      if repo.None? || repo.value.owner == "" || repo.value.name == "" || !Truthy(token) {
        return;
      }
      if msg.None? {
        return;
      }
      sent := UploadAndCommit(msg.value, server);
    }

    /** `saveNote` past its guards: the uploads, the rewrite and the commit. */
    method UploadAndCommit(msg: string, server: Request -> Reply<string>) returns (sent: seq<Request>)
      requires Valid() && SaveAllowed(State())
      modifies this, images, storage
      ensures Valid()
      ensures var o := Save(old(State()), old(images.pending), Some(msg), server);
        && sent == o.sent && State() == o.state && images.pending == o.pending
        && storage.slot == if o.committed && storage.writable then Stored(Minimal(o.state, false)) else old(storage.slot)
    {
      var note := activePath.value;
      var cfg := Config(repo, token);
      sent := [];
      if |images.pending| > 0 {
        var failed, replacements;
        sent, failed, replacements := UploadPending(cfg, note, server);
        if failed {
          return;
        }
        images.pending := [];
        RewritePlaceholders(replacements);
      }
      assert State() == old(State()).(content := Rewrite(old(content), Replacements(note, old(images.pending))));
      var commit := CommitNote(msg, server);
      sent := sent + [commit];
    }

    /** The note commit of `saveNote`, and the session save on success. */
    method CommitNote(msg: string, server: Request -> Reply<string>) returns (commit: Request)
      requires SaveAllowed(State())
      modifies this`activeSha, this`dirty, storage
      ensures var c := Commit(old(State()), msg, server);
        && [commit] == c.sent && State() == c.state
        && storage.slot == if c.committed && storage.writable then Stored(Minimal(c.state, false)) else old(storage.slot)
    {
      var c := UpsertFile(Config(repo, token), activePath.value, content, NonEmpty(activeSha), msg, false, server);
      commit := c.sent.value;
      if c.result.Ok? {
        activeSha := Some(c.result.value);
        dirty := false;
        storage.SaveSession(State(), false);
      }
    }
  }
}
