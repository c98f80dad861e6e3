# MDNotes sync core in Dafny

MDNotes is a single-page Markdown notes editor that keeps its notes in a
GitHub repository. This project models the part of it that moves a note
between the editor, the browser session and the repository, and proves
properties of that model:

- the content-API client (`src/services/github.js`): the `b64`/`unb64`
  text codec, which is UTF-8 (RFC 3629) followed by base64 (section 4 of
  RFC 4648); branch defaulting; headers; the request bodies; and the rule
  that every non-OK response throws;
- the session slot in local storage (`src/services/storage.js`);
- the autosave debounce (`src/services/autosave.js`), over an explicit clock;
- the paste queue for images (`src/features/images.js`);
- the search and tag filters (`src/features/search.js`, `src/features/tags.js`);
- the line pass of the Markdown converter (`src/utils/markdown.js`);
- the controller of `src/app.js`: the settings save, restoring the
  session, the file-list filter, and opening, creating, editing, deleting,
  refreshing and saving a note, including the upload of pasted images and
  the rewrite of their placeholders.

Modules follow the source files:

| module | file | contents |
|---|---|---|
| `Wrappers`, `Bytes` | `wrappers.dfy` | `Option`, `Result`, octets |
| `Text` | `text.dfy` | the JavaScript string built-ins the core uses |
| `Utf8`, `Base64` | `utf8.dfy`, `base64.dfy` | the two halves of the codec |
| `GitHub` | `github.dfy` | the client |
| `Search`, `Tags` | `search.dfy`, `tags.dfy` | the filters |
| `Storage` | `storage.dfy` | the state record, its projection, the slot |
| `Images` | `images.dfy` | the paste queue |
| `Autosave` | `autosave.dfy` | the debounce |
| `Markdown` | `markdown.dfy` | the converter |
| `App` | `app.dfy` | the handlers, and the class `NotesApp` |

Where the source changes state in place, the model does too:

- `NotesApp`, `ImagePaste`, `SessionStore`, `Tags.Tags` and
  `Autosave.Autosave` are classes whose methods update their fields.
- Each such method is proved equal to a function of the state before it,
  for example `SaveNote` against `App.Save`.
- The properties are proved about those functions.

The network is a parameter. Each server is a function from a request to a
reply: a transport error, or a response with its `ok` flag and its JSON
body. The user's answers to `prompt` and `confirm` are parameters too.
`Date.now()` is the parameter `now`, and time in the autosave model is an
explicit integer clock.

### Behaviour of the code worth knowing

The model follows the code as it is, including these points:

- **No save gate.** `saveNote` has no flag that refuses a second save
  while one is running. The autosave callback, the visibility handler and
  `onSave` (which Ctrl+S triggers) call it directly (app.js:152-154,
  179-183, 338-350). Each `Save` in the model is one sequential run.
- **Pending images can be lost.** `saveNote` empties the pending-image
  queue and rewrites the placeholders *before* the note commit
  (app.js:320-325), and restores neither if the commit fails
  (`App.Save`: after successful uploads `o.pending == []` whatever the
  commit's answer).
- **One error path.** Every client call throws the same way on any non-OK
  response and never looks at the status, so a stale sha is not told
  apart from any other failure (github.js:30, 39, 47, 65, 76;
  `GitHub.Receive`).
- **Entry kinds.** The file list keeps entries with `type === 'file'`
  (app.js:191), while the recursive git trees listing it reads types its
  entries `blob`, `tree` or `commit` (see Findings).
- **Autosave condition.** The autosave callback saves only when the note
  is dirty *and* a path is active (app.js:152-154).
- **Deleting without a token.** `onDeleteFile` checks only for an active
  path and the confirmation (app.js:265-266), so a delete is sent
  whenever a repository is set, token or not (`App.DeleteNote`).

## Model

| member | source | states |
|---|---|---|
| Utf8.EncodeChar | src/services/github.js:4 | a character encodes to one to four octets (RFC 3629, section 3) |
| Utf8.DecodeFirstEncodeChar | src/services/github.js:5 | the strict decoder reads back exactly the character whose encoding starts the input, and consumes exactly its octets |
| Utf8.DecodeEncode | src/services/github.js:4-5 | decoding the UTF-8 encoding of any string gives that string back |
| Utf8.EncodeCharDecodeFirst | src/services/github.js:5 | a character the strict decoder accepts was encoded by exactly the octets it consumed |
| Utf8.EncodeDecode | src/services/github.js:5 | every octet string the strict decoder accepts is the UTF-8 encoding of what it decodes to (otherwise `decodeURIComponent(escape(..))` throws) |
| Base64.Encode | src/services/github.js:4 | `btoa` output has a length that is a multiple of four |
| Base64.Sextets | src/services/github.js:4 | the number of symbols before padding is four per three octets plus one more than a partial group |
| Base64.SymbolValueOfSymbol | src/services/github.js:4-5 | each alphabet symbol decodes to its value and is never the padding character |
| Base64.GroupRoundTrip | src/services/github.js:4-5 | three octets survive the split into four sextets and back |
| Base64.OctetsSextets | src/services/github.js:4-5 | the sextets of any octet string never have length 1 mod 4, and recombine to the octets |
| Base64.ValuesSymbols | src/services/github.js:4-5 | symbols read back as the sextets they were written from |
| Base64.RemoveAsciiWhitespace | src/services/github.js:5 | `atob` drops ASCII whitespace before decoding |
| Base64.NoWhitespaceKept | src/services/github.js:5 | text without ASCII whitespace is left as it is |
| Base64.DropPaddingOfEncode | src/services/github.js:4-5 | removing the padding from `btoa` output leaves exactly the data symbols |
| Base64.DecodeEncode | src/services/github.js:4-5 | `atob(btoa(bytes))` gives the bytes back (RFC 4648, section 4) |
| GitHub.Unb64B64 | src/services/github.js:4-5 | `unb64(b64(s)) == s` for every string |
| GitHub.B64Unb64 | src/services/github.js:4-5 | whatever `unb64` accepts, `b64` re-encodes to the octets `atob` read from it |
| GitHub.NonEmpty | src/services/github.js:62 | `sha \|\| undefined`: present exactly when truthy, and then unchanged |
| GitHub.RepoPath | src/services/github.js:20-25 | throws exactly when no repository is set; otherwise owner, name and path are passed through and the branch is the configured one, or `main` when it is empty |
| GitHub.Headers | src/services/github.js:13-18 | always the GitHub media type; `Authorization: Bearer <token>` exactly when the token is truthy; no other header |
| GitHub.JsonHeaders | src/services/github.js:57 | the headers above plus `Content-Type: application/json`, every other value unchanged |
| GitHub.Receive | src/services/github.js:29-31 | success exactly for an OK response with a JSON body; any non-OK response is the operation's error, with no retry and no look at the status (the same check at lines 39, 47, 65, 76) |
| GitHub.Names | src/services/github.js:32 | the branch names, one per branch, in order |
| GitHub.ListBranches | src/services/github.js:27-33 | a GET of the branches endpoint with the headers, sent exactly when a repository is set; the result is the names of an accepted reply |
| GitHub.ListRepoTree | src/services/github.js:35-42 | a GET of the recursive tree of the configured owner, repository and branch (`main` when unset), sent exactly when a repository is set; the result is the served listing, on success only |
| GitHub.RemoveNewlines | src/services/github.js:49 | the result has no newline, and text without one is unchanged |
| GitHub.DecodePayload | src/services/github.js:49-50 | an absent or empty payload is the empty text; otherwise it fails only as a decode error; the sha is passed through |
| GitHub.DecodePayloadOfB64 | src/services/github.js:49 | a payload that is `b64(s)` with line breaks anywhere decodes to exactly `s` |
| GitHub.GetFile | src/services/github.js:44-51 | a GET of the path at the configured owner, repository and branch (`main` when unset), sent exactly when a repository is set; an accepted reply gives `DecodePayload` of its body, a non-OK one the `get file` error, and nothing else succeeds |
| GitHub.UpsertRequest | src/services/github.js:53-64 | a PUT with JSON headers whose body has the message, the content unchanged when already base64 and `b64(content)` otherwise, the branch always, and the sha exactly when it is truthy |
| GitHub.UpsertFile | src/services/github.js:53-67 | sends that request exactly when a repository is set; succeeds exactly on an accepted reply and returns the new sha |
| GitHub.WriteThenRead | src/services/github.js:49-60 | what `upsertFile` puts as text is read back by `getFile` as that text, however the server wraps the base64 |
| GitHub.DeleteRequest | src/services/github.js:69-75 | a DELETE with JSON headers whose body is exactly message, sha and branch |
| GitHub.DeleteFile | src/services/github.js:69-78 | sends that request exactly when a repository is set; succeeds exactly on an accepted reply |
| Text.Split | src/app.js:308 | splitting always yields at least one piece |
| Text.JoinSplit | src/app.js:323 | joining the pieces with the separator they were split on gives the text back |
| Text.SplitAbsent | src/app.js:323 | a text without the separator is a single piece |
| Text.ReplaceAbsent | src/app.js:323 | `split(from).join(to)` leaves a text without `from` unchanged |
| Text.SplitPiecesFree | src/utils/markdown.js:5 | with a one-character separator no piece contains it |
| Text.SplitAppend | src/app.js:308 | a text ending in a separator and a separator-free segment splits into the head's pieces and that segment |
| Text.SplitOnly | src/app.js:323 | a separator occurring once cuts the text there alone |
| Text.ReplaceOnly | src/app.js:323 | a string occurring once is replaced in place by `split(from).join(to)` |
| Text.TrimStart | src/utils/markdown.js:11-14 | a suffix of the input that is empty or starts with a non-`\s` character |
| Text.TrimStartDropsSpace | src/utils/markdown.js:11-14 | everything `TrimStart` cuts off is `\s`, so it removes exactly the leading `\s` run |
| Text.Trim | src/app.js:119-122 | a slice of the input that neither starts nor ends with `\s`, with only `\s` cut off either side |
| Text.Decimal | src/features/images.js:17 | the decimal text of a timestamp: one or more digits |
| Text.DecimalRoundTrip | src/features/images.js:17 | the digits read back as the number |
| Text.DecimalInjective | src/features/images.js:17 | distinct numbers render as distinct texts |
| Search.Words | src/features/search.js:22 | `q.split(/\s+/).filter(Boolean)`: every word is non-empty and free of `\s` |
| Search.FirstWord | src/features/search.js:22 | the longest `\s`-free prefix |
| Search.Runs | src/features/search.js:22 | the maximal runs of non-`\s` characters, in order: a text starting with a non-`\s` character has a first run starting with it |
| Search.WordsAreRuns | src/features/search.js:22 | the query's words are exactly its maximal non-`\s` runs, in order, none dropped and none added |
| Search.Hits | src/features/search.js:20-26 | a path is a hit exactly when the token table lists it under some word of the query that is an own key of the table (the corrected lookup, see Findings) |
| Search.HitsCons | src/features/search.js:23-26 | the hits of a query are the paths listed under its first word plus the hits of the rest, as the loop collects them |
| Search.HitsAsWritten | src/features/search.js:23-26 | the loop as written throws exactly when the table exists and some word is a name inherited from `Object.prototype` (`constructor`, `__proto__`, `toString`, `valueOf`, `hasOwnProperty` and the other seven) without an own entry; otherwise it collects exactly `Hits` |
| Search.Keep | src/features/search.js:30 | `filter`: exactly the elements that pass, each as many times as in the input, none added |
| Search.KeepIsSubsequence | src/features/search.js:27-30 | a filter keeps the input's order |
| Search.SubsequenceOfTail | src/features/search.js:27-30 | a subsequence of the tail is a subsequence of the whole |
| Search.SubsequenceShrink | src/features/search.js:27-30 | dropping the first element keeps a subsequence |
| Search.KeepMonotone | src/features/search.js:27-30 | a weaker test keeps a subsequence of what a stronger one keeps |
| Search.FilterFiles | src/features/search.js:17-31 | an order-preserving subsequence holding exactly the files whose lower-cased path contains `q`, or, with an index, also those the index lists under a word of `q` (own keys only); it never fails |
| Search.IndexOnlyAdds | src/features/search.js:17-31 | the result without the index is a subsequence of the result with it |
| Search.FilterFilesAsWritten | src/features/search.js:17-31 | as written, the filter throws exactly when an index with a token table is loaded and a word of `q` is one of the twelve names inherited from `Object.prototype` and missing from it; otherwise it returns what `FilterFiles` returns |
| Search.WordsOfWord | src/features/search.js:22 | a query without `\s` is its own single word |
| Search.InheritedWordThrows | src/features/search.js:24-25 | as written, one inherited-key word missing from the table makes the whole filter throw |
| Search.InheritedQueryThrows | src/features/search.js:24-25 | as written, a query that is one inherited name (`constructor`, `__proto__`, `toString`, …) with an index whose table lacks that key throws instead of filtering |
| Search.MaybeLoadReverseIndex | src/features/search.js:7-15 | no request and no index without `.search/index.json` in the listing; otherwise a read of that file, and an index exactly when the read and the parse succeed |
| Tags.GetAllTags | src/features/tags.js:6-10 | the keys of the index's `tags` table, empty when there is none |
| Tags.GetTagsForFile | src/features/tags.js:11-15 | the path's entry in `fileTags`, empty without index, table or entry |
| Tags.Toggled | src/features/tags.js:20-22 | cleared exactly when the tag was active, else that tag |
| Tags.ToggleTwice | src/features/tags.js:20-22 | toggling twice clears the slot, unless the tag was already active |
| Tags.Tags.constructor | src/features/tags.js:2-5 | no tag is active at first |
| Tags.Tags.FileHasTag | src/features/tags.js:16-19 | every path passes while no tag is active (an empty tag counts as none); otherwise exactly the paths tagged with the active tag |
| Tags.Tags.ToggleActiveTag | src/features/tags.js:20-22 | the slot becomes `Toggled` of its old value |
| Storage.Minimal | src/services/storage.js:12-19 | the saved record holds repo, active path and content as they are; the token only when asked for and non-empty; the tags as a list, empty when missing |
| Storage.MinimalIgnoresVolatile | src/services/storage.js:12-19 | `dirty`, `files`, `activeSha` and `searchIndex` never reach the slot |
| Storage.Load | src/services/storage.js:5-10 | a record exactly when one is stored; `null` for an empty or unreadable slot |
| Storage.SessionStore.LoadSession | src/services/storage.js:5-10 | the same, read from the slot, never failing |
| Storage.SessionStore.SaveSession | src/services/storage.js:11-21 | a writable slot then holds the projection, so a load returns it; a failed write leaves the slot as it was |
| Images.FirstImage | src/features/images.js:12 | the first item whose type starts with `image/`, or none when there is none |
| Images.Extension | src/features/images.js:16 | `png` or `jpg`, and `jpg` exactly when the type mentions `jpeg` but not `png` |
| Images.PlaceholdersDistinct | src/features/images.js:17 | pastes at different instants get different names |
| Images.ImagePaste.constructor | src/features/images.js:5-8 | the queue starts empty |
| Images.ImagePaste.HandlePaste | src/features/images.js:10-20 | without clipboard data or an image item nothing changes; otherwise exactly one `{name, blob}` is appended, with name `.images/paste-<now>.<ext>`, and `![pasted image](<name>)` is inserted |
| Autosave.Advance | src/services/autosave.js:11 | the clock moves to the new time; a timer due by then fires once, at its deadline, and is gone; otherwise nothing but the time changes |
| Autosave.AdvanceInSteps | src/services/autosave.js:11 | letting time pass in two steps saves exactly what one step to the same instant saves |
| Autosave.OnEvent | src/services/autosave.js:9-12 | any event leaves exactly one timer, due 2500 after it, whatever its kind |
| Autosave.RunEvents | src/services/autosave.js:9-14 | handling events only appends saves |
| Autosave.BurstLeavesOneTimer | src/services/autosave.js:9-12 | a burst of events saves nothing and leaves one timer, due 2500 after the last event |
| Autosave.BurstThenSilence | src/services/autosave.js:10-11 | a burst followed by silence saves exactly once, 2500 after the last event, and not before |
| Autosave.Autosave.constructor | src/services/autosave.js:2-7 | no timer, no save |
| Autosave.Autosave.Schedule | src/services/autosave.js:9-14 | the handler shared by `input` and `focusout` moves the state as `OnEvent` does |
| Autosave.Autosave.Tick | src/services/autosave.js:11 | the passing of time moves the state as `Advance` does |
| Markdown.Esc | src/utils/markdown.js:4 | the escaped text holds no `<` and no `>` |
| Markdown.UnescapeEsc | src/utils/markdown.js:4 | escaping loses nothing: `&amp;`, `&lt;`, `&gt;` read back as the original text |
| Markdown.SplitLines | src/utils/markdown.js:5 | `split(/\r?\n/)`: at least one line, none holding a newline |
| Markdown.SplitLinesCount | src/utils/markdown.js:5 | one line more than there are newlines |
| Markdown.JoinSplitLines | src/utils/markdown.js:5 | without carriage returns, joining the lines with `\n` gives the text back |
| Markdown.Classify | src/utils/markdown.js:9-16 | a fence exactly when the line starts with three backticks; otherwise a heading of level n exactly when it starts with n (one to three) `#` then `\s`, with the text after the `\s` run; otherwise a bullet exactly when, after leading `\s`, it starts with `-` or `*` then `\s`, with the rest trimmed; otherwise blank exactly when all `\s`; otherwise a paragraph |
| Markdown.Convert | src/utils/markdown.js:11-16 | a heading of level n gives `<hn>` around its escaped text, a bullet `<li>` around its escaped text, a paragraph `<p>` around `inline` of the line, a blank line nothing; never a code-block tag |
| Markdown.ConvertReadsBack | src/utils/markdown.js:11-16 | the text between the tags of a heading or bullet unescapes to the line's text after its marker, a paragraph's is `inline` of the line, a blank line gives the empty entry |
| Markdown.Step | src/utils/markdown.js:9-16 | a fence toggles the code flag, giving `<pre><code>` when opening and `</code></pre>` when closing; inside code any other line is escaped as it is, outside it is `Convert` of the line; no other line gives either tag |
| Markdown.Render | src/utils/markdown.js:8-17 | one output entry per input line |
| Markdown.RenderAt | src/utils/markdown.js:8-17 | entry k is what line k gives in the mode the earlier lines leave |
| Markdown.CodeLineInert | src/utils/markdown.js:10 | inside a code block a line's entry is the escaped line: it holds no `<` or `>` and unescapes to the line |
| Markdown.FenceBalance | src/utils/markdown.js:9 | the code flag at the end is the parity of the fence count, and every close follows an open |
| Markdown.FencesPairUp | src/utils/markdown.js:9 | as many opens as closes exactly when the fence count is even |
| Markdown.MdToHtml | src/utils/markdown.js:2-22 | empty input gives the empty text; otherwise the per-line entries of the lines, joined by `\n` |
| App.Restore | src/app.js:45-46 | a stored record overwrites repo, token, active path, content and tags, and nothing else; no record changes nothing |
| App.ReloadAfterSave | src/app.js:45-46 | a reload after a save brings back the repository, the open path and the text, clean; the token only when it was saved with `includeToken` and non-empty |
| App.ApplySettings | src/app.js:119-129 | refused exactly when the trimmed owner or repository is empty; otherwise the trimmed fields, the branch the trimmed one or `main` when that is empty, an empty token becoming `null`, and nothing else changed |
| App.SettingsEnableSave | src/app.js:119-129 | accepted settings let a save through exactly when a token was given |
| App.VisibleFiles | src/app.js:191-199 | an order-preserving subsequence holding exactly the Markdown entries of the given kind that carry the active tag, when one is active, and match the trimmed, lower-cased query, when it is not empty |
| App.FileKindHidesTree | src/app.js:191 | as written (kind `file`), no entry of a git trees listing is ever shown |
| App.BlobKindListsNotes | src/app.js:191 | with kind `blob`, every Markdown file of the listing is shown, in order, while no tag or query is set |
| App.OpenNote | src/app.js:229-249 | a dirty note the user keeps stops everything; otherwise the file is read and the session saved; a successful read makes the note active, clean, with the read text and sha, and a failed read changes nothing |
| App.OpenReadsWhatWasWritten | src/app.js:233-237 | opening a note served as `b64(s)` puts exactly `s` in the editor, clean, with the served sha |
| App.TitleOfNestedPath | src/app.js:256 | the stub title of `dir/t.md` is `t` |
| App.TitleOfRootPath | src/app.js:256 | the stub title of `t.md` is `t` |
| App.NewNoteAsWritten | src/app.js:251-262 | a cancelled, empty or non-`.md` name changes nothing; otherwise the note is active, holds `# <title>\n\n` and is dirty, and `activeSha` keeps its value |
| App.NewNote | src/app.js:251-262 | the same, with `activeSha` cleared when the name is accepted |
| App.AssetNextToNote | src/app.js:308-311 | an image for `dir/file` goes to `dir/assets/`, with `.images/` replaced by `assets/` |
| App.AssetAtRoot | src/app.js:308-311 | an image for a note at the root goes to `assets/` |
| App.IdeaAssets | src/app.js:308-311 | `notes/idea.md` with `.images/paste-…` gives `notes/assets/paste-…` |
| App.UploadImage | src/app.js:312-317 | one PUT per image, of its base64 bytes, already encoded and without sha, to its asset path |
| App.ImageRequests | src/app.js:310-319 | one upload per pending entry, in queue order |
| App.SendInOrder | src/app.js:310-319 | the loop sends at most one request per image and all of them unless it failed |
| App.SendOrder | src/app.js:310-319 | what is sent is a prefix of the uploads, each accepted but the last, which is refused exactly when the loop stopped |
| App.SendStopsAtFailure | src/app.js:310-319 | after a refused upload nothing more is sent |
| App.Replacements | src/app.js:318 | each placeholder paired with its asset path, in queue order |
| App.RewriteAbsent | src/app.js:322-325 | text without placeholders is committed unchanged |
| App.RewriteOne | src/app.js:322-325 | a placeholder occurring once is replaced in place by its asset path |
| App.RewriteClosingMarkup | src/app.js:322-325 | the markup of one pasted image at the end of the text is rewritten to the asset path |
| App.PasteThenSave | src/app.js:307-325 | saving `notes/idea.md` after a paste sends exactly two requests: the image to `notes/assets/<file>`, then the commit of the text with the reference rewritten to `notes/assets/<file>`, and empties the queue |
| App.Save | src/app.js:296-336 | nothing is sent and nothing changes without an active note, a repository, a token or a commit message. Otherwise the uploads are sent in queue order; a refused upload ends the save with nothing changed. After all uploads are accepted the queue is emptied, the text becomes `Rewrite` of the placeholders, and exactly one commit of it with the last sha follows; only an accepted commit adopts the returned sha and clears `dirty` |
| App.Commit | src/app.js:327-329 | one PUT of the text with the last sha; an accepted commit adopts the returned sha and clears `dirty`, a refused one changes nothing |
| App.CommitReadsBack | src/app.js:327 | the committed base64 decodes to the text the editor holds after the save |
| App.NewNoteKeepsStaleSha | src/app.js:251-262 | as written, the first commit of a new note carries the previously opened note's sha |
| App.NewNoteCommitsWithoutSha | src/app.js:251-262 | corrected, the first commit of a new note carries no sha |
| App.DeleteNote | src/app.js:264-279 | with an active note, a repository and confirmation, one DELETE of that path in the configured repository, with the JSON headers of the token and a body of message `Delete note`, the sha (when truthy) and the configured branch (`main` when unset), otherwise nothing is sent and nothing changes; an accepted delete clears the note, its text and `dirty`, a refused one changes nothing |
| App.NothingToSaveAfterDelete | src/app.js:264-279 | after a delete a save sends nothing |
| App.Edited | src/app.js:281-286 | the text is replaced and the note is dirty; nothing else changes |
| App.EditThenSave | src/app.js:281-283 | an edit then a save with no queued image commits `b64` of the edited text, and `dirty` stays set exactly when the commit is refused |
| App.Refresh | src/app.js:215-227 | a failed listing changes nothing and sends only the listing request; otherwise the listing replaces `files`, and the index and the requests are those of `MaybeLoadReverseIndex` on the listing |
| App.NotesApp.constructor | src/app.js:44-46 | the features start empty and the stored session is laid over the initial state |
| App.NotesApp.ListedFiles | src/app.js:185-199 | the shown files are `VisibleFiles` of the listing with kind `blob`: they keep the listing's order and are Markdown blobs that pass the tag filter |
| App.NotesApp.SaveSettings | src/app.js:118-134 | the state becomes `ApplySettings`, and the slot holds its projection, token included when `remember` is set; a refused form changes nothing |
| App.NotesApp.SetConnection | src/app.js:128-129 | the repository and the token are set, and nothing else in the state changes |
| App.NotesApp.RefreshFiles | src/app.js:215-227 | the state and the requests are those of `Refresh` |
| App.NotesApp.OnSelectFile | src/app.js:229-249 | the state and the request are those of `OpenNote`, and the session is saved whenever a read was attempted |
| App.NotesApp.OnNewFile | src/app.js:251-262 | the state becomes `NewNote` of the old one |
| App.NotesApp.OnDeleteFile | src/app.js:264-279 | the state and the request are those of `DeleteNote` |
| App.NotesApp.OnContentChange | src/app.js:281-286 | the state becomes `Edited`, and the session is saved |
| App.NotesApp.UploadPending | src/app.js:307-319 | the loop sends what `SendInOrder` sends and, when no upload failed, collects `Replacements` of the queue |
| App.NotesApp.RewritePlaceholders | src/app.js:321-325 | the text becomes `Rewrite` of the old text |
| App.NotesApp.CommitNote | src/app.js:327-330 | the request and state are those of `Commit`, and the session is saved exactly when the commit is accepted |
| App.NotesApp.UploadAndCommit | src/app.js:307-330 | with a commit message, the requests, state and queue are those of `Save`, and the session is saved exactly when the commit is accepted |
| App.NotesApp.SaveNote | src/app.js:296-336 | the requests, state and queue are those of `Save`, and the session is saved exactly when the commit is accepted |

## Left out

- URLs: the URL text and the `encodeURIComponent` of paths and refs are not modelled. An endpoint is a structured value (`GitHub.Endpoint`).
- JSON: `fetch`, `res.json()` and `JSON.stringify` are not modelled. A reply carries its parsed body, and a body field left out by `JSON.stringify` is `None`.
- `JSON.parse` of the search index is the parameter `parse`.
- `toLowerCase` is the parameter `lower`, because Unicode case mapping is not modelled.
- `inline` (markdown.js:24-33) is the parameter `inline`, because its regular-expression chain is not modelled.
- Markdown.MdToHtml: the wrapping of consecutive `<li>` lines in `<ul>` (markdown.js:20) is left out. The contract states the text before that step.
- Lone surrogates cannot be represented: a Dafny `string` holds Unicode scalar values, so the case where `encodeURIComponent` throws is not modelled.
- Prompts: `confirm`, `prompt` and `alert` are parameters holding the user's answer.
- The DOM is not modelled: toasts, the status line, the settings dialog, focus, textarea values, `onModeChange` and the preview.
- Search.FilterFiles: looks words up among the token table's own keys (the corrected form), where search.js:24 as written also finds the names inherited from `Object.prototype` (of which a lower-cased query can spell only `constructor` and `__proto__`) and then throws; `Search.FilterFilesAsWritten` models the code as written (see Findings).
- App.VisibleFiles: uses the corrected `Search.FilterFiles`, so for the query `constructor` or `__proto__` with an index loaded it lists files where `renderFileList` as written throws after clearing the list (app.js:189, 198).
- App.NotesApp.ListedFiles: filters on kind `blob` (the corrected form), not on `'file'` as app.js:191 does; `App.FileKindHidesTree` states what the code as written shows (see Findings).
- App.NotesApp.OnNewFile: clears `activeSha` (the corrected form `App.NewNote`), where app.js:251-262 as written keeps it; `App.NewNoteAsWritten` models the code as written (see Findings).
- App.NotesApp.SaveNote: the `refreshFiles` at the end of a save is not part of the contract. It is the separate method `RefreshFiles`.
- App.NotesApp.OnDeleteFile: the `refreshFiles` after a delete is likewise the separate `RefreshFiles`.
- App.NotesApp.SaveSettings: the `refreshFiles` after settings are saved is likewise the separate `RefreshFiles`.
- Async interleaving is not modelled: each handler runs to completion. The code has no lock to model.
- The URL quick configuration (app.js:137-141) is not modelled: it reads `location.search`.
- The branch selector (app.js:352-357) is not modelled: it is UI wiring.
- The `beforeunload` guard (app.js:171-176) is not modelled.
- The `visibilitychange` save (app.js:179-183) and the autosave callback (app.js:152-154) only call `saveNote` under a condition. The model has `SaveNote`, and `Autosave` records when its callback fires.
- Autosave.Autosave.Schedule: a failing `onSave` is swallowed. The model records the instant of each call and nothing about its outcome.
- Images.ImagePaste.HandlePaste: the case where `getAsFile()` returns `null` is not modelled. A clipboard item always carries a blob.
- `Blob.arrayBuffer()` is not modelled: a blob is its octets.
- Empty strings stand for missing repository fields, as in JavaScript, where they are falsy.
- `src/github.js` (a legacy client not used by the app) is not part of this model.
- The UI modules under `src/ui/` are not part of this model.

## Findings

| source | as written | input that shows it | evidently intended | confidence | as-written member | corrected member |
|---|---|---|---|---|---|---|
| src/app.js:191 | the file list keeps entries with `type === 'file'` | the recursive git trees listing that `listRepoTree` returns types entries `blob`, `tree` or `commit`, e.g. `[{path: "notes/idea.md", type: "blob"}]`, so the list shows nothing | keep entries of type `blob` | high, from the git trees API; not executed | App.FileKindHidesTree | App.BlobKindListsNotes |
| src/features/search.js:24-25 | `idx.tokens?.[t] \|\| []` reads inherited properties of the parsed table, and the result is iterated | with an index whose `tokens` table has no own key `constructor`, the query `constructor` finds the `Object` function, which is truthy, so `for (const p of hit)` throws a `TypeError`; `renderFileList` has already cleared the list, so it stays empty | look up own keys only, so that a missing word has no hits | high, from the JavaScript property lookup rules; not executed | Search.InheritedQueryThrows | Search.IndexOnlyAdds |
| src/app.js:251-262 | `onNewFile` leaves `activeSha` as it was | open `a.md` (sha `s1`), create `b.md`, save: the PUT for `b.md` carries sha `s1`, which the server rejects as a mismatch | clear `activeSha`, so that the first commit creates the file | medium, since the server's answer is not part of the code; not executed | App.NewNoteKeepsStaleSha | App.NewNoteCommitsWithoutSha |

The rest of the model uses the corrected forms:

- `Search.FilterFiles`, and so `App.VisibleFiles`, looks words up among own keys only.
- `NotesApp.ListedFiles` filters on `blob`.
- `NotesApp.OnNewFile` follows `App.NewNote`.
