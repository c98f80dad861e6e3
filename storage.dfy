/** The session persistence of src/services/storage.js: one slot in the
    browser's local storage under `mdnotes/session/v1`, written with a
    bounded projection of the app state and read back best-effort. */
module Storage {
  import opened Wrappers
  import opened GitHub
  import opened Search

  const SessionKey := "mdnotes/session/v1"

  /** The fields of the app's shared `state` object. */
  datatype AppState = AppState(
    repo: Option<Repo>,
    token: Option<string>,
    files: seq<FileEntry>,
    activePath: Option<string>,
    content: string,
    dirty: bool,
    activeSha: Option<string>,
    tags: Option<seq<string>>,
    searchIndex: Option<SearchIndex>)

  /** The persisted record: `{repo, token, activePath, content, tags}`. */
  datatype Snapshot = Snapshot(
    repo: Option<Repo>,
    token: Option<string>,
    activePath: Option<string>,
    content: string,
    tags: seq<string>)

  /** What the slot holds: nothing, a record, or text that does not parse
      (or cannot be read at all). */
  datatype Slot = Empty | Stored(snapshot: Snapshot) | Unreadable

  /** The `minimal` projection: the token only when the caller opts in and
      it is non-empty, the tags as a list (empty when missing). */
  function Minimal(st: AppState, includeToken: bool): (s: Snapshot)
    ensures s.token == if includeToken && Truthy(st.token) then st.token else None
    ensures s.tags == if st.tags.Some? then st.tags.value else []
    ensures s.repo == st.repo && s.activePath == st.activePath && s.content == st.content
  {
    Snapshot(st.repo, if includeToken then NonEmpty(st.token) else None, st.activePath, st.content,
             if st.tags.Some? then st.tags.value else [])
  }

  /** `dirty`, `files`, `activeSha` and `searchIndex` never reach the slot:
      states that differ only there are saved alike. */
  lemma MinimalIgnoresVolatile(a: AppState, b: AppState, includeToken: bool)
    requires a.repo == b.repo && a.token == b.token && a.activePath == b.activePath
    requires a.content == b.content && a.tags == b.tags
    ensures Minimal(a, includeToken) == Minimal(b, includeToken)
  {
  }

  /** `loadSession` over a slot: `null` for an empty or unreadable slot. */
  function Load(slot: Slot): (r: Option<Snapshot>)
    ensures r.Some? <==> slot.Stored?
    ensures r.Some? ==> r.value == slot.snapshot
  {
    if slot.Stored? then Some(slot.snapshot) else None
  }

  class SessionStore {
    var slot: Slot
    /** Whether the browser currently accepts writes (false: quota, privacy mode). */
    var writable: bool

    constructor (initial: Slot, writable: bool)
      ensures slot == initial && this.writable == writable
    {
      slot := initial;
      this.writable := writable;
    }

    /** `loadSession`: never throws; `None` when nothing usable is stored. */
    method LoadSession() returns (r: Option<Snapshot>)
      ensures r.Some? <==> slot.Stored?
      ensures r.Some? ==> r.value == slot.snapshot
    {
      r := if slot.Stored? then Some(slot.snapshot) else None;
    }

    /** `saveSession`: overwrites the slot with the projection; a failed
        write is swallowed and leaves the previous value in place. */
    method SaveSession(st: AppState, includeToken: bool)
      modifies this`slot
      ensures slot == if writable then Stored(Minimal(st, includeToken)) else old(slot)
      ensures writable ==> Load(slot) == Some(Minimal(st, includeToken))
    {
      if writable {
        slot := Stored(Minimal(st, includeToken));
      }
    }
  }
}
