/** The tag filter of src/features/tags.js: lookups in the reverse index and
    a one-slot active tag. */
module Tags {
  import opened Wrappers
  import opened GitHub
  import opened Search

  /** `getAllTags`: the keys of the index's `tags` table, or none. */
  function GetAllTags(ix: Option<SearchIndex>): (r: set<string>)
    ensures ix.None? || ix.value.tags.None? ==> r == {}
    ensures ix.Some? && ix.value.tags.Some? ==> r == ix.value.tags.value.Keys
  {
    if ix.None? || ix.value.tags.None? then {} else ix.value.tags.value.Keys
  }

  /** `getTagsForFile`: the path's entry in `fileTags`, or the empty list. */
  function GetTagsForFile(ix: Option<SearchIndex>, path: string): (r: seq<string>)
    ensures ix.None? || ix.value.fileTags.None? || path !in ix.value.fileTags.value ==> r == []
    ensures ix.Some? && ix.value.fileTags.Some? && path in ix.value.fileTags.value ==>
              r == ix.value.fileTags.value[path]
  {
    if ix.None? || ix.value.fileTags.None? || path !in ix.value.fileTags.value then []
    else ix.value.fileTags.value[path]
  }

  /** The new value of the slot after `toggleActiveTag(tag)`. */
  function Toggled(current: Option<string>, tag: string): (r: Option<string>)
    ensures r == None <==> current == Some(tag)
    ensures r != None ==> r == Some(tag)
  {
    if current == Some(tag) then None else Some(tag)
  }

  /** Toggling a tag twice clears the slot, unless that tag was already active. */
  lemma ToggleTwice(current: Option<string>, tag: string)
    ensures Toggled(Toggled(current, tag), tag) == if current == Some(tag) then current else None
  {
  }

  class Tags {
    var activeTag: Option<string>

    constructor ()
      ensures activeTag == None
    {
      activeTag := None;
    }

    /** `fileHasTag`: every path passes while no tag is active (the empty
        tag counts as none, being falsy); otherwise exactly the paths the
        index tags with the active tag. */
    function FileHasTag(ix: Option<SearchIndex>, path: string): (r: bool)
      reads this
      ensures !Truthy(activeTag) ==> r
      ensures Truthy(activeTag) ==> (r <==> activeTag.value in GetTagsForFile(ix, path))
    {
      if !Truthy(activeTag) then true else activeTag.value in GetTagsForFile(ix, path)
    }

    method ToggleActiveTag(tag: string)
      modifies this
      ensures activeTag == Toggled(old(activeTag), tag)
    {
      activeTag := if activeTag == Some(tag) then None else Some(tag);
    }
  }
}
