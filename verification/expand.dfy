/**
 * The set of open folders on the bookmarks page and `toggleFolder`
 * (app/page.tsx), which opens a closed folder and closes an open one.
 * Folders are identified by their id strings.
 */
module ExpandedFolders {
  /** `toggleFolder(folderId)`: a copy of the set with `folderId`'s membership flipped. */
  function Toggle(expanded: set<string>, folderId: string): (r: set<string>)
    ensures folderId in r <==> folderId !in expanded
    ensures forall id | id != folderId :: id in r <==> id in expanded
  {
    if folderId in expanded then expanded - {folderId} else expanded + {folderId}
  }

  /** Toggling the same folder twice restores the set. */
  lemma {:induction false} ToggleTwice(expanded: set<string>, folderId: string)
    ensures Toggle(Toggle(expanded, folderId), folderId) == expanded
  {
  }

  /** Toggles of different folders do not interfere: their order does not matter. */
  lemma {:induction false} ToggleCommutes(expanded: set<string>, a: string, b: string)
    ensures Toggle(Toggle(expanded, a), b) == Toggle(Toggle(expanded, b), a)
  {
  }
}
