# BookmarkNest core in Dafny

BookmarkNest reads a browser's bookmarks export (the Netscape bookmark
HTML format) and shows it as a tree. This project models the logic of that
viewer in Dafny. It covers four pieces:

- **The parser** `parseBookmarksHTML` (lib/bookmark-parser.ts). It runs over
  an already built element tree. It finds the first `DL` of the document
  and parses each `DT` entry. An `A` becomes a bookmark. An `H3` becomes a
  folder whose children come from the first `DL` after the heading. A
  top-level folder named `Bookmarks Bar` is flattened into a synthetic root
  folder named `Bookmarks`. Ids `item-N` come from a counter local to one
  parse; the model threads it explicitly, so every parsing function takes
  the next free counter value and returns the next free value after it.
- **The search filter** `filterFolder` (app/page.tsx). It rebuilds the tree
  and keeps only the bookmarks whose lower-cased name or url contains the
  lower-cased term. It keeps every folder.
- **The folder layout** `organizedChildren` (app/page.tsx). It splits a
  folder's children into bookmarks and subfolders. It then sorts copies of
  the two lists by name or url with a stable sort, or leaves them in
  document order.
- **The open-folder toggle** `toggleFolder` (app/page.tsx).

Modules:

| file | module | contents |
|---|---|---|
| wrappers.dfy | `Wrappers` | `Option`, `Result` |
| js_string.dfy | `JsString` | `trim`, `includes`, `toLowerCase` (ASCII), string order standing in for `localeCompare` |
| js_number.dfy | `JsNumber` | `parseInt` without a radix, decimal rendering of the id counter |
| dom.dfy | `Dom` | the element tree, `getAttribute`, `querySelectorAll` in document order |
| bookmark_tree.dfy | `BookmarkTree` | `Bookmark` / `BookmarkFolder` as `Node`, ids, pre-order views, well-formedness |
| parser.dfy | `BookmarkParser` | `parseBookmarksHTML` and `parseElement`, the id discipline, bar flattening |
| filter.dfy | `BookmarkFilter` | `filteredBookmarks` / `filterFolder` and a reference definition of what survives |
| organize.dfy | `BookmarkOrganize` | partition, stable insertion sort, `organizedChildren` |
| expand.dfy | `ExpandedFolders` | `toggleFolder` |

Three behaviours of the code that are easy to miss:

- A non-empty `add_date` from which `parseInt` reads no number gives
  `dateAdded` the value `NaN` (`parseInt` yields `NaN`, times 1000); it is
  not left absent. That happens when no digit follows the leading white
  space and optional sign, or when `0x` is followed by no hex digit.
  `Stamp.NotANumber` models this.
- The search filter never prunes a folder, even one that is left empty.
- The parser flattens only top-level `Bookmarks Bar` folders. A folder of
  that name deeper in the tree stays an ordinary folder. A `Bookmarks Bar`
  nested directly inside the top-level one therefore becomes a child of
  the root, unflattened.

## Model

| member | source | states |
|---|---|---|
| BookmarkParser.ParseBookmarksHtml | lib/bookmark-parser.ts:84-115 | fails exactly when the document has no `DL`; on success the root is a folder named `Bookmarks` whose id text is `item-0` and that has no date; the whole tree is well formed (every name trimmed and non-empty, every url non-empty) and its ids are pairwise distinct; the root's children are the entries of the document's first `DL` in document order, with every top-level `Bookmarks Bar` folder replaced by its children |
| BookmarkParser.ParseElement | lib/bookmark-parser.ts:24-81 | an element that yields nothing consumes no id; one that yields a node consumes a contiguous block of ids starting at the next counter value, handed out in pre-order (the node's own id first); the node is well formed |
| BookmarkParser.ParseAnchor | lib/bookmark-parser.ts:25-38 | a rejected anchor consumes no id; an accepted one consumes exactly one id and is well formed |
| BookmarkParser.ParseHeading | lib/bookmark-parser.ts:41-78 | a heading yields nothing exactly when its text is blank, and then consumes no id; a folder takes its id before all ids of its entries |
| BookmarkParser.FolderList | lib/bookmark-parser.ts:55-61 | the list a heading uses is a `DL` among the siblings after it |
| BookmarkParser.ListEntries | lib/bookmark-parser.ts:51-75 | a heading's entries take exactly the ids from the counter's start to its end, in pre-order and without gaps, and are well formed; with no list after the heading there are none and no id is taken |
| Dom.FirstWithTag | lib/bookmark-parser.ts:56-59 | the sibling scan stops at the first element with the tag and passes over all earlier ones; none is found only when no sibling has the tag |
| BookmarkParser.ParseItem | lib/bookmark-parser.ts:64-73 | a list child yields nothing and consumes no id, or yields a well-formed node with a contiguous id block |
| BookmarkParser.ParseEntries | lib/bookmark-parser.ts:61-75 | a list's entries take exactly the ids from the counter's start to its end, in pre-order and without gaps; every entry is well formed |
| BookmarkParser.ElementSkipRule | lib/bookmark-parser.ts:24-81 | an element yields nothing if and only if it is an `A` with a missing or empty `href` or blank text, an `H3` with blank text, or any other tag; and then it consumes no id |
| BookmarkParser.AnchorBookmark | lib/bookmark-parser.ts:25-38 | an accepted `A` is a bookmark with the next id, the trimmed text as name and the `href` verbatim as url |
| BookmarkParser.HeadingTakesFirstList | lib/bookmark-parser.ts:41-75 | a named `H3` is a folder with the next id, the trimmed text as name and the entries of the first `DL` after it as children, skipping any non-`DL` siblings in between |
| BookmarkParser.HeadingWithoutList | lib/bookmark-parser.ts:55-77 | a named `H3` with no `DL` after it is a folder with no children that consumes one id |
| BookmarkParser.OnlyCandidatesCount | lib/bookmark-parser.ts:64-73 | non-`DT` children, `DT`s without an element child and `DT`s whose first child is neither `A` nor `H3` contribute nothing: the list parses like the list without them |
| BookmarkParser.ParseEntriesAppend | lib/bookmark-parser.ts:64-74 | entries are parsed in document order: earlier entries come first in the folder and get the lower ids |
| BookmarkParser.NestedEntryKept | lib/bookmark-parser.ts:68-71 | inside a folder's list a parsed entry is appended as it is, even a folder named `Bookmarks Bar`, and a child that yields nothing adds nothing |
| BookmarkParser.ParseTop | lib/bookmark-parser.ts:99-113 | the main loop gives what the folder loop over the same list gives, followed by splicing out top-level `Bookmarks Bar` folders, and leaves the counter where the folder loop does |
| BookmarkParser.Pushed | lib/bookmark-parser.ts:105-111 | what the main loop appends for one parsed entry is that entry spliced: a bar folder's children in its place, any other item itself, nothing for no item |
| BookmarkParser.MainList | lib/bookmark-parser.ts:84-85 | the main list is the first `DL` of the document in document order, which is the first element `querySelectorAll('dl')` returns |
| BookmarkParser.RootFlattensBar | lib/bookmark-parser.ts:105-111 | the root's children are the main list's entries with every top-level bar folder replaced by its children, and no top-level bar folder is itself a child of the root |
| BookmarkParser.SpliceMembers | lib/bookmark-parser.ts:105-111 | a node is a child of the root if and only if it is a top-level item that is not a bar, or a child of a top-level bar |
| BookmarkParser.SpliceAppend | lib/bookmark-parser.ts:101-113 | splicing goes item by item, so items around a bar keep their order and the bar's children take its place |
| BookmarkParser.SpliceDropsBars | lib/bookmark-parser.ts:105-108 | with distinct ids, no bar folder survives splicing |
| BookmarkParser.BarIdDropped | lib/bookmark-parser.ts:105-108 | the id of a flattened bar appears nowhere in the root's subtree |
| BookmarkParser.SpliceIds | lib/bookmark-parser.ts:105-111 | splicing keeps ids distinct and introduces no new id |
| BookmarkParser.SpliceWellFormed | lib/bookmark-parser.ts:105-111 | splicing well-formed items gives well-formed items |
| BookmarkParser.RootSound | lib/bookmark-parser.ts:91-113 | the root over the spliced items is well formed and its id `item-0` differs from every id below it |
| BookmarkParser.IdRangeDistinct | lib/bookmark-parser.ts:21-22 | the ids of one counter range are pairwise distinct and are exactly the ids of that range |
| BookmarkParser.RootIdTextsDistinct | lib/bookmark-parser.ts:21-22 | the id strings of one parse are pairwise distinct |
| BookmarkTree.IdTextInjective | lib/bookmark-parser.ts:22 | different counter values give different `item-N` strings |
| Dom.GetAttribute | lib/bookmark-parser.ts:26-28 | `getAttribute` gives a value exactly when the attribute is present, and then the attribute's value; otherwise `null` |
| JsNumber.Decimal | lib/bookmark-parser.ts:22 | the counter's decimal rendering is non-empty, all digits, and has no leading zero except for 0 itself |
| BookmarkTree.IdText | lib/bookmark-parser.ts:22 | an id string is `item-` followed by at least one decimal digit and nothing else |
| BookmarkParser.DateAdded | lib/bookmark-parser.ts:37 | the date is absent exactly when `add_date` is missing or empty, `NaN` exactly when `parseInt` reads no number from a non-empty `add_date`, and otherwise the number read times 1000 |
| BookmarkParser.DateAddedFromSeconds | lib/bookmark-parser.ts:37 | a decimal `add_date` of n seconds gives n * 1000 milliseconds |
| BookmarkParser.DateAddedAbsent | lib/bookmark-parser.ts:37 | a missing or empty `add_date` leaves the date absent |
| BookmarkParser.DateAddedNaN | lib/bookmark-parser.ts:37 | a non-empty `add_date` without a digit gives `NaN`, not an absent date |
| Dom.QuerySelectorAllEmpty | lib/bookmark-parser.ts:84-89 | the list of `DL` elements is empty if and only if the document has no `DL` anywhere |
| Dom.WithTag | lib/bookmark-parser.ts:84-85 | selecting by tag returns exactly the elements with the tag, and only those; it is empty exactly when no element has the tag, and otherwise its first element is the first element with the tag |
| Dom.QuerySelectorAll | lib/bookmark-parser.ts:84-85 | `querySelectorAll` returns exactly the document's elements with the tag; its first element is the first with the tag in document order, and it is empty exactly when there is none |
| JsString.Trim | lib/bookmark-parser.ts:27 | a trimmed name is empty exactly when the text is all white space, and otherwise has no white space at either end |
| JsString.TrimInside | lib/bookmark-parser.ts:27 | the trimmed name is the piece of the text that starts where the leading white space ends, and everything after it is white space: only white space is dropped, at either end |
| JsString.Includes | app/page.tsx:70-71 | `includes` holds only when the needle fits in the string; the empty needle is in every string, and a prefix or a suffix is always included |
| JsString.Lower | app/page.tsx:70-71 | lower-casing keeps the length, leaves no upper-case ASCII letter, changes only upper-case ASCII letters, and maps each to its lower-case letter |
| JsString.LowerIdempotent | app/page.tsx:70-71 | lower-casing a lower-cased string changes nothing |
| JsString.TrimIdempotent | lib/bookmark-parser.ts:42 | trimming a trimmed name changes nothing |
| JsNumber.ParseIntDecimal | lib/bookmark-parser.ts:37 | `parseInt` reads back the decimal rendering of any natural number |
| JsNumber.ParseIntNegative | lib/bookmark-parser.ts:37 | `parseInt` reads a minus sign before a decimal as a negative number |
| JsNumber.ParseIntSkipsSpace | lib/bookmark-parser.ts:37 | leading white space does not change what `parseInt` reads |
| JsNumber.ParseIntStopsAtNonDigit | lib/bookmark-parser.ts:37 | `parseInt` stops at the first non-digit after the number |
| JsNumber.ParseInt | lib/bookmark-parser.ts:37 | a number is read only from a string that holds a digit, so a string without one reads as `NaN`; a negative number is read only when a minus sign follows the leading white space |
| JsNumber.DecimalInjective | lib/bookmark-parser.ts:22 | different counter values have different decimal renderings |
| BookmarkFilter.Matches | app/page.tsx:70-71 | only bookmarks match; every bookmark matches the empty term, and a bookmark matches its own name in any ASCII casing |
| BookmarkFilter.MatchIgnoresCase | app/page.tsx:70-71 | lower-casing the term does not change which bookmarks match |
| BookmarkFilter.FilterFolder | app/page.tsx:64-80 | the filtered folder is a folder with the same id, name and date, and it has no more children than before; where its children go is stated by `FilterPlacesChildren` |
| BookmarkFilter.FilterChildren | app/page.tsx:65-74 | only folders and matching bookmarks come out of a list; every matching bookmark child does, and every bookmark that comes out was a child |
| BookmarkFilter.FilterOne | app/page.tsx:66-73 | a child contributes nothing exactly when it is a bookmark that does not match; a matching bookmark contributes itself; a folder contributes one folder with its id and name |
| BookmarkFilter.FilterPlacesChildren | app/page.tsx:64-79 | at every level the filtered list is the kept children (every folder, every matching bookmark) at their increasing positions, a folder replaced by its filtered copy: no child moves to another folder and no two children swap places |
| BookmarkFilter.FilteredBookmarks | app/page.tsx:61-83 | no tree stays no tree and an empty term gives the tree itself; otherwise the result is the root folder with the same id and name whose children are its kept children at their positions, folders filtered; the folder skeleton is the same, and the bookmarks left are exactly the matching ones in their original order |
| BookmarkFilter.FilterKeepsMatching | app/page.tsx:65-74 | the bookmarks anywhere under the filtered children are exactly the matching bookmarks of the original children, in the same order |
| BookmarkFilter.SurvivesIffMatches | app/page.tsx:61-71 | for every term, the empty one included, a bookmark is still in the filtered tree if and only if it was in the tree and its lower-cased name or url contains the lower-cased term |
| BookmarkFilter.KeepMembers | app/page.tsx:70-71 | a node survives the reference filter if and only if it was there and matches |
| BookmarkFilter.FilterKeepsShape | app/page.tsx:64-80 | every folder survives with the same id, name and date, in the same place: the folder skeleton is unchanged |
| BookmarkFilter.FilterIdempotent | app/page.tsx:64-80 | filtering filtered children again with the same term changes nothing |
| BookmarkFilter.FilteredBookmarksIdempotent | app/page.tsx:61-83 | applying the whole filter twice with the same term gives the result of applying it once |
| BookmarkFilter.FilterEmptyTerm | app/page.tsx:62 | filtering with the empty term would return the children unchanged, so the early return agrees with the filter |
| BookmarkFilter.KeepEmptyTerm | app/page.tsx:62 | every bookmark matches the empty term |
| BookmarkOrganize.Partition | app/page.tsx:481-490 | the pushes give the bookmark children and the folder children, each in document order, and together they are a permutation of the children |
| BookmarkOrganize.PartitionPermutation | app/page.tsx:484-490 | the two lists together hold every child exactly as often as the folder does |
| BookmarkOrganize.Insert | app/page.tsx:492-500 | inserting adds exactly the one item |
| BookmarkOrganize.SortByKey | app/page.tsx:492-500 | sorting is a permutation of its input |
| BookmarkOrganize.InsertSorted | app/page.tsx:492-500 | inserting into a sorted list keeps it sorted |
| BookmarkOrganize.SortSorted | app/page.tsx:492-500 | sorting puts the items in key order |
| BookmarkOrganize.InsertSelect | app/page.tsx:492-500 | insertion puts the new item before the items with an equal key and keeps the order of the others |
| BookmarkOrganize.SortStable | app/page.tsx:492-500 | the sort is stable: items with equal keys keep their original relative order |
| BookmarkOrganize.ArrangeBookmarks | app/page.tsx:492-496 | the bookmark list is a permutation of the bookmarks that stays all bookmarks; stably sorted by name in name mode, by url in url mode, unchanged in original mode |
| BookmarkOrganize.ArrangeSubfolders | app/page.tsx:498-500 | the folder list is stably sorted by name in name mode and unchanged otherwise |
| BookmarkOrganize.Organize | app/page.tsx:480-503 | the two lists together are a permutation of the children, one all bookmarks and one all folders; original mode keeps document order; name mode sorts both by name and url mode sorts the bookmarks by url, both stably; url mode leaves the subfolders in document order |
| JsString.StrLe | app/page.tsx:493-499 | the stand-in for `localeCompare(...) <= 0`: a string comes at or before every string it is a prefix of, and two strings whose first characters differ compare as those characters do |
| JsString.StrLeTotal | app/page.tsx:493 | any two strings compare one way or the other |
| JsString.StrLeTransitive | app/page.tsx:493 | the string order is transitive |
| JsString.StrLeAntisymmetric | app/page.tsx:493 | strings that compare both ways are equal |
| JsString.StrLeReflexive | app/page.tsx:493 | every string compares at or below itself |
| ExpandedFolders.Toggle | app/page.tsx:49-59 | the toggled folder is open afterwards exactly when it was closed before; every other folder keeps its state |
| ExpandedFolders.ToggleTwice | app/page.tsx:49-59 | toggling the same folder twice restores the set |
| ExpandedFolders.ToggleCommutes | app/page.tsx:49-59 | toggles of two folders give the same set in either order |

The copy-on-write of the source (the spread in `filterFolder`, `[...bookmarks]`
before sorting, `new Set(prev)` in `toggleFolder`) holds by construction:
every value in the model is immutable, so no operation can change its input.

## Left out

- `DOMParser` (lib/bookmark-parser.ts:18-19) is a foreign HTML5 tree builder. The model starts from its output, an `Element` tree. `textContent` is taken as a given string field.
- Element and attribute names are taken as the tree builder normalises them: tag names upper case, attribute keys lower case. `querySelectorAll('dl')` is modelled as a match on tag `DL`.
- Strings are sequences of Dafny characters, not UTF-16 code units. `trim` uses the ECMAScript white-space and line-terminator set.
- JsString.Lower: lower-cases ASCII letters only; full Unicode case mapping is outside the model.
- JsString.StrLe: stands in for `localeCompare` with plain character order; locale collation (accents, case, numeric ordering) is outside the model, so sortedness and stability are stated for this order.
- JsNumber.ParseInt: returns an unbounded integer; the IEEE 754 double that `parseInt` returns loses precision above 2^53, and `-0` is not distinguished from `0`.
- BookmarkParser.DateAdded: `parseInt(...) * 1000` is exact integer multiplication, without rounding to a double.
- The error the parser throws is modelled as a `Failure` value; the message text is not modelled.
- Rendering, hooks and layout in app/page.tsx (view modes, icons, particles, mouse tracking, dark mode) are UI.
- File reading, `alert`, `console` and the initial open set `{root id}` set by `handleFileUpload` (app/page.tsx:30-47) are I/O around the parser.
- The JSON export (app/page.tsx:85-96) is a foreign serializer plus browser I/O.
- Favicon and hostname derivation with `new URL` is a foreign URL parser.
- tailwind.config.ts is static styling data.
