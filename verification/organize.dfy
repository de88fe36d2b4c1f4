/**
 * How a folder's children are laid out (`organizedChildren` in the folder
 * component of app/page.tsx): the children are split into bookmarks and
 * subfolders, then copies of the two lists are sorted by name or by url
 * with a stable sort, or left in document order.
 */
module BookmarkOrganize {
  import opened JsString
  import opened BookmarkTree

  /** The page's sort setting: `'name'`, `'url'` or `'original'`. */
  datatype SortBy = ByName | ByUrl | Original

  /** The field a comparator reads. */
  datatype SortKey = NameKey | UrlKey

  /** The compared field; folders are never sorted by url, so theirs is never read. */
  function Key(n: Node, k: SortKey): string {
    match k
    case NameKey => n.name
    case UrlKey => if n.Bookmark? then n.url else []
  }

  // ----- partition -----

  /** The bookmark children, in document order. */
  function BookmarkChildren(cs: seq<Node>): (r: seq<Node>)
    ensures forall i | 0 <= i < |r| :: r[i].Bookmark?
  {
    if cs == [] then [] else (if cs[0].Bookmark? then [cs[0]] else []) + BookmarkChildren(cs[1..])
  }

  /** The folder children, in document order. */
  function FolderChildren(cs: seq<Node>): (r: seq<Node>)
    ensures forall i | 0 <= i < |r| :: r[i].Folder?
  {
    if cs == [] then [] else (if cs[0].Folder? then [cs[0]] else []) + FolderChildren(cs[1..])
  }

  lemma {:induction false} BookmarksSnoc(cs: seq<Node>, x: Node)
    ensures BookmarkChildren(cs + [x]) == BookmarkChildren(cs) + (if x.Bookmark? then [x] else [])
    ensures FolderChildren(cs + [x]) == FolderChildren(cs) + (if x.Folder? then [x] else [])
  {
    if cs == [] {
      assert cs + [x] == [x];
      assert [x][1..] == [];
    } else {
      assert (cs + [x])[0] == cs[0] && (cs + [x])[1..] == cs[1..] + [x];
      BookmarksSnoc(cs[1..], x);
    }
  }

  /** Together the two lists hold every child exactly as often as the folder does. */
  lemma {:induction false} PartitionPermutation(cs: seq<Node>)
    ensures multiset(BookmarkChildren(cs)) + multiset(FolderChildren(cs)) == multiset(cs)
  {
    if cs != [] {
      PartitionPermutation(cs[1..]);
      assert cs == [cs[0]] + cs[1..];
    }
  }

  /**
   * The `forEach` that pushes every bookmark child onto one list and every
   * folder child onto the other.
   */
  method Partition(children: seq<Node>) returns (bookmarks: seq<Node>, subfolders: seq<Node>)
    ensures bookmarks == BookmarkChildren(children) && subfolders == FolderChildren(children)
    ensures multiset(bookmarks) + multiset(subfolders) == multiset(children)
  {
    bookmarks, subfolders := [], [];
    var i := 0;
    while i < |children|
      invariant 0 <= i <= |children|
      invariant bookmarks == BookmarkChildren(children[..i])
      invariant subfolders == FolderChildren(children[..i])
    {
      var child := children[i];
      BookmarksSnoc(children[..i], child);
      assert children[..i + 1] == children[..i] + [child];
      if child.Bookmark? {
        bookmarks := bookmarks + [child];
      } else {
        subfolders := subfolders + [child];
      }
      i := i + 1;
    }
    assert children[..i] == children;
    PartitionPermutation(children);
  }

  // ----- stable sort -----

  /** Sorted by the key: every earlier item compares at or below every later one. */
  predicate Sorted(s: seq<Node>, k: SortKey) {
    forall i, j | 0 <= i < j < |s| :: StrLe(Key(s[i], k), Key(s[j], k))
  }

  /** The items whose key is `v`, in their order in `s`. */
  function Select(s: seq<Node>, k: SortKey, v: string): (r: seq<Node>)
    ensures |r| <= |s|
  {
    if s == [] then [] else SelectOne(s[0], k, v) + Select(s[1..], k, v)
  }

  function SelectOne(x: Node, k: SortKey, v: string): seq<Node> {
    if Key(x, k) == v then [x] else []
  }

  /** `x` goes in front of the first item whose key is not below its own. */
  function Insert(x: Node, t: seq<Node>, k: SortKey): (r: seq<Node>)
    ensures multiset(r) == multiset(t) + multiset{x}
  {
    if t == [] || StrLe(Key(x, k), Key(t[0], k)) then [x] + t
    else
      assert t == [t[0]] + t[1..];
      [t[0]] + Insert(x, t[1..], k)
  }

  /** `[...items].sort((a, b) => a.key.localeCompare(b.key))` as an insertion sort. */
  function SortByKey(s: seq<Node>, k: SortKey): (r: seq<Node>)
    ensures multiset(r) == multiset(s)
  {
    if s == [] then []
    else
      assert s == [s[0]] + s[1..];
      Insert(s[0], SortByKey(s[1..], k), k)
  }

  lemma {:induction false} InsertSorted(x: Node, t: seq<Node>, k: SortKey)
    requires Sorted(t, k)
    ensures Sorted(Insert(x, t, k), k)
  {
    if t == [] || StrLe(Key(x, k), Key(t[0], k)) {
      InsertSortedFront(x, t, k);
    } else {
      assert Sorted(t[1..], k) by {
        assert forall i | 0 <= i < |t[1..]| :: t[1..][i] == t[i + 1];
      }
      InsertSorted(x, t[1..], k);
      InsertSortedPast(x, t, k);
    }
  }

  /** `x` goes in front when its key is not above the first item's. */
  lemma {:induction false} InsertSortedFront(x: Node, t: seq<Node>, k: SortKey)
    requires Sorted(t, k)
    requires t == [] || StrLe(Key(x, k), Key(t[0], k))
    ensures Sorted(Insert(x, t, k), k)
  {
    var r := Insert(x, t, k);
    assert r == [x] + t;
    forall i, j | 0 <= i < j < |r|
      ensures StrLe(Key(r[i], k), Key(r[j], k))
    {
      assert r[j] == t[j - 1];
      if i == 0 && j > 1 {
        StrLeTransitive(Key(x, k), Key(t[0], k), Key(t[j - 1], k));
      } else if i > 0 {
        assert r[i] == t[i - 1];
      }
    }
  }

  /** The first item stays in front when its key is below `x`'s. */
  lemma {:induction false} InsertSortedPast(x: Node, t: seq<Node>, k: SortKey)
    requires Sorted(t, k)
    requires t != [] && !StrLe(Key(x, k), Key(t[0], k))
    requires Sorted(Insert(x, t[1..], k), k)
    ensures Sorted(Insert(x, t, k), k)
  {
    var r := Insert(x, t, k);
    var rest := Insert(x, t[1..], k);
    assert r == [t[0]] + rest;
    StrLeTotal(Key(x, k), Key(t[0], k));
    assert forall i | 0 <= i < |t[1..]| :: t[1..][i] == t[i + 1];
    InsertLowerBound(Key(t[0], k), x, t[1..], k);
    forall i, j | 0 <= i < j < |r|
      ensures StrLe(Key(r[i], k), Key(r[j], k))
    {
      assert r[j] == rest[j - 1];
      if i > 0 {
        assert r[i] == rest[i - 1];
      }
    }
  }

  /** A lower bound of `x` and of every item of `t` bounds every item after inserting `x`. */
  lemma {:induction false} InsertLowerBound(b: string, x: Node, t: seq<Node>, k: SortKey)
    requires StrLe(b, Key(x, k))
    requires forall i | 0 <= i < |t| :: StrLe(b, Key(t[i], k))
    ensures forall i | 0 <= i < |Insert(x, t, k)| :: StrLe(b, Key(Insert(x, t, k)[i], k))
  {
    var r := Insert(x, t, k);
    if t == [] || StrLe(Key(x, k), Key(t[0], k)) {
      assert r == [x] + t;
      assert forall i | 0 < i < |r| :: r[i] == t[i - 1];
    } else {
      var rest := Insert(x, t[1..], k);
      assert r == [t[0]] + rest;
      assert forall i | 0 <= i < |t[1..]| :: t[1..][i] == t[i + 1];
      InsertLowerBound(b, x, t[1..], k);
      assert forall i | 0 < i < |r| :: r[i] == rest[i - 1];
    }
  }

  /** The sort puts the items in key order. */
  lemma {:induction false} SortSorted(s: seq<Node>, k: SortKey)
    ensures Sorted(SortByKey(s, k), k)
  {
    if s != [] {
      SortSorted(s[1..], k);
      InsertSorted(s[0], SortByKey(s[1..], k), k);
    }
  }

  lemma {:induction false} SelectCons(x: Node, t: seq<Node>, k: SortKey, v: string)
    ensures Select([x] + t, k, v) == SelectOne(x, k, v) + Select(t, k, v)
  {
    assert ([x] + t)[0] == x && ([x] + t)[1..] == t;
  }

  /** Inserting `x` adds it in front of the items with its key and leaves the order of the others. */
  lemma {:induction false} InsertSelect(x: Node, t: seq<Node>, k: SortKey, v: string)
    ensures Select(Insert(x, t, k), k, v) == SelectOne(x, k, v) + Select(t, k, v)
  {
    if t == [] || StrLe(Key(x, k), Key(t[0], k)) {
      SelectCons(x, t, k, v);
    } else {
      InsertSelect(x, t[1..], k, v);
      StrLeReflexive(Key(x, k));
      InsertSelectPast(x, t, k, v);
    }
  }

  /** The step where `x` moves past the first item, whose key is below its own. */
  lemma {:induction false} InsertSelectPast(x: Node, t: seq<Node>, k: SortKey, v: string)
    requires t != [] && Key(x, k) != Key(t[0], k) && !StrLe(Key(x, k), Key(t[0], k))
    requires Select(Insert(x, t[1..], k), k, v) == SelectOne(x, k, v) + Select(t[1..], k, v)
    ensures Select(Insert(x, t, k), k, v) == SelectOne(x, k, v) + Select(t, k, v)
  {
    var rest := Insert(x, t[1..], k);
    var tail := Select(t[1..], k, v);
    var one := SelectOne(x, k, v);
    var first := SelectOne(t[0], k, v);
    calc {
      Select(Insert(x, t, k), k, v);
    == { assert Insert(x, t, k) == [t[0]] + rest; SelectCons(t[0], rest, k, v); }
      first + Select(rest, k, v);
    ==
      first + (one + tail);
    == { SwapOne(x, t[0], k, v, tail); }
      one + (first + tail);
    ==
      one + Select(t, k, v);
    }
  }

  /** Items with different keys never both pass the same key selection, so their order does not matter to it. */
  lemma {:induction false} SwapOne(x: Node, y: Node, k: SortKey, v: string, tail: seq<Node>)
    requires Key(x, k) != Key(y, k)
    ensures SelectOne(y, k, v) + (SelectOne(x, k, v) + tail) == SelectOne(x, k, v) + (SelectOne(y, k, v) + tail)
  {
    if Key(x, k) == v {
      assert [] + ([x] + tail) == [x] + ([] + tail);
    } else if Key(y, k) == v {
      assert [y] + ([] + tail) == [] + ([y] + tail);
    } else {
      assert [] + ([] + tail) == [] + ([] + tail);
    }
  }

  /** Stability: items with equal keys keep their original relative order. */
  lemma {:induction false} SortStable(s: seq<Node>, k: SortKey, v: string)
    ensures Select(SortByKey(s, k), k, v) == Select(s, k, v)
  {
    if s != [] {
      SortStable(s[1..], k, v);
      InsertSelect(s[0], SortByKey(s[1..], k), k, v);
      SelectCons(s[0], s[1..], k, v);
      assert s == [s[0]] + s[1..];
    }
  }

  // ----- the layout -----

  /** Every item of a permutation of a list of bookmarks is a bookmark. */
  lemma {:induction false} KindsOfPermutation(a: seq<Node>, b: seq<Node>, bookmark: bool)
    requires multiset(a) == multiset(b)
    requires forall i | 0 <= i < |b| :: b[i].Bookmark? == bookmark
    ensures forall i | 0 <= i < |a| :: a[i].Bookmark? == bookmark
  {
    forall i | 0 <= i < |a|
      ensures a[i].Bookmark? == bookmark
    {
      assert a[i] in multiset(b);
    }
  }

  /** `sortedBookmarks`: by name, by url, or the list itself. */
  function ArrangeBookmarks(bs: seq<Node>, sortBy: SortBy): (r: seq<Node>)
    requires forall i | 0 <= i < |bs| :: bs[i].Bookmark?
    ensures multiset(r) == multiset(bs)
    ensures forall i | 0 <= i < |r| :: r[i].Bookmark?
    ensures sortBy == Original ==> r == bs
    ensures sortBy == ByName ==> Sorted(r, NameKey) && forall v :: Select(r, NameKey, v) == Select(bs, NameKey, v)
    ensures sortBy == ByUrl ==> Sorted(r, UrlKey) && forall v :: Select(r, UrlKey, v) == Select(bs, UrlKey, v)
  {
    if sortBy == Original then bs
    else
      var k := if sortBy == ByName then NameKey else UrlKey;
      var r := SortByKey(bs, k);
      SortSorted(bs, k);
      KindsOfPermutation(r, bs, true);
      assert forall v :: Select(r, k, v) == Select(bs, k, v) by {
        forall v ensures Select(r, k, v) == Select(bs, k, v) {
          SortStable(bs, k, v);
        }
      }
      r
  }

  /** `sortedSubfolders`: by name in name mode, otherwise the list itself. */
  function ArrangeSubfolders(fs: seq<Node>, sortBy: SortBy): (r: seq<Node>)
    requires forall i | 0 <= i < |fs| :: fs[i].Folder?
    ensures multiset(r) == multiset(fs)
    ensures forall i | 0 <= i < |r| :: r[i].Folder?
    ensures sortBy != ByName ==> r == fs
    ensures sortBy == ByName ==> Sorted(r, NameKey) && forall v :: Select(r, NameKey, v) == Select(fs, NameKey, v)
  {
    if sortBy != ByName then fs
    else
      var r := SortByKey(fs, NameKey);
      SortSorted(fs, NameKey);
      KindsOfPermutation(r, fs, false);
      assert forall v :: Select(r, NameKey, v) == Select(fs, NameKey, v) by {
        forall v ensures Select(r, NameKey, v) == Select(fs, NameKey, v) {
          SortStable(fs, NameKey, v);
        }
      }
      r
  }

  /**
   * `organizedChildren`: name mode sorts both lists by name, url mode sorts
   * the bookmarks by url and keeps the subfolders in document order, and
   * original mode keeps both lists in document order.
   */
  method Organize(children: seq<Node>, sortBy: SortBy) returns (bookmarks: seq<Node>, subfolders: seq<Node>)
    ensures multiset(bookmarks) + multiset(subfolders) == multiset(children)
    ensures forall i | 0 <= i < |bookmarks| :: bookmarks[i].Bookmark?
    ensures forall i | 0 <= i < |subfolders| :: subfolders[i].Folder?
    ensures sortBy == Original ==> bookmarks == BookmarkChildren(children) && subfolders == FolderChildren(children)
    ensures sortBy == ByName ==> Sorted(bookmarks, NameKey) && Sorted(subfolders, NameKey)
    ensures sortBy == ByUrl ==> Sorted(bookmarks, UrlKey) && subfolders == FolderChildren(children)
    ensures sortBy == ByName ==> forall v :: Select(bookmarks, NameKey, v) == Select(BookmarkChildren(children), NameKey, v)
    ensures sortBy == ByName ==> forall v :: Select(subfolders, NameKey, v) == Select(FolderChildren(children), NameKey, v)
    ensures sortBy == ByUrl ==> forall v :: Select(bookmarks, UrlKey, v) == Select(BookmarkChildren(children), UrlKey, v)
  {
    var bs, fs := Partition(children);
    bookmarks := ArrangeBookmarks(bs, sortBy);
    subfolders := ArrangeSubfolders(fs, sortBy);
  }
}
