/**
 * The search filter of the bookmarks page (`filteredBookmarks` and its
 * inner `filterFolder` in app/page.tsx): a copy of the tree in which every
 * folder is kept and only the bookmarks whose name or url contains the
 * search term, ignoring case, remain.
 */
module BookmarkFilter {
  import opened Wrappers
  import opened JsString
  import opened BookmarkTree

  /**
   * A bookmark matches when its lower-cased name or lower-cased url
   * includes the lower-cased term. Folder names are never matched; every
   * bookmark matches the empty term and any casing of its own name.
   */
  predicate Matches(n: Node, term: string): (r: bool)
    ensures r ==> n.Bookmark?
    ensures n.Bookmark? && term == [] ==> r
    ensures n.Bookmark? && Lower(term) == Lower(n.name) ==> r
  {
    && n.Bookmark?
    && (Includes(Lower(n.name), Lower(term)) || Includes(Lower(n.url), Lower(term)))
  }

  /** Matching ignores the case of the term: a lower-cased term matches the same bookmarks. */
  lemma {:induction false} MatchIgnoresCase(n: Node, term: string)
    ensures Matches(n, Lower(term)) <==> Matches(n, term)
  {
    LowerIdempotent(term);
  }

  /** `filterFolder`: the same folder with its children filtered. */
  function FilterFolder(f: Node, term: string): (r: Node)
    requires f.Folder?
    ensures r.Folder? && r.id == f.id && r.name == f.name && r.dateAdded == f.dateAdded
    ensures |r.children| <= |f.children|
    decreases f, 1
  {
    f.(children := FilterChildren(f.children, term))
  }

  /**
   * The `map` then `filter(Boolean)` over a folder's children: a folder is
   * replaced by its filtered copy, a bookmark is kept or dropped. Only
   * folders and matching bookmarks come out, every matching bookmark does,
   * and every bookmark that comes out was a child.
   */
  function FilterChildren(cs: seq<Node>, term: string): (r: seq<Node>)
    ensures |r| <= |cs|
    ensures forall x | x in r :: x.Folder? || Matches(x, term)
    ensures forall x | x in r && x.Bookmark? :: x in cs
    ensures forall i | 0 <= i < |cs| && Matches(cs[i], term) :: cs[i] in r
    decreases cs, 0
  {
    if cs == [] then []
    else
      var rest := FilterChildren(cs[1..], term);
      assert forall i | 1 <= i < |cs| :: cs[i] == cs[1..][i - 1];
      FilterOne(cs[0], term) + rest
  }

  /**
   * What one child contributes to the filtered list: nothing exactly when
   * it is a bookmark that does not match, the bookmark itself when it
   * matches, and a folder with the same id, name and date for a folder.
   */
  function FilterOne(c: Node, term: string): (r: seq<Node>)
    ensures |r| <= 1
    ensures r == [] <==> c.Bookmark? && !Matches(c, term)
    ensures c.Bookmark? && r != [] ==> r == [c]
    ensures c.Folder? ==> |r| == 1 && r[0].Folder? && r[0].id == c.id && r[0].name == c.name
    decreases c, 2
  {
    if c.Folder? then [FilterFolder(c, term)]
    else if Matches(c, term) then [c]
    else []
  }

  /**
   * `filteredBookmarks`: no tree stays no tree, an empty term shows the
   * tree as it is, any other term filters from the root. The root keeps its
   * id and name; its children are its folders, filtered, and its matching
   * bookmarks, each at its place among them; every folder below survives
   * with its id, name and date, and the bookmarks left are the matching
   * ones, in document order.
   */
  function FilteredBookmarks(tree: Option<Node>, term: string): (r: Option<Node>)
    requires tree.Some? ==> tree.value.Folder?
    ensures r.Some? <==> tree.Some?
    ensures term == [] ==> r == tree
    ensures r.Some? ==> r.value.Folder? && r.value.id == tree.value.id && r.value.name == tree.value.name
    ensures r.Some? ==>
      var ks := KeptIndices(tree.value.children, term);
      && |r.value.children| == |ks|
      && forall k | 0 <= k < |ks| :: r.value.children[k] == Image(tree.value.children[ks[k]], term)
    ensures r.Some? ==> Shape(r.value) == Shape(tree.value)
    ensures r.Some? ==> BookmarksOf(r.value) == Keep(BookmarksOf(tree.value), term)
  {
    if tree.None? then tree
    else if term == [] then
      KeepEmptyTerm(BookmarksOf(tree.value));
      FilterPlacesChildren(tree.value.children, term);
      FilterEmptyTerm(tree.value.children);
      tree
    else
      var f := tree.value;
      FilterKeepsMatching(f.children, term);
      FilterKeepsShape(f.children, term);
      FilterPlacesChildren(f.children, term);
      Some(FilterFolder(f, term))
  }

  // ----- where each surviving child goes -----

  /** A child the filter keeps at its own level: every folder and every matching bookmark. */
  predicate Kept(c: Node, term: string) {
    c.Folder? || Matches(c, term)
  }

  /** What a kept child becomes: a folder its filtered copy, a bookmark itself. */
  function Image(c: Node, term: string): Node
    decreases c, 2
  {
    if c.Folder? then FilterFolder(c, term) else c
  }

  /** The positions of the kept children, in increasing order. */
  function KeptIndices(cs: seq<Node>, term: string): (r: seq<nat>)
    ensures forall k | 0 <= k < |r| :: r[k] < |cs| && Kept(cs[r[k]], term)
    ensures forall k, l | 0 <= k < l < |r| :: r[k] < r[l]
    ensures forall i | 0 <= i < |cs| && Kept(cs[i], term) :: i in r
    decreases |cs|
  {
    if cs == [] then []
    else
      var n := |cs| - 1;
      var p := cs[..n];
      assert forall i | 0 <= i < n :: p[i] == cs[i];
      KeptIndices(p, term) + (if Kept(cs[n], term) then [n] else [])
  }

  /**
   * At every level, the filtered list holds exactly the images of the kept
   * children, in the order of their positions: no child moves to another
   * folder and no two children swap places.
   */
  lemma {:induction false} FilterPlacesChildren(cs: seq<Node>, term: string)
    ensures var ks := KeptIndices(cs, term);
      var r := FilterChildren(cs, term);
      && |r| == |ks|
      && forall k | 0 <= k < |ks| :: r[k] == Image(cs[ks[k]], term)
    decreases |cs|
  {
    if cs != [] {
      var n := |cs| - 1;
      var p := cs[..n];
      FilterPlacesChildren(p, term);
      assert cs == p + [cs[n]];
      PlacesSnoc(p, cs[n], term);
    }
  }

  /** Placement carries over from a list to the list with one more child at its end. */
  lemma {:induction false} PlacesSnoc(p: seq<Node>, x: Node, term: string)
    requires var ks := KeptIndices(p, term);
      var r := FilterChildren(p, term);
      && |r| == |ks|
      && forall k | 0 <= k < |ks| :: r[k] == Image(p[ks[k]], term)
    ensures var cs := p + [x];
      var ks := KeptIndices(cs, term);
      var r := FilterChildren(cs, term);
      && |r| == |ks|
      && forall k | 0 <= k < |ks| :: r[k] == Image(cs[ks[k]], term)
  {
    var cs := p + [x];
    var kp := KeptIndices(p, term);
    var rp := FilterChildren(p, term);
    var tail := if Kept(x, term) then [Image(x, term)] else [];
    SnocSteps(p, x, term);
    var ks := KeptIndices(cs, term);
    var r := FilterChildren(cs, term);
    assert |r| == |ks|;
    forall k | 0 <= k < |ks|
      ensures r[k] == Image(cs[ks[k]], term)
    {
      if k < |kp| {
        assert r[k] == rp[k] && ks[k] == kp[k];
        assert cs[kp[k]] == p[kp[k]];
      } else {
        assert r[k] == Image(x, term) && ks[k] == |p|;
      }
    }
  }

  /** One more child at the end adds one more position and one more image exactly when it is kept. */
  lemma {:induction false} SnocSteps(p: seq<Node>, x: Node, term: string)
    ensures KeptIndices(p + [x], term) == KeptIndices(p, term) + (if Kept(x, term) then [|p|] else [])
    ensures FilterChildren(p + [x], term)
      == FilterChildren(p, term) + (if Kept(x, term) then [Image(x, term)] else [])
  {
    var cs := p + [x];
    assert cs[..|p|] == p && cs[|p|] == x;
    FilterAppend(p, [x], term);
    FilterSingle(x, term);
  }

  lemma {:induction false} FilterSingle(x: Node, term: string)
    ensures FilterChildren([x], term) == (if Kept(x, term) then [Image(x, term)] else [])
  {
    assert [x][1..] == [];
    assert FilterChildren([x], term) == FilterOne(x, term) + [];
  }

  // ----- the reference definition: the bookmarks that match, in order -----

  function Keep(s: seq<Node>, term: string): (r: seq<Node>)
    ensures |r| <= |s|
  {
    if s == [] then []
    else KeepOne(s[0], term) + Keep(s[1..], term)
  }

  function KeepOne(x: Node, term: string): seq<Node> {
    if Matches(x, term) then [x] else []
  }

  /** A node survives `Keep` exactly when it was there and matches. */
  lemma {:induction false} KeepMembers(s: seq<Node>, term: string, x: Node)
    ensures x in Keep(s, term) <==> x in s && Matches(x, term)
  {
    if s != [] {
      KeepMembers(s[1..], term, x);
      assert s == [s[0]] + s[1..];
    }
  }

  lemma {:induction false} KeepAppend(a: seq<Node>, b: seq<Node>, term: string)
    ensures Keep(a + b, term) == Keep(a, term) + Keep(b, term)
  {
    if a == [] {
      assert a + b == b;
    } else {
      assert (a + b)[0] == a[0] && (a + b)[1..] == a[1..] + b;
      KeepAppend(a[1..], b, term);
    }
  }

  /** Every bookmark matches the empty term, so `Keep` with it keeps all bookmarks. */
  lemma {:induction false} KeepEmptyTerm(s: seq<Node>)
    requires forall i | 0 <= i < |s| :: s[i].Bookmark?
    ensures Keep(s, []) == s
  {
    if s != [] {
      assert OccursAt(Lower(s[0].name), Lower([]), 0);
      KeepEmptyTerm(s[1..]);
      assert s == [s[0]] + s[1..];
    }
  }

  lemma {:induction false} FilterAppend(a: seq<Node>, b: seq<Node>, term: string)
    ensures FilterChildren(a + b, term) == FilterChildren(a, term) + FilterChildren(b, term)
  {
    if a == [] {
      assert a + b == b;
    } else {
      assert (a + b)[0] == a[0] && (a + b)[1..] == a[1..] + b;
      FilterAppend(a[1..], b, term);
    }
  }

  // ----- what filtering keeps -----

  /**
   * The bookmarks left anywhere under the filtered children are exactly
   * the matching bookmarks of the original children, in the same order.
   */
  lemma {:induction false} FilterKeepsMatching(cs: seq<Node>, term: string)
    ensures BookmarksOfAll(FilterChildren(cs, term)) == Keep(BookmarksOfAll(cs), term)
    decreases cs
  {
    if cs != [] {
      var c := cs[0];
      FilterKeepsMatching(cs[1..], term);
      BookmarksOfAllAppend(FilterOne(c, term), FilterChildren(cs[1..], term));
      KeepAppend(BookmarksOf(c), BookmarksOfAll(cs[1..]), term);
      assert BookmarksOfAll(FilterOne(c, term)) == Keep(BookmarksOf(c), term) by {
        if c.Folder? {
          FilterKeepsMatching(c.children, term);
          assert BookmarksOfAll([FilterFolder(c, term)]) == BookmarksOf(FilterFolder(c, term)) + [];
        } else {
          assert [c][1..] == [];
          assert BookmarksOf(c) == [c];
          if Matches(c, term) {
            assert BookmarksOfAll([c]) == [c] + [];
          }
        }
      }
    }
  }

  /** A bookmark is still in the filtered tree if and only if it was there and matches. */
  lemma {:induction false} SurvivesIffMatches(f: Node, term: string, b: Node)
    requires f.Folder?
    ensures b in BookmarksOf(FilteredBookmarks(Some(f), term).value)
      <==> b in BookmarksOf(f) && Matches(b, term)
  {
    KeepMembers(BookmarksOf(f), term, b);
  }

  /** Every folder stays, with the same id, name and date, in the same place. */
  lemma {:induction false} FilterKeepsShape(cs: seq<Node>, term: string)
    ensures ShapeAll(FilterChildren(cs, term)) == ShapeAll(cs)
    decreases cs
  {
    if cs != [] {
      var c := cs[0];
      FilterKeepsShape(cs[1..], term);
      ShapeAllAppend(FilterOne(c, term), FilterChildren(cs[1..], term));
      if c.Folder? {
        FilterKeepsShape(c.children, term);
        var g := FilterFolder(c, term);
        assert [g][1..] == [];
        assert ShapeAll([g]) == [Shape(g)] + [];
        assert Shape(g) == Shape(c);
      } else {
        assert [c][1..] == [];
        assert ShapeAll([c]) == [] + [];
      }
    }
  }

  /** Filtering a filtered list again with the same term changes nothing. */
  lemma {:induction false} FilterIdempotent(cs: seq<Node>, term: string)
    ensures FilterChildren(FilterChildren(cs, term), term) == FilterChildren(cs, term)
    decreases cs
  {
    if cs != [] {
      var c := cs[0];
      var once := FilterOne(c, term);
      FilterIdempotent(cs[1..], term);
      FilterAppend(once, FilterChildren(cs[1..], term), term);
      if c.Folder? {
        FilterIdempotent(c.children, term);
        var g := FilterFolder(c, term);
        assert [g][1..] == [];
        assert FilterChildren([g], term) == [FilterFolder(g, term)] + [];
      } else if Matches(c, term) {
        assert [c][1..] == [];
        assert FilterChildren([c], term) == [c] + [];
      }
    }
  }

  /** Filtering the whole tree twice with the same term gives the tree filtered once. */
  lemma {:induction false} FilteredBookmarksIdempotent(tree: Option<Node>, term: string)
    requires tree.Some? ==> tree.value.Folder?
    ensures FilteredBookmarks(FilteredBookmarks(tree, term), term) == FilteredBookmarks(tree, term)
  {
    if tree.Some? && term != [] {
      FilterIdempotent(tree.value.children, term);
    }
  }

  /**
   * Filtering with the empty term would return the same tree, so the early
   * return for an empty term shows what the filter would have shown.
   */
  lemma {:induction false} FilterEmptyTerm(cs: seq<Node>)
    ensures FilterChildren(cs, []) == cs
    decreases cs
  {
    if cs != [] {
      var c := cs[0];
      FilterEmptyTerm(cs[1..]);
      if c.Folder? {
        FilterEmptyTerm(c.children);
        assert FilterFolder(c, []) == c;
      } else {
        assert OccursAt(Lower(c.name), Lower([]), 0);
      }
      assert cs == [c] + cs[1..];
    }
  }
}
