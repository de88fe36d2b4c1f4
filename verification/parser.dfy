/**
 * `parseBookmarksHTML` (lib/bookmark-parser.ts) over an already built
 * element tree. The id counter the source keeps in a closure is threaded
 * explicitly: every parsing function takes the next free counter value and
 * returns the next free value after it.
 */
module BookmarkParser {
  import opened Wrappers
  import opened JsString
  import opened JsNumber
  import opened Dom
  import opened BookmarkTree

  /** Name of the synthetic root folder. */
  const RootName: string := "Bookmarks"

  /** Name of the browser toolbar folder that is flattened into the root. */
  const BarName: string := "Bookmarks Bar"

  datatype ParseError = NoBookmarkStructure

  /** The id `generateId` hands out for counter value `n`. */
  function Id(n: nat): ItemId {
    ItemId(n)
  }

  /** The ids handed out while the counter goes from `a` up to (not including) `b`. */
  function IdRange(a: nat, b: nat): (r: seq<ItemId>)
    requires a <= b
    ensures |r| == b - a
    ensures forall i | 0 <= i < b - a :: r[i] == Id(a + i)
  {
    seq(b - a, i requires 0 <= i < b - a => Id(a + i))
  }

  /**
   * `dateAdded`: absent exactly when `add_date` is missing or empty, `NaN`
   * exactly when `parseInt` reads no number from it, and otherwise the
   * number read, taken as seconds and scaled to milliseconds.
   */
  function DateAdded(e: Element): (r: Stamp)
    ensures r == NoDate <==> "add_date" !in e.attrs || e.attrs["add_date"] == []
    ensures r == NotANumber <==> "add_date" in e.attrs && e.attrs["add_date"] != [] && ParseInt(e.attrs["add_date"]).None?
    ensures r.Millis? ==> ParseInt(e.attrs["add_date"]).Some? && r.ms == ParseInt(e.attrs["add_date"]).value * 1000
  {
    match GetAttribute(e, "add_date")
    case None => NoDate
    case Some(s) =>
      if s == [] then NoDate
      else match ParseInt(s)
        case None => NotANumber
        case Some(v) => Millis(v * 1000)
  }

  /**
   * `parseElement(element)`: `following` are the element siblings after
   * `element`, which the heading case walks to find its list.
   */
  function ParseElement(e: Element, following: seq<Element>, next: nat): (r: (Option<Node>, nat))
    ensures r.0.None? ==> r.1 == next
    ensures r.0.Some? ==> next < r.1 && IdsOf(r.0.value) == IdRange(next, r.1)
    ensures r.0.Some? ==> WellFormed(r.0.value)
    decreases following, 2
  {
    if e.tag == "A" then ParseAnchor(e, next)
    else if e.tag == "H3" then ParseHeading(e, following, next)
    else (None, next)
  }

  /** An `A` element: a bookmark when it has a non-empty `href` and non-blank text. */
  function ParseAnchor(e: Element, next: nat): (r: (Option<Node>, nat))
    ensures r.0.None? ==> r.1 == next
    ensures r.0.Some? ==> r.1 == next + 1 && IdsOf(r.0.value) == IdRange(next, r.1)
    ensures r.0.Some? ==> WellFormed(r.0.value)
  {
    var href := GetAttribute(e, "href");
    var name := Trim(e.text);
    if href.None? || href.value == [] || name == [] then (None, next)
    else
      var b := Bookmark(Id(next), name, href.value, DateAdded(e));
      IdRangeSingle(next);
      assert WellFormed(b) by { TrimIsName(e.text); }
      (Some(b), next + 1)
  }

  /** The list a heading's entries live in: the first `DL` among the siblings after it. */
  function FolderList(following: seq<Element>): (r: Option<Element>)
    ensures r.Some? ==> r.value in following && r.value.tag == "DL"
  {
    match FirstWithTag(following, "DL")
    case None => None
    case Some(k) => Some(following[k])
  }

  /** An `H3` element: a folder when its text is not blank, holding the entries of its list. */
  function ParseHeading(e: Element, following: seq<Element>, next: nat): (r: (Option<Node>, nat))
    ensures r.0.None? ==> r.1 == next
    ensures r.0.Some? ==> next < r.1 && IdsOf(r.0.value) == IdRange(next, r.1)
    ensures r.0.Some? ==> WellFormed(r.0.value)
    ensures r.0.None? <==> AllWhiteSpace(e.text)
    decreases following, 1
  {
    var name := Trim(e.text);
    if name == [] then (None, next)
    else
      var entries := ListEntries(following, next + 1);
      var folder := Folder(Id(next), name, entries.0, DateAdded(e));
      FolderSound(e.text, next, entries.0, entries.1, DateAdded(e));
      (Some(folder), entries.1)
  }

  /** A heading's entries: those of its list, or none when no list follows it. */
  function ListEntries(following: seq<Element>, next: nat): (r: (seq<Node>, nat))
    ensures next <= r.1 && IdsOfAll(r.0) == IdRange(next, r.1)
    ensures WellFormedAll(r.0)
    ensures FirstWithTag(following, "DL").None? ==> r == ([], next)
    decreases following, 0
  {
    match FolderList(following)
    case None => ([], next)
    case Some(dl) => ParseEntries(dl.children, next)
  }

  /** A folder over well-formed entries that took the ids after its own is well formed and takes its id first. */
  lemma {:induction false} FolderSound(text: string, next: nat, entries: seq<Node>, after: nat, date: Stamp)
    requires !AllWhiteSpace(text)
    requires next + 1 <= after && IdsOfAll(entries) == IdRange(next + 1, after)
    requires WellFormedAll(entries)
    ensures var folder := Folder(Id(next), Trim(text), entries, date);
      IdsOf(folder) == IdRange(next, after) && WellFormed(folder)
  {
    var folder := Folder(Id(next), Trim(text), entries, date);
    IdRangeSingle(next);
    IdRangeConcat(next, next + 1, after);
    assert IdsOf(folder) == IdRange(next, next + 1) + IdRange(next + 1, after);
    assert WellFormed(folder) by { TrimIsName(text); }
  }

  /** A `DT` child of a list whose first element child may hold an entry. */
  predicate IsEntry(x: Element) {
    x.tag == "DT" && x.children != []
  }

  /** One child of a list: a `DT`'s first element child, parsed; anything else yields nothing. */
  function ParseItem(x: Element, next: nat): (r: (Option<Node>, nat))
    ensures r.0.None? ==> r.1 == next
    ensures r.0.Some? ==> next < r.1 && IdsOf(r.0.value) == IdRange(next, r.1)
    ensures r.0.Some? ==> WellFormed(r.0.value)
    decreases x, 3
  {
    if IsEntry(x) then ParseElement(x.children[0], x.children[1..], next) else (None, next)
  }

  /** The loop over a folder's list: each `DT`'s first element child, parsed in order. */
  function ParseEntries(cs: seq<Element>, next: nat): (r: (seq<Node>, nat))
    ensures next <= r.1 && IdsOfAll(r.0) == IdRange(next, r.1)
    ensures WellFormedAll(r.0)
    decreases cs, 2
  {
    if cs == [] then ([], next)
    else
      var (head, mid) := ParseItem(cs[0], next);
      var (rest, after) := ParseEntries(cs[1..], mid);
      if head.Some? then
        assert ([head.value] + rest)[1..] == rest;
        IdRangeConcat(next, mid, after);
        ([head.value] + rest, after)
      else
        (rest, after)
  }

  /** The top-level folder that the root absorbs. */
  predicate IsBar(n: Node) {
    n.Folder? && n.name == BarName
  }

  /** The root's children: every item kept, except that a bar folder is replaced by its children. */
  function Splice(items: seq<Node>): seq<Node> {
    if items == [] then []
    else (if IsBar(items[0]) then items[0].children else [items[0]]) + Splice(items[1..])
  }

  /**
   * The loop over the main list, which flattens a bar folder as it goes: it
   * is the folder loop over the same list followed by splicing, with the
   * counter threaded the same way.
   */
  function ParseTop(cs: seq<Element>, next: nat): (r: (seq<Node>, nat))
    ensures r == (Splice(ParseEntries(cs, next).0), ParseEntries(cs, next).1)
    decreases cs
  {
    if cs == [] then ([], next)
    else
      var (head, mid) := ParseItem(cs[0], next);
      var (rest, after) := ParseTop(cs[1..], mid);
      var one := if head.Some? then [head.value] else [];
      assert ParseEntries(cs, next).0 == one + ParseEntries(cs[1..], mid).0;
      SpliceAppend(one, ParseEntries(cs[1..], mid).0);
      (Pushed(head) + rest, after)
  }

  /**
   * What the main loop appends for one parsed entry: a bar folder's
   * children in its place, any other item itself.
   */
  function Pushed(head: Option<Node>): (r: seq<Node>)
    ensures r == Splice(if head.Some? then [head.value] else [])
  {
    match head
    case None => []
    case Some(x) =>
      assert [x][1..] == [];
      if IsBar(x) then x.children else [x]
  }

  /**
   * `parseBookmarksHTML`: the first `DL` of the document is the main list;
   * the root takes id `item-0` before any entry is parsed.
   */
  function ParseBookmarksHtml(doc: Element): (r: Result<Node, ParseError>)
    ensures r.Failure? <==> !HasTag(doc, "DL")
    ensures r.Success? ==>
      && r.value.Folder? && r.value.name == RootName && IdText(r.value.id) == "item-0"
      && r.value.dateAdded == NoDate
    ensures r.Success? ==> WellFormed(r.value) && Distinct(IdsOf(r.value))
    ensures r.Success? ==> r.value.children == Splice(ParseEntries(MainList(doc).children, 1).0)
  {
    var dls := QuerySelectorAll(doc, "DL");
    QuerySelectorAllEmpty(doc, "DL");
    if dls == [] then Failure(NoBookmarkStructure)
    else
      var (items, after) := ParseTop(dls[0].children, 1);
      var root := Folder(Id(0), RootName, items, NoDate);
      RootSound(dls[0].children);
      Success(root)
  }

  // ----- ids -----

  lemma {:induction false} IdRangeSingle(a: nat)
    ensures IdRange(a, a + 1) == [Id(a)]
  {
  }

  lemma {:induction false} IdRangeConcat(a: nat, b: nat, c: nat)
    requires a <= b <= c
    ensures IdRange(a, b) + IdRange(b, c) == IdRange(a, c)
  {
  }

  /** The ids of one counter range are pairwise distinct and are exactly the ids of that range. */
  lemma {:induction false} IdRangeDistinct(a: nat, b: nat)
    requires a <= b
    ensures Distinct(IdRange(a, b))
    ensures forall k: nat :: Id(k) in IdRange(a, b) <==> a <= k < b
  {
    var r := IdRange(a, b);
    forall k: nat | Id(k) in r
      ensures a <= k < b
    {
      var i :| 0 <= i < |r| && r[i] == Id(k);
    }
    forall k: nat | a <= k < b
      ensures Id(k) in r
    {
      assert r[k - a] == Id(k);
    }
  }

  // ----- the root -----

  /** Splicing keeps the ids it keeps distinct and invents none. */
  lemma {:induction false} SpliceIds(items: seq<Node>)
    requires Distinct(IdsOfAll(items))
    ensures Distinct(IdsOfAll(Splice(items)))
    ensures forall x | x in IdsOfAll(Splice(items)) :: x in IdsOfAll(items)
    decreases items
  {
    if items != [] {
      var h := items[0];
      DistinctSplit(IdsOf(h), IdsOfAll(items[1..]));
      SpliceIds(items[1..]);
      var tail := Splice(items[1..]);
      if IsBar(h) {
        DistinctSplit([h.id], IdsOfAll(h.children));
        IdsOfAllAppend(h.children, tail);
        DistinctConcat(IdsOfAll(h.children), IdsOfAll(tail));
      } else {
        assert ([h] + tail)[0] == h && ([h] + tail)[1..] == tail;
        DistinctConcat(IdsOf(h), IdsOfAll(tail));
      }
    }
  }

  /** Splicing well-formed items gives well-formed items. */
  lemma {:induction false} SpliceWellFormed(items: seq<Node>)
    requires WellFormedAll(items)
    ensures WellFormedAll(Splice(items))
  {
    if items != [] {
      assert WellFormed(items[0]);
      SpliceWellFormed(items[1..]);
      var h := if IsBar(items[0]) then items[0].children else [items[0]];
      WellFormedAllAppend(h, Splice(items[1..]));
    }
  }

  lemma {:induction false} RootSound(main: seq<Element>)
    ensures var items := ParseTop(main, 1).0;
      var root := Folder(Id(0), RootName, items, NoDate);
      WellFormed(root) && Distinct(IdsOf(root))
  {
    var (parsed, after) := ParseEntries(main, 1);
    assert ParseTop(main, 1).0 == Splice(parsed);
    RootOver(parsed, after);
  }

  /** The root over spliced entries that took the ids from 1 on. */
  lemma {:induction false} RootOver(parsed: seq<Node>, after: nat)
    requires 1 <= after && IdsOfAll(parsed) == IdRange(1, after)
    requires WellFormedAll(parsed)
    ensures var root := Folder(Id(0), RootName, Splice(parsed), NoDate);
      WellFormed(root) && Distinct(IdsOf(root))
  {
    var items := Splice(parsed);
    IdRangeDistinct(1, after);
    SpliceIds(parsed);
    SpliceWellFormed(parsed);
    assert Id(0) !in IdsOfAll(items);
    DistinctConcat([Id(0)], IdsOfAll(items));
    assert IdsOf(Folder(Id(0), RootName, items, NoDate)) == [Id(0)] + IdsOfAll(items);
  }

  /** The id strings of a parse are pairwise distinct. */
  lemma {:induction false} RootIdTextsDistinct(doc: Element)
    requires ParseBookmarksHtml(doc).Success?
    ensures var ids := IdsOf(ParseBookmarksHtml(doc).value);
      forall i, j | 0 <= i < j < |ids| :: IdText(ids[i]) != IdText(ids[j])
  {
    var ids := IdsOf(ParseBookmarksHtml(doc).value);
    forall i, j | 0 <= i < j < |ids|
      ensures IdText(ids[i]) != IdText(ids[j])
    {
      IdTextInjective(ids[i], ids[j]);
    }
  }

  // ----- the root and the bar folder -----

  /** The main list of a document that has one: its first `DL` in document order. */
  function MainList(doc: Element): (r: Element)
    requires HasTag(doc, "DL")
    ensures r.tag == "DL" && r in Preorder(doc)
    ensures r == QuerySelectorAll(doc, "DL")[0]
  {
    QuerySelectorAllEmpty(doc, "DL");
    var p := Preorder(doc);
    p[FirstWithTag(p, "DL").value]
  }

  /**
   * The root's children are the main list's entries with every top-level
   * bar folder replaced by its children, and no top-level bar folder is
   * itself among them.
   */
  lemma {:induction false} RootFlattensBar(doc: Element)
    requires HasTag(doc, "DL")
    ensures var items := ParseEntries(MainList(doc).children, 1).0;
      var root := ParseBookmarksHtml(doc).value;
      && root.children == Splice(items)
      && forall i | 0 <= i < |items| && IsBar(items[i]) :: items[i] !in root.children
  {
    var main := MainList(doc).children;
    var (items, after) := ParseEntries(main, 1);
    IdRangeDistinct(1, after);
    SpliceDropsBars(items);
  }

  /** Splicing is done item by item, so it keeps the order of the items around a bar. */
  lemma {:induction false} SpliceAppend(a: seq<Node>, b: seq<Node>)
    ensures Splice(a + b) == Splice(a) + Splice(b)
  {
    if a == [] {
      assert a + b == b;
    } else {
      assert (a + b)[0] == a[0] && (a + b)[1..] == a[1..] + b;
      SpliceAppend(a[1..], b);
    }
  }

  /** What the root receives: every item that is not a bar, and every child of a bar. */
  lemma {:induction false} SpliceMembers(items: seq<Node>, x: Node)
    ensures x in Splice(items) <==>
      || (x in items && !IsBar(x))
      || (exists j | 0 <= j < |items| :: IsBar(items[j]) && x in items[j].children)
  {
    if items != [] {
      SpliceMembers(items[1..], x);
      var h := if IsBar(items[0]) then items[0].children else [items[0]];
      assert Splice(items) == h + Splice(items[1..]);
      assert forall j | 0 < j < |items| :: items[j] == items[1..][j - 1];
      if exists j | 0 <= j < |items[1..]| :: IsBar(items[1..][j]) && x in items[1..][j].children {
        var j :| 0 <= j < |items[1..]| && IsBar(items[1..][j]) && x in items[1..][j].children;
        assert IsBar(items[j + 1]) && x in items[j + 1].children;
      }
      if exists j | 0 <= j < |items| :: IsBar(items[j]) && x in items[j].children {
        var j :| 0 <= j < |items| && IsBar(items[j]) && x in items[j].children;
        if j > 0 {
          assert IsBar(items[1..][j - 1]) && x in items[1..][j - 1].children;
        }
      }
    }
  }

  /** With distinct ids, no bar folder of the items survives splicing. */
  lemma {:induction false} SpliceDropsBars(items: seq<Node>)
    requires Distinct(IdsOfAll(items))
    ensures forall i | 0 <= i < |items| && IsBar(items[i]) :: items[i] !in Splice(items)
  {
    forall i | 0 <= i < |items| && IsBar(items[i])
      ensures items[i] !in Splice(items)
    {
      BarIdDropped(items, i);
      if items[i] in Splice(items) {
        IdInMembers(Splice(items), items[i]);
      }
    }
  }

  lemma {:induction false} IdInMembers(ns: seq<Node>, x: Node)
    requires x in ns
    ensures x.id in IdsOfAll(ns)
  {
    if ns[0] != x {
      IdInMembers(ns[1..], x);
    }
  }

  lemma {:induction false} BarIdDropped(items: seq<Node>, i: nat)
    requires Distinct(IdsOfAll(items))
    requires i < |items| && IsBar(items[i])
    ensures items[i].id !in IdsOfAll(Splice(items))
  {
    if i == 0 {
      BarIdDroppedHead(items);
    } else {
      DistinctSplit(IdsOf(items[0]), IdsOfAll(items[1..]));
      BarIdDropped(items[1..], i - 1);
      assert items[i] == items[1..][i - 1];
      BarIdDroppedLater(items, i);
    }
  }

  /** A bar in front: its own id is not among its children's nor the later items'. */
  lemma {:induction false} BarIdDroppedHead(items: seq<Node>)
    requires Distinct(IdsOfAll(items))
    requires items != [] && IsBar(items[0])
    ensures items[0].id !in IdsOfAll(Splice(items))
  {
    var h := items[0];
    DistinctSplit(IdsOf(h), IdsOfAll(items[1..]));
    SpliceIds(items[1..]);
    var tail := Splice(items[1..]);
    DistinctSplit([h.id], IdsOfAll(h.children));
    IdsOfAllAppend(h.children, tail);
    assert h.id in IdsOf(h);
  }

  /** A bar further on: what the first item contributes does not carry the bar's id. */
  lemma {:induction false} BarIdDroppedLater(items: seq<Node>, i: nat)
    requires Distinct(IdsOfAll(items))
    requires 0 < i < |items| && IsBar(items[i])
    requires items[i].id !in IdsOfAll(Splice(items[1..]))
    ensures items[i].id !in IdsOfAll(Splice(items))
  {
    var h := items[0];
    DistinctSplit(IdsOf(h), IdsOfAll(items[1..]));
    var tail := Splice(items[1..]);
    assert items[i] == items[1..][i - 1];
    IdInMembers(items[1..], items[i]);
    var hs := if IsBar(h) then h.children else [h];
    IdsOfAllAppend(hs, tail);
    if IsBar(h) {
      DistinctSplit([h.id], IdsOfAll(h.children));
    } else {
      assert IdsOfAll([h]) == IdsOf(h) + IdsOfAll([]);
    }
  }

  // ----- one entry -----

  /**
   * An element yields nothing exactly when it is an `A` without a usable
   * `href` or with blank text, an `H3` with blank text, or any other tag;
   * such an element consumes no id.
   */
  lemma {:induction false} ElementSkipRule(e: Element, following: seq<Element>, next: nat)
    ensures var r := ParseElement(e, following, next);
      && (r.0.None? <==>
        || (e.tag == "A" && ("href" !in e.attrs || e.attrs["href"] == [] || AllWhiteSpace(e.text)))
        || (e.tag == "H3" && AllWhiteSpace(e.text))
        || (e.tag != "A" && e.tag != "H3"))
      && (r.0.None? ==> r.1 == next)
  {
  }

  /** An accepted anchor is a bookmark with the next id, the trimmed text and the verbatim `href`. */
  lemma {:induction false} AnchorBookmark(e: Element, following: seq<Element>, next: nat)
    requires e.tag == "A" && "href" in e.attrs && e.attrs["href"] != [] && !AllWhiteSpace(e.text)
    ensures ParseElement(e, following, next)
      == (Some(Bookmark(Id(next), Trim(e.text), e.attrs["href"], DateAdded(e))), next + 1)
  {
  }

  /**
   * A named heading is a folder with the next id whose children are the
   * entries of the first `DL` after it, whatever non-list siblings come
   * between; its entries' ids follow its own.
   */
  lemma {:induction false} HeadingTakesFirstList(e: Element, before: seq<Element>, dl: Element, after: seq<Element>, next: nat)
    requires e.tag == "H3" && !AllWhiteSpace(e.text)
    requires dl.tag == "DL" && forall x | x in before :: x.tag != "DL"
    ensures var entries := ParseEntries(dl.children, next + 1);
      ParseElement(e, before + [dl] + after, next)
      == (Some(Folder(Id(next), Trim(e.text), entries.0, DateAdded(e))), entries.1)
  {
    var following := before + [dl] + after;
    assert following[|before|] == dl;
    assert forall j | 0 <= j < |before| :: following[j] == before[j];
    assert FirstWithTag(following, "DL") == Some(|before|);
    assert ListEntries(following, next + 1) == ParseEntries(dl.children, next + 1);
    assert Trim(e.text) != [];
    assert ParseElement(e, following, next) == ParseHeading(e, following, next);
  }

  /** A named heading with no `DL` after it is an empty folder. */
  lemma {:induction false} HeadingWithoutList(e: Element, following: seq<Element>, next: nat)
    requires e.tag == "H3" && !AllWhiteSpace(e.text)
    requires forall x | x in following :: x.tag != "DL"
    ensures ParseElement(e, following, next)
      == (Some(Folder(Id(next), Trim(e.text), [], DateAdded(e))), next + 1)
  {
    assert FirstWithTag(following, "DL").None?;
    assert ListEntries(following, next + 1) == ([], next + 1);
    assert Trim(e.text) != [];
    assert ParseElement(e, following, next) == ParseHeading(e, following, next);
  }

  // ----- a list -----

  /** A list child that can yield a node: a `DT` whose first element child is an `A` or an `H3`. */
  predicate MayYield(x: Element) {
    IsEntry(x) && (x.children[0].tag == "A" || x.children[0].tag == "H3")
  }

  function Candidates(cs: seq<Element>): (r: seq<Element>)
    ensures |r| <= |cs|
  {
    if cs == [] then []
    else (if MayYield(cs[0]) then [cs[0]] else []) + Candidates(cs[1..])
  }

  /**
   * Non-`DT` children, `DT`s without an element child and `DT`s whose first
   * element child is neither `A` nor `H3` contribute nothing: the list
   * parses as the list of its other children.
   */
  lemma {:induction false} OnlyCandidatesCount(cs: seq<Element>, next: nat)
    ensures ParseEntries(cs, next) == ParseEntries(Candidates(cs), next)
  {
    if cs != [] {
      OnlyCandidatesCount(cs[1..], ParseItem(cs[0], next).1);
      if MayYield(cs[0]) {
        var c := [cs[0]] + Candidates(cs[1..]);
        assert c[0] == cs[0] && c[1..] == Candidates(cs[1..]);
      } else {
        assert ParseItem(cs[0], next) == (None, next);
        assert Candidates(cs) == Candidates(cs[1..]);
      }
    }
  }

  /**
   * Inside a folder's list an entry is kept as it is, even a folder named
   * `Bookmarks Bar`: only the main loop flattens.
   */
  lemma {:induction false} NestedEntryKept(x: Element, next: nat)
    ensures var (head, mid) := ParseItem(x, next);
      ParseEntries([x], next) == (if head.Some? then [head.value] else [], mid)
  {
    var (head, mid) := ParseItem(x, next);
    assert [x][0] == x && [x][1..] == [];
    assert ParseEntries([], mid) == ([], mid);
    if head.Some? {
      assert [head.value] + [] == [head.value];
    }
  }

  /** A list parses piecewise: the entries of `a` come first, with the lower ids. */
  lemma {:induction false} ParseEntriesAppend(a: seq<Element>, b: seq<Element>, next: nat)
    ensures var ra := ParseEntries(a, next);
      var rb := ParseEntries(b, ra.1);
      ParseEntries(a + b, next) == (ra.0 + rb.0, rb.1)
  {
    if a == [] {
      assert a + b == b;
      assert [] + ParseEntries(b, next).0 == ParseEntries(b, next).0;
    } else {
      assert (a + b)[0] == a[0] && (a + b)[1..] == a[1..] + b;
      var (head, mid) := ParseItem(a[0], next);
      ParseEntriesAppend(a[1..], b, mid);
      if head.Some? {
        var ra1 := ParseEntries(a[1..], mid).0;
        var rb := ParseEntries(b, ParseEntries(a[1..], mid).1).0;
        assert [head.value] + (ra1 + rb) == ([head.value] + ra1) + rb;
      }
    }
  }

  // ----- dateAdded -----

  /** A decimal `add_date` of `secs` seconds gives `secs * 1000` milliseconds. */
  lemma {:induction false} DateAddedFromSeconds(e: Element, secs: nat)
    requires "add_date" in e.attrs && e.attrs["add_date"] == Decimal(secs)
    ensures DateAdded(e) == Millis(secs * 1000)
  {
    ParseIntDecimal(secs);
  }

  /** A missing or empty `add_date` leaves `dateAdded` absent. */
  lemma {:induction false} DateAddedAbsent(e: Element)
    requires "add_date" !in e.attrs || e.attrs["add_date"] == []
    ensures DateAdded(e) == NoDate
  {
  }

  /** A non-empty `add_date` with no digit in it gives `NaN`, not an absent date. */
  lemma {:induction false} DateAddedNaN(e: Element)
    requires "add_date" in e.attrs && e.attrs["add_date"] != []
    requires forall i | 0 <= i < |e.attrs["add_date"]| :: !('0' <= e.attrs["add_date"][i] <= '9')
    ensures DateAdded(e) == NotANumber
  {
  }
}
