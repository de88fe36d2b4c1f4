/**
 * The tree the parser produces (`Bookmark` and `BookmarkFolder` in
 * lib/bookmark-parser.ts) and the structural views of it that the
 * properties below are stated with.
 */
module BookmarkTree {
  import opened JsString
  import opened JsNumber

  /**
   * An id handed out by one parse: the counter value it was made from.
   * Its text, the string the source stores, is `item-` and the counter in decimal.
   */
  datatype ItemId = ItemId(counter: nat)

  function IdText(id: ItemId): (r: string)
    ensures |r| > 5 && r[..5] == "item-"
    ensures forall i | 5 <= i < |r| :: '0' <= r[i] <= '9'
  {
    "item-" + Decimal(id.counter)
  }

  /** Different counter values give different id strings. */
  lemma {:induction false} IdTextInjective(a: ItemId, b: ItemId)
    ensures IdText(a) == IdText(b) ==> a == b
  {
    if IdText(a) == IdText(b) {
      assert IdText(a)[5..] == Decimal(a.counter);
      assert IdText(b)[5..] == Decimal(b.counter);
      DecimalInjective(a.counter, b.counter);
    }
  }

  /**
   * `dateAdded`: absent (`undefined`), a number of milliseconds, or the
   * `NaN` that `parseInt(addDate) * 1000` yields for a non-numeric value.
   */
  datatype Stamp = NoDate | Millis(ms: int) | NotANumber

  datatype Node =
    | Bookmark(id: ItemId, name: string, url: string, dateAdded: Stamp)
    | Folder(id: ItemId, name: string, children: seq<Node>, dateAdded: Stamp)

  /** The ids of `n` and everything under it, in pre-order. */
  function IdsOf(n: Node): (r: seq<ItemId>)
    ensures |r| > 0 && r[0] == n.id
  {
    [n.id] + (if n.Folder? then IdsOfAll(n.children) else [])
  }

  function IdsOfAll(ns: seq<Node>): seq<ItemId> {
    if ns == [] then [] else IdsOf(ns[0]) + IdsOfAll(ns[1..])
  }

  /** The bookmarks of `n`'s subtree, in pre-order. */
  function BookmarksOf(n: Node): (r: seq<Node>)
    ensures forall i | 0 <= i < |r| :: r[i].Bookmark?
  {
    if n.Bookmark? then [n] else BookmarksOfAll(n.children)
  }

  function BookmarksOfAll(ns: seq<Node>): (r: seq<Node>)
    ensures forall i | 0 <= i < |r| :: r[i].Bookmark?
  {
    if ns == [] then [] else BookmarksOf(ns[0]) + BookmarksOfAll(ns[1..])
  }

  /** The folder skeleton of `n`: every bookmark removed, every folder kept as it is. */
  function Shape(n: Node): Node {
    if n.Bookmark? then n else n.(children := ShapeAll(n.children))
  }

  function ShapeAll(ns: seq<Node>): seq<Node> {
    if ns == [] then []
    else (if ns[0].Bookmark? then [] else [Shape(ns[0])]) + ShapeAll(ns[1..])
  }

  /** A display name as the parser emits it: not empty, no white space at either end. */
  predicate IsName(s: string) {
    s != [] && !IsWhiteSpace(s[0]) && !IsWhiteSpace(s[|s| - 1])
  }

  /** A trimmed text that is not empty is a proper name. */
  lemma {:induction false} TrimIsName(s: string)
    requires !AllWhiteSpace(s)
    ensures IsName(Trim(s))
  {
  }

  /** Every node has a proper name and every bookmark a non-empty url. */
  predicate WellFormed(n: Node) {
    && IsName(n.name)
    && (n.Bookmark? ==> n.url != [])
    && (n.Folder? ==> WellFormedAll(n.children))
  }

  predicate WellFormedAll(ns: seq<Node>) {
    forall i | 0 <= i < |ns| :: WellFormed(ns[i])
  }

  lemma {:induction false} IdsOfAllAppend(a: seq<Node>, b: seq<Node>)
    ensures IdsOfAll(a + b) == IdsOfAll(a) + IdsOfAll(b)
  {
    if a == [] {
      assert a + b == b;
    } else {
      assert (a + b)[0] == a[0] && (a + b)[1..] == a[1..] + b;
      IdsOfAllAppend(a[1..], b);
    }
  }

  lemma {:induction false} BookmarksOfAllAppend(a: seq<Node>, b: seq<Node>)
    ensures BookmarksOfAll(a + b) == BookmarksOfAll(a) + BookmarksOfAll(b)
  {
    if a == [] {
      assert a + b == b;
    } else {
      assert (a + b)[0] == a[0] && (a + b)[1..] == a[1..] + b;
      BookmarksOfAllAppend(a[1..], b);
    }
  }

  lemma {:induction false} ShapeAllAppend(a: seq<Node>, b: seq<Node>)
    ensures ShapeAll(a + b) == ShapeAll(a) + ShapeAll(b)
  {
    if a == [] {
      assert a + b == b;
    } else {
      assert (a + b)[0] == a[0] && (a + b)[1..] == a[1..] + b;
      ShapeAllAppend(a[1..], b);
    }
  }

  lemma {:induction false} WellFormedAllAppend(a: seq<Node>, b: seq<Node>)
    requires WellFormedAll(a) && WellFormedAll(b)
    ensures WellFormedAll(a + b)
  {
    assert forall i | |a| <= i < |a + b| :: (a + b)[i] == b[i - |a|];
  }

  predicate Distinct<T(==)>(s: seq<T>) {
    forall i, j | 0 <= i < j < |s| :: s[i] != s[j]
  }

  /** Two duplicate-free sequences with no common element concatenate to a duplicate-free one. */
  lemma {:induction false} DistinctConcat<T>(a: seq<T>, b: seq<T>)
    requires Distinct(a) && Distinct(b)
    requires forall x | x in a :: x !in b
    ensures Distinct(a + b)
  {
    var s := a + b;
    forall i, j | 0 <= i < j < |s|
      ensures s[i] != s[j]
    {
      if i < |a| && j >= |a| {
        assert s[i] in a && s[j] == b[j - |a|];
      } else if i >= |a| {
        assert s[i] == b[i - |a|] && s[j] == b[j - |a|];
      }
    }
  }

  /** Both halves of a duplicate-free concatenation are duplicate-free and disjoint. */
  lemma {:induction false} DistinctSplit<T>(a: seq<T>, b: seq<T>)
    requires Distinct(a + b)
    ensures Distinct(a) && Distinct(b)
    ensures forall x | x in a :: x !in b
  {
    var s := a + b;
    assert forall i | 0 <= i < |a| :: s[i] == a[i];
    assert forall i | 0 <= i < |b| :: s[|a| + i] == b[i];
  }
}
