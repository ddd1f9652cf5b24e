/** The rules of the "Projects Filter & Pagination" widget, as values.

    A project card is identified by its position in document order; the
    widget only reads each card's `data-category` string.  The filter keeps
    the cards whose category equals the current filter (or every card for
    the wildcard), and the current page shows a window of at most three
    consecutive cards of that filtered sequence.
 */
module Projects {

  /** Number of cards on one page (`projectsPerPage`). */
  const PageSize: nat := 3

  /** The filter value that keeps every card. */
  const Wildcard: string := "all"

  function Min(a: int, b: int): int { if a <= b then a else b }
  function Max(a: int, b: int): int { if a <= b then b else a }

  /** The filter callback: the wildcard keeps everything, any other filter
      keeps exactly the cards whose category is equal to it. */
  predicate Matches(filter: string, category: string)
  {
    filter == Wildcard || category == filter
  }

  /** Positions of the cards the filter keeps, in document order. */
  function Filtered(categories: seq<string>, filter: string): (r: seq<nat>)
    ensures forall k :: 0 <= k < |r| ==> r[k] < |categories| && Matches(filter, categories[r[k]])
    ensures forall k, l :: 0 <= k < l < |r| ==> r[k] < r[l]
    ensures forall j :: 0 <= j < |categories| && Matches(filter, categories[j]) ==> j in r
  {
    if categories == [] then []
    else
      var last := |categories| - 1;
      var kept := Filtered(categories[..last], filter);
      if Matches(filter, categories[last]) then kept + [last] else kept
  }

  /** `Math.ceil(n / projectsPerPage)`: the number of page buttons. */
  function TotalPages(n: nat): (r: nat)
    ensures r * PageSize >= n
    ensures r > 0 ==> (r - 1) * PageSize < n
  {
    (n + PageSize - 1) / PageSize
  }

  /** `Array.prototype.slice(start, end)` for non-negative bounds: both
      bounds are clamped to the length, and an empty range gives []. */
  function Slice<T>(s: seq<T>, start: nat, end: nat): (r: seq<T>)
    ensures |r| == Max(0, Min(end, |s|) - start)
    ensures forall k :: 0 <= k < |r| ==> start + k < |s| && r[k] == s[start + k]
  {
    if start >= |s| || end <= start then []
    else s[start .. Min(end, |s|)]
  }

  /** First filtered index shown on a (1-based) page. */
  function WindowStart(page: nat): nat
    requires page >= 1
  {
    (page - 1) * PageSize
  }

  /** Whether filtered index k lies in the window `[(page-1)*3, page*3)`. */
  predicate InWindow(page: nat, k: nat)
    requires page >= 1
  {
    WindowStart(page) <= k < WindowStart(page) + PageSize
  }

  /** The cards a page shows: the slice of the filtered positions. */
  function Window(f: seq<nat>, page: nat): (r: seq<nat>)
    requires page >= 1
    ensures |r| == Min(PageSize, Max(0, |f| - WindowStart(page)))
    ensures forall i :: 0 <= i < |f| && InWindow(page, i) ==> i - WindowStart(page) < |r|
    ensures forall k :: 0 <= k < |r| ==> r[k] == f[WindowStart(page) + k]
  {
    Slice(f, WindowStart(page), WindowStart(page) + PageSize)
  }

  /** The `hidden` flag of every card once the display is brought up to date
      for this filter and page. */
  function HiddenFlags(categories: seq<string>, filter: string, page: nat): (r: seq<bool>)
    requires page >= 1
    ensures |r| == |categories|
    ensures forall j :: 0 <= j < |r| && !r[j] ==> Matches(filter, categories[j])
  {
    var shown := Window(Filtered(categories, filter), page);
    seq(|categories|, j => j !in shown)
  }

  /** Positions of the cards that are not hidden. */
  function VisibleSet(categories: seq<string>, filter: string, page: nat): set<nat>
    requires page >= 1
  {
    var h := HiddenFlags(categories, filter, page);
    set j: nat | j < |categories| && !h[j]
  }

  /** Index of card j inside the filtered sequence (the number of kept cards before it). */
  function Rank(categories: seq<string>, filter: string, j: nat): nat
    requires j <= |categories|
  {
    |Filtered(categories[..j], filter)|
  }

  // ---------------------------------------------------------------------
  // The filtered sequence

  /** Filtering a prefix of the cards gives a prefix of the filtered sequence. */
  lemma {:induction false} FilteredPrefix(categories: seq<string>, filter: string, j: nat)
    requires j <= |categories|
    ensures Filtered(categories[..j], filter) <= Filtered(categories, filter)
    decreases |categories| - j
  {
    if j < |categories| {
      var init := categories[..|categories| - 1];
      assert init[..j] == categories[..j];
      FilteredPrefix(init, filter, j);
    } else {
      assert categories[..j] == categories;
    }
  }

  /** A kept card sits at index Rank in the filtered sequence. */
  lemma PositionOfCard(categories: seq<string>, filter: string, j: nat)
    requires j < |categories| && Matches(filter, categories[j])
    ensures Rank(categories, filter, j) < |Filtered(categories, filter)|
    ensures Filtered(categories, filter)[Rank(categories, filter, j)] == j
  {
    var upto := categories[..j + 1];
    assert upto[..j] == categories[..j];
    assert Filtered(upto, filter) == Filtered(categories[..j], filter) + [j];
    FilteredPrefix(categories, filter, j + 1);
  }

  /** The filtered sequence is exactly the kept cards in document order: a
      position occurs in it iff the card matches the filter. */
  lemma FilteredIsExactlyMatching(categories: seq<string>, filter: string, j: nat)
    requires j < |categories|
    ensures j in Filtered(categories, filter) <==> Matches(filter, categories[j])
  {
    if j in Filtered(categories, filter) {
      var k :| 0 <= k < |Filtered(categories, filter)| && Filtered(categories, filter)[k] == j;
    }
  }

  /** With the wildcard the filtered sequence is every card, in order. */
  lemma {:induction false} WildcardKeepsAll(categories: seq<string>)
    ensures Filtered(categories, Wildcard) == seq(|categories|, j => j)
  {
    if categories != [] {
      WildcardKeepsAll(categories[..|categories| - 1]);
    }
  }

  // ---------------------------------------------------------------------
  // Pages

  /** Zero pages exactly when nothing matches. */
  lemma NoPagesIffEmpty(n: nat)
    ensures TotalPages(n) == 0 <==> n == 0
  {
  }

  /** Every filtered index k lies in the window of exactly one page,
      k / 3 + 1, and that page exists among the buttons. */
  lemma PagesPartition(n: nat, k: nat)
    requires k < n
    ensures 1 <= k / PageSize + 1 <= TotalPages(n)
    ensures forall p: nat :: p >= 1 ==> (InWindow(p, k) <==> p == k / PageSize + 1)
  {
  }

  // ---------------------------------------------------------------------
  // The displayed view

  /** A card in a page's window matches and has its filtered index in the window. */
  lemma ShownIsInWindow(categories: seq<string>, filter: string, page: nat, j: nat)
    requires page >= 1 && j < |categories|
    requires j in Window(Filtered(categories, filter), page)
    ensures Matches(filter, categories[j]) && InWindow(page, Rank(categories, filter, j))
  {
    var f := Filtered(categories, filter);
    var shown := Window(f, page);
    var k :| 0 <= k < |shown| && shown[k] == j;
    assert f[WindowStart(page) + k] == j;
    PositionOfCard(categories, filter, j);
    IncreasingInjective(f, Rank(categories, filter, j), WindowStart(page) + k);
  }

  /** A matching card whose filtered index is in the window is in the page's window. */
  lemma InWindowIsShown(categories: seq<string>, filter: string, page: nat, j: nat)
    requires page >= 1 && j < |categories|
    requires Matches(filter, categories[j]) && InWindow(page, Rank(categories, filter, j))
    ensures j in Window(Filtered(categories, filter), page)
  {
    var f := Filtered(categories, filter);
    PositionOfCard(categories, filter, j);
    var rank := Rank(categories, filter, j);
    assert Window(f, page)[rank - WindowStart(page)] == j;
  }

  /** A card is visible iff it matches the filter and its index in the
      filtered sequence lies in the window of the current page. */
  lemma VisibleIff(categories: seq<string>, filter: string, page: nat, j: nat)
    requires page >= 1 && j < |categories|
    ensures !HiddenFlags(categories, filter, page)[j]
        <==> Matches(filter, categories[j]) && InWindow(page, Rank(categories, filter, j))
  {
    var shown := Window(Filtered(categories, filter), page);
    assert HiddenFlags(categories, filter, page)[j] == (j !in shown);
    if j in shown {
      ShownIsInWindow(categories, filter, page, j);
    }
    if Matches(filter, categories[j]) && InWindow(page, Rank(categories, filter, j)) {
      InWindowIsShown(categories, filter, page, j);
    }
  }

  /** Every visible card matches the filter. */
  lemma VisibleMatchesFilter(categories: seq<string>, filter: string, page: nat)
    requires page >= 1
    ensures forall j :: j in VisibleSet(categories, filter, page) ==> Matches(filter, categories[j])
  {
    forall j | j in VisibleSet(categories, filter, page)
      ensures Matches(filter, categories[j])
    {
      VisibleIff(categories, filter, page, j);
    }
  }

  /** Across the pages 1..TotalPages a kept card is visible on exactly one
      page, and a card the filter drops is visible on none. */
  lemma VisibleOnExactlyOnePage(categories: seq<string>, filter: string, j: nat)
    requires j < |categories|
    ensures Matches(filter, categories[j]) ==>
      var p := Rank(categories, filter, j) / PageSize + 1;
      1 <= p <= TotalPages(|Filtered(categories, filter)|) &&
      forall q: nat :: q >= 1 ==> (!HiddenFlags(categories, filter, q)[j] <==> q == p)
    ensures !Matches(filter, categories[j]) ==>
      forall q: nat :: q >= 1 ==> HiddenFlags(categories, filter, q)[j]
  {
    forall q: nat | q >= 1
      ensures !HiddenFlags(categories, filter, q)[j]
          <==> Matches(filter, categories[j]) && InWindow(q, Rank(categories, filter, j))
    {
      VisibleIff(categories, filter, q, j);
    }
    if Matches(filter, categories[j]) {
      PositionOfCard(categories, filter, j);
      PagesPartition(|Filtered(categories, filter)|, Rank(categories, filter, j));
    }
  }

  /** A strictly increasing sequence holds no value twice. */
  lemma IncreasingInjective(s: seq<nat>, a: nat, b: nat)
    requires forall k, l :: 0 <= k < l < |s| ==> s[k] < s[l]
    requires a < |s| && b < |s| && s[a] == s[b]
    ensures a == b
  {
  }

  /** The distinct values of a sequence. */
  function Elements(s: seq<nat>): set<nat> {
    set x | x in s
  }

  lemma ElementsSnoc(s: seq<nat>)
    requires s != []
    ensures Elements(s) == Elements(s[..|s| - 1]) + {s[|s| - 1]}
  {
    var init := s[..|s| - 1];
    assert s == init + [s[|s| - 1]];
    forall x ensures x in s <==> x in init || x == s[|s| - 1] {
    }
  }

  /** A value above every entry of a sequence is not among its values. */
  lemma AboveAllNotElement(init: seq<nat>, last: nat)
    requires forall k :: 0 <= k < |init| ==> init[k] < last
    ensures last !in Elements(init)
  {
  }

  /** A strictly increasing sequence has as many distinct values as entries. */
  lemma {:induction false} IncreasingCard(s: seq<nat>)
    requires forall k, l :: 0 <= k < l < |s| ==> s[k] < s[l]
    ensures |Elements(s)| == |s|
  {
    if s != [] {
      var init, last := s[..|s| - 1], s[|s| - 1];
      IncreasingCard(init);
      ElementsSnoc(s);
      AboveAllNotElement(init, last);
    }
  }

  /** A page's window is strictly increasing and holds only card positions. */
  lemma WindowIncreasing(categories: seq<string>, filter: string, page: nat)
    requires page >= 1
    ensures var shown := Window(Filtered(categories, filter), page);
      (forall k, l :: 0 <= k < l < |shown| ==> shown[k] < shown[l]) &&
      forall k :: 0 <= k < |shown| ==> shown[k] < |categories|
  {
    var f := Filtered(categories, filter);
    var shown := Window(f, page);
    forall k | 0 <= k < |shown|
      ensures shown[k] == f[WindowStart(page) + k]
    {
    }
  }

  /** The visible cards are exactly the values of the page's window. */
  lemma VisibleSetIsWindow(categories: seq<string>, filter: string, page: nat)
    requires page >= 1
    ensures VisibleSet(categories, filter, page) == Elements(Window(Filtered(categories, filter), page))
  {
    var shown := Window(Filtered(categories, filter), page);
    WindowIncreasing(categories, filter, page);
    forall j | j in shown
      ensures j < |categories|
    {
      var k :| 0 <= k < |shown| && shown[k] == j;
    }
  }

  /** The number of visible cards is `min(3, max(0, filteredCount - (page-1)*3))`. */
  lemma VisibleCount(categories: seq<string>, filter: string, page: nat)
    requires page >= 1
    ensures |VisibleSet(categories, filter, page)|
         == Min(PageSize, Max(0, |Filtered(categories, filter)| - (page - 1) * PageSize))
  {
    WindowIncreasing(categories, filter, page);
    IncreasingCard(Window(Filtered(categories, filter), page));
    VisibleSetIsWindow(categories, filter, page);
  }

  /** With the wildcard, page p shows exactly the cards at document
      positions `[(p-1)*3, p*3)`. */
  lemma WildcardPages(categories: seq<string>, page: nat, j: nat)
    requires page >= 1 && j < |categories|
    ensures !HiddenFlags(categories, Wildcard, page)[j] <==> InWindow(page, j)
  {
    VisibleIff(categories, Wildcard, page, j);
    WildcardKeepsAll(categories[..j]);
  }
}
