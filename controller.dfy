/** The projects filter and pagination controller as an object.

    The source keeps `currentFilter` and `currentPage` as variables of a
    closure that the click handlers reassign; here they are fields of
    `Controller`.  The page's elements it touches are modelled by their
    flags: one `hidden` flag per project card, one `active` flag per filter
    button and one `active` flag per page button.  The page buttons are
    thrown away and rebuilt on every filter change, so that array is
    replaced by a fresh one each time.
 */
module ProjectsController {
  import opened Projects

  class Controller {
    /** `data-category` of every project card, in document order. */
    const categories: seq<string>
    /** `data-filter` of every filter button. */
    const filterTags: seq<string>
    /** The `active` class of every filter button. */
    const filterActive: array<bool>
    /** The `hidden` class of every project card. */
    const hidden: array<bool>
    /** The `active` class of every page button; button k shows page k + 1. */
    var pageButtons: array<bool>

    var currentFilter: string
    var currentPage: nat

    /** Shape of the object: array sizes and the three arrays are distinct. */
    ghost predicate WellFormed()
      reads this
    {
      hidden.Length == |categories| && filterActive.Length == |filterTags| &&
      hidden != filterActive && hidden != pageButtons && filterActive != pageButtons &&
      currentPage >= 1
    }

    /** The object invariant between two clicks: the cards shown, the page
        buttons and the active page button all agree with the state. */
    ghost predicate Valid()
      reads this, hidden, pageButtons
    {
      WellFormed() &&
      hidden[..] == HiddenFlags(categories, currentFilter, currentPage) &&
      pageButtons.Length == TotalPages(|Filtered(categories, currentFilter)|) &&
      (pageButtons.Length == 0 ==> currentPage == 1) &&
      (pageButtons.Length > 0 ==> currentPage <= pageButtons.Length) &&
      forall k :: 0 <= k < pageButtons.Length ==> pageButtons[k] == (k == currentPage - 1)
    }

    /** Initialisation: filter "all", page 1, then the page buttons are
        generated and the display updated. */
    constructor (cats: seq<string>, tags: seq<string>, tagsActive: seq<bool>)
      requires |cats| > 0
      requires |tagsActive| == |tags|
      ensures Valid()
      ensures categories == cats && filterTags == tags && filterActive[..] == tagsActive
      ensures currentFilter == Wildcard && currentPage == 1
      ensures fresh(hidden) && fresh(filterActive) && fresh(pageButtons)
    {
      categories := cats;
      filterTags := tags;
      filterActive := new bool[|tags|](i requires 0 <= i < |tags| => tagsActive[i]);
      hidden := new bool[|cats|];
      pageButtons := new bool[0];
      currentFilter := Wildcard;
      currentPage := 1;
      new;
      GeneratePaginationButtons();
      UpdateProjectDisplay();
    }

    /** Rebuilds the page buttons: one per page of the filtered cards, the
        first one active. */
    method GeneratePaginationButtons()
      requires WellFormed()
      modifies this`pageButtons
      ensures WellFormed() && fresh(pageButtons)
      ensures pageButtons.Length == TotalPages(|Filtered(categories, currentFilter)|)
      ensures forall k :: 0 <= k < pageButtons.Length ==> pageButtons[k] == (k == 0)
    {
      var filteredProjects := Filtered(categories, currentFilter);
      var totalPages := TotalPages(|filteredProjects|);
      var buttons := new bool[totalPages];
      for i := 1 to totalPages + 1
        invariant forall k :: 0 <= k < i - 1 ==> buttons[k] == (k == 0)
      {
        buttons[i - 1] := i == 1;
      }
      pageButtons := buttons;
    }

    /** Hides every card, then shows the current page's window of the
        filtered cards. */
    method UpdateProjectDisplay()
      requires WellFormed()
      modifies hidden
      ensures hidden[..] == HiddenFlags(categories, currentFilter, currentPage)
    {
      var filteredProjects := Filtered(categories, currentFilter);
      for j := 0 to hidden.Length
        invariant forall m :: 0 <= m < j ==> hidden[m]
      {
        hidden[j] := true;
      }
      var startIndex := (currentPage - 1) * PageSize;
      var endIndex := startIndex + PageSize;
      var shown := Slice(filteredProjects, startIndex, endIndex);
      assert shown == Window(filteredProjects, currentPage);
      for k := 0 to |shown|
        invariant forall m :: 0 <= m < hidden.Length ==> (hidden[m] <==> m !in shown[..k])
      {
        hidden[shown[k]] := false;
        assert shown[..k + 1] == shown[..k] + [shown[k]];
      }
      assert shown[..|shown|] == shown;
    }

    /** Click on filter button b. */
    method FilterClick(b: nat)
      requires Valid() && b < |filterTags|
      modifies this, filterActive, hidden
      ensures Valid() && fresh(pageButtons)
      ensures currentFilter == filterTags[b] && currentPage == 1
      ensures forall k :: 0 <= k < filterActive.Length ==> filterActive[k] == (k == b)
      ensures hidden[..] == HiddenFlags(categories, filterTags[b], 1)
      ensures pageButtons.Length == TotalPages(|Filtered(categories, filterTags[b])|)
    {
      currentFilter := filterTags[b];
      currentPage := 1;
      for i := 0 to filterActive.Length
        invariant forall k :: 0 <= k < i ==> !filterActive[k]
        modifies filterActive
      {
        filterActive[i] := false;
      }
      filterActive[b] := true;
      GeneratePaginationButtons();
      UpdateProjectDisplay();
    }

    /** Click on page button b, which shows page b + 1. */
    method PageClick(b: nat)
      requires Valid() && b < pageButtons.Length
      modifies this`currentPage, pageButtons, hidden
      ensures Valid() && pageButtons == old(pageButtons)
      ensures currentPage == b + 1 && currentFilter == old(currentFilter)
      ensures forall k :: 0 <= k < pageButtons.Length ==> pageButtons[k] == (k == b)
      ensures hidden[..] == HiddenFlags(categories, currentFilter, b + 1)
    {
      currentPage := b + 1;
      for i := 0 to pageButtons.Length
        invariant forall k :: 0 <= k < i ==> !pageButtons[k]
        modifies pageButtons
      {
        pageButtons[i] := false;
      }
      pageButtons[b] := true;
      UpdateProjectDisplay();
    }
  }

  /** Clicking the same filter button twice leaves the cards, the page
      buttons and the state as the first click left them. */
  method FilterClickTwice(c: Controller, b: nat)
    returns (ghost hiddenOnce: seq<bool>, ghost buttonsOnce: seq<bool>)
    requires c.Valid() && b < |c.filterTags|
    modifies c, c.filterActive, c.hidden
    ensures c.Valid()
    ensures c.currentFilter == c.filterTags[b] && c.currentPage == 1
    ensures hiddenOnce == HiddenFlags(c.categories, c.filterTags[b], 1)
    ensures buttonsOnce == seq(TotalPages(|Filtered(c.categories, c.filterTags[b])|), k => k == 0)
    ensures c.hidden[..] == hiddenOnce && c.pageButtons[..] == buttonsOnce
  {
    c.FilterClick(b);
    hiddenOnce, buttonsOnce := c.hidden[..], c.pageButtons[..];
    assert buttonsOnce == seq(c.pageButtons.Length, k => k == 0);
    c.FilterClick(b);
    assert c.pageButtons[..] == buttonsOnce;
  }
}
