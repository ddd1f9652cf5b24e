# Portfolio projects filter and pagination, in Dafny

The portfolio site's `script.js` shows a fixed list of project cards. A row of
filter buttons picks a category, and a row of page buttons shows the matching
cards three at a time. This project models that controller and the small rule
that highlights the current page's navigation link. It proves what the
controller displays after each click.

- `projects.dfy`, module `Projects`: the rules as values.
  - `Matches` is the filter callback; the wildcard `"all"` keeps every card.
  - `Filtered` gives the positions of the kept cards in document order.
  - `TotalPages` is `Math.ceil(n / 3)`.
  - `Slice` is `Array.prototype.slice` for non-negative bounds, and `Window` is the slice a page shows.
  - `HiddenFlags` is the `hidden` flag of every card once the display is up
    to date; `VisibleSet` is the set of cards not hidden.
  - `Rank` is a card's index in the filtered sequence.
  - The lemmas state what the display means.
- `controller.dfy`, module `ProjectsController`: class `Controller`.
  - It holds the closure's `currentFilter` and `currentPage`.
  - It holds an `array<bool>` of `hidden` flags, one per card, and an
    `array<bool>` of `active` flags, one per filter button.
  - It holds an `array<bool>` of `active` flags for the page buttons. This
    array is replaced whenever the buttons are regenerated.
  - The handlers become `FilterClick` and `PageClick`. `Valid()` is the
    invariant both keep: the cards shown, the number of page buttons and
    the single active page button all agree with the state.
- `nav_links.dfy`, module `NavLinks`: the "Highlight Active Nav Link" block.
  - `Split` is `String.prototype.split("/")`, proved against `Join`.
  - `PageName` is the last segment, or `"index.html"` when that segment is
    empty.
  - `HighlightNavLinks` is the loop that marks links.

A card is identified by its position in document order; only its
`data-category` is read. Clicks are method calls, and a button is named by
its index among the filter buttons or among the current page buttons (page
button `b` shows page `b + 1`).

## Model

| member | source | states |
|---|---|---|
| `Projects.Filtered` | script.js:62-65 | with `Matches` as the filter callback of lines 63-64 (the `"all"` test, then category equality), taken as written: every kept position is a card matching the filter; positions strictly increase (document order); every matching card is kept |
| `Projects.FilteredIsExactlyMatching` | script.js:103-106 | a card is in the filtered sequence iff it matches the filter (wildcard or equal category) |
| `Projects.FilteredPrefix` | script.js:62-65 | filtering a prefix of the cards yields a prefix of the filtered sequence, so filtering keeps document order |
| `Projects.PositionOfCard` | script.js:62-65 | a matching card sits in the filtered sequence at index `Rank`, the number of matching cards before it |
| `Projects.WildcardKeepsAll` | script.js:63 | with `"all"` the filtered sequence is every card, in order |
| `Projects.TotalPages` | script.js:67 | the page count is the ceiling of `n / 3`: `3*r >= n` and `3*(r-1) < n` when `r > 0` |
| `Projects.NoPagesIffEmpty` | script.js:67-70 | there are zero page buttons exactly when no card matches |
| `Projects.Slice` | script.js:112 | `slice(start, end)` clamps to the length: the length is `max(0, min(end, n) - start)` and entry k is entry `start + k` |
| `Projects.Window` | script.js:110-112 | a page shows `min(3, max(0, n - (page-1)*3))` filtered cards, the ones at filtered indices `(page-1)*3 + k`, and every in-range index of the window is among them |
| `Projects.HiddenFlags` | script.js:108-114 | one hidden flag per card, and every card left visible matches the filter |
| `Projects.VisibleIff` | script.js:108-114 | after an update a card is visible iff it matches the filter and its filtered index lies in `[(page-1)*3, page*3)`; every other card is hidden |
| `Projects.VisibleMatchesFilter` | script.js:110-113 | every visible card matches the filter |
| `Projects.VisibleCount` | script.js:110-113 | the number of visible cards is `min(3, max(0, filteredCount - (page-1)*3))` |
| `Projects.PagesPartition` | script.js:110-111 | filtered index k lies in the window of page `k/3 + 1` and of no other page, and that page is between 1 and the page count |
| `Projects.VisibleOnExactlyOnePage` | script.js:108-114 | across pages 1..TotalPages a matching card is visible on exactly one page; a card the filter drops is hidden on every page |
| `Projects.WildcardPages` | script.js:108-114 | with `"all"`, page p shows exactly the cards at document positions `[(p-1)*3, p*3)` |
| `ProjectsController.Controller.constructor` | script.js:54-119 | the initial state is filter `"all"`, page 1, with the buttons and display consistent with it (`Valid`) |
| `ProjectsController.Controller.GeneratePaginationButtons` | script.js:61-87 | fresh page buttons, as many as `TotalPages(filteredCount)`, with only the first active (none when there are no pages) |
| `ProjectsController.Controller.UpdateProjectDisplay` | script.js:102-115 | every card's hidden flag becomes `HiddenFlags(categories, filter, page)` |
| `ProjectsController.Controller.FilterClick` | script.js:89-99 | the filter becomes the button's tag and the page 1; only that filter button is active; the page buttons are regenerated; the display is updated; `Valid` is kept |
| `ProjectsController.Controller.PageClick` | script.js:77-83 | the page becomes b+1 with the filter unchanged; exactly button b is active; the display is updated; `Valid` is kept |
| `ProjectsController.FilterClickTwice` | script.js:90-98 | after the first click the hidden flags are `HiddenFlags(categories, tag, 1)` and the page buttons are `TotalPages` flags with only the first set; after a second click on the same button, the flags, buttons, filter and page are exactly those values again |
| `NavLinks.Split` | script.js:263 | `split('/')` gives at least one segment, none holding `/`, and joining them with `/` gives back the path |
| `NavLinks.PageName` | script.js:263 | the page name (`pop()` of the split path, or `index.html` when that is empty) is never empty and holds no `/` |
| `NavLinks.PageNameShape` | script.js:263 | the page name is never empty; it is `"index.html"` when the path is empty or ends in `/`; otherwise it is the longest `/`-free suffix of the path |
| `NavLinks.ActiveLinkIsExactMatch` | script.js:267 | `IsActiveLink`, the test of line 267 written as is, applied to the page name: the two-disjunct test (href equals the page name, or the page name is empty and href is `index.html`) holds iff href equals the page name, so the second disjunct is dead |
| `NavLinks.HighlightNavLinks` | script.js:265-270 | a link ends up active iff it was active before or its href equals the page name |

## Behaviour notes

- Filter tags are not checked against a known set. An unknown tag keeps no
  card, so there are no page buttons and no visible card.
- The page buttons are regenerated on every filter change.
- A page can only be chosen through an existing page button, so `PageClick`
  requires `b < pageButtons.Length`. The code has no other guard on the page.

## Left out

- The early return when the document has no project cards (script.js:54): `Controller.constructor` requires at least one card, because with none the source never sets up a controller.
- DOM event-listener registration: each click is a method call on the controller, and the button's closure variable `i` becomes the button index.
- `getAttribute` returning `null` for a missing `data-filter`, `data-category` or `href`: every button, card and nav link is assumed to carry its attribute as a string. (A nav link without `href` would never be marked active in the source, since the page name is never empty.)
- A missing `#pagination-container` (which would make the source throw): the container is assumed present.
- The `active` class on filter buttons before the first click comes from the markup; the constructor takes it as a parameter.
- `NavLinks.HighlightNavLinks` takes the pathname as a parameter instead of reading `window.location`.
- Hamburger menu, terminal fade, scroll reveal observer, injected styles, glitch effect, level-bar animation, CTA log, link glow and console banner (script.js:1-46, 122-259, 273-275): presentation, timers, browser callbacks and I/O with no state rules.
