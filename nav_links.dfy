/** The "Highlight Active Nav Link" rule: the current page's name is the
    last `/`-separated segment of the location's path, or "index.html" when
    that segment is empty, and a navigation link is marked active when its
    `href` names that page.
 */
module NavLinks {

  /** The page assumed when the path ends in `/` (or is empty). */
  const DefaultPage: string := "index.html"

  /** `String.prototype.join("/")`. */
  function Join(segments: seq<string>): string
    requires |segments| >= 1
  {
    if |segments| == 1 then segments[0]
    else Join(segments[..|segments| - 1]) + "/" + segments[|segments| - 1]
  }

  /** Appending a character to the last segment appends it to the join. */
  lemma JoinExtendLast(segments: seq<string>, c: char)
    requires |segments| >= 1
    ensures Join(segments[..|segments| - 1] + [segments[|segments| - 1] + [c]]) == Join(segments) + [c]
  {
    var n := |segments|;
    var longer := segments[..n - 1] + [segments[n - 1] + [c]];
    if n > 1 {
      assert longer[..n - 1] == segments[..n - 1];
    }
  }

  /** `String.prototype.split("/")`: never empty, no segment holds a `/`,
      and joining the segments again gives back the string. */
  function Split(s: string): (r: seq<string>)
    ensures |r| >= 1
    ensures forall i :: 0 <= i < |r| ==> '/' !in r[i]
    ensures Join(r) == s
  {
    if s == [] then [[]]
    else
      var init, c := s[..|s| - 1], s[|s| - 1];
      var segments := Split(init);
      assert init + [c] == s;
      if c == '/' then
        segments + [[]]
      else
        JoinExtendLast(segments, c);
        segments[..|segments| - 1] + [segments[|segments| - 1] + [c]]
  }

  /** `pathname.split('/').pop() || 'index.html'`. */
  function PageName(pathname: string): (r: string)
    ensures r != []
    ensures '/' !in r
  {
    var segments := Split(pathname);
    var last := segments[|segments| - 1];
    if last == [] then DefaultPage else last
  }

  /** The page name is never empty.  When the path is empty or ends in `/` it
      is "index.html"; otherwise it is the longest suffix of the path that
      holds no `/`. */
  lemma PageNameShape(pathname: string)
    ensures PageName(pathname) != []
    ensures pathname == [] || pathname[|pathname| - 1] == '/' ==> PageName(pathname) == DefaultPage
    ensures pathname != [] && pathname[|pathname| - 1] != '/' ==>
      var r := PageName(pathname);
      |r| <= |pathname| && r == pathname[|pathname| - |r|..] && '/' !in r &&
      (|r| == |pathname| || pathname[|pathname| - |r| - 1] == '/')
  {
    var segments := Split(pathname);
    var n := |segments|;
    var last := segments[n - 1];
    if n > 1 {
      assert pathname == Join(segments[..n - 1]) + "/" + last;
    }
  }

  /** The test of a link against the page name, with its two disjuncts. */
  predicate IsActiveLink(href: string, currentPage: string)
  {
    href == currentPage || (currentPage == "" && href == DefaultPage)
  }

  /** Because the page name is never empty, the second disjunct of the test
      never decides anything: a link is active iff its href equals the page
      name. */
  lemma ActiveLinkIsExactMatch(href: string, pathname: string)
    ensures IsActiveLink(href, PageName(pathname)) <==> href == PageName(pathname)
  {
    PageNameShape(pathname);
  }

  /** Adds the `active` class to every link whose href names the current
      page; other links keep whatever class they had. */
  method HighlightNavLinks(hrefs: seq<string>, active: array<bool>, pathname: string)
    requires active.Length == |hrefs|
    modifies active
    ensures forall k :: 0 <= k < active.Length ==>
      active[k] == (old(active[k]) || hrefs[k] == PageName(pathname))
  {
    var currentPage := PageName(pathname);
    for k := 0 to active.Length
      invariant forall m :: 0 <= m < k ==> active[m] == (old(active[m]) || hrefs[m] == currentPage)
      invariant forall m :: k <= m < active.Length ==> active[m] == old(active[m])
    {
      ActiveLinkIsExactMatch(hrefs[k], pathname);
      if IsActiveLink(hrefs[k], currentPage) {
        active[k] := true;
      }
    }
  }
}
