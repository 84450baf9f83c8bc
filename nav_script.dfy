/**
 * frontend/js/nav-script.js: the navigation bar. The menu button opens and closes the mobile
 * menu, clicking a link closes it, and the link for the current page is marked active-page.
 */
module NavScript {
  import opened Wrappers
  import opened Strings

  const INDEX_PAGE: string := "index.html"

  // ----- The current page and the active link -----

  /** segments.filter(segment => segment !== ''): the non-empty segments, in order. */
  function NonEmptySegments(segments: seq<string>): (r: seq<string>)
    ensures forall i :: 0 <= i < |r| ==> r[i] != ""
    ensures forall seg :: seg in r <==> seg in segments && seg != ""
  {
    if segments == [] then []
    else (if segments[0] != "" then [segments[0]] else []) + NonEmptySegments(segments[1..])
  }

  /**
   * The last non-empty segment, read from the end of the pathname: drop the trailing '/'s and
   * take what follows the last '/' that remains. The filter leaves nothing exactly when nothing
   * remains once the trailing '/'s are dropped.
   */
  lemma {:induction false} LastNonEmptySegment(pathname: string)
    ensures var segments := NonEmptySegments(Split(pathname, '/'));
      var trimmed := DropTrailing(pathname, '/');
      (segments == [] <==> trimmed == []) &&
      (segments != [] ==> segments[|segments| - 1] == AfterLast(trimmed, '/'))
  {
    if pathname == [] {
      assert NonEmptySegments([[]]) == [];
    } else if pathname[|pathname| - 1] == '/' {
      var q := pathname[..|pathname| - 1];
      TrailingSlashAddsNoSegment(q);
      assert pathname == q + ['/'];
      LastNonEmptySegment(q);
    } else {
      LastPieceIsLastSegment(pathname);
    }
  }

  /** A trailing '/' adds only an empty piece, which the filter drops. */
  lemma TrailingSlashAddsNoSegment(q: string)
    ensures NonEmptySegments(Split(q + ['/'], '/')) == NonEmptySegments(Split(q, '/'))
  {
    assert q + ['/'] == q + ['/'] + [];
    SplitConcat(q, [], '/');
    NonEmptySegmentsAppend(Split(q, '/'), [[]]);
    assert NonEmptySegments([[]]) == [];
  }

  /** A pathname that does not end in '/' has a non-empty last piece, and the filter ends with it. */
  lemma LastPieceIsLastSegment(pathname: string)
    requires pathname != [] && pathname[|pathname| - 1] != '/'
    ensures var segments := NonEmptySegments(Split(pathname, '/'));
      segments != [] && segments[|segments| - 1] == AfterLast(pathname, '/')
  {
    var pieces := Split(pathname, '/');
    var n := |pieces| - 1;
    SplitLastIsAfterLast(pathname, '/');
    var last := pieces[n];
    assert last != [];
    assert pieces == pieces[..n] + [last];
    NonEmptySegmentsAppend(pieces[..n], [last]);
    assert NonEmptySegments([last]) == [last];
  }

  /**
   * The last non-empty '/'-segment of the pathname, or "index.html" when there is none. It is
   * never empty and holds no '/', so the reassignment for an empty page (which would also fail,
   * as currentPage is const) can never run.
   */
  function CurrentPage(pathname: string): (r: string)
    ensures r != "" && '/' !in r
    ensures r == INDEX_PAGE || r in Split(pathname, '/')
    ensures DropTrailing(pathname, '/') == [] ==> r == INDEX_PAGE
    ensures DropTrailing(pathname, '/') != [] ==> r == AfterLast(DropTrailing(pathname, '/'), '/')
  {
    LastNonEmptySegment(pathname);
    var segments := NonEmptySegments(Split(pathname, '/'));
    if |segments| > 0 then
      var page := segments[|segments| - 1];
      assert page in segments && page in Split(pathname, '/');
      page
    else INDEX_PAGE
  }

  /**
   * linkHref.split('/').pop(): the part of the href after its last '/', or all of it; empty
   * when the href ends with '/'.
   */
  function LinkPage(href: string): (r: string)
    ensures '/' !in r
    ensures |r| <= |href| && r == href[|href| - |r|..]
    ensures |r| == |href| || href[|href| - |r| - 1] == '/'
    ensures r == AfterLast(href, '/')
    ensures href != [] && href[|href| - 1] == '/' ==> r == ""
  {
    var segments := Split(href, '/');
    SplitLastIsAfterLast(href, '/');
    segments[|segments| - 1]
  }

  /** The hrefs the home special case accepts. */
  predicate HomeHref(href: string) {
    href == "/" || href == "index.html" || href == "./"
  }

  /**
   * A link is marked when its href is set and points at the current page, or is a home href on
   * the index page. A link without an href is never marked, and away from the index page only
   * the last segment of the href matters.
   */
  predicate IsActive(href: Option<string>, currentPage: string)
    ensures IsActive(href, currentPage) ==> href.Some? && href.value != ""
    ensures currentPage != INDEX_PAGE ==>
      (IsActive(href, currentPage) <==> href.Some? && href.value != "" && LinkPage(href.value) == currentPage)
  {
    href.Some? && href.value != "" &&
    (LinkPage(href.value) == currentPage || (currentPage == INDEX_PAGE && HomeHref(href.value)))
  }

  /** A nav link: its href attribute and whether it has the active-page class. */
  datatype Link = Link(href: Option<string>, activePage: bool)

  /** What the marking loop does to one link: classList.add only, never a removal. */
  function Marked(link: Link, currentPage: string): (r: Link)
    ensures r.href == link.href
    ensures r.activePage == (link.activePage || IsActive(link.href, currentPage))
  {
    if IsActive(link.href, currentPage) then link.(activePage := true) else link
  }

  /** The navLinks.forEach marking loop, on the page's links in place. */
  method MarkActiveLinks(links: array<Link>, pathname: string)
    modifies links
    ensures forall i :: 0 <= i < links.Length ==> links[i] == Marked(old(links[i]), CurrentPage(pathname))
  {
    var currentPage := CurrentPage(pathname);
    var i := 0;
    while i < links.Length
      invariant 0 <= i <= links.Length
      invariant forall j :: 0 <= j < i ==> links[j] == Marked(old(links[j]), currentPage)
      invariant forall j :: i <= j < links.Length ==> links[j] == old(links[j])
    {
      MarkLink(links, i, currentPage);
      i := i + 1;
    }
  }

  /** One turn of the forEach: the link at i is marked, the others are left alone. */
  method MarkLink(links: array<Link>, i: nat, currentPage: string)
    requires i < links.Length
    modifies links
    ensures links[i] == Marked(old(links[i]), currentPage)
    ensures forall j :: 0 <= j < links.Length && j != i ==> links[j] == old(links[j])
  {
    links[i] := Marked(links[i], currentPage);
  }

  lemma {:induction false} NonEmptySegmentsAppend(a: seq<string>, b: seq<string>)
    ensures NonEmptySegments(a + b) == NonEmptySegments(a) + NonEmptySegments(b)
  {
    if a == [] {
      assert a + b == b;
    } else {
      assert (a + b)[1..] == a[1..] + b;
      NonEmptySegmentsAppend(a[1..], b);
    }
  }

  /** The root path and the empty path both mean the index page. */
  lemma CurrentPageOfRoot()
    ensures CurrentPage("/") == INDEX_PAGE && CurrentPage("") == INDEX_PAGE
  {
    assert Split("/", '/') == [[], []];
  }

  /** A pathname made only of '/', of any length, means the index page. */
  lemma CurrentPageOfSlashes(pathname: string)
    requires forall i :: 0 <= i < |pathname| ==> pathname[i] == '/'
    ensures CurrentPage(pathname) == INDEX_PAGE
  {
  }

  /** A path ending in a file name, with or without a trailing '/', names that file. */
  lemma CurrentPageOfFile(dir: string, page: string)
    requires page != "" && '/' !in page
    ensures CurrentPage(dir + "/" + page) == page
    ensures CurrentPage(dir + "/" + page + "/") == page
  {
    var front := Split(dir, '/');
    SplitConcat(dir, page, '/');
    SplitNoSeparator(page, '/');
    assert Split(dir + "/" + page, '/') == front + [page];
    NonEmptySegmentsAppend(front, [page]);
    SplitConcat(dir + "/" + page, [], '/');
    assert dir + "/" + page + "/" == dir + "/" + page + ['/'] + [];
    assert Split(dir + "/" + page + "/", '/') == (front + [page]) + [[]];
    NonEmptySegmentsAppend(front + [page], [[]]);
  }

  /** An href without '/', such as "select-issue.html", is its own page. */
  lemma LinkPageWithoutSlash(href: string)
    requires '/' !in href
    ensures LinkPage(href) == href
  {
  }

  /** A link to dir/page points at page. */
  lemma LinkPageOfFile(dir: string, page: string)
    requires '/' !in page
    ensures LinkPage(dir + "/" + page) == page
  {
    SplitConcat(dir, page, '/');
    SplitNoSeparator(page, '/');
  }

  /** The "/" link is active exactly on the index page: its own last segment is empty, which no current page is. */
  lemma RootLinkActiveOnlyOnIndex(pathname: string)
    ensures IsActive(Some("/"), CurrentPage(pathname)) <==> CurrentPage(pathname) == INDEX_PAGE
  {
    assert Split("/", '/') == [[], []];
  }

  /** On the index page "/", "index.html" and "./" are all marked. */
  lemma HomeLinksOnIndex()
    ensures IsActive(Some("/"), INDEX_PAGE) && IsActive(Some("index.html"), INDEX_PAGE) && IsActive(Some("./"), INDEX_PAGE)
  {
  }

  /** A link without an href, or with an empty one, is left as it is. */
  lemma LinkWithoutHrefUntouched(link: Link, currentPage: string)
    requires link.href.None? || link.href == Some("")
    ensures Marked(link, currentPage) == link
  {
  }

  // ----- The menu toggle -----

  /** The active class on the nav list and on the button, and the button's aria-expanded attribute. */
  datatype MenuState = MenuState(navLinksActive: bool, menuToggleActive: bool, ariaExpanded: Option<string>)

  /** getAttribute('aria-expanded') === 'true': an absent attribute counts as false. */
  predicate Expanded(s: MenuState) {
    s.ariaExpanded == Some("true")
  }

  /** The button's click handler: both classes flip, aria-expanded becomes the negation, as a string. */
  function Toggled(s: MenuState): (r: MenuState)
    ensures Expanded(r) == !Expanded(s)
    ensures r.navLinksActive == !s.navLinksActive && r.menuToggleActive == !s.menuToggleActive
  {
    MenuState(!s.navLinksActive, !s.menuToggleActive, Some(if Expanded(s) then "false" else "true"))
  }

  /** A nav link's click handler: an open menu is closed; a closed one is left alone. */
  function Closed(s: MenuState): (r: MenuState)
    ensures s.navLinksActive ==> !r.navLinksActive && !r.menuToggleActive && !Expanded(r)
    ensures s.navLinksActive ==> r.ariaExpanded == Some("false")
    ensures !s.navLinksActive ==> r == s
  {
    if s.navLinksActive then MenuState(false, false, Some("false")) else s
  }

  /** The list, the button and aria-expanded all agree on whether the menu is open. */
  predicate Synced(s: MenuState) {
    s.navLinksActive == s.menuToggleActive && s.menuToggleActive == Expanded(s)
  }

  /** Both handlers keep the three in agreement. */
  lemma HandlersKeepSynced(s: MenuState)
    requires Synced(s)
    ensures Synced(Toggled(s)) && Synced(Closed(s))
  {
  }

  /** Toggling twice restores the state once aria-expanded has been written. */
  lemma ToggleTwice(s: MenuState)
    requires s.ariaExpanded == Some("true") || s.ariaExpanded == Some("false")
    ensures Toggled(Toggled(s)) == s
  {
  }

  /** A second link click changes nothing. */
  lemma CloseIdempotent(s: MenuState)
    ensures Closed(Closed(s)) == Closed(s)
  {
  }

  /** The page's two menu elements, present together, and their handlers. */
  class Menu {
    var navLinksActive: bool
    var menuToggleActive: bool
    var ariaExpanded: Option<string>

    function State(): MenuState
      reads this
    {
      MenuState(navLinksActive, menuToggleActive, ariaExpanded)
    }

    constructor (initial: MenuState)
      ensures State() == initial
    {
      navLinksActive := initial.navLinksActive;
      menuToggleActive := initial.menuToggleActive;
      ariaExpanded := initial.ariaExpanded;
    }

    /** Click on the menu button. */
    method Toggle()
      modifies this
      ensures State() == Toggled(old(State()))
    {
      navLinksActive := !navLinksActive;
      menuToggleActive := !menuToggleActive;
      var isExpanded := ariaExpanded == Some("true");
      ariaExpanded := Some(if !isExpanded then "true" else "false");
    }

    /** Click on a nav link. */
    method LinkClicked()
      modifies this
      ensures State() == Closed(old(State()))
    {
      if navLinksActive {
        navLinksActive := false;
        menuToggleActive := false;
        ariaExpanded := Some("false");
      }
    }
  }
}
