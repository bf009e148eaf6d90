/**
 * URL building, API navigation rendering with its mega-menu counter, and the
 * mega-content synchronisation of the YBS header fragment
 * (ybs-header/index.js). Its dropdowns and mobile menu are HoverDropdowns,
 * its menu-loading guard is NavItems.LoadNavigation.
 */
module YbsHeader {
  import opened Wrappers
  import opened Text
  import opened NavItems

  // ---------------------------------------------------------------------------
  // Site base path

  /** A configured prefix with `/` added at whichever end lacks it. */
  function NormalisedPrefix(prefix: string): (r: string)
    ensures StartsWith(r, "/") && EndsWith(r, "/")
    ensures r == prefix || r == "/" + prefix || r == prefix + "/" || r == "/" + prefix + "/"
    ensures StartsWith(prefix, "/") && EndsWith(prefix, "/") ==> r == prefix
  {
    var rooted := if StartsWith(prefix, "/") then prefix else "/" + prefix;
    var r := if EndsWith(rooted, "/") then rooted else rooted + "/";
    assert r[..1] == rooted[..1];
    r
  }

  /** Normalising a normalised prefix changes nothing. */
  lemma NormalisedPrefixIdempotent(prefix: string)
    ensures NormalisedPrefix(NormalisedPrefix(prefix)) == NormalisedPrefix(prefix)
  {
  }

  /** `s.lastIndexOf(c)`: the last index holding `c`, or -1. */
  function LastIndexOf(s: string, c: char): (r: int)
    ensures -1 <= r < |s|
    ensures r >= 0 ==> s[r] == c
    ensures forall j :: r < j < |s| ==> s[j] != c
  {
    if s == [] then -1
    else if s[|s| - 1] == c then |s| - 1
    else LastIndexOf(s[..|s| - 1], c)
  }

  /** `relativeURL.substring(0, lastIndexOf('/') + 1)`: the longest prefix ending
      in `/`, or empty when there is no `/`. */
  function DirectoryPart(u: string): (r: string)
    ensures StartsWith(u, r)
    ensures r == [] || r[|r| - 1] == '/'
    ensures forall j :: |r| <= j < |u| ==> u[j] != '/'
  {
    u[..LastIndexOf(u, '/') + 1]
  }

  const GuestBase := "/web/guest/"

  /** `getSiteBasePath`: the normalised trimmed `sitePrefix` when that is not
      blank; otherwise the directory part of the ThemeDisplay relative URL, or
      `/web/guest/` when reading it throws (`None`). */
  function SiteBasePath(sitePrefix: string, relativeURL: Option<string>): (r: string)
    ensures Trim(sitePrefix) != [] ==> r == NormalisedPrefix(Trim(sitePrefix))
    ensures Trim(sitePrefix) == [] && relativeURL.None? ==> r == GuestBase
    ensures Trim(sitePrefix) == [] && relativeURL.Some? ==> r == DirectoryPart(relativeURL.value)
  {
    if Trim(sitePrefix) != [] then NormalisedPrefix(Trim(sitePrefix))
    else match relativeURL
      case None => GuestBase
      case Some(u) => DirectoryPart(u)
  }

  /** With a non-blank prefix the base path starts and ends with `/`, and the
      relative URL is not consulted. */
  lemma ConfiguredBaseIsRooted(sitePrefix: string, u1: Option<string>, u2: Option<string>)
    requires Trim(sitePrefix) != []
    ensures StartsWith(SiteBasePath(sitePrefix, u1), "/") && EndsWith(SiteBasePath(sitePrefix, u1), "/")
    ensures SiteBasePath(sitePrefix, u1) == SiteBasePath(sitePrefix, u2)
  {
  }

  // ---------------------------------------------------------------------------
  // Page URLs

  /** `buildPageURL`: `#` for an empty path or `#`; a path starting with `/web/` or
      `http` unchanged; otherwise the base path followed by the path with one
      leading `/` removed. */
  function BuildPageURL(pagePath: string, base: string): (r: string)
    ensures pagePath == [] || pagePath == "#" ==> r == "#"
    ensures pagePath != [] && pagePath != "#" && (StartsWith(pagePath, "/web/") || StartsWith(pagePath, "http")) ==> r == pagePath
    ensures pagePath != [] && pagePath != "#" && !StartsWith(pagePath, "/web/") && !StartsWith(pagePath, "http") ==>
      StartsWith(r, base) && (r == base + pagePath || (pagePath[0] == '/' && r == base + pagePath[1..]))
  {
    if pagePath == [] || pagePath == "#" then "#"
    else if StartsWith(pagePath, "/web/") || StartsWith(pagePath, "http") then pagePath
    else
      var clean := if StartsWith(pagePath, "/") then pagePath[1..] else pagePath;
      assert (base + clean)[..|base|] == base;
      base + clean
  }

  /** A relative page path and the same path with a leading `/` build the same URL. */
  lemma LeadingSlashOptional(p: string, base: string)
    requires p != [] && p != "#" && p[0] != '/'
    requires !StartsWith(p, "http") && !StartsWith(p, "web/")
    ensures BuildPageURL("/" + p, base) == BuildPageURL(p, base) == base + p
  {
    var q := "/" + p;
    assert q[1..] == p;
    MismatchNotPrefix(q, "http", 0);
    MismatchNotPrefix(p, "/web/", 0);
    MismatchNotPrefix(p, "/", 0);
    assert "/web/" == ['/'] + "web/";
    PrefixCons('/', p, "web/");
  }

  /** The logo's home link is `buildPageURL('/home')`: the base path plus `home`. */
  lemma LogoHomeLink(base: string)
    ensures BuildPageURL("/home", base) == base + "home"
  {
    var q := "/home";
    MismatchNotPrefix(q, "/web/", 1);
    MismatchNotPrefix(q, "http", 0);
    assert q[1..] == "home";
  }

  // ---------------------------------------------------------------------------
  // Rendering API items

  /** `item.navigationMenuItems || item.children || []`: an array present in the
      JSON is truthy even when empty, so a present `navigationMenuItems` wins. */
  function ApiChildren(item: Item): (r: seq<Item>)
    ensures item.navigationMenuItems.Present? ==> r == item.navigationMenuItems.items
    ensures item.navigationMenuItems.Absent? ==> r == item.children.OrEmpty()
  {
    match item.navigationMenuItems
    case Present(kids) => kids
    case Absent => item.children.OrEmpty()
  }

  /** An empty `navigationMenuItems` hides non-empty `children`: the item has no dropdown. */
  lemma EmptyMenuItemsHideChildren(item: Item)
    requires item.navigationMenuItems == Present([])
    ensures ApiChildren(item) == []
  {
  }

  /** An anchor as `createNavItemFromAPI` builds it: the href goes through
      `buildPageURL`, and an `external` item opens in a new tab. */
  function ApiAnchor(item: Item, base: string): Anchor
  {
    Anchor(BuildPageURL(Href(item), base), Label(item), item.external)
  }

  /** `createNavItemFromAPI(item, isMobile)` with the current mega index `index`:
      a desktop item with children gets the popup attributes and the mega index;
      a mobile item never does. */
  function CreateNavItemFromAPI(item: Item, isMobile: bool, index: nat, base: string): (e: NavEntry)
    ensures e.link == ApiAnchor(item, base)
    ensures e.hasDropdown <==> |ApiChildren(item)| > 0
    ensures e.popup <==> e.hasDropdown && !isMobile
    ensures e.megaIndex == if e.popup then index else 0
    ensures |e.dropdown| == |ApiChildren(item)|
    ensures forall k :: 0 <= k < |e.dropdown| ==> e.dropdown[k] == ApiAnchor(ApiChildren(item)[k], base)
  {
    var kids := ApiChildren(item);
    var has := |kids| > 0;
    NavEntry(ApiAnchor(item, base), has, has && !isMobile, if has && !isMobile then index else 0,
             seq(|kids|, k requires 0 <= k < |kids| => ApiAnchor(kids[k], base)))
  }

  /** Which items have a dropdown. */
  function DropdownFlags(items: seq<Item>): (f: seq<bool>)
    ensures |f| == |items|
    ensures forall k :: 0 <= k < |items| ==> (f[k] <==> |ApiChildren(items[k])| > 0)
  {
    seq(|items|, k requires 0 <= k < |items| => |ApiChildren(items[k])| > 0)
  }

  /** The index handed to an item that gets no popup is never stored. */
  lemma IndexUnusedWithoutPopup(item: Item, isMobile: bool, a: nat, b: nat, base: string)
    requires isMobile || |ApiChildren(item)| == 0
    ensures CreateNavItemFromAPI(item, isMobile, a, base) == CreateNavItemFromAPI(item, isMobile, b, base)
  {
  }

  /** The desktop entry of item `k` among `items`, numbered by the running counter. */
  function DesktopEntry(items: seq<Item>, k: nat, base: string): NavEntry
    requires k < |items|
  {
    CreateNavItemFromAPI(items[k], false, Numbering(DropdownFlags(items))[k], base)
  }

  /** One step of the desktop loop: with the counter at one past the flagged
      items before `i`, item `i` renders as its desktop entry, and it takes a
      popup exactly when it is flagged. */
  lemma DesktopStep(items: seq<Item>, i: nat, index: nat, base: string)
    requires i < |items| && index == 1 + CountTrue(DropdownFlags(items)[..i])
    ensures var e := CreateNavItemFromAPI(items[i], false, index, base);
      && e == DesktopEntry(items, i, base)
      && (e.popup <==> DropdownFlags(items)[i])
      && CountTrue(DropdownFlags(items)[..i + 1]) == CountTrue(DropdownFlags(items)[..i]) + (if e.popup then 1 else 0)
  {
    var flags := DropdownFlags(items);
    CountStep(flags, i);
    if !flags[i] {
      IndexUnusedWithoutPopup(items[i], false, index, Numbering(flags)[i], base);
    }
  }

  /** The first |desktop| items rendered as their desktop entries. */
  ghost predicate DesktopUpTo(items: seq<Item>, desktop: seq<NavEntry>, base: string)
  {
    |desktop| <= |items| && forall k :: 0 <= k < |desktop| ==> desktop[k] == DesktopEntry(items, k, base)
  }

  lemma DesktopExtend(items: seq<Item>, desktop: seq<NavEntry>, entry: NavEntry, base: string)
    requires DesktopUpTo(items, desktop, base) && |desktop| < |items|
    requires entry == DesktopEntry(items, |desktop|, base)
    ensures DesktopUpTo(items, desktop + [entry], base)
  {
    var t := desktop + [entry];
    forall k | 0 <= k < |t| ensures t[k] == DesktopEntry(items, k, base) {
      if k < |desktop| {
        assert t[k] == desktop[k];
      }
    }
  }

  /** The module-level `currentMegaIndex` and `renderNavigationFromAPI`. */
  class Navigation {
    var currentMegaIndex: nat

    constructor ()
      ensures currentMegaIndex == 1
    {
      currentMegaIndex := 1;
    }

    /** Renders the desktop list and then the mobile list. The counter is reset to
        1 first, so the result does not depend on earlier renders; each desktop
        item with children takes the next index, and the counter ends one past
        the number of such items. */
    method RenderNavigationFromAPI(items: seq<Item>, base: string) returns (desktop: seq<NavEntry>, mobile: seq<NavEntry>)
      modifies this
      ensures |desktop| == |items| && |mobile| == |items|
      ensures forall k :: 0 <= k < |items| ==> desktop[k] == DesktopEntry(items, k, base)
      ensures forall k :: 0 <= k < |items| ==> mobile[k] == CreateNavItemFromAPI(items[k], true, 0, base)
      ensures currentMegaIndex == 1 + CountTrue(DropdownFlags(items))
    {
      currentMegaIndex := 1;
      desktop := RenderDesktop(items, base);
      mobile := RenderMobile(items, base, currentMegaIndex);
    }

    /** The desktop `forEach`: starting from a counter of 1, each item with
        children takes the counter's value and bumps it. */
    method RenderDesktop(items: seq<Item>, base: string) returns (desktop: seq<NavEntry>)
      requires currentMegaIndex == 1
      modifies this
      ensures |desktop| == |items|
      ensures forall k :: 0 <= k < |items| ==> desktop[k] == DesktopEntry(items, k, base)
      ensures currentMegaIndex == 1 + CountTrue(DropdownFlags(items))
    {
      var flags := DropdownFlags(items);
      desktop := [];
      for i := 0 to |items|
        invariant |desktop| == i
        invariant currentMegaIndex == 1 + CountTrue(flags[..i])
        invariant DesktopUpTo(items, desktop, base)
      {
        var entry := CreateNavItemFromAPI(items[i], false, currentMegaIndex, base);
        DesktopStep(items, i, currentMegaIndex, base);
        DesktopExtend(items, desktop, entry, base);
        desktop := desktop + [entry];
        if entry.popup {
          currentMegaIndex := currentMegaIndex + 1;
        }
      }
      assert flags[..|items|] == flags;
    }
  }

  /** The mobile `forEach`: the counter is passed along but never stored. */
  method RenderMobile(items: seq<Item>, base: string, index: nat) returns (mobile: seq<NavEntry>)
    ensures |mobile| == |items|
    ensures forall k :: 0 <= k < |items| ==> mobile[k] == CreateNavItemFromAPI(items[k], true, 0, base)
  {
    mobile := [];
    for i := 0 to |items|
      invariant |mobile| == i
      invariant forall k :: 0 <= k < i ==> mobile[k] == CreateNavItemFromAPI(items[k], true, 0, base)
    {
      var entry := CreateNavItemFromAPI(items[i], true, index, base);
      IndexUnusedWithoutPopup(items[i], true, index, 0, base);
      mobile := mobile + [entry];
    }
  }

  /** The mega index of a rendered desktop item is non-zero iff it has a dropdown,
      and the indices of items with dropdowns increase along the menu. */
  lemma DesktopMegaIndices(items: seq<Item>, base: string, j: nat, k: nat)
    requires j < k < |items|
    requires |ApiChildren(items[j])| > 0 && |ApiChildren(items[k])| > 0
    ensures 0 < DesktopEntry(items, j, base).megaIndex < DesktopEntry(items, k, base).megaIndex
  {
    NumberingIncreasing(DropdownFlags(items), j, k);
  }

  // ---------------------------------------------------------------------------
  // Mega-menu content

  /** `hasRealContent` for a dropzone's `innerHTML`: not blank (`trim()` leaves
      something, see Text.TrimEmptyIff), more than 50 characters, and containing
      one of the markers. */
  predicate HasRealContent(c: string)
  {
    !AllWhitespace(c) && |c| > 50 && HasMarker(c)
  }

  predicate HasMarker(c: string)
  {
    Contains(c, "portlet") || Contains(c, "widget") || Contains(c, "class=")
    || Contains(c, "<div") || Contains(c, "<p") || Contains(c, "<a")
  }

  lemma {:induction false} ContainsNonBlank(c: string, w: string)
    requires w != [] && !IsWhitespace(w[0]) && Contains(c, w)
    ensures !AllWhitespace(c)
  {
    ContainsIff(c, w);
    var i :| OccursAt(c, w, i);
    assert c[i] == c[i..i + |w|][0];
  }

  /** Every marker starts with a visible character, so the blank test is implied by
      the others: real content is exactly a long string holding a marker. */
  lemma HasRealContentIff(c: string)
    ensures HasRealContent(c) <==> |c| > 50 && HasMarker(c)
  {
    if HasMarker(c) {
      if Contains(c, "portlet") { ContainsNonBlank(c, "portlet"); }
      else if Contains(c, "widget") { ContainsNonBlank(c, "widget"); }
      else if Contains(c, "class=") { ContainsNonBlank(c, "class="); }
      else if Contains(c, "<div") { ContainsNonBlank(c, "<div"); }
      else if Contains(c, "<p") { ContainsNonBlank(c, "<p"); }
      else { ContainsNonBlank(c, "<a"); }
    }
  }

  /** The highest dropzone number `initializeMegaMenuContent` looks at. */
  const MaxMegaIndex := 5

  /** The rendered mega-content areas, keyed by `data-mega-index`. */
  class MegaAreas {
    /** The `innerHTML` of each area. */
    var content: map<nat, string>
    /** Areas with class `has-content` (their dropdown carries `has-mega-content` alike). */
    var filled: set<nat>

    constructor (areas: set<nat>)
      ensures content == (map i | i in areas :: "") && filled == {}
    {
      content := map i | i in areas :: "";
      filled := {};
    }

    /** `initializeMegaMenuContent`: for i = 1..5, when area i and dropzone
        `#dropzone-mega-menu-i` both exist, copies the dropzone's content into
        the area iff it is real content and clears the area otherwise. */
    method Synchronise(dropzones: map<nat, string>)
      modifies this
      ensures content.Keys == old(content).Keys
      ensures forall i | i in content ::
        content[i] == if Copied(i, dropzones, MaxMegaIndex + 1) then Shown(dropzones[i]) else old(content)[i]
      ensures forall i :: i in filled <==> FilledAfter(i, old(filled), old(content).Keys, dropzones, MaxMegaIndex + 1)
    {
      for i := 1 to MaxMegaIndex + 1
        invariant content.Keys == old(content).Keys
        invariant forall j | j in content ::
          content[j] == if Copied(j, dropzones, i) then Shown(dropzones[j]) else old(content)[j]
        invariant filled == FilledSet(old(filled), old(content).Keys, dropzones, i)
      {
        FilledStep(old(filled), old(content).Keys, dropzones, i);
        if i in content && i in dropzones {
          var isReal := HasRealContent(dropzones[i]);
          content := content[i := Shown(dropzones[i])];
          filled := if isReal then filled + {i} else filled - {i};
        }
      }
      FilledMembers(old(filled), old(content).Keys, dropzones, MaxMegaIndex + 1);
    }
  }

  /** Whether area `j` has content after the dropzones below `upto` were visited. */
  predicate FilledAfter(j: nat, filled: set<nat>, areas: set<nat>, dropzones: map<nat, string>, upto: nat)
  {
    if j in areas && Copied(j, dropzones, upto) then HasRealContent(dropzones[j]) else j in filled
  }

  /** The areas with content after the dropzones below `upto` were visited. */
  function FilledSet(filled: set<nat>, areas: set<nat>, dropzones: map<nat, string>, upto: nat): set<nat>
  {
    set j | j in filled + areas && FilledAfter(j, filled, areas, dropzones, upto)
  }

  lemma FilledMembers(filled: set<nat>, areas: set<nat>, dropzones: map<nat, string>, upto: nat)
    ensures forall j :: j in FilledSet(filled, areas, dropzones, upto) <==> FilledAfter(j, filled, areas, dropzones, upto)
  {
  }

  /** Visiting area `i` changes only whether `i` has content. */
  lemma FilledStep(filled: set<nat>, areas: set<nat>, dropzones: map<nat, string>, i: nat)
    requires 1 <= i
    ensures var before := FilledSet(filled, areas, dropzones, i);
      FilledSet(filled, areas, dropzones, i + 1)
        == if i in areas && i in dropzones then (if HasRealContent(dropzones[i]) then before + {i} else before - {i}) else before
  {
  }

  /** Dropzone `j` exists and lies among the dropzones visited below `upto`. */
  predicate Copied(j: nat, dropzones: map<nat, string>, upto: nat)
  {
    1 <= j < upto && j in dropzones
  }

  /** What an area shows after synchronising with dropzone content `c`. */
  function Shown(c: string): (r: string)
    ensures HasRealContent(c) ==> r == c
    ensures !HasRealContent(c) ==> r == []
  {
    if HasRealContent(c) then c else ""
  }
}
