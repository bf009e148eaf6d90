/**
 * Navigation items as the header fragments receive them (from Liferay's
 * headless-delivery navigation-menu API or from a built-in sample list), the
 * JavaScript `||` choices made on their fields, the plain `createNavItem`
 * rendering shared by jm-header/index.js, jm-header/main.js and
 * ybs-header/index.js, the menu-loading guard shared by ybs-header and
 * sigma-header, and the running dropdown numbering used by ybs-header and
 * sigma-header.
 */
module NavItems {
  import opened Wrappers
  import opened Text

  /** One navigation item; every field may be absent in the JSON. */
  datatype Item = Item(
    name: Option<string>,
    title: Option<string>,
    link: Option<string>,
    url: Option<string>,
    external: bool,
    navigationMenuItems: ItemList,
    children: ItemList)

  /** A JSON array of items that may be absent. */
  datatype ItemList = Absent | Present(items: seq<Item>)
  {
    /** The items, or none when absent. */
    function OrEmpty(): seq<Item>
    {
      if Present? then items else []
    }
  }

  /** `item.link || item.url || '#'`: the first truthy of link and url, else `#`. */
  function Href(item: Item): (r: string)
    ensures r != []
    ensures Truthy(item.link) ==> r == item.link.value
    ensures !Truthy(item.link) && Truthy(item.url) ==> r == item.url.value
    ensures !Truthy(item.link) && !Truthy(item.url) ==> r == "#"
  {
    Or(item.link, Or(item.url, "#"))
  }

  /** The text `item.name || item.title` puts into an anchor; an undefined value
      renders as no text. */
  function Label(item: Item): (r: string)
    ensures Truthy(item.name) ==> r == item.name.value
    ensures !Truthy(item.name) ==> r == item.title.GetOr([])
  {
    Or(item.name, item.title.GetOr([]))
  }

  /** `item.navigationMenuItems && item.navigationMenuItems.length > 0`. */
  predicate HasMenuChildren(item: Item)
  {
    item.navigationMenuItems.Present? && |item.navigationMenuItems.items| > 0
  }

  /** An anchor: its href, its text, and whether it opens in a new tab. */
  datatype Anchor = Anchor(href: string, text: string, newTab: bool)

  /** A rendered `<li>`: its link; whether it carries `has-dropdown`; whether its
      link carries `aria-expanded="false"`, `aria-haspopup="true"` and the arrow;
      its mega index (0 when it has none); and the links of its dropdown. */
  datatype NavEntry = NavEntry(link: Anchor, hasDropdown: bool, popup: bool, megaIndex: nat, dropdown: seq<Anchor>)

  function PlainAnchor(item: Item): Anchor
  {
    Anchor(Href(item), Label(item), false)
  }

  /** `createNavItem(item, isMobile)` of jm-header and of ybs-header's edit-mode
      rendering. Only `navigationMenuItems` counts as children here. */
  function CreateNavItem(item: Item, isMobile: bool): (e: NavEntry)
    ensures e.link == PlainAnchor(item) && e.megaIndex == 0
    ensures e.hasDropdown <==> HasMenuChildren(item)
    ensures e.popup <==> HasMenuChildren(item) && !isMobile
    ensures e.dropdown != [] <==> e.hasDropdown
    ensures e.hasDropdown ==> |e.dropdown| == |item.navigationMenuItems.items|
    ensures e.hasDropdown ==> forall k :: 0 <= k < |e.dropdown| ==> e.dropdown[k] == PlainAnchor(item.navigationMenuItems.items[k])
  {
    var has := HasMenuChildren(item);
    var kids := if has then item.navigationMenuItems.items else [];
    NavEntry(PlainAnchor(item), has, has && !isMobile, 0, seq(|kids|, k requires 0 <= k < |kids| => PlainAnchor(kids[k])))
  }

  /** `renderNavigation(items)` of jm-header: one desktop and one mobile entry per
      item, in order. */
  method RenderNavigation(items: seq<Item>) returns (desktop: seq<NavEntry>, mobile: seq<NavEntry>)
    ensures |desktop| == |items| && |mobile| == |items|
    ensures forall k :: 0 <= k < |items| ==> desktop[k] == CreateNavItem(items[k], false)
    ensures forall k :: 0 <= k < |items| ==> mobile[k] == CreateNavItem(items[k], true)
    ensures forall k :: 0 <= k < |items| ==> !mobile[k].popup && mobile[k].dropdown == desktop[k].dropdown
  {
    desktop, mobile := [], [];
    for i := 0 to |items|
      invariant |desktop| == i && |mobile| == i
      invariant forall k :: 0 <= k < i ==> desktop[k] == CreateNavItem(items[k], false)
      invariant forall k :: 0 <= k < i ==> mobile[k] == CreateNavItem(items[k], true)
    {
      desktop := desktop + [CreateNavItem(items[i], false)];
      mobile := mobile + [CreateNavItem(items[i], true)];
    }
  }

  // ---------------------------------------------------------------------------
  // Loading the menu (ybs-header and sigma-header share this code)

  /** A fragment configuration value: absent, a string, or some other JSON value. */
  datatype ConfigValue = Missing | Str(s: string) | NonString

  const NavigationMenusPath := "/o/headless-delivery/v1.0/navigation-menus/"

  datatype NavSource = FallbackNav | FetchMenu(url: string)

  /** The `loadNavigationMenu` guard: the API is asked only for a menu id that is a
      non-empty string other than `primary-menu` and `undefined`, and only when
      `Liferay.authToken` is truthy (absent when `Liferay` itself is undefined). */
  function NavigationSource(menuId: ConfigValue, authToken: Option<string>): (r: NavSource)
    ensures r.FetchMenu? <==> menuId.Str? && menuId.s !in {"", "primary-menu", "undefined"} && Truthy(authToken)
    ensures r.FetchMenu? ==> StartsWith(r.url, NavigationMenusPath + menuId.s + "?nestedFields=true&p_auth=")
    ensures r.FetchMenu? ==> EndsWith(r.url, authToken.value)
  {
    if !menuId.Str? || menuId.s in {"", "primary-menu", "undefined"} then FallbackNav
    else if !Truthy(authToken) then FallbackNav
    else
      var prefix := NavigationMenusPath + menuId.s + "?nestedFields=true&p_auth=";
      var url := prefix + authToken.value;
      assert url[..|prefix|] == prefix;
      assert url[|url| - |authToken.value|..] == authToken.value;
      FetchMenu(url)
  }

  /** What the fetch produced: an error (network, non-ok status, bad JSON), or a
      body whose `navigationMenuItems` may be absent. */
  datatype MenuResponse = RequestFailed | MenuBody(navigationMenuItems: ItemList)

  datatype Loaded = FallbackItems | ApiItems(items: seq<Item>)

  /** The items the header renders: API items iff the guard let the fetch go out
      and it succeeded (`data.navigationMenuItems || []`), the fallback otherwise. */
  function LoadNavigation(menuId: ConfigValue, authToken: Option<string>, response: MenuResponse): (r: Loaded)
    ensures r.ApiItems? <==> NavigationSource(menuId, authToken).FetchMenu? && response.MenuBody?
    ensures r.ApiItems? ==> r.items == response.navigationMenuItems.OrEmpty()
  {
    match NavigationSource(menuId, authToken)
    case FallbackNav => FallbackItems
    case FetchMenu(_) =>
      match response
      case RequestFailed => FallbackItems
      case MenuBody(items) => ApiItems(items.OrEmpty())
  }

  /** The default configuration (`primary-menu`) never fetches, whatever the token. */
  lemma DefaultMenuIdFallsBack(authToken: Option<string>, response: MenuResponse)
    ensures LoadNavigation(Str("primary-menu"), authToken, response) == FallbackItems
  {
  }

  /** When the guard blocks the fetch, the response cannot matter. */
  lemma GuardedResponseIrrelevant(menuId: ConfigValue, authToken: Option<string>, r1: MenuResponse, r2: MenuResponse)
    requires NavigationSource(menuId, authToken) == FallbackNav
    ensures LoadNavigation(menuId, authToken, r1) == LoadNavigation(menuId, authToken, r2) == FallbackItems
  {
  }

  // ---------------------------------------------------------------------------
  // Running numbering of the items that have a dropdown

  /** Number of `true` entries. */
  function CountTrue(flags: seq<bool>): (n: nat)
    ensures n <= |flags|
  {
    if flags == [] then 0
    else CountTrue(flags[..|flags| - 1]) + (if flags[|flags| - 1] then 1 else 0)
  }

  /** A counter that starts at 1 and is consumed by each flagged item: the k-th
      item gets the counter's value when flagged, 0 otherwise. */
  function Numbering(flags: seq<bool>): seq<nat>
  {
    seq(|flags|, k requires 0 <= k < |flags| => if flags[k] then 1 + CountTrue(flags[..k]) else 0)
  }

  lemma CountStep(flags: seq<bool>, k: nat)
    requires k < |flags|
    ensures CountTrue(flags[..k + 1]) == CountTrue(flags[..k]) + (if flags[k] then 1 else 0)
  {
    assert flags[..k + 1][..k] == flags[..k];
  }

  lemma {:induction false} CountMonotone(flags: seq<bool>, i: nat, j: nat)
    requires i <= j <= |flags|
    ensures CountTrue(flags[..i]) <= CountTrue(flags[..j])
    decreases j - i
  {
    if i < j {
      CountStep(flags, i);
      CountMonotone(flags, i + 1, j);
    }
  }

  /** Flagged items get positive numbers no larger than the number of flagged
      items, unflagged ones get 0, and the numbers strictly increase along the list. */
  lemma NumberingIncreasing(flags: seq<bool>, j: nat, k: nat)
    requires j < k < |flags| && flags[j] && flags[k]
    ensures 0 < Numbering(flags)[j] < Numbering(flags)[k] <= CountTrue(flags)
  {
    NumberingAt(flags, j);
    NumberingAt(flags, k);
    CountStrict(flags, j, k);
    CountStrict(flags, k, |flags|);
    assert flags[..|flags|] == flags;
  }

  lemma NumberingAt(flags: seq<bool>, k: nat)
    requires k < |flags|
    ensures Numbering(flags)[k] == if flags[k] then 1 + CountTrue(flags[..k]) else 0
  {
  }

  /** A flagged item at `j` counts among the items before any later `k`. */
  lemma CountStrict(flags: seq<bool>, j: nat, k: nat)
    requires j < k <= |flags| && flags[j]
    ensures CountTrue(flags[..j]) < CountTrue(flags[..k])
  {
    CountStep(flags, j);
    CountMonotone(flags, j + 1, k);
  }

  lemma NumberingZeroIff(flags: seq<bool>, k: nat)
    requires k < |flags|
    ensures Numbering(flags)[k] == 0 <==> !flags[k]
  {
  }

  /** Every number 1 .. CountTrue(flags) is given to some flagged item: the
      numbers are exactly 1, 2, 3, ... in order. */
  lemma {:induction false} NumberingOnto(flags: seq<bool>, n: nat)
    requires 1 <= n <= CountTrue(flags)
    ensures exists k :: 0 <= k < |flags| && flags[k] && Numbering(flags)[k] == n
  {
    var g := flags[..|flags| - 1];
    if n <= CountTrue(g) {
      NumberingOnto(g, n);
      var k :| 0 <= k < |g| && g[k] && Numbering(g)[k] == n;
      assert flags[..k] == g[..k];
      assert flags[k] && Numbering(flags)[k] == n;
    } else {
      assert flags[..|flags| - 1] == g;
      assert flags[|flags| - 1] && Numbering(flags)[|flags| - 1] == n;
    }
  }
}
