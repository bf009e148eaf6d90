/**
 * The Johnson Matthey header fragment (jm-header/index.js): edit-mode
 * detection and the choice of the navigation it renders. Its item rendering
 * is NavItems.CreateNavItem / NavItems.RenderNavigation, and its dropdown and
 * mobile-menu state is HoverDropdowns.Menus / HoverDropdowns.MobileMenu.
 */
module JmHeader {
  import opened Wrappers
  import opened Text
  import opened NavItems

  /** What `isInEditMode` queries: the body classes `has-edit-mode-menu` and
      `is-edit-mode`, and the presence of `.control-menu`, `.page-editor` and
      `.fragment-entry-processor-editable`. */
  datatype Page = Page(hasEditModeMenu: bool, isEditMode: bool, controlMenu: bool, pageEditor: bool, editableProcessor: bool)

  /** Either body class alone means edit mode; otherwise the control menu is
      needed together with a page editor or an editable processor. */
  predicate IsInEditMode(p: Page)
  {
    p.hasEditModeMenu || p.isEditMode || (p.controlMenu && (p.pageEditor || p.editableProcessor))
  }

  /** Edit mode is monotone in every indicator: adding any one of them can only
      turn edit mode on, never off. */
  lemma EditModeMonotone(p: Page, q: Page)
    requires p.hasEditModeMenu ==> q.hasEditModeMenu
    requires p.isEditMode ==> q.isEditMode
    requires p.controlMenu ==> q.controlMenu
    requires p.pageEditor ==> q.pageEditor
    requires p.editableProcessor ==> q.editableProcessor
    ensures IsInEditMode(p) ==> IsInEditMode(q)
  {
  }

  /** A navigation menu in the API's `items` list. */
  datatype Menu = Menu(navigationMenuItems: ItemList)

  /** The `items` field of the response, which may be absent. */
  datatype MenuListing = NoListing | Listing(menus: seq<Menu>)

  /** What the site navigation request produced: an error (network, non-ok
      status, bad JSON), or a body. */
  datatype SiteMenusResponse = SiteMenusFailed | SiteMenus(items: MenuListing)

  /** `fetchLiferayNavigation`'s choice: the first menu's `navigationMenuItems`
      (or `[]`) when the body lists at least one menu, the sample otherwise. */
  function FetchLiferayNavigation(response: SiteMenusResponse): (r: Loaded)
    ensures r.ApiItems? <==> response.SiteMenus? && response.items.Listing? && |response.items.menus| > 0
    ensures r.ApiItems? ==> r.items == response.items.menus[0].navigationMenuItems.OrEmpty()
  {
    match response
    case SiteMenusFailed => FallbackItems
    case SiteMenus(NoListing) => FallbackItems
    case SiteMenus(Listing(menus)) =>
      if |menus| > 0 then ApiItems(menus[0].navigationMenuItems.OrEmpty()) else FallbackItems
  }

  /** Only the first menu counts: menus after it never change what is rendered. */
  lemma LaterMenusIgnored(first: Menu, rest1: seq<Menu>, rest2: seq<Menu>)
    ensures FetchLiferayNavigation(SiteMenus(Listing([first] + rest1)))
         == FetchLiferayNavigation(SiteMenus(Listing([first] + rest2)))
  {
  }

  /** `initializeHeader` with `initializeNavigation`: edit mode renders the
      sample; live mode fetches only when `window.Liferay.authtoken` is truthy
      (absent when `window.Liferay` is not defined), and renders the sample otherwise. */
  function InitialNavigation(page: Page, authtoken: Option<string>, response: SiteMenusResponse): (r: Loaded)
    ensures r.ApiItems? <==>
      !IsInEditMode(page) && Truthy(authtoken)
      && response.SiteMenus? && response.items.Listing? && |response.items.menus| > 0
    ensures r.ApiItems? ==> r == FetchLiferayNavigation(response)
  {
    if IsInEditMode(page) then FallbackItems
    else if Truthy(authtoken) then FetchLiferayNavigation(response)
    else FallbackItems
  }

  /** In edit mode the sample is rendered whatever the token and the API
      would answer; a page whose only indicator is the control menu (a
      signed-in visitor's live page) is live, and with a token it renders
      what the API returns. */
  lemma EditModeRendersSample(page: Page, authtoken: Option<string>, response: SiteMenusResponse)
    ensures IsInEditMode(page) ==> InitialNavigation(page, authtoken, response) == FallbackItems
    ensures Truthy(authtoken) ==>
      InitialNavigation(Page(false, false, true, false, false), authtoken, response) == FetchLiferayNavigation(response)
  {
  }

  // ---------------------------------------------------------------------------
  // The request URL

  /** The menus URL exactly as written: a single-quoted string, so the
      `${themeDisplay.getScopeGroupId()}` placeholder is sent literally. */
  const MenusUrlAsWritten := "/o/headless-delivery/v1.0/sites/${themeDisplay.getScopeGroupId()}/navigation-menus?nestedFields=navigationMenuItems"

  /** The URL `fetchLiferayNavigation` requests for the site `groupId`, as
      written: the template literal around it adds only the token. */
  function FetchUrlAsWritten(groupId: nat, authToken: string): (r: string)
    ensures StartsWith(r, MenusUrlAsWritten)
    ensures EndsWith(r, "&p_auth=" + authToken)
  {
    var r := MenusUrlAsWritten + "&p_auth=" + authToken;
    assert r[..|MenusUrlAsWritten|] == MenusUrlAsWritten;
    assert r[|r| - |"&p_auth=" + authToken|..] == "&p_auth=" + authToken;
    r
  }

  /** Two different sites request the same URL, so no site can get its own menus. */
  lemma AsWrittenIgnoresSite()
    ensures FetchUrlAsWritten(20121, "t") == FetchUrlAsWritten(20122, "t")
  {
  }

  const SitesPath := "/o/headless-delivery/v1.0/sites/"
  const MenusQuery := "/navigation-menus?nestedFields=navigationMenuItems"

  /** The site-scoped URL the placeholder evidently stands for. */
  function FetchUrl(groupId: nat, authToken: string): (r: string)
    ensures StartsWith(r, SitesPath + NatToString(groupId) + MenusQuery)
    ensures EndsWith(r, "&p_auth=" + authToken)
  {
    var p := SitesPath + NatToString(groupId) + MenusQuery;
    var r := p + "&p_auth=" + authToken;
    assert r[..|p|] == p;
    assert r[|r| - |"&p_auth=" + authToken|..] == "&p_auth=" + authToken;
    r
  }

  /** Two sites request the same URL only when they are the same site. */
  lemma FetchUrlSiteScoped(g1: nat, g2: nat, authToken: string)
    ensures FetchUrl(g1, authToken) == FetchUrl(g2, authToken) <==> g1 == g2
  {
    var n1, n2 := NatToString(g1), NatToString(g2);
    var tail := MenusQuery + "&p_auth=" + authToken;
    assert FetchUrl(g1, authToken) == SitesPath + n1 + tail;
    assert FetchUrl(g2, authToken) == SitesPath + n2 + tail;
    if FetchUrl(g1, authToken) == FetchUrl(g2, authToken) {
      InfixCancel(SitesPath, n1, n2, tail);
      NatToStringInjective(g1, g2);
    }
  }
}
