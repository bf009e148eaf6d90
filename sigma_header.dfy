/**
 * The Sigma Pharmaceuticals header fragment (sigma-header/index.js): site
 * prefixing, the recursive transformation of API navigation items, the
 * numbering of rendered dropdowns, the click/hover dropdown state, the
 * resolution of mega-menu ids for dropzones, the filtering of dropzone content
 * copied into a dropdown, and the logo link. Its menu-loading guard is
 * NavItems.LoadNavigation.
 */
module SigmaHeader {
  import opened Wrappers
  import opened Text
  import opened NavItems

  // ---------------------------------------------------------------------------
  // Edit mode and start-up

  /** What `isInEditMode` queries: the body classes `has-edit-mode-menu` and
      `is-edit-mode`, a page-editor sidebar, and editable elements. */
  datatype Page = Page(hasEditModeMenu: bool, isEditMode: bool, pageEditor: bool, editableElements: bool)

  /** The verdict of `isInEditMode` and the page afterwards: `isInEditMode` also adds
      `has-edit-mode-menu` to the body in edit mode and removes it otherwise. */
  datatype EditCheck = EditCheck(inEditMode: bool, after: Page)

  function IsInEditMode(p: Page): (r: EditCheck)
    ensures r.inEditMode <==> (p.hasEditModeMenu || p.isEditMode) && (p.pageEditor || p.editableElements)
    ensures r.after == p.(hasEditModeMenu := r.inEditMode)
  {
    var inEditMode := (p.hasEditModeMenu || p.isEditMode) && (p.pageEditor || p.editableElements);
    EditCheck(inEditMode, p.(hasEditModeMenu := inEditMode))
  }

  /** The body class `isInEditMode` writes never changes a later verdict: checking
      again gives the same answer and leaves the page as it is. */
  lemma EditModeStable(p: Page)
    ensures IsInEditMode(IsInEditMode(p).after).inEditMode == IsInEditMode(p).inEditMode
    ensures IsInEditMode(IsInEditMode(p).after).after == IsInEditMode(p).after
  {
  }

  /** `initializeHeader`: edit mode renders the sample navigation without asking
      the API; live mode goes through `loadNavigationMenu`. */
  function StartupNavigation(editMode: bool, menuId: ConfigValue, authToken: Option<string>, response: MenuResponse): (r: Loaded)
    ensures r.ApiItems? <==> !editMode && NavigationSource(menuId, authToken).FetchMenu? && response.MenuBody?
    ensures r.ApiItems? ==> r.items == response.navigationMenuItems.OrEmpty()
  {
    if editMode then FallbackItems else LoadNavigation(menuId, authToken, response)
  }

  // ---------------------------------------------------------------------------
  // Site prefix

  /** `url` with a leading `/` ensured. */
  function RootedPath(url: string): (r: string)
    ensures StartsWith(r, "/") && EndsWith(r, url)
    ensures StartsWith(url, "/") ==> r == url
  {
    if StartsWith(url, "/") then url
    else
      assert ("/" + url)[1..] == url;
      "/" + url
  }

  /** `addSitePrefix(url, sitePrefix)`: the url unchanged when the prefix is empty
      or the url starts with `http` or `#`; otherwise the prefix followed by the
      url with a `/` between them when the url lacks one. */
  function AddSitePrefix(url: string, sitePrefix: string): (r: string)
    ensures sitePrefix == [] || StartsWith(url, "http") || StartsWith(url, "#") ==> r == url
    ensures sitePrefix != [] && !StartsWith(url, "http") && !StartsWith(url, "#") ==> r == sitePrefix + RootedPath(url)
  {
    if sitePrefix == [] || StartsWith(url, "http") || StartsWith(url, "#") then url
    else sitePrefix + RootedPath(url)
  }

  /** The prefixed url always ends with the original url, and when the prefix is
      applied it is followed by a `/`. */
  lemma PrefixedShape(url: string, sitePrefix: string)
    ensures EndsWith(AddSitePrefix(url, sitePrefix), url)
    ensures sitePrefix != [] && !StartsWith(url, "http") && !StartsWith(url, "#") ==>
      StartsWith(AddSitePrefix(url, sitePrefix), sitePrefix + "/")
  {
    if sitePrefix != [] && !StartsWith(url, "http") && !StartsWith(url, "#") {
      ConcatShape(sitePrefix, RootedPath(url), url);
    } else {
      assert url[|url| - |url|..] == url;
    }
  }

  lemma ConcatShape(p: string, q: string, url: string)
    requires StartsWith(q, "/") && EndsWith(q, url)
    ensures StartsWith(p + q, p + "/") && EndsWith(p + q, url)
  {
    var r := p + q;
    assert r[..|p| + 1] == p + [q[0]];
    assert r[|r| - |url|..] == q[|q| - |url|..];
  }

  /** A relative url and the same url with a leading `/` get the same prefixed url. */
  lemma PrefixSlashOptional(url: string, sitePrefix: string)
    requires sitePrefix != [] && url != [] && url[0] != '/'
    requires !StartsWith(url, "http") && !StartsWith(url, "#")
    ensures AddSitePrefix("/" + url, sitePrefix) == AddSitePrefix(url, sitePrefix) == sitePrefix + "/" + url
  {
    var q := "/" + url;
    assert q[0] == '/';
  }

  // ---------------------------------------------------------------------------
  // Transforming API items

  /** The internal item: its name, its url, and a `children` field that is
      present only when there are children. */
  datatype NavNode = NavNode(name: string, url: string, children: NodeList)

  datatype NodeList = NoChildren | Children(nodes: seq<NavNode>)

  /** The children `transformAPINavItem` descends into: a non-empty
      `navigationMenuItems`, else a non-empty `children`, else none. */
  function ApiKids(item: Item): (r: seq<Item>)
    ensures forall i :: 0 <= i < |r| ==> r[i] < item
  {
    if item.navigationMenuItems.Present? && |item.navigationMenuItems.items| > 0 then item.navigationMenuItems.items
    else if item.children.Present? && |item.children.items| > 0 then item.children.items
    else []
  }

  /** `transformAPINavItem(item, sitePrefix)`. */
  function TransformAPINavItem(item: Item, sitePrefix: string): (r: NavNode)
    ensures r.name == Or(item.name, Or(item.title, "Unnamed"))
    ensures r.url == AddSitePrefix(Href(item), sitePrefix)
    ensures r.children.NoChildren? <==> ApiKids(item) == []
    ensures r.children.Children? ==> |r.children.nodes| == |ApiKids(item)|
    ensures r.children.Children? ==> forall i :: 0 <= i < |ApiKids(item)| ==>
      r.children.nodes[i] == TransformAPINavItem(ApiKids(item)[i], sitePrefix)
    decreases item
  {
    var kids := ApiKids(item);
    NavNode(Or(item.name, Or(item.title, "Unnamed")), AddSitePrefix(Href(item), sitePrefix),
            if kids == [] then NoChildren
            else Children(seq(|kids|, i requires 0 <= i < |kids| => TransformAPINavItem(kids[i], sitePrefix))))
  }

  /** Sum of a sequence of naturals. */
  function Sum(s: seq<nat>): nat
  {
    if s == [] then 0 else Sum(s[..|s| - 1]) + s[|s| - 1]
  }

  /** Number of items in the tree `transformAPINavItem` walks. */
  function ItemCount(item: Item): nat
    decreases item
  {
    var kids := ApiKids(item);
    1 + Sum(seq(|kids|, i requires 0 <= i < |kids| => ItemCount(kids[i])))
  }

  function NodeKids(n: NavNode): (r: seq<NavNode>)
    ensures forall i :: 0 <= i < |r| ==> r[i] < n
  {
    if n.children.Children? then n.children.nodes else []
  }

  /** Number of nodes in an internal tree. */
  function NodeCount(n: NavNode): nat
    decreases n
  {
    var kids := NodeKids(n);
    1 + Sum(seq(|kids|, i requires 0 <= i < |kids| => NodeCount(kids[i])))
  }

  /** The transformation keeps every item it descends into, once: the trees have
      the same number of nodes. */
  lemma {:induction false} TransformKeepsCount(item: Item, sitePrefix: string)
    ensures NodeCount(TransformAPINavItem(item, sitePrefix)) == ItemCount(item)
    decreases item
  {
    var kids := ApiKids(item);
    var r := TransformAPINavItem(item, sitePrefix);
    var nodes := NodeKids(r);
    assert |nodes| == |kids|;
    forall i | 0 <= i < |kids|
      ensures NodeCount(nodes[i]) == ItemCount(kids[i])
    {
      TransformKeepsCount(kids[i], sitePrefix);
    }
    assert seq(|nodes|, i requires 0 <= i < |nodes| => NodeCount(nodes[i]))
        == seq(|kids|, i requires 0 <= i < |kids| => ItemCount(kids[i]));
  }

  /** Every node has a non-empty name (`'Unnamed'` at worst) and url (`'#'` at
      worst), and a present `children` field is never empty. */
  predicate WellNamed(n: NavNode)
    decreases n
  {
    n.name != [] && n.url != []
    && (n.children.Children? ==> n.children.nodes != [])
    && forall i :: 0 <= i < |NodeKids(n)| ==> WellNamed(NodeKids(n)[i])
  }

  lemma {:induction false} TransformWellNamed(item: Item, sitePrefix: string)
    ensures WellNamed(TransformAPINavItem(item, sitePrefix))
    decreases item
  {
    var kids := ApiKids(item);
    var r := TransformAPINavItem(item, sitePrefix);
    forall i | 0 <= i < |NodeKids(r)|
      ensures WellNamed(NodeKids(r)[i])
    {
      TransformWellNamed(kids[i], sitePrefix);
    }
  }

  /** `renderNavigationFromAPI`: every API item is transformed, in order. */
  function TransformAll(items: seq<Item>, sitePrefix: string): (r: seq<NavNode>)
    ensures |r| == |items|
    ensures forall k :: 0 <= k < |items| ==> r[k] == TransformAPINavItem(items[k], sitePrefix)
  {
    seq(|items|, k requires 0 <= k < |items| => TransformAPINavItem(items[k], sitePrefix))
  }

  // ---------------------------------------------------------------------------
  // Rendering with dropdown numbers

  predicate HasDropdown(n: NavNode)
  {
    n.children.Children? && |n.children.nodes| > 0
  }

  function NodeFlags(navItems: seq<NavNode>): (f: seq<bool>)
    ensures |f| == |navItems|
    ensures forall k :: 0 <= k < |navItems| ==> (f[k] <==> HasDropdown(navItems[k]))
  {
    seq(|navItems|, k requires 0 <= k < |navItems| => HasDropdown(navItems[k]))
  }

  /** `createNavItem(item, index, dropdownIndex)`: the link, `has-dropdown` and
      `data-mega-menu-id` only when there are children, and one dropdown link per child. */
  function CreateNavItem(n: NavNode, dropdownIndex: nat): (e: NavEntry)
    ensures e.link == Anchor(n.url, n.name, false) && !e.popup
    ensures e.hasDropdown <==> HasDropdown(n)
    ensures e.megaIndex == if HasDropdown(n) then dropdownIndex else 0
    ensures |e.dropdown| == |NodeKids(n)| || !HasDropdown(n)
    ensures !HasDropdown(n) ==> e.dropdown == []
    ensures HasDropdown(n) ==> forall i :: 0 <= i < |e.dropdown| ==>
      e.dropdown[i] == Anchor(NodeKids(n)[i].url, NodeKids(n)[i].name, false)
  {
    var has := HasDropdown(n);
    var kids := if has then n.children.nodes else [];
    NavEntry(Anchor(n.url, n.name, false), has, false, if has then dropdownIndex else 0,
             seq(|kids|, i requires 0 <= i < |kids| => Anchor(kids[i].url, kids[i].name, false)))
  }

  /** `renderNavigation(navItems)`: `dropdownIndex` starts at 0 and is
      pre-incremented for each item with children, so those items are numbered
      1, 2, 3, ... in order and the others get 0. */
  method RenderNavigation(navItems: seq<NavNode>) returns (entries: seq<NavEntry>)
    ensures |entries| == |navItems|
    ensures forall k :: 0 <= k < |navItems| ==>
      entries[k] == CreateNavItem(navItems[k], Numbering(NodeFlags(navItems))[k])
    ensures forall k :: 0 <= k < |navItems| ==> entries[k].megaIndex == Numbering(NodeFlags(navItems))[k]
  {
    var flags := NodeFlags(navItems);
    var dropdownIndex := 0;
    entries := [];
    for i := 0 to |navItems|
      invariant |entries| == i
      invariant dropdownIndex == CountTrue(flags[..i])
      invariant NumberedUpTo(navItems, entries, i)
    {
      NumberStep(navItems, i, dropdownIndex);
      var current := 0;
      if HasDropdown(navItems[i]) {
        dropdownIndex := dropdownIndex + 1;
        current := dropdownIndex;
      }
      EntriesExtend(navItems, entries, i, current);
      entries := entries + [CreateNavItem(navItems[i], current)];
    }
    EntriesMegaIndex(navItems, entries);
  }

  /** Each entry rendered with its running number. */
  ghost predicate NumberedUpTo(navItems: seq<NavNode>, entries: seq<NavEntry>, i: nat)
    requires i <= |navItems| && |entries| == i
  {
    forall k :: 0 <= k < i ==> entries[k] == CreateNavItem(navItems[k], Numbering(NodeFlags(navItems))[k])
  }

  lemma EntriesExtend(navItems: seq<NavNode>, entries: seq<NavEntry>, i: nat, current: nat)
    requires i < |navItems| && |entries| == i && NumberedUpTo(navItems, entries, i)
    requires current == Numbering(NodeFlags(navItems))[i]
    ensures NumberedUpTo(navItems, entries + [CreateNavItem(navItems[i], current)], i + 1)
  {
    var t := entries + [CreateNavItem(navItems[i], current)];
    var numbers := Numbering(NodeFlags(navItems));
    forall k | 0 <= k < i + 1 ensures t[k] == CreateNavItem(navItems[k], numbers[k]) {
      if k < i {
        assert t[k] == entries[k];
      }
    }
  }

  lemma EntriesMegaIndex(navItems: seq<NavNode>, entries: seq<NavEntry>)
    requires |entries| == |navItems| && NumberedUpTo(navItems, entries, |navItems|)
    ensures forall k :: 0 <= k < |navItems| ==>
      entries[k] == CreateNavItem(navItems[k], Numbering(NodeFlags(navItems))[k])
    ensures forall k :: 0 <= k < |navItems| ==> entries[k].megaIndex == Numbering(NodeFlags(navItems))[k]
  {
    forall k | 0 <= k < |navItems| ensures entries[k].megaIndex == Numbering(NodeFlags(navItems))[k] {
      NumberingAt(NodeFlags(navItems), k);
    }
  }

  /** One step of the numbering: with the counter at the number of dropdowns
      before item `i`, the pre-incremented counter is item `i`'s number. */
  lemma NumberStep(navItems: seq<NavNode>, i: nat, index: nat)
    requires i < |navItems| && index == CountTrue(NodeFlags(navItems)[..i])
    ensures var flags := NodeFlags(navItems);
      && Numbering(flags)[i] == (if HasDropdown(navItems[i]) then index + 1 else 0)
      && CountTrue(flags[..i + 1]) == index + (if HasDropdown(navItems[i]) then 1 else 0)
  {
    CountStep(NodeFlags(navItems), i);
    NumberingAt(NodeFlags(navItems), i);
  }

  // ---------------------------------------------------------------------------
  // Dropdown state

  /** Nav items are numbered 0 .. count-1. An item's `show` class and that of its
      dropdown menu are modelled as sets of item numbers. */
  class Dropdowns {
    const count: nat
    var itemShown: set<nat>
    var menuShown: set<nat>

    /** Item and menu agree, and at most one item is open. */
    ghost predicate Valid()
      reads this
    {
      itemShown == menuShown && |itemShown| <= 1 && forall m | m in itemShown :: m < count
    }

    constructor (count: nat)
      ensures Valid() && this.count == count && itemShown == {}
    {
      this.count := count;
      itemShown, menuShown := {}, {};
    }

    /** Closes one item and its menu. */
    method Close(m: nat)
      requires Valid()
      modifies this
      ensures Valid() && itemShown == old(itemShown) - {m}
    {
      itemShown, menuShown := itemShown - {m}, menuShown - {m};
    }

    /** `closeAllDropdowns`: closes every open item. */
    method CloseAll()
      requires Valid()
      modifies this
      ensures Valid() && itemShown == {}
    {
      var open: set<nat> := itemShown;
      while open != {}
        invariant Valid() && itemShown <= open
        decreases |open|
      {
        var o: nat :| o in open;
        Close(o);
        open := open - {o};
      }
    }

    /** mouseenter on item `m`: closes every other open item, then opens `m`. */
    method MouseEnter(m: nat)
      requires Valid() && m < count
      modifies this
      ensures Valid() && itemShown == {m}
    {
      var others: set<nat> := itemShown;
      while others != {}
        invariant Valid() && itemShown <= others + {m}
        decreases |others|
      {
        var o: nat :| o in others;
        if o != m {
          Close(o);
        }
        others := others - {o};
      }
      itemShown, menuShown := itemShown + {m}, menuShown + {m};
    }

    /** mouseleave on item `m`. */
    method MouseLeave(m: nat)
      requires Valid()
      modifies this
      ensures Valid() && itemShown == old(itemShown) - {m}
    {
      Close(m);
    }

    /** `toggleDropdown`: closes all, then opens `m` iff it was closed. */
    method Toggle(m: nat)
      requires Valid() && m < count
      modifies this
      ensures Valid()
      ensures m in old(itemShown) ==> itemShown == {}
      ensures m !in old(itemShown) ==> itemShown == {m}
    {
      var isOpen := m in itemShown;
      CloseAll();
      if !isOpen {
        itemShown, menuShown := itemShown + {m}, menuShown + {m};
      }
    }

    /** The document click handler: any click not on an item with a dropdown
        (inside or outside the fragment) closes them all. */
    method ClickDocument(onDropdownItem: bool)
      requires Valid()
      modifies this
      ensures Valid()
      ensures !onDropdownItem ==> itemShown == {}
      ensures onDropdownItem ==> itemShown == old(itemShown)
    {
      if !onDropdownItem {
        CloseAll();
      }
    }
  }

  // ---------------------------------------------------------------------------
  // Mega-menu ids of the dropzones

  const MegaLabel := "Mega Menu "

  /** `labelText.match(/Mega Menu (\d+)/)`: the digits captured by the leftmost
      match, if there is one. */
  function MegaMenuNumber(s: string): (r: Option<string>)
    ensures r.Some? ==> r.value != [] && forall k :: 0 <= k < |r.value| ==> IsDigitChar(r.value[k])
    decreases |s|
  {
    if StartsWith(s, MegaLabel) && |s| > |MegaLabel| && IsDigitChar(s[|MegaLabel|]) then Some(DigitRun(s[|MegaLabel|..]))
    else if s == [] then None
    else MegaMenuNumber(s[1..])
  }

  /** A label `Mega Menu n` yields `n`. */
  lemma LabelNumber(n: nat)
    ensures MegaMenuNumber(MegaLabel + NatToString(n)) == Some(NatToString(n))
  {
    var d := NatToString(n);
    var s := MegaLabel + d;
    assert s[..|MegaLabel|] == MegaLabel;
    assert s[|MegaLabel|..] == d + [];
    DigitRunOfDigits(d, []);
  }

  /** The id a dropzone is copied to: its `data-mega-key` when truthy; else the
      number in its trimmed label; else its position plus one. */
  function MegaMenuId(megaKey: Option<string>, labelText: Option<string>, index: nat): (r: string)
    ensures Truthy(megaKey) ==> r == megaKey.value
    ensures !Truthy(megaKey) && labelText.Some? && MegaMenuNumber(Trim(labelText.value)).Some? ==>
      r == MegaMenuNumber(Trim(labelText.value)).value
    ensures !Truthy(megaKey) && (labelText.None? || MegaMenuNumber(Trim(labelText.value)).None?) ==> r == NatToString(index + 1)
  {
    if Truthy(megaKey) then megaKey.value
    else match labelText
      case Some(text) =>
        (match MegaMenuNumber(Trim(text))
         case Some(d) => d
         case None => NatToString(index + 1))
      case None => NatToString(index + 1)
  }

  /** A dropzone labelled `Mega Menu n` without a key resolves to `n`. */
  lemma LabelledDropzoneId(n: nat, index: nat)
    ensures MegaMenuId(None, Some(MegaLabel + NatToString(n)), index) == NatToString(n)
  {
    var s := MegaLabel + NatToString(n);
    assert s[0] == 'M';
    assert s[|s| - 1] == NatToString(n)[|NatToString(n)| - 1];
    NoEdgeWhitespaceTrimmed(s);
    LabelNumber(n);
  }

  /** The id the mutation observer uses: as `MegaMenuId`, but with no positional
      fallback, so an unlabelled, unkeyed dropzone is not copied. */
  function ObservedMegaMenuId(megaKey: Option<string>, labelText: Option<string>): (r: Option<string>)
    ensures Truthy(megaKey) ==> r == Some(megaKey.value)
    ensures r.None? <==> !Truthy(megaKey) && (labelText.None? || MegaMenuNumber(Trim(labelText.value)).None?)
  {
    if Truthy(megaKey) then Some(megaKey.value)
    else if labelText.Some? then MegaMenuNumber(Trim(labelText.value))
    else None
  }

  /** Whenever the observer finds an id, it is the one the initial copy uses. */
  lemma ObservedAgrees(megaKey: Option<string>, labelText: Option<string>, index: nat)
    requires ObservedMegaMenuId(megaKey, labelText).Some?
    ensures ObservedMegaMenuId(megaKey, labelText).value == MegaMenuId(megaKey, labelText, index)
  {
  }

  /** `querySelector('[data-mega-menu-id="id"]')` over the rendered items: the
      first item whose (non-zero) dropdown number renders as `menuId`. */
  function FindItem(ids: seq<nat>, menuId: string): (r: Option<nat>)
    ensures r.Some? ==> r.value < |ids| && ids[r.value] != 0 && NatToString(ids[r.value]) == menuId
    ensures r.Some? ==> forall j :: 0 <= j < r.value ==> !(ids[j] != 0 && NatToString(ids[j]) == menuId)
    ensures r.None? ==> forall j :: 0 <= j < |ids| ==> !(ids[j] != 0 && NatToString(ids[j]) == menuId)
  {
    if ids == [] then None
    else
      var front := FindItem(ids[..|ids| - 1], menuId);
      var last := |ids| - 1;
      if front.Some? then front
      else if ids[last] != 0 && NatToString(ids[last]) == menuId then Some(last)
      else None
  }

  /** Each dropdown number n in 1 .. (number of dropdowns) resolves to the item
      rendered with number n. */
  lemma DropdownNumbersResolve(flags: seq<bool>, n: nat)
    requires 1 <= n <= CountTrue(flags)
    ensures FindItem(Numbering(flags), NatToString(n)).Some?
    ensures Numbering(flags)[FindItem(Numbering(flags), NatToString(n)).value] == n
  {
    var ids := Numbering(flags);
    NumberingOnto(flags, n);
    var k :| 0 <= k < |flags| && flags[k] && ids[k] == n;
    var r := FindItem(ids, NatToString(n));
    if r.Some? {
      NatToStringInjective(ids[r.value], n);
    }
  }

  // ---------------------------------------------------------------------------
  // Dropzone content copied into a dropdown

  /** A child of the dropzone: its text, whether it is a portlet boundary, and the
      text of its `.portlet-content` if it has one. */
  datatype DropChild = DropChild(text: string, isPortlet: bool, portletContent: Option<string>)

  /** The filter in `copyDropzoneContentToMenu`: not blank (`trim().length === 0`
      fails, see Text.TrimEmptyIff), no "Drop content here" placeholder, and a
      portlet only with non-blank portlet content. */
  predicate Keep(c: DropChild)
  {
    !AllWhitespace(c.text)
    && !Contains(Trim(c.text), "Drop content here")
    && (c.isPortlet ==> c.portletContent.Some? && !AllWhitespace(c.portletContent.value))
  }

  /** `Array.from(children).filter(...)`: the kept children in their order. */
  function ContentChildren(cs: seq<DropChild>): (r: seq<DropChild>)
    ensures |r| <= |cs|
    ensures forall i :: 0 <= i < |r| ==> Keep(r[i]) && r[i] in cs
    ensures forall c :: c in cs && Keep(c) ==> c in r
  {
    if cs == [] then []
    else
      var front := ContentChildren(cs[..|cs| - 1]);
      var c := cs[|cs| - 1];
      assert cs == cs[..|cs| - 1] + [c];
      if Keep(c) then front + [c] else front
  }

  /** The filter keeps each kept child as often as the dropzone holds it, and
      drops every other child entirely. */
  lemma {:induction false} ContentChildrenCount(cs: seq<DropChild>, c: DropChild)
    ensures multiset(ContentChildren(cs))[c] == if Keep(c) then multiset(cs)[c] else 0
  {
    if cs != [] {
      var front, last := cs[..|cs| - 1], cs[|cs| - 1];
      assert cs == front + [last];
      ContentChildrenCount(front, c);
    }
  }

  /** Filtering one more child appends it when it is kept. */
  lemma ContentChildrenSnoc(cs: seq<DropChild>, c: DropChild)
    ensures ContentChildren(cs + [c]) == ContentChildren(cs) + if Keep(c) then [c] else []
  {
    var l := cs + [c];
    assert l[..|l| - 1] == cs && l[|l| - 1] == c;
  }

  /** The filter keeps document order: filtering two runs of children one after
      the other is filtering their concatenation. */
  lemma {:induction false} ContentChildrenAppend(a: seq<DropChild>, b: seq<DropChild>)
    ensures ContentChildren(a + b) == ContentChildren(a) + ContentChildren(b)
    decreases |b|
  {
    if b == [] {
      assert a + b == a;
    } else {
      var front, last := b[..|b| - 1], b[|b| - 1];
      assert b == front + [last];
      assert a + b == (a + front) + [last];
      ContentChildrenAppend(a, front);
      ContentChildrenSnoc(a + front, last);
      ContentChildrenSnoc(front, last);
    }
  }

  /** A single child is kept alone or dropped. */
  lemma ContentChildrenSingle(c: DropChild)
    ensures ContentChildren([c]) == if Keep(c) then [c] else []
  {
    assert [c][..0] == [];
  }

  /** A `.sigma-mega-dropzone`: its `data-mega-key`, the text of its label (if it
      has one), and the children of its `lfr-drop-zone` (if it has one). */
  datatype Dropzone = Dropzone(megaKey: Option<string>, labelText: Option<string>, zone: Option<seq<DropChild>>)

  /** One copy step on the mega content of the rendered items (item number to the
      children of its `.sigma-mega-menu-content`): nothing changes when no item
      carries the id or the dropzone has no `lfr-drop-zone`; otherwise the item's
      old container is dropped and a new one holds the kept children, if any. */
  function CopyStep(mega: map<nat, seq<DropChild>>, ids: seq<nat>, menuId: string, zone: Option<seq<DropChild>>): map<nat, seq<DropChild>>
  {
    match FindItem(ids, menuId)
    case None => mega
    case Some(k) =>
      if zone.None? then mega
      else if ContentChildren(zone.value) == [] then mega - {k}
      else mega[k := ContentChildren(zone.value)]
  }

  /** The copy steps of the first |zones| dropzones, in document order. */
  function CopyAll(mega: map<nat, seq<DropChild>>, ids: seq<nat>, zones: seq<Dropzone>): map<nat, seq<DropChild>>
  {
    if zones == [] then mega
    else
      var n := |zones| - 1;
      CopyStep(CopyAll(mega, ids, zones[..n]), ids, MegaMenuId(zones[n].megaKey, zones[n].labelText, n), zones[n].zone)
  }

  /** A copy step touches at most the item the id resolves to. */
  lemma CopyStepFrame(mega: map<nat, seq<DropChild>>, ids: seq<nat>, menuId: string, zone: Option<seq<DropChild>>, j: nat)
    requires FindItem(ids, menuId) != Some(j)
    ensures j in CopyStep(mega, ids, menuId, zone) <==> j in mega
    ensures j in mega ==> CopyStep(mega, ids, menuId, zone)[j] == mega[j]
  {
  }

  /** A dropzone labelled `Mega Menu n` (without a key) whose drop zone has
      content fills the dropdown of the n-th item with a dropdown, for every n up
      to the number of dropdowns, and gives `has-mega-content` to no other item. */
  lemma LabelledZoneLands(mega: map<nat, seq<DropChild>>, flags: seq<bool>, n: nat, index: nat, cs: seq<DropChild>)
    requires 1 <= n <= CountTrue(flags)
    requires ContentChildren(cs) != []
    ensures FindItem(Numbering(flags), NatToString(n)).Some?
    ensures var k := FindItem(Numbering(flags), NatToString(n)).value;
      var after := CopyStep(mega, Numbering(flags), MegaMenuId(None, Some(MegaLabel + NatToString(n)), index), Some(cs));
      Numbering(flags)[k] == n && after == mega[k := ContentChildren(cs)]
  {
    var ids := Numbering(flags);
    LabelledDropzoneId(n, index);
    DropdownNumbersResolve(flags, n);
    CopyStepResolved(mega, ids, NatToString(n), cs);
  }

  /** A copy step whose id resolves and whose drop zone has content puts the
      kept children into that item. */
  lemma CopyStepResolved(mega: map<nat, seq<DropChild>>, ids: seq<nat>, menuId: string, cs: seq<DropChild>)
    requires FindItem(ids, menuId).Some? && ContentChildren(cs) != []
    ensures CopyStep(mega, ids, menuId, Some(cs)) == mega[FindItem(ids, menuId).value := ContentChildren(cs)]
  {
  }

  /** The mega content of every rendered item. An item's dropdown carries
      `has-mega-content` exactly when it holds a container, since both are only
      changed together. */
  class MegaContent {
    var mega: map<nat, seq<DropChild>>

    /** A container is only ever created with at least one child. */
    ghost predicate Valid()
      reads this
    {
      forall k | k in mega :: mega[k] != []
    }

    constructor ()
      ensures Valid() && mega == map[]
    {
      mega := map[];
    }

    /** `copyDropzoneContentToMenu(menuId, dropzone)` over the items numbered `ids`. */
    method CopyDropzoneContentToMenu(ids: seq<nat>, menuId: string, zone: Option<seq<DropChild>>)
      requires Valid()
      modifies this
      ensures Valid() && mega == CopyStep(old(mega), ids, menuId, zone)
    {
      var navItem := FindItem(ids, menuId);
      if navItem.None? {
        return;
      }
      if zone.None? {
        return;
      }
      var k := navItem.value;
      mega := mega - {k};
      var contentChildren := ContentChildren(zone.value);
      if |contentChildren| > 0 {
        mega := mega[k := contentChildren];
      }
    }

    /** `initializeMegaMenuContent`: each dropzone in turn, with the id its key,
        its label or its position gives. */
    method InitializeMegaMenuContent(ids: seq<nat>, zones: seq<Dropzone>)
      requires Valid()
      modifies this
      ensures Valid() && mega == CopyAll(old(mega), ids, zones)
    {
      for i := 0 to |zones|
        invariant Valid() && mega == CopyAll(old(mega), ids, zones[..i])
      {
        var menuId := MegaMenuId(zones[i].megaKey, zones[i].labelText, i);
        CopyDropzoneContentToMenu(ids, menuId, zones[i].zone);
        assert zones[..i + 1][..i] == zones[..i];
      }
      assert zones[..|zones|] == zones;
    }
  }

  // ---------------------------------------------------------------------------
  // Logo

  /** `initializeLogoLink`: the logo points to `sitePrefix + '/'` when a prefix is
      configured and keeps its current href otherwise; with a prefix this is the
      prefixed site root, as `addSitePrefix('/')` would give. */
  function LogoHref(sitePrefix: string, current: string): (r: string)
    ensures sitePrefix == [] ==> r == current
    ensures sitePrefix != [] ==> r == AddSitePrefix("/", sitePrefix)
  {
    if sitePrefix != [] then
      assert "/"[0] != "#"[0];
      sitePrefix + "/"
    else current
  }
}
