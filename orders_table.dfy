/**
 * The orders table fragment: an order history with a text search, a
 * sortable column header, and pagination with a window of at most five
 * page buttons. The closure state of the fragment is a class; filtering,
 * sorting and the page arithmetic are functions of that state.
 */
module OrdersTable {
  import opened Wrappers
  import opened Text

  datatype Product = Product(name: string, sku: string, quantity: int)
  /** `total` is a price; it is only compared, never computed with. */
  datatype Order = Order(orderDate: string, products: seq<Product>, quantity: int, total: real, status: string)

  datatype Direction = Asc | Desc

  const DefaultDataset := "hospital-orders"
  const DefaultRowsPerPage := 10
  const MaxVisiblePages := 5

  function Min(a: int, b: int): int { if a < b then a else b }
  function Max(a: int, b: int): int { if a < b then b else a }

  // ---------------------------------------------------------------- search

  /** The search predicate on an already lower-cased query: the query
      occurs in the order date, in some product's name or SKU, or in the
      status, each lower-cased. */
  predicate Matches(o: Order, query: string)
  {
    || Contains(ToLower(o.orderDate), query)
    || (exists k :: 0 <= k < |o.products| && ProductMatches(o.products[k], query))
    || Contains(ToLower(o.status), query)
  }

  predicate ProductMatches(p: Product, query: string)
  {
    Contains(ToLower(p.name), query) || Contains(ToLower(p.sku), query)
  }

  /** The search step of `getFilteredData`: an empty query keeps all. */
  function Search(orders: seq<Order>, query: string): seq<Order>
  {
    if query == [] || orders == [] then orders
    else
      var rest := Search(orders[..|orders| - 1], query);
      if Matches(orders[|orders| - 1], query) then rest + [orders[|orders| - 1]] else rest
  }

  /** An order survives a non-empty search exactly when it matches. */
  lemma {:induction false} SearchMembers(orders: seq<Order>, query: string, o: Order)
    requires query != []
    ensures o in Search(orders, query) <==> o in orders && Matches(o, query)
    ensures |Search(orders, query)| <= |orders|
  {
    if orders != [] {
      var init := orders[..|orders| - 1];
      SearchMembers(init, query, o);
      assert orders == init + [orders[|orders| - 1]];
    }
  }

  /** A non-empty search keeps each matching order as often as the input
      holds it, and drops every other. */
  lemma {:induction false} SearchCount(orders: seq<Order>, query: string, o: Order)
    requires query != []
    ensures multiset(Search(orders, query))[o] == if Matches(o, query) then multiset(orders)[o] else 0
  {
    if orders != [] {
      var init := orders[..|orders| - 1];
      SearchCount(init, query, o);
      assert orders == init + [orders[|orders| - 1]];
    }
  }

  /** Every string contains the empty string, so the query `""` would keep
      every order even without the short cut. */
  lemma EmptyQueryMatches(o: Order)
    ensures Matches(o, "")
  {
    assert StartsWith(ToLower(o.orderDate), "");
  }

  // ---------------------------------------------------------------- sort

  /** What the comparator compares: dates parsed from ISO `yyyy-mm-dd`
      text (ordered as that text), numbers, or lower-cased text. */
  datatype SortKey = Text(text: string) | Number(value: real) | Missing

  function Key(o: Order, field: string): SortKey
  {
    if field == "orderDate" then Text(o.orderDate)
    else if field == "total" then Number(o.total)
    else if field == "quantity" then Number(o.quantity as real)
    else if field == "status" then Text(ToLower(o.status))
    else Missing
  }

  /** The code-unit order of JavaScript's `<` on strings. */
  predicate LexLess(a: string, b: string)
    decreases |a|
  {
    if a == [] then b != []
    else if b == [] then false
    else a[0] < b[0] || (a[0] == b[0] && LexLess(a[1..], b[1..]))
  }

  lemma {:induction false} LexIrreflexive(a: string)
    ensures !LexLess(a, a)
    decreases |a|
  {
    if a != [] {
      LexIrreflexive(a[1..]);
    }
  }

  lemma {:induction false} LexTransitive(a: string, b: string, c: string)
    requires LexLess(a, b) && LexLess(b, c)
    ensures LexLess(a, c)
    decreases |a|
  {
    if a != [] && a[0] == b[0] && b[0] == c[0] {
      LexTransitive(a[1..], b[1..], c[1..]);
    }
  }

  lemma {:induction false} LexTotal(a: string, b: string)
    ensures a == b || LexLess(a, b) || LexLess(b, a)
    decreases |a|
  {
    if a != [] && b != [] && a[0] == b[0] {
      LexTotal(a[1..], b[1..]);
      assert a == [a[0]] + a[1..] && b == [b[0]] + b[1..];
    }
  }

  predicate KeyLess(a: SortKey, b: SortKey)
  {
    match (a, b)
    case (Text(x), Text(y)) => LexLess(x, y)
    case (Number(x), Number(y)) => x < y
    case _ => false
  }

  /** `a` goes before `b`: the comparator returns -1. */
  predicate Precedes(a: Order, b: Order, field: string, dir: Direction)
  {
    if dir == Asc then KeyLess(Key(a, field), Key(b, field)) else KeyLess(Key(b, field), Key(a, field))
  }

  lemma LexAsymmetric(x: string, y: string)
    ensures LexLess(x, y) ==> !LexLess(y, x)
  {
    if LexLess(x, y) && LexLess(y, x) {
      LexTransitive(x, y, x);
      LexIrreflexive(x);
    }
  }

  /** "Not less" is transitive, as the order is total. */
  lemma LexNotLessTransitive(x: string, y: string, z: string)
    ensures !LexLess(x, y) && !LexLess(y, z) ==> !LexLess(x, z)
  {
    if !LexLess(x, y) && !LexLess(y, z) && LexLess(x, z) {
      LexTotal(x, y);
      LexTotal(y, z);
      if z != y && y != x {
        LexTransitive(z, y, x);
      }
      if z != x {
        LexTransitive(x, z, x);
      }
      LexIrreflexive(x);
    }
  }

  lemma KeyOrder(a: SortKey, b: SortKey, c: SortKey)
    requires a.Text? == b.Text? == c.Text? && a.Number? == b.Number? == c.Number?
    ensures KeyLess(a, b) ==> !KeyLess(b, a)
    ensures !KeyLess(a, b) && !KeyLess(b, c) ==> !KeyLess(a, c)
  {
    if a.Text? {
      LexAsymmetric(a.text, b.text);
      LexNotLessTransitive(a.text, b.text, c.text);
    }
  }

  /** The comparator is a strict weak order on every field. */
  lemma PrecedesOrder(x: Order, y: Order, z: Order, field: string, dir: Direction)
    ensures Precedes(x, y, field, dir) ==> !Precedes(y, x, field, dir)
    ensures !Precedes(x, y, field, dir) && !Precedes(y, z, field, dir) ==> !Precedes(x, z, field, dir)
  {
    var kx, ky, kz := Key(x, field), Key(y, field), Key(z, field);
    if dir == Asc {
      KeyOrder(kx, ky, kz);
    } else {
      KeyOrder(ky, kx, kz);
      KeyOrder(kz, ky, kx);
    }
  }

  /** No order is ever followed by one that precedes it. */
  ghost predicate Sorted(s: seq<Order>, field: string, dir: Direction)
  {
    forall i, j :: 0 <= i < j < |s| ==> !Precedes(s[j], s[i], field, dir)
  }

  /** Insert `x` behind every element it does not precede. */
  function Insert(x: Order, s: seq<Order>, field: string, dir: Direction): (r: seq<Order>)
    ensures multiset(r) == multiset(s) + multiset{x}
  {
    if s == [] then [x]
    else if Precedes(x, s[|s| - 1], field, dir) then
      assert s == s[..|s| - 1] + [s[|s| - 1]];
      Insert(x, s[..|s| - 1], field, dir) + [s[|s| - 1]]
    else s + [x]
  }

  /** The sort of `getFilteredData`: a stable sort by `field` in direction
      `dir`. */
  function SortOrders(s: seq<Order>, field: string, dir: Direction): (r: seq<Order>)
    ensures multiset(r) == multiset(s)
  {
    if s == [] then []
    else
      assert s == s[..|s| - 1] + [s[|s| - 1]];
      Insert(s[|s| - 1], SortOrders(s[..|s| - 1], field, dir), field, dir)
  }

  /** An order that precedes nothing already placed goes behind all of it. */
  lemma InsertBehind(x: Order, s: seq<Order>, field: string, dir: Direction)
    requires forall i :: 0 <= i < |s| ==> !Precedes(x, s[i], field, dir)
    ensures Insert(x, s, field, dir) == s + [x]
  {
  }

  /** The sort is stable: a sequence already in order, ties included, comes
      back unchanged, so orders that compare equal keep their relative order. */
  lemma {:induction false} SortOrdersStable(s: seq<Order>, field: string, dir: Direction)
    requires Sorted(s, field, dir)
    ensures SortOrders(s, field, dir) == s
  {
    if s != [] {
      var n := |s| - 1;
      var front := s[..n];
      assert s == front + [s[n]];
      SortedFront(front, s[n], field, dir);
      SortOrdersStable(front, field, dir);
      InsertBehind(s[n], front, field, dir);
    }
  }

  /** Dropping the last order of a sorted sequence leaves it sorted, and the
      last order precedes none of the others. */
  lemma SortedFront(front: seq<Order>, y: Order, field: string, dir: Direction)
    requires Sorted(front + [y], field, dir)
    ensures Sorted(front, field, dir)
    ensures forall i :: 0 <= i < |front| ==> !Precedes(y, front[i], field, dir)
  {
    var s := front + [y];
    assert forall i :: 0 <= i < |front| ==> s[i] == front[i];
    assert s[|front|] == y;
  }

  /** Sorting by `products` (or any field without a key) leaves the rows in
      their order, because every pair compares equal. */
  lemma ProductsSortKeepsOrder(s: seq<Order>, dir: Direction)
    ensures SortOrders(s, "products", dir) == s
  {
    SortOrdersStable(s, "products", dir);
  }

  lemma SortedSnoc(s: seq<Order>, y: Order, field: string, dir: Direction)
    requires Sorted(s, field, dir)
    requires forall i :: 0 <= i < |s| ==> !Precedes(y, s[i], field, dir)
    ensures Sorted(s + [y], field, dir)
  {
    var t := s + [y];
    forall i, j | 0 <= i < j < |t| ensures !Precedes(t[j], t[i], field, dir) {
      assert t[i] == s[i];
      if j < |s| { assert t[j] == s[j]; }
    }
  }

  lemma {:induction false} InsertSorted(x: Order, s: seq<Order>, field: string, dir: Direction)
    requires Sorted(s, field, dir)
    ensures Sorted(Insert(x, s, field, dir), field, dir)
    decreases |s|
  {
    if s != [] {
      var init, last := s[..|s| - 1], s[|s| - 1];
      if Precedes(x, last, field, dir) {
        assert Sorted(init, field, dir);
        InsertSorted(x, init, field, dir);
        var front := Insert(x, init, field, dir);
        forall i | 0 <= i < |front| ensures !Precedes(last, front[i], field, dir) {
          assert front[i] in multiset(front);
          if front[i] == x {
            PrecedesOrder(x, last, last, field, dir);
          } else {
            var j :| 0 <= j < |init| && init[j] == front[i];
            assert s[j] == init[j];
          }
        }
        SortedSnoc(front, last, field, dir);
      } else {
        forall i | 0 <= i < |s| ensures !Precedes(x, s[i], field, dir) {
          PrecedesOrder(x, last, s[i], field, dir);
        }
        SortedSnoc(s, x, field, dir);
      }
    }
  }

  /** The sort returns the orders it was given, in order. */
  lemma {:induction false} SortOrdersSorted(s: seq<Order>, field: string, dir: Direction)
    ensures Sorted(SortOrders(s, field, dir), field, dir)
    ensures multiset(SortOrders(s, field, dir)) == multiset(s)
    decreases |s|
  {
    if s != [] {
      SortOrdersSorted(s[..|s| - 1], field, dir);
      InsertSorted(s[|s| - 1], SortOrders(s[..|s| - 1], field, dir), field, dir);
    }
  }

  /** `getFilteredData`: the selected dataset's orders, searched, then
      sorted; a key with no dataset gives no orders. */
  function FilteredData(datasets: map<string, seq<Order>>, dataset: string, query: string,
                        field: string, dir: Direction): seq<Order>
  {
    if dataset !in datasets then []
    else SortOrders(Search(datasets[dataset], query), field, dir)
  }

  /** What the table shows, both ways: exactly the matching orders of the
      dataset, each as often as in the dataset, in sorted order. */
  lemma FilteredDataSpec(datasets: map<string, seq<Order>>, dataset: string, query: string,
                         field: string, dir: Direction, o: Order)
    requires query != []
    ensures var r := FilteredData(datasets, dataset, query, field, dir);
      && Sorted(r, field, dir)
      && (o in r <==> dataset in datasets && o in datasets[dataset] && Matches(o, query))
      && (dataset in datasets ==>
            multiset(r)[o] == if Matches(o, query) then multiset(datasets[dataset])[o] else 0)
  {
    if dataset in datasets {
      var found := Search(datasets[dataset], query);
      SortOrdersSorted(found, field, dir);
      SearchMembers(datasets[dataset], query, o);
      SearchCount(datasets[dataset], query, o);
      assert o in SortOrders(found, field, dir) <==> o in multiset(found);
    }
  }

  /** Clicking a sort header: the current field flips the direction, any
      other field becomes the field, descending. */
  function SortToggle(field: string, dir: Direction, clicked: string): (string, Direction)
  {
    if clicked == field then (field, if dir == Asc then Desc else Asc) else (clicked, Desc)
  }

  /** Clicking the same header twice restores the direction; clicking a new
      header always starts descending. */
  lemma SortToggleTwice(field: string, dir: Direction, clicked: string)
    ensures var (f, d) := SortToggle(field, dir, clicked);
      && f == clicked
      && SortToggle(f, d, clicked) == (clicked, if clicked == field then dir else Asc)
  {
  }

  // ---------------------------------------------------------------- pages

  /** `Math.ceil(n / rowsPerPage)`. */
  function TotalPages(n: nat, rowsPerPage: int): (t: nat)
    requires rowsPerPage >= 1
    ensures (t - 1) * rowsPerPage < n <= t * rowsPerPage || (n == 0 && t == 0)
  {
    (n + rowsPerPage - 1) / rowsPerPage
  }

  /** `renderTable`'s slice. */
  function PageRows(data: seq<Order>, page: int, rowsPerPage: int): seq<Order>
  {
    var start := (page - 1) * rowsPerPage;
    var end := Min(start + rowsPerPage, |data|);
    if 0 <= start <= end then data[start..end] else []
  }

  /** `updateTableInfo`'s first and last row numbers. */
  function InfoStart(page: int, rowsPerPage: int): int { (page - 1) * rowsPerPage + 1 }
  function InfoEnd(data: seq<Order>, page: int, rowsPerPage: int): int { Min(page * rowsPerPage, |data|) }

  /** On a valid page the slice holds at most one page of rows, is the run
      of orders the info line names, and is empty only for an empty table. */
  lemma PageRowsSpec(data: seq<Order>, page: int, rowsPerPage: int)
    requires rowsPerPage >= 1 && 1 <= page <= Max(1, TotalPages(|data|, rowsPerPage))
    ensures var rows := PageRows(data, page, rowsPerPage);
      && |rows| <= rowsPerPage
      && (|data| > 0 ==> && 1 <= InfoStart(page, rowsPerPage) <= InfoEnd(data, page, rowsPerPage) <= |data|
                          && rows == data[InfoStart(page, rowsPerPage) - 1..InfoEnd(data, page, rowsPerPage)])
      && (|data| == 0 ==> rows == [])
  {
    var t := TotalPages(|data|, rowsPerPage);
    var a := (page - 1) * rowsPerPage;
    assert page * rowsPerPage == a + rowsPerPage;
    MulAtLeast(0, page - 1, rowsPerPage);
    if |data| > 0 {
      MulAtLeast(page - 1, t - 1, rowsPerPage);
    } else {
      assert page == 1 && a == 0;
    }
  }

  lemma MulAtLeast(x: int, y: int, r: int)
    requires x <= y && r >= 0
    ensures x * r <= y * r
  {
  }

  /** The first button of `updatePagination`'s window. */
  function StartPage(current: int, total: int): int
  {
    var start := Max(1, current - MaxVisiblePages / 2);
    var end := Min(total, start + MaxVisiblePages - 1);
    if end - start < MaxVisiblePages - 1 then Max(1, end - MaxVisiblePages + 1) else start
  }

  function EndPage(current: int, total: int): int
  {
    Min(total, Max(1, current - MaxVisiblePages / 2) + MaxVisiblePages - 1)
  }

  datatype PageButton = PageButton(number: int, active: bool)

  /** The buttons from the first to the last page of the window. */
  function Buttons(current: int, total: int): seq<PageButton>
  {
    var start, end := StartPage(current, total), EndPage(current, total);
    if end < start then []
    else seq(end - start + 1, k requires 0 <= k <= end - start => PageButton(start + k, start + k == current))
  }

  /** The window lies within the pages, holds the current page, has five
      buttons whenever there are five pages, and exactly one is active. */
  lemma WindowSpec(current: int, total: int)
    requires 1 <= current <= total
    ensures var start, end := StartPage(current, total), EndPage(current, total);
      && 1 <= start <= current <= end <= total
      && end - start + 1 == Min(MaxVisiblePages, total)
    ensures var b := Buttons(current, total);
      forall k :: 0 <= k < |b| ==> (b[k].active <==> b[k].number == current)
  {
  }

  /** With no pages there are no buttons. */
  lemma NoPagesNoButtons(current: int)
    requires current >= 1
    ensures Buttons(current, 0) == []
  {
  }

  /** The number of rows per page: the parsed setting, or ten when it is
      missing or zero (`parseInt(...) || 10`). */
  function RowsPerPage(parsed: Option<int>): int
  {
    match parsed
    case None => DefaultRowsPerPage
    case Some(n) => if n == 0 then DefaultRowsPerPage else n
  }

  /** The dataset `initialize` settles on: the configured one when it is
      non-empty and known, else `hospital-orders`. */
  function InitialDataset(configured: Option<string>, datasets: map<string, seq<Order>>): (d: string)
    ensures d == DefaultDataset || d in datasets
  {
    var d := if configured.None? || configured.value == "" then DefaultDataset else configured.value;
    if d in datasets then d else DefaultDataset
  }

  // ---------------------------------------------------------------- the fragment

  datatype View = View(
    rows: seq<Order>, buttons: seq<PageButton>, prevDisabled: bool, nextDisabled: bool,
    showingStart: int, showingEnd: int, totalOrders: int)

  /** `updatePagination`'s loop over the window. */
  method RenderPageNumbers(current: int, total: int) returns (buttons: seq<PageButton>)
    ensures buttons == Buttons(current, total)
  {
    var start := Max(1, current - MaxVisiblePages / 2);
    var end := Min(total, start + MaxVisiblePages - 1);
    if end - start < MaxVisiblePages - 1 {
      start := Max(1, end - MaxVisiblePages + 1);
    }
    buttons := [];
    var i := start;
    while i <= end
      invariant start <= i <= Max(start, end + 1)
      invariant buttons == seq(i - start, k requires 0 <= k < i - start => PageButton(start + k, start + k == current))
    {
      buttons := buttons + [PageButton(i, i == current)];
      i := i + 1;
    }
  }

  class Table {
    const datasets: map<string, seq<Order>>
    const rowsPerPage: int
    var currentDataset: string
    var currentPage: int
    var sortField: string
    var sortDirection: Direction
    var searchQuery: string
    var filteredData: seq<Order>

    /** The page stays within the pages, and the rows shown are the
        current dataset searched and sorted. */
    ghost predicate Valid()
      reads this
    {
      && rowsPerPage >= 1
      && 1 <= currentPage <= Max(1, TotalPages(|filteredData|, rowsPerPage))
      && filteredData == FilteredData(datasets, currentDataset, searchQuery, sortField, sortDirection)
    }

    function TotalPagesNow(): nat
      reads this
      requires rowsPerPage >= 1
    {
      TotalPages(|filteredData|, rowsPerPage)
    }

    /** What `renderTable`, `updatePagination` and `updateTableInfo` draw. */
    function CurrentView(): View
      reads this
      requires rowsPerPage >= 1
    {
      View(PageRows(filteredData, currentPage, rowsPerPage),
           Buttons(currentPage, TotalPagesNow()),
           currentPage == 1, currentPage >= TotalPagesNow(),
           InfoStart(currentPage, rowsPerPage), InfoEnd(filteredData, currentPage, rowsPerPage),
           |filteredData|)
    }

    /** The fragment's start: settings, `initialize`'s fallback, first draw. */
    constructor(configuredDataset: Option<string>, parsedRows: Option<int>, data: map<string, seq<Order>>)
      requires parsedRows.None? || parsedRows.value >= 0
      ensures Valid()
      ensures datasets == data && rowsPerPage == RowsPerPage(parsedRows)
      ensures currentDataset == InitialDataset(configuredDataset, data) && currentPage == 1
      ensures sortField == "orderDate" && sortDirection == Desc && searchQuery == ""
    {
      datasets := data;
      rowsPerPage := RowsPerPage(parsedRows);
      currentDataset := InitialDataset(configuredDataset, data);
      currentPage := 1;
      sortField := "orderDate";
      sortDirection := Desc;
      searchQuery := "";
      filteredData := FilteredData(data, InitialDataset(configuredDataset, data), "", "orderDate", Desc);
    }

    /** `updateTable`: recompute the rows, then draw. */
    method UpdateTable() returns (view: View)
      requires rowsPerPage >= 1 && currentPage == 1
      modifies this
      ensures Valid()
      ensures filteredData == FilteredData(datasets, currentDataset, searchQuery, sortField, sortDirection)
      ensures unchanged(this`currentDataset, this`currentPage, this`sortField, this`sortDirection, this`searchQuery)
      ensures view == CurrentView()
    {
      filteredData := FilteredData(datasets, currentDataset, searchQuery, sortField, sortDirection);
      view := Draw();
    }

    method Draw() returns (view: View)
      requires rowsPerPage >= 1
      ensures view == CurrentView()
    {
      var total := TotalPages(|filteredData|, rowsPerPage);
      var buttons := RenderPageNumbers(currentPage, total);
      view := View(PageRows(filteredData, currentPage, rowsPerPage), buttons,
                   currentPage == 1, currentPage >= total,
                   (currentPage - 1) * rowsPerPage + 1, Min(currentPage * rowsPerPage, |filteredData|),
                   |filteredData|);
    }

    /** A dataset button: select it and go back to page 1. */
    method SelectDataset(key: string) returns (view: View)
      requires Valid()
      modifies this
      ensures Valid() && currentDataset == key && currentPage == 1
      ensures unchanged(this`sortField, this`sortDirection, this`searchQuery)
      ensures view == CurrentView()
    {
      currentDataset := key;
      currentPage := 1;
      view := UpdateTable();
    }

    /** Typing in the search box: the lower-cased text, back to page 1. */
    method SearchFor(text: string) returns (view: View)
      requires Valid()
      modifies this
      ensures Valid() && searchQuery == ToLower(text) && currentPage == 1
      ensures unchanged(this`currentDataset, this`sortField, this`sortDirection)
      ensures view == CurrentView()
    {
      searchQuery := ToLower(text);
      currentPage := 1;
      view := UpdateTable();
    }

    /** A sortable header: toggle, then back to page 1. */
    method ClickSortHeader(field: string) returns (view: View)
      requires Valid()
      modifies this
      ensures Valid() && (sortField, sortDirection) == SortToggle(old(sortField), old(sortDirection), field)
      ensures currentPage == 1 && unchanged(this`currentDataset, this`searchQuery)
      ensures view == CurrentView()
    {
      if sortField == field {
        sortDirection := if sortDirection == Asc then Desc else Asc;
      } else {
        sortField := field;
        sortDirection := Desc;
      }
      currentPage := 1;
      view := UpdateTable();
    }

    /** The previous-page button moves back only from a page after the first. */
    method PrevPage() returns (view: View)
      requires Valid()
      modifies this`currentPage
      ensures Valid()
      ensures currentPage == if old(currentPage) > 1 then old(currentPage) - 1 else old(currentPage)
      ensures view == CurrentView()
    {
      if currentPage > 1 {
        currentPage := currentPage - 1;
      }
      view := Draw();
    }

    /** The next-page button moves on only from a page before the last. */
    method NextPage() returns (view: View)
      requires Valid()
      modifies this`currentPage
      ensures Valid()
      ensures currentPage == if old(currentPage) < TotalPagesNow() then old(currentPage) + 1 else old(currentPage)
      ensures view == CurrentView()
    {
      var total := TotalPages(|filteredData|, rowsPerPage);
      if currentPage < total {
        currentPage := currentPage + 1;
      }
      view := Draw();
    }

    /** A page-number button, one of those drawn. */
    method GoToPage(page: int) returns (view: View)
      requires Valid() && StartPage(currentPage, TotalPagesNow()) <= page <= EndPage(currentPage, TotalPagesNow())
      modifies this`currentPage
      ensures Valid() && currentPage == page
      ensures view == CurrentView()
    {
      currentPage := page;
      view := Draw();
    }
  }
}
