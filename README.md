# MattheyRebuild core, modelled in Dafny

MattheyRebuild holds Liferay DXP deployment material for three demo sites:
Johnson Matthey, Sigma Pharmaceuticals and YBS. This project models the
sequential logic inside that material and proves properties of it. There
are two kinds of code.

- **Python deployment scripts.**
  - `build_sigma_zips.py` validates the Sigma fragment collection and the
    client extension, then zips each one that passes.
  - `create_fragment_zips.py` prepares the Johnson Matthey fragment
    directories and writes one archive per fragment plus a collection
    archive.
  - `create_cardiovascular_products.py` builds Liferay Commerce product
    payloads, posts them, and sorts each product into created, failed or
    neither.
- **Browser fragments.**
  - Header fragments (`ybs-header`, `sigma-header`, `jm-header`): URL and
    site-prefix rules, navigation-item transformation, dropdown numbering,
    the "one dropdown open" discipline, and the mobile menu.
  - `sigma-orders-table`: search, sort and pagination.
  - `jm-news-carousel`: slide navigation, indicators and swipes.
  - `jm-footer`: configuration defaults, the newsletter email check, and
    social-platform classification.
  - The Sigma client extension's form helpers: required-field checks, file
    size and type limits, and auto-save into a key/value store.

The filesystem is an abstract tree of named nodes (`FileTree.Node`). A zip
archive is the list of `(source path, entry name)` pairs written into it.
HTTP answers, DOM facts, window widths, scroll offsets and touch or mouse positions
are inputs. State that the source changes in place is a Dafny `class`:

- the collection directory;
- the open dropdown menus and the mobile menu;
- the carousel;
- the orders table;
- the newsletter form, the back-to-top button, and the auto-save form;
- the mega-menu areas.

Each method's `ensures` ties its new state to a specification function, and
the lemmas prove what the source promises about those functions.

Modules, one per core file, plus shared ones:

| module | file | models |
|---|---|---|
| `Wrappers` | `wrappers.dfy` | `Option` |
| `Text` | `text.dfy` | JavaScript/Python string built-ins: `trim`, `includes`/`in`, `split`/`join`, ASCII case mapping, decimal rendering |
| `EmailPattern` | `email.dfy` | the email regex `/^[^\s@]+@[^\s@]+\.[^\s@]+$/` shared by `jm-footer` and the Sigma forms |
| `FileTree` | `filetree.dfy` | directory trees, name exclusion, the `os.walk` loop, archive entry naming |
| `SigmaBuild` | `sigma_build.dfy` | `build_sigma_zips.py` |
| `FragmentZips` | `fragment_zips.dfy` | `create_fragment_zips.py` |
| `Catalog` | `catalog.dfy` | `create_cardiovascular_products.py` |
| `OrdersTable` | `orders_table.dfy` | `sigma-orders-table/index.js` |
| `NewsCarousel` | `news_carousel.dfy` | `jm-news-carousel/index.js` |
| `NavItems` | `nav_items.dfy` | navigation items, the link/url/`#` fallback, the plain `createNavItem`, the menu-loading guard, dropdown numbering |
| `HoverDropdowns` | `dropdowns.dfy` | show/hide/toggle dropdowns and the mobile menu, shared by `ybs-header`, `jm-header/index.js` and `jm-header/main.js` |
| `YbsHeader` | `ybs_header.dfy` | `ybs-header/index.js` |
| `SigmaHeader` | `sigma_header.dfy` | `sigma-header/index.js` |
| `JmHeader` | `jm_header.dfy` | `jm-header/index.js` |
| `JmFooter` | `jm_footer.dfy` | `jm-footer/index.js` |
| `SigmaForms` | `sigma_forms.dfy` | `sigma-js-client-extension/assets/global.js` forms |

## Model

| member | source | states |
|---|---|---|
| `Text.Trim` | fragment-collection/johnson-matthey-collection/jm-footer/index.js:237 | `String.prototype.trim`: the result occurs in the input with only white space around it, and neither end of it is white space |
| `Text.TrimEmptyIff` | sigma-js-client-extension/assets/global.js:329 | the `!input.value.trim()` test: a value trims to the empty string exactly when it is all white space |
| `Text.TrimIdempotent` | fragment-collection/ybs-collection/ybs-header/index.js:297-303 | trimming twice is trimming once |
| `Text.TrimPadded` | fragment-collection/johnson-matthey-collection/jm-footer/index.js:237 | white space padding around a string without white space at its ends is exactly what `trim` removes |
| `Text.ContainsIff` | fragment-collection/johnson-matthey-collection/jm-footer/index.js:360-363 | `includes` means the pattern occurs at some index, and back |
| `Text.JoinSplit` | sigma-js-client-extension/assets/global.js:379 | joining the pieces of `split(c)` with `c` gives back the text |
| `Text.SplitJoin` | build_sigma_zips.py:34 | splitting a join of separator-free pieces gives back the pieces |
| `Text.JoinInjective` | build_sigma_zips.py:34 | joining with `/` is injective on non-empty lists of `/`-free segments, so distinct relative paths get distinct names |
| `Text.ToLowerIdempotent` | create_cardiovascular_products.py:318 | `lower()` of a lower-cased string changes nothing |
| `Text.NatToStringInjective` | create_cardiovascular_products.py:318 | `str` on naturals is injective |
| `Text.DigitRunOfDigits` | fragment-collection/sigma-pharmaceuticals-collection/sigma-header/index.js:697 | a greedy `\d+` captures a whole digit string followed by a non-digit |
| `EmailPattern.IsValidEmailMatchesRegex` | fragment-collection/johnson-matthey-collection/jm-footer/index.js:267-270 | in both directions, a string matches `/^[^\s@]+@[^\s@]+\.[^\s@]+$/` exactly when it has no white space, exactly one `@` with something before it, and a domain after it with a `.` that is neither the domain's first nor its last character |
| `EmailPattern.MatchesRegex` | fragment-collection/johnson-matthey-collection/jm-footer/index.js:268 | the anchored pattern read off literally: the string splits as a run without white space or `@`, an `@`, such a run, a `.`, and such a run; it equals `IsValidEmail` by `IsValidEmailMatchesRegex` |
| `EmailPattern.IsValidEmail` | fragment-collection/johnson-matthey-collection/jm-footer/index.js:267-270 | `isValidEmail` in plain terms: no white space, exactly one `@` with something before it, and a domain holding a `.` that is neither its first nor its last character; equal to the pattern by `IsValidEmailMatchesRegex` |
| `EmailPattern.IndexOfFirst` | fragment-collection/johnson-matthey-collection/jm-footer/index.js:268 | the position of the `@` the pattern splits on is the first `@` |
| `FileTree.Lookup` | build_sigma_zips.py:78-79 | `os.path.exists(join(dir, name))`: found iff some child has that name, and what is found is that child |
| `FileTree.Remove` | create_fragment_zips.py:93 | removal keeps exactly the children with other names |
| `FileTree.LookupRemoveOther` | create_fragment_zips.py:93 | removing one name leaves every other lookup unchanged |
| `FileTree.Put` | create_fragment_zips.py:79-80 | after writing a file its name finds it, every other name finds what it found before, and no stale copy of the name is left |
| `FileTree.PutTwice` | create_fragment_zips.py:79-80 | of two writes to one name, the second one wins |
| `FileTree.RenameEffect` | create_fragment_zips.py:92-93 | `os.rename` when the source exists: the source name is gone, the target exists iff either name existed, and all other names are untouched; a missing source changes nothing |
| `FileTree.DefaultExclusionWithoutStar` | build_sigma_zips.py:16-17 | for names without `*`, the default list excludes exactly the names containing `.DS_Store`, `__pycache__` or `.git`: the `*.pyc` entry is matched literally |
| `FileTree.GitPrefixExcluded` | build_sigma_zips.py:25 | every name starting with `.git` (`.gitignore`, `.github`) is excluded by default |
| `FileTree.PycFileKept` | build_sigma_zips.py:29 | `x.pyc` is not excluded by the default list |
| `FileTree.NothingExcludedByEmptyList` | build_sigma_zips.py:16 | an explicit empty list excludes nothing |
| `FileTree.WalkMembers` | build_sigma_zips.py:23-35 | the walk lists exactly the files of the tree none of whose path segments is excluded, each under the walked prefix |
| `FileTree.PrunedNeverListed` | build_sigma_zips.py:25 | pruning is transitive: no file beneath an excluded directory, at any depth, is listed |
| `FileTree.KeptFileListed` | build_sigma_zips.py:27-35 | every file whose path avoids the patterns is listed |
| `FileTree.WalkDistinct` | build_sigma_zips.py:23-35 | in a tree whose sibling names are distinct, the walk lists each file once |
| `FileTree.EntriesOf` | build_sigma_zips.py:32-35 | one entry per listed path, in order, with the source path and the name that path gets |
| `FileTree.EntryNameInjective` | build_sigma_zips.py:62-64 | in both naming modes (relative, or under `root/`) two `/`-free paths with the same name are the same path |
| `FileTree.NamesDistinct` | build_sigma_zips.py:32-35 | distinct plain paths get distinct entry names |
| `FileTree.ArchiveNamesDistinct` | build_sigma_zips.py:32-35 | in a well-formed tree the archive's entry names are distinct, in both naming modes |
| `FileTree.VisitStep` | build_sigma_zips.py:23-27 | visiting the first pending directory yields its files, then the walks of its kept subdirectories ahead of the rest, and the remaining work strictly shrinks |
| `FileTree.VisitDirectory` | build_sigma_zips.py:25-35 | one `os.walk` step: the directory's kept files written in listing order, and `dirs[:]` filtered in place to the kept subdirectories |
| `FileTree.WriteTree` | build_sigma_zips.py:22-36 | the whole walk loop writes exactly the walk's files, in walk order, each under the name its naming rule gives |
| `SigmaBuild.CreateZipFromDirectory` | build_sigma_zips.py:12-39 | no list means the default list, a given list (even an empty one) is used as given; entries are named by their relative path; it returns true |
| `SigmaBuild.CreateFragmentCollectionZip` | build_sigma_zips.py:41-69 | always the fixed default list, whatever the caller has; every entry named `collection_name/relative`; it returns true |
| `SigmaBuild.CollectionArchiveLayout` | build_sigma_zips.py:53-64 | every collection-archive entry starts with `collection_name/`, and no segment of its source path is excluded |
| `SigmaBuild.FragmentCount` | build_sigma_zips.py:102-109 | the fragment count never exceeds the number of listed items |
| `SigmaBuild.IsFragment` | build_sigma_zips.py:104-108 | an item counts as a fragment iff it is a directory, its name does not start with `.`, and it holds `fragment.json` |
| `SigmaBuild.ManifestVerdict` | build_sigma_zips.py:78-99 | the manifest phase alone: missing, unreadable or invalid JSON, or the first missing required key; none when it passes |
| `SigmaBuild.CollectionVerdict` | build_sigma_zips.py:71-126 | `validate_fragment_collection`: the manifest verdict, else a failure when no fragment is found, else success; its properties are `ValidIff` and `ManifestCheckedFirst` |
| `SigmaBuild.ValidateFragmentCollection` | build_sigma_zips.py:71-126 | the function's verdict, phase by phase: missing manifest, unreadable or invalid JSON, the required-field loop, then the fragment count |
| `SigmaBuild.ManifestCheckedFirst` | build_sigma_zips.py:78-99 | a manifest failure decides the verdict before any subdirectory is inspected: two collections with the same `collection.json` fail alike, whatever else they hold |
| `SigmaBuild.MissingFieldIsFirst` | build_sigma_zips.py:88-92 | a missing-field verdict names the first required field, in the order `fragmentCollectionKey`, `name`, that the manifest lacks |
| `SigmaBuild.ValidIff` | build_sigma_zips.py:71-126 | in both directions: the collection validates iff its manifest is a JSON object with both required keys and at least one fragment is found; the count reported is the fragment count |
| `SigmaBuild.OtherFilesDoNotMatter` | build_sigma_zips.py:105-119 | only `fragment.json` decides whether a directory is a fragment; missing `index.html`/`index.css`/`index.js`/`configuration.json` change nothing |
| `SigmaBuild.ValidateClientExtension` | build_sigma_zips.py:128-153 | without `client-extension.yaml` the verdict is a failure |
| `SigmaBuild.ExtensionValidIff` | build_sigma_zips.py:135-153 | with `assets` missing, empty or full, the extension validates iff `client-extension.yaml` exists |
| `SigmaBuild.Build` | build_sigma_zips.py:155-226 | each archive is written iff its directory exists and its own validation passes; success is both passing; the exit status is 0 iff success; an uncaught crash in the collection's validation ends the run with status 1 before the extension is looked at |
| `FragmentZips.KeysPlain` | create_fragment_zips.py:13-49 | the fragment keys are distinct, `/`-free, and differ from `resources` and `collection.json` |
| `FragmentZips.ThumbnailNeverOverwritten` | create_fragment_zips.py:51-63 | an existing thumbnail is left as it is, so a second call writes nothing |
| `FragmentZips.RenameFilesEffect` | create_fragment_zips.py:82-94 | only `main.js`→`index.js` and `styles.css`→`index.css` move, each only when the source exists; every other name keeps its node |
| `FragmentZips.RenameFiles` | create_fragment_zips.py:82-94 | `rename_fragment_files` on a fragment listing: `main.js`→`index.js`, then `styles.css`→`index.css`, each only when its source exists; its effect is `RenameFilesEffect` |
| `FragmentZips.WithDescriptor` | create_fragment_zips.py:65-80 | `create_fragment_json`: `fragment.json` is written, or overwritten, with the descriptor; its fields are `DescriptorFields` |
| `FragmentZips.PrepareDir` | create_fragment_zips.py:105-114 | one fragment prepared: renamed, then its descriptor, then a thumbnail when it has none; its layout is `PreparedLayout`, and it is idempotent by `PrepareIdempotent` |
| `FragmentZips.PrepareOne` | create_fragment_zips.py:100-117 | one pass of the loop for a key that is not a plain file: a directory is prepared, an absent key is skipped |
| `FragmentZips.PrepareAll` | create_fragment_zips.py:96-117 | the loop over a table whose keys name no plain file, in table order; `PrepareEach` runs it |
| `FragmentZips.PreparedLayout` | create_fragment_zips.py:96-117 | a prepared fragment holds its descriptor and a thumbnail, no `main.js` or `styles.css`, and `index.js`/`index.css` exactly when a source for them was there |
| `FragmentZips.DescriptorFields` | create_fragment_zips.py:65-80 | the descriptor takes its key from the directory and name, type and icon from the table; its paths are the fixed Liferay names, and the thumbnail it names exists |
| `FragmentZips.PrepareIdempotent` | create_fragment_zips.py:96-117 | preparing a prepared fragment changes nothing |
| `FragmentZips.CollectionFolder.RenameFragmentFiles` | create_fragment_zips.py:82-94 | the mapping loop leaves the fragment's directory renamed as specified, and no other directory changes |
| `FragmentZips.CollectionFolder.CreateFragmentJson` | create_fragment_zips.py:65-80 | `fragment.json` is (over)written with the descriptor, and nothing else changes |
| `FragmentZips.CollectionFolder.CreateThumbnail` | create_fragment_zips.py:51-63 | nothing changes when `thumbnail.png` exists; otherwise exactly the placeholder is added |
| `FragmentZips.CollectionFolder.PrepareFragments` | create_fragment_zips.py:96-117 | every present fragment is prepared in table order and missing ones are skipped; the run crashes iff some key names a plain file, and then every fragment before the first such key is prepared and nothing else has changed |
| `FragmentZips.CollectionFolder.PrepareEach` | create_fragment_zips.py:96-117 | the preparing loop over any table with distinct keys: each present directory is prepared in order; the run crashes iff some key names a plain file, leaving exactly the fragments before the first such key prepared (`CrashedAt`) |
| `FragmentZips.CreateIndividualFragmentZips` | create_fragment_zips.py:119-142 | one archive for each present key, in table order |
| `FragmentZips.IndividualZipContents` | create_fragment_zips.py:133-140 | the archive of key `k` holds exactly the files below `k`'s directory, without exclusions, each named `k/<relpath>` |
| `FragmentZips.IndividualZipPresent` | create_fragment_zips.py:127-131 | every key whose directory exists gets its archive |
| `FragmentZips.ArchiveEach` | create_fragment_zips.py:119-142 | the archiving loop over any key list: one archive per present key, in list order |
| `FragmentZips.CreateFragmentEntries` | create_fragment_zips.py:156-167 | the fragment part of the collection archive: each present key's files, in table order |
| `FragmentZips.CreateCollectionZip` | create_fragment_zips.py:144-182 | the archive holds `collection.json` if present, then the present fragments' files, then `resources/`, all under `johnson-matthey-collection/` |
| `FragmentZips.CollectionLayout` | create_fragment_zips.py:146-178 | every collection-archive entry starts with `johnson-matthey-collection/` and comes from `collection.json`, a table key's directory or `resources/`; no other subdirectory is archived |
| `FragmentZips.CollectionNamesDistinct` | create_fragment_zips.py:150-178 | in a well-formed collection directory no two collection-archive entries share a name |
| `FragmentZips.CreateAllZips` | create_fragment_zips.py:184-207 | prepare, then the individual archives, then the collection archive, all from the prepared directory; a crash while preparing stops the run before any archive, with the fragments before the offending key already prepared |
| `Catalog.CreateProductPayload` | create_cardiovascular_products.py:311-360 | the two append loops build exactly the payload `ProductPayload` describes |
| `Catalog.ProductPayload` | create_cardiovascular_products.py:311-360 | the dictionary `create_product_payload` returns, field by field; its layout is `PayloadLayout` |
| `Catalog.PayloadLayout` | create_cardiovascular_products.py:315-358 | the fixed catalog id, product type `simple` and `DRUG-STRENGTH-<code>`; one product option with the fixed option id; option values, SKUs and pack sizes index-aligned; option key `pack-<lower code>-<i+1>` with priority `i`; SKU code `code-<UPPER size, spaces as ->` doubling as `sku`; its one option naming the i-th key and size |
| `Catalog.OptionKeysDistinct` | create_cardiovascular_products.py:318 | different pack positions get different option keys |
| `Catalog.PayloadKeysDistinct` | create_cardiovascular_products.py:315-321 | the option values of one payload carry distinct keys |
| `Catalog.SkuCodeShape` | create_cardiovascular_products.py:326 | a SKU code has no space (when the product code has none) and starts with the product code and `-` |
| `Catalog.OptionKeyLowerCase` | create_cardiovascular_products.py:318 | option keys are already lower case |
| `Catalog.Specifications` | create_cardiovascular_products.py:393-409 | exactly three specifications are sent |
| `Catalog.CreateProduct` | create_cardiovascular_products.py:362-387 | a product id comes back iff the status is 200 or 201 and the body holds an id; otherwise none (exceptions caught) |
| `Catalog.CountSucceededAll` | create_cardiovascular_products.py:411-429 | the success count reaches the number of answers exactly when every answer succeeded |
| `Catalog.AddProductSpecifications` | create_cardiovascular_products.py:389-429 | the three specifications are posted in order, and the result is true iff all three answers were 200 or 201 |
| `Catalog.AddProductCategories` | create_cardiovascular_products.py:431-465 | true iff the PATCH answer was 200 or 201 |
| `Catalog.CreateOne` | create_cardiovascular_products.py:479-502 | one product: a failed create records its name and sends only the product POST; otherwise the three specifications and the category PATCH follow, and the product is recorded, with its id, name, code and SKU count, iff both also succeeded |
| `Catalog.CreateCardiovascularProducts` | create_cardiovascular_products.py:467-523 | the run loop's `created`, `failed` and requests sent are those of the run specification, product by product |
| `Catalog.RunCounts` | create_cardiovascular_products.py:479-503 | no product lands in both lists, so together they are no longer than the product list; a failed create costs one request, any other five |
| `Catalog.RunCreatedIff` | create_cardiovascular_products.py:494-500 | in both directions, a product is recorded as created iff its create, its specifications and its categories all succeeded, with its id, name, code and SKU count |
| `Catalog.RunFailedIff` | create_cardiovascular_products.py:483-486 | in both directions, a name is recorded as failed iff the create request of a product of that name failed; a created product whose follow-ups failed is in neither list |
| `Catalog.FollowUpsNeedCreate` | create_cardiovascular_products.py:484-492 | specifications and categories are only sent for the id of a product whose create succeeded |
| `OrdersTable.SearchMembers` | fragment-collection/sigma-pharmaceuticals-collection/sigma-orders-table/index.js:271-280 | in both directions, an order survives a non-empty search iff the query occurs in its lower-cased date, some product's lower-cased name or SKU, or its lower-cased status |
| `OrdersTable.Search` | fragment-collection/sigma-pharmaceuticals-collection/sigma-orders-table/index.js:271-280 | the search step: an empty query keeps every order, otherwise the orders that match, in order |
| `OrdersTable.SearchCount` | fragment-collection/sigma-pharmaceuticals-collection/sigma-orders-table/index.js:271-280 | a non-empty search keeps each matching order as often as the dataset holds it and drops every other |
| `OrdersTable.Key` | fragment-collection/sigma-pharmaceuticals-collection/sigma-orders-table/index.js:283-297 | what the comparator compares: `orderDate` as its ISO text, `total` and `quantity` as numbers, `status` lower-cased, any other field as no key |
| `OrdersTable.FilteredData` | fragment-collection/sigma-pharmaceuticals-collection/sigma-orders-table/index.js:264-305 | `getFilteredData`: the selected dataset searched and sorted, `[]` for an unknown key; its properties are `FilteredDataSpec` |
| `OrdersTable.SortToggle` | fragment-collection/sigma-pharmaceuticals-collection/sigma-orders-table/index.js:202-207 | the header click: the current field flips the direction, another field becomes the field, descending; see `SortToggleTwice` |
| `OrdersTable.PageRows` | fragment-collection/sigma-pharmaceuticals-collection/sigma-orders-table/index.js:320-326 | the slice `renderTable` shows, from `(page - 1) * rowsPerPage` to the end of the page or of the data; see `PageRowsSpec` |
| `OrdersTable.Buttons` | fragment-collection/sigma-pharmaceuticals-collection/sigma-orders-table/index.js:392-402 | one button per page of the window, the current one active; see `WindowSpec` |
| `OrdersTable.RowsPerPage` | fragment-collection/sigma-pharmaceuticals-collection/sigma-orders-table/index.js:11 | the parsed setting, or ten when it is missing or zero, as the `or 10` fallback after `parseInt` gives |
| `OrdersTable.EmptyQueryMatches` | fragment-collection/sigma-pharmaceuticals-collection/sigma-orders-table/index.js:271 | the empty query matches every order, so the `if (searchQuery)` short cut changes nothing |
| `OrdersTable.PrecedesOrder` | fragment-collection/sigma-pharmaceuticals-collection/sigma-orders-table/index.js:283-302 | the comparator is a strict weak order on every field and in both directions |
| `OrdersTable.Insert` | fragment-collection/sigma-pharmaceuticals-collection/sigma-orders-table/index.js:283 | inserting adds exactly the one order |
| `OrdersTable.SortOrders` | fragment-collection/sigma-pharmaceuticals-collection/sigma-orders-table/index.js:283-302 | the sort returns a permutation of its input |
| `OrdersTable.SortOrdersSorted` | fragment-collection/sigma-pharmaceuticals-collection/sigma-orders-table/index.js:283-302 | the sort's output is ordered by the field in the chosen direction and is a permutation of its input |
| `OrdersTable.InsertBehind` | fragment-collection/sigma-pharmaceuticals-collection/sigma-orders-table/index.js:283-302 | an order that precedes nothing placed goes behind all of it |
| `OrdersTable.SortOrdersStable` | fragment-collection/sigma-pharmaceuticals-collection/sigma-orders-table/index.js:283-302 | the sort is stable: an input already in order, ties included, comes back unchanged |
| `OrdersTable.ProductsSortKeepsOrder` | fragment-collection/sigma-pharmaceuticals-collection/sigma-orders-table/index.js:283-302 | sorting by `products` leaves the rows in their order |
| `OrdersTable.FilteredDataSpec` | fragment-collection/sigma-pharmaceuticals-collection/sigma-orders-table/index.js:264-305 | the rows are sorted, hold exactly the dataset's orders that match in both directions, and each matching order as often as the dataset does; an unknown dataset key gives `[]` |
| `OrdersTable.SortToggleTwice` | fragment-collection/sigma-pharmaceuticals-collection/sigma-orders-table/index.js:202-207 | a click makes the clicked field current; clicking the current field twice restores the direction, and a new field starts descending |
| `OrdersTable.TotalPages` | fragment-collection/sigma-pharmaceuticals-collection/sigma-orders-table/index.js:375 | `Math.ceil(n / rowsPerPage)`: the least page count that holds every row |
| `OrdersTable.PageRowsSpec` | fragment-collection/sigma-pharmaceuticals-collection/sigma-orders-table/index.js:324-326 | on a valid page at most `rowsPerPage` rows are shown, and they are exactly the rows numbered from the info line's start to its end |
| `OrdersTable.WindowSpec` | fragment-collection/sigma-pharmaceuticals-collection/sigma-orders-table/index.js:392-402 | the buttons run from a start of at least 1 to an end of at most the page count; they hold the current page; there are `min(5, total)` of them; exactly the current one is active |
| `OrdersTable.NoPagesNoButtons` | fragment-collection/sigma-pharmaceuticals-collection/sigma-orders-table/index.js:394-400 | with no pages there are no buttons |
| `OrdersTable.InitialDataset` | fragment-collection/sigma-pharmaceuticals-collection/sigma-orders-table/index.js:432-436 | the start-up dataset is a known one or `hospital-orders` |
| `OrdersTable.RenderPageNumbers` | fragment-collection/sigma-pharmaceuticals-collection/sigma-orders-table/index.js:389-410 | the button loop draws exactly the window's buttons |
| `OrdersTable.Table.constructor` | fragment-collection/sigma-pharmaceuticals-collection/sigma-orders-table/index.js:9-15 | the start-up settings (rows per page parsed from the setting, 10 when that is missing or zero; the dataset fallback, sort by date descending, empty search, page 1) and a consistent table |
| `OrdersTable.Table.UpdateTable` | fragment-collection/sigma-pharmaceuticals-collection/sigma-orders-table/index.js:310-315 | the rows become the dataset searched and sorted; the view drawn is that state's |
| `OrdersTable.Table.Draw` | fragment-collection/sigma-pharmaceuticals-collection/sigma-orders-table/index.js:320-427 | the drawn rows, buttons, disabled states (prev iff page 1, next iff page at least the page count) and info line are those of the current state |
| `OrdersTable.Table.SelectDataset` | fragment-collection/sigma-pharmaceuticals-collection/sigma-orders-table/index.js:156-166 | selecting a dataset resets the page to 1 and keeps sort and search |
| `OrdersTable.Table.SearchFor` | fragment-collection/sigma-pharmaceuticals-collection/sigma-orders-table/index.js:185-189 | the query becomes the lower-cased text and the page resets to 1 |
| `OrdersTable.Table.ClickSortHeader` | fragment-collection/sigma-pharmaceuticals-collection/sigma-orders-table/index.js:199-212 | the sort toggles as specified and the page resets to 1 |
| `OrdersTable.Table.PrevPage` | fragment-collection/sigma-pharmaceuticals-collection/sigma-orders-table/index.js:241-248 | the page goes back only from a page after the first; the page stays between 1 and the page count |
| `OrdersTable.Table.NextPage` | fragment-collection/sigma-pharmaceuticals-collection/sigma-orders-table/index.js:250-258 | the page moves on only from a page before the last; the page stays between 1 and the page count |
| `OrdersTable.Table.GoToPage` | fragment-collection/sigma-pharmaceuticals-collection/sigma-orders-table/index.js:404-407 | a drawn page button makes its page current, and the table stays consistent |
| `NewsCarousel.GoToSlide` | fragment-collection/johnson-matthey-collection/jm-news-carousel/index.js:371-375 | the target is clamped into `[0, max(0, n - slidesToShow)]`, and an index already inside is kept |
| `NewsCarousel.SlidesFor` | fragment-collection/johnson-matthey-collection/jm-news-carousel/index.js:143-152 | one slide below a width of 768, two below 1024, else the configured desktop count |
| `NewsCarousel.NextSlide` | fragment-collection/johnson-matthey-collection/jm-news-carousel/index.js:355-361 | `nextSlide`: wrap to 0 from `currentSlide >= n - slidesToShow`, else one page on; its range is `MovesStayOnSlides` |
| `NewsCarousel.PreviousSlideAsWritten` | fragment-collection/johnson-matthey-collection/jm-news-carousel/index.js:363-369 | as written: from `currentSlide <= 0` to `n - slidesToShow`, else one page back, with no lower bound |
| `NewsCarousel.PreviousSlide` | fragment-collection/johnson-matthey-collection/jm-news-carousel/index.js:363-369 | corrected: the same moves, kept within `[0, max(0, n - slidesToShow)]` |
| `NewsCarousel.PreviousAgreement` | fragment-collection/johnson-matthey-collection/jm-news-carousel/index.js:363-369 | the corrected and the written previous agree exactly when the written result is not negative, in both directions; the written result stays above `-slidesToShow` and below `n` |
| `NewsCarousel.PreviousSlideGoesNegative` | fragment-collection/johnson-matthey-collection/jm-news-carousel/index.js:363-369 | as written: with 5 slides shown 3 at a time, End and then ArrowLeft leave the carousel at slide -1; with 2 slides, ArrowLeft at the start does too |
| `NewsCarousel.MovesStayOnSlides` | fragment-collection/johnson-matthey-collection/jm-news-carousel/index.js:355-369 | next stays on a slide and wraps to 0 exactly from the last page; the corrected previous stays within `[0, max(0, n - slidesToShow)]` |
| `NewsCarousel.NextPreviousInverse` | fragment-collection/johnson-matthey-collection/jm-news-carousel/index.js:355-369 | in the middle of the slides, next and the corrected previous undo each other |
| `NewsCarousel.LastIndicatorLightsAnother` | fragment-collection/johnson-matthey-collection/jm-news-carousel/index.js:199-212 | as written: with 5 slides shown 3 at a time, the second indicator jumps to the clamped slide 2, where `floor(2/3)` lights the first indicator and not the second |
| `NewsCarousel.IndicatorActiveAsWritten` | fragment-collection/johnson-matthey-collection/jm-news-carousel/index.js:475-479 | as written: indicator `i` is lit iff `i == floor(currentSlide / slidesToShow)` |
| `NewsCarousel.ActiveIndicator` | fragment-collection/johnson-matthey-collection/jm-news-carousel/index.js:475-479 | corrected: the last indicator from the last page start on, else `floor(currentSlide / slidesToShow)` |
| `NewsCarousel.WrittenIndicatorInRange` | fragment-collection/johnson-matthey-collection/jm-news-carousel/index.js:475-479 | for a slide in range, the written rule lights one of the `ceil(n/slidesToShow)` indicators |
| `NewsCarousel.ActiveIndicatorInRange` | fragment-collection/johnson-matthey-collection/jm-news-carousel/index.js:475-479 | the corrected indicator rule always names one of the `ceil(n/slidesToShow)` indicators |
| `NewsCarousel.IndicatorClickActivates` | fragment-collection/johnson-matthey-collection/jm-news-carousel/index.js:199-212 | corrected: after clicking indicator `i`, which calls `goToSlide(i * slidesToShow)`, indicator `i` is the active one, the last page included |
| `NewsCarousel.ActiveIndicatorSpec` | fragment-collection/johnson-matthey-collection/jm-news-carousel/index.js:475-479 | the corrected indicator rule always names one of the `ceil(n/slidesToShow)` indicators, and clicking indicator `i` makes `i` the active one |
| `NewsCarousel.ActiveIndicatorAtPageStart` | fragment-collection/johnson-matthey-collection/jm-news-carousel/index.js:476 | at every page start the written rule and the corrected rule agree |
| `NewsCarousel.IndicatorTargets` | fragment-collection/johnson-matthey-collection/jm-news-carousel/index.js:199-212 | `ceil(n/slidesToShow)` indicators, indicator `i` jumping to slide `i * slidesToShow` |
| `NewsCarousel.SwipeOf` | fragment-collection/johnson-matthey-collection/jm-news-carousel/index.js:237-246 | a release goes forward iff the touch or mouse moved left by more than 50, and backward iff it moved right by more than 50 |
| `NewsCarousel.TapTurnsPage` | fragment-collection/johnson-matthey-collection/jm-news-carousel/index.js:222-246 | as written: a first touch at x = 200 with no move ends at the stale `currentX` of 0 and turns the page |
| `NewsCarousel.ReleaseAsWritten` | fragment-collection/johnson-matthey-collection/jm-news-carousel/index.js:222-246 | as written: the release is judged from `startX` to the last move, or to the position the previous gesture left when there was no move |
| `NewsCarousel.Release` | fragment-collection/johnson-matthey-collection/jm-news-carousel/index.js:233-246 | corrected: the gesture ends at its last move, or where it started |
| `NewsCarousel.ReleaseOwnGesture` | fragment-collection/johnson-matthey-collection/jm-news-carousel/index.js:233-246 | corrected: a tap never turns the page, and a gesture with moves ends as the written code would end it |
| `NewsCarousel.Carousel.constructor` | fragment-collection/johnson-matthey-collection/jm-news-carousel/index.js:53-110 | with no slides the carousel stays inactive; otherwise the responsive rule picks `slidesToShow`, and the carousel starts at slide 0, not paused |
| `NewsCarousel.Carousel.AriaHidden` | fragment-collection/johnson-matthey-collection/jm-news-carousel/index.js:416-435 | slide `i` is hidden iff it lies outside `[currentSlide, currentSlide + slidesToShow)`; the current slide is shown |
| `NewsCarousel.Carousel.Resize` | fragment-collection/johnson-matthey-collection/jm-news-carousel/index.js:143-157 | below 768 one slide, below 1024 two, otherwise the desktop count; the current slide is then clamped to `max(0, n - slidesToShow)` |
| `NewsCarousel.Carousel.Next` | fragment-collection/johnson-matthey-collection/jm-news-carousel/index.js:355-361 | wrap to 0 from `currentSlide >= n - slidesToShow`, else one page on |
| `NewsCarousel.Carousel.Previous` | fragment-collection/johnson-matthey-collection/jm-news-carousel/index.js:363-369 | the corrected previous: from the start to the last page, else one page back, never below 0 |
| `NewsCarousel.Carousel.PreviousAsWritten` | fragment-collection/johnson-matthey-collection/jm-news-carousel/index.js:363-369 | as written: the slide becomes `PreviousSlideAsWritten` of the old one, above `-slidesToShow` and below `n`, and the carousel stays `Valid` iff it is not negative |
| `NewsCarousel.Carousel.GoTo` | fragment-collection/johnson-matthey-collection/jm-news-carousel/index.js:371-375 | the clamped jump |
| `NewsCarousel.Carousel.ClickPrev` | fragment-collection/johnson-matthey-collection/jm-news-carousel/index.js:163-171 | corrected: prev acts only when not marked disabled (slide 0), and then runs the corrected previous and pauses autoplay |
| `NewsCarousel.Carousel.ClickNext` | fragment-collection/johnson-matthey-collection/jm-news-carousel/index.js:173-181 | next acts only when not marked disabled (`currentSlide >= max(0, n - slidesToShow)`), and then moves forward and pauses autoplay |
| `NewsCarousel.Carousel.ClickIndicator` | fragment-collection/johnson-matthey-collection/jm-news-carousel/index.js:206-210 | indicator `i` jumps to `goToSlide(i * slidesToShow)` and pauses autoplay; corrected: `i` is then the active indicator under the corrected rule |
| `NewsCarousel.Carousel.KeyDown` | fragment-collection/johnson-matthey-collection/jm-news-carousel/index.js:286-309 | ArrowLeft the corrected previous, ArrowRight next, Home slide 0, End the last page; each of them pauses; other keys change nothing |
| `NewsCarousel.Carousel.TouchStart` | fragment-collection/johnson-matthey-collection/jm-news-carousel/index.js:222-226 | a gesture starts dragging and pauses autoplay; the corrected start also resets `currentX` to the start |
| `NewsCarousel.Carousel.TouchMove` | fragment-collection/johnson-matthey-collection/jm-news-carousel/index.js:228-231 | a move is recorded only while dragging |
| `NewsCarousel.Carousel.TouchEnd` | fragment-collection/johnson-matthey-collection/jm-news-carousel/index.js:233-247 | a release while dragging stops dragging, and past the threshold moves next or, corrected, previous |
| `NewsCarousel.Carousel.Pause` | fragment-collection/johnson-matthey-collection/jm-news-carousel/index.js:344-346 | the pause flag is set |
| `NewsCarousel.Carousel.Resume` | fragment-collection/johnson-matthey-collection/jm-news-carousel/index.js:348-353 | the pause flag is cleared |
| `NewsCarousel.Carousel.AutoplayTick` | fragment-collection/johnson-matthey-collection/jm-news-carousel/index.js:333-341 | a tick advances only when autoplay is configured and not paused |
| `NewsCarousel.ViewSpec` | fragment-collection/johnson-matthey-collection/jm-news-carousel/index.js:427-479 | in every valid state exactly `min(slidesToShow, n - currentSlide)` slides are visible, the current one among them; prev is marked disabled iff the first slide is in view and next iff the last one is, which is exactly when next wraps to 0; the indicator the code lights and the corrected one both exist |
| `HoverDropdowns.KeyActionOf` | fragment-collection/ybs-collection/ybs-header/index.js:647-655 | Enter and Space toggle, Escape hides, and every other key is ignored, each in both directions |
| `HoverDropdowns.Menus.constructor` | fragment-collection/johnson-matthey-collection/jm-header/index.js:242-261 | after rendering, no menu is shown, expanded or active |
| `HoverDropdowns.Menus.Hide` | fragment-collection/ybs-collection/ybs-header/index.js:685-689 | `hideDropdown` removes `show`, `aria-expanded` and `active` from menu `m` alone; at most one menu stays shown |
| `HoverDropdowns.Menus.Show` | fragment-collection/ybs-collection/ybs-header/index.js:671-683 | `showDropdown` hides every other shown menu first, so afterwards `m` is the only menu shown, expanded and active |
| `HoverDropdowns.Menus.Toggle` | fragment-collection/ybs-collection/ybs-header/index.js:691-697 | toggling a shown menu leaves none shown; toggling a hidden one leaves exactly that one |
| `HoverDropdowns.Menus.ClickAsWritten` | fragment-collection/ybs-collection/ybs-header/index.js:365-372 | as written on the fallback navigation, two click listeners toggle trigger `m` twice: whether `m` is shown never changes, and every other menu closes |
| `HoverDropdowns.Menus.KeyDownAsWritten` | fragment-collection/ybs-collection/ybs-header/index.js:647-655 | as written on the fallback navigation, two keydown listeners: Enter and Space never change whether `m` is shown, Escape hides `m`, other keys change nothing |
| `HoverDropdowns.Menus.HideAll` | fragment-collection/ybs-collection/ybs-header/index.js:663-666 | hiding every shown menu one by one leaves none shown, and the three facts still agree |
| `HoverDropdowns.Menus.ClickDocument` | fragment-collection/ybs-collection/ybs-header/index.js:659-668 | a click inside the header but not on a dropdown item closes every menu; a click outside the header, or on a dropdown item, changes nothing |
| `HoverDropdowns.Menus.KeyDown` | fragment-collection/ybs-collection/ybs-header/index.js:647-655 | a key on trigger `m` toggles, hides or leaves the menus, as `KeyActionOf` says |
| `HoverDropdowns.MobileMenu.constructor` | fragment-collection/ybs-collection/ybs-header/index.js:699-703 | the panel starts closed, with no sub-item active and no sub-dropdown display set |
| `HoverDropdowns.MobileMenu.Close` | fragment-collection/ybs-collection/ybs-header/index.js:739-745 | closing clears `show`, `aria-expanded` and the body overflow together |
| `HoverDropdowns.MobileMenu.ClickToggle` | fragment-collection/ybs-collection/ybs-header/index.js:705-722 | the toggle flips the panel, and `aria-expanded` and the hidden body overflow follow it |
| `HoverDropdowns.MobileMenu.ClickToggleAsWritten` | fragment-collection/johnson-matthey-collection/jm-header/index.js:397-409 | as written, after `runs` initialisations one click flips the panel `runs` times: it opens or closes iff `runs` is odd, with aria and overflow following |
| `HoverDropdowns.MobileMenu.ClickDocument` | fragment-collection/ybs-collection/ybs-header/index.js:739-745 | a click outside the fragment closes an open panel; inside, the panel is kept |
| `HoverDropdowns.MobileMenu.Resize` | fragment-collection/ybs-collection/ybs-header/index.js:748-754 | a width above 768 closes an open panel; a width of at most 768 keeps it |
| `HoverDropdowns.MobileMenu.ClickSubItem` | fragment-collection/johnson-matthey-collection/jm-header/index.js:413-424 | clicking mobile item `i` flips its `active` class and sets its sub-dropdown to `block` or `none` to match; other items are unchanged |
| `NavItems.Href` | fragment-collection/johnson-matthey-collection/jm-header/index.js:273 | the first truthy of `item.link` and `item.url`, else `#`; never empty |
| `NavItems.Label` | fragment-collection/johnson-matthey-collection/jm-header/index.js:274 | the name when truthy, else the title (absent renders as no text) |
| `NavItems.CreateNavItem` | fragment-collection/johnson-matthey-collection/jm-header/index.js:263-310 | `has-dropdown` iff the item has a non-empty `navigationMenuItems`; the popup arrow only on desktop; one plain child anchor per child, in order |
| `NavItems.RenderNavigation` | fragment-collection/johnson-matthey-collection/jm-header/index.js:242-261 | one desktop and one mobile entry per item, in order; mobile entries never carry the popup and list the same children |
| `NavItems.NavigationSource` | fragment-collection/ybs-collection/ybs-header/index.js:199-215 | the API is asked iff the menu id is a string other than empty, `primary-menu` and `undefined` and the auth token is truthy; the URL then names the menu id and ends with the token |
| `NavItems.LoadNavigation` | fragment-collection/ybs-collection/ybs-header/index.js:199-231 | the API items (the body's `navigationMenuItems`, or none when absent) are rendered iff the fetch went out and succeeded; otherwise the fallback |
| `NavItems.DefaultMenuIdFallsBack` | fragment-collection/ybs-collection/ybs-header/index.js:204 | the default id `primary-menu` always yields the fallback navigation |
| `NavItems.GuardedResponseIrrelevant` | fragment-collection/ybs-collection/ybs-header/index.js:204-213 | when the guard blocks the fetch, any two responses give the same rendering, the fallback |
| `NavItems.CountTrue` | fragment-collection/ybs-collection/ybs-header/index.js:449-450 | the number of items with a dropdown is at most the number of items |
| `NavItems.NumberingIncreasing` | fragment-collection/ybs-collection/ybs-header/index.js:349-450 | the running `currentMegaIndex` gives dropdown items positive, strictly increasing numbers no larger than the dropdown count |
| `NavItems.NumberingZeroIff` | fragment-collection/ybs-collection/ybs-header/index.js:349-450 | an item gets no mega number iff it has no dropdown |
| `NavItems.NumberingOnto` | fragment-collection/ybs-collection/ybs-header/index.js:349-450 | every number from 1 to the dropdown count is given to some dropdown item |
| `YbsHeader.NormalisedPrefix` | fragment-collection/ybs-collection/ybs-header/index.js:296-301 | the configured prefix with `/` added at each end that lacks one; starts and ends with `/`; a prefix that already has both is unchanged |
| `YbsHeader.NormalisedPrefixIdempotent` | fragment-collection/ybs-collection/ybs-header/index.js:296-301 | normalising twice is the same as normalising once |
| `YbsHeader.LastIndexOf` | fragment-collection/ybs-collection/ybs-header/index.js:307 | `lastIndexOf('/')`: -1 or an index holding the character, with none after it |
| `YbsHeader.DirectoryPart` | fragment-collection/ybs-collection/ybs-header/index.js:305-311 | the prefix of the relative URL up to and including its last `/`, empty when there is none |
| `YbsHeader.SiteBasePath` | fragment-collection/ybs-collection/ybs-header/index.js:293-313 | the normalised trimmed prefix when not blank; else the directory part of the relative URL; `/web/guest/` when reading it throws |
| `YbsHeader.ConfiguredBaseIsRooted` | fragment-collection/ybs-collection/ybs-header/index.js:296-301 | a configured prefix gives a base that starts and ends with `/` and does not depend on the relative URL |
| `YbsHeader.BuildPageURL` | fragment-collection/ybs-collection/ybs-header/index.js:319-331 | `#` for empty or `#`; `/web/…` and `http…` paths unchanged; otherwise the base followed by the path without one leading `/` |
| `YbsHeader.LeadingSlashOptional` | fragment-collection/ybs-collection/ybs-header/index.js:327-330 | a relative path and the same path with a leading `/` build the same URL |
| `YbsHeader.LogoHomeLink` | fragment-collection/ybs-collection/ybs-header/index.js:489-494 | the logo link is the base path followed by `home` |
| `YbsHeader.ApiChildren` | fragment-collection/ybs-collection/ybs-header/index.js:380 | the first present of `navigationMenuItems` and `children`, else none: a present `navigationMenuItems` wins, even when empty |
| `YbsHeader.EmptyMenuItemsHideChildren` | fragment-collection/ybs-collection/ybs-header/index.js:380-381 | an empty but present `navigationMenuItems` hides the `children`: no dropdown |
| `YbsHeader.CreateNavItemFromAPI` | fragment-collection/ybs-collection/ybs-header/index.js:378-486 | hrefs go through `buildPageURL`; `has-dropdown` iff there are children; desktop dropdowns carry the popup and the current mega index, mobile ones neither; one child anchor per child, in order |
| `YbsHeader.ApiAnchor` | fragment-collection/ybs-collection/ybs-header/index.js:394-405 | the link: the first truthy of `link` and `url`, else `#`, through `buildPageURL`; the text `name`, else `title`; and a new tab iff `external` |
| `YbsHeader.DropdownFlags` | fragment-collection/ybs-collection/ybs-header/index.js:380-381 | item `k` has a dropdown iff its API children are non-empty |
| `YbsHeader.IndexUnusedWithoutPopup` | fragment-collection/ybs-collection/ybs-header/index.js:421-479 | the counter handed to a mobile item or an item without children does not affect its rendering |
| `YbsHeader.Navigation.constructor` | fragment-collection/ybs-collection/ybs-header/index.js:335 | `currentMegaIndex` starts at 1 |
| `YbsHeader.Navigation.RenderNavigationFromAPI` | fragment-collection/ybs-collection/ybs-header/index.js:340-375 | after a reset to 1, one desktop entry per item numbered by the running counter and one mobile entry per item; the counter ends one past the number of dropdowns |
| `YbsHeader.Navigation.RenderDesktop` | fragment-collection/ybs-collection/ybs-header/index.js:356-359 | the desktop `forEach` numbers the dropdown items in order and advances the counter once per dropdown |
| `YbsHeader.RenderMobile` | fragment-collection/ybs-collection/ybs-header/index.js:362-365 | the mobile `forEach` renders every item without a mega index |
| `YbsHeader.DesktopMegaIndices` | fragment-collection/ybs-collection/ybs-header/index.js:440-479 | two desktop dropdown items get positive mega indices that increase along the list |
| `YbsHeader.ContainsNonBlank` | fragment-collection/ybs-collection/ybs-header/index.js:774-781 | a string holding a marker that starts with a visible character is not blank |
| `YbsHeader.HasRealContentIff` | fragment-collection/ybs-collection/ybs-header/index.js:774-781 | `hasRealContent` holds iff the content is longer than 50 and holds one of the six markers; the `trim()` test is implied |
| `YbsHeader.HasRealContent` | fragment-collection/ybs-collection/ybs-header/index.js:775-781 | `hasRealContent`: not blank, longer than 50, and holding one of the six markers |
| `YbsHeader.MegaAreas.constructor` | fragment-collection/ybs-collection/ybs-header/index.js:440-446 | the rendered mega areas start empty and without `has-content` |
| `YbsHeader.MegaAreas.Synchronise` | fragment-collection/ybs-collection/ybs-header/index.js:760-812 | for dropzones 1..5 whose area exists, the area shows the dropzone content iff it is real content and is cleared otherwise, with `has-content` set to match; all other areas are unchanged |
| `YbsHeader.Shown` | fragment-collection/ybs-collection/ybs-header/index.js:783-803 | what an area shows: the dropzone content when it is real, nothing otherwise |
| `SigmaHeader.IsInEditMode` | fragment-collection/sigma-pharmaceuticals-collection/sigma-header/index.js:70-95 | edit mode iff (`has-edit-mode-menu` or `is-edit-mode`) and (a page editor or editable elements); afterwards the body carries `has-edit-mode-menu` iff in edit mode |
| `SigmaHeader.EditModeStable` | fragment-collection/sigma-pharmaceuticals-collection/sigma-header/index.js:70-95 | checking again gives the same verdict and leaves the page as the first check left it |
| `SigmaHeader.StartupNavigation` | fragment-collection/sigma-pharmaceuticals-collection/sigma-header/index.js:23-68 | edit mode renders the sample navigation; in live mode API items are rendered iff the guard let the fetch go out and it succeeded |
| `SigmaHeader.RootedPath` | fragment-collection/sigma-pharmaceuticals-collection/sigma-header/index.js:311 | the url with a leading `/` added when it lacks one |
| `SigmaHeader.AddSitePrefix` | fragment-collection/sigma-pharmaceuticals-collection/sigma-header/index.js:306-312 | with no prefix, or for an `http` or `#` url, the url unchanged; otherwise the prefix followed by the url rooted at `/` |
| `SigmaHeader.PrefixedShape` | fragment-collection/sigma-pharmaceuticals-collection/sigma-header/index.js:306-312 | the result always ends with the url; when prefixed, it starts with the prefix and a `/` |
| `SigmaHeader.PrefixSlashOptional` | fragment-collection/sigma-pharmaceuticals-collection/sigma-header/index.js:311 | a url and the same url with a leading `/` get the same prefixed form |
| `SigmaHeader.ApiKids` | fragment-collection/sigma-pharmaceuticals-collection/sigma-header/index.js:294-298 | the children descended into are structurally smaller than the item |
| `SigmaHeader.TransformAPINavItem` | fragment-collection/sigma-pharmaceuticals-collection/sigma-header/index.js:287-301 | the name is the first truthy of name and title, else `Unnamed`; the url is the prefixed href; `children` is present iff a non-empty `navigationMenuItems` or `children` exists, and then holds one transformed child per child, in order |
| `SigmaHeader.NodeKids` | fragment-collection/sigma-pharmaceuticals-collection/sigma-header/index.js:294-298 | the children of a transformed node are structurally smaller than it |
| `SigmaHeader.TransformKeepsCount` | fragment-collection/sigma-pharmaceuticals-collection/sigma-header/index.js:287-301 | the transformation keeps the number of items in the whole tree |
| `SigmaHeader.TransformWellNamed` | fragment-collection/sigma-pharmaceuticals-collection/sigma-header/index.js:289 | every node in a transformed tree has a non-empty name |
| `SigmaHeader.TransformAll` | fragment-collection/sigma-pharmaceuticals-collection/sigma-header/index.js:275-282 | `menuItems.map`: one transformed node per API item, in order |
| `SigmaHeader.NodeFlags` | fragment-collection/sigma-pharmaceuticals-collection/sigma-header/index.js:334 | item `k` has a dropdown iff its `children` are present and non-empty |
| `SigmaHeader.CreateNavItem` | fragment-collection/sigma-pharmaceuticals-collection/sigma-header/index.js:359-395 | the link and the name of the node, without popup attributes; `has-dropdown` and `data-mega-menu-id` only with children, with one child link per child |
| `SigmaHeader.RenderNavigation` | fragment-collection/sigma-pharmaceuticals-collection/sigma-header/index.js:317-357 | one entry per node, in order; the `++dropdownIndex` counter gives the dropdown items the numbers 1, 2, 3, ... and the rest 0 |
| `SigmaHeader.Dropdowns.constructor` | fragment-collection/sigma-pharmaceuticals-collection/sigma-header/index.js:429-437 | after rendering no item is shown |
| `SigmaHeader.Dropdowns.Close` | fragment-collection/sigma-pharmaceuticals-collection/sigma-header/index.js:498-507 | closing an item removes `show` from it and its menu alone |
| `SigmaHeader.Dropdowns.CloseAll` | fragment-collection/sigma-pharmaceuticals-collection/sigma-header/index.js:498-507 | `closeAllDropdowns` leaves no item or menu shown |
| `SigmaHeader.Dropdowns.MouseEnter` | fragment-collection/sigma-pharmaceuticals-collection/sigma-header/index.js:439-455 | entering item `m` closes the others and leaves `m` the only one shown |
| `SigmaHeader.Dropdowns.MouseLeave` | fragment-collection/sigma-pharmaceuticals-collection/sigma-header/index.js:457-460 | leaving item `m` hides `m` alone |
| `SigmaHeader.Dropdowns.Toggle` | fragment-collection/sigma-pharmaceuticals-collection/sigma-header/index.js:483-494 | toggling an open item closes everything; toggling a closed one leaves only it open |
| `SigmaHeader.Dropdowns.ClickDocument` | fragment-collection/sigma-pharmaceuticals-collection/sigma-header/index.js:471-477 | a click outside every dropdown item closes all; a click on one changes nothing |
| `SigmaHeader.MegaMenuNumber` | fragment-collection/sigma-pharmaceuticals-collection/sigma-header/index.js:659-661 | the leftmost `Mega Menu (\d+)` match yields a non-empty run of digits |
| `SigmaHeader.LabelNumber` | fragment-collection/sigma-pharmaceuticals-collection/sigma-header/index.js:659-661 | the label `Mega Menu n` yields the digits of `n` |
| `SigmaHeader.MegaMenuId` | fragment-collection/sigma-pharmaceuticals-collection/sigma-header/index.js:654-666 | the truthy `data-mega-key`; else the number in the trimmed label; else the position plus one |
| `SigmaHeader.LabelledDropzoneId` | fragment-collection/sigma-pharmaceuticals-collection/sigma-header/index.js:654-666 | a dropzone labelled `Mega Menu n` without a key resolves to `n`, whatever its position |
| `SigmaHeader.ObservedMegaMenuId` | fragment-collection/sigma-pharmaceuticals-collection/sigma-header/index.js:692-706 | the observer uses the key or the label number, and copies nothing when it has neither |
| `SigmaHeader.ObservedAgrees` | fragment-collection/sigma-pharmaceuticals-collection/sigma-header/index.js:692-706 | whenever the observer finds an id, it is the id the initial copy used |
| `SigmaHeader.FindItem` | fragment-collection/sigma-pharmaceuticals-collection/sigma-header/index.js:726-727 | `querySelector` by `data-mega-menu-id`: the first dropdown item whose number renders as the id, or none when no item has it |
| `SigmaHeader.DropdownNumbersResolve` | fragment-collection/sigma-pharmaceuticals-collection/sigma-header/index.js:330-336 | each dropdown number `n` resolves to the item that was rendered with number `n` |
| `SigmaHeader.ContentChildren` | fragment-collection/sigma-pharmaceuticals-collection/sigma-header/index.js:744-759 | the kept children: every child kept is a non-placeholder with text, and every such child is kept |
| `SigmaHeader.ContentChildrenCount` | fragment-collection/sigma-pharmaceuticals-collection/sigma-header/index.js:744-759 | each kept child appears as often as in the dropzone, every other child not at all |
| `SigmaHeader.ContentChildrenSnoc` | fragment-collection/sigma-pharmaceuticals-collection/sigma-header/index.js:744-759 | one more child is appended to the result iff it is kept |
| `SigmaHeader.ContentChildrenAppend` | fragment-collection/sigma-pharmaceuticals-collection/sigma-header/index.js:744-759 | filtering a concatenation is the concatenation of the filtered runs, so document order is kept |
| `SigmaHeader.ContentChildrenSingle` | fragment-collection/sigma-pharmaceuticals-collection/sigma-header/index.js:744-759 | a single child is kept alone or dropped |
| `SigmaHeader.Keep` | fragment-collection/sigma-pharmaceuticals-collection/sigma-header/index.js:744-759 | a dropzone child is kept iff not blank, not the "Drop content here" placeholder, and, when a portlet, with non-blank portlet content |
| `SigmaHeader.CopyStepFrame` | fragment-collection/sigma-pharmaceuticals-collection/sigma-header/index.js:724-781 | a copy step changes no item other than the one the id names |
| `SigmaHeader.CopyStep` | fragment-collection/sigma-pharmaceuticals-collection/sigma-header/index.js:724-781 | one copy: nothing changes without a matching item or an `lfr-drop-zone`; otherwise the old container goes and a new one holds the kept children, if any |
| `SigmaHeader.CopyAll` | fragment-collection/sigma-pharmaceuticals-collection/sigma-header/index.js:649-672 | the copies of the dropzones in document order, each to the id its key, label or position gives |
| `SigmaHeader.LabelledZoneLands` | fragment-collection/sigma-pharmaceuticals-collection/sigma-header/index.js:649-781 | a dropzone labelled `Mega Menu n` with content fills exactly the `n`-th dropdown item, and no other |
| `SigmaHeader.MegaContent.constructor` | fragment-collection/sigma-pharmaceuticals-collection/sigma-header/index.js:359-395 | rendered items start without mega content |
| `SigmaHeader.MegaContent.CopyDropzoneContentToMenu` | fragment-collection/sigma-pharmaceuticals-collection/sigma-header/index.js:724-781 | the named item's old container is dropped and a new one holds the kept children, if any; nothing changes without a matching item or an `lfr-drop-zone`; no container is ever empty |
| `SigmaHeader.MegaContent.InitializeMegaMenuContent` | fragment-collection/sigma-pharmaceuticals-collection/sigma-header/index.js:649-672 | each dropzone in turn is copied to the id its key, label or position gives |
| `SigmaHeader.LogoHref` | fragment-collection/sigma-pharmaceuticals-collection/sigma-header/index.js:637-644 | with a prefix the logo points to the prefixed site root; without one its href is kept |
| `JmHeader.EditModeMonotone` | fragment-collection/johnson-matthey-collection/jm-header/index.js:105-129 | adding edit-mode indicators never turns edit mode off |
| `JmHeader.IsInEditMode` | fragment-collection/johnson-matthey-collection/jm-header/index.js:105-129 | either body class, or the control menu together with a page editor or an editable processor |
| `JmHeader.EditModeRendersSample` | fragment-collection/johnson-matthey-collection/jm-header/index.js:68-92 | in edit mode the sample is rendered whatever the token and the API answer; a page whose only indicator is the control menu is live and, with a token, renders what the API returns |
| `JmHeader.FetchLiferayNavigation` | fragment-collection/johnson-matthey-collection/jm-header/index.js:157-182 | the first menu's `navigationMenuItems` (none when absent) are rendered iff the request succeeded and listed at least one menu; the sample otherwise |
| `JmHeader.LaterMenusIgnored` | fragment-collection/johnson-matthey-collection/jm-header/index.js:170-173 | menus after the first never change what is rendered |
| `JmHeader.InitialNavigation` | fragment-collection/johnson-matthey-collection/jm-header/index.js:68-103 | API items are rendered iff not in edit mode, `window.Liferay.authtoken` is truthy, and the fetch lists a menu |
| `JmHeader.FetchUrlAsWritten` | fragment-collection/johnson-matthey-collection/jm-header/index.js:158-162 | as written: the request is the literal single-quoted URL, placeholder included, with `&p_auth=` and the token after it |
| `JmHeader.AsWrittenIgnoresSite` | fragment-collection/johnson-matthey-collection/jm-header/index.js:160 | as written: sites 20121 and 20122 request the same URL |
| `JmHeader.FetchUrl` | fragment-collection/johnson-matthey-collection/jm-header/index.js:160 | corrected: the URL names the site's group id between `/sites/` and `/navigation-menus` |
| `JmHeader.FetchUrlSiteScoped` | fragment-collection/johnson-matthey-collection/jm-header/index.js:160 | corrected: two sites request the same URL iff they are the same site |
| `JmFooter.GetFragmentConfiguration` | fragment-collection/johnson-matthey-collection/jm-footer/index.js:61-90 | without a configuration the defaults; with one, each flag is kept unless undefined, and each text field is kept unless falsy |
| `JmFooter.EmptyConfigIsDefault` | fragment-collection/johnson-matthey-collection/jm-footer/index.js:65-75 | a configuration whose flags are undefined and whose text fields are falsy behaves like none |
| `JmFooter.FalseFlagKept` | fragment-collection/johnson-matthey-collection/jm-footer/index.js:68 | an explicit `false` for `showSocialMedia` is kept and not replaced by the default `true` |
| `JmFooter.TextFieldsNonEmpty` | fragment-collection/johnson-matthey-collection/jm-footer/index.js:69-74 | the company name, style, layout and newsletter service are never empty |
| `JmFooter.NewsletterDisplayAsWritten` | fragment-collection/johnson-matthey-collection/jm-footer/index.js:216-229 | as written: the newsletter section is hidden iff it is switched off and the form is absent |
| `JmFooter.NewsletterDisplay` | fragment-collection/johnson-matthey-collection/jm-footer/index.js:112-115 | corrected: the newsletter section shows iff `showNewsletter` is on |
| `JmFooter.DisabledNewsletterShown` | fragment-collection/johnson-matthey-collection/jm-footer/index.js:216-229 | as written: a switched-off newsletter is shown whenever the form is present, and with no configuration it is switched off |
| `JmFooter.NewsletterFollowsConfig` | fragment-collection/johnson-matthey-collection/jm-footer/index.js:112-115 | the corrected display hides exactly the switched-off newsletter, the default included, and agrees with the written one when the newsletter is on |
| `JmFooter.BackToTopButton.constructor` | fragment-collection/johnson-matthey-collection/jm-footer/index.js:147-157 | the button is visible iff the initial scroll offset is above 500, and `aria-hidden` says the opposite |
| `JmFooter.BackToTopButton.Toggle` | fragment-collection/johnson-matthey-collection/jm-footer/index.js:147-157 | after a scroll the button is visible iff the offset is above 500; `aria-hidden` is its negation |
| `JmFooter.EmptyTestRedundant` | fragment-collection/johnson-matthey-collection/jm-footer/index.js:237 | the `!email` test adds nothing: the guard rejects exactly the invalid addresses |
| `JmFooter.Newsletter.constructor` | fragment-collection/johnson-matthey-collection/jm-footer/index.js:273-296 | the form starts with no message and no subscription |
| `JmFooter.Newsletter.ShowNewsletterMessage` | fragment-collection/johnson-matthey-collection/jm-footer/index.js:273-296 | the old message is removed; the new one is kept only when the form exists |
| `JmFooter.Newsletter.HandleNewsletterSubmission` | fragment-collection/johnson-matthey-collection/jm-footer/index.js:231-264 | the trimmed value is subscribed iff it is a valid address; otherwise the error message is the only message and nothing is subscribed |
| `JmFooter.Newsletter.ConfirmSubscription` | fragment-collection/johnson-matthey-collection/jm-footer/index.js:254-255 | the success message replaces any other, when the form exists |
| `JmFooter.PaddingIgnored` | fragment-collection/johnson-matthey-collection/jm-footer/index.js:236-237 | a valid address surrounded by whitespace passes the guard |
| `JmFooter.GetSocialPlatform` | fragment-collection/johnson-matthey-collection/jm-footer/index.js:359-365 | the first of linkedin, youtube, instagram and twitter that occurs in the url, else `unknown`, each in both directions |
| `JmFooter.PlatformNamedInUrl` | fragment-collection/johnson-matthey-collection/jm-footer/index.js:359-365 | a platform other than `unknown` is named in the url |
| `SigmaForms.ValidateOnSubmit` | sigma-js-client-extension/assets/global.js:320-356 | a required control is marked invalid iff it is blank or an e-mail input whose value the pattern rejects; other controls keep their mark; the submit is prevented iff some required control is invalid, and the focus then goes to the first marked control |
| `SigmaForms.RequiredInvalid` | sigma-js-client-extension/assets/global.js:329-343 | a required control is marked invalid iff it is blank after trimming, or an e-mail input with a value the pattern rejects |
| `SigmaForms.FirstTrue` | sigma-js-client-extension/assets/global.js:348 | `querySelector`: the first marked index, or none when no control is marked |
| `SigmaForms.OptionalControlsNeverBlock` | sigma-js-client-extension/assets/global.js:326 | a form without required controls is never prevented |
| `SigmaForms.PaddedEmailRejected` | sigma-js-client-extension/assets/global.js:337-343 | the pattern is applied to the untrimmed value: a valid address typed after a space blocks the submit |
| `SigmaForms.ParseInt` | sigma-js-client-extension/assets/global.js:367 | `parseInt`: leading white space, an optional sign, then the longest run of decimal digits; NaN (none) iff there is no digit |
| `SigmaForms.ParseIntRoundTrip` | sigma-js-client-extension/assets/global.js:367 | `parseInt` reads back the decimal rendering of every natural number |
| `SigmaForms.SizeLimit` | sigma-js-client-extension/assets/global.js:367 | a missing, unparsable or zero limit falls back to 5; the limit is never 0 |
| `SigmaForms.SizeLimitOfNumber` | sigma-js-client-extension/assets/global.js:367 | a limit attribute holding `n` gives `n`, or 5 when `n` is 0 |
| `SigmaForms.FileType` | sigma-js-client-extension/assets/global.js:380 | the MIME type when there is one, else the part of the name after its last `.`, which holds no `.` |
| `SigmaForms.SplitTrailingSeparator` | sigma-js-client-extension/assets/global.js:379 | `split` on text ending in the separator gives the split of the rest followed by one empty piece |
| `SigmaForms.TrailingCommaAcceptsAll` | sigma-js-client-extension/assets/global.js:378-386 | as written: with a trailing comma in the allowed types, every file type passes, since the empty entry occurs in every string |
| `SigmaForms.TypeAllowedAsWritten` | sigma-js-client-extension/assets/global.js:378-386 | as written: some comma-separated entry, trimmed, occurs in the file type |
| `SigmaForms.TrimmedTypes` | sigma-js-client-extension/assets/global.js:379-381 | the corrected type list holds no empty entry |
| `SigmaForms.TrimmedTypesKeep` | sigma-js-client-extension/assets/global.js:379-381 | every non-blank entry is kept, trimmed |
| `SigmaForms.TrimmedTypesSource` | sigma-js-client-extension/assets/global.js:379-381 | every kept type is the trimmed form of some entry |
| `SigmaForms.TrailingCommaIgnored` | sigma-js-client-extension/assets/global.js:378-386 | corrected: a trailing comma does not change which files are allowed |
| `SigmaForms.TypeAllowed` | sigma-js-client-extension/assets/global.js:378-386 | corrected: blank entries are ignored, and some remaining entry occurs in the file type (a list of blanks restricts nothing) |
| `SigmaForms.CorrectedTypeImpliesWritten` | sigma-js-client-extension/assets/global.js:378-386 | every type the corrected test allows, the written test allows too |
| `SigmaForms.CorrectionAgreesWithoutBlanks` | sigma-js-client-extension/assets/global.js:378-386 | when no entry is blank, the corrected test agrees with the code as written, in both directions |
| `SigmaForms.CheckFile` | sigma-js-client-extension/assets/global.js:361-392 | corrected: no file, or too large iff above the limit in MiB, or rejected iff within the limit and the non-empty type list does not allow it under the corrected type test, else kept |
| `SigmaForms.CheckFileAsWritten` | sigma-js-client-extension/assets/global.js:361-392 | as written: no file, too large iff above the limit in MiB, rejected iff within the limit and the written type test fails, else kept |
| `SigmaForms.TrailingCommaKeepsAnyFile` | sigma-js-client-extension/assets/global.js:378-386 | as written: with a trailing comma in the types, every file within the size limit is kept, whatever its type |
| `SigmaForms.CheckFileCorrectionOnlyRejects` | sigma-js-client-extension/assets/global.js:361-392 | the corrected handler differs from the written one only by rejecting a file the written one keeps, and agrees with it when no entry of the list is blank |
| `SigmaForms.DefaultLimitBoundary` | sigma-js-client-extension/assets/global.js:367-375 | with no limit attribute, exactly 5 MiB is kept and one byte more is too large |
| `SigmaForms.FormId` | sigma-js-client-extension/assets/global.js:399 | the form id, or `sigma-form-` and the clock when it has none; never empty |
| `SigmaForms.Key` | sigma-js-client-extension/assets/global.js:404 | `formId + '-' + name`: its length is the two lengths plus one |
| `SigmaForms.KeyInjective` | sigma-js-client-extension/assets/global.js:405 | within one form, different names get different keys |
| `SigmaForms.SaveAllFrame` | sigma-js-client-extension/assets/global.js:412-418 | keys that no saved control writes keep their values; no password value is written |
| `SigmaForms.SaveAll` | sigma-js-client-extension/assets/global.js:412-418 | the store after saving: each named, non-password control writes its value under `formId-name`, in order; see `SaveAllFrame` and `SaveAllStores` |
| `SigmaForms.Restored` | sigma-js-client-extension/assets/global.js:404-409 | a control's value after loading: the truthy saved value under its key unless it is a password input, else its current value |
| `SigmaForms.LoadThrows` | sigma-js-client-extension/assets/global.js:405-406 | the assignment throws exactly at a file input whose saved value is truthy |
| `SigmaForms.FirstThrow` | sigma-js-client-extension/assets/global.js:403-408 | the first control at which loading throws, or the number of controls: no earlier control throws, and the one found does |
| `SigmaForms.SaveAllStores` | sigma-js-client-extension/assets/global.js:412-418 | with distinct names, each saved control's key holds its value after saving |
| `SigmaForms.AutoSaveRoundTrip` | sigma-js-client-extension/assets/global.js:403-418 | saving and then loading gives every named, non-password control with a non-empty value its value back, and loading throws at that control iff it is a file input |
| `SigmaForms.SavedFileInputThrows` | sigma-js-client-extension/assets/global.js:403-418 | as written: once a named file input's value was saved, every later load throws at that control or before it |
| `SigmaForms.IdlessKeysDiffer` | sigma-js-client-extension/assets/global.js:399 | an id-less form loaded at two different times stores its fields under keys that never coincide, whatever the field names |
| `SigmaForms.IdlessFormForgets` | sigma-js-client-extension/assets/global.js:399-409 | as written: what an id-less form saved at one load is never restored at a later load; the control keeps its current value |
| `SigmaForms.AutoSaveForm.constructor` | sigma-js-client-extension/assets/global.js:399-401 | the form starts with its fields, values and store |
| `SigmaForms.AutoSaveForm.LoadSaved` | sigma-js-client-extension/assets/global.js:403-408 | as written: the controls before the first file input with a truthy saved value take their truthy saved value unless they are password inputs; loading throws iff such a file input exists, and it and every later control keep their values |
| `SigmaForms.AutoSaveForm.LoadSavedSkippingFiles` | sigma-js-client-extension/assets/global.js:403-408 | corrected: file inputs are skipped and every other control takes its restored value, with no early stop |
| `SigmaForms.AutoSaveForm.SaveData` | sigma-js-client-extension/assets/global.js:412-418 | the store afterwards is the old store with every named, non-password control's value written |
| `SigmaForms.AutoSaveForm.ClearSaved` | sigma-js-client-extension/assets/global.js:425-431 | the keys of all named controls, passwords included, are removed, and nothing else |
| `SigmaForms.AutoSaveForm.SubmitAsWritten` | sigma-js-client-extension/assets/global.js:423-430 | as written, for a form with both validation and auto-save: the submit is prevented iff a required control is invalid, and the saved values are cleared either way |
| `SigmaForms.AutoSaveForm.Submit` | sigma-js-client-extension/assets/global.js:423-430 | corrected: the submit is prevented iff a required control is invalid, and the saved values are cleared only when it is not |

## Left out

- File contents, permissions and timestamps are opaque values; zip compression, directory entries and archive byte layout are not modelled, only the list of entries written.
- Console output of the scripts (`print`) and of the fragments (`console.log`) is not modelled; it changes no state.
- HTTP requests are not performed: status codes, bodies and network failures are inputs, and a request is modelled by the values it would carry.
- Timers are not modelled: the carousel's `setInterval`, the orders table's `setTimeout`, debounce and throttle helpers, and the delayed re-initialisation after rendering. Each callback is a method the caller invokes.
- `MutationObserver` scheduling is not modelled; only the rule by which a change picks the mega menu it copies to is kept.
- Pixel geometry is not modelled: carousel widths, `translateX` offsets and element sizes. So are floating-point prices, costs and order totals, which are carried through as `real` without rounding.
- Window-level wiring is not modelled: `DOMContentLoaded`, single-page-app navigation listeners, and the helpers that find elements. The modelled state is the set of DOM facts each handler reads or writes.
- The search and login modals of the three headers, and the edit-mode display helpers, are not modelled; they only toggle CSS classes.
- The Sigma header's mobile menu rendering (`createMobileNavItem`) and `applyConfiguration` display toggles are not modelled; they copy fields into elements.
- The footer's auto-removal of the success message after 5 seconds, `form.reset()`, the button's loading state and the analytics hooks are not modelled.
- `clean_debug.py`, `test_api_auth.py`, the chart, hero, card, panel, title and share-price fragments, and the Java role contributor under `modules/` are not part of this model.
- `SigmaForms.ParseInt` models decimal `parseInt` only; the `0x` hexadecimal prefix that JavaScript also accepts is not modelled.
- `Text.ToLower` and `Text.ToUpper` map ASCII letters only; JavaScript and Python also case-map other Unicode letters.
- `OrdersTable.Table.constructor`: requires the parsed `rowsPerPage` attribute to be non-negative when it is a number; a negative setting, which the source would pass through to the slicing, is not modelled.
- `OrdersTable.SortOrders`: sorting by `products` treats every pair of orders as equal, so their order is kept (`OrdersTable.ProductsSortKeepsOrder`). The source compares `String(products)`, which tells orders apart only by how many products they list. Order dates are compared as ISO `yyyy-mm-dd` text, which orders them as `new Date` does.
- `NewsCarousel.Carousel.constructor`: requires a desktop slide count of at least 1; a configured 0 or a non-numeric value is not modelled.
- `NewsCarousel.Carousel.Resize`: indicators are created once at start-up in the source, while `slidesToShow` changes on resize; the model keeps the indicator count tied to the current `slidesToShow`.
- `SigmaBuild.Build`: the client extension is looked for under `sigma-frontend-client-extension`, the directory name the script uses, although the extension in the repository sits in `sigma-js-client-extension`.
- `JmHeader.InitialNavigation`: the header reads `window.Liferay.authtoken` with a lower-case `t`, while Liferay provides `authToken`; the model follows the code, where the name is an input.
- `NewsCarousel.Carousel.ClickPrev`: runs the corrected previous, which never goes below slide 0; the written one can, see `NewsCarousel.Carousel.PreviousAsWritten` and `NewsCarousel.PreviousAgreement`.
- `NewsCarousel.Carousel.KeyDown`: ArrowLeft runs the corrected previous; as written it can leave slide 0 for a negative slide, see `NewsCarousel.PreviousSlideGoesNegative`.
- `NewsCarousel.Carousel.TouchStart`: resets `currentX` to the start of the gesture, which `touchstart` and `mousedown` (jm-news-carousel/index.js:222-226, 250-255) do not; the written release is `NewsCarousel.ReleaseAsWritten`, and `NewsCarousel.TapTurnsPage` shows the stale `currentX` turning a page.
- `NewsCarousel.Carousel.TouchEnd`: a backward swipe runs the corrected previous, and the release compares against the corrected start of the gesture; see `NewsCarousel.TapTurnsPage` for the written one.
- `NewsCarousel.Carousel.ClickIndicator`: states that the clicked indicator is lit under the corrected rule; as written another one can be lit, see `NewsCarousel.LastIndicatorLightsAnother`.
- `NewsCarousel.Carousel.Valid`: its `0 <= currentSlide` holds only because the model's previous is the corrected one; `NewsCarousel.Carousel.PreviousAsWritten` keeps it iff the slide it reaches is not negative.
- `SigmaForms.CheckFile`: uses the corrected type test that ignores blank entries; the written handler is `SigmaForms.CheckFileAsWritten`, and `SigmaForms.CheckFileCorrectionOnlyRejects` relates the two.
- `YbsHeader.HasRealContent`: the length test counts characters; JavaScript's `length` counts UTF-16 code units, so text outside the Basic Multilingual Plane is counted shorter here.
- `SigmaForms.AutoSaveForm.SubmitAsWritten`: the two submit listeners are composed in the order they are registered; event dispatch itself is not modelled.
- `JmFooter.NewsletterDisplayAsWritten`: only the inline display of the newsletter section is modelled; a missing section, which both writers skip, is not.
- `SigmaForms.AutoSaveForm.LoadSaved`: reports the throw at a file input and stops there; what the exception then skips in the source (the save and clear listeners of that form, the later auto-save forms, and the rest of `initSigma` after `Sigma.forms.init`) is not modelled.
- Python's `in` on values that are neither a dictionary, a list nor a string raises `TypeError`; the model represents this as the `Crashed` outcome instead of an exception that escapes.

## Findings

| source | as written | input that shows it | evidently intended | confidence | as-written member | corrected member |
|---|---|---|---|---|---|---|
| fragment-collection/johnson-matthey-collection/jm-news-carousel/index.js:363-369 | `previousSlide` goes back by `slidesToShow` with no lower bound, so `currentSlide` can become negative | 5 slides, 3 shown: End (slide 2), then ArrowLeft gives slide -1; 2 slides, 3 shown: ArrowLeft at slide 0 gives -1 | the slide stays within `[0, max(0, n - slidesToShow)]` | high, not executed | `NewsCarousel.PreviousSlideGoesNegative` | `NewsCarousel.MovesStayOnSlides` |
| fragment-collection/johnson-matthey-collection/jm-news-carousel/index.js:199-212 | indicator `i` jumps to `goToSlide(i * slidesToShow)`, which clamps the last page, and the indicator lit is `floor(currentSlide / slidesToShow)` | 5 slides, 3 shown: clicking the second indicator moves to slide 2, which lights the first indicator | the clicked indicator is the one lit | high, not executed | `NewsCarousel.LastIndicatorLightsAnother` | `NewsCarousel.ActiveIndicatorSpec` |
| fragment-collection/johnson-matthey-collection/jm-news-carousel/index.js:222-246 | `touchstart` and `mousedown` set `startX` but not `currentX`, so a release without a move compares against a stale `currentX` | a first touch at x = 200 without a move: the difference is 200, above the threshold of 50, and the carousel goes to the next page | a tap without movement does not turn the page | high, not executed | `NewsCarousel.TapTurnsPage` | `NewsCarousel.ReleaseOwnGesture` |
| fragment-collection/johnson-matthey-collection/jm-header/index.js:160 | the menus URL is in single quotes, so the `${themeDisplay.getScopeGroupId()}` placeholder is sent literally | sites 20121 and 20122 request the same URL | the URL names the current site's group id | high, not executed | `JmHeader.AsWrittenIgnoresSite` | `JmHeader.FetchUrlSiteScoped` |
| sigma-js-client-extension/assets/global.js:378-386 | a blank entry of `data-allowed-types` trims to the empty string, which every file type includes | `data-allowed-types="pdf,"` with a `.exe` file: the second entry is empty, so the file is allowed | blank entries are ignored | medium, not executed | `SigmaForms.TrailingCommaAcceptsAll` | `SigmaForms.TrailingCommaIgnored` |
| fragment-collection/ybs-collection/ybs-header/index.js:365-372 | `loadFallbackNavigation` renders the menu synchronously before the `initializeDropdowns()` of line 72, and the delayed call after rendering binds the same triggers again, so each trigger has two click listeners and two keydown listeners | default configuration (`navigationMenuId` is `primary-menu`): a click, or Enter or Space, on a closed menu's trigger shows and then hides it, so the menu never opens by click or keyboard (`HoverDropdowns.Menus.KeyDownAsWritten` for the keys) | one click toggles the menu once | medium, not executed | `HoverDropdowns.Menus.ClickAsWritten` | `HoverDropdowns.Menus.Toggle` |
| sigma-js-client-extension/assets/global.js:399 | a form without an `id` is keyed by `'sigma-form-' + Date.now()`, a new key at every load | a form with no `id`, saved at time 1 and reloaded at time 2: the saved values sit under `sigma-form-1-…` and the load reads `sigma-form-2-…` | an id-less form keeps a stable key across loads | medium, not executed | `SigmaForms.IdlessFormForgets` | `SigmaForms.AutoSaveRoundTrip` |
| sigma-js-client-extension/assets/global.js:423-430 | the clearing listener, described as running "on successful submit", runs on every submit, also one the validation listener prevented (lines 346-347) | a form with `data-sigma-validate` and `data-sigma-autosave` and one blank required field: the submit is prevented and the saved values are removed | saved values are cleared only when the submit goes through | medium, not executed | `SigmaForms.AutoSaveForm.SubmitAsWritten` | `SigmaForms.AutoSaveForm.Submit` |
| fragment-collection/johnson-matthey-collection/jm-footer/index.js:226-228 | `initializeNewsletter` sets the section to `block` after `applyConfiguration` set it from `showNewsletter` (lines 113-115) | no configuration at all: `showNewsletter` defaults to `false`, yet the section is shown | `applyConfiguration` (113-115) and `initializeNewsletter` (224-228) disagree; the comment there says "Show newsletter section if configured (this could be controlled by fragment configuration)" and then "For now, we'll show it by default", calling the default a stop-gap, so this reads the configured display as intended, not established | low, not executed | `JmFooter.DisabledNewsletterShown` | `JmFooter.NewsletterFollowsConfig` |
| fragment-collection/johnson-matthey-collection/jm-header/index.js:397 | `initializeMobileMenu` adds a click listener to the static mobile toggle on every run of `initializeHeader`, which runs again on `allPortletsReady`, `pageEditorModeChanged`, `navigate`, `hashchange` and body-class changes (lines 28-58) | after one hash change the toggle has two listeners, and a click opens and closes the panel at once | one click flips the panel once | medium, not executed | `HoverDropdowns.MobileMenu.ClickToggleAsWritten` | `HoverDropdowns.MobileMenu.ClickToggle` |
| sigma-js-client-extension/assets/global.js:403-408 | the load assigns every truthy saved value to `input.value` for any control but a password, file inputs included, whose saved value is the chosen file's path; a file input refuses a non-empty value and throws | a form with an `id` and one named file input: choose a file (which saves its path), reload: the load throws at that control | file inputs are left out of the load, as passwords are | medium, not executed | `SigmaForms.SavedFileInputThrows` | `SigmaForms.AutoSaveForm.LoadSavedSkippingFiles` |
