# Product catalog table: a Dafny model

`main.js` drives a browser page that fetches products from the Platzi fake-store API
(`https://api.escuelajs.co/api/v1/products`) and shows them in a paged table. The page
has a title search, four sort buttons (price/name, ascending/descending), a reset
button, previous/next page buttons and a page-size selector. This project models the
logic under the DOM code and proves what it computes:

- **View state** (`catalog.dfy`, module `Catalog`). The class `CatalogView` holds the
  page's five variables: `allProducts`, `filteredProducts`, `currentPage`,
  `itemsPerPage` and `currentSort`. The two product lists are `array<Product>`
  references, so the page's aliasing is kept. After a load, `filteredProducts` *is*
  `allProducts`, and a sort issued before any search reorders the full list in place.
  Each handler is a method with a frame and a contract that states the new state:
  - load (the success branch of `getAll`);
  - search;
  - the two sorts;
  - reset;
  - previous/next page;
  - page size.

  The derived page rows and the button states are functions of the state.
- **Search and sort** (`query.dfy`, module `Query`):
  - the search term and the title filter;
  - the comparators of the four sorts, proved to be strict weak orders;
  - a stable insertion sort `SortSeq`, which gives the result of `Array.prototype.sort`;
  - lemmas on these: the filter keeps order and multiplicities, the sort gives a sorted
    permutation, the sort is stable, sorting twice changes nothing, and without ties
    descending is the reverse of ascending.
- **Paging** (`paging.dfy`, module `Paging`): `Array.prototype.slice`, the page slice,
  `Math.ceil(n / perPage)`, page sizes, and the fact that the pages in order
  reassemble the list.
- **Image URL** (`image_url.dfy`, module `ImageUrl`):
  - the choice of image field;
  - `cleanImageUrl`, with the regular expression `/^(https?:\/\/[^\s"']+)/i` written as
    an explicit prefix scan;
  - proofs that cleaning keeps the leading URL run unless the run contains
    `placeimg.com` or `via.placeholder.com` anywhere in the matched URL
    (case-sensitive), that every cleaned URL has one of three shapes and is never
    empty, and that it is a fixed point of cleaning.
- **Cells** (`cells.dfy`, module `Cells`): the description and price cell texts.
- `text.dfy` (module `Text`) has the string primitives: ECMAScript white space and
  `trim`, an ASCII case fold, `startsWith`, `includes`, and a code-point lexicographic
  order. `products.dfy` has the records. `wrappers.dfy` has `Option`.

Two behaviours of the code are kept as written:
- `getAll` does not clear `currentSort` (main.js:23-26). A sort chosen before a reload
  stays active, but it is not reapplied to the reloaded list. `Load` leaves
  `currentSort` untouched.
- After a load the shown list is the same array as the full list (main.js:24), not a
  copy.

## Model

| member | source | states |
|---|---|---|
| Catalog.CatalogView.constructor | main.js:8-12 | Initial state: two distinct empty lists, page 1, ten per page, no sort; the class invariant holds. |
| Catalog.CatalogView.Load | main.js:23-25 | The fetched sequence becomes the full list, and the shown list is that same array (aliased). Page 1; the sort in force is kept; the invariant holds. |
| Catalog.CatalogView.LoadDetached | main.js:23-25 | Corrected load: full list and shown list both hold the fetched sequence, as two distinct fresh arrays. Page 1; the invariant holds. |
| Catalog.CatalogView.Valid | main.js:8-12 | Class invariant (definition): the page size is positive and the current page lies between 1 and `max(1, totalPages)`. The constructor and every handler (`Load`, `LoadDetached`, `SortByPrice`, `SortByName`, `FilterProducts`, `ResetSort`, `PreviousPage`, `NextPage`, `ChangeItemsPerPage`) establish or keep it. The helpers `Search` and `ReapplySort`, which run inside `FilterProducts`, do not promise it on their own. `ShownItems` and the button functions rely on it. |
| Catalog.CatalogView.ShownItems | main.js:180-182 | The rows shown are the slice `[(p-1)k, min(pk, n))` of the shown list, with at most `k` rows. They are empty exactly when the shown list is empty. |
| Catalog.CatalogView.TotalPages | main.js:193 | Definition: `Math.ceil(filteredProducts.length / itemsPerPage)`, also computed at main.js:206 and 216. |
| Catalog.CatalogView.PrevButtonDisabled | main.js:200 | The previous button is disabled exactly when previousPage would not move (`currentPage > 1` fails). |
| Catalog.CatalogView.NextButtonDisabled | main.js:201 | The next button is disabled exactly when nextPage would not move (`currentPage < totalPages` fails). |
| Catalog.CatalogView.SortByPrice | main.js:233-245 | The shown array becomes the stable price sort of its old contents. `currentSort` is `{price, d}` and the page is 1. The full list is unchanged when it is a separate array. When aliased, it becomes the price sort of its own old contents. |
| Catalog.CatalogView.SortByName | main.js:248-260 | The same for the title order. When aliased, the full list becomes the title sort of its old contents. |
| Catalog.CatalogView.Search | main.js:151-162 | The shown list becomes a fresh array of exactly the filter result over the current full list. |
| Catalog.CatalogView.ReapplySort | main.js:164-171 | The shown list is the sort in force applied to its old contents, or unchanged with no sort. The full list and `currentSort` are unchanged. The page becomes 1 after a re-sort (main.js:242, 257) and is unchanged with no sort. |
| Catalog.CatalogView.FilterProducts | main.js:150-175 | The shown list is a fresh array equal to the sort in force applied to the products of the current full list that match the term, in order. The sort is unchanged, the page is 1, and the invariant holds. |
| Catalog.CatalogView.ResetSort | main.js:263-279 | The sort becomes null, the shown list is a fresh array of exactly the unsorted filter result for the term, and the page is 1. |
| Catalog.CatalogView.PreviousPage | main.js:205-212 | The page decrements exactly when it is above 1; otherwise nothing changes. The invariant holds. |
| Catalog.CatalogView.NextPage | main.js:215-222 | The page increments exactly when it is below `totalPages`; otherwise nothing changes. The invariant holds. |
| Catalog.CatalogView.ChangeItemsPerPage | main.js:225-230 | The page size becomes the given positive size and the page is 1. |
| Catalog.Matching | main.js:154-161 | Both branches (copy on an empty term, filter otherwise) give a fresh array equal to the filter of the input array. |
| Catalog.SortInPlace | main.js:237 | `Array.prototype.sort` in place: the array's new contents are the stable sort of its old contents. |
| Catalog.ArrayOf | main.js:156 | `[...list]`: a fresh array with exactly the given contents. |
| Catalog.EmptyInputIsEmptyTerm | main.js:152 | An empty search box gives the empty search term. |
| Catalog.SortThenResetAfterLoad | main.js:24 | Load, sort by name, then reset with an empty box: both lists end up as the sorted fetched list, not the fetched order. |
| Catalog.ResetLosesFetchedOrder | main.js:252 | Two products fetched as "b", "a" come out of the ascending name sort as "a", "b", which differs from the fetched order. |
| Catalog.SortThenResetAfterDetachedLoad | main.js:263-274 | The same steps after LoadDetached give back the fetched order in both lists. |
| Catalog.TwentyFiveProducts | main.js:193-222 | With 25 products at 10 per page, pressing next three times stays on page 3. Page 3 shows products 21-25 and its next button is disabled. |
| Query.SearchTerm | main.js:152 | The search term (also main.js:269) is the lower-cased, trimmed input: no white space at either end, never longer than the input. |
| Query.Matches | main.js:160 | Definition: the lower-cased title contains the term (also main.js:272). |
| Query.PriceKey | main.js:237-239 | Definition: the `price` the comparator subtracts. It is only used on products that have one, since price sorts require it. |
| Query.Filter | main.js:159-161 | The filter result is no longer than the input, and every element is in the input and matches the term. |
| Query.FilterConcat | main.js:159-161 | Filtering distributes over concatenation, so relative order is kept. |
| Query.FilterCount | main.js:159-161 | Each product occurs in the result as often as in the input if it matches, and zero times otherwise. |
| Query.FilterSubMultiset | main.js:159-161 | The result is a sub-multiset of the input. |
| Query.FilterEmptyTerm | main.js:154-156 | Filtering by the empty term gives back the whole list, so the copy branch agrees with filtering. |
| Query.PrecedesOrder | main.js:237-254 | Each of the four comparators is irreflexive and asymmetric, and its incomparability is transitive (a strict weak order). |
| Query.Insert | main.js:237-254 | One insertion step adds exactly the one element to the multiset. |
| Query.InsertSorted | main.js:237-254 | Inserting into a sorted list keeps it sorted. |
| Query.SortSeq | main.js:237-254 | The sort result is a permutation of the input (same multiset) and sorted by the comparator. |
| Query.Precedes | main.js:236-254 | Definition: `x` must come before `y` when the comparator of the chosen field and direction is negative. |
| Query.TiedWith | main.js:237-254 | Definition: the products of a list that tie with a given one (comparator 0), in order. |
| Query.TiedWithConcat | main.js:237-254 | Taking the tied products distributes over concatenation. |
| Query.OneSideTies | main.js:237-254 | When one product must precede another, at most one of the two ties with any third product. |
| Query.InsertBeforeLast | main.js:237-254 | The insertion step in front of the last element keeps the tied products in order, with the inserted one last. |
| Query.InsertKeepsTies | main.js:237-254 | Inserting a product puts it after every product it ties with, and keeps the others' order. |
| Query.SortStable | main.js:237-254 | The sort is stable: for every product, those that tie with it keep their relative order. |
| Query.SortedIsFixed | main.js:237-254 | Sorting an already sorted list returns it unchanged, so the sort is stable on sorted input. |
| Query.SortIdempotent | main.js:233-260 | Sorting a list that is already sorted by the same button changes nothing more: pressing the same sort button twice, or a search re-sort of an aliased full list that the sort already reordered, leaves the order as it is. A search re-sort of a fresh filter result in the full list's order does in general reorder it. |
| Query.SortedMeaning | main.js:236-254 | Sorted means prices non-decreasing (asc) or non-increasing (desc), and titles ordered or reverse-ordered. |
| Query.Flip | main.js:236-240 | The other direction on the same field is exactly the converse comparator. |
| Query.Reverse | main.js:236-240 | The reverse of a list: same length, position `i` holds position `n-1-i`. |
| Query.ReverseMultiset | main.js:236-240 | Reversal is a permutation. |
| Query.ReverseSorted | main.js:236-240 | Reversing a sorted list sorts it by the other direction. |
| Query.SortedHeads | main.js:237-254 | Two sorted, tie-free arrangements of one multiset share their first element. |
| Query.TailFacts | main.js:237-254 | Dropping the head keeps a list sorted and tie-free and removes the head from the multiset. |
| Query.SortedUnique | main.js:237-254 | Without ties there is only one sorted arrangement of a multiset. |
| Query.TielessMoves | main.js:237-254 | Being tie-free depends only on the multiset and holds in both directions. |
| Query.DescendingReversesAscending | main.js:236-254 | Without ties, sorting descending after ascending gives exactly the reverse of the ascending list. |
| Query.Arranged | main.js:164-171 | The list after a search is a permutation of the filter result: sorted under a sort in force, and the filter result itself with none. |
| Query.ShownAreExactlyMatches | main.js:150-171 | After a search, each product is shown as often as it occurs in the full list if it matches, and not at all otherwise. |
| Paging.SlicePosition | main.js:182 | `slice` reads a position in `[0, n]`: a non-negative one is clamped to `n`, and a negative one counts from the end, clamped to 0. |
| Paging.Slice | main.js:182 | `slice(start, end)` is never longer than the list, is `s[start..end]` for in-range positions, and is empty when `end <= start`. |
| Paging.PrevDisabled | main.js:200 | Definition: `currentPage === 1`. |
| Paging.NextDisabled | main.js:201 | Definition: the page equals `totalPages`, or `totalPages` is 0. |
| Paging.PageItems | main.js:180-182 | Page `p` of size `k` is the slice `[min((p-1)k, n), min(pk, n))`. |
| Paging.TotalPages | main.js:193 | The ceiling of `n / k`: the fewest pages of size `k` that hold `n` items. |
| Paging.TotalPagesUnique | main.js:193 | No other number of pages is the ceiling. |
| Paging.PageShape | main.js:180-182 | Every page up to the last is non-empty and holds at most `k` items. Every page before the last is full, and pages past the last are empty. |
| Paging.CurrentPageShape | main.js:180-182 | A page the view can be on holds at most `k` items, and is empty only when the list is. |
| Paging.PagesFromSuffix | main.js:180-193 | Pages `p` to the last, concatenated, are the suffix of the list starting at `(p-1)k`. |
| Paging.PagesReassemble | main.js:180-193 | Pages 1 to `totalPages`, concatenated, give back the list exactly. |
| Paging.TwentyFiveAtTen | main.js:180-193 | 25 items at 10 per page give 3 pages, and page 3 holds items 20-24. |
| ImageUrl.FirstOf | main.js:83 | Definition: an array becomes its first element, or null when it is empty. |
| ImageUrl.FieldOf | main.js:84 | Definition: an object becomes its truthy `url`, else its truthy `src`, else null; an array has neither (main.js:84, after line 83). |
| ImageUrl.Absolutize | main.js:87 | Definition: a leading `/` gets `https://api.escuelajs.co` in front. |
| ImageUrl.Denied | main.js:92 | Definition: the text contains `placeimg.com` or `via.placeholder.com` anywhere (scheme, host, path or query), compared case-sensitively. |
| ImageUrl.IsClean | main.js:82-95 | Definition of the three possible results: the default image, a trimmed `data:image/` string, or a whole URL match containing neither denied string. |
| ImageUrl.IsStop | main.js:89 | Definition: a character outside the class `[^\s"']`, that is white space, `"` or `'`. |
| ImageUrl.HttpShaped | main.js:89 | Definition: the shape of a whole match, a case-insensitive `http://` or `https://`, then at least one character, with no stop character anywhere. |
| ImageUrl.HasFirstImage | main.js:72 | Definition: `images` is an array with at least one element, the test `product.images && Array.isArray(product.images) && product.images.length > 0`. |
| ImageUrl.SchemeLength | main.js:89 | The scheme length is 0, 7 or 8 and never exceeds the string. |
| ImageUrl.SchemeLengthMeaning | main.js:89 | The scheme length is 7 exactly when the string starts with `http://` and 8 exactly when it starts with `https://`, in any ASCII case (the `i` flag). |
| ImageUrl.RunLength | main.js:89 | The greedy `[^\s"']+` run: stop-free, and ending at the end of the string or at a stop character. |
| ImageUrl.RunLengthAll | main.js:89 | A stop-free string is one whole run. |
| ImageUrl.RunLengthCovers | main.js:89 | The run over `a + b` covers all of a stop-free `a`. |
| ImageUrl.MatchHttp | main.js:89-91 | A match is a prefix of the input of the whole-URL shape, and it is maximal (it ends at the input's end or at a stop character). No match means no prefix has that shape. |
| ImageUrl.WholeMatch | main.js:89-91 | A string of the whole-URL shape is its own match. |
| ImageUrl.CleanText | main.js:86-95 | The result of cleaning a string is clean, and is the default image or a prefix of the absolutized trimmed input. A `data:image/` value is returned whole. |
| ImageUrl.CleanTextKeepsRun | main.js:89-93 | When the absolutized trimmed value starts with an `http(s)://` run that ends at a stop character or at the end, cleaning returns that run. If the run contains `placeimg.com` or `via.placeholder.com` anywhere (case-sensitive), it returns the default image instead. |
| ImageUrl.CleanTextNoRun | main.js:89-95 | A value that is not a data URI and has no `http(s)://` prefix becomes the default image. |
| ImageUrl.MaximalPrefixUnique | main.js:89 | Two maximal URL-shaped prefixes of one string are equal, so the match is unique. |
| ImageUrl.DeniedRunFallsBack | main.js:89-92 | `http://placeimg.com/a b` becomes the default image: its run `http://placeimg.com/a` contains `placeimg.com`. |
| ImageUrl.UpperCaseHostKept | main.js:92 | The test is case-sensitive: `http://PLACEIMG.COM/a` is kept as it is. |
| ImageUrl.DeniedInPathFallsBack | main.js:92 | The test covers the whole URL: `http://x.com/placeimg.com.png` becomes the default image although its host is `x.com`. |
| ImageUrl.StringValue | main.js:82-85 | The empty string becomes the default image; any other string is cleaned as text. |
| ImageUrl.ArrayValue | main.js:83-85 | An array is cleaned as its first element. An empty array, or a first element that is itself an array, gives the default image. |
| ImageUrl.ObjectValue | main.js:84-85 | An object is cleaned as its truthy `url`, else its truthy `src`, and only a string there is used. Otherwise it gives the default image. |
| ImageUrl.ContainsAt | main.js:92 | A needle occurring at any position of the haystack is contained in it. |
| ImageUrl.CleanImageUrl | main.js:81-96 | The result is always one of three: the default image, a trimmed `data:image/` string, or a stop-free `http(s)://` URL with at least one character after the scheme, containing neither denied string. It is never empty. |
| ImageUrl.ContainsHasChars | main.js:92 | Every character of a contained needle occurs in the haystack. |
| ImageUrl.NoLNotDenied | main.js:92 | A string with no `l` contains neither denied string. |
| ImageUrl.DefaultIsHttp | main.js:5 | The default image is itself a clean http URL. |
| ImageUrl.HttpIsFixed | main.js:86-93 | A whole http URL containing neither denied string is kept as it is. |
| ImageUrl.HttpStart | main.js:86-89 | A whole http URL starts with `h`/`H` and has no white space at its ends. |
| ImageUrl.DataIsFixed | main.js:86-88 | A trimmed `data:image/` string is kept as it is. |
| ImageUrl.CleanIsFixed | main.js:81-96 | Every clean string is returned unchanged by cleaning. |
| ImageUrl.CleanIdempotent | main.js:81-98 | Cleaning a cleaned value gives it back. |
| ImageUrl.OriginMatch | main.js:87-89 | The origin followed by a `/` path always matches. The match starts with the origin and the slash, and covers the whole of a stop-free path. |
| ImageUrl.RootRelativeGetsOrigin | main.js:87 | A trimmed value starting with `/` becomes the default image or a URL starting with `https://api.escuelajs.co/`. It is the whole absolutized path when that path is stop-free and contains neither denied string. |
| ImageUrl.DeniedUrlFallsBack | main.js:92 | A trimmed value that is a whole URL containing a denied string becomes the default image. |
| ImageUrl.SelectImageSource | main.js:71-78 | The source is `images[0]` of a non-empty array, else a truthy `image`, else a truthy `thumbnail`, else the default image; without a first image the source is truthy. |
| ImageUrl.ImageCell | main.js:71-98 | The image cell's `src` is clean and non-empty. |
| ImageUrl.ThumbnailFallback | main.js:72-78 | An empty `images` array and a null `image` fall through to the thumbnail, which is kept as it is. |
| Cells.HasText | main.js:68 | Definition: the description is truthy, that is present and non-empty. |
| Cells.PriceTruthy | main.js:100 | Definition: the price is truthy, that is present and not 0. |
| Cells.DescriptionCell | main.js:68 | A non-empty description gives its first `min(100, n)` characters followed by `...`. The placeholder appears exactly for a missing or empty description. |
| Cells.ShortDescriptionKept | main.js:68 | A description of at most 100 characters is shown whole, followed by `...`. |
| Cells.PriceCell | main.js:100 | `N/A` exactly for a missing or zero price; otherwise `$` followed by the two-decimal text. |
| Cells.ZeroPriceIsNotAvailable | main.js:100 | A zero price is shown like a missing one, as `N/A`. |
| Text.IsSpace | main.js:86-89 | Definition: the ECMA-262 WhiteSpace and LineTerminator code points, which `trim` strips and `\s` matches. |
| Text.TrimStart | main.js:86 | The leading half of `trim`; never longer than its input (its meaning is in TrimStartMeaning). |
| Text.TrimEnd | main.js:86 | The trailing half of `trim`; never longer than its input (its meaning is in TrimEndMeaning). |
| Text.LowerChar | main.js:152 | Definition: ASCII case fold of one character, which maps `A`-`Z` to `a`-`z`. |
| Text.Lower | main.js:152 | Definition: `toLowerCase` as an ASCII case fold of every character (also main.js:160, 269, 272). |
| Text.Less | main.js:252-254 | Definition: code-point lexicographic order, standing in for `localeCompare` being negative. |
| Text.StartsWith | main.js:87-88 | Definition of `startsWith`: the prefix is the string's first characters. |
| Text.Contains | main.js:92 | Definition of `includes` (also main.js:160): the needle starts at some position of the string. |
| Products.Truthy | main.js:72-82 | Definition of JavaScript truthiness for an image field: the empty string and null are falsy, and every array and object is truthy. |
| Text.TrimStartMeaning | main.js:86 | The leading trim keeps a suffix that does not start with white space, and drops only white space. |
| Text.TrimEndMeaning | main.js:86 | The trailing trim keeps a prefix that does not end with white space, and drops only white space. |
| Text.Trim | main.js:86 | `trim` leaves no white space at either end and never lengthens. |
| Text.TrimOfTrimmed | main.js:86 | `trim` leaves a string with no white space at its ends unchanged. |
| Text.TrimIdempotent | main.js:152 | Trimming twice is trimming once. |
| Text.LessIrreflexive | main.js:252 | The title order is irreflexive. |
| Text.LessTransitive | main.js:252 | The title order is transitive. |
| Text.LessTotal | main.js:252 | Any two distinct titles are ordered one way or the other. |
| Text.LessAsymmetric | main.js:252 | The title order is asymmetric. |

## Left out

- The DOM is not modelled. That covers building the table HTML and its quote escaping, the result count, `updateSortButtons`, the modal and its handlers, `showError`, `window.scrollTo` and `displayTable`'s empty-list message. The model keeps only what these read: `ShownItems` and the two button states.
- `fetch`, the HTTP status check, JSON decoding and `async`/`await` in `getAll` are left out. `Load` takes the decoded list as a parameter, and the error branch changes no state.
- The search box is read from the DOM. `FilterProducts` and `ResetSort` take the raw input string as a parameter instead.
- `decodeURIComponent` in `openImageModal` is left out together with the modal.
- `toLowerCase` is modelled as an ASCII case fold (`Text.Lower`). The full Unicode mapping, including letters whose lower case has another length, is not modelled.
- `localeCompare` is modelled as code-point lexicographic order (`Text.Less`). Locale collation is not modelled.
- `substring(0, 100)` counts UTF-16 code units. The model counts characters, so a description with astral characters may be cut at another point.
- Prices are modelled as integers, so floating-point prices and `toFixed(2)` rounding are left out. `toFixed2` is a parameter of `Cells.PriceCell`.
- Catalog.CatalogView.SortByPrice requires every shown product to have a price, because a missing price makes the comparator return NaN. `Array.prototype.sort` leaves the order under such a comparator to the engine. `FilterProducts` and `ReapplySort` carry the same precondition for a price sort in force.
- Catalog.CatalogView.ReapplySort requires the shown list to be its own array. It is only called right after `Search`, which makes a fresh one.
- `Array.prototype.sort` is specified as the stable insertion sort `Query.SortSeq`. ECMAScript requires the sort to be stable, which fixes its result to be this one. The engine's algorithm and its sequence of comparator calls are not modelled.
- Catalog.CatalogView.ChangeItemsPerPage requires a positive size. The `parseInt` of the select's value and its NaN case are not modelled, since the select only offers positive sizes.
- Products are records with a `title` that is always present, because the source calls `title.toLowerCase()` without a guard. Products whose title is missing or not a string are not modelled.
- `Catalog.CatalogView.Valid` states the page size and the page bounds. It does not state that the shown list is drawn from the full list. That fact is proved about each operation's result by `Query.FilterSubMultiset`, `Query.ShownAreExactlyMatches` and `Query.Arranged`, not kept as an invariant.
- `currentSort` values other than price and name are not modelled. The source only ever builds those two.

## Findings

| source | as written | input that shows it | evidently intended | confidence | as-written member | corrected member |
|---|---|---|---|---|---|---|
| main.js:24 | `filteredProducts = allProducts` makes the shown list the same array as the full list. Sorting before any search then reorders the full list in place (main.js:237/252), and resetting the sort afterwards shows the sorted order, not the fetched one. | Fetch two products titled "b" then "a", press "name ascending", then "reset" with an empty search box. Both lists are then "a", "b". | The full list keeps the fetched order: the shown list is a copy, as `[...allProducts]` makes it in every other assignment (main.js:156, 265). | medium; not executed | Catalog.SortThenResetAfterLoad, Catalog.ResetLosesFetchedOrder | Catalog.CatalogView.LoadDetached, Catalog.SortThenResetAfterDetachedLoad |
