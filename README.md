# IGA store scraper — a Dafny model of `process_stores.py`

The scraper reads the sitemap files of the IGA store locator and collects the
store-page URLs listed in them. It fetches each page and turns its HTML into a
store record: name, address lines, phone, directions link, opening hours and
services. It keeps the pages that produced a record and writes the records out
sorted by store name. This project models the deterministic core of that
pipeline and proves what each step promises.

- `text.dfy` (`Text`) models the Python `str` behaviour the scraper relies on:
  - `isspace`;
  - `strip()`;
  - the substring test `sub in s`;
  - the code-point ordering `<=` that `sorted` and `list.sort` use.
- `sorting.dfy` (`Sorting`) models sorting. `list.sort(key=...)` is modelled
  by an in-place insertion sort on an array. `sorted(xs)` sorts a copy. A
  sorted order with distinct keys is unique.
- `sitemaps.dfy` (`Sitemaps`) models `parse_sitemaps`:
  - The outcome of parsing each file is given as data: a document's `loc`
    texts, a parse error, a missing file, or an error the function does not
    catch.
  - The method folds the texts into a list without duplicates.
- `store_details.dfy` (`StoreDetails`) models `parse_store_details` with its
  helper `get_text`. The answers of the BeautifulSoup lookups are given as a
  `Page` value. The method builds the record: the first directions link, the
  hours dictionary (a later row for the same day wins), the sorted services
  list, and the name gate.
- `finalise.dfy` (`Finalise`) models the end of `main`. Failed outcomes are
  filtered out, and the rest are sorted by name in place.

The docstring of `parse_sitemaps` (process_stores.py:24) promises the store
URLs. Lines 34-35 test the raw text (`loc_element.text`) for emptiness before
stripping it, so a `loc` holding only whitespace adds the empty string to the
result. The model keeps that behaviour: `Sitemaps.LocUrlCases` and
`Sitemaps.LocUrlsEmptyString` state exactly when `""` is collected.

## Model

| member | source | states |
|---|---|---|
| Text.Strip | process_stores.py:62 | `strip()` never lengthens a string, and a non-empty result neither starts nor ends with whitespace |
| Text.StripEmpty | process_stores.py:62 | stripping yields the empty string exactly when the text is all whitespace |
| Text.StripIsSlice | process_stores.py:62 | the stripped text is a contiguous slice of the original, with only whitespace removed on each side |
| Text.StripIdempotent | process_stores.py:62 | stripping an already stripped text changes nothing |
| Text.StripUntrimmed | process_stores.py:62 | a non-empty text with no whitespace at either end is returned unchanged |
| Text.TrimStartSuffix | process_stores.py:62 | removing leading whitespace leaves a suffix of the text and drops only whitespace |
| Text.TrimEndPrefix | process_stores.py:62 | removing trailing whitespace leaves a prefix of the text and drops only whitespace |
| Text.ContainsAt | process_stores.py:72 | the substring test `sub in s` holds exactly when `sub` occurs at some index of `s` |
| Text.LessEqReflexive | process_stores.py:151 | string `<=` is reflexive |
| Text.LessEqTotal | process_stores.py:151 | any two strings are comparable under `<=` |
| Text.LessEqAntisymmetric | process_stores.py:151 | strings that are `<=` each other are equal |
| Text.LessEqTransitive | process_stores.py:151 | string `<=` is transitive |
| Sorting.AdjacentSortedIsSorted | process_stores.py:151 | keys in order between neighbours are in order between all pairs |
| Sorting.InsertAt | process_stores.py:151 | one step of the in-place sort orders the keys of `a[..i + 1]`, keeps the elements of that prefix with their multiplicities, and leaves `a[i + 1..]` as it was |
| Sorting.SortByKey | process_stores.py:151 | the in-place sort by key leaves the array ordered by key and holding the same elements, with the same multiplicities |
| Sorting.Sorted | process_stores.py:99 | `sorted(services)` returns an ascending permutation of its argument |
| Sorting.SortedHeadLeast | process_stores.py:151 | the first element of a key-sorted list has the least key |
| Sorting.SortedSameHead | process_stores.py:151 | two key-sorted permutations of each other with distinct keys start with the same element |
| Sorting.SortedUnique | process_stores.py:151 | two key-sorted lists with the same elements are equal when no two distinct elements share a key |
| Sitemaps.ParseSitemaps | process_stores.py:23-40 | the result is absent exactly when some file raises an uncaught error; otherwise it lists every collected URL once, and no other |
| Sitemaps.NoDuplicatesCard | process_stores.py:40 | a list without duplicates is as long as the set of its elements |
| Sitemaps.LocUrlsMembership | process_stores.py:32-35 | a document yields a URL exactly when one of its `loc` entries yields it |
| Sitemaps.SitemapUrlsMembership | process_stores.py:28-35 | a URL is collected exactly when some `loc` entry of some parsed document yields it |
| Sitemaps.LocUrlCases | process_stores.py:33-35 | a missing `loc` or one with empty text adds nothing; a `loc` adds `""` exactly when its text is non-empty and all whitespace |
| Sitemaps.LocUrlsEmptyString | process_stores.py:34-35 | the empty string is collected exactly when some entry's non-empty text is all whitespace |
| Sitemaps.TwoLocs | process_stores.py:32-35 | a document with two stripped, non-empty `loc` texts yields exactly those two URLs |
| Sitemaps.TwoSitemapsExample | process_stores.py:25-40 | two sitemaps listing `a, b` and `b, c` yield exactly the three URLs `a`, `b` and `c` |
| Sitemaps.SitemapUrlsAppend | process_stores.py:28-35 | the URLs of two runs of files together are the union of the URLs of each run |
| Sitemaps.SkippedFileAddsNothing | process_stores.py:36-39 | a malformed or missing file adds no URL and does not stop the files after it |
| Sitemaps.SitemapUrlsOrderFree | process_stores.py:25-40 | the collected URLs do not depend on the order of the files or on a file being listed twice |
| StoreDetails.GetText | process_stores.py:61-62 | `get_text` returns text exactly when the element was found; the text is the raw text with its leading and trailing whitespace cut away (a slice with only whitespace on either side), has no whitespace at either end, and is empty exactly when the raw text is all whitespace |
| StoreDetails.FirstDirections | process_stores.py:72-73 | the directions URL is absent exactly when no anchor qualifies; otherwise it is the `href` of the first anchor that qualifies |
| StoreDetails.DirectionsMentionMaps | process_stores.py:72-73 | a directions URL, when found, contains `maps.google.com` |
| StoreDetails.RowEntry | process_stores.py:80-86 | a row contributes exactly when it has two cells, the second holds a `week-hours` span, and both the stripped first-cell text and the stripped span text are non-empty; it then contributes those two stripped texts as day and hours |
| StoreDetails.HoursOf | process_stores.py:76-87 | every day in the hours dictionary and every hours value in it is non-empty |
| StoreDetails.CollectHours | process_stores.py:76-87 | the loop builds the dictionary defined by the rows, or an empty dictionary when there is no hours table |
| StoreDetails.HoursKeys | process_stores.py:79-86 | a day is a key exactly when some row contributes an entry for that day |
| StoreDetails.HoursLastRowWins | process_stores.py:85-86 | the hours kept for a day are those of the last row contributing that day |
| StoreDetails.ServiceNames | process_stores.py:94-98 | the kept service names are no more than the service elements, and none is empty |
| StoreDetails.ServiceNamesMembership | process_stores.py:94-98 | a name is kept exactly when it is the non-empty stripped text of some service element |
| StoreDetails.CollectServices | process_stores.py:90-99 | the services list is the kept names, sorted, with their multiplicities; it is empty without a desktop container; every entry comes from some element |
| StoreDetails.ServiceNamesAppend | process_stores.py:94-98 | the names kept from two runs of elements are the names of the first run followed by those of the second |
| StoreDetails.ServiceNamesPermutation | process_stores.py:94-98 | rearranging the service elements rearranges the kept names and changes nothing else |
| StoreDetails.ServicesOrderFree | process_stores.py:90-99 | two containers holding the same texts in any order give the same sorted services list |
| StoreDetails.ParseStoreDetails | process_stores.py:52-106 | no record exactly when the HTML is absent or empty or the page has no usable name; otherwise each field is what its lookup gives, and the services are the sorted kept names |
| Finalise.SuccessfulCounts | process_stores.py:142 | the filter drops exactly the failed outcomes and keeps each record as often as it was produced |
| Finalise.FinaliseResults | process_stores.py:142-151 | the output holds exactly the successful records with their multiplicities, one per successful outcome, sorted by name |
| Finalise.OutputNamesNonEmpty | process_stores.py:101-104 | since each successful record passed the name check, every name in the output is non-empty |
| Finalise.ExampleGathered | process_stores.py:142 | outcomes Berri, a failure, Adelaide Central, Barossa filter to those three records in that order |
| Finalise.ExampleNamesInOrder | process_stores.py:151 | "Adelaide Central" <= "Barossa" <= "Berri" under Python's string order |
| Finalise.ExampleKeysDistinct | process_stores.py:151 | the three example stores have distinct names |
| Finalise.ThreeStoresExample | process_stores.py:142-151 | those four outcomes produce the output Adelaide Central, Barossa, Berri |

## Left out

- `fetch_store_page`, `scrape_and_parse_store` and `scrape_with_semaphore` are left out. They do network I/O, limited to 50 concurrent requests by a semaphore. A page's HTML enters the model as the `html` parameter of `ParseStoreDetails`; `None` stands for a failed fetch. `asyncio.gather` enters as the sequence of outcomes given to `FinaliseResults`.
- The XML and HTML parsers (`ET.parse`, `findall`/`find` with the sitemap namespace, BeautifulSoup's `find`/`find_all`/`select` with `lxml`) are not modelled. Their answers are given as `SitemapFile` and `Page` values.
- `main`'s `glob` of the sitemap pattern, its early returns on no files, no URLs and no records, the `json.dump` to `stores.json`, and all `print` diagnostics are I/O and are left out.
- Sitemaps.ParseSitemaps: the order of `list(urls)` is unspecified in Python. The contract promises only that each collected URL appears once.
- Sitemaps.ParseSitemaps: an uncaught exception is modelled only as an absent result. Which error it was and the files read before it are not modelled.
- Sorting.SortByKey: stability is not stated. Python's sort keeps records with equal names in their gathered order, and the contract only says the result is ordered and a permutation.
- Finalise.FinaliseResults: like `SortByKey`, it does not promise stability among stores that share a name. The gathered order follows `list(urls)`, which is itself unspecified.
- StoreDetails.HoursOf: a Python `dict` remembers insertion order, which shows up in the JSON output. The model's `map` keeps only keys and values.
- StoreDetails.ParseStoreDetails: the output dictionary's `name` is modelled as a plain string. The name check guarantees that it is present and non-empty, so `x.get('name', '')` is that string.
- Strings are sequences of Unicode scalar values. Python strings holding lone surrogates cannot be expressed.
