# Cube list prices, modelled in Dafny

`cube-list-prices.py` prices a Magic: The Gathering cube. It reads four inputs:

- a card catalog (printing id to card record);
- a price table (printing id to price);
- the cube list, a text file with a header line, the cube's card names, and a `# maybeboard` section;
- a table of owned cards.

The script cleans the cube list. It drops the header, the maybeboard section, the excluded names "Cogwork Librarian" and the empty line, and rewrites the face separator `" // "` to `"/"`. It groups the catalog's printings by card name and takes each name's cheapest printing. It then prints:

- the cube priced at those cheapest versions;
- the same cube without the owned cards;
- the owned cards sorted by price;
- the two totals.

The model keeps the script's structure, one module per concern:

- `Results`: the exceptions the script raises (`KeyError`, `ValueError`, `StopIteration`, `IndexError`), and a `Result` type that carries them so a failing step aborts the rest, as an uncaught exception does.
- `Dicts`: Python's insertion-ordered `dict`, as a key order plus a map. A key assignment keeps an existing key's place and appends a new key. A filtering comprehension keeps the order. Iteration order matters here: it decides which `KeyError` is raised and how `sorted` breaks ties.
- `CardNames`: `normalize_card_name` and `is_allowed_card`.
- `CubeList`: `clean_list`.
- `Catalog`: `get_all_card_ids` and `get_cheapest_version`. Both are loops that fill a dict, written as methods and proved equal to recursive specification functions, about which the properties are proved.
- `OwnedCards`: the row handling of `read_owned_list_csv`, as a loop over already-parsed rows.
- `Report`: the comprehensions, `sorted` and `sum` of `main`, lines 78-96.
- `CubePrices`: `main` from the loaded inputs to the printed values.

Prices are integers (for example cents), so sums are exact.

Two points of the script's behaviour are easy to miss, and the model keeps both:

- `read_owned_list_csv` raises `StopIteration` when the table has no rows (`next`, cube-list-prices.py:24). It raises `IndexError` on a blank data row (`row[0]`, cube-list-prices.py:28), because `csv.reader` yields an empty row for a blank line.
- `cube_list[1:k]` (cube-list-prices.py:46) keeps the line at index 1. It drops only index 0 and everything from `k` on, and it is empty when `k` is 0.

## Model

| member | source | states |
|---|---|---|
| CardNames.NormalizeCardName | cube-list-prices.py:32-33 | the rewrite never lengthens a name and never empties a non-empty one |
| CardNames.NormalizeUnchangedIff | cube-list-prices.py:32-33 | a name is left unchanged exactly when it contains no `" // "` |
| CardNames.NormalizeWithoutSeparator | cube-list-prices.py:32-33 | a name without the separator is returned as it is |
| CardNames.NormalizeShortens | cube-list-prices.py:32-33 | a name with the separator comes out strictly shorter and contains a slash |
| CardNames.NormalizeKeepsPrefix | cube-list-prices.py:32-33 | a prefix in which no separator starts is copied unchanged, and the rest is rewritten independently |
| CardNames.JoinFaces | cube-list-prices.py:32-33 | two faces without a separator of their own, joined by `" // "`, become the faces joined by `"/"` |
| CardNames.NormalizeSplitCardExample | cube-list-prices.py:32-33 | `"Fire // Ice"` becomes `"Fire/Ice"` |
| CardNames.NormalizeSingleSlashExample | cube-list-prices.py:32-33 | `"Fire / Ice"` is unchanged |
| CardNames.NoDoubleSlash | cube-list-prices.py:32-33 | a name without two slashes in a row contains no separator |
| CardNames.IsAllowedCard | cube-list-prices.py:35-36 | a name is rejected exactly when it is "Cogwork Librarian" or empty |
| CardNames.NormalizePreservesAllowed | cube-list-prices.py:35-36 | a name is allowed after normalization exactly when it was allowed before |
| CubeList.IndexOf | cube-list-prices.py:45 | `list.index`: succeeds exactly when the value occurs, with its first position; ValueError otherwise |
| CubeList.IndexOfIsFirst | cube-list-prices.py:45 | a position holding the value with no earlier occurrence is the index found |
| CubeList.FilterAllowed | cube-list-prices.py:47 | `filter(is_allowed_card, ...)` keeps only allowed names that were in its input |
| CubeList.FilterAllowedPicks | cube-list-prices.py:46-47 | the filtered slice is exactly the lines at the allowed positions, in order |
| CubeList.NormalizeAll | cube-list-prices.py:48 | the comprehension keeps the length and normalizes each name in place |
| CubeList.CleanList | cube-list-prices.py:44-49 | `clean_list` fails exactly when the maybeboard line is missing, and then with ValueError |
| CubeList.CleanListSelects | cube-list-prices.py:44-49 | the cleaned list is the normalization of exactly the allowed lines after the header and before the first maybeboard line, in order and with duplicates; its length is at most max(0, k-1) |
| CubeList.CleanListFrame | cube-list-prices.py:45-46 | the header line and everything from the first maybeboard line on do not affect the result |
| CubeList.CleanListMaybeboardFirst | cube-list-prices.py:45-46 | a maybeboard line in the header position leaves an empty cube |
| CubeList.CleanListAllowed | cube-list-prices.py:47-48 | although exclusion is checked before normalization, no excluded name reaches the output |
| CubeList.CleanTwiceFails | cube-list-prices.py:44-49 | the cleaned list never holds the maybeboard line, so cleaning it again fails with ValueError |
| CubeList.CleanListExample | cube-list-prices.py:44-49 | `["mainboard", "Lightning Bolt", "# maybeboard", "Other Card"]` cleans to `["Lightning Bolt"]` |
| Dicts.Empty | cube-list-prices.py:39 | `{}` is a well-formed dict with no keys |
| Dicts.Set | cube-list-prices.py:57 | `d[k] = v` keeps the dict well formed and updates only `k` |
| Dicts.Select | cube-list-prices.py:80-81 | a filtering comprehension keeps exactly the keys on the chosen side of the owned set, with the same values |
| Dicts.FilterKeys | cube-list-prices.py:80-81 | the comprehension's keys are exactly the dict's keys on the chosen side of the set, without repeats |
| Dicts.ItemsOf | cube-list-prices.py:90 | the pairs of the listed keys and their values, one per key, in order |
| Dicts.Items | cube-list-prices.py:90 | `d.items()` is the keys in dict order, each paired with its value |
| Dicts.FirstOccurrences | cube-list-prices.py:78 | the keys a dict gets from a sequence are the sequence's distinct elements |
| Catalog.CardIdIndexOf | cube-list-prices.py:38-42 | the dict `card_ids` after the loop has visited a prefix of the catalog is a well-formed dict |
| Catalog.CardIdIndex | cube-list-prices.py:38-42 | `get_all_card_ids` lists the names in order of first appearance in the catalog |
| Catalog.IdsNamed | cube-list-prices.py:38-42 | the ids with a given name, each once when the catalog lists each once |
| Catalog.CardIdIndexIsGrouping | cube-list-prices.py:38-42 | `card_ids` lists the names in order of first appearance, and under each name exactly the ids with that name, in catalog order |
| Catalog.CardIdIndexStep | cube-list-prices.py:40-41 | one loop step appends the id to its name's group, creating the group when the name is new |
| Catalog.GetAllCardIds | cube-list-prices.py:38-42 | the loop builds exactly the grouping index |
| Catalog.GroupingKeys | cube-list-prices.py:38-42 | the keys of `card_ids` are exactly the catalog's card names |
| Catalog.GroupingKey | cube-list-prices.py:38-42 | a name is a key of `card_ids` exactly when some catalog id has that name |
| Catalog.GroupOf | cube-list-prices.py:38-42 | a name's group is non-empty, holds no id twice, and holds exactly the ids with that name |
| Catalog.GroupOfId | cube-list-prices.py:38-42 | every catalog id is in the group of its own name |
| Catalog.GroupingGroups | cube-list-prices.py:38-42 | every group is non-empty and without repeats; every id is in its own name's group and in no other |
| Catalog.PricesOf | cube-list-prices.py:56 | the price list succeeds exactly when every id has a price, with one price per id in order; otherwise KeyError for the first id without one |
| Catalog.Min | cube-list-prices.py:57 | `min` returns an element that is no larger than any element |
| Catalog.CheapestPrice | cube-list-prices.py:56-57 | a name's price is a lower bound of its ids' prices and is attained; KeyError for an unpriced id; ValueError for no ids |
| Catalog.CheapestOver | cube-list-prices.py:54-58 | the loop over a prefix of the names yields a well-formed dict when it succeeds |
| Catalog.CheapestVersion | cube-list-prices.py:51-59 | `get_cheapest_version` on success is a well-formed dict whose keys come in the order of `card_ids` |
| Catalog.CheapestOverStep | cube-list-prices.py:55-57 | one loop step stores the name's cheapest price or ends with its error |
| Catalog.CheapestOverFailureSticks | cube-list-prices.py:55-57 | once a step fails, the whole loop fails with that error |
| Catalog.CheapestOverSpec | cube-list-prices.py:54-58 | the loop succeeds exactly when every visited name has a cheapest price; it then maps each name, in order, to that price, and otherwise raises the error of one of them |
| Catalog.CheapestVersionFails | cube-list-prices.py:51-59 | `get_cheapest_version` succeeds exactly when every catalog id has a price; otherwise KeyError for a catalog id without one |
| Catalog.CheapestVersionIsMinimum | cube-list-prices.py:51-59 | its keys are the catalog's names; each price is at most that of every printing of the name, and equals that of one of them |
| Catalog.CheapestVersionAt | cube-list-prices.py:51-59 | the price of a name is the price of one of its printings |
| Catalog.GetCheapestVersion | cube-list-prices.py:51-59 | the loop computes exactly `get_cheapest_version`, including which error it raises |
| Catalog.TwoPrintings | cube-list-prices.py:51-59 | with two printings of one card, the cheaper price is kept |
| Catalog.CheapestVersionExample | cube-list-prices.py:51-59 | printings priced 5 and 3 of "Lightning Bolt" give 3 |
| Report.CheapestCube | cube-list-prices.py:78 | the priced cube exists exactly when every cube name has a cheapest version; its keys are the distinct cube names in order of first appearance, each with its cheapest price |
| Report.CheapestCubeFailure | cube-list-prices.py:78 | otherwise the KeyError names the first cube name without a price |
| Report.InsertByPrice | cube-list-prices.py:90 | inserting keeps the list sorted by price and adds exactly one item |
| Report.SortByPrice | cube-list-prices.py:90 | `sorted(..., key=price)` returns a permutation of its input, sorted by price |
| Report.InsertByPriceStable | cube-list-prices.py:90 | inserting keeps the relative order of items of equal price |
| Report.SortByPriceStable | cube-list-prices.py:90 | the sort is stable: items of each price appear in their original order |
| Report.InsertByPriceSum | cube-list-prices.py:90 | inserting adds exactly the item's price to the sum |
| Report.SortByPriceSum | cube-list-prices.py:90 | sorting does not change the sum of the prices |
| Report.ItemsOfAgree | cube-list-prices.py:93-96 | the items of a dict depend only on the values of its own keys |
| Report.SumSplits | cube-list-prices.py:93-96 | the sum over a key list is the sum over the keys not owned plus the sum over the owned keys |
| Report.TotalSplits | cube-list-prices.py:93-96 | `sum(d.values())` is the unowned part's sum plus the owned part's sum |
| Report.BuildReport | cube-list-prices.py:78-96 | the report exists exactly when every cube name is priced; the priced cube's keys are the distinct cube names in order of first appearance, and the unowned dict keeps the non-owned ones in that order |
| Report.ReportCube | cube-list-prices.py:78 | the report exists exactly when every cube name is priced, with the first missing name's KeyError otherwise; the priced cube has one key per distinct cube name, in first-appearance order, each with its cheapest price |
| Report.ItemsOfMember | cube-list-prices.py:90 | a pair is among a dict's items exactly when its key is in the dict with that value |
| Report.ReportPartition | cube-list-prices.py:80-81 | the unowned and owned parts split the priced cube's keys disjointly with the same prices; the owned list is a permutation of the owned entries, sorted by price |
| Report.ReportTotals | cube-list-prices.py:93-96 | total cost equals the unowned total plus the sum of the owned prices |
| OwnedCards.OwnedCardNames | cube-list-prices.py:16-30 | StopIteration exactly when there are no rows, IndexError when a data row is empty and otherwise success; on success the owned names are exactly the first fields of the rows after the header |
| OwnedCards.ReadOwnedRows | cube-list-prices.py:16-30 | the loop yields those names, StopIteration with no header row, and IndexError on an empty data row |
| CubePrices.CubeReport | cube-list-prices.py:69-96 | errors come in `main`'s order: a bad owned table first, then a missing maybeboard line (ValueError); a report implies a maybeboard line and a priced catalog |
| CubePrices.PriceCube | cube-list-prices.py:61-96 | `main` step by step computes exactly the specified report, or the first error raised |
| CubePrices.CubeReportSound | cube-list-prices.py:74-96 | on success, the cube's keys are exactly the cleaned names, each priced at the cheapest printing of that card in the catalog; the total cost is the unowned total plus the owned prices |
| CubePrices.CubeReportFails | cube-list-prices.py:69-78 | a run fails exactly when the owned table is malformed, the maybeboard line is missing, a catalog id has no price, or a cleaned name is not in the catalog |

## Left out

- `read_json`, `read_txt` and the file handling of `read_owned_list_csv` (cube-list-prices.py:7-30): file I/O and JSON/CSV parsing are library calls. The model takes already-parsed inputs: the catalog as an ordered dict of records, the price table as a map, the cube list as a sequence of lines, and the owned table as a sequence of rows. `IOError` and parse errors are not modelled.
- The `print` calls and Python's `repr` formatting (cube-list-prices.py:83-96): the model returns the five printed values as a `Report`.
- Floating-point prices: JSON numbers may be floats, so a real `min`/`sum` may round. Prices are integers here, which makes the total identity exact.
- The hard-coded file names (cube-list-prices.py:63-66) and the `__main__` entry point.
- Catalog.Min: Python's `min` returns the first minimal element. Only its value is observable here, and only that is modelled.
- The price table is a plain map rather than an ordered dict, because the script only looks prices up.
- Catalog records carry only the card name, the one field the script reads. A record without a `"name"` field, for which `card["name"]` (cube-list-prices.py:41) raises `KeyError('name')`, cannot be represented, so that error is not modelled.
