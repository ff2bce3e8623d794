# Warframe trading scripts, modelled in Dafny

These scripts help a player trade prime parts on warframe.market. A Google
Sheet records which prime parts the player owns, in what quantity, and which
sets are finished. From its rows the scripts build market item names
(`base_prime_part`, lower-cased, spaces turned into `_`), the owned-quantity
dictionary, and the list of parts still needed. They read the market's order
book for an item and keep the sell orders of players who are in game. From
those they take either the lowest price against a sentinel or the five
lowest prices. They then undercut the competition by one platinum. Smaller
pieces are also modelled:

- picking the most valuable deals;
- looking an item id up in a local CSV;
- filling in URL slugs when a dashboard record is saved;
- turning a CSV of prime sets into a Django fixture.

Each module holds the logic of one source file, with the I/O taken out:

- Sheet rows come in as `seq<seq<string>>`.
- Decoded JSON payloads come in as sequences of records.
- Market lookups that the logic depends on come in as function parameters.
- Python dicts are insertion-ordered sequences of pairs in which assigning
  to an existing key overwrites it in place (`OrderedMap`).
- Python's `int()` on a cell accepts an optional sign followed by ASCII
  digits (`Text.ParseInt`). Any other text is the `ValueError` path, which
  is modelled as a `Failure` naming the first bad cell.

Modules:

- `PrimeSheet` is the row layout shared by both sheet readers. Part `j` has
  its label in column `1+3j` and its quantity in column `2+3j`. The status
  is in column 16. A `RowRule` says which rows a loop skips.
- `Db` models `db.py`. `GoogleSheets` models `database/google_sheets.py`.
- `MarketOrders` holds the order records and the price scans that three
  scripts share.
- `MainScript` models `main.py`, `SellScript` models `main2.py`,
  `LegacyMarket` models `warframe_market.py`, and `Market` models
  `warframe_market/warframe_market.py`.
- `Query`, `Local`, `Dashboard` and `CsvToJson` model `database/query.py`,
  `database/local.py`, the dashboard model and the CSV converter.

Where the code and its own documentation disagree, the model follows the code:

- `calculate_new_sell_price` in `main.py` does not return the minimum price
  when undercutting would go below it, as its docstring says. It returns the
  lowest competing price. That price can itself be below the minimum.
- In `database/google_sheets.py` the part label is lower-cased too, because
  `.lower()` is applied to the whole formatted name.
- `main.py` computes a running minimum from 100000 but discards it. It
  returns the five lowest prices, and it does not leave out the player's own
  listings.
- Only the two minimum-based undercut rules exist in the code. No other
  pricing policy is modelled.
- The `id` answer of `get_info_from_market` is the id of the first order in
  the order book, not the item's id.
- In both "to buy" readers a blank quantity reads as -1 for the blueprint
  and the first three components, so those are never listed. A blank fourth
  component reads as 0, so it is always listed.

## Model

| member | source | states |
|---|---|---|
| Text.ParseIntAccepts | db.py:94-102 | a quantity cell is read as an integer exactly when it is an optional sign followed by at least one ASCII digit |
| Text.ParseIntOfString | db.py:252 | reading back the decimal text of any integer gives that integer |
| Text.SlugIdempotent | warframe_economy/dashboard/models.py:16-19 | lower-casing and replacing spaces by `_` a second time changes nothing |
| OrderedMap.PutGet | db.py:107 | after `d[k] = v`, `k` maps to `v` and every other key keeps its value |
| OrderedMap.PutKeys | db.py:107 | assigning an existing key keeps the key order; a new key goes at the end |
| OrderedMap.PutAllGet | warframe_market/warframe_market.py:160 | after merging entries into a dict, a key maps to the last value the entries give it, or else to its old value, and keys stay distinct |
| OrderedMap.PutAllKeys | database/google_sheets.py:206-213 | a dict built by assignments has at most as many keys as assignments plus initial keys, and every key comes from one of them |
| PrimeSheet.ItemNameShape | db.py:55 | a market name is the lower-cased, underscored base, then `_prime_`, then the lower-cased, underscored label, with no spaces and no upper-case letters |
| PrimeSheet.AllParseRows | db.py:94-102 | the loop reads every row without a `ValueError` exactly when each row it does not skip has five readable quantity cells |
| PrimeSheet.RowNamesInColumns | db.py:53-76 | a row contributes the names of its selected parts in the column order blueprint, first, second, third and fourth component |
| PrimeSheet.Names | db.py:139-183 | a name list either succeeds (always when quantities are not read, otherwise exactly when every kept row parses) or fails at the first unreadable cell |
| PrimeSheet.NamesCount | db.py:42-78 | the list is exactly as long as the number of selected parts over all rows not skipped |
| PrimeSheet.NamesMembers | db.py:139-183 | a name is listed exactly when some row not skipped has a selected part of that name |
| PrimeSheet.NamesPrefix | db.py:141 | the names of the first `k` rows are a prefix of the list: rows are read in order and appended |
| PrimeSheet.OwnedItems | db.py:88-129 | the owned dictionary is produced exactly when every kept row parses; otherwise the first unreadable cell is reported |
| PrimeSheet.LastOwnedNone | db.py:105-127 | a name is absent from the owned dictionary exactly when no kept part of that name has a label and a quantity above 0 |
| PrimeSheet.LaterPartWins | db.py:107-127 | when parts share a name, the value from the last of them (row order, then column order) is kept |
| PrimeSheet.OwnedItemsLookup | db.py:89-129 | the dictionary has distinct keys, and looking a name up gives the quantity of the last owned part of that name |
| PrimeSheet.KeptMembers | database/google_sheets.py:99-100 | the rows a rule keeps are exactly the input rows it does not skip |
| PrimeSheet.KeptNameList | database/google_sheets.py:58-60 | skipping rows inside the loop gives the same names as dropping those rows first |
| PrimeSheet.KeptOwnedDict | database/google_sheets.py:99-100 | skipping rows inside the loop gives the same dictionary as dropping those rows first |
| Db.ListingRow | db.py:44-76 | one row's names are its non-empty labels among columns 1, 4, 7, 10, 13 in that order, each made into a market name |
| Db.AllPrimeItemsAppend | db.py:42-78 | no rows give no names; one more row appends exactly that row's labelled names |
| Db.AllPrimeItemsCount | db.py:42-78 | the number of names equals the number of non-empty labels |
| Db.AllPrimeItemsMembers | db.py:44-76 | a name is listed exactly when some row has a non-empty label whose market name it is |
| Db.AllPrimeItemsShape | db.py:46-55 | every listed name is some row's base and label joined by `_prime_`, lower-cased and underscored |
| Db.ItemsToSell | db.py:88-129 | the dictionary is produced exactly when every row's five quantity cells are blank or integers; otherwise the first bad cell is named |
| Db.ForSaleOwned | db.py:94-127 | a part goes into the dictionary when its label is non-empty and its quantity, with blank read as 0, is above 0 |
| Db.ItemsToSellKeys | db.py:105-127 | the keys are exactly the names of parts for sale, they are distinct, and every value is above 0 |
| Db.ItemsToSellLastWins | db.py:107-127 | a name's value is the quantity of the last part for sale of that name |
| Db.ItemsToBuy | db.py:139-183 | the needed list is produced exactly when every row not marked `YES` parses; otherwise the first bad cell is named |
| Db.ItemsToBuyMembers | db.py:141-181 | a name is needed exactly when some row not marked `YES` has a labelled part of that name whose quantity is 0 |
| Db.ItemsToBuyBlank | db.py:147-155 | a labelled part with a blank quantity is needed exactly when it is the fourth component |
| Db.ItemsToBuyCompleted | db.py:142-143 | adding a row marked `YES` changes neither the list nor the error |
| Db.Num | db.py:247-254 | a cell becomes a number exactly when it is `YES`, `NO` or integer text, and any other text is returned unchanged |
| Db.NumOfString | db.py:251-252 | the decimal text of an integer is read back as that integer |
| GoogleSheets.AllPrimeItemsAppend | database/google_sheets.py:49-84 | one more row appends nothing when it is a Kavasa row with a blueprint, and its labelled names otherwise |
| GoogleSheets.AllPrimeItemsWithoutKavasa | database/google_sheets.py:58-60 | the names are those the `db.py` reader gives for the rows without a Kavasa blueprint row |
| GoogleSheets.AllPrimeItemsMembers | database/google_sheets.py:49-82 | a name is listed exactly when a row that is not a Kavasa blueprint row has a labelled part of that name |
| GoogleSheets.PrimeItemsToSell | database/google_sheets.py:96-138 | the dictionary is produced exactly when every row not marked `BUILD` parses; otherwise the first bad cell is named |
| GoogleSheets.PrimeItemsToSellWithoutBuild | database/google_sheets.py:99-100 | the result is the `db.py` sell dictionary of the rows not marked `BUILD` |
| GoogleSheets.PrimeItemsToSellKeys | database/google_sheets.py:113-136 | the keys are exactly the parts for sale in rows not marked `BUILD`, and every value is above 0 |
| GoogleSheets.PrimeItemsToBuySameAsDb | database/google_sheets.py:141-192 | the needed list is the `db.py` one, blank fourth component included |
| GoogleSheets.FirstUncounted | database/google_sheets.py:208 | the first row whose count cell is not an integer, with every earlier count readable |
| GoogleSheets.CountedItems | database/google_sheets.py:203-213 | an Items or Mods sheet is read exactly when every count cell is an integer; otherwise the first bad row is named |
| GoogleSheets.LastCountWitness | database/google_sheets.py:210-211 | a name's value comes from the last row of that name with a non-empty name and a count above 0 |
| GoogleSheets.CountedLookup | database/google_sheets.py:204-213 | the dictionary has distinct keys, at most one per row, and a name maps to the count of its last counted row |
| GoogleSheets.CountedKeys | database/google_sheets.py:206-211 | keys are taken verbatim from column 0; a name is a key exactly when some row names it with a count above 0, and its value is the last such count |
| MarketOrders.PricesConcat | main.py:120-122 | scanning two runs of the order book scans each in turn |
| MarketOrders.PricesMembers | warframe_market/warframe_market.py:127-133 | a price is collected exactly when some in-game sell order, not from the excluded profile, asks it |
| MarketOrders.PricesExcludeSubset | warframe_market/warframe_market.py:130 | leaving out a profile only removes prices |
| MarketOrders.LowestSpec | warframe_market.py:35-40 | the running minimum is at most the start value and at most every price, and is one of them |
| MarketOrders.LowestConcat | warframe_market.py:36-39 | the running minimum over two runs continues from the first run's result |
| MarketOrders.SortSpec | main.py:128 | sorting gives an ascending permutation of the prices |
| MarketOrders.SortLength | main.py:128 | sorting keeps the number of prices |
| MarketOrders.SmallestOfSorted | main.py:128 | the first `k` sorted prices are ascending, are drawn from the prices, and none left out is smaller |
| MainScript.ListedOrders | main.py:79-86 | one existing order per sell order, in payload order |
| MainScript.ListedOrdersLossless | main.py:79-86 | the sell orders can be rebuilt from the existing orders |
| MainScript.LowestPricesSpec | main.py:116-128 | the result is ascending, holds min(5, n) of the in-game sell prices as a sub-multiset of them (each price at most as often as it is asked), each asked by an in-game sell order, and no price left out is below one kept |
| MainScript.MinOf | main.py:144 | `min` of a non-empty list is an element of it and at most every element |
| MainScript.NewSellPrice | main.py:144-147 | the price is the lowest competitor minus 1 exactly when that stays at or above the minimum, and the lowest competitor otherwise; it is never above any price, and is at or above the minimum exactly when the lowest price is |
| MainScript.MinOfLowestPrices | main.py:128 | keeping the five lowest prices does not change the minimum |
| MainScript.UndercutLowestCompetitor | main.py:90-147 | the price set for an item follows the undercut rule on the global lowest in-game price and is at most every in-game competitor's price |
| SellScript.SellPrice | main2.py:7-11 | 0 (do not sell) exactly when the price is at most 10; otherwise one less, which is at least 10 and below the price |
| SellScript.SellListConcat | main2.py:25-37 | the sell list follows the order of the owned items |
| SellScript.SellListSound | main2.py:27-37 | every sell order is an owned item with its quoted id, the undercut price and the owned quantity |
| SellScript.SellListComplete | main2.py:29-37 | every owned item whose quote is above the minimum is on the list |
| SellScript.SellListCount | main2.py:25-37 | the list has one order per sellable item |
| Market.ExistingOrders | warframe_market/warframe_market.py:88-99 | one existing order per sell order, in order; `ducats` is absent exactly when the item has none |
| Market.ExistingOrdersLossless | warframe_market/warframe_market.py:90-98 | the sell orders can be rebuilt from the existing orders |
| Market.FindLowestPriceSpec | warframe_market/warframe_market.py:125-135 | the result is at most 100000 and at most every qualifying price, and is one of them or 100000; with no qualifying order it is 100000 |
| Market.OwnListingsIgnored | warframe_market/warframe_market.py:130 | an order from our own profile, wherever it sits, does not change the result |
| Market.StandardHeadersValid | warframe_market/warframe_market.py:11-18 | the standard header names are distinct |
| Market.AuthHeadersPut | warframe_market/warframe_market.py:156-160 | merging in the one-entry authorization dict is assigning its entry |
| Market.AuthHeadersSpec | warframe_market/warframe_market.py:188-192 | the authenticated headers have the standard names in the same order, the token under `Authorization`, and every other standard value |
| Market.NewOrderBody | warframe_market/warframe_market.py:194-199 | a new order body is a sell order carrying the item id, price and quantity |
| Market.NewOrderBodyInverse | warframe_market/warframe_market.py:194-199 | the body determines the order, and every sell body comes from one |
| LegacyMarket.InfoFromMarket | warframe_market.py:28-40 | `id` fails on an empty order book and otherwise gives the first order's id; `price` gives a price; any other request gives nothing |
| LegacyMarket.PriceAnswerSpec | warframe_market.py:34-40 | the price is at most 10000 and at most every in-game sell price, our own included, and is one of them or 10000 |
| LegacyMarket.IdAnswerFirstOrder | warframe_market.py:30-32 | the id answer is the first order's id, whatever follows |
| LegacyMarket.LegacyNotAbovePackage | warframe_market.py:35-39 | the older lookup never answers above the package's lookup for any profile |
| LegacyMarket.OwnListingCounts | warframe_market.py:37-39 | our own listing at the lowest price is what the older lookup reports |
| LegacyMarket.SellBody | warframe_market.py:80-85 | the sell body is a sell order carrying id, price and quantity |
| LegacyMarket.SellRequestAsPackage | warframe_market.py:71-85 | the older client sends the same body and headers as the package |
| Query.DealsAt | database/query.py:21-26 | every owned item is priced once, at its own position, with its owned quantity |
| Query.InsertStable | database/query.py:28 | a deal inserted into a descending list goes after the deals of its own price |
| Query.SortSpec | database/query.py:28 | sorting gives a descending permutation in which each price's deals keep their order |
| Query.Slice | database/query.py:28 | `s[:num]` is a prefix of length min(num, n), or n+num for negative num, never below 0 |
| Query.MostExpensiveSpec | database/query.py:28 | the result has the slice's length, is descending, is drawn from the deals, and no deal left out is priced above one kept |
| Query.MostExpensiveStable | database/query.py:28 | the kept deals of each price are the first ones of that price in item order |
| Query.MostExpensiveMembers | database/query.py:22-26 | every kept deal is an owned item at its oracle price and owned quantity |
| Query.MostExpensiveDistinct | database/query.py:22-28 | no item is kept twice |
| Local.FindItemId | database/local.py:17-20 | the loop answers as the row-by-row scan does |
| Local.SearchConcat | database/local.py:17-19 | the scan reads later rows only when earlier ones neither match nor are too short |
| Local.LookupFirstMatch | database/local.py:17-19 | the answer is column 1 of the first row whose column 0 is the item |
| Local.LookupNotFound | database/local.py:20 | with no matching row and none too short, the answer is `Not found` |
| Local.LaterRowsIgnored | database/local.py:18-19 | rows after the first match never change the answer |
| Local.LookupSound | database/local.py:17-20 | a found id is column 1 of a row whose column 0 equals the item exactly (no case folding or space handling), with every earlier row passed over; an `IndexError` comes from a row with no first cell, or a matching row with no second cell, before any match; reaching the end means every row was passed over |
| Dashboard.NewPrimeItem | warframe_economy/dashboard/models.py:5-10 | a new record has no ducats, quantity 1 and blank URL fields |
| Dashboard.SlugOr | warframe_economy/dashboard/models.py:16-19 | a set slug is kept; a blank one becomes the name lower-cased with spaces as `_`, with no spaces or capitals left |
| Dashboard.Save | warframe_economy/dashboard/models.py:15-20 | saving changes only the blank slug fields, filling each from its name |
| Dashboard.SaveIdempotent | warframe_economy/dashboard/models.py:15-20 | saving twice is saving once |
| Dashboard.SaveNewItem | warframe_economy/dashboard/models.py:16-19 | a new record gets the slugs of its names, non-empty when the names are |
| Dashboard.SlugStable | warframe_economy/dashboard/models.py:17 | a filled-in slug is what deriving it again would give |
| CsvToJson.FixtureOf | warframe_economy/utils/csv2json.py:22-29 | a row's object has model `dashboard.PrimeSet`, its key, name and URL from the first two cells, and no ducats |
| CsvToJson.FixtureRoundTrip | warframe_economy/utils/csv2json.py:25-29 | a two-cell row is recovered from its object, and a set object without ducats is the object of its row |
| CsvToJson.Fixtures | warframe_economy/utils/csv2json.py:19-31 | in `sets` mode, one object per row in row order with keys 1..n, failing at the first row with fewer than two cells; in `items` mode nothing |
| CsvToJson.ConsecutiveKeys | warframe_economy/utils/csv2json.py:19-31 | the keys of a converted file are 1..n and increase, and each object carries its row's first two cells |

## Left out

- Reading the Google Sheets (`read_data_from_sheet`) is left out: the external client is replaced by the rows as input.
- The SQLite code of `db.py` (connection, table creation, `sheet_to_db`, `add_itemID_to_db`) is left out. Only `num`, the cell conversion it uses, is modelled.
- All HTTP calls are left out: login, `sleep` rate limiting, environment reads, and the print-and-return-None error handling. The decoded payloads are inputs instead.
- Deleting and updating orders, and `get_item_id_from_market`, are left out; they are HTTP calls around the same header merge, which is modelled.
- The unused `mod_data` dict in `create_new_order` is left out.
- In `main.py`, timestamp parsing and the polling loop that sleeps 30 minutes are left out.
- In `main.py`, the discarded running minimum is left out.
- The `print` calls in the loops are left out.
- `main2.py` calls `get_info_from_market(item)` with one argument, while the function takes two and returns one value. That call site is not modelled. `SellScript.SellList` takes each item's id and price from a `quote` parameter.
- Django persistence (`super().save`), the field length limits and uniqueness constraints, and the admin module are left out.
- In `csv2json.py`, argparse, file reading and `json.dumps` are left out. The rows and the mode are inputs.
- Text.ParseIntAccepts: Python's `int()` also accepts surrounding whitespace, `_` between digits and non-ASCII digits. The model does not, so such cells take the error path here.
- Text.SlugIdempotent: `lower()` is modelled on ASCII letters only. Full Unicode case mapping is not modelled.
- Row widths: a row shorter than the columns a loop reads raises `IndexError`. The sheet functions require the minimum width instead (14 to list, 15 to read quantities, 17 where the status column is read, 2 for the Items and Mods sheets). `Local` and `CsvToJson` model the short-row error.
- MainScript.NewSellPrice: it requires a non-empty price list, and so do `MainScript.MinOf`, `MainScript.MinOfLowestPrices` and `MainScript.UndercutLowestCompetitor`. When an item has no in-game sell order, `min` of the empty list raises `ValueError` in `calculate_new_sell_price`, and the run ends in the main loop's exception handler. That error path is not modelled.
- Integers are unbounded, as in Python. No width or wrap-around applies.
