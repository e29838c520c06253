# Nearest geopoints — a Dafny model

This project models the logic of `nearest_geopoints.py`, a small service that
answers "which known places are closest to the user". It loads a feed of
geopoint records at startup and means to keep the valid ones (as written,
one item of the wrong kind empties the whole load; see "## Findings"). For
each query it reads
the user's location, scores every loaded point by its distance from that
location rounded to two decimals, sorts the scored points by distance, and
returns the first ten.

The model covers three pure pieces of that file:

- **Dataset record filter** (`GeoValidator`, with the generic `Selection`).
  The input is the JSON value as `json.load` returns it (`JsonData.Json`).
  Anything other than a list loads as the empty list. In the corrected
  loader `GeoValidator.LoadGeopoints`, each item of a list is kept, unchanged
  and in order, exactly when it is an object with the keys `id`, `name`,
  `latitude` and `longitude` and both coordinates are numeric. As written
  (`GeoValidator.LoadGeopointsAsWritten`), an item on which `in` or `.get`
  raises empties the whole load instead (see "## Findings").
  Python's `key in item` is modelled for every kind of item
  (`JsonData.Contains`): a key test on an object, an element test on a list,
  a substring test on a string, and a `TypeError` on null, booleans and
  numbers. `isinstance(x, (int, float))` also admits `true` and `false`,
  because `bool` is a subclass of `int`; `JsonData.Number` therefore has a
  `Bool` case.
- **User-location validator** (`GeoValidator.LoadUserLocation`). The input
  must be an object with numeric `latitude` and `longitude`. A non-object,
  a missing key and a non-numeric coordinate are three distinct errors. No
  default location is ever produced.
- **Nearest selection** (`NearestSelector`, with the generic `StableSort`).
  An empty dataset fails first, then a bad user location fails. Otherwise
  every point is paired with its rounded distance, the pairs are sorted by
  Python's stable `list.sort`, and the first ten are returned.

The haversine formula and the rounding to two decimals are floating-point
code. They are represented by a parameter `distance: (Location, Location) -> int`
that gives the rounded distance in hundredths of a kilometre. As in the
source, the user location is the first argument. The parameter is a total
function: every pair of locations gets a distance. The model claims no
other property of it: no symmetry, no zero self-distance, no
non-negativity.

The sort is specified independently of its algorithm. `StableSort.Sorted`
states the order. `StableSort.WithKey` picks out the entries that share one
distance, in order. The sort is proved sorted, a permutation, and stable: for
every distance, the entries with that distance keep their dataset order. It
is also proved to be the only sorted sequence with that stability property
(`StableSort.SortIsUniqueStableOrder`). That is the meaning of Python's
stable `list.sort` by key.

The model follows the code on these points:

- there is no latitude/longitude range check;
- `id` and `name` only have to be present, and their types are not checked;
- booleans pass the numeric check;
- `FindNearest` passes `ResultLimit = 10` to `SelectNearest`, which takes
  the limit as a parameter.

## Model

| member | source | states |
|---|---|---|
| `JsonData.AsNumber` | nearest_geopoints.py:91 | succeeds exactly on ints, floats and booleans (what `isinstance(x, (int, float))` admits) and returns the very value it checked |
| `JsonData.Contains` | nearest_geopoints.py:87 | Python's `key in value`: raises exactly on null, booleans and numbers; key membership on an object; element membership on a list; on a string, true iff the key occurs at some position of it |
| `JsonData.IsSubstringFindsOccurrence` | nearest_geopoints.py:87 | the front-to-back search Python's `in` does on a string succeeds iff the key occupies some run of positions of the string |
| `JsonData.RaisingDoesNotDependOnKey` | nearest_geopoints.py:87 | whether `key in value` raises depends on the value only, never on the key |
| `JsonData.ContainsAll` | nearest_geopoints.py:87 | `all(k in item for k in keys)` is true iff every key is present, and raises iff the very first test raises |
| `GeoValidator.ClassifyItem` | nearest_geopoints.py:85-94 | one loop pass keeps an item iff it is a valid record, and keeps it unchanged with the coordinates its record holds (`Coherent`); it raises iff the item is not an object and the key tests do not come back false |
| `GeoValidator.ValidateItemsAsWritten` | nearest_geopoints.py:84-103 | the loop as written aborts (and the load returns `[]`) iff some item raises |
| `GeoValidator.WrittenPointsAreCoherent` | nearest_geopoints.py:85-95 | every point the loop as written keeps carries the coordinates of its own record |
| `GeoValidator.NoValidItemKeepsNothingAsWritten` | nearest_geopoints.py:85-95 | when no item is a valid record, the loop as written either raises or keeps nothing |
| `GeoValidator.LoadGeopointsAsWritten` | nearest_geopoints.py:80-82 | as written, a feed that is not a list loads as the empty list |
| `GeoValidator.ScalarItemEmptiesLoadAsWritten` | nearest_geopoints.py:85-103 | as written, one null, boolean or number item anywhere in the feed makes the whole load return the empty list |
| `GeoValidator.ScalarItemCounterexample` | nearest_geopoints.py:85-103 | on `[5, {"id": 1, "name": "A", "latitude": 0, "longitude": 0}]` the code as written loads nothing, while the per-item skip loads the valid record |
| `GeoValidator.CheckItem` | nearest_geopoints.py:87-94 | corrected loop pass: accepts an item iff it is a valid record, yields exactly what the as-written pass keeps, and never raises |
| `GeoValidator.LoadGeopoints` | nearest_geopoints.py:80-95 | a non-list feed loads as the empty list, and a list never loads more records than it has items |
| `GeoValidator.LoadIsOrderedSelection` | nearest_geopoints.py:84-95 | the dataset is the ordered subsequence of the valid items: an item is kept iff it is valid, it is kept unchanged, and the kept records keep their order |
| `GeoValidator.LoadedPointsAreCoherent` | nearest_geopoints.py:84-95 | every loaded point carries the coordinates of its own record |
| `GeoValidator.BadItemIsSkipped` | nearest_geopoints.py:87-94 | a bad item anywhere in the feed is skipped, and the items before and after it load as if it were absent |
| `GeoValidator.AgreeOnOneMoreItem` | nearest_geopoints.py:85-95 | an item that does not raise, put in front of a feed on which the two loops agree, keeps them in agreement |
| `GeoValidator.AgreeWhenNothingRaises` | nearest_geopoints.py:84-95 | on a feed in which no item raises (a feed of objects, for one) the loop as written never aborts and loads exactly what the corrected loader loads |
| `GeoValidator.LoadUserLocation` | nearest_geopoints.py:124-132 | succeeds iff the value is an object with numeric `latitude` and `longitude`, and then returns exactly those coordinates; a non-object and a missing key give their own errors, and every other failure is the coordinate-type error |
| `Selection.FilterMapIsOrderedSelection` | nearest_geopoints.py:84-95 | appending the accepted items in a loop produces the values the check gives at exactly the accepted positions, in increasing order |
| `Selection.FilterMapAppend` | nearest_geopoints.py:85-95 | filtering a concatenation filters each part in turn |
| `Selection.RejectedElementIsDropped` | nearest_geopoints.py:88-93 | an item the check rejects (`continue`) leaves no trace in the result |
| `StableSort.InsertAddsEntry` | nearest_geopoints.py:210 | inserting adds exactly the new entry: the multiset grows by that one entry |
| `StableSort.InsertKeepsSorted` | nearest_geopoints.py:210 | inserting into a sorted list keeps it sorted |
| `StableSort.SortByDistance` | nearest_geopoints.py:210 | the sort returns a non-decreasing permutation of its input |
| `StableSort.InsertKeepsTies` | nearest_geopoints.py:210 | an inserted entry lands in front of every entry that already has its distance, so that sorting, which inserts each entry into the sorted rest of the input, keeps ties in input order |
| `StableSort.SortKeepsTiesInOrder` | nearest_geopoints.py:210 | the sort is stable: for every distance, the entries with that distance appear in their original order |
| `StableSort.SortIsUniqueStableOrder` | nearest_geopoints.py:210 | any sorted sequence that keeps ties in their original order equals the sort's result, so the sort is Python's stable sort by key |
| `StableSort.SortedWithSameTiesAreEqual` | nearest_geopoints.py:210 | two sorted sequences that agree on the entries of every distance are equal |
| `StableSort.SortedPrefixIsClosest` | nearest_geopoints.py:213 | the first `n` entries of a sorted list are a sub-multiset of it, and nothing after the cut is nearer than anything before it |
| `StableSort.PrefixKeepsEarliestTies` | nearest_geopoints.py:213 | cutting after `n` entries keeps, for every distance, a prefix of the entries with that distance |
| `NearestSelector.Score` | nearest_geopoints.py:199-207 | every dataset point gets exactly one entry, in dataset order, carrying the point unchanged and its rounded distance from the user |
| `NearestSelector.SelectNearest` | nearest_geopoints.py:209-213 | the selection has `min(limit, N)` entries and is sorted by distance |
| `NearestSelector.SelectNearestLeavesNothingNearer` | nearest_geopoints.py:209-213 | the selection is drawn from the scored entries, and every scored entry left out is at least as far as every entry kept |
| `NearestSelector.SelectNearestCutsTiesInDatasetOrder` | nearest_geopoints.py:209-213 | among entries of equal distance, the ones kept are the earliest in dataset order |
| `NearestSelector.SelectedEntriesAreScoredPoints` | nearest_geopoints.py:199-213 | every returned entry is a dataset point carrying its own distance from the user |
| `NearestSelector.FindNearest` | nearest_geopoints.py:184-213 | an empty dataset fails with the no-data error whatever the user location; otherwise the query succeeds iff the location is valid, a bad location fails with its validation error, and a success holds `min(10, N)` entries sorted by distance |
| `NearestSelector.QueryReturnsFirstTenSorted` | nearest_geopoints.py:199-213 | a successful query is exactly the first `min(10, N)` entries of the scored dataset after the stable sort, with nothing left out nearer and ties cut in dataset order |
| `NearestSelector.InvalidFeedGivesNoData` | nearest_geopoints.py:80-95 | a feed with no valid record loads an empty dataset, with the loader as written and with the corrected one, so every query on it fails with the no-data error |
| `NearestSelector.QueryScoresRecordCoordinates` | nearest_geopoints.py:199-213 | on a loaded dataset, every returned entry is a loaded point whose record holds the point's own coordinates, and its distance is taken from the user to exactly those coordinates |

## Findings

| source | as written | input that shows it | evidently intended | confidence | as-written member | corrected member |
|---|---|---|---|---|---|---|
| nearest_geopoints.py:87-103 | `k in item` raises `TypeError` on a null, boolean or number item; `item.get` raises `AttributeError` on a list or string item that contains all four key names. The exception leaves the loop, and `except Exception` returns `[]` for the whole feed | `[5, {"id": 1, "name": "A", "latitude": 0, "longitude": 0}]` loads `[]` | the bad item is skipped like the other invalid items, as the loop's own comments say, and the valid record is loaded | medium; not executed | `GeoValidator.ScalarItemCounterexample` | `GeoValidator.LoadGeopoints` |

The corrected loader `GeoValidator.LoadGeopoints` skips every item that is
not a valid record. It is the loader the query model uses. For it,
`GeoValidator.BadItemIsSkipped` proves the intended property: any bad item is
skipped and the rest of the feed still loads. `GeoValidator.AgreeWhenNothingRaises`
proves that the two loaders differ only on feeds where some item raises.

## Left out

- Haversine distance (nearest_geopoints.py:25-57) and `round(distance, 2)` (line 207): floating-point trigonometry. They are the `distance` parameter, in integer hundredths of a kilometre. It is taken to be total, and no other property of it is assumed.
- NearestSelector.FindNearest: takes the distance to be total, so it drops every error the haversine computation raises. The scoring loop (lines 199-207) is outside any `try`, so each of these makes the query fail with an unhandled error rather than return a list. Known cases:
  - For two nearly antipodal points, `a` on line 52 can round to slightly more than 1, and then `math.sqrt(1 - a)` on line 53 raises `ValueError`.
  - An integer coordinate too large for a float (10^312, say) passes both numeric checks (lines 91 and 130), and then `math.radians` (lines 42-45) raises `OverflowError`.
  - An infinite coordinate (from a literal such as `1e400`) can make `math.sin` (line 52) raise `ValueError`.
- File existence checks, `open`, `json.load` and JSON decode errors (lines 72-78, 96-99, 117-123, 133-135): I/O and library parsing. The model starts from the parsed value.
- Re-raising a user-location `ValueError` as `RuntimeError` (lines 136-138): this only changes the message. The model keeps the three validation causes as `LocationError` values.
- JSON `NaN` and `Infinity`, which `json.load` accepts, and number literals beyond the float range such as `1e400`, which it reads as infinity: `JFloat` carries a real number, so these values are not represented. `JInt` is unbounded, like Python's `int`.
- The FastAPI app, the lifespan hook, the module-level `geopoints` variable, the HTTP 500 mapping and the `print` logging (lines 140-166, 170-197): framework plumbing. The loaded dataset is passed to `FindNearest` as an argument.
- The response dictionaries `{"geopoint": ..., "distance_km": ...}` are modelled as `StableSort.Ranked` values. The kept record keeps every key it was read with (`GeoPoint.record`).
