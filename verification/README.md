# stactools merge, modelled in Dafny

This project models the catalog merge of stactools (`stactools_core/stactools/core/merge.py`). It proves the properties the code promises.

The merge has two layers:

- `merge_items` merges the asset dictionary of a source item into a target item. A key the target already has is skipped or raises an error, depending on `ignore_conflicts`. Every other asset is cloned, its href is rewritten and the clone is inserted under the same key. When every asset has been handled, the target's geometry becomes the union of both geometries and its bounding box becomes the bounds of that union.
- `merge_all_items` indexes the source catalog's items by id; a later duplicate id replaces an earlier one. It walks the target catalog's items and merges each item whose id is still pending, and that id then stops being pending. It adds a placed clone of every source item that stayed unmatched. It links each clone to the target when the target is a collection. It recomputes a collection's extent and returns the target.

## Modules

- `Options`: `Option`, which models Python's `None`.
- `OrderedDict`: the Python `dict`, an insertion-ordered list of key/value entries. Order matters in two places: a failure part-way through the asset loop depends on it, and so does the order in which unmatched items are added.
  - `Put` models assignment to a key.
  - `Remove` models `del`.
  - `Lookup` models `.get`.
- `Seqs`: two facts about plain sequences that the proofs use.
- `PosixPath`: `os.path.dirname` (POSIX).
- `Stac`: the item, asset and catalog values, plus the result type.
  - The result type is `Outcome<T>`. It is either `Ok(value)` or `Failed(partial, error)`, where `partial` is the target as the error left it.
  - `Library` bundles the collaborators the merge calls but does not define, as uninterpreted function values: geometry union and bounds, the href utilities, the rebasing of asset hrefs when an item's self href changes, the layout strategy, the asset-moving helpers and the extent computation.
- `ItemMerge`: `merge_items`.
- `CatalogMerge`: `merge_all_items`.

Mutation in place is modelled by returning the target's new state. The lemmas about `merge_items` assume the source's asset dictionary has unique keys, as every Python dict does. The source item and catalog are plain input values, so "the source is not mutated" holds by construction.

Facts about the code that the model keeps:

- The conflict error is a plain `Exception` (merge.py:36-39). The model names it `MergeError.AssetConflict(target, key, source)`.
- Only the first target item with a given id is merged, because its id is deleted from the index right after (merge.py:93-100).
- The unmatched items are added in the order their id first occurs in the source (merge.py:91, 105). Each is taken from the last source item with that id.
- Target ids need not be unique. Nothing in merge.py:93-100 checks them.
- A collection's extent is recomputed even when the source has no items (merge.py:121-122).
- `os.path.dirname` fails when the target catalog has no self href (merge.py:104). The model names that failure `MergeError.MissingSelfHref`. It comes after every matched item has been merged.

## Model

| member | source | states |
|---|---|---|
| OrderedDict.Put | stactools_core/stactools/core/merge.py:56 | Assigning a key adds exactly that key, makes it map to the new value and keeps every other key's value and the uniqueness of keys. Assigning a key already present keeps every key at its position. |
| OrderedDict.PutAbsent | stactools_core/stactools/core/merge.py:56 | Assigning a key the dict lacks appends one entry at the end, after all existing entries. |
| OrderedDict.SortedPutPresent | stactools_core/stactools/core/merge.py:91 | Assigning a key already present keeps the keys in the order they had. |
| OrderedDict.SortedPutAbsent | stactools_core/stactools/core/merge.py:91 | Assigning a new key that ranks after every present key keeps the keys ordered by rank. |
| OrderedDict.Lookup | stactools_core/stactools/core/merge.py:94 | `.get` returns a value exactly when the key is present, and that value is stored under the key. |
| OrderedDict.Remove | stactools_core/stactools/core/merge.py:100 | `del` removes exactly the given key and keeps keys unique. Every remaining entry was in the dict, and each remaining key keeps its value. |
| OrderedDict.SortedWithout | stactools_core/stactools/core/merge.py:100 | Deleting keys keeps the remaining keys in their relative order. |
| PosixPath.Dirname | stactools_core/stactools/core/merge.py:104 | The directory is a prefix of the path, empty when the path has no '/', and followed in the path only by slashes up to the last '/'. It ends in '/' only when it consists of slashes, and a head of only slashes is kept whole. |
| PosixPath.DirnameOfJoin | stactools_core/stactools/core/merge.py:104 | The directory of `dir + "/" + name` is `dir`, for a non-empty `dir` that does not end in '/' and a `name` without '/'. |
| PosixPath.DirnameAtRoot | stactools_core/stactools/core/merge.py:104 | The directory of a file directly under the root is `/`. |
| ItemMerge.Rehome | stactools_core/stactools/core/merge.py:41-55 | An inserted asset differs from the source asset only in its href. Moving, the href is where the file of the absolute href was moved. Otherwise it is the absolute href, made relative to the target's self href when the stored href was relative. |
| ItemMerge.MergeAssets | stactools_core/stactools/core/merge.py:31-56 | The asset loop never removes or reorders what the target had; on failure the assets inserted so far stay (no rollback). It keeps keys unique and never fails when conflicts are ignored. A failure names the target, the source and a key both items hold. |
| ItemMerge.IgnoringLoopMatchesReference | stactools_core/stactools/core/merge.py:31-34 | Ignoring conflicts, the loop yields the target's entries followed by the rehomed source entries whose key the target lacks, in source order. |
| ItemMerge.StrictLoopMatchesReference | stactools_core/stactools/core/merge.py:31-39 | Not ignoring conflicts, the loop fails at the first source entry whose key the target has, after appending exactly the rehomed entries before it. Without a shared key it appends all of them. |
| ItemMerge.MergeAssetsMatchesReference | stactools_core/stactools/core/merge.py:31-56 | For one call, the loop over the source's assets, starting from the target's, equals its closed-form reference under both policies. |
| ItemMerge.MergeItems | stactools_core/stactools/core/merge.py:12-62 | On success the geometry is `union(source, target)` and the bbox is the bounds of that geometry. On a conflict, geometry and bbox are untouched because they are only set after the loop. Id, self href, collection link and the other item properties never change, and ignoring conflicts never fails. |
| ItemMerge.SuccessfulMergeAssets | stactools_core/stactools/core/merge.py:31-56 | On success, under either policy, the assets are the old entries, in place, followed by rehomed clones of the source entries with new keys, in source order. |
| ItemMerge.SuccessKeepsTargetAssets | stactools_core/stactools/core/merge.py:31-56 | On success the keys are the old keys plus the source keys. No existing asset is replaced, each new key holds the rehomed source asset, and with disjoint keys every source asset is added. |
| ItemMerge.MergeStopsAtFirstConflict | stactools_core/stactools/core/merge.py:31-39 | Not ignoring conflicts, the merge fails exactly when the key sets overlap. It fails at the first shared key in source order. The earlier source assets stay inserted, and geometry and bbox are unchanged. |
| ItemMerge.InsertedAssetIsClone | stactools_core/stactools/core/merge.py:41-56 | A new asset equals the source asset except for its href. An absolute stored href becomes the absolute href. A relative one becomes the absolute href made relative to the target's self href. When moving, the href is the moved file's href. |
| CatalogMerge.LatestIsLast | stactools_core/stactools/core/merge.py:91 | The source item kept for an id is the one at the last position holding that id. |
| CatalogMerge.IndexById | stactools_core/stactools/core/merge.py:90-91 | The id index has unique keys and exactly the source ids. Each entry is stored under its own item's id, and each id maps to the last source item with it. |
| CatalogMerge.IndexByIdOrder | stactools_core/stactools/core/merge.py:90-91 | The index lists the ids in increasing order of their first occurrence in the source. A later duplicate replaces the value in place and does not move its id. |
| CatalogMerge.MergeMatched | stactools_core/stactools/core/merge.py:93-100 | The walk keeps the number of target items and never fails when conflicts are ignored. On success the pending ids are the source ids no target item has. |
| CatalogMerge.MatchedWalk | stactools_core/stactools/core/merge.py:93-100 | On success the first target item with each pending id is merged with that id's source item. Every other target item is unchanged. The pending index loses exactly the target ids and keeps its order. |
| CatalogMerge.MatchedWalkFails | stactools_core/stactools/core/merge.py:93-100 | A failed walk stopped at a matched target item whose merge failed. The items before it stay merged, it keeps its partial assets and the items after it are untouched. |
| CatalogMerge.AddedItems | stactools_core/stactools/core/merge.py:105-109 | The clones of the pending items have distinct ids, exactly the unmatched source ids, one per id. Each is the placed clone of the last source item with its id. |
| CatalogMerge.RebasedAssets | stactools_core/stactools/core/merge.py:106-108 | Setting a clone's self href keeps its asset keys and their order. Each asset keeps every field but its href, which is rebased from the old self href to the new one. |
| CatalogMerge.MovedAssets | stactools_core/stactools/core/merge.py:116-119 | Moving an item's assets keeps the keys and their order. Each asset keeps every field but its href, which becomes the moved file's href. |
| CatalogMerge.PlaceUnmatched | stactools_core/stactools/core/merge.py:106-119 | The placed clone keeps the source item's id, geometry, bounding box, other properties and asset keys. |
| CatalogMerge.PlaceAll | stactools_core/stactools/core/merge.py:105-119 | The loop adds one clone per pending entry, in the index's order. When each entry is stored under its item's id, the clones carry the index's keys position by position. With unique keys as well, their ids are distinct and are exactly the keys, one clone per key. |
| CatalogMerge.PlacedInOrder | stactools_core/stactools/core/merge.py:105 | If each index entry is stored under its item's id and the index's keys increase in some rank, then the ids of the clones increase in that rank, in the order they are added. |
| CatalogMerge.PlacedClones | stactools_core/stactools/core/merge.py:91-109 | When the index has unique keys and each entry is the last source item with its id, the clones have distinct ids, exactly the index's keys. Each clone is the placed clone of the last source item with its id. |
| CatalogMerge.MergeAllItems | stactools_core/stactools/core/merge.py:65-124 | The result is the target with its id and self href unchanged. A collection's extent is recomputed from the final items; a plain catalog keeps its kind. A failure adds nothing and leaves the extent alone. When conflicts are ignored, it succeeds exactly when the target has a self href. |
| CatalogMerge.MergeAllItemsSucceeded | stactools_core/stactools/core/merge.py:90-124 | On success every target item is merged or untouched as the id rule says. After the target items come one clone per unmatched source id and nothing else. |
| CatalogMerge.TargetItemsMerged | stactools_core/stactools/core/merge.py:90-100 | After a successful merge, the first target item with each source id is merged with the last source item with that id. Every other target item is unchanged. |
| CatalogMerge.UnmatchedItemsAdded | stactools_core/stactools/core/merge.py:102-109 | After a successful merge, the items after the target's own have distinct ids, exactly the source ids no target item has. Each is the placed clone of the last source item with its id. |
| CatalogMerge.UnmatchedItemsInSourceOrder | stactools_core/stactools/core/merge.py:90-109 | After a successful merge, the added items come in the order in which their ids first occur among the source items. |
| CatalogMerge.EachSourceIdHandledOnce | stactools_core/stactools/core/merge.py:90-109 | Each source id is either merged into the first target item with it or added as exactly one clone, never both. No id outside the source is added. |
| CatalogMerge.MergeAllItemsFailed | stactools_core/stactools/core/merge.py:93-104 | On an asset conflict the walk stopped at the first failing matched item. Earlier items stay merged and later ones are untouched. On a missing self href every matched item is merged. In both cases nothing is added and the extent is not recomputed. |
| CatalogMerge.AddedItemsArePlacedClones | stactools_core/stactools/core/merge.py:103-119 | Each added item clones the last source item with its id, keeping its geometry, bounding box and other properties. Its self href is the layout href under the directory of the target's self href. Its collection link is the target exactly when the target is a collection, and `None` otherwise. Its assets keep their keys and every field but the href. The href is rebased from the source item's self href to the new one, then replaced by the moved file's href when moving. |
| CatalogMerge.MergeEmptySource | stactools_core/stactools/core/merge.py:90-124 | Merging a source without items leaves every target item as it was. It succeeds exactly when the target has a self href. |

## Left out

- Shapely geometry: `shape`, `union`, `buffer(0)`, `mapping` and `.bounds` are floating-point computational geometry in a foreign library. The model uses the uninterpreted `Library.union` and `Library.bounds`, and does not model a failure of the geometry library or an item without geometry.
- The pystac href utilities are library internals that are not shown, so they are uninterpreted functions. These are `Asset.get_absolute_href`, `is_absolute_href` and `make_relative_href`.
- `BestPracticesLayoutStrategy.get_item_href` and `Collection.update_extent_from_items` are also uninterpreted library functions.
- An item's properties other than those the merge touches, its `datetime` among them, are one opaque map of strings, `Item.properties`. JSON values are not modelled. The model proves that the merge keeps them, so `Library.extentOf` sees each item's dates. How the temporal extent is computed from them is left to that function.
- `move_asset_file_to_item` and `move_assets` are filesystem moves in `stactools.core.copy`, which is not part of this model. Each moved href is an uninterpreted result, and a move never fails. The test that raises, or skips, when a destination file already exists is not modelled. `merge_items` passes `ignore_conflicts` on to `move_asset_file_to_item` (merge.py:43-47). The call to `do_move_assets` in `merge_all_items` (merge.py:117-119) does not pass it, so there a file conflict would raise whatever `ignore_conflicts` is.
- `CatalogMerge.MergeAllItems`: the clause "when conflicts are ignored, it succeeds exactly when the target has a self href" holds only because moves never fail in the model. With a file conflict while moving, merge.py:117-119 would raise even when conflicts are ignored.
- `ItemMerge.MergeItems`: a failure is always an asset key conflict, because moves never fail in the model. Not ignoring conflicts, `move_asset_file_to_item` could also raise on an existing destination file (merge.py:43-47).
- The catalog hierarchy is flattened. A catalog is the sequence its recursive `get_all_items` enumeration yields. Parent and root links, which `add_item` also sets, are not modelled, and neither is any href handling inside `add_item`.
- Added items are appended at the end of that sequence. `add_item` (merge.py:109) attaches them to the root catalog, whose own items are listed before those of its sub-catalogs. When the target has sub-catalogs, the model's item order therefore differs from the enumeration order, and so does the sequence handed to `Library.extentOf`.
- `CatalogMerge.AddedItemsArePlacedClones`: the rebasing that pystac's `set_self_href` applies to asset hrefs (merge.py:107) is the uninterpreted `Library.rebaseHref`. The model does not say which hrefs it leaves as they are.
- A self href missing in `merge_items` is passed to the uninterpreted href functions as `None`. The model does not say whether pystac would raise there.
- The docstring of `merge_all_items` says the target catalog is not mutated. The code mutates and returns it, and the model follows the code.
- `stactools_sentinel2/stactools/sentinel2/commands.py` is command-line wiring, JSON and file reading, COG conversion and object saving over readers that are not shown.
