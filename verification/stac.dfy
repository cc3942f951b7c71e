/**
 The catalog object model the merge works on: the fields the merge reads and
 writes, plus an item's other properties as one opaque value, and the library
 collaborators it calls, which the model treats as uninterpreted functions.
 */
module Stac {
  import opened Options
  import opened OrderedDict

  type Href = string
  type Key = string
  type ItemId = string

  /** A GeoJSON geometry object, kept as its text; only the geometry library interprets it. */
  datatype Geometry = Geometry(geoJson: string)

  /** A bounding box as the coordinate list `[minx, miny, maxx, maxy]`. */
  datatype BBox = BBox(coordinates: seq<real>)

  /** A collection's aggregate extent: spatial boxes and temporal intervals. */
  datatype Extent = Extent(spatial: seq<BBox>, temporal: seq<(Option<string>, Option<string>)>)

  /** An asset: a link to one data file plus descriptive fields. Cloning an asset copies this value. */
  datatype Asset = Asset(
    href: Href,
    title: Option<string>,
    description: Option<string>,
    mediaType: Option<string>,
    roles: seq<string>,
    properties: map<string, string>)

  /**
   An item. `selfHref` is the href of its "self" link (absent when it has
   none), `assets` its ordered asset dictionary and `collection` the id of the
   collection its "collection" link points to. `properties` holds everything
   else the item carries, its `datetime` among it, from which a collection's
   temporal extent is computed; the merge never changes it.
   */
  datatype Item = Item(
    id: ItemId,
    selfHref: Option<Href>,
    geometry: Geometry,
    bbox: BBox,
    assets: Dict<Asset>,
    collection: Option<string>,
    properties: map<string, string>)

  datatype CatalogKind = PlainCatalog | Collection(extent: Extent)

  /**
   A catalog or collection, with its hierarchy flattened. `items` lists every
   item reachable from it, as a recursive enumeration of all its items visits
   them; the items a merge adds are appended at the end, which is not where
   that enumeration would list them when the catalog has sub-catalogs.
   */
  datatype Catalog = Catalog(id: string, selfHref: Option<Href>, kind: CatalogKind, items: seq<Item>)

  /**
   The collaborators the merge calls, none of which it defines:
   - `union`: `shape(a).union(shape(b)).buffer(0)`, mapped back to GeoJSON;
   - `bounds`: the `.bounds` of a geometry;
   - `isAbsolute`: `is_absolute_href`;
   - `absolute`: an asset's `get_absolute_href`, given the asset's stored href
     and the self href of the item that owns it;
   - `makeRelative`: `make_relative_href(href, start)`;
   - `moveAssetFile`: `move_asset_file_to_item` with a relative link type,
     given an absolute asset href and the target item's self href; returns the new href;
   - `moveItemAsset`: the href `move_assets` gives one asset of an item whose
     self href is the second argument;
   - `rebaseHref`: the href an item's `set_self_href` leaves on one of its
     assets, given the asset's stored href, the item's previous self href and
     its new one (pystac keeps relative asset hrefs pointing at the same file);
   - `layoutHref`: `BestPracticesLayoutStrategy().get_item_href(item, dir)`;
   - `extentOf`: the extent `update_extent_from_items` computes from a collection's items.
   */
  datatype Library = Library(
    union: (Geometry, Geometry) -> Geometry,
    bounds: Geometry -> BBox,
    isAbsolute: Href -> bool,
    absolute: (Href, Option<Href>) -> Href,
    makeRelative: (Href, Option<Href>) -> Href,
    moveAssetFile: (Href, Option<Href>) -> Href,
    moveItemAsset: (Asset, Href) -> Href,
    rebaseHref: (Href, Option<Href>, Href) -> Href,
    layoutHref: (Item, Href) -> Href,
    extentOf: seq<Item> -> Extent)

  /**
   Why a merge stopped. `AssetConflict` is the exception raised for an asset
   key the target item already has; `MissingSelfHref` is the error
   `os.path.dirname` raises when the target catalog has no self href.
   */
  datatype MergeError =
    | AssetConflict(target: ItemId, key: Key, source: ItemId)
    | MissingSelfHref

  /**
   The outcome of a merge that mutates its target in place: the new target,
   or the target as it was left when the error was raised (nothing done before
   the error is undone).
   */
  datatype Outcome<+T> = Ok(value: T) | Failed(partial: T, error: MergeError) {

    /** The target's state after the call, whether or not it succeeded. */
    function State(): T {
      match this
      case Ok(v) => v
      case Failed(p, _) => p
    }
  }

  /** The ids of a sequence of items. */
  function Ids(items: seq<Item>): set<ItemId> {
    set i | 0 <= i < |items| :: items[i].id
  }

  /** No two items share an id. */
  predicate DistinctIds(items: seq<Item>) {
    forall i, j :: 0 <= i < j < |items| ==> items[i].id != items[j].id
  }

  /** `items[j]` is the first item with its id. */
  predicate FirstWithId(items: seq<Item>, j: nat)
    requires j < |items|
  {
    forall i :: 0 <= i < j ==> items[i].id != items[j].id
  }

  /** The position of the first of `items` with the id `id`, or `|items|` when none has it. */
  function FirstIndex(items: seq<Item>, id: ItemId): (i: nat)
    ensures i <= |items|
    ensures i < |items| ==> items[i].id == id
    ensures forall j :: 0 <= j < i ==> items[j].id != id
    ensures i < |items| <==> id in Ids(items)
    decreases |items|
  {
    if |items| == 0 then 0
    else if items[0].id == id then 0
    else
      var i := 1 + FirstIndex(items[1..], id);
      assert forall j :: 1 <= j < i ==> items[j] == items[1..][j - 1];
      i
  }

  /** An id that occurs in a prefix first occurs at the same position in the whole sequence. */
  lemma FirstIndexInPrefix(items: seq<Item>, n: nat, id: ItemId)
    requires n <= |items| && id in Ids(items[..n])
    ensures FirstIndex(items, id) == FirstIndex(items[..n], id) < n
  {
    var i := FirstIndex(items[..n], id);
    assert items[i] == items[..n][i];
    forall j | 0 <= j < i ensures items[j].id != id {
      assert items[j] == items[..n][j];
    }
  }

  /** An id that first occurs in the last item is found at the last position. */
  lemma FirstIndexOfNew(items: seq<Item>)
    requires |items| > 0 && items[|items| - 1].id !in Ids(items[..|items| - 1])
    ensures FirstIndex(items, items[|items| - 1].id) == |items| - 1
  {
    var n := |items| - 1;
    forall j | 0 <= j < n ensures items[j].id != items[n].id {
      assert items[..n][j] == items[j];
    }
  }

  /** How many of `items` have the id `id`. */
  function CountId(items: seq<Item>, id: ItemId): nat
    decreases |items|
  {
    if |items| == 0 then 0
    else (if items[0].id == id then 1 else 0) + CountId(items[1..], id)
  }

  /** The ids of a sequence are the first item's id and the ids of the rest. */
  lemma IdsCons(items: seq<Item>)
    requires |items| > 0
    ensures Ids(items) == {items[0].id} + Ids(items[1..])
  {
    forall id | id in Ids(items) ensures id in {items[0].id} + Ids(items[1..]) {
      var i :| 0 <= i < |items| && items[i].id == id;
      if i > 0 { assert items[1..][i - 1] == items[i]; }
    }
    forall id | id in Ids(items[1..]) ensures id in Ids(items) {
      var i :| 0 <= i < |items[1..]| && items[1..][i].id == id;
      assert items[i + 1] == items[1..][i];
    }
  }

  /** The ids of a sequence are the ids of all but its last item and the last item's id. */
  lemma IdsSnoc(items: seq<Item>)
    requires |items| > 0
    ensures Ids(items) == Ids(items[..|items| - 1]) + {items[|items| - 1].id}
  {
    var n := |items| - 1;
    forall id | id in Ids(items) ensures id in Ids(items[..n]) + {items[n].id} {
      var i :| 0 <= i < |items| && items[i].id == id;
      if i < n { assert items[..n][i] == items[i]; }
    }
  }

  /** In items with distinct ids, an id occurs once if present and not at all otherwise. */
  lemma {:induction false} CountDistinct(items: seq<Item>, id: ItemId)
    requires DistinctIds(items)
    ensures CountId(items, id) == if id in Ids(items) then 1 else 0
    decreases |items|
  {
    if |items| > 0 {
      IdsCons(items);
      CountDistinct(items[1..], id);
      if items[0].id == id {
        forall i | 0 <= i < |items[1..]| ensures items[1..][i].id != id {
          assert items[1..][i] == items[i + 1];
        }
      }
    }
  }
}
