/**
 `merge_all_items`: matches the items of a source catalog to the items of a
 target catalog by id, merges each matched pair with `merge_items`, adds a
 placed clone of every unmatched source item to the target, and recomputes
 the target's extent when it is a collection.
 */
module CatalogMerge {
  import opened Options
  import opened OrderedDict
  import opened Stac
  import opened ItemMerge
  import opened PosixPath

  /** Every entry of `d` is stored under its item's id. */
  predicate KeyedById(d: Dict<Item>) {
    forall e :: e in d ==> e.1.id == e.0
  }

  /** The last of `items` whose id is `id`. */
  function Latest(items: seq<Item>, id: ItemId): (r: Item)
    requires id in Ids(items)
    ensures r.id == id && r in items
    decreases |items|
  {
    var n := |items| - 1;
    if items[n].id == id then items[n]
    else
      var i :| 0 <= i < |items| && items[i].id == id;
      assert items[..n][i] == items[i];
      Latest(items[..n], id)
  }

  /** `Latest` is the item at the last position holding the id. */
  lemma {:induction false} LatestIsLast(items: seq<Item>, id: ItemId, i: nat)
    requires i < |items| && items[i].id == id
    requires forall j :: i < j < |items| ==> items[j].id != id
    ensures Latest(items, id) == items[i]
    decreases |items|
  {
    var n := |items| - 1;
    if i < n {
      assert items[..n][i] == items[i];
      LatestIsLast(items[..n], id, i);
    }
  }

  /** `{item.id: item for item in items}`: a later item replaces an earlier one with its id. */
  function IndexById(items: seq<Item>): (index: Dict<Item>)
    ensures UniqueKeys(index)
    ensures KeyedById(index)
    ensures KeySet(index) == Ids(items)
    ensures forall id :: id in Ids(items) ==> Get(index, id) == Latest(items, id)
    decreases |items|
  {
    if |items| == 0 then []
    else
      var n := |items| - 1;
      var init := IndexById(items[..n]);
      IdsSnoc(items);
      Put(init, items[n].id, items[n])
  }

  /** The rank of an id among `items`: the position where it first occurs. */
  function FirstOccurrence(items: seq<Item>): ItemId -> int {
    id => FirstIndex(items, id)
  }

  /**
   The index lists the ids in the order they first occur among the source
   items: a later item with a known id replaces the value in place.
   */
  lemma {:induction false} IndexByIdOrder(items: seq<Item>)
    ensures SortedBy(IndexById(items), FirstOccurrence(items))
    decreases |items|
  {
    if |items| > 0 {
      var n := |items| - 1;
      IndexByIdOrder(items[..n]);
      IndexOrderStep(items, IndexById(items[..n]));
    }
  }

  /** One step of `IndexByIdOrder`: assigning the last item keeps the index in order. */
  lemma IndexOrderStep(items: seq<Item>, init: Dict<Item>)
    requires |items| > 0 && KeySet(init) == Ids(items[..|items| - 1])
    requires SortedBy(init, FirstOccurrence(items[..|items| - 1]))
    ensures SortedBy(Put(init, items[|items| - 1].id, items[|items| - 1]), FirstOccurrence(items))
  {
    var n := |items| - 1;
    var x := items[n];
    forall k | HasKey(init, k)
      ensures FirstOccurrence(items)(k) == FirstOccurrence(items[..n])(k) && FirstOccurrence(items)(k) < n
    {
      FirstIndexInPrefix(items, n, k);
    }
    if HasKey(init, x.id) {
      SortedPutPresent(init, x.id, x, FirstOccurrence(items), FirstOccurrence(items[..n]));
    } else {
      FirstIndexOfNew(items);
      SortedPutAbsent(init, x.id, x, FirstOccurrence(items), FirstOccurrence(items[..n]));
    }
  }

  /**
   The state of the walk over the target's items: the target items as they
   now stand, and the source items not yet matched, by id.
   */
  datatype Walk = Walk(items: seq<Item>, pending: Dict<Item>)

  function Prepend(x: Item, o: Outcome<Walk>): (r: Outcome<Walk>)
    ensures r.Ok? == o.Ok?
    ensures r.State() == o.State().(items := [x] + o.State().items)
    ensures r.Failed? ==> r.error == o.error
  {
    match o
    case Ok(w) => Ok(w.(items := [x] + w.items))
    case Failed(w, e) => Failed(w.(items := [x] + w.items), e)
  }

  /**
   The loop over the target's items: an item whose id is still pending is
   merged with that source item, after which the id is no longer pending; any
   other item is left as it is. A failed merge stops the walk with the items
   before it merged and the items after it untouched.
   */
  function MergeMatched(lib: Library, moveAssets: bool, ignoreConflicts: bool, items: seq<Item>, pending: Dict<Item>): (r: Outcome<Walk>)
    ensures |r.State().items| == |items|
    ensures ignoreConflicts ==> r.Ok?
    ensures r.Failed? ==> r.error.AssetConflict?
    ensures r.Ok? ==> KeySet(r.value.pending) == KeySet(pending) - Ids(items)
    decreases |items|
  {
    if |items| == 0 then Ok(Walk([], pending))
    else
      var t := items[0];
      IdsCons(items);
      match Lookup(pending, t.id)
      case None => Prepend(t, MergeMatched(lib, moveAssets, ignoreConflicts, items[1..], pending))
      case Some(source) =>
        match MergeItems(lib, source, t, moveAssets, ignoreConflicts)
        case Failed(partial, e) => Failed(Walk([partial] + items[1..], pending), e)
        case Ok(merged) => Prepend(merged, MergeMatched(lib, moveAssets, ignoreConflicts, items[1..], Remove(pending, t.id)))
  }

  /** `items[j]` is the first target item whose id is pending when the walk starts. */
  predicate Matched(pending: Dict<Item>, items: seq<Item>, j: nat)
    requires j < |items|
  {
    HasKey(pending, items[j].id) && FirstWithId(items, j)
  }

  /**
   What the walk leaves at position `j`: the merge of the pending source item
   into the first target item with its id, and the target item itself
   everywhere else.
   */
  predicate WalkedAt(lib: Library, moveAssets: bool, ignoreConflicts: bool, pending: Dict<Item>, items: seq<Item>, out: seq<Item>, j: nat)
    requires j < |items| && j < |out|
  {
    if Matched(pending, items, j) then
      MergeItems(lib, Get(pending, items[j].id), items[j], moveAssets, ignoreConflicts) == Ok(out[j])
    else out[j] == items[j]
  }

  /** Matching shifts by one when the first item is dropped and its id is no longer pending. */
  lemma {:induction false} MatchedShift(pending: Dict<Item>, pending': Dict<Item>, items: seq<Item>, j: nat)
    requires 0 < j < |items|
    requires !HasKey(pending', items[0].id)
    requires forall k :: k != items[0].id ==> (HasKey(pending', k) <==> HasKey(pending, k))
    ensures Matched(pending, items, j) <==> Matched(pending', items[1..], j - 1)
  {
    var rest := items[1..];
    assert rest[j - 1] == items[j];
    if items[j].id != items[0].id {
      if FirstWithId(rest, j - 1) {
        forall i | 0 <= i < j ensures items[i].id != items[j].id {
          if i > 0 { assert rest[i - 1] == items[i]; }
        }
      }
      if FirstWithId(items, j) {
        forall i | 0 <= i < j - 1 ensures rest[i].id != rest[j - 1].id {
          assert rest[i] == items[i + 1];
        }
      }
    }
  }

  /**
   On success the walk leaves each target item as `WalkedAt` says and the
   pending index without the ids of all target items.
   */
  lemma {:induction false} MatchedWalk(lib: Library, moveAssets: bool, ignoreConflicts: bool, items: seq<Item>, pending: Dict<Item>)
    requires UniqueKeys(pending)
    ensures var r := MergeMatched(lib, moveAssets, ignoreConflicts, items, pending);
            r.Ok? ==>
              && r.value.pending == Without(pending, Ids(items))
              && forall j :: 0 <= j < |items| ==> WalkedAt(lib, moveAssets, ignoreConflicts, pending, items, r.value.items, j)
    decreases |items|
  {
    var r := MergeMatched(lib, moveAssets, ignoreConflicts, items, pending);
    if |items| == 0 {
      WithoutAbsent(pending, Ids(items));
    } else if r.Ok? {
      var t := items[0];
      var rest := items[1..];
      var pending' := if HasKey(pending, t.id) then Remove(pending, t.id) else pending;
      var tail := MergeMatched(lib, moveAssets, ignoreConflicts, rest, pending');
      var x := r.value.items[0];
      assert r == Prepend(x, tail);
      MatchedWalk(lib, moveAssets, ignoreConflicts, rest, pending');
      assert r.value.pending == tail.value.pending == Without(pending', Ids(rest));
      IdsCons(items);
      assert Ids(items) == {t.id} + Ids(rest) == Ids(rest) + {t.id};
      if HasKey(pending, t.id) {
        WithoutWithout(pending, {t.id}, Ids(rest));
      } else {
        WithoutAbsentKey(pending, Ids(rest), t.id);
      }
      forall k | HasKey(pending', k) ensures Get(pending', k) == Get(pending, k) {
        if HasKey(pending, t.id) { WithoutGet(pending, {t.id}, k); }
      }
      forall j | 0 <= j < |items|
        ensures WalkedAt(lib, moveAssets, ignoreConflicts, pending, items, r.value.items, j)
      {
        if j > 0 {
          WalkedShift(lib, moveAssets, ignoreConflicts, pending, pending', items, x, tail.value.items, j);
        } else {
          assert Matched(pending, items, 0) <==> HasKey(pending, t.id);
        }
      }
    }
  }

  /** `WalkedAt` shifts by one like `Matched`, when the pending values agree. */
  lemma {:induction false} WalkedShift(lib: Library, moveAssets: bool, ignoreConflicts: bool, pending: Dict<Item>, pending': Dict<Item>,
                    items: seq<Item>, x: Item, out: seq<Item>, j: nat)
    requires 0 < j < |items| && j - 1 < |out|
    requires !HasKey(pending', items[0].id)
    requires forall k :: k != items[0].id ==> (HasKey(pending', k) <==> HasKey(pending, k))
    requires forall k :: HasKey(pending', k) ==> Get(pending', k) == Get(pending, k)
    ensures WalkedAt(lib, moveAssets, ignoreConflicts, pending', items[1..], out, j - 1) ==>
            WalkedAt(lib, moveAssets, ignoreConflicts, pending, items, [x] + out, j)
  {
    MatchedShift(pending, pending', items, j);
    assert ([x] + out)[j] == out[j - 1];
    assert items[1..][j - 1] == items[j];
  }

  /**
   Where a failed walk stopped: at `f`, the first target item with a pending
   id whose merge failed. The items before it are as `WalkedAt` says, it is
   left as the failed merge left it, and the items after it are untouched.
   */
  predicate FailedAt(lib: Library, moveAssets: bool, ignoreConflicts: bool, pending: Dict<Item>, items: seq<Item>, r: Outcome<Walk>, f: nat)
  {
    && r.Failed?
    && f < |items|
    && |r.partial.items| == |items|
    && Matched(pending, items, f)
    && (var m := MergeItems(lib, Get(pending, items[f].id), items[f], moveAssets, ignoreConflicts);
        m.Failed? && r.error == m.error && r.partial.items[f] == m.partial)
    && r.partial.items[f + 1..] == items[f + 1..]
    && forall j :: 0 <= j < f ==> WalkedAt(lib, moveAssets, ignoreConflicts, pending, items, r.partial.items, j)
  }

  /** A failure of the walk over the rest is a failure one position later of the walk over all items. */
  lemma {:induction false} FailedAtShift(lib: Library, moveAssets: bool, ignoreConflicts: bool, pending: Dict<Item>, pending': Dict<Item>,
                      items: seq<Item>, x: Item, tail: Outcome<Walk>, f: nat)
    requires |items| > 0
    requires !HasKey(pending', items[0].id)
    requires forall k :: k != items[0].id ==> (HasKey(pending', k) <==> HasKey(pending, k))
    requires forall k :: HasKey(pending', k) ==> Get(pending', k) == Get(pending, k)
    requires WalkedAt(lib, moveAssets, ignoreConflicts, pending, items, [x], 0)
    requires FailedAt(lib, moveAssets, ignoreConflicts, pending', items[1..], tail, f)
    ensures FailedAt(lib, moveAssets, ignoreConflicts, pending, items, Prepend(x, tail), f + 1)
  {
    var r := Prepend(x, tail);
    var rest := items[1..];
    forall j | 0 <= j < f + 1
      ensures WalkedAt(lib, moveAssets, ignoreConflicts, pending, items, r.partial.items, j)
    {
      if j > 0 {
        WalkedShift(lib, moveAssets, ignoreConflicts, pending, pending', items, x, tail.partial.items, j);
      } else {
        assert r.partial.items[0] == [x][0];
      }
    }
    MatchedShift(pending, pending', items, f + 1);
    assert rest[f] == items[f + 1];
    assert r.partial.items[f + 1] == tail.partial.items[f];
    assert r.partial.items[f + 2..] == tail.partial.items[f + 1..];
  }

  /** A failed walk failed at some target item, with no rollback of the merges before it. */
  lemma {:induction false} MatchedWalkFails(lib: Library, moveAssets: bool, ignoreConflicts: bool, items: seq<Item>, pending: Dict<Item>)
    requires UniqueKeys(pending)
    ensures var r := MergeMatched(lib, moveAssets, ignoreConflicts, items, pending);
            r.Failed? ==> exists f :: FailedAt(lib, moveAssets, ignoreConflicts, pending, items, r, f)
    decreases |items|
  {
    var r := MergeMatched(lib, moveAssets, ignoreConflicts, items, pending);
    if |items| > 0 && r.Failed? {
      var t := items[0];
      var rest := items[1..];
      var pending' := if HasKey(pending, t.id) then Remove(pending, t.id) else pending;
      if HasKey(pending, t.id) && MergeItems(lib, Get(pending, t.id), t, moveAssets, ignoreConflicts).Failed? {
        assert Matched(pending, items, 0);
        assert r.partial.items[1..] == rest;
        assert FailedAt(lib, moveAssets, ignoreConflicts, pending, items, r, 0);
      } else {
        var tail := MergeMatched(lib, moveAssets, ignoreConflicts, rest, pending');
        var x := r.partial.items[0];
        assert r == Prepend(x, tail);
        assert Matched(pending, items, 0) <==> HasKey(pending, t.id);
        assert WalkedAt(lib, moveAssets, ignoreConflicts, pending, items, [x], 0);
        MatchedWalkFails(lib, moveAssets, ignoreConflicts, rest, pending');
        var f: nat :| FailedAt(lib, moveAssets, ignoreConflicts, pending', rest, tail, f);
        forall k | HasKey(pending', k) ensures Get(pending', k) == Get(pending, k) {
          if HasKey(pending, t.id) { WithoutGet(pending, {t.id}, k); }
        }
        FailedAtShift(lib, moveAssets, ignoreConflicts, pending, pending', items, x, tail, f);
      }
    }
  }

  /**
   The assets of an item after `set_self_href` moves it from `prev` to
   `selfHref`: the same keys in the same order, each asset unchanged but for
   its href, which the library rebases.
   */
  function RebasedAssets(lib: Library, assets: Dict<Asset>, prev: Option<Href>, selfHref: Href): (r: Dict<Asset>)
    ensures |r| == |assets| && KeySet(r) == KeySet(assets)
    ensures forall i :: 0 <= i < |assets| ==>
              r[i].0 == assets[i].0 && r[i].1.(href := assets[i].1.href) == assets[i].1
    ensures forall k :: HasKey(assets, k) ==>
              Get(r, k) == Get(assets, k).(href := lib.rebaseHref(Get(assets, k).href, prev, selfHref))
  {
    MapValues(assets, (a: Asset) => a.(href := lib.rebaseHref(a.href, prev, selfHref)))
  }

  /**
   `move_assets` on an item whose self href is `selfHref`: the same keys in
   the same order, each asset unchanged but for its href, which is where the
   library moved the asset's file.
   */
  function MovedAssets(lib: Library, assets: Dict<Asset>, selfHref: Href): (r: Dict<Asset>)
    ensures |r| == |assets| && KeySet(r) == KeySet(assets)
    ensures forall i :: 0 <= i < |assets| ==>
              r[i].0 == assets[i].0 && r[i].1.(href := assets[i].1.href) == assets[i].1
    ensures forall k :: HasKey(assets, k) ==>
              Get(r, k) == Get(assets, k).(href := lib.moveItemAsset(Get(assets, k), selfHref))
  {
    MapValues(assets, (a: Asset) => a.(href := lib.moveItemAsset(a, selfHref)))
  }

  /**
   The clone of an unmatched source item that is added to the target: its
   self href is the layout strategy's href for it under `dir`, which rebases
   its relative asset hrefs; its collection link names the target when the
   target is a collection and is cleared otherwise; and its asset files are
   moved next to it when asked.
   */
  function PlaceUnmatched(lib: Library, target: Catalog, dir: Href, moveAssets: bool, item: Item): (r: Item)
    ensures r.id == item.id && r.geometry == item.geometry && r.bbox == item.bbox
    ensures r.properties == item.properties
    ensures KeySet(r.assets) == KeySet(item.assets)
  {
    var href := lib.layoutHref(item, dir);
    var copy := item.(selfHref := Some(href), assets := RebasedAssets(lib, item.assets, item.selfHref, href));
    var linked := copy.(collection := if target.kind.Collection? then Some(target.id) else None);
    if moveAssets then linked.(assets := MovedAssets(lib, linked.assets, href)) else linked
  }

  /**
   The loop over `ids_to_items.values()`: one placed clone per pending entry,
   in the index's order. When every entry is stored under its item's id, the
   clones carry the index's keys position by position, so they follow any
   order the keys are in; with unique keys they have distinct ids, exactly
   the keys.
   */
  function PlaceAll(lib: Library, target: Catalog, dir: Href, moveAssets: bool, pending: Dict<Item>): (added: seq<Item>)
    ensures |added| == |pending|
    ensures forall i :: 0 <= i < |pending| ==> added[i] == PlaceUnmatched(lib, target, dir, moveAssets, pending[i].1)
    ensures KeyedById(pending) ==> forall i :: 0 <= i < |added| ==> added[i].id == pending[i].0
    ensures KeyedById(pending) && UniqueKeys(pending) ==>
              DistinctIds(added) && Ids(added) == KeySet(pending) && |added| == |KeySet(pending)|
  {
    var added := seq(|pending|, i requires 0 <= i < |pending| => PlaceUnmatched(lib, target, dir, moveAssets, pending[i].1));
    assert KeyedById(pending) ==> forall i :: 0 <= i < |added| ==> added[i].id == pending[i].0 by {
      if KeyedById(pending) {
        forall i | 0 <= i < |added| ensures added[i].id == pending[i].0 {
          assert pending[i] in pending;
        }
      }
    }
    assert KeyedById(pending) && UniqueKeys(pending) ==>
             DistinctIds(added) && Ids(added) == KeySet(pending) && |added| == |KeySet(pending)| by {
      if KeyedById(pending) && UniqueKeys(pending) {
        ItemsOfKeys(added, pending);
      }
    }
    added
  }

  /** Keys in increasing `rank` give clones whose ids increase in `rank`. */
  lemma PlacedInOrder(lib: Library, target: Catalog, dir: Href, moveAssets: bool, pending: Dict<Item>, rank: ItemId -> int)
    requires SortedBy(pending, rank) && KeyedById(pending)
    ensures var added := PlaceAll(lib, target, dir, moveAssets, pending);
            forall i, j :: 0 <= i < j < |added| ==> rank(added[i].id) < rank(added[j].id)
  {
  }

  /** `merge_all_items(source, target, move_assets, ignore_conflicts)`. */
  function MergeAllItems(lib: Library, source: Catalog, target: Catalog, moveAssets: bool, ignoreConflicts: bool): (r: Outcome<Catalog>)
    ensures r.State().id == target.id && r.State().selfHref == target.selfHref
    ensures ignoreConflicts ==> (r.Ok? <==> target.selfHref.Some?)
    ensures r.Failed? ==> r.partial.kind == target.kind && |r.partial.items| == |target.items|
    ensures r.Failed? && r.error == MissingSelfHref ==> target.selfHref.None?
    ensures r.Ok? ==>
      && target.selfHref.Some?
      && |target.items| <= |r.value.items|
      && r.value.kind == if target.kind.Collection? then Collection(lib.extentOf(r.value.items)) else target.kind
  {
    var index := IndexById(source.items);
    match MergeMatched(lib, moveAssets, ignoreConflicts, target.items, index)
    case Failed(w, e) => Failed(target.(items := w.items), e)
    case Ok(w) =>
      if target.selfHref.None? then Failed(target.(items := w.items), MissingSelfHref)
      else
        var dir := Dirname(target.selfHref.value);
        var items := w.items + PlaceAll(lib, target, dir, moveAssets, w.pending);
        var kind := if target.kind.Collection? then Collection(lib.extentOf(items)) else target.kind;
        Ok(target.(items := items, kind := kind))
  }

  /**
   What the merge leaves at target position `j`: the first target item with
   an id some source item has is merged with the last source item with that
   id; every other target item is unchanged.
   */
  predicate MergedAt(lib: Library, moveAssets: bool, ignoreConflicts: bool, source: Catalog, target: Catalog, out: seq<Item>, j: nat)
    requires j < |target.items| && j < |out|
  {
    var t := target.items[j];
    if t.id in Ids(source.items) && FirstWithId(target.items, j) then
      MergeItems(lib, Latest(source.items, t.id), t, moveAssets, ignoreConflicts) == Ok(out[j])
    else out[j] == t
  }

  /** Over the index of the source items, `WalkedAt` is `MergedAt`. */
  lemma {:induction false} WalkedIsMerged(lib: Library, moveAssets: bool, ignoreConflicts: bool, source: Catalog, target: Catalog, out: seq<Item>, j: nat)
    requires j < |target.items| && j < |out|
    ensures WalkedAt(lib, moveAssets, ignoreConflicts, IndexById(source.items), target.items, out, j)
        <==> MergedAt(lib, moveAssets, ignoreConflicts, source, target, out, j)
  {
  }

  /**
   The clones of the entries of an index that is keyed by id and holds, for
   each of its ids, the last of `items` with that id.
   */
  lemma {:induction false} PlacedClones(lib: Library, target: Catalog, dir: Href, moveAssets: bool, items: seq<Item>, pending: Dict<Item>)
    requires UniqueKeys(pending)
    requires forall e :: e in pending ==> e.0 in Ids(items) && e.1 == Latest(items, e.0)
    ensures var added := PlaceAll(lib, target, dir, moveAssets, pending);
            && DistinctIds(added)
            && Ids(added) == KeySet(pending)
            && |added| == |KeySet(pending)|
            && forall i :: 0 <= i < |added| ==>
                 added[i].id in Ids(items) &&
                 added[i] == PlaceUnmatched(lib, target, dir, moveAssets, Latest(items, added[i].id))
  {
    var added := PlaceAll(lib, target, dir, moveAssets, pending);
    forall i | 0 <= i < |added|
      ensures added[i].id == pending[i].0 && pending[i].0 in Ids(items)
      ensures added[i] == PlaceUnmatched(lib, target, dir, moveAssets, Latest(items, pending[i].0))
    {
      assert pending[i] in pending;
    }
  }

  /** Items carrying, position by position, the keys of a dictionary with unique keys. */
  lemma {:induction false} ItemsOfKeys(added: seq<Item>, pending: Dict<Item>)
    requires UniqueKeys(pending)
    requires |added| == |pending| && forall i :: 0 <= i < |added| ==> added[i].id == pending[i].0
    ensures DistinctIds(added) && Ids(added) == KeySet(pending) && |added| == |KeySet(pending)|
  {
    assert DistinctIds(added) by {
      forall i, j | 0 <= i < j < |added| ensures added[i].id != added[j].id {
        UniqueKeysAt(pending, i, j);
      }
    }
    forall id ensures id in Ids(added) <==> id in KeySet(pending) {
      KeySetAt(pending, id);
    }
    KeySetCardinality(pending);
  }

  /** The clones added for the unmatched source items, as the merge computes them. */
  lemma {:induction false} AddedItems(lib: Library, source: Catalog, target: Catalog, dir: Href, moveAssets: bool, pending: Dict<Item>)
    requires pending == Without(IndexById(source.items), Ids(target.items))
    ensures var added := PlaceAll(lib, target, dir, moveAssets, pending);
            && DistinctIds(added)
            && Ids(added) == Ids(source.items) - Ids(target.items)
            && |added| == |Ids(source.items) - Ids(target.items)|
            && forall i :: 0 <= i < |added| ==>
                 added[i].id in Ids(source.items) &&
                 added[i] == PlaceUnmatched(lib, target, dir, moveAssets, Latest(source.items, added[i].id))
  {
    var index := IndexById(source.items);
    forall e | e in pending ensures e.0 in Ids(source.items) && e.1 == Latest(source.items, e.0) {
      GetUnique(index, e.0, e.1);
    }
    PlacedClones(lib, target, dir, moveAssets, source.items, pending);
  }

  /**
   A successful merge: each target item is as `MergedAt` says; after them
   come, each once, clones of the last source item of every source id no
   target item has, placed and linked as `PlaceUnmatched` says; and nothing
   else is added.
   */
  lemma {:induction false} MergeAllItemsSucceeded(lib: Library, source: Catalog, target: Catalog, moveAssets: bool, ignoreConflicts: bool)
    requires MergeAllItems(lib, source, target, moveAssets, ignoreConflicts).Ok?
    ensures var out := MergeAllItems(lib, source, target, moveAssets, ignoreConflicts).value.items;
            var n := |target.items|;
            var dir := Dirname(target.selfHref.value);
            && (forall j :: 0 <= j < n ==> MergedAt(lib, moveAssets, ignoreConflicts, source, target, out, j))
            && DistinctIds(out[n..])
            && Ids(out[n..]) == Ids(source.items) - Ids(target.items)
            && |out| == n + |Ids(source.items) - Ids(target.items)|
            && forall j :: n <= j < |out| ==>
                 out[j].id in Ids(source.items) &&
                 out[j] == PlaceUnmatched(lib, target, dir, moveAssets, Latest(source.items, out[j].id))
  {
    TargetItemsMerged(lib, source, target, moveAssets, ignoreConflicts);
    UnmatchedItemsAdded(lib, source, target, moveAssets, ignoreConflicts);
  }

  /** The target's own items after a successful merge. */
  lemma {:induction false} TargetItemsMerged(lib: Library, source: Catalog, target: Catalog, moveAssets: bool, ignoreConflicts: bool)
    requires MergeAllItems(lib, source, target, moveAssets, ignoreConflicts).Ok?
    ensures var out := MergeAllItems(lib, source, target, moveAssets, ignoreConflicts).value.items;
            forall j :: 0 <= j < |target.items| ==> MergedAt(lib, moveAssets, ignoreConflicts, source, target, out, j)
  {
    var index := IndexById(source.items);
    var w := MergeMatched(lib, moveAssets, ignoreConflicts, target.items, index);
    MatchedWalk(lib, moveAssets, ignoreConflicts, target.items, index);
    var out := MergeAllItems(lib, source, target, moveAssets, ignoreConflicts).value.items;
    assert out[..|target.items|] == w.value.items;
    forall j | 0 <= j < |target.items| ensures MergedAt(lib, moveAssets, ignoreConflicts, source, target, out, j) {
      assert out[j] == w.value.items[j];
      assert WalkedAt(lib, moveAssets, ignoreConflicts, index, target.items, w.value.items, j);
      WalkedIsMerged(lib, moveAssets, ignoreConflicts, source, target, out, j);
    }
  }

  /** The items a successful merge adds after the target's own. */
  lemma {:induction false} UnmatchedItemsAdded(lib: Library, source: Catalog, target: Catalog, moveAssets: bool, ignoreConflicts: bool)
    requires MergeAllItems(lib, source, target, moveAssets, ignoreConflicts).Ok?
    ensures var out := MergeAllItems(lib, source, target, moveAssets, ignoreConflicts).value.items;
            var n := |target.items|;
            var dir := Dirname(target.selfHref.value);
            && n <= |out|
            && DistinctIds(out[n..])
            && Ids(out[n..]) == Ids(source.items) - Ids(target.items)
            && |out| == n + |Ids(source.items) - Ids(target.items)|
            && forall j :: n <= j < |out| ==>
                 out[j].id in Ids(source.items) &&
                 out[j] == PlaceUnmatched(lib, target, dir, moveAssets, Latest(source.items, out[j].id))
  {
    var w := MergeMatched(lib, moveAssets, ignoreConflicts, target.items, IndexById(source.items)).value;
    var dir := Dirname(target.selfHref.value);
    SuccessfulMergeShape(lib, source, target, moveAssets, ignoreConflicts);
    AddedItems(lib, source, target, dir, moveAssets, w.pending);
    var out := MergeAllItems(lib, source, target, moveAssets, ignoreConflicts).value.items;
    assert out[|target.items|..] == PlaceAll(lib, target, dir, moveAssets, w.pending);
  }

  /**
   The items a successful merge adds come in the order in which their ids
   first occur among the source items.
   */
  lemma {:induction false} UnmatchedItemsInSourceOrder(lib: Library, source: Catalog, target: Catalog, moveAssets: bool, ignoreConflicts: bool)
    requires MergeAllItems(lib, source, target, moveAssets, ignoreConflicts).Ok?
    ensures var out := MergeAllItems(lib, source, target, moveAssets, ignoreConflicts).value.items;
            forall i, j :: |target.items| <= i < j < |out| ==>
              FirstIndex(source.items, out[i].id) < FirstIndex(source.items, out[j].id)
  {
    var index := IndexById(source.items);
    var w := MergeMatched(lib, moveAssets, ignoreConflicts, target.items, index).value;
    var dir := Dirname(target.selfHref.value);
    SuccessfulMergeShape(lib, source, target, moveAssets, ignoreConflicts);
    IndexByIdOrder(source.items);
    SortedWithout(index, Ids(target.items), FirstOccurrence(source.items));
    PlacedInOrder(lib, target, dir, moveAssets, w.pending, FirstOccurrence(source.items));
    var out := MergeAllItems(lib, source, target, moveAssets, ignoreConflicts).value.items;
    assert out[|target.items|..] == PlaceAll(lib, target, dir, moveAssets, w.pending);
    forall i, j | |target.items| <= i < j < |out|
      ensures FirstIndex(source.items, out[i].id) < FirstIndex(source.items, out[j].id)
    {
      assert out[i] == out[|target.items|..][i - |target.items|];
      assert out[j] == out[|target.items|..][j - |target.items|];
    }
  }

  /** A successful merge keeps the walked target items and appends the placed clones of the pending ones. */
  lemma {:induction false} SuccessfulMergeShape(lib: Library, source: Catalog, target: Catalog, moveAssets: bool, ignoreConflicts: bool)
    requires MergeAllItems(lib, source, target, moveAssets, ignoreConflicts).Ok?
    ensures var w := MergeMatched(lib, moveAssets, ignoreConflicts, target.items, IndexById(source.items));
            var out := MergeAllItems(lib, source, target, moveAssets, ignoreConflicts).value.items;
            && w.Ok?
            && w.value.pending == Without(IndexById(source.items), Ids(target.items))
            && |w.value.items| == |target.items|
            && out == w.value.items + PlaceAll(lib, target, Dirname(target.selfHref.value), moveAssets, w.value.pending)
  {
    MatchedWalk(lib, moveAssets, ignoreConflicts, target.items, IndexById(source.items));
  }

  /**
   Each source id is handled exactly once: when a target item has it, the
   first such target item is merged and no clone is added; otherwise exactly
   one clone is added. No other item is added.
   */
  lemma {:induction false} EachSourceIdHandledOnce(lib: Library, source: Catalog, target: Catalog, moveAssets: bool, ignoreConflicts: bool, id: ItemId)
    requires MergeAllItems(lib, source, target, moveAssets, ignoreConflicts).Ok?
    ensures var out := MergeAllItems(lib, source, target, moveAssets, ignoreConflicts).value.items;
            var n := |target.items|;
            && CountId(out[n..], id) == (if id in Ids(source.items) && id !in Ids(target.items) then 1 else 0)
            && forall j :: 0 <= j < n && target.items[j].id == id && id in Ids(source.items) && FirstWithId(target.items, j) ==>
                 MergeItems(lib, Latest(source.items, id), target.items[j], moveAssets, ignoreConflicts) == Ok(out[j])
  {
    var out := MergeAllItems(lib, source, target, moveAssets, ignoreConflicts).value.items;
    MergeAllItemsSucceeded(lib, source, target, moveAssets, ignoreConflicts);
    CountDistinct(out[|target.items|..], id);
    forall j | 0 <= j < |target.items| && target.items[j].id == id && id in Ids(source.items) && FirstWithId(target.items, j)
      ensures MergeItems(lib, Latest(source.items, id), target.items[j], moveAssets, ignoreConflicts) == Ok(out[j])
    {
      assert MergedAt(lib, moveAssets, ignoreConflicts, source, target, out, j);
    }
  }

  /**
   A failed merge. On an asset conflict it stopped at the first target item
   whose merge failed: the target items before it are as `MergedAt` says, that
   item keeps the assets added before the conflict, the items after it are
   untouched, nothing is added and the extent is not recomputed. Without a
   target self href, every matched item was merged and then nothing was added.
   */
  lemma {:induction false} MergeAllItemsFailed(lib: Library, source: Catalog, target: Catalog, moveAssets: bool, ignoreConflicts: bool)
    requires MergeAllItems(lib, source, target, moveAssets, ignoreConflicts).Failed?
    ensures var r := MergeAllItems(lib, source, target, moveAssets, ignoreConflicts);
            var out := r.partial.items;
            var n := |target.items|;
            && |out| == n
            && r.partial.kind == target.kind
            && (r.error == MissingSelfHref ==>
                  target.selfHref.None? &&
                  forall j :: 0 <= j < n ==> MergedAt(lib, moveAssets, ignoreConflicts, source, target, out, j))
            && (r.error.AssetConflict? ==>
                  exists f :: 0 <= f < n && StoppedAt(lib, moveAssets, ignoreConflicts, source, target, r, f))
  {
    var r := MergeAllItems(lib, source, target, moveAssets, ignoreConflicts);
    var index := IndexById(source.items);
    var w := MergeMatched(lib, moveAssets, ignoreConflicts, target.items, index);
    MatchedWalk(lib, moveAssets, ignoreConflicts, target.items, index);
    MatchedWalkFails(lib, moveAssets, ignoreConflicts, target.items, index);
    if w.Ok? {
      forall j | 0 <= j < |target.items| ensures MergedAt(lib, moveAssets, ignoreConflicts, source, target, r.partial.items, j) {
        WalkedIsMerged(lib, moveAssets, ignoreConflicts, source, target, r.partial.items, j);
      }
    } else {
      var f: nat :| FailedAt(lib, moveAssets, ignoreConflicts, index, target.items, w, f);
      forall j | 0 <= j < f ensures MergedAt(lib, moveAssets, ignoreConflicts, source, target, r.partial.items, j) {
        WalkedIsMerged(lib, moveAssets, ignoreConflicts, source, target, r.partial.items, j);
      }
      assert StoppedAt(lib, moveAssets, ignoreConflicts, source, target, r, f);
    }
  }

  /** How a merge that failed on an asset conflict left the target's items, `f` being where it stopped. */
  predicate StoppedAt(lib: Library, moveAssets: bool, ignoreConflicts: bool, source: Catalog, target: Catalog, r: Outcome<Catalog>, f: nat)
    requires f < |target.items| && |r.State().items| == |target.items|
  {
    var t := target.items[f];
    var out := r.State().items;
    && r.Failed?
    && t.id in Ids(source.items) && FirstWithId(target.items, f)
    && (var m := MergeItems(lib, Latest(source.items, t.id), t, moveAssets, ignoreConflicts);
        m.Failed? && r.error == m.error && out[f] == m.partial)
    && out[f + 1..] == target.items[f + 1..]
    && forall j :: 0 <= j < f ==> MergedAt(lib, moveAssets, ignoreConflicts, source, target, out, j)
  }

  /**
   Merging a catalog without items changes no item of the target: only a
   collection's extent is recomputed, and the call still needs a target self
   href.
   */
  lemma {:induction false} MergeEmptySource(lib: Library, source: Catalog, target: Catalog, moveAssets: bool, ignoreConflicts: bool)
    requires source.items == []
    ensures var r := MergeAllItems(lib, source, target, moveAssets, ignoreConflicts);
            && r.State().items == target.items
            && (r.Ok? <==> target.selfHref.Some?)
  {
    var index := IndexById(source.items);
    var w := MergeMatched(lib, moveAssets, ignoreConflicts, target.items, index);
    MatchedWalk(lib, moveAssets, ignoreConflicts, target.items, index);
    MatchedWalkFails(lib, moveAssets, ignoreConflicts, target.items, index);
    assert |w.value.pending| == 0;
    var out := w.value.items;
    forall j | 0 <= j < |target.items| ensures out[j] == target.items[j] {
      assert WalkedAt(lib, moveAssets, ignoreConflicts, index, target.items, out, j);
    }
    assert out == target.items;
    var r := MergeAllItems(lib, source, target, moveAssets, ignoreConflicts);
    if r.Ok? {
      assert r.value.items == out + [];
    }
  }

  /**
   Every item the merge adds is a clone of the last source item with its id
   whose self href is the layout strategy's href under the directory of the
   target's self href, whose collection link names the target exactly when
   the target is a collection, and whose assets keep their keys and all fields
   but the href: that is rebased to the new self href and then, when asset
   files are moved, replaced by the moved file's href.
   */
  lemma {:induction false} AddedItemsArePlacedClones(lib: Library, source: Catalog, target: Catalog, moveAssets: bool, ignoreConflicts: bool, j: nat)
    requires MergeAllItems(lib, source, target, moveAssets, ignoreConflicts).Ok?
    requires |target.items| <= j
    ensures var out := MergeAllItems(lib, source, target, moveAssets, ignoreConflicts).value.items;
            j < |out| ==>
            var a := out[j];
            && a.id in Ids(source.items)
            && var s := Latest(source.items, a.id);
            && a.selfHref == Some(lib.layoutHref(s, Dirname(target.selfHref.value)))
            && a.collection == (if target.kind.Collection? then Some(target.id) else None)
            && a.geometry == s.geometry && a.bbox == s.bbox && a.properties == s.properties
            && KeySet(a.assets) == KeySet(s.assets)
            && (forall k :: HasKey(s.assets, k) ==> Get(a.assets, k).(href := Get(s.assets, k).href) == Get(s.assets, k))
            && forall k :: HasKey(s.assets, k) ==>
                 var rebased := Get(s.assets, k).(href := lib.rebaseHref(Get(s.assets, k).href, s.selfHref, a.selfHref.value));
                 Get(a.assets, k) == if moveAssets then rebased.(href := lib.moveItemAsset(rebased, a.selfHref.value)) else rebased
  {
    MergeAllItemsSucceeded(lib, source, target, moveAssets, ignoreConflicts);
    var out := MergeAllItems(lib, source, target, moveAssets, ignoreConflicts).value.items;
    if j < |out| {
      PlacedAssets(lib, target, Dirname(target.selfHref.value), moveAssets, Latest(source.items, out[j].id));
    }
  }

  /**
   A placed clone's asset under each key is the item's asset with its href
   rebased to the new self href and then, when moving, replaced by the moved
   file's href.
   */
  lemma PlacedAssets(lib: Library, target: Catalog, dir: Href, moveAssets: bool, item: Item)
    ensures var r := PlaceUnmatched(lib, target, dir, moveAssets, item);
            && r.selfHref == Some(lib.layoutHref(item, dir))
            && forall k :: HasKey(item.assets, k) ==>
                 var rebased := Get(item.assets, k).(href := lib.rebaseHref(Get(item.assets, k).href, item.selfHref, r.selfHref.value));
                 Get(r.assets, k) == if moveAssets then rebased.(href := lib.moveItemAsset(rebased, r.selfHref.value)) else rebased
  {
  }
}
