/**
 `merge_items`: merges the assets of a source item into a target item under a
 conflict policy, then replaces the target's geometry and bounding box with
 the union of both geometries. The source item is an input value and is never
 changed; the result is the target's new state.
 */
module ItemMerge {
  import opened Options
  import opened OrderedDict
  import opened Stac
  import opened Seqs

  /** The arguments of one `merge_items` call. */
  datatype Call = Call(lib: Library, source: Item, target: Item, moveAssets: bool, ignoreConflicts: bool)

  /**
   The clone of a source asset that is inserted into the target: it differs
   from the source asset only in its href. Moving, that is where the file of
   the asset's absolute href was moved next to the target; otherwise it is
   the absolute href, made relative to the target's self href when the stored
   href was relative. The target's self href is the one read before the loop
   starts.
   */
  function Rehome(c: Call, a: Asset): (r: Asset)
    ensures r.(href := a.href) == a
    ensures var absolute := c.lib.absolute(a.href, c.source.selfHref);
            && (c.moveAssets ==> r.href == c.lib.moveAssetFile(absolute, c.target.selfHref))
            && (!c.moveAssets && c.lib.isAbsolute(a.href) ==> r.href == absolute)
            && (!c.moveAssets && !c.lib.isAbsolute(a.href) ==> r.href == c.lib.makeRelative(absolute, c.target.selfHref))
  {
    var absolute := c.lib.absolute(a.href, c.source.selfHref);
    var href :=
      if c.moveAssets then c.lib.moveAssetFile(absolute, c.target.selfHref)
      else if !c.lib.isAbsolute(a.href) then c.lib.makeRelative(absolute, c.target.selfHref)
      else absolute;
    a.(href := href)
  }

  /**
   The asset loop: visits the source entries `pending` in order, `acc` being
   the target's asset dictionary so far. A key the target already has is
   skipped when conflicts are ignored and otherwise stops the loop with the
   assets inserted so far left in place.
   */
  function MergeAssets(c: Call, pending: Dict<Asset>, acc: Dict<Asset>): (r: Outcome<Dict<Asset>>)
    ensures acc <= r.State()
    ensures UniqueKeys(acc) ==> UniqueKeys(r.State())
    ensures c.ignoreConflicts ==> r.Ok?
    ensures r.Failed? ==>
      && r.error.AssetConflict?
      && r.error.target == c.target.id && r.error.source == c.source.id
      && HasKey(pending, r.error.key)
      && HasKey(r.partial, r.error.key)
    decreases |pending|
  {
    if |pending| == 0 then Ok(acc)
    else
      var (key, asset) := pending[0];
      if HasKey(acc, key) then
        if c.ignoreConflicts then MergeAssets(c, pending[1..], acc)
        else Failed(acc, AssetConflict(c.target.id, key, c.source.id))
      else
        PutAbsent(acc, key, Rehome(c, asset));
        MergeAssets(c, pending[1..], Put(acc, key, Rehome(c, asset)))
  }

  /** `merge_items(source, target, move_assets, ignore_conflicts)`. */
  function MergeItems(lib: Library, source: Item, target: Item, moveAssets: bool, ignoreConflicts: bool): (r: Outcome<Item>)
    ensures r.State().id == target.id
    ensures r.State().selfHref == target.selfHref
    ensures r.State().collection == target.collection
    ensures r.State().properties == target.properties
    ensures ignoreConflicts ==> r.Ok?
    ensures r.Ok? ==>
      && r.value.geometry == lib.union(source.geometry, target.geometry)
      && r.value.bbox == lib.bounds(r.value.geometry)
    ensures r.Failed? ==>
      && r.partial.geometry == target.geometry
      && r.partial.bbox == target.bbox
      && r.error.AssetConflict?
      && r.error.target == target.id && r.error.source == source.id
      && HasKey(source.assets, r.error.key) && HasKey(r.partial.assets, r.error.key)
  {
    var c := Call(lib, source, target, moveAssets, ignoreConflicts);
    match MergeAssets(c, source.assets, target.assets)
    case Failed(partial, e) => Failed(target.(assets := partial), e)
    case Ok(merged) =>
      var union := lib.union(source.geometry, target.geometry);
      Ok(target.(assets := merged, geometry := union, bbox := lib.bounds(union)))
  }

  /** `Rehome` as a function value, so that every use denotes the same function. */
  function Rehomer(c: Call): Asset -> Asset {
    a => Rehome(c, a)
  }

  /** The position of the first entry of `src` whose key is in `keys`, if any. */
  function FirstShared(src: Dict<Asset>, keys: set<Key>): (r: Option<nat>)
    ensures r.Some? ==>
      && r.value < |src|
      && src[r.value].0 in keys
      && forall j :: 0 <= j < r.value ==> src[j].0 !in keys
    ensures r.None? ==> KeySet(src) !! keys
    decreases |src|
  {
    if |src| == 0 then None
    else if src[0].0 in keys then Some(0)
    else
      match FirstShared(src[1..], keys)
      case None => None
      case Some(i) => Some(i + 1)
  }

  /**
   What the asset loop computes, stated without the loop: ignoring conflicts,
   the target followed by the rehomed source entries whose key the target
   lacks; otherwise, when some source key is already in the target, a failure
   at the first such key in source order with exactly the rehomed source
   entries before it appended, and when none is, the target followed by all
   rehomed source entries.
   */
  function ReferenceMerge(c: Call, src: Dict<Asset>, tgt: Dict<Asset>): Outcome<Dict<Asset>> {
    if c.ignoreConflicts then Ok(tgt + MapValues(Without(src, KeySet(tgt)), Rehomer(c)))
    else
      match FirstShared(src, KeySet(tgt))
      case None => Ok(tgt + MapValues(src, Rehomer(c)))
      case Some(i) => Failed(tgt + MapValues(src[..i], Rehomer(c)), AssetConflict(c.target.id, src[i].0, c.source.id))
  }

  lemma {:induction false} FirstSharedAbsentKey(src: Dict<Asset>, keys: set<Key>, k: Key)
    requires !HasKey(src, k)
    ensures FirstShared(src, keys + {k}) == FirstShared(src, keys)
    decreases |src|
  {
    if |src| > 0 {
      FirstSharedAbsentKey(src[1..], keys, k);
    }
  }

  /** Ignoring conflicts, the loop appends the rehomed source entries whose key is new. */
  lemma {:induction false} IgnoringLoopMatchesReference(c: Call, src: Dict<Asset>, acc: Dict<Asset>)
    requires UniqueKeys(src) && c.ignoreConflicts
    ensures MergeAssets(c, src, acc) == Ok(acc + MapValues(Without(src, KeySet(acc)), Rehomer(c)))
    decreases |src|
  {
    if |src| > 0 {
      var (k, a) := src[0];
      var rest := src[1..];
      assert src == [(k, a)] + rest;
      if HasKey(acc, k) {
        IgnoringLoopMatchesReference(c, rest, acc);
      } else {
        var b := Rehome(c, a);
        var acc' := Put(acc, k, b);
        PutAbsent(acc, k, b);
        IgnoringLoopMatchesReference(c, rest, acc');
        WithoutAbsentKey(rest, KeySet(acc), k);
        var w := Without(rest, KeySet(acc));
        ConsFirst((k, a), rest, Rehomer(c), KeySet(acc));
        ConsFirst((k, a), w, Rehomer(c), KeySet(acc));
        var m := MapValues(w, Rehomer(c));
        ConcatAssociative(acc, [(k, b)], m);
      }
    } else {
      assert acc + [] == acc;
    }
  }

  /** Not ignoring conflicts, the loop stops at the first source key the target already has. */
  lemma {:induction false} StrictLoopMatchesReference(c: Call, src: Dict<Asset>, acc: Dict<Asset>)
    requires UniqueKeys(src) && !c.ignoreConflicts
    ensures MergeAssets(c, src, acc) == ReferenceMerge(c, src, acc)
    decreases |src|
  {
    if |src| > 0 {
      var (k, a) := src[0];
      var rest := src[1..];
      assert src == [(k, a)] + rest;
      if HasKey(acc, k) {
        assert src[..0] == [];
        assert MapValues(src[..0], Rehomer(c)) == [];
        assert acc + [] == acc;
      } else {
        var b := Rehome(c, a);
        var acc' := Put(acc, k, b);
        PutAbsent(acc, k, b);
        StrictLoopMatchesReference(c, rest, acc');
        FirstSharedAbsentKey(rest, KeySet(acc), k);
        match FirstShared(rest, KeySet(acc))
        case None =>
          ConsFirst((k, a), rest, Rehomer(c), {});
          var m := MapValues(rest, Rehomer(c));
          ConcatAssociative(acc, [(k, b)], m);
        case Some(i) =>
          PrefixOfCons(src, i);
          ConsFirst((k, a), rest[..i], Rehomer(c), {});
          var m := MapValues(rest[..i], Rehomer(c));
          ConcatAssociative(acc, [(k, b)], m);
      }
    } else {
      assert acc + [] == acc;
    }
  }

  /** The asset loop of a call computes `ReferenceMerge` of the source's and the target's assets. */
  lemma {:induction false} MergeAssetsMatchesReference(c: Call)
    requires UniqueKeys(c.source.assets)
    ensures MergeAssets(c, c.source.assets, c.target.assets) == ReferenceMerge(c, c.source.assets, c.target.assets)
  {
    if c.ignoreConflicts {
      IgnoringLoopMatchesReference(c, c.source.assets, c.target.assets);
    } else {
      StrictLoopMatchesReference(c, c.source.assets, c.target.assets);
    }
  }

  /**
   On success, under either policy, the target's assets are its old entries,
   in place, followed by the rehomed source entries whose key it lacked, in
   source order.
   */
  lemma {:induction false} SuccessfulMergeAssets(lib: Library, source: Item, target: Item, moveAssets: bool, ignoreConflicts: bool)
    requires UniqueKeys(source.assets)
    ensures var c := Call(lib, source, target, moveAssets, ignoreConflicts);
            var r := MergeItems(lib, source, target, moveAssets, ignoreConflicts);
            r.Ok? ==> r.value.assets == target.assets + MapValues(Without(source.assets, KeySet(target.assets)), Rehomer(c))
  {
    var c := Call(lib, source, target, moveAssets, ignoreConflicts);
    MergeAssetsMatchesReference(c);
    if !ignoreConflicts && FirstShared(source.assets, KeySet(target.assets)).None? {
      WithoutAbsent(source.assets, KeySet(target.assets));
    }
  }

  /** Key-wise reading of "the target followed by the rehomed source entries with new keys". */
  lemma {:induction false} AppendedEntries(c: Call, src: Dict<Asset>, tgt: Dict<Asset>, k: Key)
    requires UniqueKeys(src)
    ensures var r := tgt + MapValues(Without(src, KeySet(tgt)), Rehomer(c));
            && KeySet(r) == KeySet(tgt) + KeySet(src)
            && (HasKey(tgt, k) ==> Get(r, k) == Get(tgt, k))
            && (HasKey(src, k) && !HasKey(tgt, k) ==> Get(r, k) == Rehome(c, Get(src, k)))
  {
    var w := Without(src, KeySet(tgt));
    GetConcat(tgt, MapValues(w, Rehomer(c)), k);
    if HasKey(src, k) && !HasKey(tgt, k) {
      WithoutGet(src, KeySet(tgt), k);
    }
  }

  /**
   On success no key is removed and no asset the target had is replaced; the
   keys are the old keys plus the source keys, and each new key holds the
   rehomed clone of the source asset. When the key sets are disjoint, every
   source asset is added.
   */
  lemma {:induction false} SuccessKeepsTargetAssets(lib: Library, source: Item, target: Item, moveAssets: bool, ignoreConflicts: bool)
    requires UniqueKeys(source.assets)
    requires MergeItems(lib, source, target, moveAssets, ignoreConflicts).Ok?
    ensures var c := Call(lib, source, target, moveAssets, ignoreConflicts);
            var merged := MergeItems(lib, source, target, moveAssets, ignoreConflicts).value.assets;
            && KeySet(merged) == KeySet(target.assets) + KeySet(source.assets)
            && (forall k :: HasKey(target.assets, k) ==> Get(merged, k) == Get(target.assets, k))
            && (forall k :: HasKey(source.assets, k) && !HasKey(target.assets, k) ==>
                  Get(merged, k) == Rehome(c, Get(source.assets, k)))
            && (KeySet(source.assets) !! KeySet(target.assets) ==>
                  |merged| == |target.assets| + |source.assets|)
  {
    var c := Call(lib, source, target, moveAssets, ignoreConflicts);
    SuccessfulMergeAssets(lib, source, target, moveAssets, ignoreConflicts);
    AppendedEntries(c, source.assets, target.assets, "");
    forall k | HasKey(target.assets, k) || HasKey(source.assets, k) {
      AppendedEntries(c, source.assets, target.assets, k);
    }
    if KeySet(source.assets) !! KeySet(target.assets) {
      WithoutAbsent(source.assets, KeySet(target.assets));
    }
  }

  /**
   Not ignoring conflicts, the merge fails exactly when the item key sets
   overlap, and then at the first shared key in source order: the source
   assets before it are already in the target and stay there, and the geometry
   and bounding box are not touched.
   */
  lemma {:induction false} MergeStopsAtFirstConflict(lib: Library, source: Item, target: Item, moveAssets: bool)
    requires UniqueKeys(source.assets)
    ensures var c := Call(lib, source, target, moveAssets, false);
            var r := MergeItems(lib, source, target, moveAssets, false);
            var first := FirstShared(source.assets, KeySet(target.assets));
            && (r.Failed? <==> !(KeySet(source.assets) !! KeySet(target.assets)))
            && (r.Failed? ==>
                  && first.Some?
                  && r.error == AssetConflict(target.id, source.assets[first.value].0, source.id)
                  && r.partial.assets == target.assets + MapValues(source.assets[..first.value], Rehomer(c))
                  && r.partial.geometry == target.geometry
                  && r.partial.bbox == target.bbox)
  {
    var c := Call(lib, source, target, moveAssets, false);
    MergeAssetsMatchesReference(c);
    var first := FirstShared(source.assets, KeySet(target.assets));
    if first.Some? {
      var k := source.assets[first.value].0;
      assert source.assets[first.value] in source.assets;
      EntryHasKey(source.assets, source.assets[first.value]);
      assert k in KeySet(source.assets) * KeySet(target.assets);
    }
  }

  /**
   A newly inserted asset is the source asset with only its href rewritten.
   Without moving, an absolute stored href becomes the asset's absolute href,
   and a relative one becomes that absolute href made relative to the target
   item's self href; when moving, it is the href the moved file gets.
   */
  lemma {:induction false} InsertedAssetIsClone(lib: Library, source: Item, target: Item, moveAssets: bool, ignoreConflicts: bool, k: Key)
    requires UniqueKeys(source.assets)
    requires MergeItems(lib, source, target, moveAssets, ignoreConflicts).Ok?
    requires HasKey(source.assets, k) && !HasKey(target.assets, k)
    ensures var a := Get(source.assets, k);
            var merged := MergeItems(lib, source, target, moveAssets, ignoreConflicts).value.assets;
            var absolute := lib.absolute(a.href, source.selfHref);
            && HasKey(merged, k)
            && var b := Get(merged, k);
            && b.(href := a.href) == a
            && (!moveAssets && lib.isAbsolute(a.href) ==> b.href == absolute)
            && (!moveAssets && !lib.isAbsolute(a.href) ==> b.href == lib.makeRelative(absolute, target.selfHref))
            && (moveAssets ==> b.href == lib.moveAssetFile(absolute, target.selfHref))
  {
    SuccessKeepsTargetAssets(lib, source, target, moveAssets, ignoreConflicts);
  }
}
