/**
 `process_data` of src/functions.py rewrites the tree in place; with no sub-
 object shared between two places of the tree, that is the pure function
 `Prune` below. A dict is walked over a snapshot of its entries: an entry
 whose key is to be removed goes; under `tables`, `paragraphs` and `cells`
 each list element first receives the page number of its bounding regions
 (`HoistElement`); then the value is pruned recursively. A list is pruned
 element by element and a scalar is returned as it is.
 */
module Pruning {
  import opened JsonTree

  const BoundingRegions := "bounding_regions"
  const PageNumber := "page_number"

  /** The keys whose list elements receive their regions' page number. */
  const HoistKeys: set<string> := {"tables", "paragraphs", "cells"}

  /** The three key names are distinct and neither of the two inner keys names a collection. */
  lemma LemmaKeyNames()
    ensures PageNumber != BoundingRegions
    ensures PageNumber !in HoistKeys && BoundingRegions !in HoistKeys
  {
  }

  predicate AllMaps(ts: seq<Tree>) {
    forall i :: 0 <= i < |ts| ==> ts[i].Map?
  }

  /**
   An element of the shape the hoist is meant for: a dict whose
   `bounding_regions`, when present, is a list of dicts. On other shapes
   Python raises or does accidental membership and substring tests.
   */
  predicate ElementReady(es: seq<Entry>) {
    HasKey(es, BoundingRegions) ==>
      Get(es, BoundingRegions).List? && AllMaps(Get(es, BoundingRegions).items)
  }

  /** A list of elements of the shape the hoist is meant for. */
  predicate IsElementList(t: Tree) {
    t.List? && forall i :: 0 <= i < |t.items| ==> t.items[i].Map? && ElementReady(t.items[i].entries)
  }

  /** The value under `key` has the intended shape, when `key` names a hoisted collection. */
  predicate HoistReady(key: string, v: Tree) {
    key in HoistKeys ==> IsElementList(v)
  }

  /**
   The region loop of the hoist: every region that carries a page number
   stores it on the element, each store overwriting the previous one.
   */
  function CopyPageNumbers(es: seq<Entry>, regions: seq<Tree>): seq<Entry>
    requires AllMaps(regions)
    decreases regions
  {
    if regions == [] then es
    else
      var region := regions[0].entries;
      var stored := if HasKey(region, PageNumber) then Put(es, PageNumber, Get(region, PageNumber)) else es;
      CopyPageNumbers(stored, regions[1..])
  }

  /** The page number of the last region that carries one. */
  function LastPageNumber(regions: seq<Tree>): Option<Tree>
    requires AllMaps(regions)
  {
    if regions == [] then None
    else
      var later := LastPageNumber(regions[1..]);
      if later.Some? then later
      else if HasKey(regions[0].entries, PageNumber) then Some(Get(regions[0].entries, PageNumber))
      else None
  }

  /** Region `i` carries a page number and no later region does. */
  predicate IsLastCarrier(regions: seq<Tree>, i: int)
    requires AllMaps(regions)
  {
    && 0 <= i < |regions|
    && HasKey(regions[i].entries, PageNumber)
    && forall j :: i < j < |regions| ==> !HasKey(regions[j].entries, PageNumber)
  }

  /** The hoist of one element: copy the page numbers, then drop `bounding_regions`. */
  function HoistElement(es: seq<Entry>): seq<Entry>
    requires ElementReady(es)
  {
    if HasKey(es, BoundingRegions) then
      Delete(CopyPageNumbers(es, Get(es, BoundingRegions).items), BoundingRegions)
    else es
  }

  /** The hoist applied to every element of a collection. */
  function HoistElements(ts: seq<Tree>): (r: seq<Tree>)
    requires IsElementList(List(ts))
    ensures |r| == |ts|
    ensures forall i :: 0 <= i < |ts| ==> r[i] == Map(HoistElement(ts[i].entries))
  {
    if ts == [] then [] else [Map(HoistElement(ts[0].entries))] + HoistElements(ts[1..])
  }

  /** The value under `key` as the recursive call sees it, after any hoist. */
  function Prepared(key: string, v: Tree): (r: Tree)
    requires HoistReady(key, v)
    ensures Size(r) <= Size(v)
  {
    if key in HoistKeys then
      LemmaHoistElementsSize(v.items);
      List(HoistElements(v.items))
    else v
  }

  /**
   The shapes the hoist is meant for: wherever the walk reaches a kept
   `tables`, `paragraphs` or `cells` entry, its value is a list of dicts whose
   `bounding_regions`, when present, is a list of dicts. On other shapes
   Python raises or does accidental membership and substring tests. Entries
   that are removed are never looked into.
   */
  predicate Prunable(t: Tree, rm: set<string>)
    decreases Size(t)
  {
    match t
    case Leaf(_) => true
    case List(ts) => ItemsPrunable(ts, rm)
    case Map(es) => EntriesPrunable(es, rm)
  }

  predicate ItemsPrunable(ts: seq<Tree>, rm: set<string>)
    decreases ItemsSize(ts)
  {
    ts == [] || (Prunable(ts[0], rm) && ItemsPrunable(ts[1..], rm))
  }

  predicate EntriesPrunable(es: seq<Entry>, rm: set<string>)
    decreases EntriesSize(es)
  {
    || es == []
    || (&& (es[0].key in rm || (HoistReady(es[0].key, es[0].value) && Prunable(Prepared(es[0].key, es[0].value), rm)))
        && EntriesPrunable(es[1..], rm))
  }

  /** No dict anywhere in the tree has a key in `rm`. */
  predicate FreeOf(t: Tree, rm: set<string>) {
    match t
    case Leaf(_) => true
    case List(ts) => forall i :: 0 <= i < |ts| ==> FreeOf(ts[i], rm)
    case Map(es) => forall i :: 0 <= i < |es| ==> es[i].key !in rm && FreeOf(es[i].value, rm)
  }

  /** `process_data(data, keys_to_remove)`. */
  function Prune(t: Tree, rm: set<string>): (r: Tree)
    requires Prunable(t, rm)
    ensures FreeOf(r, rm)
    ensures t.Leaf? ==> r == t
    ensures t.List? ==> r.List? && |r.items| == |t.items|
    ensures t.Map? ==> r.Map? && Keys(r.entries) == Without(Keys(t.entries), rm)
    decreases Size(t)
  {
    match t
    case Leaf(_) => t
    case List(ts) => List(PruneItems(ts, rm))
    case Map(es) => Map(PruneEntries(es, rm))
  }

  function PruneItems(ts: seq<Tree>, rm: set<string>): (r: seq<Tree>)
    requires ItemsPrunable(ts, rm)
    ensures |r| == |ts|
    ensures forall i :: 0 <= i < |r| ==> FreeOf(r[i], rm)
    decreases ItemsSize(ts)
  {
    if ts == [] then [] else [Prune(ts[0], rm)] + PruneItems(ts[1..], rm)
  }

  function PruneEntries(es: seq<Entry>, rm: set<string>): (r: seq<Entry>)
    requires EntriesPrunable(es, rm)
    ensures Keys(r) == Without(Keys(es), rm)
    ensures forall i :: 0 <= i < |r| ==> r[i].key !in rm && FreeOf(r[i].value, rm)
    decreases EntriesSize(es)
  {
    if es == [] then []
    else if es[0].key in rm then PruneEntries(es[1..], rm)
    else [Entry(es[0].key, Prune(Prepared(es[0].key, es[0].value), rm))] + PruneEntries(es[1..], rm)
  }

  // ---------------------------------------------------------------------------
  // The hoist.
  // ---------------------------------------------------------------------------

  /**
   The last region carrying a page number decides the element's page number;
   when no region carries one, the element is left as it was.
   */
  lemma {:induction false} LemmaLastRegionWins(es: seq<Entry>, regions: seq<Tree>)
    requires AllMaps(regions)
    ensures CopyPageNumbers(es, regions) == match LastPageNumber(regions)
      case None => es
      case Some(p) => Put(es, PageNumber, p)
    decreases regions
  {
    if regions != [] {
      var region := regions[0].entries;
      var stored := if HasKey(region, PageNumber) then Put(es, PageNumber, Get(region, PageNumber)) else es;
      LemmaLastRegionWins(stored, regions[1..]);
      match LastPageNumber(regions[1..]) {
        case Some(p) =>
          if HasKey(region, PageNumber) {
            LemmaPutPut(es, PageNumber, Get(region, PageNumber), p);
          }
        case None =>
      }
    }
  }

  /**
   `LastPageNumber` reports none exactly when no region carries a page number,
   and otherwise the page number of the last region that carries one.
   */
  lemma {:induction false} LemmaLastPageNumberSpec(regions: seq<Tree>)
    requires AllMaps(regions)
    ensures LastPageNumber(regions).None? <==>
      forall i :: 0 <= i < |regions| ==> !HasKey(regions[i].entries, PageNumber)
    ensures forall i :: IsLastCarrier(regions, i) ==>
      LastPageNumber(regions) == Some(Get(regions[i].entries, PageNumber))
  {
    if regions != [] {
      var rest := regions[1..];
      LemmaLastPageNumberSpec(rest);
      assert forall i :: 0 < i < |regions| ==> regions[i] == rest[i - 1];
      forall i | IsLastCarrier(regions, i)
        ensures LastPageNumber(regions) == Some(Get(regions[i].entries, PageNumber))
      {
        if i > 0 {
          assert IsLastCarrier(rest, i - 1);
        }
      }
    }
  }

  lemma {:induction false} LemmaLastPageNumberSize(regions: seq<Tree>)
    requires AllMaps(regions) && LastPageNumber(regions).Some?
    ensures Size(LastPageNumber(regions).value) < ItemsSize(regions)
  {
    if LastPageNumber(regions[1..]).Some? {
      LemmaLastPageNumberSize(regions[1..]);
    } else {
      LemmaGetSize(regions[0].entries, PageNumber);
    }
  }

  lemma LemmaHoistElementSize(es: seq<Entry>)
    requires ElementReady(es)
    ensures EntriesSize(HoistElement(es)) <= EntriesSize(es)
  {
    if HasKey(es, BoundingRegions) {
      var regions := Get(es, BoundingRegions).items;
      var copied := CopyPageNumbers(es, regions);
      LemmaLastRegionWins(es, regions);
      match LastPageNumber(regions) {
        case None =>
          LemmaDeleteSize(es, BoundingRegions);
        case Some(p) =>
          LemmaLastPageNumberSize(regions);
          LemmaPutSize(es, PageNumber, p);
          LemmaPutGetOther(es, PageNumber, p, BoundingRegions);
          LemmaDeleteSize(copied, BoundingRegions);
      }
    }
  }

  lemma {:induction false} LemmaHoistElementsSize(ts: seq<Tree>)
    requires IsElementList(List(ts))
    ensures ItemsSize(HoistElements(ts)) <= ItemsSize(ts)
  {
    if ts != [] {
      assert IsElementList(List(ts[1..])) by {
        assert forall i :: 0 <= i < |ts[1..]| ==> ts[1..][i] == ts[i + 1];
      }
      LemmaHoistElementsSize(ts[1..]);
      LemmaHoistElementSize(ts[0].entries);
      assert HoistElements(ts)[1..] == HoistElements(ts[1..]);
    }
  }

  /**
   After the hoist an element has no `bounding_regions`, and its
   `page_number` is that of the last region carrying one, or is left as it
   was when no region carries one.
   */
  lemma LemmaHoistElement(es: seq<Entry>)
    requires ElementReady(es) && HasKey(es, BoundingRegions)
    ensures var h, last := HoistElement(es), LastPageNumber(Get(es, BoundingRegions).items);
      && !HasKey(h, BoundingRegions)
      && (last.Some? ==> HasKey(h, PageNumber) && Get(h, PageNumber) == last.value)
      && (last.None? ==> (HasKey(h, PageNumber) <==> HasKey(es, PageNumber)))
      && (last.None? && HasKey(es, PageNumber) ==> Get(h, PageNumber) == Get(es, PageNumber))
  {
    var regions := Get(es, BoundingRegions).items;
    var copied := CopyPageNumbers(es, regions);
    LemmaLastRegionWins(es, regions);
    LemmaDeleteKeys(copied, BoundingRegions);
    match LastPageNumber(regions) {
      case None =>
        if HasKey(es, PageNumber) {
          LemmaDeleteGetOther(es, BoundingRegions, PageNumber);
        }
      case Some(p) =>
        LemmaPutGet(es, PageNumber, p);
        LemmaDeleteGetOther(copied, BoundingRegions, PageNumber);
    }
  }

  /**
   The hoist touches nothing but `bounding_regions` and `page_number`: every
   other key keeps its value, and the keys keep their order, with
   `page_number` appended when it is new.
   */
  lemma LemmaHoistElementKeeps(es: seq<Entry>)
    requires ElementReady(es) && HasKey(es, BoundingRegions)
    ensures var h, last := HoistElement(es), LastPageNumber(Get(es, BoundingRegions).items);
      && (forall k :: k != BoundingRegions && k != PageNumber && HasKey(es, k) ==>
            HasKey(h, k) && Get(h, k) == Get(es, k))
      && Keys(h) == if last.Some? && !HasKey(es, PageNumber)
                    then Without(Keys(es), {BoundingRegions}) + [PageNumber]
                    else Without(Keys(es), {BoundingRegions})
  {
    var regions := Get(es, BoundingRegions).items;
    var copied := CopyPageNumbers(es, regions);
    LemmaLastRegionWins(es, regions);
    LemmaDeleteKeys(copied, BoundingRegions);
    match LastPageNumber(regions) {
      case None =>
        forall k | k != BoundingRegions && k != PageNumber && HasKey(es, k)
          ensures HasKey(HoistElement(es), k) && Get(HoistElement(es), k) == Get(es, k)
        {
          LemmaDeleteGetOther(es, BoundingRegions, k);
        }
      case Some(p) =>
        LemmaPutKeys(es, PageNumber, p);
        if !HasKey(es, PageNumber) {
          LemmaWithoutAppend(Keys(es), PageNumber, {BoundingRegions});
        }
        forall k | k != BoundingRegions && k != PageNumber && HasKey(es, k)
          ensures HasKey(HoistElement(es), k) && Get(HoistElement(es), k) == Get(es, k)
        {
          LemmaPutGetOther(es, PageNumber, p, k);
          LemmaDeleteGetOther(copied, BoundingRegions, k);
        }
    }
  }

  // ---------------------------------------------------------------------------
  // What the walk does to lists, to dict entries, and to hoisted elements.
  // ---------------------------------------------------------------------------

  /** A list keeps its length and order: element `i` of the result is element `i` pruned. */
  lemma {:induction false} LemmaPruneItemsAt(ts: seq<Tree>, rm: set<string>, i: int)
    requires ItemsPrunable(ts, rm) && 0 <= i < |ts|
    ensures Prunable(ts[i], rm)
    ensures PruneItems(ts, rm)[i] == Prune(ts[i], rm)
  {
    if i > 0 {
      LemmaPruneItemsAt(ts[1..], rm, i - 1);
    }
  }

  /** A kept key holds its (hoisted, when it names a collection) value, pruned. */
  lemma {:induction false} LemmaPruneEntriesGet(es: seq<Entry>, rm: set<string>, k: string)
    requires EntriesPrunable(es, rm) && HasKey(es, k) && k !in rm
    ensures HoistReady(k, Get(es, k)) && Prunable(Prepared(k, Get(es, k)), rm)
    ensures HasKey(PruneEntries(es, rm), k)
    ensures Get(PruneEntries(es, rm), k) == Prune(Prepared(k, Get(es, k)), rm)
  {
    LemmaKeysTail(es);
    var tail := PruneEntries(es[1..], rm);
    if es[0].key == k {
      LemmaKeysTail(PruneEntries(es, rm));
    } else {
      LemmaPruneEntriesGet(es[1..], rm, k);
      if es[0].key !in rm {
        var head := [Entry(es[0].key, Prune(Prepared(es[0].key, es[0].value), rm))];
        LemmaGetAppend(head, tail, k);
      }
    }
  }

  /**
   How a hoisted element looks once pruned: no `bounding_regions`; no
   `page_number` when that key is removed too; otherwise the pruned page
   number of the last region carrying one, or the element's own page number
   when no region carries one.
   */
  predicate PageNumberHoisted(before: seq<Entry>, after: Tree, rm: set<string>)
    requires ElementReady(before) && HasKey(before, BoundingRegions)
  {
    && after.Map?
    && !HasKey(after.entries, BoundingRegions)
    && (PageNumber in rm ==> !HasKey(after.entries, PageNumber))
    && (PageNumber !in rm ==>
          match LastPageNumber(Get(before, BoundingRegions).items)
          case Some(p) =>
            && HasKey(after.entries, PageNumber)
            && Prunable(p, rm)
            && Get(after.entries, PageNumber) == Prune(p, rm)
          case None =>
            && (HasKey(after.entries, PageNumber) <==> HasKey(before, PageNumber))
            && (HasKey(before, PageNumber) ==>
                  Prunable(Get(before, PageNumber), rm)
                  && Get(after.entries, PageNumber) == Prune(Get(before, PageNumber), rm)))
  }

  lemma LemmaPruneHoisted(es: seq<Entry>, rm: set<string>)
    requires ElementReady(es) && HasKey(es, BoundingRegions)
    requires EntriesPrunable(HoistElement(es), rm)
    ensures PageNumberHoisted(es, Prune(Map(HoistElement(es)), rm), rm)
  {
    var h := HoistElement(es);
    LemmaKeyNames();
    LemmaHoistElement(es);
    if PageNumber !in rm && HasKey(h, PageNumber) {
      LemmaPruneEntriesGet(h, rm, PageNumber);
    }
  }

  /**
   The hoist seen through the whole walk: element `j` of a kept `tables`,
   `paragraphs` or `cells` list that had `bounding_regions` comes out as
   `PageNumberHoisted` describes, and the list keeps its length.
   */
  lemma LemmaHoistThroughPrune(es: seq<Entry>, rm: set<string>, k: string, j: int)
    requires EntriesPrunable(es, rm)
    requires k in HoistKeys && k !in rm && HasKey(es, k)
    requires Get(es, k).List? && 0 <= j < |Get(es, k).items| && Get(es, k).items[j].Map?
    requires HasKey(Get(es, k).items[j].entries, BoundingRegions)
    ensures ElementReady(Get(es, k).items[j].entries)
    ensures HasKey(PruneEntries(es, rm), k)
    ensures Get(PruneEntries(es, rm), k).List?
    ensures |Get(PruneEntries(es, rm), k).items| == |Get(es, k).items|
    ensures PageNumberHoisted(Get(es, k).items[j].entries, Get(PruneEntries(es, rm), k).items[j], rm)
  {
    var v := Get(es, k);
    LemmaPruneEntriesGet(es, rm, k);
    var hoisted := HoistElements(v.items);
    LemmaPruneItemsAt(hoisted, rm, j);
    LemmaPruneHoisted(v.items[j].entries, rm);
  }

  // ---------------------------------------------------------------------------
  // A second walk with the same removal set changes nothing.
  // ---------------------------------------------------------------------------

  /** Dicts without `bounding_regions`: the hoist has nothing to do on them. */
  predicate RegionFree(ts: seq<Tree>) {
    forall i :: 0 <= i < |ts| ==> ts[i].Map? && !HasKey(ts[i].entries, BoundingRegions)
  }

  lemma LemmaHoistElementsNoop(ts: seq<Tree>)
    requires RegionFree(ts)
    ensures IsElementList(List(ts))
    ensures HoistElements(ts) == ts
  {
  }

  /** A hoisted collection, once pruned, holds dicts without `bounding_regions`. */
  lemma LemmaPrunedElementsRegionFree(ts: seq<Tree>, rm: set<string>)
    requires IsElementList(List(ts)) && ItemsPrunable(HoistElements(ts), rm)
    ensures RegionFree(PruneItems(HoistElements(ts), rm))
  {
    var hoisted := HoistElements(ts);
    forall i | 0 <= i < |ts|
      ensures PruneItems(hoisted, rm)[i].Map? && !HasKey(PruneItems(hoisted, rm)[i].entries, BoundingRegions)
    {
      LemmaPruneItemsAt(hoisted, rm, i);
      if HasKey(ts[i].entries, BoundingRegions) {
        LemmaHoistElement(ts[i].entries);
      }
    }
  }

  lemma {:induction false} LemmaPruneStaysPrunable(t: Tree, rm: set<string>)
    requires Prunable(t, rm)
    ensures Prunable(Prune(t, rm), rm)
    decreases Size(t), 1
  {
    match t
    case Leaf(_) =>
    case List(ts) => LemmaPruneItemsStaysPrunable(ts, rm);
    case Map(es) => LemmaPruneEntriesStaysPrunable(es, rm);
  }

  lemma {:induction false} LemmaPruneItemsStaysPrunable(ts: seq<Tree>, rm: set<string>)
    requires ItemsPrunable(ts, rm)
    ensures ItemsPrunable(PruneItems(ts, rm), rm)
    decreases ItemsSize(ts), 0
  {
    if ts != [] {
      LemmaPruneStaysPrunable(ts[0], rm);
      LemmaPruneItemsStaysPrunable(ts[1..], rm);
      var r := PruneItems(ts, rm);
      assert r[0] == Prune(ts[0], rm) && r[1..] == PruneItems(ts[1..], rm);
    }
  }

  lemma {:induction false} LemmaPruneEntriesStaysPrunable(es: seq<Entry>, rm: set<string>)
    requires EntriesPrunable(es, rm)
    ensures EntriesPrunable(PruneEntries(es, rm), rm)
    decreases EntriesSize(es), 0
  {
    if es != [] {
      LemmaPruneEntriesStaysPrunable(es[1..], rm);
      var k, v := es[0].key, es[0].value;
      if k !in rm {
        var w := Prune(Prepared(k, v), rm);
        LemmaPruneStaysPrunable(Prepared(k, v), rm);
        if k in HoistKeys {
          LemmaPrunedElementsRegionFree(v.items, rm);
          LemmaHoistElementsNoop(w.items);
          assert Prepared(k, w) == w;
        }
        var r := PruneEntries(es, rm);
        assert r[0] == Entry(k, w) && r[1..] == PruneEntries(es[1..], rm);
      }
    }
  }

  /**
   Pruning is idempotent: the result can be pruned again with the same
   removal set, and that second walk returns it unchanged.
   */
  lemma {:induction false} LemmaPruneIdempotent(t: Tree, rm: set<string>)
    requires Prunable(t, rm)
    ensures Prunable(Prune(t, rm), rm)
    ensures Prune(Prune(t, rm), rm) == Prune(t, rm)
    decreases Size(t), 1
  {
    LemmaPruneStaysPrunable(t, rm);
    match t
    case Leaf(_) =>
    case List(ts) => LemmaPruneItemsIdempotent(ts, rm);
    case Map(es) => LemmaPruneEntriesIdempotent(es, rm);
  }

  lemma {:induction false} LemmaPruneItemsIdempotent(ts: seq<Tree>, rm: set<string>)
    requires ItemsPrunable(ts, rm)
    ensures ItemsPrunable(PruneItems(ts, rm), rm)
    ensures PruneItems(PruneItems(ts, rm), rm) == PruneItems(ts, rm)
    decreases ItemsSize(ts), 0
  {
    LemmaPruneItemsStaysPrunable(ts, rm);
    if ts != [] {
      LemmaPruneIdempotent(ts[0], rm);
      LemmaPruneItemsIdempotent(ts[1..], rm);
      var r := PruneItems(ts, rm);
      assert r[0] == Prune(ts[0], rm) && r[1..] == PruneItems(ts[1..], rm);
    }
  }

  lemma {:induction false} LemmaPruneEntriesIdempotent(es: seq<Entry>, rm: set<string>)
    requires EntriesPrunable(es, rm)
    ensures EntriesPrunable(PruneEntries(es, rm), rm)
    ensures PruneEntries(PruneEntries(es, rm), rm) == PruneEntries(es, rm)
    decreases EntriesSize(es), 0
  {
    LemmaPruneEntriesStaysPrunable(es, rm);
    if es != [] {
      LemmaPruneEntriesIdempotent(es[1..], rm);
      var k, v := es[0].key, es[0].value;
      if k !in rm {
        var w := Prune(Prepared(k, v), rm);
        LemmaPruneIdempotent(Prepared(k, v), rm);
        if k in HoistKeys {
          LemmaPrunedElementsRegionFree(v.items, rm);
          LemmaHoistElementsNoop(w.items);
          assert Prepared(k, w) == w;
        }
        var r := PruneEntries(es, rm);
        assert r[0] == Entry(k, w) && r[1..] == PruneEntries(es[1..], rm);
      }
    }
  }
}
