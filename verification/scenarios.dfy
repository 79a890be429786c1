/** Worked examples of the three walks on small concrete trees. */
module Scenarios {
  import opened JsonTree
  import opened Projection
  import opened Pruning

  function Num(text: string): Tree {
    Leaf(Number(text))
  }

  /**
   `{"a": 1, "b": {"c": 2}}` projected on `{"c"}` is `{"b": {"c": 2}}`: the
   unselected scalar goes, the map stays because something inside it matched.
   */
  lemma LemmaNestedMatch()
    ensures SelectKeys([Entry("a", Num("1")), Entry("b", Map([Entry("c", Num("2"))]))], {"c"}, "")
      == [Entry("b", Map([Entry("c", Num("2"))]))]
  {
  }

  /**
   `{"b": {"c": 2}}` projected on `{"b"}` is `{"b": {}}`: the selected map is
   replaced by its own projection, in which nothing matched.
   */
  lemma LemmaSelectedMapReprojected()
    ensures SelectKeys([Entry("b", Map([Entry("c", Num("2"))]))], {"b"}, "")
      == [Entry("b", Map([]))]
  {
  }

  /**
   `{"a": [1, {"c": 2}], "d": [3]}` projected on `{"d"}` keeps only the map
   element of `a` (projected to `{}`) and `d` as it was, its projection being empty.
   */
  lemma LemmaListProjection()
    ensures SelectKeys([Entry("a", List([Num("1"), Map([Entry("c", Num("2"))])])), Entry("d", List([Num("3")]))], {"d"}, "")
      == [Entry("a", List([Map([])])), Entry("d", List([Num("3")]))]
  {
    assert "a" != "d" && "c" != "d" && "a.c" != "d";
    var inner := [Entry("c", Num("2"))];
    var es := [Entry("a", List([Num("1"), Map(inner)])), Entry("d", List([Num("3")]))];
    LemmaSelectKeysIsProjection(inner, {"d"}, "a");
    assert SelectItems([Num("1"), Map(inner)], {"d"}, "a") == [Map([])];
    LemmaSelectKeysIsProjection(es, {"d"}, "");
  }

  // ---------------------------------------------------------------------------
  // One step of the pruning walk on small literal shapes.
  // ---------------------------------------------------------------------------

  /** A one-entry dict whose key is kept holds its prepared value, pruned. */
  lemma LemmaPruneSingleEntry(k: string, v: Tree, rm: set<string>)
    requires k !in rm && HoistReady(k, v) && Prunable(Prepared(k, v), rm)
    ensures Prunable(Map([Entry(k, v)]), rm)
    ensures Prune(Map([Entry(k, v)]), rm) == Map([Entry(k, Prune(Prepared(k, v), rm))])
  {
  }

  /** A one-element list holds its element, pruned. */
  lemma LemmaPruneSingleItem(t: Tree, rm: set<string>)
    requires Prunable(t, rm)
    ensures Prunable(List([t]), rm)
    ensures Prune(List([t]), rm) == List([Prune(t, rm)])
  {
  }

  /** A dict of scalars under kept keys that name no collection is left as it is. */
  lemma {:induction false} LemmaPruneFlat(es: seq<Entry>, rm: set<string>)
    requires forall i :: 0 <= i < |es| ==> es[i].value.Leaf? && es[i].key !in rm && es[i].key !in HoistKeys
    ensures EntriesPrunable(es, rm)
    ensures PruneEntries(es, rm) == es
  {
    if es != [] {
      LemmaPruneFlat(es[1..], rm);
      assert es == [es[0]] + es[1..];
    }
  }

  /** The hoist of one element, given the dict it leaves after copying the page numbers. */
  lemma LemmaHoistOne(es: seq<Entry>, copied: seq<Entry>, h: seq<Entry>)
    requires ElementReady(es) && HasKey(es, BoundingRegions)
    requires CopyPageNumbers(es, Get(es, BoundingRegions).items) == copied
    requires Delete(copied, BoundingRegions) == h
    ensures IsElementList(List([Map(es)]))
    ensures HoistElements([Map(es)]) == [Map(h)]
  {
  }

  /** Deleting the one entry under a key that no other entry carries. */
  lemma {:induction false} LemmaDeleteOne(pre: seq<Entry>, e: Entry, post: seq<Entry>)
    requires !HasKey(pre, e.key) && !HasKey(post, e.key)
    ensures Delete(pre + [e] + post, e.key) == pre + post
  {
    if pre == [] {
      assert pre + [e] + post == [e] + post;
      LemmaDeleteAbsent(post, e.key);
    } else {
      LemmaKeysTail(pre);
      LemmaDeleteOne(pre[1..], e, post);
      var whole := pre + [e] + post;
      assert whole[0] == pre[0] && whole[0].key != e.key;
      assert whole[1..] == pre[1..] + [e] + post;
      assert pre + post == [pre[0]] + (pre[1..] + post);
    }
  }

  lemma {:induction false} LemmaDeleteAbsent(es: seq<Entry>, k: string)
    requires !HasKey(es, k)
    ensures Delete(es, k) == es
  {
    if es != [] {
      LemmaKeysTail(es);
      LemmaDeleteAbsent(es[1..], k);
      assert es == [es[0]] + es[1..];
    }
  }

  /** The only region carrying a page number supplies it. */
  lemma LemmaOneRegion(p: Tree)
    ensures AllMaps([Map([Entry(PageNumber, p)])])
    ensures LastPageNumber([Map([Entry(PageNumber, p)])]) == Some(p)
  {
  }

  /**
   `{"paragraphs": [{"text": "x", "bounding_regions": [{"page_number": 1}]}]}`
   with nothing removed becomes `{"paragraphs": [{"text": "x", "page_number": 1}]}`.
   */
  lemma LemmaParagraphHoist()
    ensures var element := Map([Entry("text", Leaf(Str("x"))), Entry(BoundingRegions, List([Map([Entry(PageNumber, Num("1"))])]))]);
      && Prunable(Map([Entry("paragraphs", List([element]))]), {})
      && Prune(Map([Entry("paragraphs", List([element]))]), {})
         == Map([Entry("paragraphs", List([Map([Entry("text", Leaf(Str("x"))), Entry(PageNumber, Num("1"))])]))])
  {
    LemmaKeyNames();
    assert "text" != BoundingRegions && "text" != PageNumber && "text" !in HoistKeys;
    var text, page := Entry("text", Leaf(Str("x"))), Entry(PageNumber, Num("1"));
    var regions := [Map([page])];
    var es := [text, Entry(BoundingRegions, List(regions))];
    assert Keys(es) == ["text", BoundingRegions];
    LemmaOneRegion(Num("1"));
    LemmaLastRegionWins(es, regions);
    LemmaPutAbsent(es, PageNumber, Num("1"));
    assert Keys([text]) == ["text"] && Keys([page]) == [PageNumber];
    assert es + [page] == [text] + [Entry(BoundingRegions, List(regions))] + [page];
    LemmaDeleteOne([text], Entry(BoundingRegions, List(regions)), [page]);
    var hoisted := [text, page];
    LemmaHoistOne(es, es + [page], hoisted);
    LemmaPruneFlat(hoisted, {});
    LemmaPruneSingleItem(Map(hoisted), {});
    assert "paragraphs" in HoistKeys;
    LemmaPruneSingleEntry("paragraphs", List([Map(es)]), {});
  }

  /**
   `{"tables": [{"cells": [], "bounding_regions": []}]}` with nothing removed
   loses `bounding_regions` and gains no `page_number`: no region supplied one.
   */
  lemma LemmaEmptyRegions()
    ensures var element := Map([Entry("cells", List([])), Entry(BoundingRegions, List([]))]);
      && Prunable(Map([Entry("tables", List([element]))]), {})
      && Prune(Map([Entry("tables", List([element]))]), {})
         == Map([Entry("tables", List([Map([Entry("cells", List([]))])]))])
  {
    LemmaKeyNames();
    assert "cells" != BoundingRegions && "cells" in HoistKeys && "tables" in HoistKeys;
    var cells := Entry("cells", List([]));
    var es := [cells, Entry(BoundingRegions, List([]))];
    assert Keys(es) == ["cells", BoundingRegions];
    assert Keys([cells]) == ["cells"];
    assert es == [cells] + [Entry(BoundingRegions, List([]))] + [];
    LemmaDeleteOne([cells], Entry(BoundingRegions, List([])), []);
    LemmaHoistOne(es, es, [cells]);
    assert Prepared("cells", List([])) == List([]);
    assert Prune(List([]), {}) == List([]);
    LemmaPruneSingleEntry("cells", List([]), {});
    LemmaPruneSingleItem(Map([cells]), {});
    LemmaPruneSingleEntry("tables", List([Map(es)]), {});
  }

  /**
   A table whose regions carry page numbers 3 and then 5 comes out with page
   number 5 and without `bounding_regions`.
   */
  lemma LemmaLastOfTwoRegions()
    ensures var element := Map([Entry(BoundingRegions, List([Map([Entry(PageNumber, Num("3"))]), Map([Entry(PageNumber, Num("5"))])]))]);
      && Prunable(Map([Entry("tables", List([element]))]), {})
      && Prune(Map([Entry("tables", List([element]))]), {})
         == Map([Entry("tables", List([Map([Entry(PageNumber, Num("5"))])]))])
  {
    LemmaKeyNames();
    assert "tables" in HoistKeys;
    var page := Entry(PageNumber, Num("5"));
    var regions := [Map([Entry(PageNumber, Num("3"))]), Map([page])];
    var es := [Entry(BoundingRegions, List(regions))];
    assert Keys(es) == [BoundingRegions] && Keys([page]) == [PageNumber];
    LemmaOneRegion(Num("5"));
    assert regions[1..] == [Map([page])];
    assert LastPageNumber(regions) == Some(Num("5"));
    LemmaLastRegionWins(es, regions);
    LemmaPutAbsent(es, PageNumber, Num("5"));
    assert es + [page] == [] + [Entry(BoundingRegions, List(regions))] + [page];
    LemmaDeleteOne([], Entry(BoundingRegions, List(regions)), [page]);
    LemmaHoistOne(es, es + [page], [page]);
    LemmaPruneFlat([page], {});
    LemmaPruneSingleItem(Map([page]), {});
    LemmaPruneSingleEntry("tables", List([Map(es)]), {});
  }
}
