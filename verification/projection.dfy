/**
 `SelectKeys` follows the loop of `select_keys` (src/functions.py) step by
 step: a fresh dict is filled entry by entry, a matching entry is first
 copied as it is, and a map or list value then stores its recursive
 projection under the same key, overwriting that copy. `ProjectEntries` is
 the declarative reading of the same walk (one output entry or none per input
 entry); the two agree on every dict.
 */
module Projection {
  import opened JsonTree

  /** The selection test: the bare key or its dotted path is selected. */
  predicate Matches(key: string, path: string, sel: set<string>) {
    key in sel || PathOf(path, key) in sel
  }

  /** `select_keys(original_dict, keys_to_select, current_path)`. */
  function SelectKeys(es: seq<Entry>, sel: set<string>, path: string): seq<Entry>
    decreases es, 1
  {
    SelectFrom([], es, sel, path)
  }

  /** The `for key, value in original_dict.items()` loop, filling `acc`. */
  function SelectFrom(acc: seq<Entry>, es: seq<Entry>, sel: set<string>, path: string): seq<Entry>
    decreases es, 0
  {
    if es == [] then acc
    else SelectFrom(SelectStep(acc, es[0], sel, path), es[1..], sel, path)
  }

  /** One iteration of that loop, for the entry `e`. */
  function SelectStep(acc: seq<Entry>, e: Entry, sel: set<string>, path: string): seq<Entry>
    decreases e, 0
  {
    var p := PathOf(path, e.key);
    var copied := if Matches(e.key, path, sel) then Put(acc, e.key, e.value) else acc;
    match e.value
    case Map(ces) => Put(copied, e.key, Map(SelectKeys(ces, sel, p)))
    case List(ts) =>
      var projected := SelectItems(ts, sel, p);
      if projected != [] then Put(copied, e.key, List(projected)) else copied
    case Leaf(_) => copied
  }

  /** The projections of the map elements of a list, in order; other elements are dropped. */
  function SelectItems(ts: seq<Tree>, sel: set<string>, path: string): (r: seq<Tree>)
    ensures |r| <= |ts|
    ensures forall i :: 0 <= i < |r| ==> r[i].Map?
    ensures r == [] <==> forall i :: 0 <= i < |ts| ==> !ts[i].Map?
    decreases ts, 0
  {
    if ts == [] then []
    else
      var head := match ts[0]
        case Map(ces) => [Map(SelectKeys(ces, sel, path))]
        case _ => [];
      var rest := SelectItems(ts[1..], sel, path);
      assert forall i :: 1 <= i < |ts| ==> ts[i] == ts[1..][i - 1];
      head + rest
  }

  /** The dict elements of a list, in order: the filter of the list loop. */
  function MapElems(ts: seq<Tree>): (r: seq<Tree>)
  {
    if ts == [] then []
    else (if ts[0].Map? then [ts[0]] else []) + MapElems(ts[1..])
  }

  /** The filter keeps exactly the dict elements. */
  lemma {:induction false} LemmaMapElemsMembers(ts: seq<Tree>)
    ensures forall t :: t in MapElems(ts) <==> t in ts && t.Map?
  {
    if ts != [] {
      LemmaMapElemsMembers(ts[1..]);
      assert forall t :: t in ts <==> t == ts[0] || t in ts[1..];
    }
  }

  /**
   A list value projects to one dict per dict element, in order, each the
   projection of that element at the unchanged parent path.
   */
  lemma {:induction false} LemmaSelectItemsIsMapElems(ts: seq<Tree>, sel: set<string>, path: string)
    ensures |SelectItems(ts, sel, path)| == |MapElems(ts)|
    ensures forall i :: 0 <= i < |MapElems(ts)| ==>
      MapElems(ts)[i].Map? && SelectItems(ts, sel, path)[i] == Map(SelectKeys(MapElems(ts)[i].entries, sel, path))
    decreases ts
  {
    if ts != [] {
      LemmaSelectItemsIsMapElems(ts[1..], sel, path);
      var r, m := SelectItems(ts, sel, path), MapElems(ts);
      var r', m' := SelectItems(ts[1..], sel, path), MapElems(ts[1..]);
      var k := if ts[0].Map? then 1 else 0;
      assert |m| == |m'| + k && |r| == |r'| + k;
      forall i | k <= i < |m|
        ensures m[i].Map? && r[i] == Map(SelectKeys(m[i].entries, sel, path))
      {
        assert m[i] == m'[i - k] && r[i] == r'[i - k];
      }
    }
  }

  /** What one input entry contributes to the projection: itself, a projected copy, or nothing. */
  function ProjectEntry(e: Entry, sel: set<string>, path: string): (r: seq<Entry>)
    ensures |r| <= 1
    ensures |r| == 1 ==> r[0].key == e.key
  {
    var p := PathOf(path, e.key);
    match e.value
    case Map(ces) => [Entry(e.key, Map(SelectKeys(ces, sel, p)))]
    case List(ts) =>
      var projected := SelectItems(ts, sel, p);
      if projected != [] then [Entry(e.key, List(projected))]
      else if Matches(e.key, path, sel) then [e]
      else []
    case Leaf(_) => if Matches(e.key, path, sel) then [e] else []
  }

  /** The declarative projection of a whole dict. */
  function ProjectEntries(es: seq<Entry>, sel: set<string>, path: string): seq<Entry> {
    if es == [] then [] else ProjectEntry(es[0], sel, path) + ProjectEntries(es[1..], sel, path)
  }

  /** The keys whose entries the projection drops. */
  function DroppedKeys(es: seq<Entry>, sel: set<string>, path: string): set<string> {
    if es == [] then {}
    else (if ProjectEntry(es[0], sel, path) == [] then {es[0].key} else {}) + DroppedKeys(es[1..], sel, path)
  }

  // ---------------------------------------------------------------------------
  // The loop agrees with the declarative projection.
  // ---------------------------------------------------------------------------

  lemma LemmaStepAppends(acc: seq<Entry>, e: Entry, sel: set<string>, path: string)
    requires !HasKey(acc, e.key)
    ensures SelectStep(acc, e, sel, path) == acc + ProjectEntry(e, sel, path)
  {
    if Matches(e.key, path, sel) {
      LemmaPutAbsent(acc, e.key, e.value);
      match e.value
      case Map(ces) =>
        LemmaPutLast(acc, e.key, e.value, Map(SelectKeys(ces, sel, PathOf(path, e.key))));
      case List(ts) =>
        LemmaPutLast(acc, e.key, e.value, List(SelectItems(ts, sel, PathOf(path, e.key))));
      case Leaf(_) =>
    } else {
      match e.value
      case Map(ces) =>
        LemmaPutAbsent(acc, e.key, Map(SelectKeys(ces, sel, PathOf(path, e.key))));
      case List(ts) =>
        LemmaPutAbsent(acc, e.key, List(SelectItems(ts, sel, PathOf(path, e.key))));
      case Leaf(_) =>
    }
  }

  lemma {:induction false} LemmaProjectKeysWithin(es: seq<Entry>, sel: set<string>, path: string)
    ensures forall k :: k in Keys(ProjectEntries(es, sel, path)) ==> k in Keys(es)
  {
    if es != [] {
      LemmaProjectKeysWithin(es[1..], sel, path);
      var r := ProjectEntries(es, sel, path);
      var head := ProjectEntry(es[0], sel, path);
      assert r == head + ProjectEntries(es[1..], sel, path);
      LemmaKeysAppend(head, ProjectEntries(es[1..], sel, path));
      LemmaKeysTail(es);
      assert head != [] ==> Keys(head) == [es[0].key];
    }
  }

  lemma {:induction false} LemmaSelectFrom(acc: seq<Entry>, es: seq<Entry>, sel: set<string>, path: string)
    requires Distinct(Keys(es))
    requires forall k :: k in Keys(es) ==> !HasKey(acc, k)
    ensures SelectFrom(acc, es, sel, path) == acc + ProjectEntries(es, sel, path)
    decreases |es|
  {
    if es != [] {
      var e, rest := es[0], es[1..];
      LemmaDistinctTail(es);
      LemmaKeysTail(es);
      var acc' := acc + ProjectEntry(e, sel, path);
      LemmaStepFresh(acc, e, rest, sel, path);
      calc {
        SelectFrom(acc, es, sel, path);
        SelectFrom(SelectStep(acc, e, sel, path), rest, sel, path);
        { LemmaStepAppends(acc, e, sel, path); }
        SelectFrom(acc', rest, sel, path);
        { LemmaSelectFrom(acc', rest, sel, path); }
        acc' + ProjectEntries(rest, sel, path);
        acc + (ProjectEntry(e, sel, path) + ProjectEntries(rest, sel, path));
        acc + ProjectEntries(es, sel, path);
      }
    }
  }

  /** The keys still to come stay absent from the new dict after one step. */
  lemma LemmaStepFresh(acc: seq<Entry>, e: Entry, rest: seq<Entry>, sel: set<string>, path: string)
    requires forall k :: k in Keys(rest) ==> !HasKey(acc, k)
    requires e.key !in Keys(rest)
    ensures forall k :: k in Keys(rest) ==> !HasKey(acc + ProjectEntry(e, sel, path), k)
  {
    LemmaKeysAppend(acc, ProjectEntry(e, sel, path));
  }

  /** On a dict (distinct keys) the loop computes the declarative projection. */
  lemma LemmaSelectKeysIsProjection(es: seq<Entry>, sel: set<string>, path: string)
    requires Distinct(Keys(es))
    ensures SelectKeys(es, sel, path) == ProjectEntries(es, sel, path)
  {
    LemmaSelectFrom([], es, sel, path);
  }

  // ---------------------------------------------------------------------------
  // Which keys survive, and with which values.
  // ---------------------------------------------------------------------------

  lemma {:induction false} LemmaDroppedWithin(es: seq<Entry>, sel: set<string>, path: string)
    ensures forall k :: k in DroppedKeys(es, sel, path) ==> k in Keys(es)
  {
    if es != [] {
      LemmaKeysTail(es);
      LemmaDroppedWithin(es[1..], sel, path);
    }
  }

  lemma {:induction false} LemmaWithoutAgree(ks: seq<string>, d1: set<string>, d2: set<string>)
    requires forall x :: x in ks ==> (x in d1 <==> x in d2)
    ensures Without(ks, d1) == Without(ks, d2)
  {
    if ks != [] {
      LemmaWithoutAgree(ks[1..], d1, d2);
    }
  }

  lemma {:induction false} LemmaProjectKeys(es: seq<Entry>, sel: set<string>, path: string)
    requires Distinct(Keys(es))
    ensures Keys(ProjectEntries(es, sel, path)) == Without(Keys(es), DroppedKeys(es, sel, path))
  {
    if es != [] {
      var k := es[0].key;
      var rest := es[1..];
      var head := ProjectEntry(es[0], sel, path);
      var d := DroppedKeys(es, sel, path);
      LemmaKeysTail(es);
      LemmaDistinctTail(es);
      LemmaProjectKeys(rest, sel, path);
      LemmaDroppedWithin(rest, sel, path);
      LemmaWithoutAgree(Keys(rest), d, DroppedKeys(rest, sel, path));
      LemmaKeysAppend(head, ProjectEntries(rest, sel, path));
      assert Keys(es)[1..] == Keys(rest);
    }
  }

  lemma {:induction false} LemmaProjectGet(es: seq<Entry>, sel: set<string>, path: string, k: string)
    requires Distinct(Keys(es)) && HasKey(es, k)
    ensures var one := ProjectEntry(Entry(k, Get(es, k)), sel, path);
      && (HasKey(ProjectEntries(es, sel, path), k) <==> one != [])
      && (one != [] ==> Get(ProjectEntries(es, sel, path), k) == one[0].value)
  {
    var rest := es[1..];
    var head := ProjectEntry(es[0], sel, path);
    var tail := ProjectEntries(rest, sel, path);
    assert ProjectEntries(es, sel, path) == head + tail;
    LemmaKeysTail(es);
    LemmaKeysAppend(head, tail);
    LemmaProjectKeysWithin(rest, sel, path);
    if es[0].key == k {
      LemmaDistinctTail(es);
      assert !HasKey(tail, k);
      if head != [] {
        LemmaGetAppend(head, tail, k);
      }
    } else {
      assert !HasKey(head, k);
      LemmaProjectGet(rest, sel, path, k);
      if HasKey(tail, k) {
        LemmaGetAppend(head, tail, k);
      }
    }
  }

  /**
   The projection keeps a subsequence of the dict's keys, in their original
   order, and is itself a dict: exactly the entries `ProjectEntry` drops go.
   */
  lemma LemmaSelectKeysOrder(es: seq<Entry>, sel: set<string>, path: string)
    requires Distinct(Keys(es))
    ensures Keys(SelectKeys(es, sel, path)) == Without(Keys(es), DroppedKeys(es, sel, path))
    ensures Distinct(Keys(SelectKeys(es, sel, path)))
  {
    LemmaSelectKeysIsProjection(es, sel, path);
    LemmaProjectKeys(es, sel, path);
    LemmaWithoutDistinct(Keys(es), DroppedKeys(es, sel, path));
  }

  /**
   What the projection holds under each key of the dict:
   - a scalar is kept, unchanged, exactly when the key or its dotted path is selected;
   - a map is always kept, as its own projection below the extended path,
     even when the key itself was selected;
   - a list becomes the in-order projections of its map elements; when there
     are none, the original list is kept exactly when the key or path is selected.
   */
  lemma LemmaSelectLookup(es: seq<Entry>, sel: set<string>, path: string, k: string)
    requires Distinct(Keys(es)) && HasKey(es, k)
    ensures var v, r, p := Get(es, k), SelectKeys(es, sel, path), PathOf(path, k);
      && (v.Leaf? ==> (HasKey(r, k) <==> Matches(k, path, sel)) && (HasKey(r, k) ==> Get(r, k) == v))
      && (v.Map? ==> HasKey(r, k) && Get(r, k) == Map(SelectKeys(v.entries, sel, p)))
      && (v.List? && SelectItems(v.items, sel, p) != [] ==>
            HasKey(r, k) && Get(r, k) == List(SelectItems(v.items, sel, p)))
      && (v.List? && SelectItems(v.items, sel, p) == [] ==>
            (HasKey(r, k) <==> Matches(k, path, sel)) && (HasKey(r, k) ==> Get(r, k) == v))
  {
    LemmaSelectKeysIsProjection(es, sel, path);
    LemmaProjectGet(es, sel, path, k);
  }

  /** Only keys of the dict can appear in its projection. */
  lemma LemmaSelectKeysWithin(es: seq<Entry>, sel: set<string>, path: string, k: string)
    requires Distinct(Keys(es)) && HasKey(SelectKeys(es, sel, path), k)
    ensures HasKey(es, k)
  {
    LemmaSelectKeysIsProjection(es, sel, path);
    LemmaProjectKeysWithin(es, sel, path);
  }

  // ---------------------------------------------------------------------------
  // Projecting twice, projecting with nothing selected, projecting everything.
  // ---------------------------------------------------------------------------

  lemma {:induction false} LemmaProjectAppend(a: seq<Entry>, b: seq<Entry>, sel: set<string>, path: string)
    ensures ProjectEntries(a + b, sel, path) == ProjectEntries(a, sel, path) + ProjectEntries(b, sel, path)
  {
    if a == [] {
      assert a + b == b;
    } else {
      assert (a + b)[0] == a[0];
      assert (a + b)[1..] == a[1..] + b;
      LemmaProjectAppend(a[1..], b, sel, path);
    }
  }

  lemma {:induction false} LemmaSelectItemsAppend(a: seq<Tree>, b: seq<Tree>, sel: set<string>, path: string)
    ensures SelectItems(a + b, sel, path) == SelectItems(a, sel, path) + SelectItems(b, sel, path)
  {
    if a == [] {
      assert a + b == b;
    } else {
      assert (a + b)[0] == a[0];
      assert (a + b)[1..] == a[1..] + b;
      LemmaSelectItemsAppend(a[1..], b, sel, path);
    }
  }

  /** Projecting a projection with the same selection changes nothing. */
  lemma {:induction false} LemmaSelectIdempotent(es: seq<Entry>, sel: set<string>, path: string)
    requires EntriesWellFormed(es)
    ensures SelectKeys(SelectKeys(es, sel, path), sel, path) == SelectKeys(es, sel, path)
    decreases es, 1
  {
    LemmaSelectKeysOrder(es, sel, path);
    LemmaSelectKeysIsProjection(es, sel, path);
    LemmaSelectKeysIsProjection(SelectKeys(es, sel, path), sel, path);
    LemmaProjectStable(es, sel, path);
  }

  lemma {:induction false} LemmaProjectStable(es: seq<Entry>, sel: set<string>, path: string)
    requires forall i :: 0 <= i < |es| ==> WellFormed(es[i].value)
    ensures ProjectEntries(ProjectEntries(es, sel, path), sel, path) == ProjectEntries(es, sel, path)
    decreases es, 0
  {
    if es != [] {
      var head := ProjectEntry(es[0], sel, path);
      var tail := ProjectEntries(es[1..], sel, path);
      LemmaProjectAppend(head, tail, sel, path);
      LemmaEntryStable(es[0], sel, path);
      LemmaProjectStable(es[1..], sel, path);
      if head != [] {
        assert head == [head[0]] + [];
        LemmaProjectAppend([head[0]], [], sel, path);
      }
    }
  }

  lemma {:induction false} LemmaEntryStable(e: Entry, sel: set<string>, path: string)
    requires WellFormed(e.value)
    ensures ProjectEntry(e, sel, path) != [] ==>
      ProjectEntry(ProjectEntry(e, sel, path)[0], sel, path) == ProjectEntry(e, sel, path)
    decreases e, 0
  {
    var p := PathOf(path, e.key);
    match e.value
    case Map(ces) => LemmaSelectIdempotent(ces, sel, p);
    case List(ts) => LemmaSelectItemsIdempotent(ts, sel, p);
    case Leaf(_) =>
  }

  lemma {:induction false} LemmaSelectItemsIdempotent(ts: seq<Tree>, sel: set<string>, path: string)
    requires forall i :: 0 <= i < |ts| ==> WellFormed(ts[i])
    ensures SelectItems(SelectItems(ts, sel, path), sel, path) == SelectItems(ts, sel, path)
    decreases ts, 0
  {
    if ts != [] {
      var head := match ts[0]
        case Map(ces) => [Map(SelectKeys(ces, sel, path))]
        case _ => [];
      var tail := SelectItems(ts[1..], sel, path);
      assert SelectItems(ts, sel, path) == head + tail;
      LemmaSelectItemsAppend(head, tail, sel, path);
      LemmaSelectItemsIdempotent(ts[1..], sel, path);
      if ts[0].Map? {
        LemmaSelectIdempotent(ts[0].entries, sel, path);
      }
    }
  }

  /** No scalar anywhere in the tree. */
  predicate NoLeaves(t: Tree) {
    match t
    case Leaf(_) => false
    case List(ts) => forall i :: 0 <= i < |ts| ==> NoLeaves(ts[i])
    case Map(es) => forall i :: 0 <= i < |es| ==> NoLeaves(es[i].value)
  }

  /** With nothing selected, only the skeleton of maps and lists of maps is left. */
  lemma {:induction false} LemmaEmptySelectionHasNoLeaves(es: seq<Entry>, path: string)
    requires EntriesWellFormed(es)
    ensures NoLeaves(Map(SelectKeys(es, {}, path)))
    decreases es, 1
  {
    LemmaSelectKeysIsProjection(es, {}, path);
    LemmaProjectNoLeaves(es, path);
  }

  lemma {:induction false} LemmaProjectNoLeaves(es: seq<Entry>, path: string)
    requires forall i :: 0 <= i < |es| ==> WellFormed(es[i].value)
    ensures NoLeaves(Map(ProjectEntries(es, {}, path)))
    decreases es, 0
  {
    if es != [] {
      var head := ProjectEntry(es[0], {}, path);
      var tail := ProjectEntries(es[1..], {}, path);
      LemmaProjectNoLeaves(es[1..], path);
      var p := PathOf(path, es[0].key);
      match es[0].value
      case Map(ces) => LemmaEmptySelectionHasNoLeaves(ces, p);
      case List(ts) => LemmaItemsNoLeaves(ts, p);
      case Leaf(_) =>
      assert forall i :: 0 <= i < |tail| ==> (head + tail)[i + |head|] == tail[i];
    }
  }

  lemma {:induction false} LemmaItemsNoLeaves(ts: seq<Tree>, path: string)
    requires forall i :: 0 <= i < |ts| ==> WellFormed(ts[i])
    ensures NoLeaves(List(SelectItems(ts, {}, path)))
    decreases ts, 0
  {
    if ts != [] {
      LemmaItemsNoLeaves(ts[1..], path);
      if ts[0].Map? {
        LemmaEmptySelectionHasNoLeaves(ts[0].entries, path);
      }
    }
  }

  /** Every key anywhere in the tree is selected by its bare name. */
  predicate Covered(t: Tree, sel: set<string>) {
    match t
    case Leaf(_) => true
    case List(ts) => forall i :: 0 <= i < |ts| ==> Covered(ts[i], sel)
    case Map(es) => forall i :: 0 <= i < |es| ==> es[i].key in sel && Covered(es[i].value, sel)
  }

  /** No list in the tree mixes maps with other elements. */
  predicate Uniform(t: Tree) {
    match t
    case Leaf(_) => true
    case List(ts) =>
      && ((forall i :: 0 <= i < |ts| ==> ts[i].Map?) || (forall i :: 0 <= i < |ts| ==> !ts[i].Map?))
      && forall i :: 0 <= i < |ts| ==> Uniform(ts[i])
    case Map(es) => forall i :: 0 <= i < |es| ==> Uniform(es[i].value)
  }

  /**
   Selecting every key returns the dict unchanged, provided no list mixes maps
   with other elements (those other elements would be dropped).
   */
  lemma {:induction false} LemmaSelectAllIsIdentity(es: seq<Entry>, sel: set<string>, path: string)
    requires EntriesWellFormed(es)
    requires Covered(Map(es), sel) && Uniform(Map(es))
    ensures SelectKeys(es, sel, path) == es
    decreases es, 1
  {
    LemmaSelectKeysIsProjection(es, sel, path);
    LemmaProjectIdentity(es, sel, path);
  }

  lemma {:induction false} LemmaProjectIdentity(es: seq<Entry>, sel: set<string>, path: string)
    requires forall i :: 0 <= i < |es| ==> WellFormed(es[i].value)
    requires Covered(Map(es), sel) && Uniform(Map(es))
    ensures ProjectEntries(es, sel, path) == es
    decreases es, 0
  {
    if es != [] {
      var e := es[0];
      var p := PathOf(path, e.key);
      assert Covered(Map(es[1..]), sel) && Uniform(Map(es[1..])) by {
        assert forall i :: 0 <= i < |es[1..]| ==> es[1..][i] == es[i + 1];
      }
      LemmaProjectIdentity(es[1..], sel, path);
      assert e.key in sel && Covered(e.value, sel) && Uniform(e.value);
      match e.value
      case Map(ces) => LemmaSelectAllIsIdentity(ces, sel, p);
      case List(ts) =>
        if ts != [] && ts[0].Map? {
          LemmaItemsIdentity(ts, sel, p);
        }
      case Leaf(_) =>
      assert es == [e] + es[1..];
    }
  }

  lemma {:induction false} LemmaItemsIdentity(ts: seq<Tree>, sel: set<string>, path: string)
    requires forall i :: 0 <= i < |ts| ==> WellFormed(ts[i]) && ts[i].Map?
    requires Covered(List(ts), sel) && Uniform(List(ts))
    ensures SelectItems(ts, sel, path) == ts
    decreases ts, 0
  {
    if ts != [] {
      assert Covered(List(ts[1..]), sel) && Uniform(List(ts[1..])) by {
        assert forall i :: 0 <= i < |ts[1..]| ==> ts[1..][i] == ts[i + 1];
      }
      LemmaItemsIdentity(ts[1..], sel, path);
      assert Covered(ts[0], sel) && Uniform(ts[0]);
      LemmaSelectAllIsIdentity(ts[0].entries, sel, path);
      assert ts == [ts[0]] + ts[1..];
    }
  }
}
