/**
 `print_keys` of src/functions.py prints each dotted key path the first time
 it meets it and records it in a set that, as a mutable default argument, is
 shared by every call that does not pass its own. Here the printed lines are
 returned as a sequence and the set is threaded explicitly: a call takes the
 set as it stands and returns it as the call leaves it.
 */
module KeyPrinting {
  import opened JsonTree

  /** What one call prints, in order, and the accumulator it leaves behind. */
  datatype Printout = Printout(lines: seq<string>, seen: set<string>)

  function Elems(s: seq<string>): set<string> {
    set x | x in s
  }

  predicate NoDuplicates(s: seq<string>) {
    forall i, j :: 0 <= i < j < |s| ==> s[i] != s[j]
  }

  /**
   `print_keys(data, parent_key, printed_keys)`: nothing is printed twice,
   nothing already in the accumulator is printed, and the accumulator grows
   by exactly the printed paths.
   */
  function PrintKeys(t: Tree, parent: string, seen: set<string>): (r: Printout)
    ensures NoDuplicates(r.lines)
    ensures Elems(r.lines) !! seen
    ensures r.seen == seen + Elems(r.lines)
    decreases t
  {
    match t
    case Leaf(_) => Printout([], seen)
    case List(ts) => PrintItems(ts, parent, seen)
    case Map(es) => PrintEntries(es, parent, seen)
  }

  /** The loop over a list: every element reuses the parent path. */
  function PrintItems(ts: seq<Tree>, parent: string, seen: set<string>): (r: Printout)
    ensures NoDuplicates(r.lines)
    ensures Elems(r.lines) !! seen
    ensures r.seen == seen + Elems(r.lines)
    decreases ts
  {
    if ts == [] then Printout([], seen)
    else
      var first := PrintKeys(ts[0], parent, seen);
      var rest := PrintItems(ts[1..], parent, first.seen);
      LemmaJoin(first.lines, rest.lines, seen, first.seen);
      Printout(first.lines + rest.lines, rest.seen)
  }

  /** The loop over a dict: print the entry's path when new, then descend below it. */
  function PrintEntries(es: seq<Entry>, parent: string, seen: set<string>): (r: Printout)
    ensures NoDuplicates(r.lines)
    ensures Elems(r.lines) !! seen
    ensures r.seen == seen + Elems(r.lines)
    decreases es
  {
    if es == [] then Printout([], seen)
    else
      var current := PathOf(parent, es[0].key);
      var here := if current in seen then Printout([], seen) else Printout([current], seen + {current});
      var below := PrintKeys(es[0].value, current, here.seen);
      var rest := PrintEntries(es[1..], parent, below.seen);
      LemmaJoin(here.lines, below.lines, seen, here.seen);
      LemmaJoin(here.lines + below.lines, rest.lines, seen, below.seen);
      Printout(here.lines + below.lines + rest.lines, rest.seen)
  }

  /** Two printouts in a row, the second starting from the first's accumulator, compose. */
  lemma LemmaJoin(a: seq<string>, b: seq<string>, seen: set<string>, mid: set<string>)
    requires NoDuplicates(a) && Elems(a) !! seen && mid == seen + Elems(a)
    requires NoDuplicates(b) && Elems(b) !! mid
    ensures NoDuplicates(a + b)
    ensures Elems(a + b) !! seen
    ensures mid + Elems(b) == seen + Elems(a + b)
  {
    assert Elems(a + b) == Elems(a) + Elems(b);
    forall i, j | 0 <= i < j < |a + b| ensures (a + b)[i] != (a + b)[j] {
      if i < |a| && j >= |a| {
        assert (a + b)[i] in Elems(a);
        assert (a + b)[j] in Elems(b);
      }
    }
  }

  // ---------------------------------------------------------------------------
  // A reference enumeration: every dotted path of the tree, in walk order.
  // ---------------------------------------------------------------------------

  /** Every dotted key path of the tree, in walk order, repetitions included. */
  function Paths(t: Tree, parent: string): seq<string>
    decreases t
  {
    match t
    case Leaf(_) => []
    case List(ts) => ItemPaths(ts, parent)
    case Map(es) => EntryPaths(es, parent)
  }

  function ItemPaths(ts: seq<Tree>, parent: string): seq<string>
    decreases ts
  {
    if ts == [] then [] else Paths(ts[0], parent) + ItemPaths(ts[1..], parent)
  }

  function EntryPaths(es: seq<Entry>, parent: string): seq<string>
    decreases es
  {
    if es == [] then []
    else
      var current := PathOf(parent, es[0].key);
      [current] + Paths(es[0].value, current) + EntryPaths(es[1..], parent)
  }

  /** The first occurrences in `xs` of the strings not in `seen`. */
  function Dedup(xs: seq<string>, seen: set<string>): seq<string> {
    if xs == [] then []
    else if xs[0] in seen then Dedup(xs[1..], seen)
    else [xs[0]] + Dedup(xs[1..], seen + {xs[0]})
  }

  lemma {:induction false} LemmaDedupAppend(xs: seq<string>, ys: seq<string>, seen: set<string>)
    ensures Dedup(xs + ys, seen) == Dedup(xs, seen) + Dedup(ys, seen + Elems(xs))
  {
    if xs == [] {
      assert xs + ys == ys;
      assert seen + Elems(xs) == seen;
    } else {
      assert (xs + ys)[0] == xs[0];
      assert (xs + ys)[1..] == xs[1..] + ys;
      assert Elems(xs) == {xs[0]} + Elems(xs[1..]);
      if xs[0] in seen {
        LemmaDedupAppend(xs[1..], ys, seen);
        assert seen + Elems(xs) == seen + Elems(xs[1..]);
      } else {
        LemmaDedupAppend(xs[1..], ys, seen + {xs[0]});
        assert seen + {xs[0]} + Elems(xs[1..]) == seen + Elems(xs);
      }
    }
  }

  lemma {:induction false} LemmaDedupElems(xs: seq<string>, seen: set<string>)
    ensures Elems(Dedup(xs, seen)) == Elems(xs) - seen
  {
    if xs != [] {
      assert Elems(xs) == {xs[0]} + Elems(xs[1..]);
      if xs[0] in seen {
        LemmaDedupElems(xs[1..], seen);
      } else {
        LemmaDedupElems(xs[1..], seen + {xs[0]});
        assert Elems([xs[0]] + Dedup(xs[1..], seen + {xs[0]})) == {xs[0]} + Elems(Dedup(xs[1..], seen + {xs[0]}));
      }
    }
  }

  /**
   The printed lines are the tree's dotted paths in walk order, each printed
   at its first occurrence unless the accumulator already held it.
   */
  lemma {:induction false} LemmaPrintKeysIsDedup(t: Tree, parent: string, seen: set<string>)
    ensures PrintKeys(t, parent, seen).lines == Dedup(Paths(t, parent), seen)
    decreases t
  {
    match t
    case Leaf(_) =>
    case List(ts) => LemmaPrintItemsIsDedup(ts, parent, seen);
    case Map(es) => LemmaPrintEntriesIsDedup(es, parent, seen);
  }

  lemma {:induction false} LemmaPrintItemsIsDedup(ts: seq<Tree>, parent: string, seen: set<string>)
    ensures PrintItems(ts, parent, seen).lines == Dedup(ItemPaths(ts, parent), seen)
    decreases ts
  {
    if ts != [] {
      var first := PrintKeys(ts[0], parent, seen);
      LemmaPrintKeysIsDedup(ts[0], parent, seen);
      LemmaPrintItemsIsDedup(ts[1..], parent, first.seen);
      LemmaDedupAppend(Paths(ts[0], parent), ItemPaths(ts[1..], parent), seen);
      LemmaDedupElems(Paths(ts[0], parent), seen);
      assert first.seen == seen + Elems(Paths(ts[0], parent));
    }
  }

  lemma {:induction false} LemmaPrintEntriesIsDedup(es: seq<Entry>, parent: string, seen: set<string>)
    ensures PrintEntries(es, parent, seen).lines == Dedup(EntryPaths(es, parent), seen)
    decreases es
  {
    if es != [] {
      var current := PathOf(parent, es[0].key);
      var here := if current in seen then Printout([], seen) else Printout([current], seen + {current});
      var below := PrintKeys(es[0].value, current, here.seen);
      var inner := Paths(es[0].value, current);
      LemmaPrintKeysIsDedup(es[0].value, current, here.seen);
      LemmaDedupElems(inner, here.seen);
      LemmaPrintEntriesIsDedup(es[1..], parent, below.seen);
      LemmaEntryStep(current, inner, EntryPaths(es[1..], parent), seen);
      assert here.seen == seen + {current};
      assert below.seen == seen + {current} + Elems(inner);
      assert EntryPaths(es, parent) == [current] + inner + EntryPaths(es[1..], parent);
      assert PrintEntries(es, parent, seen).lines
        == here.lines + below.lines + PrintEntries(es[1..], parent, below.seen).lines;
    }
  }

  /** One dict entry of the walk: its own path, then the paths below it, then the later entries'. */
  lemma LemmaEntryStep(current: string, inner: seq<string>, later: seq<string>, seen: set<string>)
    ensures var mid := seen + {current} + Elems(inner);
      Dedup([current] + inner + later, seen)
      == (if current in seen then [] else [current]) + Dedup(inner, seen + {current}) + Dedup(later, mid)
  {
    var xs := [current] + inner + later;
    assert xs[0] == current && xs[1..] == inner + later;
    LemmaDedupAppend(inner, later, seen + {current});
    if current in seen {
      assert seen + {current} == seen;
      assert Dedup(xs, seen) == Dedup(inner + later, seen);
    } else {
      assert Dedup(xs, seen) == [current] + Dedup(inner + later, seen + {current});
    }
  }

  /** The accumulator gains exactly the tree's dotted paths it did not hold yet. */
  lemma LemmaPrintedPaths(t: Tree, parent: string, seen: set<string>)
    ensures Elems(PrintKeys(t, parent, seen).lines) == Elems(Paths(t, parent)) - seen
    ensures PrintKeys(t, parent, seen).seen == seen + Elems(Paths(t, parent))
  {
    LemmaPrintKeysIsDedup(t, parent, seen);
    LemmaDedupElems(Paths(t, parent), seen);
  }

  /**
   With the shared accumulator, a second call on the same tree prints
   nothing, and a later call on any tree prints nothing the earlier one did.
   */
  lemma LemmaSecondCallSilent(t: Tree, u: Tree, parent: string, seen: set<string>)
    ensures var first := PrintKeys(t, parent, seen);
      && PrintKeys(t, parent, first.seen).lines == []
      && Elems(PrintKeys(u, parent, first.seen).lines) !! Elems(first.lines)
  {
    var first := PrintKeys(t, parent, seen);
    LemmaPrintedPaths(t, parent, seen);
    LemmaPrintedPaths(t, parent, first.seen);
    LemmaPrintKeysIsDedup(t, parent, first.seen);
    LemmaDedupCovered(Paths(t, parent), first.seen);
  }

  /** Nothing survives deduplication against a set that already holds every element. */
  lemma {:induction false} LemmaDedupCovered(xs: seq<string>, seen: set<string>)
    requires Elems(xs) <= seen
    ensures Dedup(xs, seen) == []
  {
    if xs != [] {
      assert Elems(xs) == {xs[0]} + Elems(xs[1..]);
      LemmaDedupCovered(xs[1..], seen);
    }
  }
}
