/**
 A decoded analysis result is a tree of dicts, lists and scalars. A Python
 dict keeps its keys unique and in insertion order, so a map node is an
 ordered sequence of entries; `d[k] = v` is `Put` (overwrite in place when the
 key is present, append otherwise) and `del d[k]` is `Delete`.
 */
module JsonTree {

  datatype Option<+T> = None | Some(value: T)

  /** A scalar leaf. Numbers keep their textual form: no arithmetic is done on them. */
  datatype Scalar = Null | Bool(b: bool) | Number(text: string) | Str(s: string)

  datatype Tree =
    | Leaf(scalar: Scalar)
    | List(items: seq<Tree>)
    | Map(entries: seq<Entry>)

  datatype Entry = Entry(key: string, value: Tree)

  /** The keys of a map node, in insertion order. */
  function Keys(es: seq<Entry>): (ks: seq<string>)
    ensures |ks| == |es|
  {
    if es == [] then [] else [es[0].key] + Keys(es[1..])
  }

  predicate HasKey(es: seq<Entry>, k: string) {
    k in Keys(es)
  }

  predicate Distinct(ks: seq<string>) {
    forall i, j :: 0 <= i < j < |ks| ==> ks[i] != ks[j]
  }

  /** The value stored under `k`: `d[k]`. */
  function Get(es: seq<Entry>, k: string): Tree
    requires HasKey(es, k)
  {
    if es[0].key == k then es[0].value else Get(es[1..], k)
  }

  /** `d[k] = v`: overwrite in place when `k` is present, append otherwise. */
  function Put(es: seq<Entry>, k: string, v: Tree): seq<Entry> {
    if es == [] then [Entry(k, v)]
    else if es[0].key == k then [Entry(k, v)] + es[1..]
    else [es[0]] + Put(es[1..], k, v)
  }

  /** `del d[k]` (a dict holds `k` at most once, so every entry with key `k` goes). */
  function Delete(es: seq<Entry>, k: string): seq<Entry> {
    if es == [] then []
    else if es[0].key == k then Delete(es[1..], k)
    else [es[0]] + Delete(es[1..], k)
  }

  lemma {:induction false} LemmaKeysTail(es: seq<Entry>)
    requires es != []
    ensures Keys(es[1..]) == Keys(es)[1..]
    ensures Keys(es) == [es[0].key] + Keys(es[1..])
  {
  }

  lemma {:induction false} LemmaKeysAppend(a: seq<Entry>, b: seq<Entry>)
    ensures Keys(a + b) == Keys(a) + Keys(b)
  {
    if a == [] {
      assert a + b == b;
    } else {
      var ab := a + b;
      assert ab[0] == a[0] && ab[1..] == a[1..] + b;
      LemmaKeysAppend(a[1..], b);
      LemmaKeysTail(a);
      LemmaKeysTail(ab);
    }
  }

  /** Lookup in a concatenation finds the first part's entry first. */
  lemma LemmaGetAppend(a: seq<Entry>, b: seq<Entry>, k: string)
    requires HasKey(a, k) || HasKey(b, k)
    ensures HasKey(a + b, k)
    ensures Get(a + b, k) == if HasKey(a, k) then Get(a, k) else Get(b, k)
  {
    if HasKey(a, k) {
      LemmaGetAppendLeft(a, b, k);
    } else {
      LemmaGetAppendRight(a, b, k);
    }
  }

  lemma {:induction false} LemmaGetAppendLeft(a: seq<Entry>, b: seq<Entry>, k: string)
    requires HasKey(a, k)
    ensures HasKey(a + b, k) && Get(a + b, k) == Get(a, k)
  {
    var ab := a + b;
    assert ab[0] == a[0];
    LemmaKeysTail(a);
    LemmaKeysTail(ab);
    if a[0].key != k {
      assert ab[1..] == a[1..] + b;
      LemmaGetAppendLeft(a[1..], b, k);
    }
  }

  lemma {:induction false} LemmaGetAppendRight(a: seq<Entry>, b: seq<Entry>, k: string)
    requires !HasKey(a, k) && HasKey(b, k)
    ensures HasKey(a + b, k) && Get(a + b, k) == Get(b, k)
  {
    if a == [] {
      assert a + b == b;
    } else {
      var ab := a + b;
      assert ab[0] == a[0];
      LemmaKeysTail(a);
      LemmaKeysTail(ab);
      assert ab[1..] == a[1..] + b;
      LemmaGetAppendRight(a[1..], b, k);
    }
  }

  /** Storing a key keeps the key order, appending the key when it is new. */
  lemma {:induction false} LemmaPutKeys(es: seq<Entry>, k: string, v: Tree)
    ensures Keys(Put(es, k, v)) == if HasKey(es, k) then Keys(es) else Keys(es) + [k]
  {
    if es != [] {
      LemmaKeysTail(es);
      LemmaPutKeys(es[1..], k, v);
    }
  }

  /** A stored value is read back. */
  lemma {:induction false} LemmaPutGet(es: seq<Entry>, k: string, v: Tree)
    ensures HasKey(Put(es, k, v), k) && Get(Put(es, k, v), k) == v
  {
    if es != [] && es[0].key != k {
      LemmaPutGet(es[1..], k, v);
      LemmaKeysTail(Put(es, k, v));
    }
  }

  /** Storing one key leaves every other key's value alone. */
  lemma {:induction false} LemmaPutGetOther(es: seq<Entry>, k: string, v: Tree, k': string)
    requires k' != k && HasKey(es, k')
    ensures HasKey(Put(es, k, v), k') && Get(Put(es, k, v), k') == Get(es, k')
  {
    if es[0].key != k' {
      LemmaKeysTail(es);
      LemmaKeysTail(Put(es, k, v));
      if es[0].key != k {
        LemmaPutGetOther(es[1..], k, v, k');
      } else {
        assert Put(es, k, v)[1..] == es[1..];
      }
    }
  }

  /** Storing a new key appends it. */
  lemma {:induction false} LemmaPutAbsent(acc: seq<Entry>, k: string, v: Tree)
    requires !HasKey(acc, k)
    ensures Put(acc, k, v) == acc + [Entry(k, v)]
  {
    if acc != [] {
      LemmaKeysTail(acc);
      LemmaPutAbsent(acc[1..], k, v);
      assert acc == [acc[0]] + acc[1..];
    }
  }

  /** Storing the key just appended overwrites it in place. */
  lemma {:induction false} LemmaPutLast(acc: seq<Entry>, k: string, v: Tree, w: Tree)
    requires !HasKey(acc, k)
    ensures Put(acc + [Entry(k, v)], k, w) == acc + [Entry(k, w)]
  {
    if acc != [] {
      LemmaKeysTail(acc);
      assert (acc + [Entry(k, v)])[1..] == acc[1..] + [Entry(k, v)];
      LemmaPutLast(acc[1..], k, v, w);
      assert acc == [acc[0]] + acc[1..];
    }
  }

  /** Storing twice under one key is storing the second value. */
  lemma {:induction false} LemmaPutPut(es: seq<Entry>, k: string, a: Tree, b: Tree)
    ensures Put(Put(es, k, a), k, b) == Put(es, k, b)
  {
    if es != [] && es[0].key != k {
      var tail := Put(es[1..], k, a);
      assert Put(es, k, a) == [es[0]] + tail;
      assert ([es[0]] + tail)[1..] == tail;
      LemmaPutPut(es[1..], k, a, b);
    }
  }

  /** Deleting a key removes it and keeps the order of the others. */
  lemma {:induction false} LemmaDeleteKeys(es: seq<Entry>, k: string)
    ensures Keys(Delete(es, k)) == Without(Keys(es), {k})
    ensures !HasKey(Delete(es, k), k)
  {
    if es != [] {
      LemmaKeysTail(es);
      LemmaDeleteKeys(es[1..], k);
    }
  }

  /** Deleting one key leaves every other key's value alone. */
  lemma {:induction false} LemmaDeleteGetOther(es: seq<Entry>, k: string, k': string)
    requires k' != k && HasKey(es, k')
    ensures HasKey(Delete(es, k), k') && Get(Delete(es, k), k') == Get(es, k')
  {
    LemmaKeysTail(es);
    if es[0].key == k {
      LemmaDeleteGetOther(es[1..], k, k');
    } else if es[0].key != k' {
      LemmaDeleteGetOther(es[1..], k, k');
      LemmaKeysTail(Delete(es, k));
    }
  }

  /** The keys of `ks` that are not in `drop`, in their original order. */
  function Without(ks: seq<string>, drop: set<string>): (r: seq<string>)
    ensures forall x :: x in r <==> x in ks && x !in drop
    ensures |r| <= |ks|
  {
    if ks == [] then []
    else if ks[0] in drop then Without(ks[1..], drop)
    else [ks[0]] + Without(ks[1..], drop)
  }

  lemma {:induction false} LemmaWithoutDistinct(ks: seq<string>, drop: set<string>)
    requires Distinct(ks)
    ensures Distinct(Without(ks, drop))
  {
    if ks != [] {
      assert Distinct(ks[1..]) by {
        forall i, j | 0 <= i < j < |ks[1..]| ensures ks[1..][i] != ks[1..][j] {
          assert ks[1..][i] == ks[i + 1] && ks[1..][j] == ks[j + 1];
        }
      }
      LemmaWithoutDistinct(ks[1..], drop);
      assert ks[0] !in ks[1..] by {
        forall i | 0 <= i < |ks[1..]| ensures ks[1..][i] != ks[0] {
          assert ks[1..][i] == ks[i + 1];
        }
      }
    }
  }

  /** The rest of a dict with distinct keys has distinct keys, none of them the first. */
  lemma LemmaDistinctTail(es: seq<Entry>)
    requires es != [] && Distinct(Keys(es))
    ensures Distinct(Keys(es[1..])) && es[0].key !in Keys(es[1..])
  {
    LemmaKeysTail(es);
    var ks := Keys(es);
    assert forall j :: 0 <= j < |ks| - 1 ==> Keys(es[1..])[j] == ks[j + 1];
  }

  /** Every map in the tree has distinct keys, as a Python dict does. */
  predicate WellFormed(t: Tree) {
    match t
    case Leaf(_) => true
    case List(ts) => forall i :: 0 <= i < |ts| ==> WellFormed(ts[i])
    case Map(es) => EntriesWellFormed(es)
  }

  predicate EntriesWellFormed(es: seq<Entry>) {
    Distinct(Keys(es)) && forall i :: 0 <= i < |es| ==> WellFormed(es[i].value)
  }

  lemma {:induction false} LemmaWithoutAppend(ks: seq<string>, x: string, drop: set<string>)
    requires x !in drop
    ensures Without(ks + [x], drop) == Without(ks, drop) + [x]
  {
    if ks == [] {
      assert ks + [x] == [x];
    } else {
      assert (ks + [x])[0] == ks[0];
      assert (ks + [x])[1..] == ks[1..] + [x];
      LemmaWithoutAppend(ks[1..], x, drop);
    }
  }

  /**
   The dotted path of `key` below `parent`: `parent + "." + key`, or the bare
   key when `parent` is the empty string (Python treats "" as false).
   */
  function PathOf(parent: string, key: string): string {
    if parent == "" then key else parent + "." + key
  }

  /** A size measure: every recursive walk below decreases it. */
  function Size(t: Tree): nat {
    match t
    case Leaf(_) => 1
    case List(ts) => 1 + ItemsSize(ts)
    case Map(es) => 1 + EntriesSize(es)
  }

  function ItemsSize(ts: seq<Tree>): nat {
    if ts == [] then 0 else 1 + Size(ts[0]) + ItemsSize(ts[1..])
  }

  function EntriesSize(es: seq<Entry>): nat {
    if es == [] then 0 else 1 + Size(es[0].value) + EntriesSize(es[1..])
  }

  lemma {:induction false} LemmaGetSize(es: seq<Entry>, k: string)
    requires HasKey(es, k)
    ensures Size(Get(es, k)) < EntriesSize(es)
  {
    if es[0].key != k {
      LemmaGetSize(es[1..], k);
    }
  }

  lemma {:induction false} LemmaPutSize(es: seq<Entry>, k: string, v: Tree)
    ensures EntriesSize(Put(es, k, v)) <= EntriesSize(es) + 1 + Size(v)
  {
    if es != [] && es[0].key != k {
      LemmaPutSize(es[1..], k, v);
      assert Put(es, k, v)[1..] == Put(es[1..], k, v);
    }
  }

  lemma {:induction false} LemmaDeleteSize(es: seq<Entry>, k: string)
    requires HasKey(es, k)
    ensures EntriesSize(Delete(es, k)) + 1 + Size(Get(es, k)) <= EntriesSize(es)
  {
    if es[0].key == k {
      LemmaDeleteShrinks(es[1..], k);
    } else {
      LemmaDeleteSize(es[1..], k);
      assert Delete(es, k)[1..] == Delete(es[1..], k);
    }
  }

  lemma {:induction false} LemmaDeleteShrinks(es: seq<Entry>, k: string)
    ensures EntriesSize(Delete(es, k)) <= EntriesSize(es)
  {
    if es != [] {
      LemmaDeleteShrinks(es[1..], k);
      if es[0].key != k {
        assert Delete(es, k)[1..] == Delete(es[1..], k);
      }
    }
  }

  lemma {:induction false} LemmaItemsSizeAt(ts: seq<Tree>, i: int)
    requires 0 <= i < |ts|
    ensures Size(ts[i]) < ItemsSize(ts)
  {
    if i > 0 {
      LemmaItemsSizeAt(ts[1..], i - 1);
    }
  }
}
