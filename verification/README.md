# Document-tree rewriting helpers of `src/functions.py`, in Dafny

The repository turns Azure Document Intelligence results into trimmed JSON.
It does this with three recursive walks over a JSON-like tree of dicts, lists
and scalars:

- `select_keys` projects a dict onto a selection of keys. A key is selected
  by its bare name or by its dotted path, such as `b.c`.
- `process_data` removes every entry whose key is in a removal set, at any
  depth. Under `tables`, `paragraphs` and `cells`, it first copies each
  element's `page_number` up from its `bounding_regions`, then drops the
  `bounding_regions`.
- `print_keys` prints every dotted key path of a tree once. It records what it
  printed in a set, which a mutable default argument shares between calls.

The model is built in four modules:

- `JsonTree` (`tree.dfy`) holds the tree. A dict is an ordered sequence of
  entries, because a Python dict keeps insertion order.
  - `Put` is `d[k] = v`: it overwrites in place when the key is present and
    appends the key otherwise.
  - `Delete` is `del d[k]`.
  - `Get` is `d[k]`.
  - Scalars are opaque leaves. Numbers keep their text.
- `Projection` (`projection.dfy`) models `select_keys`.
  - `SelectKeys` follows the Python loop literally. It fills a fresh dict with
    `Put`, and copies a matching entry before the recursive result overwrites
    it.
  - `ProjectEntries` is an independent per-entry description of the same
    projection. The two are proved equal on every dict with distinct keys.
- `Pruning` (`pruning.dfy`) models `process_data` as the pure function `Prune`.
  - The hoist is `HoistElement`. Its region loop, `CopyPageNumbers`, is proved
    equal to a "last region carrying a page number" reference,
    `LastPageNumber`.
- `KeyPrinting` (`printing.dfy`) models `print_keys` as a function. It returns
  the printed lines and the accumulator as the call leaves it.
  - It is proved equal to a reference: the enumeration of all dotted paths
    (`Paths`), deduplicated against the incoming accumulator (`Dedup`).

`Scenarios` (`scenarios.dfy`) works the walks through small concrete trees.

Two behaviours of the code are worth stating, because a reader might expect
otherwise. The model follows the code in both.

- **A selected dict-valued key does not keep its full subtree.** The
  recursive projection at line 357 overwrites the copy made at line 353. So
  `{"b": {"c": 2}}` projected on `{"b"}` is `{"b": {}}`
  (`Scenarios.LemmaSelectedMapReprojected`).
- **The hoist assumes its input's shape.** Lines 400-407 expect a list of
  dicts whose `bounding_regions` is a list of dicts. On any other shape the
  code raises, or runs accidental membership and substring tests. Examples:
  - a scalar under `tables`;
  - a string or dict under `tables`, or a list of lists;
  - a string `bounding_regions`.

  The model requires the shapes the hoist is meant for (`Pruning.Prunable`)
  and does not model those paths.

## Model

| member | source | states |
|---|---|---|
| Projection.LemmaSelectKeysIsProjection | src/functions.py:343-373 | On a dict with distinct keys, the loop that fills a fresh dict with overwriting stores gives exactly the per-entry projection. Each input entry contributes itself, its projected copy, or nothing, in input order. |
| Projection.LemmaStepAppends | src/functions.py:346-370 | One loop iteration on a key the new dict does not hold yet appends that key's projected entry, if it has one. The direct copy and the overwrite by a recursive result collapse into one entry. |
| Projection.ProjectEntry | src/functions.py:349-370 | An input entry yields at most one output entry, and always under the same key. |
| Projection.SelectItems | src/functions.py:360-370 | The projected list is no longer than the original and holds only dicts. It is empty exactly when the original list has no dict element. |
| Projection.LemmaSelectItemsIsMapElems | src/functions.py:360-370 | A list value projects to one dict per dict element of the original list, in order. Each one is that element projected at the unchanged parent path. Non-dict elements are dropped. |
| Projection.LemmaMapElemsMembers | src/functions.py:364-366 | The elements the list loop projects are exactly the dict elements of the list. |
| Projection.LemmaSelectItemsAppend | src/functions.py:364-366 | Projecting a list is done element by element: the projection of a concatenation is the concatenation of the projections. |
| Projection.LemmaSelectKeysOrder | src/functions.py:343-373 | The output's keys are the input's keys minus the dropped ones, in input order and without repetition. |
| Projection.LemmaSelectKeysWithin | src/functions.py:346-353 | Every key of the output is a key of the input. |
| Projection.LemmaSelectLookup | src/functions.py:349-370 | A scalar entry appears, with its original value, if and only if its bare key or dotted path is selected. A dict entry always appears, holding the projection below its extended path, even when selected itself. A list entry holds its projected dict elements. When there are none, it keeps its original list if and only if it was selected. |
| Projection.LemmaSelectIdempotent | src/functions.py:328-373 | Projecting a well-formed dict a second time with the same selection and path changes nothing. |
| Projection.LemmaEmptySelectionHasNoLeaves | src/functions.py:352-370 | With an empty selection, no scalar survives: only the skeleton of dicts and lists of dicts is left. |
| Projection.LemmaSelectAllIsIdentity | src/functions.py:352-370 | Selecting every key by name returns the dict unchanged, provided no list mixes dicts with other elements. |
| Pruning.Prune | src/functions.py:376-419 | No dict in the result has a removed key, including a `page_number` just hoisted. A scalar is returned unchanged and a list keeps its length. A dict keeps exactly its keys minus the removal set, in their original order. |
| Pruning.PruneItems | src/functions.py:413-416 | A list is pruned element by element. It keeps its length, and no element of the result has a removed key anywhere. |
| Pruning.PruneEntries | src/functions.py:390-410 | The walk over a dict drops the removed keys and keeps the others in order. No kept value has a removed key anywhere. |
| Pruning.HoistElements | src/functions.py:400-407 | Every element of a `tables`, `paragraphs` or `cells` list is hoisted in place, and the list keeps its length. |
| Pruning.LemmaLastRegionWins | src/functions.py:402-405 | The region loop's repeated stores leave the page number of the last region carrying one. When no region carries one, they leave the element untouched. |
| Pruning.LemmaLastPageNumberSpec | src/functions.py:402-405 | There is no last page number exactly when no region carries one. When region `i` carries one and no later region does, the result is region `i`'s page number. |
| Pruning.LemmaHoistElement | src/functions.py:401-407 | After the hoist, an element has no `bounding_regions`. Its `page_number` is that of the last region carrying one. When no region carries one, any `page_number` it had is kept as it was. |
| Pruning.LemmaHoistElementKeeps | src/functions.py:401-407 | The hoist keeps every other key with its value and in its order. It appends `page_number` only when the key is new and some region supplied it. |
| Pruning.LemmaPruneItemsAt | src/functions.py:413-416 | Element `i` of a pruned list is element `i` of the original, pruned. |
| Pruning.LemmaPruneEntriesGet | src/functions.py:391-410 | A kept key holds its original value, hoisted when the key names a collection, then pruned recursively. |
| Pruning.LemmaPruneHoisted | src/functions.py:401-410 | A hoisted element, pruned, has no `bounding_regions`. It has no `page_number` when that key is removed too. Otherwise its `page_number` is the last region's, pruned. |
| Pruning.LemmaHoistThroughPrune | src/functions.py:399-410 | Take element `j` of a kept `tables`, `paragraphs` or `cells` list that had `bounding_regions`. After the whole walk it has the shape `LemmaPruneHoisted` describes, and the list keeps its length. |
| Pruning.LemmaPruneStaysPrunable | src/functions.py:390-419 | The result of the walk has a shape the walk accepts again. |
| Pruning.LemmaPruneIdempotent | src/functions.py:376-419 | Pruning the result again with the same removal set returns it unchanged. |
| KeyPrinting.PrintKeys | src/functions.py:296-325 | Nothing is printed twice, and nothing already in the accumulator is printed. The accumulator grows by exactly the printed paths. |
| KeyPrinting.PrintEntries | src/functions.py:309-319 | The loop over a dict prints new paths only, each once, and adds exactly those to the accumulator. |
| KeyPrinting.PrintItems | src/functions.py:321-325 | The loop over a list prints new paths only, each once, and adds exactly those to the accumulator. |
| KeyPrinting.LemmaPrintKeysIsDedup | src/functions.py:309-325 | Take every dotted path of the tree in walk order: map entries extend the path with `.key`, or use the bare key at the root, and list elements reuse the parent path. The printed lines are the first occurrences of those paths that the accumulator did not already hold. |
| KeyPrinting.LemmaPrintedPaths | src/functions.py:313-325 | The paths printed are exactly the tree's dotted paths not already seen. The outgoing accumulator is the incoming one plus every dotted path of the tree. |
| KeyPrinting.LemmaSecondCallSilent | src/functions.py:296-317 | When the accumulator is shared, a second call on the same tree prints nothing. A call on another tree prints nothing the first call printed. |
| Scenarios.LemmaNestedMatch | src/functions.py:352-357 | `{"a": 1, "b": {"c": 2}}` projected on `{"c"}` is `{"b": {"c": 2}}`. |
| Scenarios.LemmaSelectedMapReprojected | src/functions.py:352-357 | `{"b": {"c": 2}}` projected on `{"b"}` is `{"b": {}}`, because the recursive projection overwrites the copy of the selected dict. |
| Scenarios.LemmaListProjection | src/functions.py:360-370 | `{"a": [1, {"c": 2}], "d": [3]}` projected on `{"d"}` is `{"a": [{}], "d": [3]}`. A non-dict element is dropped, and a selected list without dict elements is kept as it was. |
| Scenarios.LemmaParagraphHoist | src/functions.py:399-410 | `{"paragraphs": [{"text": "x", "bounding_regions": [{"page_number": 1}]}]}` with nothing removed becomes `{"paragraphs": [{"text": "x", "page_number": 1}]}`. |
| Scenarios.LemmaEmptyRegions | src/functions.py:399-407 | `{"tables": [{"cells": [], "bounding_regions": []}]}` with nothing removed loses `bounding_regions` and gains no `page_number`. |
| Scenarios.LemmaLastOfTwoRegions | src/functions.py:402-407 | A table whose regions carry page numbers 3 and then 5 ends with page number 5 and no `bounding_regions`. |

## Left out

- The Azure Blob Storage functions `blob_name_and_url_dict`, `write_to_blob`,
  `load_blobs_iterator` and `load_blob` (src/functions.py:7-58, 152-293) are
  out of scope. They are SDK calls and logging, with no logic of their own
  worth a model.
- `doc_intel_pdf` (src/functions.py:61-104) is a Document Intelligence client
  call that polls for its result.
- `local_file_write` and `local_file_read` (src/functions.py:107-149) are
  filesystem I/O and JSON (de)serialisation.
- JSON parsing and printing, and floating-point numbers, are not modelled.
  Scalars are opaque leaves, and a number keeps its text.
- In-place mutation and aliasing in `process_data` are not modelled. The tree
  is assumed to share no sub-object, so the in-place rewrite is a function
  returning the new tree. The same holds for `select_keys`, which in the model
  cannot alter its input, so its non-destructiveness is not stated separately.
- The `print` side effect of `print_keys` is modelled as the returned
  sequence of lines. The shared default set is an explicit input and output.
- Pruning.Prune: it requires `Prunable`, the shapes the hoist is meant for:
  a list of dicts whose `bounding_regions` is a list of dicts. What Python
  does on other shapes is not modelled (src/functions.py:400-405). These
  shapes raise, or run accidental membership, substring and character tests:
  a scalar, string or dict value under `tables`, `paragraphs` or `cells`; a
  list holding a list or another non-dict element; a string
  `bounding_regions` or region.
- Projection.LemmaSelectKeysIsProjection: it requires distinct keys, as in
  every Python dict. The loop itself is modelled for any entry sequence.
- The selection and removal sets are sets. The Python functions accept any
  container with `in`; a list behaves the same.

