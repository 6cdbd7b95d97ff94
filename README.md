# Field index sort engine (repoze.catalog)

This project models the sort engine of repoze.catalog's `CatalogFieldIndex`. The index keeps three pieces of state:

- a reverse index (`_rev_index`) from docid to the value the document was indexed under;
- a forward index (`_fwd_index`) from each value to the set of docids indexed under it, iterated in ascending value order;
- a document counter (`_num_docs`).

`sort(docids, reverse, limit, sort_type)` works in three steps:

1. It validates the limit and returns early for an empty request.
2. It picks one of three algorithms from a tuned decision table, or takes the one the caller forces. The algorithms are forward scan, n-best selection and full (tim)sort.
3. It runs that algorithm and yields the candidate docids in order of their indexed values, at most `limit` of them.

`unindex_doc` removes a document from both indexes.

Modules:

- `Wrappers`: `Option`, `Result`, `Min`, `Max`.
- `Pairs`: the `(value, docid)` pairs the algorithms work on, with Python's tuple order on them. It also models:
  - `bisect.insort`;
  - `sorted()`, both plain and as a stable sort by value;
  - `heapq.nlargest`'s order;
  - the ascending enumeration of a set of pairs, which is how the BTree-of-TreeSets forward index iterates.
- `Strategy`: the decision tables of `sort_forward` and `sort_reverse` and the dispatch on the sort-type name. Every Python exception is a `Failure` value.
- `FieldIndex`: the index as a class `CatalogFieldIndex` with fields `rev`, `fwd` and `numDocs`.
  - **Class methods:** `unindex_doc`, `sort`, `sort_forward`, `sort_reverse`, `scan_forward`, `nbest_ascending` and `_timsort` are each a method of the class. `UnindexDoc` changes state. `ScanForward` loops itself; `NBestAscending` loops through the module-level method `NSmallest`, and `Timsort` through its own key loop and the method `Emit`. `Sort`, `SortForward` and `SortReverse` only validate, branch and dispatch, as their source does.
  - **Timsort wrappers:** the two one-line wrappers `timsort_ascending` and `timsort_descending` are the `reverse` argument of `Timsort`.
  - **Functions:** `nbest_descending` (one call to `heapq.nlargest`) and `nsort` are functions, `NBestDescending` and `NSort`.
  - **Specifications:** each looping method is proved equal to a specification function (`ScanSpec`, `NBestAscendingSpec`, `TimsortSpec`). `Sort` is proved equal to `SortSpec`, which covers the whole request.
- `Properties`: what those specifications promise callers. That covers membership, order, bounds, which pairs are kept, the validation outcomes and the quirks of the decision table.

The model follows the code where it disagrees with its own comments (field.py:84-89 says no limit picks a forward scan) or with what its callers might expect:

- **Ascending sort without a limit fails.** With no forced sort type and no limit, `sort_forward` computes `rlen / float(limit)` before any test. That raises a TypeError (`LimitNotANumber`), so the ascending table's "no limit → forward scan" branch is unreachable (`Strategy.Plan`).
- **An unmatched middle band raises.** In the middle docratio band, when no limitratio threshold matches, `sort_type` stays `None`. The code raises `ValueError('Unknown sort type None')` rather than falling back to a full sort (`Properties.MiddleBandChoice`, `Properties.MiddleBandRaises`).
- **The first band is dead.** The band `.0313 >= docratio > .051625` is empty and never selects anything (`Strategy.ForwardChoice`). As a result, an unforced ascending request with a limit of at least 300 and `.015625 < docratio <= .0313` always raises 'Unknown sort type None', whatever the limitratio (`Properties.LowMiddleBandRaises`).
- **Reverse forward scan is refused.** Forcing `'fwscan'` with `reverse=True` raises `ValueError` (`Strategy.Dispatch`).
- **The strategies agree on which docids, not always on how many.** For a consistent index whose document count is its size, and a limit that does not bind (none, or at least the number of candidates), every strategy yields exactly the candidates the index holds (`Properties.SortYieldsAllCandidates`). When the candidates hold no docid twice, every strategy yields each docid once (`Properties.SortYieldsNoDuplicates`), so the strategies then yield the same docids. Two differences remain:
  - A repeated candidate comes out once from the forward scan but as often as it is listed from n-best and timsort.
  - When a limit cuts through equal values, the strategies keep different docids, since each breaks ties its own way: the forward scan and n-best by docid, timsort by candidate order.

## Model

| member | source | states |
|---|---|---|
| FieldIndex.CatalogFieldIndex.UnindexDoc | repoze/catalog/indexes/field.py:21-44 | An unindexed docid changes nothing. Otherwise the docid leaves the reverse index and its value's forward set, an emptied set is deleted, a KeyError on the forward lookup changes nothing there, and the count drops by one. Consistency of the two indexes is preserved, and afterwards the docid is in no forward set. |
| FieldIndex.CatalogFieldIndex.constructor | repoze/catalog/indexes/field.py:18-19 | A new index is empty, with no documents, and satisfies the index invariant. |
| FieldIndex.UnindexKeepsConsistent | repoze/catalog/indexes/field.py:30-44 | Removing an indexed docid from both maps keeps every docid in exactly the forward set of its value, leaves no set empty, and shrinks the reverse index by one. |
| FieldIndex.CatalogFieldIndex.Sort | repoze/catalog/indexes/field.py:46-62 | The result is that of the whole request: limit validation, the early empty returns, then the directed sort. |
| FieldIndex.CatalogFieldIndex.SortForward | repoze/catalog/indexes/field.py:64-117 | Runs the algorithm the ascending plan picks, or returns the plan's error. |
| FieldIndex.CatalogFieldIndex.SortReverse | repoze/catalog/indexes/field.py:119-140 | Runs the algorithm the descending plan picks (never a forward scan), or returns the plan's error. |
| Properties.SortValidates | repoze/catalog/indexes/field.py:47-57 | `sort` fails with "limit must be 1 or greater" exactly when a limit below 1 is given. Otherwise no candidates, or a zero document count, yield an empty result. |
| Properties.SortYieldsIndexedCandidates | repoze/catalog/indexes/field.py:46-217 | Whatever algorithm is picked, a successful sort on a consistent index yields only candidates the index holds, and no more than the limit. |
| Properties.SortYieldsOrdered | repoze/catalog/indexes/field.py:46-217 | Whatever algorithm is picked, a successful sort yields docids in order of their values: non-decreasing, or non-increasing when reversed. |
| Properties.SortYieldsAllCandidates | repoze/catalog/indexes/field.py:46-217 | For a consistent index whose count is its size, and a limit that does not bind, every algorithm yields exactly the candidates the index holds. |
| Properties.SortYieldsNoDuplicates | repoze/catalog/indexes/field.py:46-217 | Whatever algorithm is picked, candidates without repeats give a result without repeats. |
| Properties.PairwiseDistinct | repoze/catalog/indexes/field.py:176-184 | Docids read off a rearrangement of `nsort`'s pairs of distinct candidates are distinct. |
| Properties.NSortOnce | repoze/catalog/indexes/field.py:212-217 | With distinct candidates, `nsort` yields each pair at most once. |
| Properties.MiddleBandRaises | repoze/catalog/indexes/field.py:91-117 | The gap is reached: with 1000 candidates, 20000 documents and a limit of 1000, the middle band matches no threshold and the sort fails with "Unknown sort type None". |
| Properties.MiddleBandChoice | repoze/catalog/indexes/field.py:91-117 | An unforced ascending request with a limit of at least 300 in the middle docratio band gets a forward scan exactly when a live band's limitratio threshold holds. Otherwise it fails with "Unknown sort type None". |
| Properties.LowMiddleBandRaises | repoze/catalog/indexes/field.py:91-117 | With a limit of at least 300 and `.015625 < docratio <= .0313`, an unforced ascending sort always fails with "Unknown sort type None", because only the dead band covers that range. |
| Strategy.ForwardChoice | repoze/catalog/indexes/field.py:71-108 | The ascending table: a zero document count or limit divides by zero, a missing limit is a TypeError, and a limit below 300 picks nbest. Otherwise docratio > .25 picks fwscan and docratio <= .015625 picks timsort. The middle band picks fwscan only in a live band meeting its limitratio threshold, and leaves the type unset otherwise. |
| Strategy.ReverseChoice | repoze/catalog/indexes/field.py:120-133 | The descending table: no limit picks timsort; a limit below 300, or one above 0.09 of the candidate count, picks nbest; otherwise timsort. It never picks fwscan. |
| Strategy.Dispatch | repoze/catalog/indexes/field.py:110-117 | Succeeds only on the name of the algorithm it returns (fwscan never in reverse). Any other name fails with "Unknown sort type" carrying that name. |
| Strategy.DispatchByName | repoze/catalog/indexes/field.py:135-140 | Every algorithm's own name dispatches to it, except fwscan in reverse, which raises. |
| Strategy.Plan | repoze/catalog/indexes/field.py:64-140 | A forced type goes straight to dispatch. No plan runs a forward scan in reverse. An unforced nbest always has a limit. The unforced descending plan always succeeds on candidates. The unforced ascending plan without a limit fails with a TypeError. |
| FieldIndex.CatalogFieldIndex.ScanForward | repoze/catalog/indexes/field.py:142-153 | Yields the candidates in forward-index order (values ascending, then docids), stopping once the limit's worth are out. |
| Properties.ScanYieldsOrderedCandidates | repoze/catalog/indexes/field.py:146-153 | The scan yields only indexed candidates, no more than the limit lets through, in strictly ascending (value, docid) order. |
| Properties.ScanYieldsAll | repoze/catalog/indexes/field.py:146-153 | With no limit, or one at least the number of candidates, the scan yields exactly the candidates the index holds. |
| Properties.ScanStreamDistinct | repoze/catalog/indexes/field.py:147-149 | The candidates met along the forward index are distinct and all in `docids`: a docid sits in one value's set only. |
| Properties.AscendingDocidsDistinct | repoze/catalog/indexes/field.py:147-149 | Strictly ascending indexed pairs carry distinct docids, since a docid has one value. |
| Properties.MatchingMembers | repoze/catalog/indexes/field.py:149 | The `docid in docids` filter keeps exactly the pairs whose docid is a candidate. |
| Properties.MatchingAscending | repoze/catalog/indexes/field.py:147-149 | The filter keeps the index stream strictly ascending. |
| FieldIndex.CatalogFieldIndex.NBestAscending | repoze/catalog/indexes/field.py:155-177 | Fails without a limit. Otherwise yields the docids of the first `limit` pairs of the sorted `nsort` pairs. |
| FieldIndex.NSmallest | repoze/catalog/indexes/field.py:159-174 | The insort/pop loop ends with the `limit` smallest pairs in sorted order, i.e. the sorted pairs cut to `min(limit, #pairs)`. |
| FieldIndex.NBestStep | repoze/catalog/indexes/field.py:169-174 | One loop step keeps the invariant that the buffer is the `k` smallest pairs seen so far, sorted. Pairs no smaller than `los` are skipped; others are inserted and the largest is popped. |
| FieldIndex.SortedWhole | repoze/catalog/indexes/field.py:169-177 | When the loop has seen every pair, the buffer is the first `k` of all the pairs sorted. |
| FieldIndex.NBestGrow | repoze/catalog/indexes/field.py:169-172 | Sorting one more pair is inserting it into the sorted earlier pairs. |
| Properties.NBestAscendingPairs | repoze/catalog/indexes/field.py:155-177 | Yields `min(limit, #indexed candidates)` docids. The i-th is a candidate whose pair is the i-th smallest, so nothing is yielded when no candidate is indexed. |
| Properties.NBestAscendingOrdered | repoze/catalog/indexes/field.py:155-177 | The yielded pairs are non-decreasing, so ties are broken by ascending docid. |
| Properties.NBestAscendingSmallest | repoze/catalog/indexes/field.py:155-177 | Every indexed candidate left out is no smaller than any pair yielded. |
| Properties.NBestAscendingYieldsAll | repoze/catalog/indexes/field.py:155-177 | With a limit at least the number of indexed candidates, exactly the indexed candidates are yielded. |
| FieldIndex.NBestDescending | repoze/catalog/indexes/field.py:179-184 | Fails exactly when there is no limit. Otherwise yields `min(max(limit,0), #indexed candidates)` docids. |
| Properties.NBestDescendingPairs | repoze/catalog/indexes/field.py:179-184 | The i-th yielded docid is an indexed candidate whose pair is the i-th of the pairs sorted descending. |
| Properties.NBestDescendingOrdered | repoze/catalog/indexes/field.py:183-184 | `heapq.nlargest` yields its pairs non-increasing, so ties are broken by descending docid. |
| Properties.NBestDescendingLargest | repoze/catalog/indexes/field.py:183-184 | Every indexed candidate left out is no larger than any pair yielded. |
| Properties.NBestDescendingYieldsAll | repoze/catalog/indexes/field.py:179-184 | With a limit at least the number of indexed candidates, exactly the indexed candidates are yielded. |
| FieldIndex.CatalogFieldIndex.Timsort | repoze/catalog/indexes/field.py:192-210 | Yields the indexed candidates stably sorted by value, skipping the missing ones and stopping at the limit. |
| FieldIndex.Emit | repoze/catalog/indexes/field.py:203-210 | The emit loop yields the sorted docids minus the missing ones, cut at the limit. |
| FieldIndex.KeepSorted | repoze/catalog/indexes/field.py:197-206 | Skipping the recorded misses leaves exactly the sorted indexed candidates, wherever the sort placed the missing keys. |
| FieldIndex.KeepPrefix | repoze/catalog/indexes/field.py:207-210 | Stopping when `n` reaches the limit emits exactly the limit's prefix of everything the loop would emit. |
| Properties.TimsortYieldsOrderedCandidates | repoze/catalog/indexes/field.py:192-210 | `_timsort` yields only indexed candidates, at most the limit of them, ordered by value (descending when reversed). |
| Properties.TimsortPairs | repoze/catalog/indexes/field.py:192-210 | The i-th yielded docid is an indexed candidate whose pair is the i-th of the stable sort. All of them come out when the limit does not bind. |
| Properties.TimsortYieldsAll | repoze/catalog/indexes/field.py:192-210 | With no limit, or one at least the number of indexed candidates, every indexed candidate is yielded. |
| Properties.TimsortKeepsCandidateOrder | repoze/catalog/indexes/field.py:203 | For every value, the yielded docids with that value are a prefix of that value's candidates in `docids` order, so ties keep candidate order. |
| Properties.TimsortOutPairs | repoze/catalog/indexes/field.py:203-210 | The pairs of what `_timsort` yields are the first ones of the stable sort. |
| Properties.EveryCandidateFound | repoze/catalog/indexes/field.py:176-184 | Reading docids off all of a rearrangement of `nsort`'s pairs finds every indexed candidate. |
| Properties.NSortOfPairs | repoze/catalog/indexes/field.py:212-217 | `nsort` over the docids of indexed pairs gives those pairs back. |
| FieldIndex.NSort | repoze/catalog/indexes/field.py:212-217 | `nsort` yields at most one pair per candidate. |
| FieldIndex.NSortMembers | repoze/catalog/indexes/field.py:212-217 | A pair is in `nsort`'s output exactly when its docid is a candidate in the reverse index and its value is the indexed one. Missing candidates are dropped. |
| FieldIndex.NSortHas | repoze/catalog/indexes/field.py:212-217 | Every indexed candidate contributes its pair. |
| FieldIndex.Truncate | repoze/catalog/indexes/field.py:150-153 | The `if limit and n >= limit` stop yields a prefix of the whole stream. The prefix has length `min(#stream, limit)`, with one item for a negative limit; the whole stream comes out when there is no limit or the limit is zero. |
| FieldIndex.PairSet | repoze/catalog/indexes/field.py:147-148 | The pairs the forward index holds are exactly (value, docid in that value's set). |
| FieldIndex.ScanVisit | repoze/catalog/indexes/field.py:147-148 | Visiting the least pending pair keeps the visited pairs strictly ascending and before every pending one. |
| FieldIndex.ScanLeast | repoze/catalog/indexes/field.py:147-148 | The least value and its least docid form the least pair not yet visited. |
| FieldIndex.ScanStopsAtLimit | repoze/catalog/indexes/field.py:150-153 | Stopping at the limit yields exactly the limit's prefix of all matching docids in index order. |
| Pairs.Docids | repoze/catalog/indexes/field.py:176-177 | `for value, docid in result: yield docid` keeps length and order. |
| Pairs.Insort | repoze/catalog/indexes/field.py:172 | `bisect.insort` adds exactly one element. |
| Pairs.InsortMultiset | repoze/catalog/indexes/field.py:172 | Insort adds `x` and loses nothing. |
| Pairs.InsortAscending | repoze/catalog/indexes/field.py:172 | Insort keeps an ascending list ascending. |
| Pairs.InsortPrefix | repoze/catalog/indexes/field.py:172-173 | Insert-then-pop into `k` places depends only on the first `k` elements. |
| Pairs.InsortBeyondPrefix | repoze/catalog/indexes/field.py:170-171 | A pair no smaller than the k-th leaves the first `k` places alone, which is why `los <= elem` may be skipped. |
| Pairs.InsortAfterAll | repoze/catalog/indexes/field.py:172 | A pair no smaller than every element goes to the end. |
| Pairs.SortAsc | repoze/catalog/indexes/field.py:163 | `sorted()` keeps the length. |
| Pairs.SortAscSorts | repoze/catalog/indexes/field.py:163 | `sorted()` returns an ascending permutation of its input. |
| Pairs.SortedUnique | repoze/catalog/indexes/field.py:163 | Two ascending permutations of the same pairs are equal, so the result does not depend on the sort algorithm. |
| Pairs.SortDesc | repoze/catalog/indexes/field.py:183 | `heapq.nlargest`'s order: a descending permutation of its input. |
| Pairs.Reverse | repoze/catalog/indexes/field.py:183 | Reversal maps position i to position n-1-i. |
| Pairs.ReverseMultiset | repoze/catalog/indexes/field.py:183 | Reversal is a permutation. |
| Pairs.StableSort | repoze/catalog/indexes/field.py:203 | `sorted(docids, key=get, reverse=reverse)` keeps the length. |
| Pairs.StableSortSorts | repoze/catalog/indexes/field.py:203 | The result is ordered by value (non-increasing when reversed) and is a permutation of the input. |
| Pairs.StableSortIsStable | repoze/catalog/indexes/field.py:203 | For every value, the pairs with that value keep their input order, also when reversed. |
| Pairs.StableSortUnique | repoze/catalog/indexes/field.py:203 | Two value-ordered sequences with the same per-value order are equal, so stability fixes the result. |
| Pairs.InsertByValue | repoze/catalog/indexes/field.py:203 | The stable insertion adds exactly one element. |
| Pairs.InsertByValueMultiset | repoze/catalog/indexes/field.py:203 | The stable insertion adds `x` and loses nothing. |
| Pairs.InsertByValueOrdered | repoze/catalog/indexes/field.py:203 | The stable insertion keeps a value-ordered sequence ordered. |
| Pairs.InsertByValueStable | repoze/catalog/indexes/field.py:203 | The stable insertion appends `x` to the pairs with its value and leaves the others' order alone. |
| Pairs.FirstIsExtreme | repoze/catalog/indexes/field.py:203 | In a value-ordered sequence no element comes before the first one. |
| Pairs.WithValueMembers | repoze/catalog/indexes/field.py:203 | The pairs selected for a value are pairs of the input with that value. |
| Properties.WithValuePrefix | repoze/catalog/indexes/field.py:209-210 | Cutting a sequence at the limit keeps a prefix of each value's group. |
| Pairs.Enum | repoze/catalog/indexes/field.py:147-148 | Iterating the forward index lists each of its pairs exactly once, in strictly ascending order. |
| Pairs.StrictUnique | repoze/catalog/indexes/field.py:147-148 | Only one strictly ascending sequence holds a given set of pairs, so the index order is determined. |
| Pairs.EnumSplit | repoze/catalog/indexes/field.py:147-148 | A strictly ascending run of pairs that precedes the rest of the set is the start of its enumeration. |
| Pairs.MinExists | repoze/catalog/indexes/field.py:147-148 | Every non-empty set of pairs has a least pair, the next one the iteration visits. |

## Left out

- Generator laziness: each algorithm returns the finite sequence of docids it would yield. The `raise StopIteration` early exit is taking a prefix, and `nbest_ascending`'s `raise StopIteration` on an empty buffer is an empty result.
- The base classes `FieldIndex` and `CatalogIndex`, `index_doc`, `zope.interface` and persistence are not modelled. The BTree and TreeSet behind the forward index are a map of sets whose iteration order is ascending value, then ascending docid.
- `_num_docs` is a `Length` object in the source and a plain integer field here.
- Values are integers. Any totally ordered value type would do; Python 2's mixed-type comparisons are not modelled.
- The `docratio` and `limitratio` divisions are exact rationals. Floating-point rounding near a band boundary is not modelled.
- `int(limit)` coercion of non-integer limits is not modelled. `limit` is an optional integer.
- The `_marker` keys of missing docids: Python 2 orders them after every number. The model places the missing docids after (ascending) or before (descending) the indexed ones, and the skip loop then removes them, so the placement does not affect the output.
- The internals of `bisect.insort`, `heapq.nlargest`, `sorted` and `islice` are not modelled. Each is replaced by a function with its contract: insertion after equal elements, the largest `limit` pairs in descending order, a stable sort, a prefix.
- `set.remove` in `unindex_doc` mutates the persistent TreeSet in place. The model replaces the forward entry with a new set, so sharing of that set object is not modelled.
- Candidate `docids` are a sequence, not a set. Membership is `in`, and the order only matters for the ties `_timsort` keeps and for `nsort`'s order.
- Cross-strategy equality of the result lists is not claimed. With a binding limit and tied values, the algorithms keep different docids. With repeated candidates, the scan yields each once while the others repeat it. The common set of docids and the absence of repeats are proved instead.
- FieldIndex.CatalogFieldIndex.UnindexDoc: preservation of `Valid()` assumes `_num_docs` equals the size of the reverse index. The source relies on `index_doc` keeping that true, and `index_doc` is not part of this model.
