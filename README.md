# Beancount query execution, modelled in Dafny

This project models the execution engine of Beancount's SQL-like query language
(`beancount.query.query_execute`). A compiled SELECT runs against a list of ledger
entries in these steps:

1. The optional FROM clause filters the entries. It applies its own predicate, then
   the open, close and clear summarisation steps.
2. Every posting of every transaction that passes the WHERE predicate is evaluated.
   - A non-aggregated query produces one row per posting.
   - An aggregated query groups the postings by the tuple of group-key values. It
     keeps one aggregation store per group and finalises every group into one row.
3. The Schwartzian `(sort key, row)` pairs are sorted stably when ORDER BY is given,
   descending for `DESC`.
4. The sort keys are dropped, DISTINCT removes repeated rows, and LIMIT slices the
   list.

The result is the schema (`result_types`) and the rows.

Compiled expressions, aggregate nodes and the summarisation functions belong to other
modules of Beancount. They appear here as function-valued fields of the query plan,
over abstract types:

- `D`: the part of an entry the FROM predicate and the summarisers look at.
- `P`: a posting.
- `A`: the contents of one store slot.
- `V`: a column value.

An aggregate node is an `initial` slot value plus an `update` of the slot by one
posting, with one slot allocated per aggregate node. A target's `finalize` reads the
whole store. Python's dictionary keeps its insertion order, so the aggregation store
is modelled as a key sequence in first-insertion order plus a map.

Each loop of the source has a method with its invariants:

- the allocations in `Allocation.AllocateAll`;
- the scans in `DetailPath.ScanRows` and `GroupPath.ScanGroups`;
- the classification in `GroupPath.Classify`;
- the store set-up and update in `GroupPath.InitializeStore` and `GroupPath.UpdateStore`;
- the finalisation in `GroupPath.FinalizeGroups`;
- the in-place array sort in `Ordering.SortRows`.

The scans and the finalisation are proved equal to specification functions:
`DetailRows`, `GroupScan` and `GroupRows`. `Ordering.SortRows` is proved to satisfy
the predicate `StableSortOf`. The lemmas prove what those functions mean:

- row counts;
- projection order;
- one store per key;
- each store is the fold of its aggregates over exactly its group's postings;
- the groups partition the matching postings;
- sortedness, stability and permutation;
- the DISTINCT and LIMIT bounds.

`Allocator` is a class with a `size` field. Only `Allocate` updates it; `CreateStore` reads it.

## Model

| member | source | states |
|---|---|---|
| Allocation.Allocator.constructor | src/python/beancount/query/query_execute.py:78-79 | a new allocator has handed out no slot (`size == 0`) |
| Allocation.Allocator.Allocate | src/python/beancount/query/query_execute.py:81-89 | returns the old `size` as the handle and increments `size` by one, so the handle is below the new size |
| Allocation.Allocator.CreateStore | src/python/beancount/query/query_execute.py:91-97 | returns a store with exactly `size` slots, every one `None`, without changing the allocator |
| Allocation.AllocateAll | src/python/beancount/query/query_execute.py:184-186 | allocating the n aggregate nodes of a fresh allocator hands out the handles 0, 1, ..., n-1 and leaves `size == n` |
| EntryFilter.NoFromClause | src/python/beancount/query/query_execute.py:29-30 | without a FROM clause the entries are returned unchanged |
| EntryFilter.FilterOnly | src/python/beancount/query/query_execute.py:33-35 | with only a FROM predicate, the result keeps the entries in their original order, and each entry occurs exactly as often as in the input exactly when it satisfies the predicate |
| EntryFilter.Steps | src/python/beancount/query/query_execute.py:39-55 | an open step runs exactly when OPEN is present, a close step exactly when CLOSE is a date or `True` (with no date for `True`), a clear step exactly when CLEAR is present, and always in the order open, close, clear |
| EntryFilter.FilterThenSummarize | src/python/beancount/query/query_execute.py:16-57 | the filter is the FROM predicate first, then the summarisation steps run in order on its output |
| EntryFilter.RunAppend | src/python/beancount/query/query_execute.py:39-55 | running a chain of steps is running each part of the chain in turn on the previous part's output |
| PostingScan.ScanSpec | src/python/beancount/query/query_execute.py:151-154 | the postings evaluated are the postings of the transactions, in entry order, that pass WHERE, each as often as it occurs; without WHERE they are all the postings |
| PostingScan.ScanSnoc | src/python/beancount/query/query_execute.py:151-154 | one more entry adds its passing postings at the end when it is a transaction, and nothing otherwise |
| PostingScan.ScanAppend | src/python/beancount/query/query_execute.py:151-154 | scanning two lists of entries one after the other is scanning their concatenation |
| Projection.ResultIndexes | src/python/beancount/query/query_execute.py:134-136 | the column positions are exactly the positions of the targets with a non-empty name, in increasing order |
| Projection.ResultTypesMatchRows | src/python/beancount/query/query_execute.py:118-120 | when no name is the empty string, `result_types` has one entry per row column and entry j is the name and data type of the target filling column j |
| Projection.MakeRowColumns | src/python/beancount/query/query_execute.py:159-163 | column j of a row is the value of the j-th named target; the sort key exists exactly when ORDER BY does and holds the ORDER BY values in order |
| DetailPath.DetailRowsAt | src/python/beancount/query/query_execute.py:155-164 | one row per posting, and row k is made from the values of posting k |
| DetailPath.ScanRows | src/python/beancount/query/query_execute.py:151-164 | the nested loop produces exactly one row per passing posting of a transaction, in scan order |
| GroupPath.Classify | src/python/beancount/query/query_execute.py:171-181 | the group-key expressions are the targets at group positions, in target order, and the aggregate list is the concatenation of the other targets' aggregate nodes |
| GroupPath.KeyTargetsAt | src/python/beancount/query/query_execute.py:214-218 | the group position i takes element Rank(i) of the key tuple, and that element comes from target i |
| GroupPath.RankStep | src/python/beancount/query/query_execute.py:217-218 | the key iterator advances exactly at group positions |
| GroupPath.RankMonotone | src/python/beancount/query/query_execute.py:214-218 | a group position consumes a key element that no later position consumes |
| GroupPath.RankLeq | src/python/beancount/query/query_execute.py:214-218 | the key iterator never moves backwards |
| GroupPath.InitializedAt | src/python/beancount/query/query_execute.py:204-205 | after initialisation each aggregate's slot holds its initial value and every other slot is unchanged |
| GroupPath.UpdatedAt | src/python/beancount/query/query_execute.py:209-210 | after an update each aggregate's slot holds its update by the posting and every other slot is unchanged |
| GroupPath.InitializeStore | src/python/beancount/query/query_execute.py:204-205 | the initialisation loop computes the initialised store |
| GroupPath.UpdateStore | src/python/beancount/query/query_execute.py:209-210 | the update loop computes the updated store |
| GroupPath.AbsorbSpec | src/python/beancount/query/query_execute.py:199-210 | one posting adds its key to the dictionary only the first time the key is seen; the store is then updated, and every other key's store is unchanged |
| GroupPath.AbsorbPosting | src/python/beancount/query/query_execute.py:195-210 | the try/except lookup and the create, initialise, insert and update sequence compute one step of the scan |
| GroupPath.ScanPostings | src/python/beancount/query/query_execute.py:153-210 | the inner loop over a transaction's postings absorbs its passing postings in order |
| GroupPath.ScanGroups | src/python/beancount/query/query_execute.py:189-210 | the scan loop computes the groups of the passing postings |
| GroupPath.GroupScanKeys | src/python/beancount/query/query_execute.py:189-210 | the dictionary's keys are the distinct key tuples of the passing postings in order of first sight, and exactly those keys have a store |
| GroupPath.GroupScanStores | src/python/beancount/query/query_execute.py:189-210 | every store belongs to a non-empty group, and it holds each aggregate folded over exactly that group's postings, in scan order |
| GroupPath.GroupsPartition | src/python/beancount/query/query_execute.py:189-210 | the group sizes add up to the number of passing postings: every posting lands in exactly one group |
| GroupPath.GroupCount | src/python/beancount/query/query_execute.py:189-210 | there are never more groups than passing postings |
| GroupPath.GroupScanComplete | src/python/beancount/query/query_execute.py:213-221 | every key has a store and one value per group-key target, so finalisation can read both |
| GroupPath.GroupOfEmpty | src/python/beancount/query/query_execute.py:199-206 | a key has postings exactly when some passing posting produced it |
| GroupPath.GroupOfMembers | src/python/beancount/query/query_execute.py:195-200 | every posting of the group with key k has key k and is one of the scanned postings |
| GroupPath.StoreAfterAbsorb | src/python/beancount/query/query_execute.py:199-210 | one scan step keeps every store equal to the fold of its group |
| GroupPath.CreatedStore | src/python/beancount/query/query_execute.py:203-205 | a store created and initialised on a key's first sight is the store of a group that has seen no posting yet |
| GroupPath.UpdatedStore | src/python/beancount/query/query_execute.py:209-210 | updating a group's store by a posting gives the store of the group extended by that posting |
| GroupPath.GroupKeyColumns | src/python/beancount/query/query_execute.py:213-221 | for a key computed from posting p, group positions hold the targets evaluated on p and the other positions hold `finalize(store)` |
| GroupPath.FinalizeGroups | src/python/beancount/query/query_execute.py:213-229 | one row per key, in dictionary order, with each row assembled from its key and its store |
| Ordering.LexTotal | src/python/beancount/query/query_execute.py:233 | tuple comparison orders any two sort keys |
| Ordering.LexTransitive | src/python/beancount/query/query_execute.py:233 | tuple comparison is transitive |
| Ordering.LexAntisymmetric | src/python/beancount/query/query_execute.py:233 | two sort keys that compare both ways are equal |
| Ordering.LexReflexive | src/python/beancount/query/query_execute.py:233 | a sort key compares below or equal to itself |
| Ordering.BeforeTotal | src/python/beancount/query/query_execute.py:233-234 | under `reverse` or not, any two rows can be put in order |
| Ordering.BeforeTransitive | src/python/beancount/query/query_execute.py:233-234 | the row order, reversed or not, is transitive |
| Ordering.SwapRearranges | src/python/beancount/query/query_execute.py:233 | exchanging two rows together with their recorded origins keeps the rows a rearrangement of the input |
| Ordering.SwapOrder | src/python/beancount/query/query_execute.py:233 | moving a row left past a row it must precede keeps the rows around it in order |
| Ordering.SwapShape | src/python/beancount/query/query_execute.py:233 | that move keeps rows with equal keys in their original relative order |
| Ordering.FinishInsert | src/python/beancount/query/query_execute.py:233 | once the moving row may follow its left neighbour, one more row is sorted and stable |
| Ordering.InsertRow | src/python/beancount/query/query_execute.py:233 | one insertion step extends the sorted, stable prefix by one row |
| Ordering.SortRows | src/python/beancount/query/query_execute.py:232-234 | the in-place sort leaves the rows non-decreasing by key, or non-increasing for DESC; the result is a permutation of the input, and rows with equal keys keep their original order |
| PostProcess.FinishPrefix | src/python/beancount/query/query_execute.py:237-245 | the result rows are a prefix of the rows after DISTINCT, in sorted order, never more than the rows produced, and each is the row of a produced pair |
| PostProcess.FinishAll | src/python/beancount/query/query_execute.py:237-245 | without DISTINCT and LIMIT the row count is the number of produced rows, in the same order |
| PostProcess.FinishLimit | src/python/beancount/query/query_execute.py:244-245 | LIMIT n with n >= 0 keeps the first min(n, count) rows; a negative n drops that many rows from the end, as a Python slice does |
| PostProcess.FinishDistinct | src/python/beancount/query/query_execute.py:240-241 | under DISTINCT no row repeats, rows keep the order of their first occurrence, and without LIMIT every produced row is kept |
| PostProcess.DistinctNoop | src/python/beancount/query/query_execute.py:240-241 | DISTINCT leaves rows that are already pairwise different unchanged |
| Execute.Handles | src/python/beancount/query/query_execute.py:184-186 | the handles of n allocations are n distinct slots of an n-slot store |
| Execute.DetailQueryRows | src/python/beancount/query/query_execute.py:142-164 | a non-aggregated query gives one row per passing posting; column j is the j-th named target evaluated on that posting, and the sort key is the ORDER BY targets evaluated on it |
| Execute.GroupedQueryCount | src/python/beancount/query/query_execute.py:165-229 | an aggregated query gives one row per distinct key of the passing postings, in order of first sight, never more rows than postings, with every posting's key present and every posting in exactly one group |
| Execute.GroupedQueryRow | src/python/beancount/query/query_execute.py:189-229 | row j comes from a non-empty group whose store is every aggregate folded over exactly its postings; its group columns equal the targets on the group's first posting and its other columns equal the targets finalised on that store |
| Execute.GroupedScanComplete | src/python/beancount/query/query_execute.py:213-221 | the groups of a query can always be finalised |
| Execute.EmitRows | src/python/beancount/query/query_execute.py:139-229 | the dispatch produces the rows of the non-aggregated path when there is no GROUP BY, and of the aggregated path otherwise |
| Execute.OrderRows | src/python/beancount/query/query_execute.py:231-234 | with ORDER BY the rows are a stable sort of the produced rows; without it they are unchanged |
| Execute.ExecuteQuery | src/python/beancount/query/query_execute.py:100-247 | the schema is `result_types`; the rows are the produced rows of the filtered entries, in the same multiset, stably sorted when ORDER BY is set and unchanged otherwise, then DISTINCT and LIMIT are applied |
| Aggregates.CountFold | src/python/beancount/query/query_execute.py:204-210 | a COUNT aggregate's slot holds the number of postings its group has seen |
| Aggregates.SumFold | src/python/beancount/query/query_execute.py:204-210 | a SUM aggregate's slot holds the sum of its expression over its group's postings |
| Aggregates.GroupedCount | src/python/beancount/query/query_execute.py:189-210 | in a query result, a COUNT aggregate's slot in the j-th group's store is the number of matching postings with that group's key |
| Aggregates.GroupedSum | src/python/beancount/query/query_execute.py:189-210 | in a query result, a SUM aggregate's slot in the j-th group's store is the sum of its expression over the matching postings with that group's key |

## Left out

- `execute_print` (lines 60-72) prints entries to a file, which is I/O, and is not modelled.
- `summarize.open_opt`, `close_opt` and `clear_opt` are not part of this model. They are the three function fields of `Summarizer`, and the `index` they also return is dropped because `filter_entries` never uses it.
- `options.get_account_types` (line 37) is not part of this model. Its result is never used by `filter_entries`, so the call is left out.
- The type-checking `assert` statements of `filter_entries` (lines 26-27, 41) are covered by Dafny's types: the FROM clause, the entry list and an OPEN date cannot have any other type.
- `query_compile.get_columns_and_aggregates` and the compiled expression classes are not part of this model. Each target carries its evaluation function, its list of aggregate nodes and its `finalize` function as given fields.
- Every aggregate node allocates exactly one slot. Nodes that allocate several slots, or none, are not modelled.
- `misc_utils.uniquify` is not part of this model. DISTINCT is modelled as keeping the first occurrence of every row, compared by value, in order. That is the default behaviour of `misc_utils.uniquify`, which lies outside this module.
- The `ResultRow` namedtuple class (lines 123-126) is Python reflection. Rows are sequences of values, and the `ValueError` a namedtuple raises for an invalid field name (such as the empty string) is not modelled.
- Projection.ResultTypesMatchRows: stated only when no target name is the empty string. `result_types` tests `name is not None` (line 120) but `result_indexes` tests truthiness (line 136), so an empty name would get a schema entry without a column. The namedtuple constructor rejects such a name before any row is made.
- Python's heterogeneous comparisons are not modelled: sort-key values are compared by a given total order, and the `TypeError` for incomparable values is not modelled. Sort keys compare as tuples (lexicographically).
- The sort algorithm: Python's `list.sort` is replaced by an in-place insertion sort. Both are stable sorts by key, which is what the contract of `Ordering.SortRows` states.
- Execute.ExecuteQuery: requires every ORDER BY position to name a target, which the query compiler guarantees; the source would raise `IndexError` otherwise, and that error path is not modelled.
- Stores are values in the model: the source mutates a store list that is shared with the dictionary. The model writes the updated store back into the map, so aliasing is not modelled.
- Errors raised while evaluating are not modelled. Target expressions, the WHERE and FROM predicates, aggregate update and finalize functions, and the `summarize` operations are total functions here. In the source, an exception in any of them propagates and aborts `execute_query`.
- `query.group_indexes` is taken as a set of positions; building it with `set(...)` (lines 129-131) is not modelled.
- `src/python/beancount/reports/export_reports_test.py` concerns the report exporters, which lie outside this engine, and is not modelled.
