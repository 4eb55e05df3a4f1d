# OpenSearch engine for Laravel Scout, modelled in Dafny

This project models the core of `OpenSearchEngine`, the Laravel Scout engine
that stores searchable models in an Alibaba Cloud OpenSearch application. It
covers three parts of the engine:

- **Write batching.** `update` turns a batch of models into documents and
  queues one `add` call per document, then commits once. `delete` queues one
  `remove(['id' => key])` call per model, then commits once. Both commit to the
  application and table named by the first model's `searchableAs()`, split at
  the first `.` (`getAppName`, `getTableName`).
- **Search-parameter translation.** `search` and `paginate` build an options
  array and drop its falsy entries with `array_filter`. `performSearch` then
  quotes a string query and makes the sort calls and filter calls on the
  client's parameter builder.
- **Result reconciliation.** `mapIds` reads the ids of a response. `map` and
  `lazyMap` fetch the models with those ids, keep only the ones whose key is
  one of the ids, and order them by the position of their key in the response.
  `getTotalCount` reads the reported total.

The PHP values the engine handles are modelled in `PhpValues`. The ordered
associative arrays it handles (`array_merge`, `array_filter`, key assignment)
are modelled in `PhpArrays`. `Str::before` and `Str::after` are in
`PhpStrings`.

The client library is not modelled; the model records the calls made on it:
- A search produces `SearchParams`: the options array the parameter builder is
  constructed with, plus the `addSort` and `setFilter` calls, in order.
- A write produces the sequence of `add`, `remove` and `commit` calls.
  `WriteBatch.Replay` gives that sequence the meaning of a buffered document
  store, where queued writes take effect at the next commit.
- The model store (`getScoutModelsByIds`, and the cursor of
  `queryScoutModelsByIds`) is a function parameter. `Mapped.lookup` records
  whether the store was asked, and for which ids.

## Model

| member | source | states |
|---|---|---|
| IndexNames.AppName | src/Engines/OpenSearchEngine.php:81-84 | the application name never contains `.`; when `searchableAs` has a `.`, app name + `.` + table name gives back `searchableAs`; without a `.`, the whole string is the app name |
| IndexNames.TableName | src/Engines/OpenSearchEngine.php:86-89 | without a `.`, the table name is the whole `searchableAs`; with one, it is strictly shorter |
| PhpStrings.After | src/Engines/OpenSearchEngine.php:88 | `Str::after` is the whole string when there is no `.`, and otherwise a strictly shorter suffix of it |
| IndexNames.SplitJoinRoundTrip | src/Engines/OpenSearchEngine.php:81-89 | for an app name without `.`, joining it to any table name with `.` and splitting again returns both parts |
| PhpStrings.Before | src/Engines/OpenSearchEngine.php:83 | `Str::before` is the part before the first `.`, which does not contain the `.`; with a `.` present, the string is that part, the `.` and the rest |
| PhpStrings.SplitIsUnique | src/Engines/OpenSearchEngine.php:83-88 | splitting `head . tail`, where head has no `.`, gives back exactly head and tail |
| WriteBatch.WithSoftDeleteMetadata | src/Engines/OpenSearchEngine.php:54-55 | `pushSoftDeleteMetadata` sets `__soft_deleted` to 1 for a trashed model and 0 otherwise, and leaves every other metadata key and field as it was |
| WriteBatch.PrepareBatch | src/Engines/OpenSearchEngine.php:53-56 | every model gets the soft-delete flag exactly when soft deletes are configured and the first model's class uses them; otherwise the batch is unchanged |
| WriteBatch.Document | src/Engines/OpenSearchEngine.php:58-66 | a model with empty searchable data gives no document; otherwise the document starts with `id`, has distinct keys, and each field comes from the metadata, else the searchable data, else the scout key |
| WriteBatch.Documents | src/Engines/OpenSearchEngine.php:58-69 | there is one document per model with non-empty searchable data |
| WriteBatch.NoneNonEmpty | src/Engines/OpenSearchEngine.php:58-71 | the number of models with non-empty searchable data is zero exactly when every model's searchable data is empty; with Documents, that is when a batch gives no documents |
| WriteBatch.DocumentsStartWithId | src/Engines/OpenSearchEngine.php:64-66 | every document of a batch starts with `id` and has distinct keys |
| WriteBatch.DocumentsInBatchOrder | src/Engines/OpenSearchEngine.php:58-69 | the model at position i, when its searchable data is non-empty, has its own `Document` at position "number of non-empty models before i": the documents are those of the non-empty models, in batch order |
| WriteBatch.NoDocumentsExactlyWhenEmpty | src/Engines/OpenSearchEngine.php:54-71 | after the soft-delete step, a batch still gives one document per model with non-empty searchable data, so none exactly when all of it is empty |
| WriteBatch.AddsThenCommit | src/Engines/OpenSearchEngine.php:71-78 | adding documents that start with `id` and then committing makes only `add` calls before the one commit |
| WriteBatch.AddAll | src/Engines/OpenSearchEngine.php:72-74 | one `add` per document, in document order |
| WriteBatch.RemoveAll | src/Engines/OpenSearchEngine.php:97-103 | one `remove(['id' => key])` per model, in batch order |
| WriteBatch.CommitFor | src/Engines/OpenSearchEngine.php:76-77 | the commit's app name has no `.`; with a `.` in `searchableAs`, app + `.` + table gives it back (so, by SplitIsUnique, the split is at the first `.`); without one, both app and table are the whole `searchableAs` |
| WriteBatch.Update | src/Engines/OpenSearchEngine.php:46-79 | an empty batch, or one whose searchable data is all empty, makes no calls; otherwise the calls are one `add` per model with non-empty searchable data, adding the batch's documents in order, each starting with `id`, then the single commit to the first model's app and table |
| WriteBatch.UpdateAddsInBatchOrder | src/Engines/OpenSearchEngine.php:53-74 | the `add` for the model at position i with non-empty searchable data carries that model's document, soft-delete flag included, after the adds of the models before it |
| WriteBatch.Delete | src/Engines/OpenSearchEngine.php:91-109 | an empty batch makes no calls; otherwise there is one `remove(['id' => key])` per model, in order, then the single commit to the first model's app and table |
| WriteBatch.SoftDeleteFlagInDocuments | src/Engines/OpenSearchEngine.php:54-66 | with soft deletes on, every document carries its model's `__soft_deleted` flag, even over a searchable field of the same name |
| WriteBatch.UncommittedWritesAreLost | src/Engines/OpenSearchEngine.php:71-78 | writes not followed by a commit leave the index unchanged |
| WriteBatch.WritesThenCommit | src/Engines/OpenSearchEngine.php:72-77 | writes followed by one commit apply every write, in order |
| WriteBatch.DeleteRemovesTheBatch | src/Engines/OpenSearchEngine.php:91-109 | replaying `delete` removes exactly the batch's scout keys from the index and keeps every other document |
| WriteBatch.UpdateStoresTheBatch | src/Engines/OpenSearchEngine.php:46-79 | replaying `update` adds exactly the ids of the batch's documents to the index and keeps every other document |
| WriteBatch.UpdateStoresLastDocument | src/Engines/OpenSearchEngine.php:71-77 | after replaying `update`, each id of the batch holds the last document of the batch with that id |
| PhpArrays.Merge | src/Engines/OpenSearchEngine.php:64-66 | `array_merge` with string keys: a key of the later array wins, otherwise the earlier value stays; keys keep their first position; distinct keys stay distinct |
| PhpArrays.MergeAppendsFresh | src/Engines/OpenSearchEngine.php:64-66 | after the earlier array's keys, `array_merge` appends exactly the entries of the later array whose key is new, in the later array's order; with Merge's contract this fixes the merged array |
| PhpArrays.Fresh | src/Engines/OpenSearchEngine.php:64-66 | the entries of the later array whose key is not in the earlier one |
| PhpArrays.Set | src/Engines/OpenSearchEngine.php:147 | assigning a key replaces its value in place, or appends it when it is new; no other key changes |
| PhpArrays.ArrayFilter | src/Engines/OpenSearchEngine.php:113-119 | `array_filter` keeps exactly the truthy entries and never adds one; distinct keys stay distinct |
| PhpArrays.ArrayFilterAppend | src/Engines/OpenSearchEngine.php:113-119 | `array_filter` keeps order: filtering a concatenation is the concatenation of the filtered parts |
| PhpArrays.ArrayFilterSnoc | src/Engines/OpenSearchEngine.php:113-119 | one more entry is kept, after the filtered ones, exactly when its value is truthy |
| PhpArrays.ArrayFilterLookup | src/Engines/OpenSearchEngine.php:113-119 | with distinct keys, after `array_filter` each key reads its old value when that value is truthy and is missing otherwise |
| PhpArrays.LookupSnoc | src/Engines/OpenSearchEngine.php:64-66 | reading an array with one more entry at the end gives that entry's value for its key and the old value for every other key |
| SearchTranslation.FilteredOptions | src/Engines/OpenSearchEngine.php:113-119 | `format` is always `fulljson`; `query`, `hits`, `appName` and `start` are present, with their values, exactly when truthy; no other option name appears |
| SearchTranslation.FilteredOptionsAreTruthy | src/Engines/OpenSearchEngine.php:113-119 | the filtered options hold each name once, and only truthy values |
| SearchTranslation.PageStart | src/Engines/OpenSearchEngine.php:133 | the first page starts at 0; pages from 1 on with a non-negative page size start at a non-negative offset |
| SearchTranslation.PagesAreAdjacent | src/Engines/OpenSearchEngine.php:133 | each page starts exactly one page size after the previous one |
| SearchTranslation.QuoteQuery | src/Engines/OpenSearchEngine.php:147 | a string query is wrapped in single quotes; any other value is passed on as is |
| PhpStrings.Quote | src/Engines/OpenSearchEngine.php:147 | the quoted string is the original with one `'` before and one after |
| SearchTranslation.OrderSorts | src/Engines/OpenSearchEngine.php:153-161 | one sort per order whose direction is exactly `asc` or `desc`; when every order is recognised, the sorts match the orders index by index; when none is, there are no sorts |
| SearchTranslation.SortCalls | src/Engines/OpenSearchEngine.php:149-161 | with no orders, the only sort is `id` decreasing; otherwise the sorts come from the orders |
| SearchTranslation.SortCallsRoundTrip | src/Engines/OpenSearchEngine.php:153-161 | reading the sorts back gives exactly the recognised orders, in order; unrecognised directions are dropped |
| SearchTranslation.DefaultSortRoundTrip | src/Engines/OpenSearchEngine.php:149-151 | the default sort reads back as the single order `id desc` |
| SearchTranslation.FilterExpression | src/Engines/OpenSearchEngine.php:164 | a filter is the key, then `=`, then the value's string form |
| SearchTranslation.FilterCalls | src/Engines/OpenSearchEngine.php:163-165 | one filter per where clause, in order, each being its key, then `=`, then the `%s` form of its value, whatever characters the key holds |
| SearchTranslation.FilterRoundTrip | src/Engines/OpenSearchEngine.php:163-165 | for a key without `=`, splitting a filter at its first `=` gives back the key and the value's string form |
| PhpValues.ToPhpString | src/Engines/OpenSearchEngine.php:164 | `%s` writes a string as itself, null and false as the empty string, true as `1`, and an integer in canonical decimal: a `-` exactly for negatives, no leading zero, no `-0`, and digits that parse back to it |
| PhpValues.DecimalRoundTrip | src/Engines/OpenSearchEngine.php:164 | reading the decimal form of a natural number gives back that number |
| PhpValues.IntRoundTrip | src/Engines/OpenSearchEngine.php:164 | parsing the decimal form of an integer, signed or not, gives back that integer |
| SearchTranslation.PerformSearch | src/Engines/OpenSearchEngine.php:146-165 | the sent `query` is the quoted query, or null when the option is missing; every other option is unchanged; the sort calls come before the filter calls |
| SearchTranslation.PerformSearchKeepsKeyOrder | src/Engines/OpenSearchEngine.php:146-147 | every option keeps its position; a missing `query` comes back at the end as null |
| SearchTranslation.SentOptions | src/Engines/OpenSearchEngine.php:113-119 | the options sent for a search have `format` set to `fulljson`, and each of `hits`, `appName` and `start` present exactly when truthy |
| SearchTranslation.SearchParameters | src/Engines/OpenSearchEngine.php:111-120 | a search sends no `start`, `fulljson` format, the limit as `hits` when truthy, a truthy string query quoted, and the sort calls then the filter calls |
| SearchTranslation.Search | src/Engines/OpenSearchEngine.php:111-120 | a search makes the sort calls, then the filter calls; its options are stated by SearchParameters and SentOptions |
| SearchTranslation.Paginate | src/Engines/OpenSearchEngine.php:126-135 | a page request makes the sort calls, then the filter calls; its options are stated by PaginateStart, PaginateHits and SentOptions |
| SearchTranslation.PaginateStart | src/Engines/OpenSearchEngine.php:126-135 | a page request sends `start` = page size × (page − 1) when that is non-zero, and no `start` otherwise |
| SearchTranslation.SentHits | src/Engines/OpenSearchEngine.php:113-119 | `hits` reaches the client exactly when truthy, and `format` always does |
| SearchTranslation.PaginateHits | src/Engines/OpenSearchEngine.php:128-132 | a page request sends the page size as `hits` when it is non-zero, with `fulljson` format |
| SearchTranslation.PaginateExample | src/Engines/OpenSearchEngine.php:133 | page 3 of 15 per page starts at 30 |
| SearchTranslation.SearchForZeroDropsQuery | src/Engines/OpenSearchEngine.php:113-119 | a search for the string `0` sends a null query: `array_filter` drops it as falsy |
| SearchTranslation.IntendedOptions | src/Engines/OpenSearchEngine.php:113-119 | like the filtered options, but a non-empty string query is always kept; they differ only for the query `0` |
| SearchTranslation.SearchKeepingQuery | src/Engines/OpenSearchEngine.php:111-120 | every non-empty string query is sent quoted; for every query other than `0` the result is that of `search` |
| SearchTranslation.PaginateKeepingQuery | src/Engines/OpenSearchEngine.php:126-135 | every non-empty string query is sent quoted; for every query other than `0` the result is that of `paginate` |
| ResultMapping.ObjectIds | src/Engines/OpenSearchEngine.php:184 | one id per hit, in response order |
| ResultMapping.MapIds | src/Engines/OpenSearchEngine.php:178-185 | a null response, or one without items, has no ids; otherwise the ids are the hits' `fields.id`, in order |
| ResultMapping.Flip | src/Engines/OpenSearchEngine.php:207 | `array_flip` maps exactly the ids to a position holding that id; a repeated id maps to its last position |
| ResultMapping.Keep | src/Engines/OpenSearchEngine.php:210 | keeps exactly the fetched records whose key is one of the ids |
| ResultMapping.KeepAppend | src/Engines/OpenSearchEngine.php:210 | keeping works record by record and in fetch order: keeping from a concatenation is the concatenation of what is kept from each part |
| ResultMapping.KeepSnoc | src/Engines/OpenSearchEngine.php:210 | one more fetched record is appended to the kept records exactly when its key is one of the ids |
| ResultMapping.SortBy | src/Engines/OpenSearchEngine.php:211 | the output is ordered by position, has the same length and members, and keeps the records of each key in their original relative order (a stable sort) |
| ResultMapping.InsertSorted | src/Engines/OpenSearchEngine.php:211 | inserting into a sorted sequence keeps it sorted |
| ResultMapping.Reconcile | src/Engines/OpenSearchEngine.php:207-211 | the output is ordered by response position; for each key it holds exactly the fetched records with that key, in fetch order, when the key is an id, and none otherwise |
| ResultMapping.ReconciliationIsUnique | src/Engines/OpenSearchEngine.php:207-211 | any two outputs that meet that description are equal, so it fixes the result completely |
| ResultMapping.ReconcileBoundedByDistinctIds | src/Engines/OpenSearchEngine.php:205-211 | when the store returns at most one record per key, the output has at most as many models as there are distinct ids |
| ResultMapping.FetchOrderIrrelevant | src/Engines/OpenSearchEngine.php:209-211 | when the store returns at most one record per key, the order in which it returns them does not change the output |
| ResultMapping.Map | src/Engines/OpenSearchEngine.php:191-212 | a null response, a missing `items` or an empty `items` gives an empty collection without asking the store; otherwise the store is asked for the response's ids and the output is their reconciliation |
| ResultMapping.ReadCursor | src/Engines/OpenSearchEngine.php:237-240 | inserting each kept record into an ordered buffer as the cursor yields it gives the same result as filtering the whole stream and then sorting it stably |
| ResultMapping.AbsorbedIsSorted | src/Engines/OpenSearchEngine.php:237-240 | after any prefix of the stream, the records placed so far are that prefix filtered and stably sorted |
| ResultMapping.LazyMap | src/Engines/OpenSearchEngine.php:220-241 | reading the store through a cursor one record at a time gives the same result as `map` over the whole fetch |
| ResultMapping.GetTotalCount | src/Engines/OpenSearchEngine.php:246-249 | the reported total, or 0 when the response or its total is null |

## Left out

- The client itself is not modelled. This covers client construction, `execute`, `build`, and what OpenSearch does with the parameters and documents. Only the calls made on the client are recorded.
- `WriteBatch.Replay` stands in for a document store that applies queued writes at commit. It keys every document by id in a single index, so the app and table named by the commit are not modelled.
- Decoding the JSON response is left out. The model starts from the decoded `result` array.
- The `callback` path of `performSearch`, where the user's closure runs the search, is a foreign call and is left out.
- `usesSoftDelete` inspects the model class's traits at run time. It is a boolean field of `SearchableModel`.
- `flush`, `createIndex` and `deleteIndex` are left out. They are not part of the write, search or reconciliation paths.
- `in_array` in `map` uses PHP's loose comparison. Keys are compared with Dafny equality, which matches loose comparison only when ids and scout keys have the same type.
- Values are null, booleans, integers and strings. Floats and nested arrays in options, where clauses and documents are not modelled.
- Numeric-string array keys, which PHP turns into integer keys, are not modelled.
- PHP integers are unbounded here. The overflow of `$perPage * ($page - 1)` to a float is not modelled.
- Reading `$options['query']` when `array_filter` removed it gives null plus a PHP warning. The model gives null. Laravel's error handler may turn the warning into an exception; that is not modelled.
- Hits without `fields.id` are not modelled; every hit carries an id.
- `whereIns` of the builder are ignored by the engine, so the model ignores them too. Only `wheres` become filters.
- `getTotalCount` returns the response's `total` even when `items` is empty. The model follows the code, not a reading under which an empty result counts 0.
- `setFilter` is called once per where clause. Whether the client combines or replaces successive filters is a property of the client and is left out.

## Findings

| source | as written | input that shows it | evidently intended | confidence | as-written member | corrected member |
|---|---|---|---|---|---|---|
| src/Engines/OpenSearchEngine.php:113-119 | `array_filter` on the options drops every falsy entry, and the string `"0"` is falsy in PHP; `performSearch` (line 146) then reads the missing `query` as null | a search whose query is `"0"` | a non-empty string query, `"0"` included, is sent quoted as `'0'` | medium, not executed | SearchTranslation.SearchForZeroDropsQuery | SearchTranslation.SearchKeepingQuery |
