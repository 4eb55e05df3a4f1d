/** Writing to the index (`update` and `delete`).

    Both operations talk to the client's document API: `add` and `remove`
    queue a document, and `commit(app, table)` sends the queue to a table.
    The model returns the calls made, in order; `Replay` gives them the
    meaning a buffered document store would: queued writes take effect at the
    next commit, and writes left uncommitted take no effect. */
module WriteBatch {
  import opened Optional
  import opened PhpValues
  import opened PhpArrays
  import opened IndexNames
  import opened Sequences

  /** A searchable model as `update` and `delete` see it: its scout key,
      `toSearchableArray()`, `scoutMetadata()`, `searchableAs()`, whether its
      class uses soft deletes, and whether it is trashed. */
  datatype SearchableModel = SearchableModel(
    scoutKey: Value,
    searchable: Assoc,
    metadata: Assoc,
    searchableAs: string,
    usesSoftDeletes: bool,
    trashed: bool)

  /** A call on the client's document API. */
  datatype DocCall = Add(fields: Assoc) | Remove(fields: Assoc) | Commit(appName: string, tableName: string)

  /** The metadata key Scout's `pushSoftDeleteMetadata` writes. */
  const SoftDeletedKey := "__soft_deleted"

  /** `pushSoftDeleteMetadata`: records 1 for a trashed model, 0 otherwise. */
  function WithSoftDeleteMetadata(m: SearchableModel): (r: SearchableModel)
    ensures Lookup(r.metadata, SoftDeletedKey) == Some(Int(if m.trashed then 1 else 0))
    ensures forall k :: k != SoftDeletedKey ==> Lookup(r.metadata, k) == Lookup(m.metadata, k)
    ensures r.(metadata := m.metadata) == m
  {
    m.(metadata := Set(m.metadata, SoftDeletedKey, Int(if m.trashed then 1 else 0)))
  }

  /** The soft-delete step of `update`: when the engine is configured for soft
      deletes and the first model's class uses them, every model gets the
      soft-delete metadata; otherwise the batch is unchanged. */
  function PrepareBatch(softDelete: bool, models: seq<SearchableModel>): (r: seq<SearchableModel>)
    ensures |r| == |models|
    ensures forall i :: 0 <= i < |models| ==> r[i].(metadata := models[i].metadata) == models[i]
    ensures !(softDelete && models != [] && models[0].usesSoftDeletes) ==> r == models
    ensures softDelete && models != [] && models[0].usesSoftDeletes ==>
              forall i :: 0 <= i < |models| ==> r[i] == WithSoftDeleteMetadata(models[i])
  {
    if softDelete && models != [] && models[0].usesSoftDeletes then
      seq(|models|, i requires 0 <= i < |models| => WithSoftDeleteMetadata(models[i]))
    else models
  }

  /** The document `update` builds for one model: None when the searchable
      data is empty, otherwise `array_merge(['id' => key], data, metadata)`. */
  function Document(m: SearchableModel): (doc: Option<Assoc>)
    ensures doc.None? <==> m.searchable == []
    ensures doc.Some? ==> |doc.value| > 0 && doc.value[0].0 == "id" && DistinctKeys(doc.value)
    ensures doc.Some? ==>
              (forall k :: Lookup(doc.value, k) ==
                 if HasKey(m.metadata, k) then Lookup(m.metadata, k)
                 else if HasKey(m.searchable, k) then Lookup(m.searchable, k)
                 else if k == "id" then Some(m.scoutKey)
                 else None)
  {
    if m.searchable == [] then None
    else
      var base: Assoc := [("id", m.scoutKey)];
      assert forall k :: Lookup(base, k) == if k == "id" then Some(m.scoutKey) else None;
      Some(Merge(Merge(base, m.searchable), m.metadata))
  }

  /** The number of models of a batch that have searchable data. */
  function NonEmptyCount(ms: seq<SearchableModel>): (n: nat)
    ensures n <= |ms|
    decreases |ms|
  {
    if ms == [] then 0 else (if ms[0].searchable != [] then 1 else 0) + NonEmptyCount(ms[1..])
  }

  /** No model has searchable data exactly when the count is zero. */
  lemma {:induction false} NoneNonEmpty(ms: seq<SearchableModel>)
    ensures NonEmptyCount(ms) == 0 <==> forall i :: 0 <= i < |ms| ==> ms[i].searchable == []
    decreases |ms|
  {
    if ms != [] {
      NoneNonEmpty(ms[1..]);
      assert forall i :: 1 <= i < |ms| ==> ms[1..][i - 1] == ms[i];
    }
  }

  /** The documents of a batch, in batch order, skipping the models whose
      searchable data is empty. */
  function Documents(models: seq<SearchableModel>): (docs: seq<Assoc>)
    ensures |docs| == NonEmptyCount(models)
    decreases |models|
  {
    if models == [] then []
    else
      var rest := Documents(models[1..]);
      assert forall i :: 1 <= i < |models| ==> models[1..][i - 1] == models[i];
      match Document(models[0])
      case None => rest
      case Some(d) => [d] + rest
  }

  /** Every document of a batch starts with `id` and has distinct keys. */
  lemma {:induction false} DocumentsStartWithId(models: seq<SearchableModel>)
    ensures forall d: Assoc :: d in Documents(models) ==> |d| > 0 && d[0].0 == "id" && DistinctKeys(d)
    decreases |models|
  {
    if models != [] {
      DocumentsStartWithId(models[1..]);
      DocumentsCons(models);
    }
  }

  /** Each model with searchable data has its document in the batch's
      documents, after the documents of the models before it: the documents
      are exactly those of the non-empty models, in batch order. */
  lemma {:induction false} DocumentsInBatchOrder(models: seq<SearchableModel>, i: int)
    requires 0 <= i < |models| && models[i].searchable != []
    ensures NonEmptyCount(models[..i]) < |Documents(models)|
    ensures Documents(models)[NonEmptyCount(models[..i])] == Document(models[i]).value
    decreases i
  {
    if i == 0 {
      DocumentsFirst(models);
    } else {
      var rest := models[1..];
      assert rest[i - 1] == models[i];
      DocumentsInBatchOrder(rest, i - 1);
      NonEmptyCountCons(models, i);
      DocumentsShift(models, NonEmptyCount(rest[..i - 1]));
    }
  }

  lemma DocumentsFirst(models: seq<SearchableModel>)
    requires models != [] && models[0].searchable != []
    ensures NonEmptyCount(models[..0]) == 0
    ensures 0 < |Documents(models)| && Documents(models)[0] == Document(models[0]).value
  {
    assert models[..0] == [];
    DocumentsCons(models);
  }

  lemma DocumentsShift(models: seq<SearchableModel>, n: int)
    requires models != [] && 0 <= n < |Documents(models[1..])|
    ensures var c := if models[0].searchable != [] then 1 else 0;
      c + n < |Documents(models)| && Documents(models)[c + n] == Documents(models[1..])[n]
  {
    var first := if models[0].searchable != [] then [Document(models[0]).value] else [];
    DocumentsCons(models);
    ConcatIndex(first, Documents(models[1..]), n);
  }

  lemma DocumentsCons(models: seq<SearchableModel>)
    requires models != []
    ensures Documents(models) ==
              (if models[0].searchable != [] then [Document(models[0]).value] else []) + Documents(models[1..])
  {
  }

  lemma NonEmptyCountCons(ms: seq<SearchableModel>, i: int)
    requires 1 <= i <= |ms|
    ensures NonEmptyCount(ms[..i]) == (if ms[0].searchable != [] then 1 else 0) + NonEmptyCount(ms[1..][..i - 1])
  {
    assert ms[..i][1..] == ms[1..][..i - 1];
  }

  function AddAll(docs: seq<Assoc>): (calls: seq<DocCall>)
    ensures |calls| == |docs|
    ensures forall i :: 0 <= i < |docs| ==> calls[i] == Add(docs[i])
    decreases |docs|
  {
    if docs == [] then [] else [Add(docs[0])] + AddAll(docs[1..])
  }

  /** `['id' => key]`, the document `delete` removes for a model. */
  function KeyDocument(m: SearchableModel): Assoc
  {
    [("id", m.scoutKey)]
  }

  function RemoveAll(models: seq<SearchableModel>): (calls: seq<DocCall>)
    ensures |calls| == |models|
    ensures forall i :: 0 <= i < |models| ==> calls[i] == Remove(KeyDocument(models[i]))
    decreases |models|
  {
    if models == [] then [] else [Remove(KeyDocument(models[0]))] + RemoveAll(models[1..])
  }

  /** The commit call for a batch: to the application and table of the first
      model's `searchableAs`. */
  function CommitFor(m: SearchableModel): (c: DocCall)
    ensures c.Commit? && '.' !in c.appName
    ensures '.' in m.searchableAs ==> c.appName + "." + c.tableName == m.searchableAs
    ensures '.' !in m.searchableAs ==> c.appName == m.searchableAs && c.tableName == m.searchableAs
  {
    Commit(AppName(m.searchableAs), TableName(m.searchableAs))
  }

  function CommitCount(calls: seq<DocCall>): nat
  {
    if calls == [] then 0 else (if calls[0].Commit? then 1 else 0) + CommitCount(calls[1..])
  }

  lemma {:induction false} CommitCountAppend(a: seq<DocCall>, b: seq<DocCall>)
    ensures CommitCount(a + b) == CommitCount(a) + CommitCount(b)
    decreases |a|
  {
    if a == [] {
      assert a + b == b;
    } else {
      assert (a + b)[1..] == a[1..] + b;
      CommitCountAppend(a[1..], b);
    }
  }

  lemma {:induction false} NoCommitsInWrites(calls: seq<DocCall>)
    requires forall i :: 0 <= i < |calls| ==> !calls[i].Commit?
    ensures CommitCount(calls) == 0
    decreases |calls|
  {
    if calls != [] {
      NoCommitsInWrites(calls[1..]);
    }
  }

  /** `update`: one `add` per model with non-empty searchable data, in order,
      each document starting with `id`; then one commit, made only when at
      least one document was added. */
  function Update(softDelete: bool, models: seq<SearchableModel>): (calls: seq<DocCall>)
    ensures models == [] ==> calls == []
    ensures calls == [] <==> forall i :: 0 <= i < |models| ==> models[i].searchable == []
    ensures calls != [] ==> calls[|calls| - 1] == CommitFor(models[0])
    ensures calls != [] ==> |calls| - 1 == NonEmptyCount(models) <= |models|
    ensures calls != [] ==> calls[..|calls| - 1] == AddAll(Documents(PrepareBatch(softDelete, models)))
    ensures forall i :: 0 <= i < |calls| - 1 ==> calls[i].Add? && |calls[i].fields| > 0 && calls[i].fields[0].0 == "id"
    ensures CommitCount(calls) == if calls == [] then 0 else 1
  {
    if models == [] then []
    else
      var docs := Documents(PrepareBatch(softDelete, models));
      NoDocumentsExactlyWhenEmpty(softDelete, models);
      DocumentsStartWithId(PrepareBatch(softDelete, models));
      if docs == [] then []
      else
        AddsThenCommit(docs, CommitFor(models[0]));
        var adds := AddAll(docs);
        assert (adds + [CommitFor(models[0])])[..|adds|] == adds;
        adds + [CommitFor(models[0])]
  }

  /** The soft-delete step does not change which models give documents. */
  lemma NoDocumentsExactlyWhenEmpty(softDelete: bool, models: seq<SearchableModel>)
    ensures |Documents(PrepareBatch(softDelete, models))| == NonEmptyCount(models)
    ensures Documents(PrepareBatch(softDelete, models)) == [] <==> forall i :: 0 <= i < |models| ==> models[i].searchable == []
  {
    var prepared := PrepareBatch(softDelete, models);
    assert forall i :: 0 <= i < |models| ==> prepared[i].searchable == models[i].searchable;
    SameDataSameCount(prepared, models);
    NoneNonEmpty(models);
  }

  /** Two batches whose models have the same searchable data give documents
      for the same number of models. */
  lemma {:induction false} SameDataSameCount(a: seq<SearchableModel>, b: seq<SearchableModel>)
    requires |a| == |b|
    requires forall i :: 0 <= i < |a| ==> a[i].searchable == b[i].searchable
    ensures NonEmptyCount(a) == NonEmptyCount(b)
    decreases |a|
  {
    if a != [] {
      SameDataSameCount(a[1..], b[1..]);
    }
  }

  /** The `add` for the model at position i, when it has searchable data, is
      the document of that model (soft-delete flag included), placed after
      the adds of the models before it. */
  lemma UpdateAddsInBatchOrder(softDelete: bool, models: seq<SearchableModel>, i: int)
    requires 0 <= i < |models| && models[i].searchable != []
    ensures var calls := Update(softDelete, models);
      && NonEmptyCount(models[..i]) < |calls| - 1
      && calls[NonEmptyCount(models[..i])] == Add(Document(PrepareBatch(softDelete, models)[i]).value)
  {
    var prepared := PrepareBatch(softDelete, models);
    DocumentsInBatchOrder(prepared, i);
    SameDataSameCount(prepared[..i], models[..i]);
    NoDocumentsExactlyWhenEmpty(softDelete, models);
    var docs := Documents(prepared);
    assert Update(softDelete, models) == AddAll(docs) + [CommitFor(models[0])];
  }

  /** One `add` per document, each starting with `id`, then a single commit. */
  lemma AddsThenCommit(docs: seq<Assoc>, commit: DocCall)
    requires commit.Commit?
    requires forall d: Assoc :: d in docs ==> |d| > 0 && d[0].0 == "id"
    ensures var calls := AddAll(docs) + [commit];
      && (forall i :: 0 <= i < |calls| - 1 ==> calls[i].Add? && |calls[i].fields| > 0 && calls[i].fields[0].0 == "id")
      && CommitCount(calls) == 1
  {
    var adds := AddAll(docs);
    assert forall i :: 0 <= i < |adds| ==> adds[i].fields in docs;
    NoCommitsInWrites(adds);
    CommitCountAppend(adds, [commit]);
  }

  /** `delete`: one `remove(['id' => key])` per model, in order, then one commit. */
  function Delete(models: seq<SearchableModel>): (calls: seq<DocCall>)
    ensures models == [] ==> calls == []
    ensures models != [] ==> |calls| == |models| + 1 && calls[|models|] == CommitFor(models[0])
    ensures forall i :: 0 <= i < |models| ==> calls[i] == Remove(KeyDocument(models[i]))
    ensures CommitCount(calls) == if models == [] then 0 else 1
  {
    if models == [] then []
    else
      var removes := RemoveAll(models);
      NoCommitsInWrites(removes);
      CommitCountAppend(removes, [CommitFor(models[0])]);
      removes + [CommitFor(models[0])]
  }

  /** With soft deletes configured and used, every document carries the
      model's soft-delete flag; the flag overrides searchable data of the same
      name because metadata is merged last. */
  lemma SoftDeleteFlagInDocuments(models: seq<SearchableModel>, i: int)
    requires 0 <= i < |models| && models[0].usesSoftDeletes
    requires models[i].searchable != []
    ensures Lookup(Document(PrepareBatch(true, models)[i]).value, SoftDeletedKey) == Some(Int(if models[i].trashed then 1 else 0))
  {
    var m := PrepareBatch(true, models)[i];
    assert m == WithSoftDeleteMetadata(models[i]);
    assert HasKey(m.metadata, SoftDeletedKey);
  }

  /** The index contents a document store holds: documents by id. */
  type Index = map<Value, Assoc>

  /** The id a document is stored under: its `id` field. */
  function DocId(fields: Assoc): Value
  {
    Lookup(fields, "id").GetOr(Null)
  }

  function ApplyWrite(index: Index, call: DocCall): Index
  {
    match call
    case Add(fields) => index[DocId(fields) := fields]
    case Remove(fields) => index - {DocId(fields)}
    case Commit(_, _) => index
  }

  function ApplyAll(index: Index, calls: seq<DocCall>): Index
    decreases |calls|
  {
    if calls == [] then index else ApplyAll(ApplyWrite(index, calls[0]), calls[1..])
  }

  /** The effect of a call log on a buffered store: writes queue in `pending`
      and are applied at the next commit; writes still queued at the end are
      lost. */
  function Replay(index: Index, pending: seq<DocCall>, calls: seq<DocCall>): Index
    decreases |calls|
  {
    if calls == [] then index
    else if calls[0].Commit? then Replay(ApplyAll(index, pending), [], calls[1..])
    else Replay(index, pending + [calls[0]], calls[1..])
  }

  /** Writes without a commit change nothing. */
  lemma {:induction false} UncommittedWritesAreLost(index: Index, pending: seq<DocCall>, calls: seq<DocCall>)
    requires forall i :: 0 <= i < |calls| ==> !calls[i].Commit?
    ensures Replay(index, pending, calls) == index
    decreases |calls|
  {
    if calls != [] {
      UncommittedWritesAreLost(index, pending + [calls[0]], calls[1..]);
    }
  }

  lemma {:induction false} ReplayQueues(index: Index, pending: seq<DocCall>, writes: seq<DocCall>, rest: seq<DocCall>)
    requires forall i :: 0 <= i < |writes| ==> !writes[i].Commit?
    ensures Replay(index, pending, writes + rest) == Replay(index, pending + writes, rest)
    decreases |writes|
  {
    if writes == [] {
      assert writes + rest == rest;
      assert pending + writes == pending;
    } else {
      assert (writes + rest)[1..] == writes[1..] + rest;
      assert pending + [writes[0]] + writes[1..] == pending + writes;
      ReplayQueues(index, pending + [writes[0]], writes[1..], rest);
    }
  }

  /** A log of writes followed by one commit applies every write, in order. */
  lemma WritesThenCommit(index: Index, writes: seq<DocCall>, commit: DocCall)
    requires forall i :: 0 <= i < |writes| ==> !writes[i].Commit?
    requires commit.Commit?
    ensures Replay(index, [], writes + [commit]) == ApplyAll(index, writes)
  {
    ReplayQueues(index, [], writes, [commit]);
    assert [] + writes == writes;
  }

  lemma {:induction false} RemovingAll(index: Index, models: seq<SearchableModel>)
    ensures ApplyAll(index, RemoveAll(models)) == index - (set m | m in models :: m.scoutKey)
    decreases |models|
  {
    if models != [] {
      var k := models[0].scoutKey;
      assert DocId(KeyDocument(models[0])) == k by {
        LookupAt(KeyDocument(models[0]), "id", 0);
      }
      assert RemoveAll(models)[1..] == RemoveAll(models[1..]);
      RemovingAll(index - {k}, models[1..]);
      assert (set m | m in models :: m.scoutKey) == {k} + (set m | m in models[1..] :: m.scoutKey);
    }
  }

  /** After `delete` is replayed, no model of the batch is in the index and
      every other document is untouched. */
  lemma DeleteRemovesTheBatch(index: Index, models: seq<SearchableModel>)
    ensures Replay(index, [], Delete(models)) == index - (set m | m in models :: m.scoutKey)
  {
    if models != [] {
      var removes := RemoveAll(models);
      assert Delete(models) == removes + [CommitFor(models[0])];
      WritesThenCommit(index, removes, CommitFor(models[0]));
      RemovingAll(index, models);
    }
  }

  /** The position of the last document with id `k`, if there is one. */
  function LastWithId(docs: seq<Assoc>, k: Value): (r: Option<nat>)
    ensures r.None? <==> forall j :: 0 <= j < |docs| ==> DocId(docs[j]) != k
    ensures r.Some? ==> r.value < |docs| && DocId(docs[r.value]) == k
    ensures r.Some? ==> forall j :: r.value < j < |docs| ==> DocId(docs[j]) != k
    decreases |docs|
  {
    if docs == [] then None
    else
      var rest := LastWithId(docs[1..], k);
      assert forall j :: 1 <= j < |docs| ==> docs[1..][j - 1] == docs[j];
      if rest.Some? then Some(rest.value + 1)
      else if DocId(docs[0]) == k then Some(0)
      else None
  }

  lemma {:induction false} AddingAll(index: Index, docs: seq<Assoc>)
    ensures ApplyAll(index, AddAll(docs)).Keys == index.Keys + (set d | d in docs :: DocId(d))
    ensures forall k :: k in index && k !in (set d | d in docs :: DocId(d)) ==> ApplyAll(index, AddAll(docs))[k] == index[k]
    decreases |docs|
  {
    if docs != [] {
      var d := docs[0];
      assert AddAll(docs)[1..] == AddAll(docs[1..]);
      AddingAll(index[DocId(d) := d], docs[1..]);
      assert (set e | e in docs :: DocId(e)) == {DocId(d)} + (set e | e in docs[1..] :: DocId(e));
    }
  }

  /** Adding documents none of which has id `k` leaves `k` as it was. */
  lemma {:induction false} AddingOthers(index: Index, docs: seq<Assoc>, k: Value)
    requires forall j :: 0 <= j < |docs| ==> DocId(docs[j]) != k
    ensures k in ApplyAll(index, AddAll(docs)) <==> k in index
    ensures k in index ==> ApplyAll(index, AddAll(docs))[k] == index[k]
    decreases |docs|
  {
    if docs != [] {
      var d := docs[0];
      assert AddAll(docs)[1..] == AddAll(docs[1..]);
      assert forall j :: 1 <= j < |docs| ==> docs[1..][j - 1] == docs[j];
      AddingOthers(index[DocId(d) := d], docs[1..], k);
    }
  }

  /** After adding documents, an id holds the last document added with it. */
  lemma {:induction false} AddingKeepsLast(index: Index, docs: seq<Assoc>, k: Value)
    requires LastWithId(docs, k).Some?
    ensures k in ApplyAll(index, AddAll(docs))
    ensures ApplyAll(index, AddAll(docs))[k] == docs[LastWithId(docs, k).value]
    decreases |docs|, 1
  {
    AddAllCons(index, docs);
    if LastWithId(docs[1..], k).Some? {
      AddingKeepsLaterLast(index, docs, k);
    } else {
      assert LastWithId(docs, k) == Some(0);
      AddingOthers(index[DocId(docs[0]) := docs[0]], docs[1..], k);
    }
  }

  /** The case of AddingKeepsLast where the last document with id `k` comes
      after the first document. */
  lemma AddingKeepsLaterLast(index: Index, docs: seq<Assoc>, k: Value)
    requires docs != [] && LastWithId(docs[1..], k).Some?
    ensures LastWithId(docs, k).Some?
    ensures ApplyAll(index[DocId(docs[0]) := docs[0]], AddAll(docs[1..])) == ApplyAll(index, AddAll(docs))
    ensures k in ApplyAll(index, AddAll(docs))
    ensures ApplyAll(index, AddAll(docs))[k] == docs[LastWithId(docs, k).value]
    decreases |docs|, 0
  {
    var rest := docs[1..];
    var j := LastWithId(rest, k).value;
    assert LastWithId(docs, k) == Some(j + 1);
    assert rest[j] == docs[j + 1];
    AddAllCons(index, docs);
    AddingKeepsLast(index[DocId(docs[0]) := docs[0]], rest, k);
  }

  lemma AddAllCons(index: Index, docs: seq<Assoc>)
    requires docs != []
    ensures ApplyAll(index, AddAll(docs)) == ApplyAll(index[DocId(docs[0]) := docs[0]], AddAll(docs[1..]))
  {
    assert AddAll(docs)[1..] == AddAll(docs[1..]);
  }

  /** After `update` is replayed, the index holds a document under the id of
      every document of the batch, and every other document is untouched. */
  lemma UpdateStoresTheBatch(index: Index, softDelete: bool, models: seq<SearchableModel>)
    ensures var ids := set d | d in Documents(PrepareBatch(softDelete, models)) :: DocId(d);
      && Replay(index, [], Update(softDelete, models)).Keys == index.Keys + ids
      && forall k :: k in index && k !in ids ==> Replay(index, [], Update(softDelete, models))[k] == index[k]
  {
    if models != [] {
      var docs := Documents(PrepareBatch(softDelete, models));
      if docs != [] {
        var adds := AddAll(docs);
        assert Update(softDelete, models) == adds + [CommitFor(models[0])];
        WritesThenCommit(index, adds, CommitFor(models[0]));
        AddingAll(index, docs);
      }
    }
  }

  /** After `update` is replayed, an id of the batch holds the last document
      of the batch with that id. */
  lemma UpdateStoresLastDocument(index: Index, softDelete: bool, models: seq<SearchableModel>, k: Value)
    requires LastWithId(Documents(PrepareBatch(softDelete, models)), k).Some?
    ensures var docs := Documents(PrepareBatch(softDelete, models));
      && k in Replay(index, [], Update(softDelete, models))
      && Replay(index, [], Update(softDelete, models))[k] == docs[LastWithId(docs, k).value]
  {
    var docs := Documents(PrepareBatch(softDelete, models));
    UpdateUnfolds(softDelete, models);
    WritesThenCommit(index, AddAll(docs), CommitFor(models[0]));
    AddingKeepsLast(index, docs, k);
  }

  /** A batch that gives documents makes their adds, then the commit. */
  lemma UpdateUnfolds(softDelete: bool, models: seq<SearchableModel>)
    requires Documents(PrepareBatch(softDelete, models)) != []
    ensures models != []
    ensures Update(softDelete, models) == AddAll(Documents(PrepareBatch(softDelete, models))) + [CommitFor(models[0])]
  {
  }
}
