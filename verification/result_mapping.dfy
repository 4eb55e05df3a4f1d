/** Reconciling a search response with the records fetched from the database
    (`mapIds`, `map`, `lazyMap`, `getTotalCount`).

    The search returns an ordered list of ids. The engine asks the store for
    the records with those ids, keeps only the fetched records whose scout key
    is among the ids, and orders them by the position `array_flip` gives their
    key: a stable sort in which a key that occurs more than once in the id list
    ranks at its LAST occurrence. */
module ResultMapping {
  import opened Optional
  import opened Sequences

  /** A database record as the store returns it: its scout key and the rest. */
  datatype Record<K, A> = Record(scoutKey: K, attributes: A)

  /** One item of the response; `id` is its `fields.id`. */
  datatype Hit<K> = Hit(id: K)

  /** The decoded `result` part of a search response. `items` is None when the
      key is missing or null; `total` likewise. */
  datatype SearchResult<K> = SearchResult(items: Option<seq<Hit<K>>>, total: Option<int>)

  /** What a mapping call did: the ids it asked the store for (None when it
      never asked) and the models it returned, in order. */
  datatype Mapped<K, A> = Mapped(lookup: Option<seq<K>>, models: seq<Record<K, A>>)

  /** `pluck('fields.id')->values()`. */
  function ObjectIds<K>(hits: seq<Hit<K>>): (ids: seq<K>)
    ensures |ids| == |hits|
    ensures forall i :: 0 <= i < |hits| ==> ids[i] == hits[i].id
  {
    seq(|hits|, i requires 0 <= i < |hits| => hits[i].id)
  }

  /** `mapIds`: the ids of the response in response order; none for a null
      response or a response without items. */
  function MapIds<K>(results: Option<SearchResult<K>>): (ids: seq<K>)
    ensures results.None? || results.value.items.None? ==> ids == []
    ensures results.Some? && results.value.items.Some? ==>
              |ids| == |results.value.items.value| &&
              forall i :: 0 <= i < |ids| ==> ids[i] == results.value.items.value[i].id
  {
    if results.None? then []
    else match results.value.items
      case None => []
      case Some(hits) => ObjectIds(hits)
  }

  /** `array_flip`: maps each id to the index of its last occurrence. */
  function Flip<K(==,!new)>(ids: seq<K>): (pos: map<K, nat>)
    ensures forall k :: k in pos <==> k in ids
    ensures forall k :: k in pos ==> pos[k] < |ids| && ids[pos[k]] == k
    ensures forall k :: k in pos ==> forall j :: pos[k] < j < |ids| ==> ids[j] != k
    decreases |ids|
  {
    if ids == [] then map[]
    else
      var front := ids[..|ids| - 1];
      assert ids == front + [ids[|ids| - 1]];
      Flip(front)[ids[|ids| - 1] := |ids| - 1]
  }

  /** The records of `s` whose key is `k`, in order. */
  function Select<K(==,!new), A(==,!new)>(s: seq<Record<K, A>>, k: K): (sel: seq<Record<K, A>>)
    ensures |sel| <= |s|
    decreases |s|
  {
    if s == [] then []
    else Select(s[..|s| - 1], k) + (if s[|s| - 1].scoutKey == k then [s[|s| - 1]] else [])
  }

  /** Select holds exactly the records of `s` with key `k`; it is empty exactly
      when no record of `s` has that key. */
  lemma {:induction false} SelectMembers<K(!new), A(!new)>(s: seq<Record<K, A>>, k: K)
    ensures forall r :: r in Select(s, k) <==> r in s && r.scoutKey == k
    ensures Select(s, k) == [] <==> forall i :: 0 <= i < |s| ==> s[i].scoutKey != k
    decreases |s|
  {
    if s != [] {
      var front := s[..|s| - 1];
      assert s == front + [s[|s| - 1]];
      SelectMembers(front, k);
    }
  }

  lemma {:induction false} SelectAppend<K(!new), A(!new)>(s: seq<Record<K, A>>, t: seq<Record<K, A>>, k: K)
    ensures Select(s + t, k) == Select(s, k) + Select(t, k)
    decreases |t|
  {
    if t != [] {
      var front, last := t[..|t| - 1], t[|t| - 1];
      var tail := if last.scoutKey == k then [last] else [];
      assert (s + t)[..|s + t| - 1] == s + front;
      assert Select(s + t, k) == Select(s + front, k) + tail;
      assert Select(t, k) == Select(front, k) + tail;
      SelectAppend(s, front, k);
    } else {
      assert s + t == s;
    }
  }

  ghost predicate DistinctRecordKeys<K, A>(s: seq<Record<K, A>>)
  {
    forall i, j :: 0 <= i < j < |s| ==> s[i].scoutKey != s[j].scoutKey
  }

  /** The filter step of `map`: the fetched records whose key is one of the
      ids, in fetch order. */
  function Keep<K(==,!new), A(==,!new)>(ids: seq<K>, recs: seq<Record<K, A>>): (kept: seq<Record<K, A>>)
    ensures forall r :: r in kept <==> r in recs && r.scoutKey in ids
    ensures |kept| <= |recs|
    ensures DistinctRecordKeys(recs) ==> DistinctRecordKeys(kept)
    decreases |recs|
  {
    if recs == [] then []
    else
      var front := recs[..|recs| - 1];
      var last := recs[|recs| - 1];
      assert recs == front + [last];
      Keep(ids, front) + (if last.scoutKey in ids then [last] else [])
  }

  /** `Keep` works record by record: keeping from two parts in a row is
      keeping from each part, in that order (and, by KeepSnoc, a single record
      is kept exactly when its key is an id). */
  lemma {:induction false} KeepAppend<K(!new), A(!new)>(ids: seq<K>, s: seq<Record<K, A>>, t: seq<Record<K, A>>)
    ensures Keep(ids, s + t) == Keep(ids, s) + Keep(ids, t)
    decreases |t|
  {
    if t == [] {
      assert s + t == s;
      assert Keep(ids, s) + [] == Keep(ids, s);
    } else {
      var front := t[..|t| - 1];
      var last := t[|t| - 1];
      assert t == front + [last];
      assert s + t == (s + front) + [last];
      KeepAppend(ids, s, front);
      KeepAppendStep(ids, s, front, last);
    }
  }

  lemma KeepAppendStep<K(!new), A(!new)>(ids: seq<K>, s: seq<Record<K, A>>, front: seq<Record<K, A>>, last: Record<K, A>)
    requires Keep(ids, s + front) == Keep(ids, s) + Keep(ids, front)
    ensures Keep(ids, (s + front) + [last]) == Keep(ids, s) + Keep(ids, front + [last])
  {
    var tail := if last.scoutKey in ids then [last] else [];
    var a, b := Keep(ids, s), Keep(ids, front);
    KeepSnoc(ids, s + front, last);
    KeepSnoc(ids, front, last);
    ConcatAssoc(a, b, tail);
  }

  /** Keeping a key's records: all of them when the key is an id, none otherwise. */
  lemma {:induction false} SelectKeep<K(!new), A(!new)>(ids: seq<K>, recs: seq<Record<K, A>>, k: K)
    ensures Select(Keep(ids, recs), k) == if k in ids then Select(recs, k) else []
    decreases |recs|
  {
    if recs != [] {
      var front := recs[..|recs| - 1];
      var last := recs[|recs| - 1];
      SelectKeep(ids, front, k);
      SelectAppend(Keep(ids, front), if last.scoutKey in ids then [last] else [], k);
    }
  }

  /** Every record of `s` has a position. */
  ghost predicate Ranked<K(!new), A(!new)>(pos: map<K, nat>, s: seq<Record<K, A>>)
  {
    forall r :: r in s ==> r.scoutKey in pos
  }

  /** `s` is ordered by the position of its keys. */
  ghost predicate Sorted<K(!new), A(!new)>(pos: map<K, nat>, s: seq<Record<K, A>>)
  {
    && Ranked(pos, s)
    && forall i, j :: 0 <= i < j < |s| ==> pos[s[i].scoutKey] <= pos[s[j].scoutKey]
  }

  /** The position of `k`. Every record that reaches the sort has one; the
      default only keeps `Insert` total. */
  function Rank<K>(pos: map<K, nat>, k: K): nat
  {
    if k in pos then pos[k] else 0
  }

  /** Places `x` after every record of `s` whose position is not greater than
      its own: one step of a stable sort. */
  function Insert<K(==,!new), A(==,!new)>(pos: map<K, nat>, x: Record<K, A>, s: seq<Record<K, A>>): (r: seq<Record<K, A>>)
    ensures |r| == |s| + 1
    ensures forall e :: e in r <==> e in s || e == x
    decreases |s|
  {
    if s == [] then [x]
    else
      var front := s[..|s| - 1];
      var last := s[|s| - 1];
      assert s == front + [last];
      if Rank(pos, last.scoutKey) <= Rank(pos, x.scoutKey) then s + [x]
      else Insert(pos, x, front) + [last]
  }

  /** Appending a record whose position is not below the last one keeps a
      sequence sorted. */
  lemma AppendSorted<K(!new), A(!new)>(pos: map<K, nat>, s: seq<Record<K, A>>, x: Record<K, A>)
    requires Sorted(pos, s) && x.scoutKey in pos
    requires s != [] ==> pos[s[|s| - 1].scoutKey] <= pos[x.scoutKey]
    ensures Sorted(pos, s + [x])
  {
    var r := s + [x];
    forall i, j | 0 <= i < j < |r|
      ensures pos[r[i].scoutKey] <= pos[r[j].scoutKey]
    {
      if j == |s| && i < |s| - 1 {
        assert pos[s[i].scoutKey] <= pos[s[|s| - 1].scoutKey];
      }
    }
  }

  lemma {:induction false} InsertSorted<K(!new), A(!new)>(pos: map<K, nat>, x: Record<K, A>, s: seq<Record<K, A>>)
    requires x.scoutKey in pos && Sorted(pos, s)
    ensures Sorted(pos, Insert(pos, x, s))
    decreases |s|
  {
    if s == [] {
      AppendSorted(pos, s, x);
      assert Insert(pos, x, s) == s + [x];
    } else {
      var front := s[..|s| - 1];
      var last := s[|s| - 1];
      assert s == front + [last];
      if pos[last.scoutKey] <= pos[x.scoutKey] {
        AppendSorted(pos, s, x);
      } else {
        SortedFront(pos, s);
        InsertSorted(pos, x, front);
        var inner := Insert(pos, x, front);
        var y := inner[|inner| - 1];
        assert y in inner;
        if y != x {
          assert y in s;
          LastIsGreatest(pos, s, y);
        }
        AppendSorted(pos, inner, last);
      }
    }
  }

  /** Inserting `x` adds it after the records of `s` that share its key. */
  lemma {:induction false} SelectInsert<K(!new), A(!new)>(pos: map<K, nat>, x: Record<K, A>, s: seq<Record<K, A>>, k: K)
    requires x.scoutKey in pos && Ranked(pos, s)
    ensures Select(Insert(pos, x, s), k) == Select(s, k) + (if x.scoutKey == k then [x] else [])
    decreases |s|
  {
    if s != [] {
      var front := s[..|s| - 1];
      var last := s[|s| - 1];
      assert s == front + [last];
      if pos[last.scoutKey] <= pos[x.scoutKey] {
        SelectAppend(s, [x], k);
      } else {
        SelectInsert(pos, x, front, k);
        SelectAppend(Insert(pos, x, front), [last], k);
        SelectAppend(front, [last], k);
      }
    }
  }

  /** `sortBy(position)`: a stable sort of `s` by the position of each key. */
  function SortBy<K(==,!new), A(==,!new)>(pos: map<K, nat>, s: seq<Record<K, A>>): (r: seq<Record<K, A>>)
    requires Ranked(pos, s)
    ensures Sorted(pos, r)
    ensures |r| == |s|
    ensures forall e :: e in r <==> e in s
    ensures forall k :: Select(r, k) == Select(s, k)
    decreases |s|
  {
    if s == [] then []
    else
      var front := s[..|s| - 1];
      var last := s[|s| - 1];
      assert s == front + [last];
      var sorted := SortBy(pos, front);
      InsertSorted(pos, last, sorted);
      SortStep(pos, last, sorted, front, s);
      Insert(pos, last, sorted)
  }

  lemma SortStep<K(!new), A(!new)>(pos: map<K, nat>, last: Record<K, A>, sorted: seq<Record<K, A>>, front: seq<Record<K, A>>, s: seq<Record<K, A>>)
    requires last.scoutKey in pos && Ranked(pos, sorted)
    requires s == front + [last]
    requires forall k :: Select(sorted, k) == Select(front, k)
    ensures forall k :: Select(Insert(pos, last, sorted), k) == Select(s, k)
  {
    forall k
      ensures Select(Insert(pos, last, sorted), k) == Select(s, k)
    {
      SelectInsert(pos, last, sorted, k);
      SelectAppend(front, [last], k);
    }
  }

  /** What `map` promises about its output `out`, given the ids and the fetched
      records: it is ordered by the `array_flip` position of each key, and for
      every key it holds exactly the fetched records with that key, in fetch
      order, when the key is an id, and nothing otherwise. */
  ghost predicate ReconciledWith<K(!new), A(!new)>(ids: seq<K>, fetched: seq<Record<K, A>>, out: seq<Record<K, A>>)
  {
    && Sorted(Flip(ids), out)
    && forall k :: Select(out, k) == (if k in ids then Select(fetched, k) else [])
  }

  /** The reconciliation step of `map` and `lazyMap`: filter, then stable sort. */
  function Reconcile<K(==,!new), A(==,!new)>(ids: seq<K>, fetched: seq<Record<K, A>>): (out: seq<Record<K, A>>)
    ensures ReconciledWith(ids, fetched, out)
    ensures |out| <= |fetched|
    ensures forall r :: r in out <==> r in fetched && r.scoutKey in ids
  {
    var kept := Keep(ids, fetched);
    var out := SortBy(Flip(ids), kept);
    forall k
      ensures Select(out, k) == (if k in ids then Select(fetched, k) else [])
    {
      SelectKeep(ids, fetched, k);
    }
    out
  }

  /** Sequences with the same selection for every key hold the same records. */
  lemma SameSelectionsSameMembers<K(!new), A(!new)>(a: seq<Record<K, A>>, b: seq<Record<K, A>>)
    requires forall k :: Select(a, k) == Select(b, k)
    ensures forall r :: r in a <==> r in b
  {
    forall r
      ensures r in a <==> r in b
    {
      SelectMembers(a, r.scoutKey);
      SelectMembers(b, r.scoutKey);
    }
  }

  lemma NoMembersMeansEmpty<T>(s: seq<T>)
    ensures s == [] <==> forall r :: r !in s
  {
    if s != [] {
      assert s[0] in s;
    }
  }

  /** In a sorted sequence, the last record has the greatest position. */
  lemma LastIsGreatest<K(!new), A(!new)>(pos: map<K, nat>, s: seq<Record<K, A>>, r: Record<K, A>)
    requires Sorted(pos, s) && s != [] && r in s
    ensures pos[r.scoutKey] <= pos[s[|s| - 1].scoutKey]
  {
    var j :| 0 <= j < |s| && s[j] == r;
  }

  /** Two non-empty sequences that end with the same record and have equal
      selections still have equal selections once that record is dropped. */
  lemma SelectionsOfFronts<K(!new), A(!new)>(a: seq<Record<K, A>>, b: seq<Record<K, A>>, a': seq<Record<K, A>>, b': seq<Record<K, A>>)
    requires a != [] && b != [] && a[|a| - 1] == b[|b| - 1]
    requires a' == a[..|a| - 1] && b' == b[..|b| - 1]
    requires forall k :: Select(a, k) == Select(b, k)
    ensures forall k :: Select(a', k) == Select(b', k)
  {
    var x := a[|a| - 1];
    forall k
      ensures Select(a', k) == Select(b', k)
    {
      var sa, sb := Select(a', k), Select(b', k);
      var t := if x.scoutKey == k then [x] else [];
      assert Select(a, k) == sa + t;
      assert Select(b, k) == sb + t;
      assert sa == (sa + t)[..|sa|];
      assert sb == (sb + t)[..|sb|];
    }
  }

  lemma SameFrontSameLast<T>(a: seq<T>, b: seq<T>)
    requires a != [] && b != []
    requires a[..|a| - 1] == b[..|b| - 1] && a[|a| - 1] == b[|b| - 1]
    ensures a == b
  {
    assert a == a[..|a| - 1] + [a[|a| - 1]];
    assert b == b[..|b| - 1] + [b[|b| - 1]];
  }

  /** Dropping the last record keeps a sequence sorted. */
  lemma SortedFront<K(!new), A(!new)>(pos: map<K, nat>, s: seq<Record<K, A>>)
    requires Sorted(pos, s) && s != []
    ensures Sorted(pos, s[..|s| - 1])
  {
    assert forall m :: 0 <= m < |s| - 1 ==> s[..|s| - 1][m] == s[m];
  }

  /** The selection of the last record's key ends with that record. */
  lemma LastOfSelection<K(!new), A(!new)>(s: seq<Record<K, A>>)
    requires s != []
    ensures var sel := Select(s, s[|s| - 1].scoutKey); sel != [] && sel[|sel| - 1] == s[|s| - 1]
  {
    var x := s[|s| - 1];
    assert Select(s, x.scoutKey) == Select(s[..|s| - 1], x.scoutKey) + [x];
  }

  /** Two non-empty sequences sorted by the same `array_flip` positions and
      holding the same records end with records of the same key. */
  lemma SameLastKey<K(!new), A(!new)>(ids: seq<K>, a: seq<Record<K, A>>, b: seq<Record<K, A>>)
    requires Sorted(Flip(ids), a) && Sorted(Flip(ids), b) && a != [] && b != []
    requires forall r :: r in a <==> r in b
    ensures a[|a| - 1].scoutKey == b[|b| - 1].scoutKey
  {
    var pos := Flip(ids);
    var x, y := a[|a| - 1], b[|b| - 1];
    LastIsGreatest(pos, b, x);
    LastIsGreatest(pos, a, y);
    assert ids[pos[x.scoutKey]] == x.scoutKey && ids[pos[y.scoutKey]] == y.scoutKey;
  }

  /** Two non-empty sequences sorted by the same `array_flip` positions, with
      the same selection for every key, end with the same record. */
  lemma SameLastRecord<K(!new), A(!new)>(ids: seq<K>, a: seq<Record<K, A>>, b: seq<Record<K, A>>)
    requires Sorted(Flip(ids), a) && Sorted(Flip(ids), b) && a != [] && b != []
    requires forall k :: Select(a, k) == Select(b, k)
    ensures a[|a| - 1] == b[|b| - 1]
  {
    SameSelectionsSameMembers(a, b);
    SameLastKey(ids, a, b);
    LastOfSelection(a);
    LastOfSelection(b);
    assert Select(a, a[|a| - 1].scoutKey) == Select(b, b[|b| - 1].scoutKey);
  }

  /** Two sequences ordered by the same `array_flip` positions that hold the
      same records per key are equal. */
  lemma {:induction false} SameSelectionsSameSequence<K(!new), A(!new)>(ids: seq<K>, a: seq<Record<K, A>>, b: seq<Record<K, A>>)
    requires Sorted(Flip(ids), a) && Sorted(Flip(ids), b)
    requires forall k :: Select(a, k) == Select(b, k)
    ensures a == b
    decreases |a| + |b|
  {
    SameSelectionsSameMembers(a, b);
    NoMembersMeansEmpty(a);
    NoMembersMeansEmpty(b);
    if a != [] && b != [] {
      SameLastRecord(ids, a, b);
      SelectionsOfFronts(a, b, a[..|a| - 1], b[..|b| - 1]);
      SortedFront(Flip(ids), a);
      SortedFront(Flip(ids), b);
      SameSelectionsSameSequence(ids, a[..|a| - 1], b[..|b| - 1]);
      SameFrontSameLast(a, b);
    }
  }

  /** The promise of `map` determines its output: at most one sequence meets it. */
  lemma ReconciliationIsUnique<K(!new), A(!new)>(ids: seq<K>, fetched: seq<Record<K, A>>, a: seq<Record<K, A>>, b: seq<Record<K, A>>)
    requires ReconciledWith(ids, fetched, a) && ReconciledWith(ids, fetched, b)
    ensures a == b
  {
    SameSelectionsSameSequence(ids, a, b);
  }

  lemma {:induction false} DistinctKeysBounded<K(!new), A(!new)>(s: seq<Record<K, A>>, keys: set<K>)
    requires DistinctRecordKeys(s)
    requires forall r :: r in s ==> r.scoutKey in keys
    ensures |s| <= |keys|
    decreases |s|
  {
    if s != [] {
      var front := s[..|s| - 1];
      var last := s[|s| - 1];
      assert s == front + [last];
      forall r | r in front
        ensures r.scoutKey in keys - {last.scoutKey}
      {
        var m :| 0 <= m < |front| && front[m] == r;
        assert s[m] == r;
      }
      DistinctKeysBounded(front, keys - {last.scoutKey});
    }
  }

  /** When the store returns each record once, `map` returns at most one model
      per distinct id. */
  lemma ReconcileBoundedByDistinctIds<K(!new), A(!new)>(ids: seq<K>, fetched: seq<Record<K, A>>)
    requires DistinctRecordKeys(fetched)
    ensures |Reconcile(ids, fetched)| <= |set k | k in ids|
  {
    var kept := Keep(ids, fetched);
    DistinctKeysBounded(kept, set k | k in ids);
  }

  lemma {:induction false} SelectOfDistinct<K(!new), A(!new)>(s: seq<Record<K, A>>, k: K)
    requires DistinctRecordKeys(s)
    ensures |Select(s, k)| <= 1
    decreases |s|
  {
    if s != [] {
      var front := s[..|s| - 1];
      assert forall m :: 0 <= m < |front| ==> front[m] == s[m];
      SelectOfDistinct(front, k);
      SelectMembers(front, k);
    }
  }

  lemma SelectionFromOneSide<K(!new), A(!new)>(f1: seq<Record<K, A>>, f2: seq<Record<K, A>>, k: K)
    requires DistinctRecordKeys(f1) && DistinctRecordKeys(f2)
    requires multiset(f1) == multiset(f2)
    requires |Select(f1, k)| == 1
    ensures Select(f1, k) == Select(f2, k)
  {
    var s1, s2 := Select(f1, k), Select(f2, k);
    var e := s1[0];
    SelectMembers(f1, k);
    SelectMembers(f2, k);
    SelectOfDistinct(f2, k);
    assert e in f1;
    assert e in multiset(f1);
    assert e in f2;
    assert e in s2;
    assert s2 == [e];
    assert s1 == [e];
  }

  /** The order in which the store returns the records does not matter: the
      same set of uniquely keyed records gives the same output. */
  lemma FetchOrderIrrelevant<K(!new), A(!new)>(ids: seq<K>, f1: seq<Record<K, A>>, f2: seq<Record<K, A>>)
    requires DistinctRecordKeys(f1) && DistinctRecordKeys(f2)
    requires multiset(f1) == multiset(f2)
    ensures Reconcile(ids, f1) == Reconcile(ids, f2)
  {
    forall k
      ensures Select(f1, k) == Select(f2, k)
    {
      SelectOfDistinct(f1, k);
      SelectOfDistinct(f2, k);
      if |Select(f1, k)| == 1 {
        SelectionFromOneSide(f1, f2, k);
      } else if |Select(f2, k)| == 1 {
        SelectionFromOneSide(f2, f1, k);
      }
    }
    ReconciliationIsUnique(ids, f1, Reconcile(ids, f1), Reconcile(ids, f2));
  }

  /** The three early returns of `map` and `lazyMap`: a null response, a
      response without `items`, and an empty `items` list. */
  predicate HasItems<K>(results: Option<SearchResult<K>>)
  {
    results.Some? && results.value.items.Some? && results.value.items.value != []
  }

  /** `map`: `fetch` stands for `getScoutModelsByIds`, the store lookup. */
  function Map<K(==,!new), A(==,!new)>(results: Option<SearchResult<K>>, fetch: seq<K> -> seq<Record<K, A>>): (m: Mapped<K, A>)
    ensures !HasItems(results) ==> m == Mapped(None, [])
    ensures HasItems(results) ==>
              && m.lookup == Some(MapIds(results))
              && ReconciledWith(MapIds(results), fetch(MapIds(results)), m.models)
  {
    if results.None? then Mapped(None, [])
    else if results.value.items.None? then Mapped(None, [])
    else if results.value.items.value == [] then Mapped(None, [])
    else
      var ids := ObjectIds(results.value.items.value);
      Mapped(Some(ids), Reconcile(ids, fetch(ids)))
  }

  lemma KeepSnoc<K(!new), A(!new)>(ids: seq<K>, s: seq<Record<K, A>>, r: Record<K, A>)
    ensures r.scoutKey in ids ==> Keep(ids, s + [r]) == Keep(ids, s) + [r]
    ensures r.scoutKey !in ids ==> Keep(ids, s + [r]) == Keep(ids, s)
  {
    assert (s + [r])[..|s|] == s;
    assert Keep(ids, s) + [] == Keep(ids, s);
  }

  lemma SortBySnoc<K(!new), A(!new)>(pos: map<K, nat>, s: seq<Record<K, A>>, r: Record<K, A>)
    requires Ranked(pos, s) && r.scoutKey in pos
    ensures SortBy(pos, s + [r]) == Insert(pos, r, SortBy(pos, s))
  {
    assert (s + [r])[..|s|] == s;
  }

  /** One step of `lazyMap`'s cursor loop: the next record extends the ordered
      output exactly as sorting the longer prefix would. */
  lemma LazyStep<K(!new), A(!new)>(ids: seq<K>, pos: map<K, nat>, prefix: seq<Record<K, A>>, r: Record<K, A>)
    requires pos == Flip(ids)
    ensures Ranked(pos, Keep(ids, prefix)) && Ranked(pos, Keep(ids, prefix + [r]))
    ensures Ranked(pos, SortBy(pos, Keep(ids, prefix)))
    ensures r.scoutKey in ids ==> r.scoutKey in pos
    ensures r.scoutKey in ids ==> SortBy(pos, Keep(ids, prefix + [r])) == Insert(pos, r, SortBy(pos, Keep(ids, prefix)))
    ensures r.scoutKey !in ids ==> SortBy(pos, Keep(ids, prefix + [r])) == SortBy(pos, Keep(ids, prefix))
  {
    KeepSnoc(ids, prefix, r);
    var kept := Keep(ids, prefix);
    assert Ranked(pos, kept);
    if r.scoutKey in ids {
      SortBySnoc(pos, kept, r);
    }
  }

  /** What the cursor loop of `lazyMap` has built after reading `s`. */
  function Absorbed<K(==,!new), A(==,!new)>(ids: seq<K>, s: seq<Record<K, A>>): seq<Record<K, A>>
    decreases |s|
  {
    if s == [] then []
    else
      var r := s[|s| - 1];
      var built := Absorbed(ids, s[..|s| - 1]);
      if r.scoutKey in ids then Insert(Flip(ids), r, built) else built
  }

  /** Absorbing records one at a time gives the filtered, stably sorted
      sequence that `map` builds from the whole fetch. */
  lemma {:induction false} AbsorbedIsSorted<K(!new), A(!new)>(ids: seq<K>, s: seq<Record<K, A>>)
    ensures Ranked(Flip(ids), Keep(ids, s))
    ensures Absorbed(ids, s) == SortBy(Flip(ids), Keep(ids, s))
    decreases |s|
  {
    if s != [] {
      var front := s[..|s| - 1];
      var r := s[|s| - 1];
      assert s == front + [r];
      AbsorbedIsSorted(ids, front);
      LazyStep(ids, Flip(ids), front, r);
    }
  }

  /** The cursor part of `lazyMap`. The library collects the filtered records
      of the cursor and then sorts them stably by response position; this loop
      computes the same result by inserting each kept record into an ordered
      buffer as it is read, and its contract is that it equals the
      filter-then-sort. */
  method ReadCursor<K(==,!new), A(==,!new)>(ids: seq<K>, stream: seq<Record<K, A>>) returns (out: seq<Record<K, A>>)
    ensures out == Reconcile(ids, stream)
  {
    var pos := Flip(ids);
    out := [];
    var i := 0;
    while i < |stream|
      invariant 0 <= i <= |stream|
      invariant out == Absorbed(ids, stream[..i])
    {
      var r := stream[i];
      assert stream[..i + 1][..i] == stream[..i];
      if r.scoutKey in ids {
        out := Insert(pos, r, out);
      }
      i := i + 1;
    }
    assert stream[..i] == stream;
    AbsorbedIsSorted(ids, stream);
  }

  /** `lazyMap`: the store is read through a cursor, one record at a time,
      rather than fetched as a whole. */
  method LazyMap<K(==,!new), A(==,!new)>(results: Option<SearchResult<K>>, cursor: seq<K> -> seq<Record<K, A>>) returns (m: Mapped<K, A>)
    ensures m == Map(results, cursor)
  {
    if results.None? {
      return Mapped(None, []);
    }
    if results.value.items.None? {
      return Mapped(None, []);
    }
    if results.value.items.value == [] {
      return Mapped(None, []);
    }
    var ids := ObjectIds(results.value.items.value);
    var out := ReadCursor(ids, cursor(ids));
    m := Mapped(Some(ids), out);
  }

  /** `getTotalCount`: the reported total, or 0 when the response or its
      `total` is null. */
  function GetTotalCount<K>(results: Option<SearchResult<K>>): (total: int)
    ensures results.None? ==> total == 0
    ensures results.Some? && results.value.total.None? ==> total == 0
    ensures results.Some? && results.value.total.Some? ==> total == results.value.total.value
  {
    if results.None? then 0 else results.value.total.GetOr(0)
  }
}
