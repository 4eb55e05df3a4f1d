/** PHP arrays with string keys, as the engine uses them for options, search
    data and documents: an ordered list of key/value entries. Writing to a key
    that is present overwrites it in place; writing to a new key appends. */
module PhpArrays {
  import opened Optional
  import opened PhpValues
  import opened Sequences

  type Assoc = seq<(string, Value)>

  predicate HasKey(a: Assoc, k: string)
  {
    exists i :: 0 <= i < |a| && a[i].0 == k
  }

  /** A PHP array never holds a key twice. */
  predicate DistinctKeys(a: Assoc)
  {
    forall i, j :: 0 <= i < j < |a| ==> a[i].0 != a[j].0
  }

  /** `$a[$k]`: the value of the last entry under `k`, or None when `k` is
      missing (for an array with distinct keys, the only such entry). */
  function Lookup(a: Assoc, k: string): (r: Option<Value>)
    ensures r.None? <==> !HasKey(a, k)
    decreases |a|
  {
    if a == [] then None
    else if a[|a| - 1].0 == k then Some(a[|a| - 1].1)
    else
      var r := Lookup(a[..|a| - 1], k);
      assert forall i :: 0 <= i < |a| - 1 ==> a[..|a| - 1][i] == a[i];
      r
  }

  /** The entry found by Lookup is the last one carrying the key. */
  lemma {:induction false} LookupAt(a: Assoc, k: string, i: int)
    requires 0 <= i < |a| && a[i].0 == k
    requires forall j :: i < j < |a| ==> a[j].0 != k
    ensures Lookup(a, k) == Some(a[i].1)
    decreases |a|
  {
    if i < |a| - 1 {
      LookupAt(a[..|a| - 1], k, i);
    }
  }

  /** Overwrites, in place, every entry under `k`. */
  function Replace(a: Assoc, k: string, v: Value): (r: Assoc)
    ensures |r| == |a|
    ensures forall i :: 0 <= i < |a| ==> r[i] == (if a[i].0 == k then (k, v) else a[i])
  {
    seq(|a|, i requires 0 <= i < |a| => if a[i].0 == k then (k, v) else a[i])
  }

  /** `$a[$k] = $v`. */
  function Set(a: Assoc, k: string, v: Value): (r: Assoc)
    ensures Lookup(r, k) == Some(v)
    ensures forall k' :: k' != k ==> Lookup(r, k') == Lookup(a, k')
    ensures HasKey(a, k) ==> |r| == |a|
    ensures !HasKey(a, k) ==> r == a + [(k, v)]
    ensures |r| >= |a| && forall i :: 0 <= i < |a| ==> r[i].0 == a[i].0
    ensures DistinctKeys(a) ==> DistinctKeys(r)
  {
    if HasKey(a, k) then
      var r := Replace(a, k, v);
      SetLookups(a, r, k, v);
      r
    else
      var r := a + [(k, v)];
      assert forall k' :: k' != k ==> Lookup(r, k') == Lookup(a, k') by {
        assert r[..|r| - 1] == a;
      }
      r
  }

  lemma SetLookups(a: Assoc, r: Assoc, k: string, v: Value)
    requires HasKey(a, k)
    requires |r| == |a|
    requires forall i :: 0 <= i < |a| ==> r[i] == (if a[i].0 == k then (k, v) else a[i])
    ensures Lookup(r, k) == Some(v)
    ensures forall k' :: k' != k ==> Lookup(r, k') == Lookup(a, k')
  {
    var i :| 0 <= i < |a| && a[i].0 == k;
    assert r[i].0 == k;
    var last := LastIndexOf(r, k, i);
    LookupAt(r, k, last);
    forall k' | k' != k
      ensures Lookup(r, k') == Lookup(a, k')
    {
      if HasKey(a, k') {
        var j := LookupFound(a, k');
        LookupAt(r, k', j);
      } else {
        assert !HasKey(r, k');
      }
    }
  }

  /** A present key is read from its last entry. */
  lemma LookupFound(a: Assoc, k: string) returns (i: int)
    requires HasKey(a, k)
    ensures 0 <= i < |a| && a[i] == (k, Lookup(a, k).value)
    ensures forall j :: i < j < |a| ==> a[j].0 != k
  {
    var i0 :| 0 <= i0 < |a| && a[i0].0 == k;
    i := LastIndexOf(a, k, i0);
    LookupAt(a, k, i);
  }

  /** The last index at or after `i` whose entry carries `k`. */
  function LastIndexOf(a: Assoc, k: string, i: int): (j: int)
    requires 0 <= i < |a| && a[i].0 == k
    ensures i <= j < |a| && a[j].0 == k
    ensures forall m :: j < m < |a| ==> a[m].0 != k
    decreases |a| - i
  {
    if exists m :: i < m < |a| && a[m].0 == k then
      var m :| i < m < |a| && a[m].0 == k;
      LastIndexOf(a, k, m)
    else i
  }

  /** `array_merge($a, $b)` for string keys: the entries of `b` are written into
      `a` in order, so a later value wins while a key keeps the position where it
      first appeared. */
  function Merge(a: Assoc, b: Assoc): (r: Assoc)
    ensures forall k :: Lookup(r, k) == (if HasKey(b, k) then Lookup(b, k) else Lookup(a, k))
    ensures |r| >= |a| && forall i :: 0 <= i < |a| ==> r[i].0 == a[i].0
    ensures DistinctKeys(a) ==> DistinctKeys(r)
    decreases |b|
  {
    if b == [] then a
    else
      var m := Merge(a, b[..|b| - 1]);
      var r := Set(m, b[|b| - 1].0, b[|b| - 1].1);
      MergeStep(a, b, m, r);
      r
  }

  lemma MergeStep(a: Assoc, b: Assoc, m: Assoc, r: Assoc)
    requires b != []
    requires forall k :: Lookup(m, k) == (if HasKey(b[..|b| - 1], k) then Lookup(b[..|b| - 1], k) else Lookup(a, k))
    requires r == Set(m, b[|b| - 1].0, b[|b| - 1].1)
    ensures forall k :: Lookup(r, k) == (if HasKey(b, k) then Lookup(b, k) else Lookup(a, k))
  {
    var front := b[..|b| - 1];
    var last := b[|b| - 1];
    forall k
      ensures Lookup(r, k) == (if HasKey(b, k) then Lookup(b, k) else Lookup(a, k))
    {
      if k == last.0 {
        assert HasKey(b, k);
      } else {
        assert HasKey(b, k) <==> HasKey(front, k) by {
          assert forall i :: 0 <= i < |front| ==> front[i] == b[i];
        }
      }
    }
  }

  /** The entries of `b` whose key is not in `a`, in `b`'s order. */
  function Fresh(a: Assoc, b: Assoc): (r: Assoc)
    ensures forall e :: e in r <==> e in b && !HasKey(a, e.0)
    decreases |b|
  {
    if b == [] then []
    else
      var front := b[..|b| - 1];
      var last := b[|b| - 1];
      assert b == front + [last];
      Fresh(a, front) + (if HasKey(a, last.0) then [] else [last])
  }

  /** `array_merge` appends the keys that are new in the later array after
      those of the earlier one, in the later array's order: with the key
      positions and lookups of Merge's contract, this fixes the merged array. */
  lemma {:induction false} MergeAppendsFresh(a: Assoc, b: Assoc)
    requires DistinctKeys(a) && DistinctKeys(b)
    ensures Merge(a, b)[|a|..] == Fresh(a, b)
    decreases |b|
  {
    if b == [] {
      assert Merge(a, b) == a;
    } else {
      DistinctFront(b);
      MergeAppendsFresh(a, b[..|b| - 1]);
      if HasKey(a, b[|b| - 1].0) {
        MergeStepOldKey(a, b);
      } else {
        MergeStepNewKey(a, b);
      }
    }
  }

  /** The step of MergeAppendsFresh for a last entry whose key is in `a`. */
  lemma MergeStepOldKey(a: Assoc, b: Assoc)
    requires b != [] && HasKey(a, b[|b| - 1].0)
    requires Merge(a, b[..|b| - 1])[|a|..] == Fresh(a, b[..|b| - 1])
    ensures Merge(a, b)[|a|..] == Fresh(a, b)
  {
    var front := b[..|b| - 1];
    var last := b[|b| - 1];
    var m := Merge(a, front);
    assert Merge(a, b) == Set(m, last.0, last.1);
    assert Fresh(a, b) == Fresh(a, front) + [];
    FreshKeysUnchanged(a, m, last.0, last.1);
  }

  /** The step of MergeAppendsFresh for a last entry whose key is new. */
  lemma MergeStepNewKey(a: Assoc, b: Assoc)
    requires b != [] && !HasKey(a, b[|b| - 1].0) && !HasKey(b[..|b| - 1], b[|b| - 1].0)
    requires Merge(a, b[..|b| - 1])[|a|..] == Fresh(a, b[..|b| - 1])
    ensures Merge(a, b)[|a|..] == Fresh(a, b)
  {
    var front := b[..|b| - 1];
    var last := b[|b| - 1];
    var m := Merge(a, front);
    assert Merge(a, b) == Set(m, last.0, last.1);
    assert Fresh(a, b) == Fresh(a, front) + [last];
    assert Lookup(m, last.0) == None;
    assert Set(m, last.0, last.1) == m + [last];
    DropConcat(m, [last], |a|);
  }

  /** Overwriting a key of `a` leaves the entries after `a`'s positions alone
      when none of them carries that key. */
  lemma FreshKeysUnchanged(a: Assoc, m: Assoc, k: string, v: Value)
    requires HasKey(a, k) && |m| >= |a|
    requires forall i :: 0 <= i < |a| ==> m[i].0 == a[i].0
    requires forall e :: e in m[|a|..] ==> !HasKey(a, e.0)
    ensures Set(m, k, v)[|a|..] == m[|a|..]
  {
    var i :| 0 <= i < |a| && a[i].0 == k;
    assert m[i].0 == k;
    var r := Set(m, k, v);
    assert r == Replace(m, k, v);
    forall j | |a| <= j < |m|
      ensures r[j] == m[j]
    {
      assert m[j] in m[|a|..];
    }
  }

  /** `array_filter($a)` without a callback: drops the entries whose value is
      falsy and keeps the others in order. */
  function ArrayFilter(a: Assoc): (r: Assoc)
    ensures forall e :: e in r <==> e in a && Truthy(e.1)
    ensures |r| <= |a|
    ensures DistinctKeys(a) ==> DistinctKeys(r)
    decreases |a|
  {
    if a == [] then []
    else
      var front := a[..|a| - 1];
      var last := a[|a| - 1];
      var f := ArrayFilter(front);
      assert a == front + [last];
      if Truthy(last.1) then f + [last] else f
  }

  /** `array_filter` keeps order: filtering two parts in a row is filtering
      each part, in that order (and, by ArrayFilterSnoc, an entry is kept
      exactly when its value is truthy). */
  lemma {:induction false} ArrayFilterAppend(a: Assoc, b: Assoc)
    ensures ArrayFilter(a + b) == ArrayFilter(a) + ArrayFilter(b)
    decreases |b|
  {
    if b == [] {
      assert a + b == a;
      assert ArrayFilter(a) + [] == ArrayFilter(a);
    } else {
      var front := b[..|b| - 1];
      var last := b[|b| - 1];
      assert b == front + [last];
      assert a + b == (a + front) + [last];
      ArrayFilterAppend(a, front);
      ArrayFilterSnoc(a + front, last);
      ArrayFilterSnoc(front, last);
      ConcatAssoc(ArrayFilter(a), ArrayFilter(front), if Truthy(last.1) then [last] else []);
    }
  }

  /** One more entry is kept after the filtered ones exactly when its value
      is truthy. */
  lemma ArrayFilterSnoc(a: Assoc, e: (string, Value))
    ensures ArrayFilter(a + [e]) == ArrayFilter(a) + if Truthy(e.1) then [e] else []
  {
    assert (a + [e])[..|a|] == a;
  }

  /** Reading from an array with one more entry at the end. */
  lemma LookupSnoc(a: Assoc, e: (string, Value), k: string)
    ensures Lookup(a + [e], k) == if e.0 == k then Some(e.1) else Lookup(a, k)
  {
    assert (a + [e])[..|a|] == a;
  }

  /** Without its last entry, an array with distinct keys still has distinct
      keys and no longer holds the last key. */
  lemma DistinctFront(a: Assoc)
    requires DistinctKeys(a) && a != []
    ensures DistinctKeys(a[..|a| - 1]) && !HasKey(a[..|a| - 1], a[|a| - 1].0)
  {
    var front := a[..|a| - 1];
    assert forall i :: 0 <= i < |front| ==> front[i] == a[i];
  }

  /** With distinct keys, a key reads its old value after `array_filter` when
      that value is truthy, and is missing otherwise. */
  lemma {:induction false} ArrayFilterLookup(a: Assoc, k: string)
    requires DistinctKeys(a)
    ensures Lookup(ArrayFilter(a), k) == if Lookup(a, k).Some? && Truthy(Lookup(a, k).value) then Lookup(a, k) else None
    decreases |a|
  {
    if a != [] {
      var front := a[..|a| - 1];
      var last := a[|a| - 1];
      var f := ArrayFilter(front);
      assert a == front + [last];
      DistinctFront(a);
      ArrayFilterLookup(front, k);
      LookupSnoc(front, last, k);
      if Truthy(last.1) {
        LookupSnoc(f, last, k);
      }
    }
  }
}
