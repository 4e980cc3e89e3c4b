/**
 * Document collections and the derived queries a repository offers over them
 * (`findByX`, `findAllByX`, `existsByX`, `deleteAllByX`, `save`). A collection is
 * a sequence of documents in the store's natural order; a query names the field
 * it looks at through a key function.
 */
module Documents {
  import opened Results
  import opened Exceptions

  /** `existsByX(k)`: some document's field equals `k`. */
  predicate ExistsBy<T, K(==)>(s: seq<T>, key: T -> K, k: K)
  {
    exists i :: 0 <= i < |s| && key(s[i]) == k
  }

  /** No two documents share a value of the field. */
  ghost predicate DistinctBy<T, K>(s: seq<T>, key: T -> K)
  {
    forall i, j :: 0 <= i < j < |s| ==> key(s[i]) != key(s[j])
  }

  /** `findById(k)`: the first document whose id field equals `k`, if any. */
  function FindFirstBy<T, K(==)>(s: seq<T>, key: T -> K, k: K): (r: Option<T>)
    ensures r.Some? <==> ExistsBy(s, key, k)
    ensures r.Some? ==> r.value in s && key(r.value) == k
  {
    if |s| == 0 then None
    else if key(s[0]) == k then Some(s[0])
    else
      var r := FindFirstBy(s[1..], key, k);
      assert ExistsBy(s, key, k) ==> ExistsBy(s[1..], key, k) by {
        if ExistsBy(s, key, k) {
          var i :| 0 <= i < |s| && key(s[i]) == k;
          assert key(s[1..][i - 1]) == k;
        }
      }
      r
  }

  /** More than one document's field equals `k`. */
  predicate ManyBy<T, K(==)>(s: seq<T>, key: T -> K, k: K)
  {
    exists i, j :: 0 <= i < j < |s| && key(s[i]) == k && key(s[j]) == k
  }

  /**
   * A single-result `findByX(k)` returning an Optional: empty when no document
   * matches, the match when exactly one does, and IncorrectResultSizeDataAccess
   * when more than one does. Under unique keys it never fails.
   */
  function FindOneBy<T, K(==)>(s: seq<T>, key: T -> K, k: K): (r: Result<Option<T>, LibraryException>)
    ensures r.Failure? <==> ManyBy(s, key, k)
    ensures r.Failure? ==> r.error == IncorrectResultSizeDataAccess
    ensures r.Success? ==> (r.value.Some? <==> ExistsBy(s, key, k))
    ensures r.Success? && r.value.Some? ==> r.value.value in s && key(r.value.value) == k
    ensures DistinctBy(s, key) ==> r.Success?
  {
    var all := FilterBy(s, key, k);
    FilterByMany(s, key, k);
    FilterByExists(s, key, k);
    if |all| > 1 then Failure(IncorrectResultSizeDataAccess)
    else if |all| == 1 then
      assert all[0] in s;
      Success(Some(all[0]))
    else Success(None)
  }

  /** `findAllByX(k)`: every document whose field equals `k`, in store order. */
  function FilterBy<T, K(==)>(s: seq<T>, key: T -> K, k: K): (r: seq<T>)
    ensures forall i :: 0 <= i < |r| ==> r[i] in s && key(r[i]) == k
    ensures forall i :: 0 <= i < |s| && key(s[i]) == k ==> s[i] in r
  {
    if |s| == 0 then []
    else (if key(s[0]) == k then [s[0]] else []) + FilterBy(s[1..], key, k)
  }

  /** `deleteAllByX(k)`: the collection without the documents whose field equals `k`. */
  function RemoveBy<T, K(==)>(s: seq<T>, key: T -> K, k: K): (r: seq<T>)
    ensures forall i :: 0 <= i < |r| ==> r[i] in s && key(r[i]) != k
    ensures forall i :: 0 <= i < |s| && key(s[i]) != k ==> s[i] in r
  {
    if |s| == 0 then []
    else (if key(s[0]) == k then [] else [s[0]]) + RemoveBy(s[1..], key, k)
  }

  /**
   * `save(x)` keyed by the identifier field: the document with x's identifier
   * is replaced in place, or x is appended when there is none.
   */
  function Upsert<T, K(==)>(s: seq<T>, x: T, key: T -> K): seq<T>
  {
    if ExistsBy(s, key, key(x)) then
      seq(|s|, i requires 0 <= i < |s| => if key(s[i]) == key(x) then x else s[i])
    else s + [x]
  }

  /** Under distinct ids, `findById` yields the one document with a given id. */
  lemma FindFirstByUnique<T, K>(s: seq<T>, key: T -> K, x: T)
    requires DistinctBy(s, key) && x in s
    ensures FindFirstBy(s, key, key(x)) == Some(x)
  {
    var r := FindFirstBy(s, key, key(x));
    assert ExistsBy(s, key, key(x)) by {
      var i :| 0 <= i < |s| && s[i] == x;
    }
    var i :| 0 <= i < |s| && s[i] == r.value;
    var j :| 0 <= j < |s| && s[j] == x;
    assert i == j;
  }

  /**
   * `findAllByX(k)` and `deleteAllByX(k)` split the collection: every document
   * lands in exactly one of them, as often as it occurs.
   */
  lemma {:induction false} PartitionBy<T, K>(s: seq<T>, key: T -> K, k: K)
    ensures multiset(FilterBy(s, key, k)) + multiset(RemoveBy(s, key, k)) == multiset(s)
    ensures |FilterBy(s, key, k)| + |RemoveBy(s, key, k)| == |s|
  {
    if |s| > 0 {
      PartitionBy(s[1..], key, k);
      assert s == [s[0]] + s[1..];
    }
  }

  /** Removing documents keeps any field that was distinct distinct. */
  lemma {:induction false} RemoveByKeepsDistinct<T, K, L>(s: seq<T>, key: T -> K, k: K, other: T -> L)
    requires DistinctBy(s, other)
    ensures DistinctBy(RemoveBy(s, key, k), other)
  {
    if |s| > 0 {
      var tail := s[1..];
      assert DistinctBy(tail, other) by {
        forall i, j | 0 <= i < j < |tail| ensures other(tail[i]) != other(tail[j]) {
          assert tail[i] == s[i + 1] && tail[j] == s[j + 1];
        }
      }
      RemoveByKeepsDistinct(tail, key, k, other);
      var rest := RemoveBy(tail, key, k);
      var head := if key(s[0]) == k then [] else [s[0]];
      var r := head + rest;
      assert r == RemoveBy(s, key, k);
      forall y | y in rest ensures other(y) != other(s[0]) {
        var j :| 0 <= j < |tail| && tail[j] == y;
        assert s[j + 1] == y;
      }
      forall i, j | 0 <= i < j < |r| ensures other(r[i]) != other(r[j]) {
        if |head| == 1 && i == 0 {
          assert r[j] == rest[j - 1] && r[j] in rest;
        } else {
          assert r[i] == rest[i - |head|] && r[j] == rest[j - |head|];
        }
      }
    }
  }

  /** After `save(x)`, looking x's identifier up finds x (save, then get by id). */
  lemma UpsertThenFind<T, K>(s: seq<T>, x: T, key: T -> K)
    requires DistinctBy(s, key)
    ensures FindFirstBy(Upsert(s, x, key), key, key(x)) == Some(x)
  {
    UpsertKeepsDistinct(s, x, key);
    var r := Upsert(s, x, key);
    if ExistsBy(s, key, key(x)) {
      var i :| 0 <= i < |s| && key(s[i]) == key(x);
      assert r[i] == x;
    } else {
      assert r[|s|] == x;
    }
    FindFirstByUnique(r, key, x);
  }

  /**
   * `save(x)` touches no document with another identifier: the result holds x
   * and exactly the documents of s whose identifier differs from x's.
   */
  lemma UpsertContents<T, K>(s: seq<T>, x: T, key: T -> K)
    ensures x in Upsert(s, x, key)
    ensures forall y :: y in Upsert(s, x, key) && y != x ==> y in s && key(y) != key(x)
    ensures forall y :: y in s && key(y) != key(x) ==> y in Upsert(s, x, key)
    ensures |Upsert(s, x, key)| == if ExistsBy(s, key, key(x)) then |s| else |s| + 1
  {
    var r := Upsert(s, x, key);
    if ExistsBy(s, key, key(x)) {
      var i :| 0 <= i < |s| && key(s[i]) == key(x);
      assert r[i] == x;
      forall y | y in s && key(y) != key(x) ensures y in r {
        var j :| 0 <= j < |s| && s[j] == y;
        assert r[j] == y;
      }
    }
  }

  /** `save(x)` keeps identifiers distinct. */
  lemma UpsertKeepsDistinct<T, K>(s: seq<T>, x: T, key: T -> K)
    requires DistinctBy(s, key)
    ensures DistinctBy(Upsert(s, x, key), key)
  {
    var r := Upsert(s, x, key);
    if !ExistsBy(s, key, key(x)) {
      forall i, j | 0 <= i < j < |r| ensures key(r[i]) != key(r[j]) {
        if j == |s| {
          assert r[i] == s[i];
        }
      }
    }
  }

  /**
   * `save(x)` keeps a second field distinct when no stored document already
   * has x's value of it.
   */
  lemma UpsertKeepsOtherDistinct<T, K, L>(s: seq<T>, x: T, key: T -> K, other: T -> L)
    requires DistinctBy(s, key) && DistinctBy(s, other)
    requires !ExistsBy(s, other, other(x))
    ensures DistinctBy(Upsert(s, x, key), other)
  {
    var r := Upsert(s, x, key);
    if ExistsBy(s, key, key(x)) {
      forall i, j | 0 <= i < j < |r| ensures other(r[i]) != other(r[j]) {
        if key(s[i]) == key(x) && key(s[j]) == key(x) {
          assert false;
        } else if key(s[i]) == key(x) {
          assert r[j] == s[j];
        } else if key(s[j]) == key(x) {
          assert r[i] == s[i];
        }
      }
    } else {
      forall i, j | 0 <= i < j < |r| ensures other(r[i]) != other(r[j]) {
        if j == |s| {
          assert r[i] == s[i];
        }
      }
    }
  }

  /** Every document carries a key value (its identifier is not null). */
  ghost predicate AllKeyed<T, K>(s: seq<T>, key: T -> Option<K>)
  {
    forall i :: 0 <= i < |s| ==> key(s[i]).Some?
  }

  /** `save(x)` of an identified document keeps every document identified. */
  lemma UpsertKeepsKeyed<T, K>(s: seq<T>, x: T, key: T -> Option<K>)
    requires AllKeyed(s, key) && key(x).Some?
    ensures AllKeyed(Upsert(s, x, key), key)
  {
    var r := Upsert(s, x, key);
    if !ExistsBy(s, key, key(x)) {
      forall i | 0 <= i < |r| ensures key(r[i]).Some? {
        if i < |s| { assert r[i] == s[i]; }
      }
    }
  }

  /** Removing documents keeps every remaining one identified. */
  lemma RemoveByKeepsKeyed<T, K, L>(s: seq<T>, key: T -> Option<K>, other: T -> L, k: L)
    requires AllKeyed(s, key)
    ensures AllKeyed(RemoveBy(s, other, k), key)
  {
    var r := RemoveBy(s, other, k);
    forall i | 0 <= i < |r| ensures key(r[i]).Some? {
      var j :| 0 <= j < |s| && s[j] == r[i];
    }
  }

  /** `save(x)` keeps every key value that was stored. */
  lemma UpsertKeepsKeys<T, K>(s: seq<T>, x: T, key: T -> K, k: K)
    requires ExistsBy(s, key, k)
    ensures ExistsBy(Upsert(s, x, key), key, k)
  {
    var r := Upsert(s, x, key);
    var i :| 0 <= i < |s| && key(s[i]) == k;
    if ExistsBy(s, key, key(x)) {
      assert key(r[i]) == k;
    } else {
      assert r[i] == s[i];
    }
  }

  /** `deleteAllByX(k)` keeps every other value of that field. */
  lemma RemoveByKeepsOtherKeys<T, K>(s: seq<T>, key: T -> K, k: K, k': K)
    requires ExistsBy(s, key, k') && k' != k
    ensures ExistsBy(RemoveBy(s, key, k), key, k')
  {
    var r := RemoveBy(s, key, k);
    var i :| 0 <= i < |s| && key(s[i]) == k';
    assert s[i] in r;
    var j :| 0 <= j < |r| && r[j] == s[i];
  }

  /** With distinct keys, `findAllByX(k)` has one document when k is stored, none otherwise. */
  lemma {:induction false} FilterByDistinct<T, K>(s: seq<T>, key: T -> K, k: K)
    requires DistinctBy(s, key)
    ensures |FilterBy(s, key, k)| == if ExistsBy(s, key, k) then 1 else 0
  {
    if |s| > 0 {
      var tail := s[1..];
      assert DistinctBy(tail, key) by {
        forall i, j | 0 <= i < j < |tail| ensures key(tail[i]) != key(tail[j]) {
          assert tail[i] == s[i + 1] && tail[j] == s[j + 1];
        }
      }
      FilterByDistinct(tail, key, k);
      if key(s[0]) == k {
        assert !ExistsBy(tail, key, k) by {
          forall i | 0 <= i < |tail| ensures key(tail[i]) != k {
            assert tail[i] == s[i + 1];
          }
        }
      } else {
        assert ExistsBy(s, key, k) <==> ExistsBy(tail, key, k) by {
          if ExistsBy(s, key, k) {
            var i :| 0 <= i < |s| && key(s[i]) == k;
            assert key(tail[i - 1]) == k;
          }
          if ExistsBy(tail, key, k) {
            var i :| 0 <= i < |tail| && key(tail[i]) == k;
            assert key(s[i + 1]) == k;
          }
        }
      }
    }
  }

  /**
   * Deleting by a unique key removes exactly one document when the key is
   * stored, and afterwards the key is gone.
   */
  lemma RemoveByDistinctCount<T, K>(s: seq<T>, key: T -> K, k: K)
    requires DistinctBy(s, key)
    ensures |RemoveBy(s, key, k)| == if ExistsBy(s, key, k) then |s| - 1 else |s|
    ensures !ExistsBy(RemoveBy(s, key, k), key, k)
  {
    PartitionBy(s, key, k);
    FilterByDistinct(s, key, k);
  }

  /** `findAllByX(k)` finds something exactly when some document matches. */
  lemma FilterByExists<T, K>(s: seq<T>, key: T -> K, k: K)
    ensures |FilterBy(s, key, k)| > 0 <==> ExistsBy(s, key, k)
  {
    var f := FilterBy(s, key, k);
    if |f| > 0 {
      assert f[0] in s;
      var i :| 0 <= i < |s| && s[i] == f[0];
    }
    if ExistsBy(s, key, k) {
      var i :| 0 <= i < |s| && key(s[i]) == k;
      assert s[i] in f;
    }
  }

  /** With a matching first document, a second match is any match in the rest. */
  lemma ManyByHeadMatch<T, K>(s: seq<T>, key: T -> K, k: K)
    requires |s| > 0 && key(s[0]) == k
    ensures ManyBy(s, key, k) <==> ExistsBy(s[1..], key, k)
  {
    if ManyBy(s, key, k) {
      var i, j :| 0 <= i < j < |s| && key(s[i]) == k && key(s[j]) == k;
      assert key(s[1..][j - 1]) == k;
    }
    if ExistsBy(s[1..], key, k) {
      var j :| 0 <= j < |s[1..]| && key(s[1..][j]) == k;
      assert key(s[0]) == k && key(s[j + 1]) == k;
    }
  }

  /** Without a matching first document, the matches are those of the rest. */
  lemma ManyByHeadMiss<T, K>(s: seq<T>, key: T -> K, k: K)
    requires |s| > 0 && key(s[0]) != k
    ensures ManyBy(s, key, k) <==> ManyBy(s[1..], key, k)
  {
    var t := s[1..];
    if ManyBy(s, key, k) {
      var i, j :| 0 <= i < j < |s| && key(s[i]) == k && key(s[j]) == k;
      assert key(t[i - 1]) == k && key(t[j - 1]) == k;
    }
    if ManyBy(t, key, k) {
      var i, j :| 0 <= i < j < |t| && key(t[i]) == k && key(t[j]) == k;
      assert key(s[i + 1]) == k && key(s[j + 1]) == k;
    }
  }

  /** `findAllByX(k)` finds more than one document exactly when more than one matches. */
  lemma {:induction false} FilterByMany<T, K>(s: seq<T>, key: T -> K, k: K)
    ensures |FilterBy(s, key, k)| > 1 <==> ManyBy(s, key, k)
  {
    if |s| > 0 {
      var t := s[1..];
      assert |FilterBy(s, key, k)| == (if key(s[0]) == k then 1 else 0) + |FilterBy(t, key, k)|;
      if key(s[0]) == k {
        FilterByExists(t, key, k);
        ManyByHeadMatch(s, key, k);
      } else {
        FilterByMany(t, key, k);
        ManyByHeadMiss(s, key, k);
      }
    }
  }
}
