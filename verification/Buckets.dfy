/**
 Secondary indexes: members grouped by a bucket name, each bucket non-empty and strictly
 sorted. An index is determined by which bucket every member belongs to.
 */
module Buckets {
  import opened Order
  import opened Graph
  import opened Repeats

  /** `at` tells the bucket of every member; `m` is the index of exactly those members. */
  ghost predicate IsBuckets<K(!new), V(!new)>(m: map<K, seq<V>>, at: map<V, K>, cmp: (V, V) -> Ordering) {
    && (forall k :: k in m <==> k in at.Values)
    && (forall k :: k in m ==> Sorted(m[k], cmp))
    && (forall k, v :: k in m ==> (v in m[k] <==> v in at && at[v] == k))
  }

  /** A bucket is the sorted list of its members; a bucket without members does not exist. */
  lemma BucketIs<K(!new), V(!new)>(m: map<K, seq<V>>, at: map<V, K>, cmp: (V, V) -> Ordering, k: K, members: seq<V>)
    requires TotalOrder(cmp) && IsBuckets(m, at, cmp) && Sorted(members, cmp)
    requires forall v :: v in members <==> v in at && at[v] == k
    ensures (if k in m then m[k] else []) == members
  {
    assert forall v :: v in members ==> at[v] in at.Values;
    assert members != [] ==> members[0] in members;
    if k in m {
      assert forall v :: v in m[k] <==> v in at && at[v] == k;
      SortedUnique(m[k], members, cmp);
    } else {
      assert forall v :: v !in members;
    }
  }

  /** Two indexes of the same members are the same index. */
  lemma BucketsUnique<K(!new), V(!new)>(m: map<K, seq<V>>, n: map<K, seq<V>>, at: map<V, K>, cmp: (V, V) -> Ordering)
    requires TotalOrder(cmp) && IsBuckets(m, at, cmp) && IsBuckets(n, at, cmp)
    ensures m == n
  {
    forall k | k in m ensures m[k] == n[k] {
      assert forall v :: v in n[k] <==> v in at && at[v] == k;
      BucketIs(m, at, cmp, k, n[k]);
    }
  }

  /** Where a binary search of a sorted vector ends: the first element not below `value`. */
  function Position<V>(values: seq<V>, value: V, cmp: (V, V) -> Ordering): (p: nat)
    ensures p <= |values|
    ensures forall i :: 0 <= i < p ==> cmp(values[i], value) == Less
    ensures p < |values| ==> cmp(values[p], value) != Less
  {
    if values == [] || cmp(values[0], value) != Less then 0 else
      var p := Position(values[1..], value, cmp);
      assert forall i :: 0 < i < p + 1 ==> values[i] == values[1..][i - 1];
      p + 1
  }

  predicate FoundAt<V>(values: seq<V>, p: nat, value: V, cmp: (V, V) -> Ordering) {
    p < |values| && cmp(values[p], value) == Equal
  }

  datatype BucketError = DuplicateEntry | MissingBucket | MissingEntry

  function InsertSorted<V>(values: seq<V>, value: V, cmp: (V, V) -> Ordering): Result<seq<V>, BucketError> {
    var p := Position(values, value, cmp);
    if FoundAt(values, p, value, cmp) then Err(DuplicateEntry) else Ok(values[..p] + [value] + values[p..])
  }

  function InsertBucket<K, V>(m: map<K, seq<V>>, k: K, value: V, cmp: (V, V) -> Ordering)
    : Result<map<K, seq<V>>, BucketError>
  {
    var inserted := InsertSorted(if k in m then m[k] else [], value, cmp);
    if inserted.Err? then Err(inserted.error) else Ok(m[k := inserted.value])
  }

  /** Remove one entry, and its bucket with the last entry. */
  function RemoveBucket<K, V>(m: map<K, seq<V>>, k: K, value: V, cmp: (V, V) -> Ordering)
    : Result<map<K, seq<V>>, BucketError>
  {
    if k !in m then Err(MissingBucket) else
      var p := Position(m[k], value, cmp);
      if !FoundAt(m[k], p, value, cmp) then Err(MissingEntry) else
        var rest := m[k][..p] + m[k][p + 1..];
        Ok(if rest == [] then m - {k} else m[k := rest])
  }

  lemma PositionOfMember<V(!new)>(values: seq<V>, value: V, cmp: (V, V) -> Ordering)
    requires TotalOrder(cmp) && Sorted(values, cmp)
    ensures var p := Position(values, value, cmp);
            (FoundAt(values, p, value, cmp) <==> value in values) && (value in values ==> values[p] == value)
  {
    var p := Position(values, value, cmp);
    if value in values {
      var i :| 0 <= i < |values| && values[i] == value;
      assert cmp(value, value) == Equal;
      assert forall j :: p < j < |values| ==> cmp(values[p], values[j]) == Less;
    }
  }

  lemma InsertAtSorted<V(!new)>(values: seq<V>, p: nat, value: V, cmp: (V, V) -> Ordering)
    requires TotalOrder(cmp) && Sorted(values, cmp) && p <= |values|
    requires forall i :: 0 <= i < p ==> cmp(values[i], value) == Less
    requires p < |values| ==> cmp(values[p], value) == Greater
    ensures var r := values[..p] + [value] + values[p..];
            Sorted(r, cmp) && forall x :: x in r <==> x in values || x == value
  {
    var r := values[..p] + [value] + values[p..];
    forall i | p <= i < |values| ensures cmp(value, values[i]) == Less {
      assert cmp(value, values[p]) == Less;
      assert p < i ==> cmp(values[p], values[i]) == Less;
    }
    forall i, j | 0 <= i < j < |r| ensures cmp(r[i], r[j]) == Less {
      var x := if i < p then i else i - 1;
      var y := if j < p then j else j - 1;
      assert i != p ==> r[i] == values[x];
      assert j != p ==> r[j] == values[y];
    }
    assert values == values[..p] + values[p..];
  }

  lemma InsertSortedOk<V(!new)>(values: seq<V>, value: V, cmp: (V, V) -> Ordering)
    requires TotalOrder(cmp) && Sorted(values, cmp) && value !in values
    ensures InsertSorted(values, value, cmp).Ok?
    ensures var r := InsertSorted(values, value, cmp).value;
            Sorted(r, cmp) && forall x :: x in r <==> x in values || x == value
  {
    PositionOfMember(values, value, cmp);
    var p := Position(values, value, cmp);
    InsertAtSorted(values, p, value, cmp);
  }

  lemma InsertBucketOk<K(!new), V(!new)>(m: map<K, seq<V>>, at: map<V, K>, k: K, value: V, cmp: (V, V) -> Ordering)
    requires TotalOrder(cmp) && IsBuckets(m, at, cmp) && value !in at
    ensures InsertBucket(m, k, value, cmp).Ok?
    ensures IsBuckets(InsertBucket(m, k, value, cmp).value, at[value := k], cmp)
  {
    hide TotalOrder, InsertSorted;
    var values := if k in m then m[k] else [];
    InsertSortedOk(values, value, cmp);
    var now := at[value := k];
    forall j ensures j in now.Values <==> j == k || j in at.Values {
      if j == k { assert now[value] == k; }
      if j in at.Values {
        var v :| v in at && at[v] == j;
        assert now[v] == j;
      }
    }
  }

  lemma RemoveFrom<K(!new), V(!new)>(m: map<K, seq<V>>, at: map<V, K>, value: V, rest: seq<V>, cmp: (V, V) -> Ordering)
    requires IsBuckets(m, at, cmp) && value in at && at[value] in m && Sorted(rest, cmp)
    requires forall x :: x in rest <==> x in m[at[value]] && x != value
    ensures IsBuckets(if rest == [] then m - {at[value]} else m[at[value] := rest], at - {value}, cmp)
  {
    var k := at[value];
    var now := at - {value};
    forall j ensures j in now.Values <==> (j != k && j in at.Values) || (j == k && rest != []) {
      if j != k && j in at.Values {
        var v :| v in at && at[v] == j;
        assert now[v] == j;
      }
      if j == k && rest != [] {
        assert rest[0] in rest;
        assert now[rest[0]] == k;
      }
      if j in now.Values {
        var v :| v in now && now[v] == j;
        assert j == k ==> v in rest;
      }
    }
  }

  lemma RestOfSorted<V(!new)>(values: seq<V>, p: nat, cmp: (V, V) -> Ordering)
    requires TotalOrder(cmp) && Sorted(values, cmp) && p < |values|
    ensures var rest := values[..p] + values[p + 1..];
            Sorted(rest, cmp) && forall x :: x in rest <==> x in values && x != values[p]
  {
    var rest := values[..p] + values[p + 1..];
    assert cmp(values[p], values[p]) == Equal;
    forall x ensures x in rest <==> x in values && x != values[p] {
      if x in values && x != values[p] {
        var i :| 0 <= i < |values| && values[i] == x;
        assert rest[if i < p then i else i - 1] == x;
      }
      if x in rest {
        var i :| 0 <= i < |rest| && rest[i] == x;
        var j := if i < p then i else i + 1;
        assert values[j] == x;
        assert j < p ==> cmp(values[j], values[p]) == Less;
        assert p < j ==> cmp(values[p], values[j]) == Less;
      }
    }
  }

  lemma RemoveBucketOk<K(!new), V(!new)>(m: map<K, seq<V>>, at: map<V, K>, value: V, cmp: (V, V) -> Ordering)
    requires TotalOrder(cmp) && IsBuckets(m, at, cmp) && value in at
    ensures RemoveBucket(m, at[value], value, cmp).Ok?
    ensures IsBuckets(RemoveBucket(m, at[value], value, cmp).value, at - {value}, cmp)
  {
    hide TotalOrder, Position;
    var k := at[value];
    assert k in at.Values;
    PositionOfMember(m[k], value, cmp);
    var p := Position(m[k], value, cmp);
    RestOfSorted(m[k], p, cmp);
    RemoveFrom(m, at, value, m[k][..p] + m[k][p + 1..], cmp);
  }

  // ----- Building in bulk: append first, sort at the end

  /** Like `IsBuckets`, with the members of each bucket in any order. */
  ghost predicate IsLoose<K(!new), V(!new)>(m: map<K, seq<V>>, at: map<V, K>) {
    && (forall k :: k in m <==> k in at.Values)
    && (forall k :: k in m ==> NoRepeats(m[k]))
    && (forall k, v :: k in m ==> (v in m[k] <==> v in at && at[v] == k))
  }

  function PushBucket<K, V>(m: map<K, seq<V>>, k: K, value: V): map<K, seq<V>> {
    m[k := (if k in m then m[k] else []) + [value]]
  }

  lemma PushKeepsLoose<K(!new), V(!new)>(m: map<K, seq<V>>, at: map<V, K>, k: K, value: V)
    requires IsLoose(m, at) && value !in at
    ensures IsLoose(PushBucket(m, k, value), at[value := k])
  {
    var now := at[value := k];
    forall j ensures j in now.Values <==> j == k || j in at.Values {
      if j == k { assert now[value] == k; }
      if j in at.Values {
        var v :| v in at && at[v] == j;
        assert now[v] == j;
      }
    }
  }

  function SortBy<V>(values: seq<V>, cmp: (V, V) -> Ordering): seq<V> {
    if values == [] then [] else
      var rest := SortBy(values[1..], cmp);
      var p := Position(rest, values[0], cmp);
      rest[..p] + [values[0]] + rest[p..]
  }

  function SortBuckets<K, V>(m: map<K, seq<V>>, cmp: (V, V) -> Ordering): map<K, seq<V>> {
    map k | k in m :: SortBy(m[k], cmp)
  }

  lemma {:induction false} SortBySorts<V(!new)>(values: seq<V>, cmp: (V, V) -> Ordering)
    requires TotalOrder(cmp) && NoRepeats(values)
    ensures Sorted(SortBy(values, cmp), cmp)
    ensures forall x :: x in SortBy(values, cmp) <==> x in values
  {
    hide TotalOrder, Position;
    if values == [] {
    } else {
      SortBySorts(values[1..], cmp);
      var rest := SortBy(values[1..], cmp);
      assert values == [values[0]] + values[1..];
      InsertSortedOk(rest, values[0], cmp);
    }
  }

  lemma SortLoose<K(!new), V(!new)>(m: map<K, seq<V>>, at: map<V, K>, cmp: (V, V) -> Ordering)
    requires TotalOrder(cmp) && IsLoose(m, at)
    ensures IsBuckets(SortBuckets(m, cmp), at, cmp)
  {
    hide TotalOrder, SortBy;
    forall k | k in m
      ensures Sorted(SortBy(m[k], cmp), cmp)
      ensures forall x :: x in SortBy(m[k], cmp) <==> x in m[k]
    {
      SortBySorts(m[k], cmp);
    }
  }
}
