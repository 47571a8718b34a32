/**
 Bounded ordered pages with an exclusive cursor, and what following the cursors yields.
 */
module Paging {
  import opened Order
  import opened Graph

  datatype GraphPage<+T, +C> = GraphPage(items: seq<T>, next: Option<C>)

  /** Strictly increasing cursors. */
  ghost predicate SortedCursors<T, C(!new)>(values: seq<(C, T)>, cmp: (C, C) -> Ordering) {
    forall i, j :: 0 <= i < j < |values| ==> cmp(values[i].0, values[j].0) == Less
  }

  predicate IsAfter<C>(cursor: C, after: Option<C>, cmp: (C, C) -> Ordering) {
    after.None? || cmp(cursor, after.value) == Greater
  }

  /** The values whose cursor lies strictly after `after`. */
  function After<T, C>(values: seq<(C, T)>, after: Option<C>, cmp: (C, C) -> Ordering): seq<(C, T)> {
    if values == [] then [] else
    (if IsAfter(values[0].0, after, cmp) then [values[0]] else []) + After(values[1..], after, cmp)
  }

  function Payloads<T, C>(values: seq<(C, T)>): (r: seq<T>)
    ensures |r| == |values|
  {
    seq(|values|, i requires 0 <= i < |values| => values[i].1)
  }

  /** One page: filter past the cursor, cut at `limit`, and point on only when something was cut. */
  function PageBy<T, C>(values: seq<(C, T)>, after: Option<C>, cmp: (C, C) -> Ordering, limit: nat): GraphPage<T, C>
    requires limit > 0
  {
    var rest := After(values, after, cmp);
    var hasMore := |rest| > limit;
    var kept := if hasMore then rest[..limit] else rest;
    GraphPage(Payloads(kept), if hasMore then Some(kept[|kept| - 1].0) else None)
  }

  /**
   What a reader promises for a request: an initial part of the suffix after the cursor, no
   longer than asked for, whole exactly when no next cursor is given; a next cursor names the
   last item of a non-empty page that leaves something to read.
   */
  ghost predicate IsPage<T, C>(values: seq<(C, T)>, after: Option<C>, cmp: (C, C) -> Ordering, limit: nat,
                               page: GraphPage<T, C>)
  {
    var rest := After(values, after, cmp);
    var n := |page.items|;
    && n <= limit && n <= |rest|
    && page.items == Payloads(rest[..n])
    && (page.next.None? <==> n == |rest|)
    && (page.next.Some? ==> n > 0 && page.next.value == rest[n - 1].0)
  }

  lemma PageByKeepsContract<T, C>(values: seq<(C, T)>, after: Option<C>, cmp: (C, C) -> Ordering, limit: nat)
    requires limit > 0
    ensures IsPage(values, after, cmp, limit, PageBy(values, after, cmp, limit))
  {
    var rest := After(values, after, cmp);
    assert rest[..|rest|] == rest;
  }

  lemma {:induction false} AfterNone<T, C>(values: seq<(C, T)>, cmp: (C, C) -> Ordering)
    ensures After(values, None, cmp) == values
  {
    if values == [] {
    } else {
      AfterNone(values[1..], cmp);
    }
  }

  lemma {:induction false} AfterAll<T, C(!new)>(values: seq<(C, T)>, c: C, cmp: (C, C) -> Ordering)
    requires forall v :: v in values ==> cmp(v.0, c) == Greater
    ensures After(values, Some(c), cmp) == values
  {
    if values == [] {
    } else {
      AfterAll(values[1..], c, cmp);
    }
  }

  /** In a sorted list the values after any cursor, present or not, form a suffix. */
  lemma {:induction false} AfterIsSuffix<T, C(!new)>(values: seq<(C, T)>, c: C, cmp: (C, C) -> Ordering)
    returns (k: nat)
    requires TotalOrder(cmp) && SortedCursors(values, cmp)
    ensures k <= |values| && After(values, Some(c), cmp) == values[k..]
    ensures forall i :: 0 <= i < k ==> cmp(values[i].0, c) != Greater
    ensures forall i :: k <= i < |values| ==> cmp(values[i].0, c) == Greater
  {
    if values == [] {
      k := 0;
    } else if cmp(values[0].0, c) == Greater {
      k := 0;
      forall i | 0 <= i < |values| ensures cmp(values[i].0, c) == Greater {
        assert i > 0 ==> cmp(values[0].0, values[i].0) == Less;
        assert cmp(c, values[0].0) == Less;
      }
      AfterAll(values, c, cmp);
    } else {
      var j := AfterIsSuffix(values[1..], c, cmp);
      k := j + 1;
      forall i | 0 <= i < |values|
        ensures i < k ==> cmp(values[i].0, c) != Greater
        ensures k <= i ==> cmp(values[i].0, c) == Greater
      {
        assert i > 0 ==> values[i] == values[1..][i - 1];
      }
    }
  }

  /** Continuing from the cursor of an item resumes right behind that item. */
  lemma Resume<T, C(!new)>(values: seq<(C, T)>, after: Option<C>, cmp: (C, C) -> Ordering, n: nat)
    requires TotalOrder(cmp) && SortedCursors(values, cmp)
    requires 0 < n <= |After(values, after, cmp)|
    ensures var rest := After(values, after, cmp);
            After(values, Some(rest[n - 1].0), cmp) == rest[n..]
  {
    var rest := After(values, after, cmp);
    var start: nat := 0;
    if after.None? {
      AfterNone(values, cmp);
    } else {
      start := AfterIsSuffix(values, after.value, cmp);
    }
    assert rest == values[start..];
    var last := start + n - 1;
    var c := values[last].0;
    var k := AfterIsSuffix(values, c, cmp);
    assert cmp(c, c) == Equal;
    assert k > last;
    assert last + 1 < |values| ==> cmp(values[last].0, values[last + 1].0) == Less;
    assert last + 1 < |values| ==> cmp(values[last + 1].0, c) == Greater;
    assert k == last + 1;
  }

  /** All items met when every next cursor is followed; `limits(i)` bounds the i-th page. */
  ghost function Follow<T, C(!new)>(values: seq<(C, T)>, after: Option<C>, cmp: (C, C) -> Ordering,
                                    limits: nat -> nat, i: nat): seq<T>
    requires TotalOrder(cmp) && SortedCursors(values, cmp)
    requires forall j :: limits(j) > 0
    decreases |After(values, after, cmp)|
  {
    var page := PageBy(values, after, cmp, limits(i));
    PageByKeepsContract(values, after, cmp, limits(i));
    if page.next.None? then page.items
    else
      Resume(values, after, cmp, |page.items|);
      page.items + Follow(values, page.next, cmp, limits, i + 1)
  }

  /** Whatever the page sizes, following the cursors yields the suffix after the start, once each, in order. */
  lemma {:induction false} FollowYieldsSuffix<T, C(!new)>(values: seq<(C, T)>, after: Option<C>,
                                                          cmp: (C, C) -> Ordering,
                                                          limits: nat -> nat, i: nat)
    requires TotalOrder(cmp) && SortedCursors(values, cmp)
    requires forall j :: limits(j) > 0
    ensures Follow(values, after, cmp, limits, i) == Payloads(After(values, after, cmp))
    decreases |After(values, after, cmp)|
  {
    hide PageBy, After, TotalOrder, SortedCursors;
    var page := PageBy(values, after, cmp, limits(i));
    PageByKeepsContract(values, after, cmp, limits(i));
    var rest := After(values, after, cmp);
    assert rest[..|rest|] == rest;
    if page.next.None? {
    } else {
      Resume(values, after, cmp, |page.items|);
      FollowYieldsSuffix(values, page.next, cmp, limits, i + 1);
      assert Payloads(rest[..|page.items|]) + Payloads(rest[|page.items|..]) == Payloads(rest);
    }
  }
}
