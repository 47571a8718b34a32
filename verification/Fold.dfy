/**
 Totals over a collection, grouped totals, and why neither depends on the order of the items.
 */
module Fold {
  import opened Repeats

  /** A merge with no preferred order. */
  ghost predicate Mergeable<T(!new)>(merge: (T, T) -> T, zero: T) {
    && (forall x :: merge(zero, x) == x && merge(x, zero) == x)
    && (forall x, y :: merge(x, y) == merge(y, x))
    && (forall x, y, z :: merge(merge(x, y), z) == merge(x, merge(y, z)))
  }

  /** Start from `zero` and merge each item in turn. */
  ghost function Total<A, T>(items: seq<A>, value: A -> T, merge: (T, T) -> T, zero: T): T {
    if items == [] then zero else
      merge(Total(items[..|items| - 1], value, merge, zero), value(items[|items| - 1]))
  }

  ghost function Only<A, K>(items: seq<A>, key: A -> K, k: K): seq<A> {
    if items == [] then [] else
      var last := |items| - 1;
      Only(items[..last], key, k) + if key(items[last]) == k then [items[last]] else []
  }

  /** The total of each group; groups with no item are absent. */
  ghost predicate IsGrouped<A(!new), K(!new), T(!new)>(
      m: map<K, T>, items: seq<A>, key: A -> K, value: A -> T, merge: (T, T) -> T, zero: T) {
    && (forall k :: k in m <==> exists i :: 0 <= i < |items| && key(items[i]) == k)
    && (forall k :: k in m ==> m[k] == Total(Only(items, key, k), value, merge, zero))
  }

  /** The entry of a key, or the default. */
  ghost function EntryOf<K(!new), T>(m: map<K, T>, zero: T): K -> T {
    (k: K) => if k in m then m[k] else zero
  }

  lemma TotalNext<A, T>(items: seq<A>, x: A, value: A -> T, merge: (T, T) -> T, zero: T)
    ensures Total(items + [x], value, merge, zero) == merge(Total(items, value, merge, zero), value(x))
  {
    assert (items + [x])[..|items|] == items;
  }

  lemma OnlyNext<A, K>(items: seq<A>, x: A, key: A -> K, k: K)
    ensures Only(items + [x], key, k) == Only(items, key, k) + if key(x) == k then [x] else []
  {
    assert (items + [x])[..|items|] == items;
  }

  lemma {:induction false} TotalConcat<A, T(!new)>(a: seq<A>, b: seq<A>, value: A -> T, merge: (T, T) -> T, zero: T)
    requires Mergeable(merge, zero)
    ensures Total(a + b, value, merge, zero) == merge(Total(a, value, merge, zero), Total(b, value, merge, zero))
  {
    if b == [] {
      assert a + b == a;
    } else {
      var last := |b| - 1;
      TotalConcat(a, b[..last], value, merge, zero);
      assert a + b == a + b[..last] + [b[last]];
      TotalNext(a + b[..last], b[last], value, merge, zero);
    }
  }

  lemma Swap<T(!new)>(merge: (T, T) -> T, zero: T, x: T, y: T, z: T)
    requires Mergeable(merge, zero)
    ensures merge(merge(x, y), z) == merge(merge(x, z), y)
  {
    assert merge(merge(x, y), z) == merge(x, merge(y, z));
    assert merge(merge(x, z), y) == merge(x, merge(z, y));
  }

  /** Taking one item out of the middle takes its value out of the total. */
  lemma TotalWithout<A, T(!new)>(front: seq<A>, x: A, back: seq<A>, value: A -> T, merge: (T, T) -> T, zero: T)
    requires Mergeable(merge, zero)
    ensures Total(front + [x] + back, value, merge, zero) == merge(Total(front + back, value, merge, zero), value(x))
  {
    TotalConcat(front + [x], back, value, merge, zero);
    TotalNext(front, x, value, merge, zero);
    TotalConcat(front, back, value, merge, zero);
    Swap(merge, zero, Total(front, value, merge, zero), value(x), Total(back, value, merge, zero));
  }

  lemma SplitAt<A>(s: seq<A>, x: A) returns (front: seq<A>, back: seq<A>)
    requires x in multiset(s)
    ensures s == front + [x] + back && multiset(front + back) == multiset(s) - multiset{x}
  {
    var i :| 0 <= i < |s| && s[i] == x;
    front, back := s[..i], s[i + 1..];
    assert s == front + [x] + back;
  }

  /** The order of the items does not matter. */
  lemma {:induction false} TotalPermutes<A, T(!new)>(a: seq<A>, b: seq<A>, value: A -> T, merge: (T, T) -> T, zero: T)
    requires Mergeable(merge, zero) && multiset(a) == multiset(b)
    ensures Total(a, value, merge, zero) == Total(b, value, merge, zero)
  {
    hide Mergeable;
    if a == [] {
      assert |multiset(b)| == 0;
    } else {
      var x := a[|a| - 1];
      var init := a[..|a| - 1];
      assert a == init + [x];
      var front, back := SplitAt(b, x);
      assert multiset(init) == multiset(front + back);
      TotalNext(init, x, value, merge, zero);
      TotalWithout(front, x, back, value, merge, zero);
      TotalPermutes(init, front + back, value, merge, zero);
    }
  }

  lemma {:induction false} OnlyContains<A, K>(items: seq<A>, key: A -> K, k: K, x: A)
    ensures x in Only(items, key, k) <==> x in items && key(x) == k
  {
    if items == [] {
    } else {
      var last := |items| - 1;
      OnlyContains(items[..last], key, k, x);
      assert items == items[..last] + [items[last]];
    }
  }

  lemma {:induction false} OnlyConcat<A, K>(a: seq<A>, b: seq<A>, key: A -> K, k: K)
    ensures Only(a + b, key, k) == Only(a, key, k) + Only(b, key, k)
  {
    if b == [] {
      assert a + b == a;
    } else {
      var last := |b| - 1;
      OnlyConcat(a, b[..last], key, k);
      assert a + b == a + b[..last] + [b[last]];
      OnlyNext(a + b[..last], b[last], key, k);
    }
  }

  lemma {:induction false} OnlyPermutes<A, K>(a: seq<A>, b: seq<A>, key: A -> K, k: K)
    requires multiset(a) == multiset(b)
    ensures multiset(Only(a, key, k)) == multiset(Only(b, key, k))
  {
    hide Only;
    if a == [] {
      assert |multiset(b)| == 0;
    } else {
      var x := a[|a| - 1];
      var init := a[..|a| - 1];
      assert a == init + [x];
      var front, back := SplitAt(b, x);
      assert multiset(init) == multiset(front + back);
      OnlyNext(init, x, key, k);
      OnlyConcat(front + [x], back, key, k);
      OnlyNext(front, x, key, k);
      OnlyConcat(front, back, key, k);
      OnlyPermutes(init, front + back, key, k);
    }
  }

  lemma KeysPermute<A, K>(a: seq<A>, b: seq<A>, key: A -> K, k: K)
    requires multiset(a) == multiset(b) && exists i :: 0 <= i < |a| && key(a[i]) == k
    ensures exists i :: 0 <= i < |b| && key(b[i]) == k
  {
    var i :| 0 <= i < |a| && key(a[i]) == k;
    assert a[i] in multiset(b);
  }

  /** Nor does it matter for the groups. */
  lemma GroupsPermute<A(!new), K(!new), T(!new)>(
      m: map<K, T>, a: seq<A>, b: seq<A>, key: A -> K, value: A -> T, merge: (T, T) -> T, zero: T)
    requires Mergeable(merge, zero) && multiset(a) == multiset(b)
    requires IsGrouped(m, a, key, value, merge, zero)
    ensures IsGrouped(m, b, key, value, merge, zero)
  {
    hide Mergeable, Total, Only;
    forall k | k in m
      ensures Total(Only(a, key, k), value, merge, zero) == Total(Only(b, key, k), value, merge, zero)
    {
      OnlyPermutes(a, b, key, k);
      TotalPermutes(Only(a, key, k), Only(b, key, k), value, merge, zero);
    }
    forall k | k in m ensures exists i :: 0 <= i < |b| && key(b[i]) == k {
      KeysPermute(a, b, key, k);
    }
    forall j | 0 <= j < |b| ensures key(b[j]) in m {
      KeysPermute(b, a, key, key(b[j]));
    }
  }

  lemma Regroup<T(!new)>(merge: (T, T) -> T, zero: T, x: T, y: T, z: T)
    requires Mergeable(merge, zero)
    ensures merge(merge(x, y), z) == merge(x, merge(y, z))
  {
  }

  lemma LastOnce<K(!new)>(order: seq<K>)
    requires order != [] && NoRepeats(order)
    ensures var last := |order| - 1;
            && order == order[..last] + [order[last]] && order[last] !in order[..last] && NoRepeats(order[..last])
  {
  }

  /** The total of each group. */
  ghost function TotalOf<A, K(!new), T>(items: seq<A>, key: A -> K, value: A -> T, merge: (T, T) -> T,
                                        zero: T): K -> T
  {
    (k: K) => Total(Only(items, key, k), value, merge, zero)
  }

  lemma GroupGrows<A, K(!new), T(!new)>(items: seq<A>, x: A, key: A -> K, value: A -> T, merge: (T, T) -> T, zero: T,
                                        k: K)
    ensures var before, after := TotalOf(items, key, value, merge, zero), TotalOf(items + [x], key, value, merge, zero);
            after(k) == if key(x) == k then merge(before(k), value(x)) else before(k)
  {
    hide Total, Only;
    OnlyNext(items, x, key, k);
    TotalNext(Only(items, key, k), x, value, merge, zero);
    assert Only(items, key, k) + [] == Only(items, key, k);
  }

  /** One more item moves exactly one group, so it moves the total of the groups by its value. */
  lemma {:induction false} OneGroupGrows<A, K(!new), T(!new)>(
      order: seq<K>, items: seq<A>, x: A, key: A -> K, value: A -> T, merge: (T, T) -> T, zero: T)
    requires Mergeable(merge, zero) && NoRepeats(order)
    ensures var before := Total(order, TotalOf(items, key, value, merge, zero), merge, zero);
            var after := Total(order, TotalOf(items + [x], key, value, merge, zero), merge, zero);
            after == if key(x) in order then merge(before, value(x)) else before
  {
    hide Mergeable, NoRepeats, Only, TotalOf;
    if order == [] {
    } else {
      var last := |order| - 1;
      LastOnce(order);
      OneGroupGrows(order[..last], items, x, key, value, merge, zero);
      GroupGrows(items, x, key, value, merge, zero, order[last]);
      var init := Total(order[..last], TotalOf(items, key, value, merge, zero), merge, zero);
      var group := TotalOf(items, key, value, merge, zero)(order[last]);
      Swap(merge, zero, init, value(x), group);
      Regroup(merge, zero, init, group, value(x));
    }
  }

  lemma {:induction false} EmptyGroups<A, K(!new), T(!new)>(
      order: seq<K>, key: A -> K, value: A -> T, merge: (T, T) -> T, zero: T)
    requires Mergeable(merge, zero)
    ensures Total(order, TotalOf([], key, value, merge, zero), merge, zero) == zero
  {
    if order == [] {
    } else {
      EmptyGroups(order[..|order| - 1], key, value, merge, zero);
    }
  }

  /** Merging the groups, in any order, gives the total of the items. */
  lemma {:induction false} GroupTotalsAddUp<A, K(!new), T(!new)>(
      order: seq<K>, items: seq<A>, key: A -> K, value: A -> T, merge: (T, T) -> T, zero: T)
    requires Mergeable(merge, zero) && NoRepeats(order)
    requires forall i :: 0 <= i < |items| ==> key(items[i]) in order
    ensures Total(order, TotalOf(items, key, value, merge, zero), merge, zero)
         == Total(items, value, merge, zero)
  {
    hide Mergeable;
    if items == [] {
      EmptyGroups(order, key, value, merge, zero);
    } else {
      var last := |items| - 1;
      GroupTotalsAddUp(order, items[..last], key, value, merge, zero);
      assert items == items[..last] + [items[last]];
      OneGroupGrows(order, items[..last], items[last], key, value, merge, zero);
    }
  }

  lemma {:induction false} TotalSameValues<A, T>(items: seq<A>, f: A -> T, g: A -> T, merge: (T, T) -> T, zero: T)
    requires forall x :: x in items ==> f(x) == g(x)
    ensures Total(items, f, merge, zero) == Total(items, g, merge, zero)
  {
    if items == [] {
    } else {
      TotalSameValues(items[..|items| - 1], f, g, merge, zero);
    }
  }

  lemma GroupedEmpty<A(!new), K(!new), T(!new)>(key: A -> K, value: A -> T, merge: (T, T) -> T, zero: T)
    ensures IsGrouped(map[], [], key, value, merge, zero)
  {
  }

  lemma {:induction false} AbsentGroup<A, K, T>(items: seq<A>, key: A -> K, value: A -> T, merge: (T, T) -> T,
                                                zero: T, k: K)
    requires forall i :: 0 <= i < |items| ==> key(items[i]) != k
    ensures Total(Only(items, key, k), value, merge, zero) == zero
  {
    if items == [] {
    } else {
      AbsentGroup(items[..|items| - 1], key, value, merge, zero, k);
      assert Only(items, key, k) == Only(items[..|items| - 1], key, k);
    }
  }

  /** Entry-or-default and merge is one step of grouping. */
  lemma GroupedNext<A(!new), K(!new), T(!new)>(
      m: map<K, T>, items: seq<A>, x: A, key: A -> K, value: A -> T, merge: (T, T) -> T, zero: T)
    requires IsGrouped(m, items, key, value, merge, zero)
    ensures IsGrouped(m[key(x) := merge(if key(x) in m then m[key(x)] else zero, value(x))], items + [x],
                      key, value, merge, zero)
  {
    hide Total, Only;
    var entry := merge(if key(x) in m then m[key(x)] else zero, value(x));
    var after := m[key(x) := entry];
    forall k | k in after ensures after[k] == Total(Only(items + [x], key, k), value, merge, zero) {
      OnlyNext(items, x, key, k);
      TotalNext(Only(items, key, k), x, value, merge, zero);
      assert Only(items, key, k) + [] == Only(items, key, k);
      if k !in m {
        AbsentGroup(items, key, value, merge, zero, k);
      }
    }
    forall k ensures k in after <==> exists i :: 0 <= i < |items + [x]| && key((items + [x])[i]) == k {
      assert (items + [x])[|items|] == x;
      if k in m {
        var i :| 0 <= i < |items| && key(items[i]) == k;
        assert (items + [x])[i] == items[i];
      }
    }
  }

  /** Merging a grouping's entries, in any order, gives the total of the items in any order. */
  lemma GroupsMergeToTotal<A(!new), K(!new), T(!new)>(
      m: map<K, T>, items: seq<A>, shuffled: seq<A>, order: seq<K>, key: A -> K, value: A -> T,
      merge: (T, T) -> T, zero: T)
    requires Mergeable(merge, zero) && multiset(shuffled) == multiset(items)
    requires IsGrouped(m, shuffled, key, value, merge, zero)
    requires NoRepeats(order) && forall k :: k in order <==> k in m
    ensures Total(order, EntryOf(m, zero), merge, zero) == Total(items, value, merge, zero)
  {
    hide Mergeable, Total, Only;
    TotalSameValues(order, EntryOf(m, zero),
                    TotalOf(shuffled, key, value, merge, zero), merge, zero);
    GroupTotalsAddUp(order, shuffled, key, value, merge, zero);
    TotalPermutes(shuffled, items, value, merge, zero);
  }
}
