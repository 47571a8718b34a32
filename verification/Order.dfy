/**
 Comparison results, the laws of a strict total order, and the strictly sorted
 sequence of a finite set. Every ordered container of the system (an ordered map's
 iteration, an adjacency list, a sorted and de-duplicated vector) is such a sequence.
 */
module Order {

  datatype Ordering = Less | Equal | Greater {
    /** Lexicographic continuation: `next` decides only when `this` is a tie. */
    function Then(next: Ordering): Ordering {
      if Equal? then next else this
    }
  }

  ghost predicate TotalOrder<T(!new)>(cmp: (T, T) -> Ordering) {
    && (forall x, y :: cmp(x, y) == Equal <==> x == y)
    && (forall x, y :: cmp(x, y) == Less <==> cmp(y, x) == Greater)
    && (forall x, y, z :: cmp(x, y) == Less && cmp(y, z) == Less ==> cmp(x, z) == Less)
  }

  function CompareInt(x: int, y: int): Ordering {
    if x < y then Less else if x == y then Equal else Greater
  }

  function CompareChar(x: char, y: char): Ordering {
    CompareInt(x as int, y as int)
  }

  /** Element by element; a proper prefix comes first. */
  function CompareSeq<T>(a: seq<T>, b: seq<T>, cmp: (T, T) -> Ordering): Ordering {
    if a == [] then if b == [] then Equal else Less
    else if b == [] then Greater
    else cmp(a[0], b[0]).Then(CompareSeq(a[1..], b[1..], cmp))
  }

  function CompareString(a: string, b: string): Ordering {
    CompareSeq(a, b, CompareChar)
  }

  /** Where two sequences first differ, `Less` for `a`: it has ended, or its next element is smaller. */
  ghost predicate FirstDifferenceLess<T>(a: seq<T>, b: seq<T>, smaller: (T, T) -> bool, k: nat) {
    && k <= |a| && k < |b| && a[..k] == b[..k]
    && (k < |a| ==> smaller(a[k], b[k]))
  }

  /** The order is decided at the first difference. */
  lemma {:induction false} CompareSeqDecides<T(!new)>(a: seq<T>, b: seq<T>, cmp: (T, T) -> Ordering,
                                                     smaller: (T, T) -> bool)
    requires forall x, y :: cmp(x, y) == Equal <==> x == y
    requires forall x, y :: cmp(x, y) == Less <==> smaller(x, y)
    requires forall x :: !smaller(x, x)
    ensures CompareSeq(a, b, cmp) == Less <==> exists k: nat :: FirstDifferenceLess(a, b, smaller, k)
  {
    if a == [] || b == [] {
      assert a == [] && b != [] ==> FirstDifferenceLess(a, b, smaller, 0);
    } else {
      CompareSeqDecides(a[1..], b[1..], cmp, smaller);
      assert a == [a[0]] + a[1..] && b == [b[0]] + b[1..];
      if a[0] != b[0] {
        assert smaller(a[0], b[0]) ==> FirstDifferenceLess(a, b, smaller, 0);
      } else {
        if k: nat :| FirstDifferenceLess(a[1..], b[1..], smaller, k) {
          assert a[..k + 1] == [a[0]] + a[1..][..k] && b[..k + 1] == [b[0]] + b[1..][..k];
          assert FirstDifferenceLess(a, b, smaller, k + 1);
        }
        if k: nat :| FirstDifferenceLess(a, b, smaller, k) {
          assert k > 0;
          assert a[1..][..k - 1] == a[..k][1..] && b[1..][..k - 1] == b[..k][1..];
          assert FirstDifferenceLess(a[1..], b[1..], smaller, k - 1);
        }
      }
    }
  }

  lemma {:induction false} CompareSeqEqual<T(!new)>(a: seq<T>, b: seq<T>, cmp: (T, T) -> Ordering)
    requires TotalOrder(cmp)
    ensures CompareSeq(a, b, cmp) == Equal <==> a == b
    ensures CompareSeq(a, b, cmp) == Less <==> CompareSeq(b, a, cmp) == Greater
  {
    if a == [] || b == [] {
    } else {
      CompareSeqEqual(a[1..], b[1..], cmp);
      assert a == [a[0]] + a[1..] && b == [b[0]] + b[1..];
    }
  }

  /** Strings are ordered by the first character that differs, a proper prefix first. */
  lemma StringsOrderedByFirstDifference(a: string, b: string)
    ensures CompareString(a, b) == Less <==>
            exists k: nat :: k <= |a| && k < |b| && a[..k] == b[..k] && (k < |a| ==> a[k] < b[k])
    ensures CompareString(a, b) == Equal <==> a == b
  {
    var smaller := (c: char, d: char) => c < d;
    CompareSeqDecides(a, b, CompareChar, smaller);
    CompareSeqEqual(a, b, CompareChar);
    if k: nat :| k <= |a| && k < |b| && a[..k] == b[..k] && (k < |a| ==> a[k] < b[k]) {
      assert FirstDifferenceLess(a, b, smaller, k);
    }
  }

  lemma {:induction false} CompareSeqTransitive<T(!new)>(a: seq<T>, b: seq<T>, c: seq<T>, cmp: (T, T) -> Ordering)
    requires TotalOrder(cmp)
    requires CompareSeq(a, b, cmp) == Less && CompareSeq(b, c, cmp) == Less
    ensures CompareSeq(a, c, cmp) == Less
  {
    if a != [] && b != [] && c != [] && a[0] == b[0] == c[0] {
      assert cmp(a[0], b[0]) == Equal && cmp(b[0], c[0]) == Equal;
      CompareSeqTransitive(a[1..], b[1..], c[1..], cmp);
    }
  }

  lemma SeqsTotallyOrdered<T(!new)>(cmp: (T, T) -> Ordering)
    requires TotalOrder(cmp)
    ensures TotalOrder((a: seq<T>, b: seq<T>) => CompareSeq(a, b, cmp))
  {
    forall a: seq<T>, b: seq<T> {
      CompareSeqEqual(a, b, cmp);
    }
    forall a: seq<T>, b: seq<T>, c: seq<T>
      | CompareSeq(a, b, cmp) == Less && CompareSeq(b, c, cmp) == Less
      ensures CompareSeq(a, c, cmp) == Less
    {
      CompareSeqTransitive(a, b, c, cmp);
    }
  }

  /** An order read through an injective key is an order. */
  lemma PullbackTotal<T(!new), K(!new)>(cmp: (T, T) -> Ordering, key: T -> K, base: (K, K) -> Ordering)
    requires TotalOrder(base)
    requires forall x, y :: key(x) == key(y) ==> x == y
    requires forall x, y :: cmp(x, y) == base(key(x), key(y))
    ensures TotalOrder(cmp)
  {
  }

  lemma StringsTotallyOrdered()
    ensures TotalOrder(CompareString)
  {
    SeqsTotallyOrdered(CompareChar);
    PullbackTotal(CompareString, (s: string) => s, (a: string, b: string) => CompareSeq(a, b, CompareChar));
  }

  // ----- Building orders from orders

  /** First component first; the second one breaks ties. */
  function Lex<A, B>(first: (A, A) -> Ordering, second: (B, B) -> Ordering): ((A, B), (A, B)) -> Ordering {
    (x: (A, B), y: (A, B)) => first(x.0, y.0).Then(second(x.1, y.1))
  }

  lemma LexTotal<A(!new), B(!new)>(first: (A, A) -> Ordering, second: (B, B) -> Ordering)
    requires TotalOrder(first) && TotalOrder(second)
    ensures TotalOrder(Lex(first, second))
  {
    var lex := Lex(first, second);
    forall x: (A, B), y: (A, B)
      ensures lex(x, y) == Equal <==> x == y
      ensures lex(x, y) == Less <==> lex(y, x) == Greater
    {
      assert x == (x.0, x.1) && y == (y.0, y.1);
      assert first(x.0, y.0) == Less <==> first(y.0, x.0) == Greater;
      assert first(y.0, x.0) == Less <==> first(x.0, y.0) == Greater;
    }
    forall x: (A, B), y: (A, B), z: (A, B) | lex(x, y) == Less && lex(y, z) == Less
      ensures lex(x, z) == Less
    {
      if first(x.0, y.0) == Equal || first(y.0, z.0) == Equal {
        assert x.0 == y.0 || y.0 == z.0;
      }
    }
  }

  // ----- Sequences

  /** The first `n` elements, or all if there are fewer. */
  function Take<T>(s: seq<T>, n: nat): seq<T> {
    if |s| <= n then s else s[..n]
  }

  // ----- Sorted sequences of finite sets

  ghost predicate Sorted<T(!new)>(s: seq<T>, cmp: (T, T) -> Ordering) {
    forall i, j :: 0 <= i < j < |s| ==> cmp(s[i], s[j]) == Less
  }

  ghost predicate IsLeast<T(!new)>(m: T, s: set<T>, cmp: (T, T) -> Ordering) {
    m in s && forall x :: x in s ==> x == m || cmp(m, x) == Less
  }

  lemma {:induction false} LeastExists<T(!new)>(s: set<T>, cmp: (T, T) -> Ordering)
    requires s != {} && TotalOrder(cmp)
    ensures exists m :: IsLeast(m, s, cmp)
    decreases |s|
  {
    var e :| e in s;
    var rest := s - {e};
    if rest == {} {
      assert forall x :: x in s ==> x == e || x in rest;
      assert IsLeast(e, s, cmp);
    } else {
      LeastExists(rest, cmp);
      var l :| IsLeast(l, rest, cmp);
      assert IsLeast(if cmp(e, l) == Less then e else l, s, cmp);
    }
  }

  /** The elements of `s` in increasing order: the iteration order of an ordered set or map. */
  function SortedSeq<T(!new, ==)>(s: set<T>, cmp: (T, T) -> Ordering): (r: seq<T>)
    requires TotalOrder(cmp)
    ensures Sorted(r, cmp)
    ensures forall x :: x in r <==> x in s
    ensures |r| == |s|
    decreases |s|
  {
    if s == {} then [] else
      LeastExists(s, cmp);
      var m :| m in s && forall x :: x in s ==> x == m || cmp(m, x) == Less;
      [m] + SortedSeq(s - {m}, cmp)
  }

  lemma SortedTail<T(!new)>(a: seq<T>, x: T, cmp: (T, T) -> Ordering)
    requires TotalOrder(cmp) && Sorted(a, cmp) && a != []
    ensures x in a[1..] <==> x in a && x != a[0]
  {
    if x in a && x != a[0] {
      var i :| 0 <= i < |a| && a[i] == x;
      assert a[1..][i - 1] == x;
    }
  }

  /** A strictly sorted sequence is determined by its elements. */
  lemma {:induction false} SortedUnique<T(!new)>(a: seq<T>, b: seq<T>, cmp: (T, T) -> Ordering)
    requires TotalOrder(cmp) && Sorted(a, cmp) && Sorted(b, cmp)
    requires forall x :: x in a <==> x in b
    ensures a == b
  {
    assert a != [] ==> a[0] in b;
    assert b != [] ==> b[0] in a;
    if a == [] {
    } else {
      assert a[0] == b[0];
      forall x ensures x in a[1..] <==> x in b[1..] {
        SortedTail(a, x, cmp);
        SortedTail(b, x, cmp);
      }
      SortedUnique(a[1..], b[1..], cmp);
      assert a == [a[0]] + a[1..] && b == [b[0]] + b[1..];
    }
  }
}
