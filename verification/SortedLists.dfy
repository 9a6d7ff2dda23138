/** The sort and search functions of the slices and sort packages, for any order. The sort is
    specified as a stable one: what compares as 0 stays in its order. The search gives the leftmost
    place of an element that compares as 0, and on a sorted list it finds one whenever there is one.
    Where different elements never compare as 0, as for strings, the sorted list is strict and does
    not depend on the order of its input. */
module SortedLists {
  import opened Ordering

  /** What a total preorder demands of three elements. */
  predicate OrderAt<T>(compare: (T, T) -> int, a: T, b: T, c: T) {
    compare(a, b) == -compare(b, a) && Transitive(compare(a, b), compare(b, c), compare(a, c))
  }

  /** A comparator that is a total preorder. */
  ghost predicate IsOrder<T(!new)>(compare: (T, T) -> int) {
    forall a, b, c {:trigger OrderAt(compare, a, b, c)} :: OrderAt(compare, a, b, c)
  }

  ghost predicate IsSorted<T>(s: seq<T>, compare: (T, T) -> int) {
    forall i, j :: 0 <= i < j < |s| ==> compare(s[i], s[j]) <= 0
  }

  /** Insertion before the first element that is not smaller. */
  function Inserted<T>(x: T, s: seq<T>, compare: (T, T) -> int): (r: seq<T>)
    ensures multiset(r) == multiset{x} + multiset(s)
  {
    if s == [] then [x]
    else if compare(s[0], x) < 0 then
      assert s == [s[0]] + s[1..];
      [s[0]] + Inserted(x, s[1..], compare)
    else [x] + s
  }

  lemma {:induction false} InsertedIsSorted<T(!new)>(x: T, s: seq<T>, compare: (T, T) -> int)
    requires IsOrder(compare) && IsSorted(s, compare)
    ensures IsSorted(Inserted(x, s, compare), compare)
  {
    if s != [] && compare(s[0], x) < 0 {
      var rest := Inserted(x, s[1..], compare);
      InsertedIsSorted(x, s[1..], compare);
      forall i | 0 <= i < |rest| ensures compare(s[0], rest[i]) <= 0 {
        assert rest[i] in multiset(rest);
        assert rest[i] == x || rest[i] in s[1..];
      }
    } else if s != [] {
      forall i | 0 <= i < |s| ensures compare(x, s[i]) <= 0 {
        assert OrderAt(compare, x, s[0], s[i]);
      }
    }
  }

  /** The stable sort: an element goes before the equal ones that came later. */
  function Sorted<T>(s: seq<T>, compare: (T, T) -> int): (r: seq<T>)
    ensures multiset(r) == multiset(s)
  {
    if s == [] then []
    else
      assert s == [s[0]] + s[1..];
      Inserted(s[0], Sorted(s[1..], compare), compare)
  }

  lemma {:induction false} SortedIsSorted<T(!new)>(s: seq<T>, compare: (T, T) -> int)
    requires IsOrder(compare)
    ensures IsSorted(Sorted(s, compare), compare)
  {
    if s != [] {
      SortedIsSorted(s[1..], compare);
      InsertedIsSorted(s[0], Sorted(s[1..], compare), compare);
    }
  }

  /** Strictly ascending: sorted, and no two elements compare as 0. */
  ghost predicate IsStrict<T>(s: seq<T>, compare: (T, T) -> int) {
    forall i, j :: 0 <= i < j < |s| ==> compare(s[i], s[j]) < 0
  }

  lemma {:induction false} InsertedIsStrict<T(!new)>(x: T, s: seq<T>, compare: (T, T) -> int)
    requires IsOrder(compare) && IsStrict(s, compare)
    requires forall i :: 0 <= i < |s| ==> compare(x, s[i]) != 0
    ensures IsStrict(Inserted(x, s, compare), compare)
  {
    if s != [] && compare(s[0], x) < 0 {
      var rest := Inserted(x, s[1..], compare);
      InsertedIsStrict(x, s[1..], compare);
      forall i | 0 <= i < |rest| ensures compare(s[0], rest[i]) < 0 {
        assert rest[i] in multiset(rest);
        assert rest[i] == x || rest[i] in s[1..];
      }
    } else if s != [] {
      assert OrderAt(compare, x, s[0], s[0]);
      forall i | 0 <= i < |s| ensures compare(x, s[i]) < 0 {
        assert OrderAt(compare, x, s[0], s[i]);
      }
    }
  }

  /** Elements of which no two compare as 0 have one strict order. */
  lemma {:induction false} SortedIsStrict<T(!new)>(s: seq<T>, compare: (T, T) -> int)
    requires IsOrder(compare)
    requires forall i, j :: 0 <= i < j < |s| ==> compare(s[i], s[j]) != 0
    ensures IsStrict(Sorted(s, compare), compare)
  {
    if s != [] {
      var rest := Sorted(s[1..], compare);
      SortedIsStrict(s[1..], compare);
      forall i | 0 <= i < |rest| ensures compare(s[0], rest[i]) != 0 {
        assert rest[i] in multiset(rest);
        assert rest[i] in s[1..];
      }
      InsertedIsStrict(s[0], rest, compare);
    }
  }

  lemma SortedHasSame<T>(s: seq<T>, compare: (T, T) -> int)
    ensures forall x :: x in Sorted(s, compare) <==> x in s
  {
    assert forall x :: x in s <==> x in multiset(s);
    assert forall x :: x in Sorted(s, compare) <==> x in multiset(Sorted(s, compare));
  }

  /** The elements that compare as 0 with x, in order. */
  function Ties<T>(s: seq<T>, x: T, compare: (T, T) -> int): seq<T> {
    if s == [] then []
    else (if compare(s[0], x) == 0 then [s[0]] else []) + Ties(s[1..], x, compare)
  }

  lemma {:induction false} TiesHave<T>(s: seq<T>, x: T, compare: (T, T) -> int, d: T)
    ensures d in Ties(s, x, compare) <==> d in s && compare(d, x) == 0
  {
    if s != [] {
      assert s == [s[0]] + s[1..];
      TiesHave(s[1..], x, compare, d);
    }
  }

  lemma {:induction false} TiesConcat<T>(a: seq<T>, b: seq<T>, x: T, compare: (T, T) -> int)
    ensures Ties(a + b, x, compare) == Ties(a, x, compare) + Ties(b, x, compare)
  {
    if a == [] {
      assert a + b == b;
    } else {
      var first, rest := if compare(a[0], x) == 0 then [a[0]] else [], Ties(a[1..], x, compare);
      assert (a + b)[1..] == a[1..] + b;
      TiesConcat(a[1..], b, x, compare);
      assert (first + rest) + Ties(b, x, compare) == first + (rest + Ties(b, x, compare));
    }
  }

  /** The first place with 0 holds the first tie. */
  lemma {:induction false} FirstTie<T>(s: seq<T>, x: T, compare: (T, T) -> int, i: nat)
    requires i <= |s| && forall k :: 0 <= k < i ==> compare(s[k], x) != 0
    requires i < |s| ==> compare(s[i], x) == 0
    ensures i < |s| ==> Ties(s, x, compare) != [] && Ties(s, x, compare)[0] == s[i]
    ensures i == |s| ==> Ties(s, x, compare) == []
  {
    if i > 0 {
      FirstTie(s[1..], x, compare, i - 1);
    }
  }

  /** The first place with 0, when there is one up to `end`. */
  lemma FirstZero<T(!new)>(s: seq<T>, x: T, compare: (T, T) -> int, end: nat) returns (k: nat)
    requires end < |s| && compare(s[end], x) == 0
    ensures k <= end && compare(s[k], x) == 0 && forall i :: 0 <= i < k ==> compare(s[i], x) != 0
  {
    k := 0;
    while compare(s[k], x) != 0
      invariant k <= end && forall i :: 0 <= i < k ==> compare(s[i], x) != 0
      decreases end - k
    {
      k := k + 1;
    }
  }

  /** No two elements compare as 0. */
  ghost predicate NoTies<T(!new)>(s: seq<T>, compare: (T, T) -> int) {
    forall i, j :: 0 <= i < j < |s| ==> compare(s[i], s[j]) != 0
  }

  lemma OnlyTie<T(!new)>(s: seq<T>, x: T, compare: (T, T) -> int, d: T)
    requires IsOrder(compare) && NoTies(s, compare) && d in s && compare(d, x) == 0
    ensures Ties(s, x, compare) != [] && Ties(s, x, compare)[0] == d
  {
    var i :| 0 <= i < |s| && s[i] == d;
    forall k | 0 <= k < i ensures compare(s[k], x) != 0 {
      assert OrderAt(compare, s[k], x, d);
      assert OrderAt(compare, d, x, x);
    }
    FirstTie(s, x, compare, i);
  }

  lemma TiesCons<T>(d: T, s: seq<T>, x: T, compare: (T, T) -> int)
    ensures Ties([d] + s, x, compare) == (if compare(d, x) == 0 then [d] else []) + Ties(s, x, compare)
  {
    assert ([d] + s)[1..] == s;
  }

  lemma NotBothTied<T(!new)>(a: T, d: T, x: T, compare: (T, T) -> int)
    requires IsOrder(compare) && compare(a, d) < 0
    ensures compare(a, x) != 0 || compare(d, x) != 0
  {
    assert OrderAt(compare, a, x, d);
    assert OrderAt(compare, d, x, x);
  }

  /** Neighbours that are not both tied can change places. */
  lemma TiesSwap<T>(a: T, d: T, s: seq<T>, x: T, compare: (T, T) -> int)
    requires compare(a, x) != 0 || compare(d, x) != 0
    ensures Ties([a] + ([d] + s), x, compare) == Ties([d] + ([a] + s), x, compare)
  {
    TiesCons(a, [d] + s, x, compare);
    TiesCons(d, s, x, compare);
    TiesCons(d, [a] + s, x, compare);
    TiesCons(a, s, x, compare);
  }

  lemma InsertedLater<T(!new)>(a: T, d: T, rest: seq<T>, inserted: seq<T>, x: T, compare: (T, T) -> int)
    requires IsOrder(compare) && compare(a, d) < 0
    requires Ties(inserted, x, compare) == Ties([d] + rest, x, compare)
    ensures Ties([a] + inserted, x, compare) == Ties([d] + ([a] + rest), x, compare)
  {
    NotBothTied(a, d, x, compare);
    TiesSwap(a, d, rest, x, compare);
    TiesCons(a, inserted, x, compare);
    TiesCons(a, [d] + rest, x, compare);
  }

  lemma {:induction false} InsertedBeforeTies<T(!new)>(d: T, s: seq<T>, x: T, compare: (T, T) -> int)
    requires IsOrder(compare)
    ensures Ties(Inserted(d, s, compare), x, compare) == Ties([d] + s, x, compare)
  {
    if s != [] && compare(s[0], d) < 0 {
      InsertedBeforeTies(d, s[1..], x, compare);
      InsertedLater(s[0], d, s[1..], Inserted(d, s[1..], compare), x, compare);
      assert s == [s[0]] + s[1..];
    }
  }

  /** Sorting keeps the order of elements that compare as 0. */
  lemma {:induction false} SortIsStable<T(!new)>(s: seq<T>, x: T, compare: (T, T) -> int)
    requires IsOrder(compare)
    ensures Ties(Sorted(s, compare), x, compare) == Ties(s, x, compare)
  {
    if s != [] {
      SortIsStable(s[1..], x, compare);
      InsertedBeforeTies(s[0], Sorted(s[1..], compare), x, compare);
      TiesCons(s[0], Sorted(s[1..], compare), x, compare);
    }
  }

  /** The leftmost place for the target, and whether the element there compares as 0. */
  method BinarySearch<T(!new)>(s: seq<T>, target: T, compare: (T, T) -> int) returns (i: nat, found: bool)
    requires IsOrder(compare) && IsSorted(s, compare)
    ensures i <= |s| && (found ==> i < |s| && compare(s[i], target) == 0)
    ensures found <==> exists k :: 0 <= k < |s| && compare(s[k], target) == 0
    ensures forall k :: 0 <= k < i ==> compare(s[k], target) < 0
  {
    i := 0;
    var j := |s|;
    while i < j
      invariant 0 <= i <= j <= |s|
      invariant forall k :: 0 <= k < i ==> compare(s[k], target) < 0
      invariant forall k :: j <= k < |s| ==> compare(s[k], target) >= 0
    {
      var h := (i + j) / 2;
      AroundPlace(s, h, target, compare);
      if compare(s[h], target) < 0 {
        i := h + 1;
      } else {
        j := h;
      }
    }
    found := i < |s| && compare(s[i], target) == 0;
    if i < |s| {
      AroundPlace(s, i, target, compare);
    }
  }

  lemma AroundPlace<T(!new)>(s: seq<T>, h: nat, target: T, compare: (T, T) -> int)
    requires IsOrder(compare) && IsSorted(s, compare) && h < |s|
    ensures compare(s[h], target) < 0 ==> forall k :: 0 <= k < h ==> compare(s[k], target) < 0
    ensures compare(s[h], target) >= 0 ==> forall k :: h < k < |s| ==> compare(s[k], target) >= 0
    ensures compare(s[h], target) > 0 ==> forall k :: h < k < |s| ==> compare(s[k], target) > 0
  {
    forall k | 0 <= k < |s|
      ensures k < h && compare(s[h], target) < 0 ==> compare(s[k], target) < 0
      ensures h < k && compare(s[h], target) >= 0 ==> compare(s[k], target) >= 0
      ensures h < k && compare(s[h], target) > 0 ==> compare(s[k], target) > 0
    {
      assert OrderAt(compare, s[k], s[h], target);
    }
  }
}
