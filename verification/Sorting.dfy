/** Sorting by a total order, whose result is the same whatever the algorithm, and the
    lexicographic order of sequences.

    The sources call the sort of their standard library. Which algorithm that is does not
    matter for a total order: there is exactly one sorted arrangement of given elements, and
    two lists have the same one exactly if they hold the same elements equally often. So an
    insertion sort stands for all of them. Orders are built up from characters over strings,
    pairs and lists of pairs to whole nested tuples, and each of them is total again. */
module Sorting {

  /** `less` orders any two different values one way, and is transitive. */
  ghost predicate StrictOrder<T(!new)>(less: (T, T) -> bool) {
    && (forall x :: !less(x, x))
    && (forall x, y :: less(x, y) || less(y, x) || x == y)
    && (forall x, y, z :: less(x, y) && less(y, z) ==> less(x, z))
  }

  predicate IsSorted<T>(less: (T, T) -> bool, xs: seq<T>) {
    forall i, j :: 0 <= i < j < |xs| ==> !less(xs[j], xs[i])
  }

  function Insert<T>(less: (T, T) -> bool, x: T, xs: seq<T>): seq<T> {
    if xs == [] || !less(xs[0], x) then [x] + xs else [xs[0]] + Insert(less, x, xs[1..])
  }

  function Sort<T>(less: (T, T) -> bool, xs: seq<T>): seq<T> {
    if xs == [] then [] else Insert(less, xs[0], Sort(less, xs[1..]))
  }

  lemma {:induction false} InsertSorts<T(!new)>(less: (T, T) -> bool, x: T, xs: seq<T>)
    requires StrictOrder(less) && IsSorted(less, xs)
    ensures IsSorted(less, Insert(less, x, xs))
    ensures multiset(Insert(less, x, xs)) == multiset{x} + multiset(xs)
  {
    if xs == [] || !less(xs[0], x) {
      forall j | 0 < j < |[x] + xs| ensures !less(([x] + xs)[j], x) {
        assert !less(xs[j - 1], xs[0]) || j == 1;
      }
    } else {
      var rest := Insert(less, x, xs[1..]);
      InsertSorts(less, x, xs[1..]);
      assert xs == [xs[0]] + xs[1..];
      forall y | y in rest ensures !less(y, xs[0]) {
        assert y in multiset(rest);
        assert y == x || y in xs[1..];
      }
    }
  }

  lemma {:induction false} SortSorts<T(!new)>(less: (T, T) -> bool, xs: seq<T>)
    requires StrictOrder(less)
    ensures IsSorted(less, Sort(less, xs))
    ensures multiset(Sort(less, xs)) == multiset(xs)
    ensures |Sort(less, xs)| == |xs|
  {
    if xs != [] {
      SortSorts(less, xs[1..]);
      InsertSorts(less, xs[0], Sort(less, xs[1..]));
      assert xs == [xs[0]] + xs[1..];
    }
    assert |multiset(Sort(less, xs))| == |multiset(xs)|;
  }

  lemma {:induction false} HeadIsLeast<T(!new)>(less: (T, T) -> bool, xs: seq<T>, y: T)
    requires StrictOrder(less) && IsSorted(less, xs) && y in multiset(xs)
    ensures !less(y, xs[0])
    ensures IsSorted(less, xs[1..])
    ensures multiset(xs) == multiset{xs[0]} + multiset(xs[1..])
  {
    var j :| 0 <= j < |xs| && xs[j] == y;
    assert xs == [xs[0]] + xs[1..];
  }

  lemma {:induction false} SameTails<T>(xs: seq<T>, ys: seq<T>)
    requires multiset(xs) == multiset(ys) && xs != [] && ys != [] && xs[0] == ys[0]
    ensures multiset(xs[1..]) == multiset(ys[1..])
    ensures xs[1..] == ys[1..] ==> xs == ys
  {
    assert xs == [xs[0]] + xs[1..] && ys == [ys[0]] + ys[1..];
    assert multiset(xs[1..]) == multiset(xs) - multiset{xs[0]};
    assert multiset(ys[1..]) == multiset(ys) - multiset{ys[0]};
  }

  /** There is only one way to sort. */
  lemma {:induction false} SortedUnique<T(!new)>(less: (T, T) -> bool, xs: seq<T>, ys: seq<T>)
    requires StrictOrder(less) && IsSorted(less, xs) && IsSorted(less, ys)
    requires multiset(xs) == multiset(ys)
    ensures xs == ys
  {
    hide StrictOrder, IsSorted;
    assert |multiset(xs)| == |multiset(ys)|;
    if xs != [] {
      assert xs[0] in multiset(xs) && ys[0] in multiset(ys);
      HeadIsLeast(less, xs, ys[0]);
      HeadIsLeast(less, ys, xs[0]);
      Alike(less, xs[0], ys[0]);
      SameTails(xs, ys);
      SortedUnique(less, xs[1..], ys[1..]);
    }
  }

  lemma {:induction false} Alike<T(!new)>(less: (T, T) -> bool, x: T, y: T)
    requires StrictOrder(less) && !less(x, y) && !less(y, x)
    ensures x == y
  {
  }

  /** Sorting identifies exactly the sequences with the same elements. */
  lemma {:induction false} SortIsMultiset<T(!new)>(less: (T, T) -> bool, xs: seq<T>, ys: seq<T>)
    requires StrictOrder(less)
    ensures Sort(less, xs) == Sort(less, ys) <==> multiset(xs) == multiset(ys)
  {
    SortSorts(less, xs);
    SortSorts(less, ys);
    if multiset(xs) == multiset(ys) {
      SortedUnique(less, Sort(less, xs), Sort(less, ys));
    }
  }

  /** The order of sequences by their first difference, a proper prefix first. */
  predicate SeqLess<T(==)>(less: (T, T) -> bool, xs: seq<T>, ys: seq<T>) {
    ys != [] && (xs == [] || (if xs[0] == ys[0] then SeqLess(less, xs[1..], ys[1..]) else less(xs[0], ys[0])))
  }

  lemma {:induction false} SeqTrichotomy<T(!new)>(less: (T, T) -> bool, xs: seq<T>, ys: seq<T>)
    requires StrictOrder(less)
    ensures SeqLess(less, xs, ys) || SeqLess(less, ys, xs) || xs == ys
    ensures !SeqLess(less, xs, xs)
    decreases |xs|
  {
    if xs != [] {
      SeqTrichotomy(less, xs[1..], if ys == [] then [] else ys[1..]);
      if ys != [] && xs[0] == ys[0] {
        assert xs == [xs[0]] + xs[1..] && ys == [ys[0]] + ys[1..];
      }
    }
  }

  lemma {:induction false} SeqTransitive<T(!new)>(less: (T, T) -> bool, xs: seq<T>, ys: seq<T>, zs: seq<T>)
    requires StrictOrder(less) && SeqLess(less, xs, ys) && SeqLess(less, ys, zs)
    ensures SeqLess(less, xs, zs)
    decreases |xs|
  {
    if xs != [] && xs[0] == ys[0] && ys[0] == zs[0] {
      SeqTransitive(less, xs[1..], ys[1..], zs[1..]);
    }
  }

  /** One sequence is less than another if it is the beginning of it, or less at the first place
      where they differ. */
  lemma {:induction false} SeqLessIs<T>(less: (T, T) -> bool, xs: seq<T>, ys: seq<T>)
    ensures SeqLess(less, xs, ys) <==>
            exists k :: 0 <= k <= |xs| && k < |ys| && xs[..k] == ys[..k]
                        && (k == |xs| || (xs[k] != ys[k] && less(xs[k], ys[k])))
  {
    if xs != [] && ys != [] && xs[0] == ys[0] {
      SeqLessIs(less, xs[1..], ys[1..]);
      if k :| 0 <= k <= |xs[1..]| && k < |ys[1..]| && xs[1..][..k] == ys[1..][..k]
              && (k == |xs[1..]| || (xs[1..][k] != ys[1..][k] && less(xs[1..][k], ys[1..][k])))
      {
        assert xs[..k + 1] == [xs[0]] + xs[1..][..k] && ys[..k + 1] == [ys[0]] + ys[1..][..k];
      }
      if k :| 0 <= k <= |xs| && k < |ys| && xs[..k] == ys[..k]
              && (k == |xs| || (xs[k] != ys[k] && less(xs[k], ys[k])))
      {
        assert xs[1..][..k - 1] == xs[..k][1..] && ys[1..][..k - 1] == ys[..k][1..];
      }
    } else if SeqLess(less, xs, ys) {
      assert xs[..0] == ys[..0];
    }
  }

  predicate CharLess(a: char, b: char) { a < b }

  predicate StringLess(a: string, b: string) { SeqLess(CharLess, a, b) }

  lemma {:induction false} StringOrder()
    ensures StrictOrder(StringLess)
  {
    assert StrictOrder(CharLess);
    forall x: string, y: string
      ensures !StringLess(x, x) && (StringLess(x, y) || StringLess(y, x) || x == y)
    {
      SeqTrichotomy(CharLess, x, y);
    }
    forall x: string, y: string, z: string | StringLess(x, y) && StringLess(y, z)
      ensures StringLess(x, z)
    {
      SeqTransitive(CharLess, x, y, z);
    }
  }
}
