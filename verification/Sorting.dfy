/** Sorting by a comparison that is a linear order on the elements at hand. */
module Sorting {

  ghost predicate Linear<T(!new)>(le: (T, T) -> bool, xs: seq<T>) {
    && (forall a, b :: a in xs && b in xs ==> (le(a, b) || le(b, a)) && (le(a, b) && le(b, a) ==> a == b))
    && (forall a, b, c :: a in xs && b in xs && c in xs && le(a, b) && le(b, c) ==> le(a, c))
  }

  predicate Sorted<T(!new)>(le: (T, T) -> bool, xs: seq<T>) {
    forall i, j :: 0 <= i < j < |xs| ==> le(xs[i], xs[j])
  }

  function Insert<T(!new)>(le: (T, T) -> bool, x: T, xs: seq<T>): seq<T> {
    if xs == [] || le(x, xs[0]) then [x] + xs else [xs[0]] + Insert(le, x, xs[1..])
  }

  /** What the library's sort returns; it is stable, which no linear order can tell. */
  function Sort<T(!new)>(le: (T, T) -> bool, xs: seq<T>): seq<T> {
    if xs == [] then [] else Insert(le, xs[0], Sort(le, xs[1..]))
  }

  lemma {:induction false} InsertHolds<T(!new)>(le: (T, T) -> bool, x: T, xs: seq<T>)
    ensures multiset(Insert(le, x, xs)) == multiset{x} + multiset(xs)
    decreases |xs|
  {
    if xs != [] && !le(x, xs[0]) {
      InsertHolds(le, x, xs[1..]);
      assert xs == [xs[0]] + xs[1..];
    }
  }

  lemma {:induction false} InsertSorts<T(!new)>(le: (T, T) -> bool, x: T, xs: seq<T>)
    requires Linear(le, [x] + xs) && Sorted(le, xs)
    ensures Sorted(le, Insert(le, x, xs))
    decreases |xs|
  {
    if xs != [] {
      var h, rest := xs[0], xs[1..];
      assert ([x] + xs)[0] == x && ([x] + xs)[1] == h;
      assert forall y <- xs :: y in [x] + xs;
      assert forall k :: 0 <= k < |xs| ==> h == xs[k] || le(h, xs[k]);
      if !le(x, h) {
        assert forall y <- [x] + rest :: y in [x] + xs;
        InsertSorts(le, x, rest);
        InsertHolds(le, x, rest);
        forall y <- Insert(le, x, rest) ensures le(h, y) {
          assert y in multiset(Insert(le, x, rest));
          assert y == x || y in rest;
        }
      }
    }
  }

  lemma SortHolds<T(!new)>(le: (T, T) -> bool, xs: seq<T>)
    ensures multiset(Sort(le, xs)) == multiset(xs)
  {
    if xs != [] {
      SortHolds(le, xs[1..]);
      InsertHolds(le, xs[0], Sort(le, xs[1..]));
      assert xs == [xs[0]] + xs[1..];
    }
  }

  lemma {:induction false} SortSorts<T(!new)>(le: (T, T) -> bool, xs: seq<T>)
    requires Linear(le, xs)
    ensures Sorted(le, Sort(le, xs))
    decreases |xs|
  {
    if xs != [] {
      SortSorts(le, xs[1..]);
      SortHolds(le, xs[1..]);
      var ys := Sort(le, xs[1..]);
      forall y <- [xs[0]] + ys ensures y in xs {
        if y in ys {
          assert y in multiset(ys);
          assert y in xs[1..];
        }
      }
      InsertSorts(le, xs[0], ys);
    }
  }

  /** A sorted sequence is determined by what it holds. */
  lemma {:induction false} SortedUnique<T(!new)>(le: (T, T) -> bool, all: seq<T>, xs: seq<T>, ys: seq<T>)
    requires Linear(le, all) && (forall x :: x in xs ==> x in all)
    requires Sorted(le, xs) && Sorted(le, ys) && multiset(xs) == multiset(ys)
    ensures xs == ys
    decreases |xs|
  {
    assert |multiset(xs)| == |xs| && |multiset(ys)| == |ys|;
    if xs != [] {
      SameElements(xs, ys);
      SameHead(le, all, xs, ys);
      TailHolds(xs);
      TailHolds(ys);
      SortedUnique(le, all, xs[1..], ys[1..]);
      HeadAndTail(xs);
      HeadAndTail(ys);
    }
  }

  lemma HeadAndTail<T>(xs: seq<T>)
    requires xs != []
    ensures xs == [xs[0]] + xs[1..]
  {
  }

  lemma SameHead<T(!new)>(le: (T, T) -> bool, all: seq<T>, xs: seq<T>, ys: seq<T>)
    requires Linear(le, all) && (forall x :: x in xs ==> x in all) && xs != [] && ys != []
    requires Sorted(le, xs) && Sorted(le, ys) && forall x :: x in xs <==> x in ys
    ensures xs[0] == ys[0]
  {
    assert ys[0] in xs && xs[0] in ys;
  }

  lemma TailHolds<T(!new)>(xs: seq<T>)
    requires xs != []
    ensures multiset(xs[1..]) == multiset(xs) - multiset{xs[0]}
  {
    HeadAndTail(xs);
  }

  /** So sorting forgets the order it was given. */
  lemma SortForgetsOrder<T(!new)>(le: (T, T) -> bool, xs: seq<T>, ys: seq<T>)
    requires Linear(le, xs) && multiset(xs) == multiset(ys)
    ensures Sort(le, xs) == Sort(le, ys)
  {
    SameElements(xs, ys);
    SortHolds(le, xs);
    SortHolds(le, ys);
    SortSorts(le, xs);
    SortSorts(le, ys);
    SameElements(xs, Sort(le, xs));
    SortedUnique(le, xs, Sort(le, xs), Sort(le, ys));
  }

  lemma SameElements<T(!new)>(xs: seq<T>, ys: seq<T>)
    requires multiset(xs) == multiset(ys)
    ensures forall x :: x in xs <==> x in ys
  {
    forall x ensures x in xs <==> x in ys {
      assert x in xs <==> x in multiset(xs);
      assert x in ys <==> x in multiset(ys);
    }
  }

  /** The elements of a set in some order. */
  ghost function Enumerate<T(!new)>(s: set<T>): seq<T> {
    if s == {} then [] else var x :| x in s; [x] + Enumerate(s - {x})
  }

  lemma {:induction false} EnumerateAll<T(!new)>(s: set<T>)
    ensures multiset(Enumerate(s)) == multiset(s)
    decreases s
  {
    if s != {} {
      var x := Enumerate(s)[0];
      var rest := Enumerate(s)[1..];
      assert Enumerate(s) == [x] + rest && x in s && rest == Enumerate(s - {x});
      EnumerateAll(s - {x});
    }
  }
}
