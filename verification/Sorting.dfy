/**
  The stable library sorts that the crate and the scripts call, by a comparison given as
  "must come before". A strict order refines it by original position, so the
  result is the only stable arrangement.
 */
module Sorting {

  ghost predicate IsStrictWeakOrder<T(!new)>(before: (T, T) -> bool) {
    && (forall a :: !before(a, a))
    && (forall a, b, c :: before(a, b) && before(b, c) ==> before(a, c))
    && (forall a, b, c :: before(a, c) ==> before(a, b) || before(b, c))
  }

  ghost predicate StrictlyOrdered<T>(before: (T, T) -> bool, xs: seq<T>) {
    forall i, j :: 0 <= i < j < |xs| ==> before(xs[i], xs[j])
  }

  function Insert<T>(before: (T, T) -> bool, x: T, ys: seq<T>): (r: seq<T>)
    ensures |r| == |ys| + 1
  {
    if ys == [] then [x]
    else if before(ys[0], x) then [ys[0]] + Insert(before, x, ys[1..])
    else [x] + ys
  }

  function StableSort<T>(before: (T, T) -> bool, xs: seq<T>): (r: seq<T>)
    ensures |r| == |xs|
  {
    if xs == [] then [] else Insert(before, xs[0], StableSort(before, xs[1..]))
  }

  lemma {:induction false} InsertKeepsElements<T>(before: (T, T) -> bool, x: T, ys: seq<T>)
    ensures multiset(Insert(before, x, ys)) == multiset(ys) + multiset{x}
  {
    if ys != [] {
      assert ys == [ys[0]] + ys[1..];
      if before(ys[0], x) {
        InsertKeepsElements(before, x, ys[1..]);
      }
    }
  }

  lemma {:induction false} SortKeepsElements<T>(before: (T, T) -> bool, xs: seq<T>)
    ensures multiset(StableSort(before, xs)) == multiset(xs)
  {
    if xs != [] {
      SortKeepsElements(before, xs[1..]);
      InsertKeepsElements(before, xs[0], StableSort(before, xs[1..]));
      assert xs == [xs[0]] + xs[1..];
    }
  }

  lemma InsertedMember<T>(before: (T, T) -> bool, x: T, ys: seq<T>, z: T)
    ensures z in Insert(before, x, ys) <==> z == x || z in ys
  {
    InsertKeepsElements(before, x, ys);
    assert z in Insert(before, x, ys) <==> z in multiset(Insert(before, x, ys));
    assert z in ys <==> z in multiset(ys);
  }

  lemma SortedMember<T>(before: (T, T) -> bool, xs: seq<T>, z: T)
    ensures z in StableSort(before, xs) <==> z in xs
  {
    SortKeepsElements(before, xs);
    assert z in StableSort(before, xs) <==> z in multiset(StableSort(before, xs));
    assert z in xs <==> z in multiset(xs);
  }

  /**
    `fine` refines `before` by original position: where `before` leaves two
    elements of `xs` undecided, the earlier one goes first.
   */
  ghost predicate Refines<T>(fine: (T, T) -> bool, before: (T, T) -> bool, xs: seq<T>) {
    forall i, j :: 0 <= i < j < |xs| ==>
                     (if before(xs[j], xs[i]) then fine(xs[j], xs[i]) else fine(xs[i], xs[j]))
  }

  lemma {:induction false} InsertOrdered<T(!new)>(fine: (T, T) -> bool, before: (T, T) -> bool, x: T, ys: seq<T>)
    requires IsStrictWeakOrder(fine) && StrictlyOrdered(fine, ys)
    requires forall y :: y in ys ==> if before(y, x) then fine(y, x) else fine(x, y)
    ensures StrictlyOrdered(fine, Insert(before, x, ys))
  {
    if ys != [] {
      var rest := ys[1..];
      if before(ys[0], x) {
        InsertOrdered(fine, before, x, rest);
        forall z | z in Insert(before, x, rest) ensures fine(ys[0], z) {
          InsertedMember(before, x, rest, z);
          if z in rest {
            var i :| 0 <= i < |rest| && rest[i] == z;
            assert ys[i + 1] == z;
          }
        }
        OrderedCons(fine, ys[0], Insert(before, x, rest));
      } else {
        assert fine(x, ys[0]);
        forall z | z in ys ensures fine(x, z) {
          var i :| 0 <= i < |ys| && ys[i] == z;
          assert i > 0 ==> fine(ys[0], ys[i]);
        }
        OrderedCons(fine, x, ys);
      }
    }
  }

  lemma OrderedCons<T>(fine: (T, T) -> bool, x: T, ys: seq<T>)
    requires StrictlyOrdered(fine, ys) && forall y :: y in ys ==> fine(x, y)
    ensures StrictlyOrdered(fine, [x] + ys)
  {
  }

  /** The sort arranges its input strictly by the refined order. */
  lemma {:induction false} SortOrdered<T(!new)>(fine: (T, T) -> bool, before: (T, T) -> bool, xs: seq<T>)
    requires IsStrictWeakOrder(fine) && Refines(fine, before, xs)
    ensures StrictlyOrdered(fine, StableSort(before, xs))
  {
    if xs != [] {
      var rest := xs[1..];
      assert Refines(fine, before, rest);
      SortOrdered(fine, before, rest);
      forall y | y in StableSort(before, rest) ensures if before(y, xs[0]) then fine(y, xs[0]) else fine(xs[0], y) {
        SortedMember(before, rest, y);
        var j :| 0 <= j < |rest| && rest[j] == y;
        assert xs[j + 1] == y;
      }
      InsertOrdered(fine, before, xs[0], StableSort(before, rest));
    }
  }

  /** Two strict arrangements of the same elements are the same sequence. */
  lemma {:induction false} ArrangementUnique<T(!new)>(fine: (T, T) -> bool, xs: seq<T>, ys: seq<T>)
    requires IsStrictWeakOrder(fine) && StrictlyOrdered(fine, xs) && StrictlyOrdered(fine, ys)
    requires forall z :: z in xs <==> z in ys
    ensures xs == ys
    decreases |xs|
  {
    assert |xs| > 0 ==> xs[0] in xs;
    assert |ys| > 0 ==> ys[0] in ys;
    if xs != [] {
      assert xs[0] in ys && ys[0] in xs;
      var i :| 0 <= i < |ys| && ys[i] == xs[0];
      var j :| 0 <= j < |xs| && xs[j] == ys[0];
      assert xs[0] == ys[0];
      forall z ensures z in xs[1..] <==> z in ys[1..] {
        TailMember(fine, xs, z);
        TailMember(fine, ys, z);
      }
      ArrangementUnique(fine, xs[1..], ys[1..]);
      assert xs == [xs[0]] + xs[1..] && ys == [ys[0]] + ys[1..];
    }
  }

  lemma TailMember<T(!new)>(fine: (T, T) -> bool, xs: seq<T>, z: T)
    requires IsStrictWeakOrder(fine) && xs != [] && StrictlyOrdered(fine, xs)
    ensures z in xs[1..] <==> z in xs && z != xs[0]
  {
    assert xs == [xs[0]] + xs[1..];
    if z in xs[1..] {
      var i :| 0 <= i < |xs[1..]| && xs[1..][i] == z;
      assert xs[i + 1] == z && fine(xs[0], xs[i + 1]);
    }
  }
}
