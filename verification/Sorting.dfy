/** The stable library sort, as insertion sort. */
module Sorting {

  function Insert<T>(before: (T, T) -> bool, x: T, xs: seq<T>): seq<T> {
    if xs == [] || !before(xs[0], x) then [x] + xs else [xs[0]] + Insert(before, x, xs[1..])
  }

  function Sort<T>(before: (T, T) -> bool, xs: seq<T>): seq<T> {
    if xs == [] then [] else Insert(before, xs[0], Sort(before, xs[1..]))
  }

  predicate InOrder<T>(before: (T, T) -> bool, xs: seq<T>) {
    forall i | 0 < i < |xs| :: !before(xs[i], xs[i - 1])
  }

  ghost predicate Asymmetric<T(!new)>(before: (T, T) -> bool) {
    forall a, b :: before(a, b) ==> !before(b, a)
  }

  lemma {:induction false} InsertAdds<T>(before: (T, T) -> bool, x: T, xs: seq<T>)
    ensures multiset(Insert(before, x, xs)) == multiset(xs) + multiset{x}
  {
    if xs != [] && before(xs[0], x) {
      InsertAdds(before, x, xs[1..]);
      assert xs == [xs[0]] + xs[1..];
    }
  }

  lemma InOrderBehind<T>(before: (T, T) -> bool, x: T, xs: seq<T>)
    requires InOrder(before, xs) && (xs != [] ==> !before(xs[0], x))
    ensures InOrder(before, [x] + xs)
  {
  }

  lemma InOrderRest<T>(before: (T, T) -> bool, xs: seq<T>)
    requires InOrder(before, xs) && xs != []
    ensures InOrder(before, xs[1..]) && (|xs| > 1 ==> !before(xs[1], xs[0]))
  {
  }

  lemma {:induction false} InsertInOrder<T(!new)>(before: (T, T) -> bool, x: T, xs: seq<T>)
    requires Asymmetric(before) && InOrder(before, xs)
    ensures InOrder(before, Insert(before, x, xs)) && Insert(before, x, xs) != []
    ensures Insert(before, x, xs)[0] == x || (xs != [] && Insert(before, x, xs)[0] == xs[0])
  {
    hide InOrder;
    if xs == [] || !before(xs[0], x) {
      InOrderBehind(before, x, xs);
    } else {
      InOrderRest(before, xs);
      InsertInOrder(before, x, xs[1..]);
      InOrderBehind(before, xs[0], Insert(before, x, xs[1..]));
    }
  }

  /** Everything once more, in order. */
  lemma {:induction false} Sorts<T(!new)>(before: (T, T) -> bool, xs: seq<T>)
    requires Asymmetric(before)
    ensures InOrder(before, Sort(before, xs)) && multiset(Sort(before, xs)) == multiset(xs)
  {
    if xs != [] {
      Sorts(before, xs[1..]);
      InsertAdds(before, xs[0], Sort(before, xs[1..]));
      InsertInOrder(before, xs[0], Sort(before, xs[1..]));
      assert xs == [xs[0]] + xs[1..];
    }
  }

  lemma SortKeeps<T(!new)>(before: (T, T) -> bool, xs: seq<T>)
    requires Asymmetric(before)
    ensures forall x :: x in Sort(before, xs) <==> x in xs
  {
    Sorts(before, xs);
    forall x ensures x in Sort(before, xs) <==> x in xs {
      assert x in multiset(Sort(before, xs)) <==> x in multiset(xs);
    }
  }

  // ----- the sort is stable -----

  /** Each comes before the one behind it, or does not come behind it and stood in front of it. */
  predicate Follows<T>(before: (T, T) -> bool, xs: seq<T>, places: seq<nat>)
    requires |xs| == |places|
  {
    forall i | 0 < i < |xs| ::
      before(xs[i - 1], xs[i]) || (!before(xs[i], xs[i - 1]) && places[i - 1] < places[i])
  }

  /** `places` says which of `xs` stands where in `out`. */
  predicate Places<T(==)>(xs: seq<T>, out: seq<T>, places: seq<nat>) {
    && |out| == |places|
    && (forall i | 0 <= i < |out| :: places[i] < |xs| && out[i] == xs[places[i]])
    && forall k: nat | k < |xs| :: k in places
  }

  function InsertAt<T>(x: T, xs: seq<T>, at: nat): seq<T>
    requires at <= |xs|
  {
    xs[..at] + [x] + xs[at..]
  }

  lemma {:induction false} InsertsAt<T>(before: (T, T) -> bool, x: T, xs: seq<T>) returns (at: nat)
    ensures at <= |xs| && Insert(before, x, xs) == InsertAt(x, xs, at)
    ensures (at > 0 ==> before(xs[at - 1], x)) && (at < |xs| ==> !before(xs[at], x))
  {
    if xs == [] || !before(xs[0], x) {
      at := 0;
    } else {
      var k := InsertsAt(before, x, xs[1..]);
      at := k + 1;
      assert xs[1..][k..] == xs[at..] && [xs[0]] + xs[1..][..k] == xs[..at];
    }
  }

  lemma InsertFollows<T>(before: (T, T) -> bool, x: T, xs: seq<T>, places: seq<nat>, at: nat)
    requires |places| == |xs| && at <= |xs| && Follows(before, xs, places)
    requires (at > 0 ==> before(xs[at - 1], x)) && (at < |xs| ==> !before(xs[at], x))
    ensures var moved := seq(|places|, i requires 0 <= i < |places| => places[i] + 1);
            Follows(before, InsertAt(x, xs, at), InsertAt(0, moved, at))
  {
    var moved := seq(|places|, i requires 0 <= i < |places| => places[i] + 1);
    var out, places' := InsertAt(x, xs, at), InsertAt(0, moved, at);
    forall i | 0 < i < |out|
      ensures before(out[i - 1], out[i]) || (!before(out[i], out[i - 1]) && places'[i - 1] < places'[i])
    {
      if i < at {
        assert out[i - 1] == xs[i - 1] && out[i] == xs[i];
      } else if i > at + 1 {
        assert out[i - 1] == xs[i - 2] && out[i] == xs[i - 1];
      }
    }
  }

  lemma InsertPlaces<T>(x: T, xs: seq<T>, rest: seq<T>, places: seq<nat>, at: nat)
    requires Places(rest, xs, places) && at <= |xs|
    ensures var moved := seq(|places|, i requires 0 <= i < |places| => places[i] + 1);
            Places([x] + rest, InsertAt(x, xs, at), InsertAt(0, moved, at))
  {
    var places' := InsertAt(0, seq(|places|, i requires 0 <= i < |places| => places[i] + 1), at);
    forall k: nat | k < |rest| + 1 ensures k in places' {
      if k == 0 {
        assert places'[at] == 0;
      } else {
        var was: nat := k - 1;
        assert was in places;
        var i :| 0 <= i < |places| && places[i] == was;
        assert places'[if i < at then i else i + 1] == k;
      }
    }
  }

  /** Everything once more, in order, and what compares equal in the order it had. */
  lemma {:induction false} SortsStably<T>(before: (T, T) -> bool, xs: seq<T>) returns (places: seq<nat>)
    ensures Places(xs, Sort(before, xs), places) && Follows(before, Sort(before, xs), places)
  {
    hide Places, Follows, InsertAt;
    if xs == [] {
      places := [];
      NothingSorted(before);
    } else {
      var inner := SortsStably(before, xs[1..]);
      var later := Sort(before, xs[1..]);
      var at := InsertsAt(before, xs[0], later);
      assert |inner| == |later| by { SameSize(xs[1..], later, inner); }
      places := InsertAt(0, seq(|inner|, i requires 0 <= i < |inner| => inner[i] + 1), at);
      InsertFollows(before, xs[0], later, inner, at);
      InsertPlaces(xs[0], later, xs[1..], inner, at);
      assert [xs[0]] + xs[1..] == xs;
    }
  }

  lemma NothingSorted<T>(before: (T, T) -> bool)
    ensures Places<T>([], [], []) && Follows(before, [], [])
  {
  }

  lemma SameSize<T>(xs: seq<T>, out: seq<T>, places: seq<nat>)
    requires Places(xs, out, places)
    ensures |out| == |places|
  {
  }
}
