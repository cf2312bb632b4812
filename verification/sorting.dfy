/** A stable sort by an abstract key order. Items are paired with their
    position in the input, so that "ties keep input order" can be stated on
    the output: Python's `sorted` is stable, and the roster sorts the
    volunteer dict's values in insertion order. */
module Sorting {

  /** Total and transitive: the shape of a comparison of sort keys. */
  ghost predicate TotalPreorder<T(!new)>(le: (T, T) -> bool)
  {
    && (forall a, b :: le(a, b) || le(b, a))
    && (forall a, b, c :: le(a, b) && le(b, c) ==> le(a, c))
  }

  /** Each item paired with its input position. */
  function Enumerate<T>(xs: seq<T>): (r: seq<(nat, T)>)
    ensures |r| == |xs|
    ensures forall i :: 0 <= i < |xs| ==> r[i].0 == i && r[i].1 == xs[i]
  {
    seq(|xs|, i requires 0 <= i < |xs| => (i, xs[i]))
  }

  /** Keys ascend along the sequence. */
  ghost predicate SortedBy<T>(ys: seq<(nat, T)>, le: (T, T) -> bool)
  {
    forall a, b :: 0 <= a < b < |ys| ==> le(ys[a].1, ys[b].1)
  }

  /** Whenever a later item's key is at most an earlier one's, the earlier
      item came first in the input too. In a sorted sequence this says that
      equal keys keep their input order. */
  ghost predicate TiesInOrder<T>(ys: seq<(nat, T)>, le: (T, T) -> bool)
  {
    forall a, b :: 0 <= a < b < |ys| && le(ys[b].1, ys[a].1) ==> ys[a].0 < ys[b].0
  }

  /** Input positions strictly increase, as in `Enumerate`. */
  ghost predicate PositionsIncrease<T>(ys: seq<(nat, T)>)
  {
    forall a, b :: 0 <= a < b < |ys| ==> ys[a].0 < ys[b].0
  }

  /** Places `x` after every item whose key is at most its own, scanning from
      the back: the step of a stable insertion sort. */
  function Insert<T>(s: seq<(nat, T)>, x: (nat, T), le: (T, T) -> bool): (r: seq<(nat, T)>)
    ensures multiset(r) == multiset(s) + multiset{x}
    ensures |r| == |s| + 1
  {
    if |s| == 0 then [x]
    else if le(s[|s| - 1].1, x.1) then s + [x]
    else
      var init := s[..|s| - 1];
      assert s == init + [s[|s| - 1]];
      Insert(init, x, le) + [s[|s| - 1]]
  }

  /** Insertion sort of the whole sequence: sort all but the last item, then
      insert the last. */
  function SortBy<T>(xs: seq<(nat, T)>, le: (T, T) -> bool): (r: seq<(nat, T)>)
    ensures multiset(r) == multiset(xs)
    ensures |r| == |xs|
  {
    if |xs| == 0 then []
    else
      var init := xs[..|xs| - 1];
      assert xs == init + [xs[|xs| - 1]];
      Insert(SortBy(init, le), xs[|xs| - 1], le)
  }

  /** Every item of an insertion result is the inserted item or one of the
      original items. */
  lemma InsertOrigin<T>(s: seq<(nat, T)>, x: (nat, T), le: (T, T) -> bool, a: nat) returns (k: nat)
    requires a < |Insert(s, x, le)|
    ensures Insert(s, x, le)[a] == x || (k < |s| && s[k] == Insert(s, x, le)[a])
  {
    var y := Insert(s, x, le)[a];
    assert y in multiset(Insert(s, x, le));
    k := 0;
    if y != x {
      assert y in multiset(s);
      var m :| 0 <= m < |s| && s[m] == y;
      k := m;
    }
  }

  lemma SortedAppend<T>(left: seq<(nat, T)>, last: (nat, T), le: (T, T) -> bool)
    requires SortedBy(left, le)
    requires forall a :: 0 <= a < |left| ==> le(left[a].1, last.1)
    ensures SortedBy(left + [last], le)
  {
    var ys := left + [last];
    forall a, b | 0 <= a < b < |ys|
      ensures le(ys[a].1, ys[b].1)
    {
      assert ys[a] == left[a];
      if b < |left| {
        assert ys[b] == left[b];
      }
    }
  }

  lemma {:induction false} InsertSorted<T(!new)>(s: seq<(nat, T)>, x: (nat, T), le: (T, T) -> bool)
    requires TotalPreorder(le) && SortedBy(s, le)
    ensures SortedBy(Insert(s, x, le), le)
    decreases |s|
  {
    if |s| > 0 && !le(s[|s| - 1].1, x.1) {
      var init := s[..|s| - 1];
      var last := s[|s| - 1];
      InsertSorted(init, x, le);
      var left := Insert(init, x, le);
      assert Insert(s, x, le) == left + [last];
      forall a | 0 <= a < |left|
        ensures le(left[a].1, last.1)
      {
        var k := InsertOrigin(init, x, le, a);
        if left[a] != x {
          assert s[k] == init[k];
        }
      }
      SortedAppend(left, last, le);
    }
  }

  /** The result of the sort is ordered by key. */
  lemma {:induction false} SortSorted<T(!new)>(xs: seq<(nat, T)>, le: (T, T) -> bool)
    requires TotalPreorder(le)
    ensures SortedBy(SortBy(xs, le), le)
    decreases |xs|
  {
    if |xs| > 0 {
      SortSorted(xs[..|xs| - 1], le);
      InsertSorted(SortBy(xs[..|xs| - 1], le), xs[|xs| - 1], le);
    }
  }

  /** Appending an item keeps ties in order when every earlier item whose key
      it does not exceed came from an earlier position. */
  lemma TiesAppend<T>(left: seq<(nat, T)>, last: (nat, T), le: (T, T) -> bool)
    requires TiesInOrder(left, le)
    requires forall a :: 0 <= a < |left| && le(last.1, left[a].1) ==> left[a].0 < last.0
    ensures TiesInOrder(left + [last], le)
  {
    var ys := left + [last];
    forall a, b | 0 <= a < b < |ys| && le(ys[b].1, ys[a].1)
      ensures ys[a].0 < ys[b].0
    {
      if b < |left| {
        assert ys[a] == left[a] && ys[b] == left[b];
      } else {
        assert ys[a] == left[a] && ys[b] == last;
      }
    }
  }

  lemma {:induction false} InsertTiesInOrder<T(!new)>(s: seq<(nat, T)>, x: (nat, T), le: (T, T) -> bool)
    requires TotalPreorder(le) && TiesInOrder(s, le)
    requires forall k :: 0 <= k < |s| ==> s[k].0 < x.0
    ensures TiesInOrder(Insert(s, x, le), le)
    decreases |s|
  {
    if |s| == 0 {
      assert Insert(s, x, le) == s + [x];
      TiesAppend(s, x, le);
    } else if le(s[|s| - 1].1, x.1) {
      TiesAppend(s, x, le);
    } else {
      var init := s[..|s| - 1];
      var last := s[|s| - 1];
      assert TiesInOrder(init, le);
      InsertTiesInOrder(init, x, le);
      var left := Insert(init, x, le);
      assert Insert(s, x, le) == left + [last];
      forall a | 0 <= a < |left| && le(last.1, left[a].1)
        ensures left[a].0 < last.0
      {
        var k := InsertOrigin(init, x, le, a);
        if left[a] == x {
          assert false;
        }
        assert s[k] == init[k];
      }
      TiesAppend(left, last, le);
    }
  }

  /** Sorting an enumerated input keeps equal keys in input order. */
  lemma {:induction false} SortTiesInOrder<T(!new)>(xs: seq<(nat, T)>, le: (T, T) -> bool)
    requires TotalPreorder(le) && PositionsIncrease(xs)
    ensures TiesInOrder(SortBy(xs, le), le)
    decreases |xs|
  {
    if |xs| > 0 {
      var init := xs[..|xs| - 1];
      SortTiesInOrder(init, le);
      var sorted := SortBy(init, le);
      forall k | 0 <= k < |sorted|
        ensures sorted[k].0 < xs[|xs| - 1].0
      {
        assert sorted[k] in multiset(init);
        var m :| 0 <= m < |init| && init[m] == sorted[k];
      }
      InsertTiesInOrder(sorted, xs[|xs| - 1], le);
    }
  }

  /** No two items share an input position. */
  ghost predicate PositionsDistinct<T>(ys: seq<(nat, T)>)
  {
    forall a, b :: 0 <= a < b < |ys| ==> ys[a].0 != ys[b].0
  }

  lemma DistinctAppend<T>(left: seq<(nat, T)>, last: (nat, T))
    requires PositionsDistinct(left)
    requires forall a :: 0 <= a < |left| ==> left[a].0 != last.0
    ensures PositionsDistinct(left + [last])
  {
    var ys := left + [last];
    forall a, b | 0 <= a < b < |ys|
      ensures ys[a].0 != ys[b].0
    {
      assert ys[a] == left[a];
      if b < |left| {
        assert ys[b] == left[b];
      }
    }
  }

  lemma {:induction false} InsertKeepsPositionsDistinct<T>(s: seq<(nat, T)>, x: (nat, T), le: (T, T) -> bool)
    requires PositionsDistinct(s)
    requires forall k :: 0 <= k < |s| ==> s[k].0 != x.0
    ensures PositionsDistinct(Insert(s, x, le))
    decreases |s|
  {
    if |s| > 0 && !le(s[|s| - 1].1, x.1) {
      var init := s[..|s| - 1];
      var last := s[|s| - 1];
      InsertKeepsPositionsDistinct(init, x, le);
      var left := Insert(init, x, le);
      assert Insert(s, x, le) == left + [last];
      forall a | 0 <= a < |left|
        ensures left[a].0 != last.0
      {
        var k := InsertOrigin(init, x, le, a);
        if left[a] != x {
          assert s[k] == init[k];
        }
      }
      DistinctAppend(left, last);
    }
  }

  /** Sorting an input with distinct positions keeps them distinct, so the
      positions of the output are a permutation of the input's. */
  lemma {:induction false} SortKeepsPositionsDistinct<T>(xs: seq<(nat, T)>, le: (T, T) -> bool)
    requires PositionsIncrease(xs)
    ensures PositionsDistinct(SortBy(xs, le))
    decreases |xs|
  {
    if |xs| > 0 {
      var init := xs[..|xs| - 1];
      SortKeepsPositionsDistinct(init, le);
      var sorted := SortBy(init, le);
      forall k | 0 <= k < |sorted|
        ensures sorted[k].0 != xs[|xs| - 1].0
      {
        assert sorted[k] in multiset(init);
        var m :| 0 <= m < |init| && init[m] == sorted[k];
      }
      InsertKeepsPositionsDistinct(sorted, xs[|xs| - 1], le);
    }
  }

}
