/** Order-preserving selection over sequences. Every owner-scoped or
    id-scoped query of the store is one `Filter` with a different predicate,
    so the facts about filtering are proved once here. */
module Seqs {

  /** The indices of `s` whose element satisfies `p`, in increasing order. */
  function Positions<T>(s: seq<T>, p: T -> bool): (ks: seq<nat>)
    ensures forall j :: 0 <= j < |ks| ==> ks[j] < |s| && p(s[ks[j]])
    decreases |s|
  {
    if |s| == 0 then []
    else
      var init := Positions(s[..|s| - 1], p);
      if p(s[|s| - 1]) then init + [|s| - 1] else init
  }

  /** The indices come in increasing order. */
  lemma {:induction false} PositionsIncreasing<T>(s: seq<T>, p: T -> bool)
    ensures forall j, k :: 0 <= j < k < |Positions(s, p)| ==> Positions(s, p)[j] < Positions(s, p)[k]
    decreases |s|
  {
    if |s| > 0 {
      var init := s[..|s| - 1];
      PositionsIncreasing(init, p);
      var pre := Positions(init, p);
      var ks := Positions(s, p);
      assert ks == if p(s[|s| - 1]) then pre + [|s| - 1] else pre;
      forall j, k | 0 <= j < k < |ks|
        ensures ks[j] < ks[k]
      {
        assert ks[j] == pre[j] && pre[j] < |init|;
        if k < |pre| {
          assert ks[k] == pre[k];
        }
      }
    }
  }

  /** No satisfying index is missed. */
  lemma {:induction false} PositionsComplete<T>(s: seq<T>, p: T -> bool, i: int)
    requires 0 <= i < |s| && p(s[i])
    ensures i in Positions(s, p)
    decreases |s|
  {
    if i < |s| - 1 {
      PositionsComplete(s[..|s| - 1], p, i);
    }
  }

  /** The elements of `s` that satisfy `p`, in their original order (see
      `FilterPicks`). */
  function Filter<T(==,!new)>(s: seq<T>, p: T -> bool): (r: seq<T>)
    ensures |r| == |Positions(s, p)| <= |s|
    decreases |s|
  {
    if |s| == 0 then []
    else
      assert s == s[..|s| - 1] + [s[|s| - 1]];
      var init := Filter(s[..|s| - 1], p);
      if p(s[|s| - 1]) then init + [s[|s| - 1]] else init
  }

  /** The j-th survivor is the element at the j-th satisfying index. */
  lemma {:induction false} FilterPicks<T(!new)>(s: seq<T>, p: T -> bool)
    ensures forall j :: 0 <= j < |Filter(s, p)| ==> Filter(s, p)[j] == s[Positions(s, p)[j]]
    decreases |s|
  {
    if |s| > 0 {
      var init := s[..|s| - 1];
      FilterPicks(init, p);
      var r := Filter(s, p);
      forall j | 0 <= j < |r|
        ensures r[j] == s[Positions(s, p)[j]]
      {
        if j < |Filter(init, p)| {
          assert r[j] == Filter(init, p)[j];
          assert Positions(s, p)[j] == Positions(init, p)[j];
        }
      }
    }
  }

  /** A value survives exactly when it occurs and satisfies `p`. */
  lemma {:induction false} FilterHas<T(!new)>(s: seq<T>, p: T -> bool)
    ensures forall x :: x in Filter(s, p) <==> x in s && p(x)
    decreases |s|
  {
    if |s| > 0 {
      var init := s[..|s| - 1];
      FilterHas(init, p);
      assert s == init + [s[|s| - 1]];
    }
  }

  /** Each value keeps its multiplicity exactly when it satisfies `p`. */
  lemma {:induction false} FilterCounts<T(!new)>(s: seq<T>, p: T -> bool)
    ensures forall x :: multiset(Filter(s, p))[x] == if p(x) then multiset(s)[x] else 0
    decreases |s|
  {
    if |s| > 0 {
      var init := s[..|s| - 1];
      FilterCounts(init, p);
      assert s == init + [s[|s| - 1]];
    }
  }

  /** The first index whose element satisfies `p`, if there is one. */
  function FirstIndex<T>(s: seq<T>, p: T -> bool): (k: int)
    ensures -1 <= k < |s|
    ensures k >= 0 ==> p(s[k]) && forall j :: 0 <= j < k ==> !p(s[j])
    ensures k < 0 <==> forall i :: 0 <= i < |s| ==> !p(s[i])
    decreases |s|
  {
    if |s| == 0 then -1
    else if p(s[0]) then 0
    else
      var k := FirstIndex(s[1..], p);
      if k < 0 then -1 else k + 1
  }

  /** Filtering twice with the same predicate changes nothing more. */
  lemma {:induction false} FilterIdempotent<T(!new)>(s: seq<T>, p: T -> bool)
    ensures Filter(Filter(s, p), p) == Filter(s, p)
    decreases |s|
  {
    if |s| > 0 {
      FilterIdempotent(s[..|s| - 1], p);
      var init := Filter(s[..|s| - 1], p);
      if p(s[|s| - 1]) {
        assert (init + [s[|s| - 1]])[..|init|] == init;
      }
    }
  }

  /** Removing elements that a later selection would drop anyway does not
      change that selection. */
  lemma {:induction false} FilterThroughWeaker<T(!new)>(s: seq<T>, q: T -> bool, p: T -> bool)
    requires forall x :: p(x) ==> q(x)
    ensures Filter(Filter(s, q), p) == Filter(s, p)
    decreases |s|
  {
    if |s| > 0 {
      FilterThroughWeaker(s[..|s| - 1], q, p);
      var init := Filter(s[..|s| - 1], q);
      if q(s[|s| - 1]) {
        assert (init + [s[|s| - 1]])[..|init|] == init;
      }
    }
  }

  /** A selection keeps any relation that held between every earlier and
      later pair of elements. */
  lemma FilterKeepsPairwise<T(!new)>(s: seq<T>, p: T -> bool, rel: (T, T) -> bool)
    requires forall i, j :: 0 <= i < j < |s| ==> rel(s[i], s[j])
    ensures forall i, j :: 0 <= i < j < |Filter(s, p)| ==> rel(Filter(s, p)[i], Filter(s, p)[j])
  {
    var r := Filter(s, p);
    var ks := Positions(s, p);
    FilterPicks(s, p);
    PositionsIncreasing(s, p);
    forall i, j | 0 <= i < j < |r|
      ensures rel(r[i], r[j])
    {
      assert r[i] == s[ks[i]] && r[j] == s[ks[j]];
      assert ks[i] < ks[j];
    }
  }

  /** Changing only elements that a selection rejects, both before and
      after the change, leaves the selection as it was. */
  lemma {:induction false} FilterIgnoresRejected<T(!new)>(s: seq<T>, s': seq<T>, p: T -> bool)
    requires |s'| == |s|
    requires forall i :: 0 <= i < |s| ==> s'[i] == s[i] || (!p(s[i]) && !p(s'[i]))
    ensures Filter(s', p) == Filter(s, p)
    decreases |s|
  {
    if |s| > 0 {
      FilterIgnoresRejected(s[..|s| - 1], s'[..|s| - 1], p);
    }
  }

  /** Selection distributes over concatenation. */
  lemma {:induction false} FilterAppend<T(!new)>(a: seq<T>, b: seq<T>, p: T -> bool)
    ensures Filter(a + b, p) == Filter(a, p) + Filter(b, p)
    decreases |b|
  {
    if |b| > 0 {
      var b0 := b[..|b| - 1];
      FilterAppend(a, b0, p);
      assert (a + b)[..|a + b| - 1] == a + b0;
    } else {
      assert a + b == a;
    }
  }

  /** A selection every element passes keeps the whole sequence. */
  lemma {:induction false} FilterKeepsAll<T(!new)>(s: seq<T>, p: T -> bool)
    requires forall i :: 0 <= i < |s| ==> p(s[i])
    ensures Filter(s, p) == s
    decreases |s|
  {
    if |s| > 0 {
      var init := s[..|s| - 1];
      FilterKeepsAll(init, p);
      assert p(s[|s| - 1]);
      assert Filter(s, p) == init + [s[|s| - 1]];
      assert init + [s[|s| - 1]] == s;
    }
  }

  /** A selection no element passes keeps nothing. */
  lemma {:induction false} FilterDropsAll<T(!new)>(s: seq<T>, p: T -> bool)
    requires forall i :: 0 <= i < |s| ==> !p(s[i])
    ensures Filter(s, p) == []
    decreases |s|
  {
    if |s| > 0 {
      FilterDropsAll(s[..|s| - 1], p);
    }
  }
}
