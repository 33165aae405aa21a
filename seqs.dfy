/**
 * Sequence helpers standing for the JavaScript array methods the record
 * store uses: `filter`, `find`/`findIndex` and pairwise facts about arrays.
 */
module Seqs {
  import opened Wrappers

  /** `s.filter(p)`: the elements satisfying `p`, in their original order. */
  function Filter<T>(p: T -> bool, s: seq<T>): (r: seq<T>)
    ensures |r| <= |s|
    ensures forall i :: 0 <= i < |r| ==> r[i] in s && p(r[i])
    ensures forall i :: 0 <= i < |s| && p(s[i]) ==> s[i] in r
    decreases |s|
  {
    if s == [] then []
    else Filter(p, s[..|s| - 1]) + (if p(s[|s| - 1]) then [s[|s| - 1]] else [])
  }

  lemma FilterSnoc<T>(p: T -> bool, s: seq<T>, x: T)
    ensures Filter(p, s + [x]) == Filter(p, s) + (if p(x) then [x] else [])
  {
    assert (s + [x])[..|s + [x]| - 1] == s;
  }

  /** Filtering works from the front as well. */
  lemma {:induction false} FilterCons<T>(p: T -> bool, x: T, s: seq<T>)
    ensures Filter(p, [x] + s) == (if p(x) then [x] else []) + Filter(p, s)
    decreases |s|
  {
    if s == [] {
      assert [x] + s == [] + [x];
      FilterSnoc(p, [], x);
    } else {
      var init, last := s[..|s| - 1], s[|s| - 1];
      FilterCons(p, x, init);
      assert [x] + s == ([x] + init) + [last];
      FilterSnoc(p, [x] + init, last);
      FilterSnoc(p, init, last);
      assert init + [last] == s;
    }
  }

  /** Predicates that agree on the elements give the same filter. */
  lemma {:induction false} FilterExt<T>(p: T -> bool, q: T -> bool, s: seq<T>)
    requires forall i :: 0 <= i < |s| ==> p(s[i]) == q(s[i])
    ensures Filter(p, s) == Filter(q, s)
    decreases |s|
  {
    if s != [] {
      FilterExt(p, q, s[..|s| - 1]);
    }
  }

  /** Two filters one after the other are one filter by both predicates. */
  lemma {:induction false} FilterFilter<T>(p: T -> bool, q: T -> bool, both: T -> bool, s: seq<T>)
    requires forall x :: both(x) == (p(x) && q(x))
    ensures Filter(q, Filter(p, s)) == Filter(both, s)
    decreases |s|
  {
    if s != [] {
      var init, last := s[..|s| - 1], s[|s| - 1];
      FilterFilter(p, q, both, init);
      var r0 := Filter(p, init);
      assert Filter(p, s) == r0 + (if p(last) then [last] else []);
      assert Filter(both, s) == Filter(both, init) + (if both(last) then [last] else []);
      assert both(last) == (p(last) && q(last));
      if p(last) {
        FilterSnoc(q, r0, last);
        assert Filter(q, Filter(p, s)) == Filter(q, r0) + (if q(last) then [last] else []);
      } else {
        assert r0 + [] == r0;
        assert Filter(q, Filter(p, s)) == Filter(q, r0);
      }
    }
  }

  /** `r` is `s` read at the strictly increasing positions `idx`. */
  ghost predicate SubsequenceAt<T>(r: seq<T>, s: seq<T>, idx: seq<nat>)
  {
    && |idx| == |r|
    && (forall k :: 0 <= k < |idx| ==> idx[k] < |s| && r[k] == s[idx[k]])
    && (forall k, l :: 0 <= k < l < |idx| ==> idx[k] < idx[l])
  }

  /** The positions of `s` whose elements satisfy `p`, ascending. */
  function KeptIndices<T>(p: T -> bool, s: seq<T>): (r: seq<nat>)
    ensures forall k :: 0 <= k < |r| ==> r[k] < |s|
    decreases |s|
  {
    if s == [] then [] else KeptIndices(p, s[..|s| - 1]) + (if p(s[|s| - 1]) then [|s| - 1] else [])
  }

  /**
   * Two optional passes, each skipped when its flag is set, are one filter
   * by the conjunction of the passes that are made.
   */
  lemma OptionalFilters<T>(p: T -> bool, skipP: bool, q: T -> bool, skipQ: bool, both: T -> bool, s: seq<T>)
    requires forall x :: both(x) == ((skipP || p(x)) && (skipQ || q(x)))
    ensures (var t := if skipP then s else Filter(p, s); if skipQ then t else Filter(q, t)) == Filter(both, s)
  {
    if skipP && skipQ {
      FilterAll(both, s);
    } else if skipP {
      FilterExt(q, both, s);
    } else if skipQ {
      FilterExt(p, both, s);
    } else {
      FilterFilter(p, q, both, s);
    }
  }

  /** Predicates that agree on the elements keep the same positions. */
  lemma {:induction false} KeptIndicesExt<T>(p: T -> bool, q: T -> bool, s: seq<T>)
    requires forall i :: 0 <= i < |s| ==> p(s[i]) == q(s[i])
    ensures KeptIndices(p, s) == KeptIndices(q, s)
    decreases |s|
  {
    if s != [] {
      KeptIndicesExt(p, q, s[..|s| - 1]);
    }
  }

  /** The kept positions strictly increase, and every position whose element satisfies `p` is kept. */
  lemma {:induction false} KeptIndicesAscending<T>(p: T -> bool, s: seq<T>)
    ensures forall k, l :: 0 <= k < l < |KeptIndices(p, s)| ==> KeptIndices(p, s)[k] < KeptIndices(p, s)[l]
    ensures forall j :: 0 <= j < |s| && p(s[j]) ==> j in KeptIndices(p, s)
    decreases |s|
  {
    if s != [] {
      var init, last := s[..|s| - 1], s[|s| - 1];
      KeptIndicesAscending(p, init);
      var idx0, idx := KeptIndices(p, init), KeptIndices(p, s);
      assert idx == idx0 + (if p(last) then [|s| - 1] else []);
      forall k, l | 0 <= k < l < |idx|
        ensures idx[k] < idx[l]
      {
        if l >= |idx0| {
          assert idx[k] == idx0[k] < |init| && idx[l] == |init|;
        } else {
          assert idx[k] == idx0[k] < idx0[l] == idx[l];
        }
      }
      forall j | 0 <= j < |s| && p(s[j])
        ensures j in idx
      {
        if j < |init| {
          assert init[j] == s[j];
          var k :| 0 <= k < |idx0| && idx0[k] == j;
          assert idx[k] == j;
        } else {
          assert idx[|idx0|] == j;
        }
      }
    }
  }

  /** `Filter` reads `s` at exactly the kept positions. */
  lemma {:induction false} FilterReadsKept<T>(p: T -> bool, s: seq<T>)
    ensures |KeptIndices(p, s)| == |Filter(p, s)|
    ensures forall k :: 0 <= k < |KeptIndices(p, s)| ==> Filter(p, s)[k] == s[KeptIndices(p, s)[k]]
    decreases |s|
  {
    if s != [] {
      var init, last := s[..|s| - 1], s[|s| - 1];
      FilterReadsKept(p, init);
      var idx0, r0 := KeptIndices(p, init), Filter(p, init);
      var idx, r := KeptIndices(p, s), Filter(p, s);
      assert idx == idx0 + (if p(last) then [|s| - 1] else []);
      assert r == r0 + (if p(last) then [last] else []);
      forall k | 0 <= k < |idx|
        ensures r[k] == s[idx[k]]
      {
        if k < |idx0| {
          assert idx[k] == idx0[k] && r[k] == r0[k] && init[idx0[k]] == s[idx0[k]];
        }
      }
    }
  }

  /**
   * `Filter` keeps order: its result is `s` read at a strictly increasing
   * list of positions, and every position whose element satisfies `p` is
   * among them (so every position left out fails `p`).
   */
  lemma FilterKeepsOrder<T>(p: T -> bool, s: seq<T>)
    ensures SubsequenceAt(Filter(p, s), s, KeptIndices(p, s))
    ensures forall j :: 0 <= j < |s| && p(s[j]) ==> j in KeptIndices(p, s)
  {
    KeptIndicesAscending(p, s);
    FilterReadsKept(p, s);
  }

  /** Filtering by a predicate that holds everywhere gives back the whole sequence. */
  lemma {:induction false} FilterAll<T>(p: T -> bool, s: seq<T>)
    requires forall i :: 0 <= i < |s| ==> p(s[i])
    ensures Filter(p, s) == s
    decreases |s|
  {
    if s != [] {
      FilterAll(p, s[..|s| - 1]);
      assert s[..|s| - 1] + [s[|s| - 1]] == s;
    }
  }

  /** A filter by a weaker predicate keeps everything a stronger one keeps. */
  lemma {:induction false} FilterMonotone<T>(p: T -> bool, q: T -> bool, s: seq<T>)
    requires forall i :: 0 <= i < |s| && p(s[i]) ==> q(s[i])
    ensures forall i :: 0 <= i < |Filter(p, s)| ==> Filter(p, s)[i] in Filter(q, s)
    ensures |Filter(p, s)| <= |Filter(q, s)|
    decreases |s|
  {
    if s != [] {
      FilterMonotone(p, q, s[..|s| - 1]);
    }
  }

  /** A filter that keeps two elements found two positions satisfying `p`. */
  lemma {:induction false} FilterTwoWitnesses<T>(p: T -> bool, s: seq<T>)
    requires |Filter(p, s)| >= 2
    ensures exists i, j :: 0 <= i < j < |s| && p(s[i]) && p(s[j])
    decreases |s|
  {
    var init, last := s[..|s| - 1], s[|s| - 1];
    if |Filter(p, init)| >= 2 {
      FilterTwoWitnesses(p, init);
      var i, j :| 0 <= i < j < |init| && p(init[i]) && p(init[j]);
      assert s[i] == init[i] && s[j] == init[j];
    } else {
      assert p(last) && |Filter(p, init)| == 1;
      var x := Filter(p, init)[0];
      var i :| 0 <= i < |init| && init[i] == x;
      assert s[i] == init[i] && p(s[i]);
      assert p(s[|s| - 1]);
    }
  }

  /** Two positions satisfying `p` leave at least two elements in the filter. */
  lemma {:induction false} FilterTwoCount<T>(p: T -> bool, s: seq<T>, i: nat, j: nat)
    requires i < j < |s| && p(s[i]) && p(s[j])
    ensures |Filter(p, s)| >= 2
    decreases |s|
  {
    var init := s[..|s| - 1];
    if j < |s| - 1 {
      assert init[i] == s[i] && init[j] == s[j];
      FilterTwoCount(p, init, i, j);
    } else {
      assert init[i] == s[i];
      assert init[i] in Filter(p, init);
    }
  }

  /** A filter keeps at least two elements exactly when two positions satisfy `p`. */
  lemma FilterAtLeastTwo<T>(p: T -> bool, s: seq<T>)
    ensures |Filter(p, s)| >= 2 <==> exists i, j :: 0 <= i < j < |s| && p(s[i]) && p(s[j])
  {
    if |Filter(p, s)| >= 2 {
      FilterTwoWitnesses(p, s);
    }
    if exists i, j :: 0 <= i < j < |s| && p(s[i]) && p(s[j]) {
      var i, j :| 0 <= i < j < |s| && p(s[i]) && p(s[j]);
      FilterTwoCount(p, s, i, j);
    }
  }

  /** `s.findIndex(p)`: the first position satisfying `p`, or `None` for `-1`. */
  function FirstIndex<T>(p: T -> bool, s: seq<T>): (r: Option<nat>)
    ensures r.Some? ==> r.value < |s| && p(s[r.value])
    ensures r.Some? ==> forall j :: 0 <= j < r.value ==> !p(s[j])
    ensures r.None? <==> forall j :: 0 <= j < |s| ==> !p(s[j])
    decreases |s|
  {
    if s == [] then None
    else if p(s[0]) then Some(0)
    else match FirstIndex(p, s[1..])
      case None => None
      case Some(k) => Some(k + 1)
  }

  /** Every two elements at distinct positions are related by `ok`. */
  ghost predicate Pairwise<T>(s: seq<T>, ok: (T, T) -> bool)
  {
    forall i, j :: 0 <= i < |s| && 0 <= j < |s| && i != j ==> ok(s[i], s[j])
  }

  /** Appending `x` keeps `Pairwise` when `x` is related both ways to every element. */
  lemma PairwiseSnoc<T>(s: seq<T>, x: T, ok: (T, T) -> bool)
    requires Pairwise(s, ok)
    requires forall i :: 0 <= i < |s| ==> ok(s[i], x) && ok(x, s[i])
    ensures Pairwise(s + [x], ok)
  {
    var t := s + [x];
    forall i, j | 0 <= i < |t| && 0 <= j < |t| && i != j
      ensures ok(t[i], t[j])
    {
      if i < |s| && j < |s| {
        assert t[i] == s[i] && t[j] == s[j];
      }
    }
  }

  /** Removing elements keeps every pairwise fact. */
  lemma {:induction false} FilterPairwise<T>(p: T -> bool, s: seq<T>, ok: (T, T) -> bool)
    requires Pairwise(s, ok)
    ensures Pairwise(Filter(p, s), ok)
    decreases |s|
  {
    if s != [] {
      var init, last := s[..|s| - 1], s[|s| - 1];
      assert Pairwise(init, ok) by {
        forall i, j | 0 <= i < |init| && 0 <= j < |init| && i != j
          ensures ok(init[i], init[j])
        {
          assert init[i] == s[i] && init[j] == s[j];
        }
      }
      FilterPairwise(p, init, ok);
      var r0 := Filter(p, init);
      if p(last) {
        forall i | 0 <= i < |r0|
          ensures ok(r0[i], last) && ok(last, r0[i])
        {
          var k :| 0 <= k < |init| && init[k] == r0[i];
          assert s[k] == r0[i];
        }
        PairwiseSnoc(r0, last, ok);
      }
    }
  }

  /** Overwriting position `k` keeps `Pairwise` when the new value is related both ways to the others. */
  lemma PairwiseUpdate<T>(s: seq<T>, k: nat, x: T, ok: (T, T) -> bool)
    requires k < |s|
    requires Pairwise(s, ok)
    requires forall i :: 0 <= i < |s| && i != k ==> ok(s[i], x) && ok(x, s[i])
    ensures Pairwise(s[k := x], ok)
  {
    var t := s[k := x];
    forall i, j | 0 <= i < |t| && 0 <= j < |t| && i != j
      ensures ok(t[i], t[j])
    {
      if i != k && j != k {
        assert t[i] == s[i] && t[j] == s[j];
      }
    }
  }
}
