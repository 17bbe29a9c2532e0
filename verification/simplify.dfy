/** Ramer-Douglas-Peucker simplification of one traced path:
    `simplify_vertices` and `distance_to_line` of outline.py.

    The algorithm is stated for any vertex type and any measure
    `dev(v, first, last)` of how far v strays from the chord first..last;
    module Distances supplies the measure the source uses. */
module Simplification {
  import opened Results

  /** How far `vs[i]` strays from the chord of the whole list. */
  function Deviation<V>(vs: seq<V>, i: nat, dev: (V, V, V) -> real): real
    requires i < |vs|
  {
    dev(vs[i], vs[0], vs[|vs| - 1])
  }

  /** `(index, max_dist)` of the scan. */
  datatype Farthest = Farthest(index: nat, dist: real)

  /** The scan over i = 1 .. k-1: starting from (0, 0), a vertex replaces the
      current one only when strictly farther, so the result is the first
      vertex of greatest deviation, or index 0 when none deviates by more
      than 0. */
  function FarthestBelow<V>(vs: seq<V>, k: nat, dev: (V, V, V) -> real): (r: Farthest)
    requires k < |vs|
    ensures r.dist >= 0.0
    ensures r.index == 0 <==> r.dist == 0.0
    ensures r.index != 0 ==> 1 <= r.index < k && r.dist == Deviation(vs, r.index, dev)
    ensures forall i :: 1 <= i < k ==> Deviation(vs, i, dev) <= r.dist
    ensures forall i :: 1 <= i < r.index ==> Deviation(vs, i, dev) < r.dist
  {
    if k <= 1 then Farthest(0, 0.0)
    else
      var p := FarthestBelow(vs, k - 1, dev);
      var d := Deviation(vs, k - 1, dev);
      if d > p.dist then Farthest(k - 1, d) else p
  }

  /** The scan `for i in range(first + 1, last)`. */
  function FindFarthest<V>(vs: seq<V>, dev: (V, V, V) -> real): (r: Farthest)
    requires |vs| >= 1
    ensures r.dist >= 0.0
    ensures r.index == 0 ==> r.dist == 0.0
    ensures r.index != 0 ==> 0 < r.index < |vs| - 1 && r.dist == Deviation(vs, r.index, dev)
    ensures forall i :: 0 < i < |vs| - 1 ==> Deviation(vs, i, dev) <= r.dist
    ensures forall i :: 0 < i < r.index ==> Deviation(vs, i, dev) < r.dist
  {
    FarthestBelow(vs, |vs| - 1, dev)
  }

  /** `idx` places r inside s: strictly increasing positions holding r's
      elements. */
  predicate Embedding<V(==)>(idx: seq<nat>, r: seq<V>, s: seq<V>) {
    && |idx| == |r|
    && (forall k :: 0 <= k < |idx| ==> idx[k] < |s| && r[k] == s[idx[k]])
    && (forall k :: 0 < k < |idx| ==> idx[k - 1] < idx[k])
  }

  /** Every vertex strictly between positions lo and hi of s strays at most
      eps from the chord s[lo]..s[hi]. */
  predicate Tolerated<V>(s: seq<V>, lo: nat, hi: nat, eps: real, dev: (V, V, V) -> real) {
    lo < hi < |s| && forall i :: lo < i < hi ==> dev(s[i], s[lo], s[hi]) <= eps
  }

  /** The guarantee of the algorithm for one placement idx of r in s: the
      kept vertices are vertices of s in order, the first and last among
      them, and every dropped vertex strays at most eps from the chord
      between the two kept vertices around it. */
  predicate KeptWithin<V(==)>(idx: seq<nat>, r: seq<V>, s: seq<V>, eps: real, dev: (V, V, V) -> real) {
    && Embedding(idx, r, s)
    && |idx| >= 2 && idx[0] == 0 && idx[|idx| - 1] == |s| - 1
    && (forall k :: 0 <= k < |idx| - 1 ==> Tolerated(s, idx[k], idx[k + 1], eps, dev))
  }

  /** r is a simplification of s within eps: some placement of r in s keeps
      the guarantee. */
  ghost predicate Simplifies<V>(r: seq<V>, s: seq<V>, eps: real, dev: (V, V, V) -> real) {
    exists idx :: KeptWithin(idx, r, s, eps, dev)
  }

  /** `simplify_vertices` for a non-empty list and a non-negative epsilon: split
      at the farthest interior vertex when it strays more than epsilon, simplify
      both halves and join them without repeating the split vertex; otherwise
      keep only the two ends. */
  function Simplify<V(==)>(vs: seq<V>, eps: real, dev: (V, V, V) -> real): (r: seq<V>)
    requires |vs| >= 1 && eps >= 0.0
    ensures |r| >= 2 && r[0] == vs[0] && r[|r| - 1] == vs[|vs| - 1]
    ensures |vs| == 1 ==> r == [vs[0], vs[0]]
    ensures |vs| >= 2 ==> |r| <= |vs|
    decreases |vs|
  {
    var f := FindFarthest(vs, dev);
    if f.dist > eps then
      var a := Simplify(vs[..f.index + 1], eps, dev);
      var b := Simplify(vs[f.index..], eps, dev);
      a[..|a| - 1] + b
    else
      [vs[0], vs[|vs| - 1]]
  }

  /** The result of Simplify is a simplification of its input within eps. */
  lemma {:induction false} SimplifyWithin<V>(vs: seq<V>, eps: real, dev: (V, V, V) -> real)
    requires |vs| >= 1 && eps >= 0.0
    ensures |vs| >= 2 ==> Simplifies(Simplify(vs, eps, dev), vs, eps, dev)
    decreases |vs|, 1
  {
    if |vs| >= 2 {
      var f := FindFarthest(vs, dev);
      if f.dist > eps {
        SplitWithin(vs, eps, dev);
      } else {
        EndsKeptWithin(vs, eps, dev, f);
        assert Simplify(vs, eps, dev) == [vs[0], vs[|vs| - 1]];
      }
    }
  }

  /** The split case of `SimplifyWithin`: both halves are simplifications
      of their parts, so their join is one of the whole. */
  lemma {:induction false} SplitWithin<V>(vs: seq<V>, eps: real, dev: (V, V, V) -> real)
    requires |vs| >= 2 && eps >= 0.0 && FindFarthest(vs, dev).dist > eps
    ensures Simplifies(Simplify(vs, eps, dev), vs, eps, dev)
    decreases |vs|, 0
  {
    var m := FindFarthest(vs, dev).index;
    var lo, hi := vs[..m + 1], vs[m..];
    var a, b := SplitUnfold(vs, eps, dev);
    SimplifyWithin(lo, eps, dev);
    SimplifyWithin(hi, eps, dev);
    SplitKeptWithin(vs, eps, dev, m, a, b);
  }

  /** One unfolding of Simplify in the split case, naming the two halves. */
  lemma SplitUnfold<V>(vs: seq<V>, eps: real, dev: (V, V, V) -> real) returns (a: seq<V>, b: seq<V>)
    requires |vs| >= 2 && eps >= 0.0 && FindFarthest(vs, dev).dist > eps
    ensures var m := FindFarthest(vs, dev).index;
      && 0 < m < |vs| - 1 && Deviation(vs, m, dev) > eps
      && a == Simplify(vs[..m + 1], eps, dev) && b == Simplify(vs[m..], eps, dev)
      && Simplify(vs, eps, dev) == a[..|a| - 1] + b
  {
    var f := FindFarthest(vs, dev);
    var m := f.index;
    assert m != 0 && Deviation(vs, m, dev) == f.dist;
    a := Simplify(vs[..m + 1], eps, dev);
    b := Simplify(vs[m..], eps, dev);
    assert Simplify(vs, eps, dev) == a[..|a| - 1] + b by {
      assert f.dist > eps;
    }
  }

  /** Only the two ends survive exactly when no interior vertex strays more
      than eps from the chord of the whole list. */
  lemma OnlyEndsIff<V>(vs: seq<V>, eps: real, dev: (V, V, V) -> real)
    requires |vs| >= 1 && eps >= 0.0
    ensures |Simplify(vs, eps, dev)| == 2 <==> forall i :: 0 < i < |vs| - 1 ==> Deviation(vs, i, dev) <= eps
  {
    var f := FindFarthest(vs, dev);
    if f.dist > eps {
      assert Deviation(vs, f.index, dev) > eps;
    }
  }

  /** Keeping only the ends is within eps when no vertex strays more. */
  lemma EndsKeptWithin<V>(vs: seq<V>, eps: real, dev: (V, V, V) -> real, f: Farthest)
    requires |vs| >= 1
    requires forall i :: 0 < i < |vs| - 1 ==> Deviation(vs, i, dev) <= f.dist
    requires f.dist <= eps
    ensures |vs| >= 2 ==> KeptWithin([0, |vs| - 1], [vs[0], vs[|vs| - 1]], vs, eps, dev)
  {
    if |vs| >= 2 {
      forall i | 0 < i < |vs| - 1
        ensures dev(vs[i], vs[0], vs[|vs| - 1]) <= eps
      {
        assert Deviation(vs, i, dev) <= f.dist;
      }
      assert Tolerated(vs, 0, |vs| - 1, eps, dev);
    }
  }

  /** The positions of the joined result: those of the first half without
      its last, then those of the second half shifted by m. */
  function JoinIdx(ia: seq<nat>, ib: seq<nat>, m: nat): (idx: seq<nat>)
    requires |ia| >= 1
    ensures |idx| == |ia| - 1 + |ib|
    ensures forall k :: 0 <= k < |idx| ==> idx[k] == if k < |ia| - 1 then ia[k] else ib[k - (|ia| - 1)] + m
  {
    ia[..|ia| - 1] + seq(|ib|, k requires 0 <= k < |ib| => ib[k] + m)
  }

  lemma JoinEmbedding<V>(vs: seq<V>, m: nat, lo: seq<V>, hi: seq<V>, a: seq<V>, b: seq<V>, ia: seq<nat>, ib: seq<nat>)
    requires m < |vs| && lo == vs[..m + 1] && hi == vs[m..]
    requires Embedding(ia, a, lo) && |ia| >= 2 && ia[|ia| - 1] == m
    requires Embedding(ib, b, hi) && |ib| >= 1 && ib[0] == 0
    ensures Embedding(JoinIdx(ia, ib, m), a[..|a| - 1] + b, vs)
  {
    var idx, r, na := JoinIdx(ia, ib, m), a[..|a| - 1] + b, |ia| - 1;
    assert forall k :: 0 <= k < |r| ==> r[k] == if k < na then a[k] else b[k - na];
    forall k | 0 <= k < |idx|
      ensures idx[k] < |vs| && r[k] == vs[idx[k]]
    {
      if k < na {
        assert lo[ia[k]] == vs[ia[k]];
      } else {
        assert hi[ib[k - na]] == vs[ib[k - na] + m];
      }
    }
    forall k | 0 < k < |idx|
      ensures idx[k - 1] < idx[k]
    {
      if k == na {
        assert ia[na - 1] < ia[na];
      }
    }
  }

  /** A chord of the first half vs[..m+1] is the same chord of vs. */
  lemma ToleratedPrefix<V>(vs: seq<V>, m: nat, lo: nat, hi: nat, eps: real, dev: (V, V, V) -> real)
    requires m < |vs| && Tolerated(vs[..m + 1], lo, hi, eps, dev)
    ensures Tolerated(vs, lo, hi, eps, dev)
  {
    var s := vs[..m + 1];
    forall i | lo < i < hi
      ensures dev(vs[i], vs[lo], vs[hi]) <= eps
    {
      assert s[i] == vs[i] && s[lo] == vs[lo] && s[hi] == vs[hi];
    }
  }

  /** A chord of the second half vs[m..] is the chord of vs shifted by m. */
  lemma ToleratedSuffix<V>(vs: seq<V>, m: nat, lo: nat, hi: nat, eps: real, dev: (V, V, V) -> real)
    requires m < |vs| && Tolerated(vs[m..], lo, hi, eps, dev)
    ensures Tolerated(vs, lo + m, hi + m, eps, dev)
  {
    var s := vs[m..];
    forall i | lo + m < i < hi + m
      ensures dev(vs[i], vs[lo + m], vs[hi + m]) <= eps
    {
      assert s[i - m] == vs[i] && s[lo] == vs[lo + m] && s[hi] == vs[hi + m];
    }
  }

  lemma JoinTolerance<V>(vs: seq<V>, eps: real, dev: (V, V, V) -> real, m: nat, ia: seq<nat>, ib: seq<nat>)
    requires m < |vs|
    requires |ia| >= 2 && forall k :: 0 <= k < |ia| - 1 ==> Tolerated(vs[..m + 1], ia[k], ia[k + 1], eps, dev)
    requires |ib| >= 1 && forall k :: 0 <= k < |ib| - 1 ==> Tolerated(vs[m..], ib[k], ib[k + 1], eps, dev)
    requires ia[|ia| - 1] == m && ib[0] == 0
    ensures var idx := JoinIdx(ia, ib, m);
      forall k :: 0 <= k < |idx| - 1 ==> Tolerated(vs, idx[k], idx[k + 1], eps, dev)
  {
    var idx, na := JoinIdx(ia, ib, m), |ia| - 1;
    forall k | 0 <= k < |idx| - 1
      ensures Tolerated(vs, idx[k], idx[k + 1], eps, dev)
    {
      if k < na {
        assert idx[k] == ia[k];
        if k + 1 < na {
          assert idx[k + 1] == ia[k + 1];
        } else {
          assert idx[k + 1] == ib[0] + m == ia[k + 1];
        }
        ToleratedPrefix(vs, m, ia[k], ia[k + 1], eps, dev);
      } else {
        var j := k - na;
        assert idx[k] == ib[j] + m && idx[k + 1] == ib[j + 1] + m;
        ToleratedSuffix(vs, m, ib[j], ib[j + 1], eps, dev);
      }
    }
  }

  /** Joining simplifications of the two halves at the split vertex m keeps
      the guarantee for the whole list. */
  lemma SplitKeptWithin<V>(vs: seq<V>, eps: real, dev: (V, V, V) -> real, m: nat, a: seq<V>, b: seq<V>)
    requires m < |vs|
    requires Simplifies(a, vs[..m + 1], eps, dev)
    requires Simplifies(b, vs[m..], eps, dev)
    ensures |a| >= 1 && Simplifies(a[..|a| - 1] + b, vs, eps, dev)
  {
    var lo, hi := vs[..m + 1], vs[m..];
    var ia :| KeptWithin(ia, a, lo, eps, dev);
    var ib :| KeptWithin(ib, b, hi, eps, dev);
    JoinEmbedding(vs, m, lo, hi, a, b, ia, ib);
    JoinTolerance(vs, eps, dev, m, ia, ib);
    var idx := JoinIdx(ia, ib, m);
    assert KeptWithin(idx, a[..|a| - 1] + b, vs, eps, dev);
  }

  /** `simplify_vertices` as the source defines it for every list: an empty
      one fails on `vertices[first]` (IndexError); otherwise the result keeps
      the ends and drops only vertices within eps of the chord between their
      kept neighbours. */
  function SimplifyVertices<V(==)>(vs: seq<V>, eps: real, dev: (V, V, V) -> real): (r: Result<seq<V>, string>)
    requires eps >= 0.0
    ensures r.Failure? <==> |vs| == 0
    ensures r.Success? ==> |r.value| >= 2 && r.value[0] == vs[0] && r.value[|r.value| - 1] == vs[|vs| - 1]
    ensures r.Success? && |vs| >= 2 ==> Simplifies(r.value, vs, eps, dev)
  {
    if |vs| == 0 then Failure("list index out of range")
    else
      SimplifyWithin(vs, eps, dev);
      Success(Simplify(vs, eps, dev))
  }
}
