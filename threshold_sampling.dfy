/** Preparing the points from which the distance threshold is estimated: drawing pairs of
    instances, measuring each pair (embedding distance and estimated similarity), and
    thinning the measured points so that they spread evenly over the range of distances.
    The embedding distance is an oracle `distance`; random sampling is a nondeterministic
    choice among the samples `random.sample` may return. */
module ThresholdSampling {
  import opened Wrappers
  import opened Seqs
  import opened Dicts
  import opened TripleStore
  import opened Similarity

  // ---------------------------------------------------------------------------
  // Drawing pairs.

  /** `itertools.combinations(s, 2)`: every pair of positions `i < j`, in lexicographic order
      of positions. */
  function Combinations2<T>(s: seq<T>): (r: seq<(T, T)>)
  {
    if |s| < 2 then []
    else seq(|s| - 1, j requires 0 <= j < |s| - 1 => (s[0], s[j + 1])) + Combinations2(s[1..])
  }

  /** There are n(n-1)/2 combinations of n elements. */
  lemma {:induction false} Combinations2Count<T>(s: seq<T>)
    ensures 2 * |Combinations2(s)| == |s| * (|s| - 1)
  {
    if |s| >= 2 {
      Combinations2Count(s[1..]);
      var n := |s|;
      assert 2 * (n - 1) + (n - 1) * (n - 2) == n * (n - 1);
    }
  }

  /** The combinations are exactly the pairs of elements at positions `i < j`. */
  lemma {:induction false} Combinations2Members<T>(s: seq<T>, x: T, y: T)
    ensures (x, y) in Combinations2(s) <==>
            exists i, j :: 0 <= i < j < |s| && s[i] == x && s[j] == y
  {
    if |s| >= 2 {
      var head := seq(|s| - 1, j requires 0 <= j < |s| - 1 => (s[0], s[j + 1]));
      Combinations2Members(s[1..], x, y);
      if (x, y) in Combinations2(s) {
        if (x, y) in head {
          var j :| 0 <= j < |head| && head[j] == (x, y);
          assert s[0] == x && s[j + 1] == y;
        } else {
          assert (x, y) in Combinations2(s[1..]);
          var i, j :| 0 <= i < j < |s[1..]| && s[1..][i] == x && s[1..][j] == y;
          assert s[i + 1] == x && s[j + 1] == y;
        }
      }
      if exists i, j :: 0 <= i < j < |s| && s[i] == x && s[j] == y {
        var i, j :| 0 <= i < j < |s| && s[i] == x && s[j] == y;
        if i == 0 {
          assert head[j - 1] == (x, y);
        } else {
          assert s[1..][i - 1] == x && s[1..][j - 1] == y;
        }
      }
    }
  }

  /** Distinct instances give distinct combinations. */
  lemma {:induction false} Combinations2NoDup<T>(s: seq<T>)
    requires NoDup(s)
    ensures NoDup(Combinations2(s))
  {
    if |s| >= 2 {
      var head := seq(|s| - 1, j requires 0 <= j < |s| - 1 => (s[0], s[j + 1]));
      var tail := Combinations2(s[1..]);
      Combinations2NoDup(s[1..]);
      forall a, b | 0 <= a < |tail| && 0 <= b < |head|
        ensures tail[a] != head[b]
      {
        assert tail[a] in tail;
        Combinations2Members(s[1..], tail[a].0, tail[a].1);
        var i, j :| 0 <= i < j < |s[1..]| && s[1..][i] == tail[a].0 && s[1..][j] == tail[a].1;
        assert s[i + 1] == tail[a].0;
      }
      var r := head + tail;
      forall a, b | 0 <= a < b < |r|
        ensures r[a] != r[b]
      {
        if b < |head| {
          assert r[a] == head[a] && r[b] == head[b];
        } else if a >= |head| {
          assert r[a] == tail[a - |head|] && r[b] == tail[b - |head|];
        } else {
          assert r[b] == tail[b - |head|] && r[a] == head[a];
        }
      }
    }
  }

  /** A sample drawn from a list without repeats has no repeats. */
  lemma SubMultisetNoDup<T>(part: seq<T>, whole: seq<T>)
    requires NoDup(whole) && multiset(part) <= multiset(whole)
    ensures NoDup(part)
  {
    forall i, j | 0 <= i < j < |part|
      ensures part[i] != part[j]
    {
      if part[i] == part[j] {
        var x := part[i];
        assert multiset(part)[x] >= 2 by {
          assert part == part[..j] + [x] + part[j + 1..];
          assert x in part[..j] by { assert part[..j][i] == x; }
        }
        CountAtMostOne(whole, x);
      }
    }
  }

  /** In a list without repeats an element occurs at most once. */
  lemma {:induction false} CountAtMostOne<T>(s: seq<T>, x: T)
    requires NoDup(s)
    ensures multiset(s)[x] <= 1
  {
    if s != [] {
      assert s == [s[0]] + s[1..];
      assert NoDup(s[1..]) by {
        forall i, j | 0 <= i < j < |s[1..]|
          ensures s[1..][i] != s[1..][j]
        {
          assert s[1..][i] == s[i + 1] && s[1..][j] == s[j + 1];
        }
      }
      CountAtMostOne(s[1..], x);
      if s[0] == x {
        assert x !in s[1..] by {
          forall k | 0 <= k < |s[1..]|
            ensures s[1..][k] != x
          {
            assert s[1..][k] == s[k + 1];
          }
        }
      }
    }
  }

  /** `draw_set_of_pairs`: `random.sample` of `nSample` of the combinations, which raises
      ValueError when `nSample` is negative or exceeds their number. */
  method DrawSetOfPairs(instances: seq<string>, nSample: int) returns (res: Result<seq<(string, string)>>)
    ensures res.Err? <==> nSample < 0 || nSample > |Combinations2(instances)|
    ensures res.Err? ==> res.error == ValueError
    ensures res.Ok? ==> |res.value| == nSample && multiset(res.value) <= multiset(Combinations2(instances))
  {
    var all := Combinations2(instances);
    if nSample < 0 || nSample > |all| {
      return Err(ValueError);
    }
    assert all == all[..nSample] + all[nSample..];
    var sample :| |sample| == nSample && multiset(sample) <= multiset(all);
    res := Ok(sample);
  }

  /** The pairs drawn from distinct instances are distinct pairs of two different positions. */
  lemma DrawnPairs(instances: seq<string>, sample: seq<(string, string)>)
    requires NoDup(instances)
    requires multiset(sample) <= multiset(Combinations2(instances))
    ensures NoDup(sample)
    ensures forall k :: 0 <= k < |sample| ==>
              exists i, j :: 0 <= i < j < |instances| && instances[i] == sample[k].0 && instances[j] == sample[k].1
  {
    Combinations2NoDup(instances);
    SubMultisetNoDup(sample, Combinations2(instances));
    forall k | 0 <= k < |sample|
      ensures exists i, j :: 0 <= i < j < |instances| && instances[i] == sample[k].0 && instances[j] == sample[k].1
    {
      DrawnPairFrom(instances, sample, k);
    }
  }

  /** A drawn pair comes from two positions in order. */
  lemma DrawnPairFrom(instances: seq<string>, sample: seq<(string, string)>, k: nat)
    requires multiset(sample) <= multiset(Combinations2(instances))
    requires k < |sample|
    ensures exists i, j :: 0 <= i < j < |instances| && instances[i] == sample[k].0 && instances[j] == sample[k].1
  {
    assert sample[k] in multiset(sample);
    Combinations2Members(instances, sample[k].0, sample[k].1);
  }

  // ---------------------------------------------------------------------------
  // Measuring pairs.

  /** A measured pair: `[distance, similarity]`. */
  type Point = (real, real)

  /** The similarity of each pair, computed from a relative weight of 1. */
  function Similarities(pairs: seq<(string, string)>, X: seq<Triple>, fun: Dict<string, int>,
                        typeEnd: seq<string>, pathType: string, score: Triple -> real)
    : (sims: seq<Result<real>>)
    requires Valid(fun)
    ensures |sims| == |pairs|
  {
    if pairs == [] then []
    else
      Similarities(pairs[..|pairs| - 1], X, fun, typeEnd, pathType, score)
        + [SimilarityScore(pairs[|pairs| - 1], X, fun, typeEnd, pathType, score, 1.0)]
  }

  /** The `i`-th similarity is that of the `i`-th pair. */
  lemma {:induction false} SimilarityAt(pairs: seq<(string, string)>, X: seq<Triple>, fun: Dict<string, int>,
                                        typeEnd: seq<string>, pathType: string, score: Triple -> real, i: nat)
    requires Valid(fun) && i < |pairs|
    ensures Similarities(pairs, X, fun, typeEnd, pathType, score)[i]
            == SimilarityScore(pairs[i], X, fun, typeEnd, pathType, score, 1.0)
  {
    if i < |pairs| - 1 {
      SimilarityAt(pairs[..|pairs| - 1], X, fun, typeEnd, pathType, score, i);
    }
  }

  /** The list `get_measures_for_pairs` builds from the pairs' similarities `sims`: a point
      `[distance, similarity]` per pair, in order; the first similarity that raises ends it
      with its error. */
  function Measured(pairs: seq<(string, string)>, sims: seq<Result<real>>,
                    distance: ((string, string)) -> real): Result<seq<Point>>
    requires |sims| == |pairs|
  {
    if pairs == [] then Ok([])
    else
      match Measured(pairs[..|pairs| - 1], sims[..|sims| - 1], distance)
      case Err(e) => Err(e)
      case Ok(ms) =>
        match sims[|sims| - 1]
        case Err(e) => Err(e)
        case Ok(sim) => Ok(ms + [(distance(pairs[|pairs| - 1]), sim)])
  }

  /** A successful measurement has one point per pair, holding that pair's distance and
      similarity. */
  lemma {:induction false} MeasuredAligned(pairs: seq<(string, string)>, sims: seq<Result<real>>,
                                           distance: ((string, string)) -> real)
    requires |sims| == |pairs| && Measured(pairs, sims, distance).Ok?
    ensures |Measured(pairs, sims, distance).value| == |pairs|
    ensures forall i :: 0 <= i < |pairs| ==>
              sims[i].Ok? && Measured(pairs, sims, distance).value[i] == (distance(pairs[i]), sims[i].value)
  {
    if pairs != [] {
      var n := |pairs|;
      MeasuredAligned(pairs[..n - 1], sims[..n - 1], distance);
      var ms0 := Measured(pairs[..n - 1], sims[..n - 1], distance).value;
      var ms := Measured(pairs, sims, distance).value;
      assert forall i :: 0 <= i < n - 1 ==> ms[i] == ms0[i] && pairs[i] == pairs[..n - 1][i] && sims[i] == sims[..n - 1][i];
    }
  }

  /** When every similarity succeeds, so does the measurement. */
  lemma {:induction false} MeasuredAllOk(pairs: seq<(string, string)>, sims: seq<Result<real>>,
                                         distance: ((string, string)) -> real)
    requires |sims| == |pairs| && forall i :: 0 <= i < |sims| ==> sims[i].Ok?
    ensures Measured(pairs, sims, distance).Ok?
  {
    if pairs != [] {
      var n := |pairs|;
      assert forall i :: 0 <= i < n - 1 ==> sims[..n - 1][i] == sims[i];
      MeasuredAllOk(pairs[..n - 1], sims[..n - 1], distance);
    }
  }

  /** Otherwise it fails with the error of the first pair whose similarity raises. */
  lemma {:induction false} MeasuredFirstError(pairs: seq<(string, string)>, sims: seq<Result<real>>,
                                              distance: ((string, string)) -> real, k: nat)
    requires |sims| == |pairs| && k < |sims| && sims[k].Err?
    requires forall i :: 0 <= i < k ==> sims[i].Ok?
    ensures Measured(pairs, sims, distance) == Err(sims[k].error)
  {
    var n := |pairs|;
    assert forall i :: 0 <= i < n - 1 ==> sims[..n - 1][i] == sims[i];
    if k == n - 1 {
      MeasuredAllOk(pairs[..n - 1], sims[..n - 1], distance);
    } else {
      MeasuredFirstError(pairs[..n - 1], sims[..n - 1], distance, k);
    }
  }

  /** One more successful similarity appends one point. */
  lemma MeasuredSnoc(pairs: seq<(string, string)>, sims: seq<Result<real>>,
                     distance: ((string, string)) -> real, i: nat)
    requires |sims| == |pairs| && i < |pairs|
    requires Measured(pairs[..i], sims[..i], distance).Ok?
    ensures Measured(pairs[..i + 1], sims[..i + 1], distance) ==
            match sims[i]
            case Err(e) => Err(e)
            case Ok(sim) => Ok(Measured(pairs[..i], sims[..i], distance).value + [(distance(pairs[i]), sim)])
  {
    assert pairs[..i + 1][..i] == pairs[..i];
    assert sims[..i + 1][..i] == sims[..i];
  }

  /** A failed prefix fails the whole measurement the same way. */
  lemma {:induction false} MeasuredStopsAtError(pairs: seq<(string, string)>, sims: seq<Result<real>>,
                                                distance: ((string, string)) -> real, i: nat)
    requires |sims| == |pairs| && i <= |pairs|
    requires Measured(pairs[..i], sims[..i], distance).Err?
    ensures Measured(pairs, sims, distance) == Measured(pairs[..i], sims[..i], distance)
    decreases |pairs| - i
  {
    if i < |pairs| {
      assert pairs[..i + 1][..i] == pairs[..i];
      assert sims[..i + 1][..i] == sims[..i];
      MeasuredStopsAtError(pairs, sims, distance, i + 1);
    } else {
      assert pairs[..i] == pairs && sims[..i] == sims;
    }
  }

  /** One round of the loop: the similarity of the `i`-th pair. */
  method PairSimilarity(pairs: seq<(string, string)>, X: seq<Triple>, fun: Dict<string, int>,
                        typeEnd: seq<string>, pathType: string, score: Triple -> real, i: nat)
    returns (sim: Result<real>)
    requires Valid(fun) && i < |pairs|
    ensures sim == Similarities(pairs, X, fun, typeEnd, pathType, score)[i]
  {
    sim := SimilarityForPair(pairs[i], X, fun, typeEnd, pathType, score, 1.0);
    SimilarityAt(pairs, X, fun, typeEnd, pathType, score, i);
  }

  /** `get_measures_for_pairs`. */
  method MeasuresForPairs(pairs: seq<(string, string)>, X: seq<Triple>, fun: Dict<string, int>,
                          typeEnd: seq<string>, pathType: string, score: Triple -> real,
                          distance: ((string, string)) -> real)
    returns (res: Result<seq<Point>>)
    requires Valid(fun)
    ensures res == Measured(pairs, Similarities(pairs, X, fun, typeEnd, pathType, score), distance)
  {
    ghost var sims := Similarities(pairs, X, fun, typeEnd, pathType, score);
    var measures := [];
    var i := 0;
    while i < |pairs|
      invariant 0 <= i <= |pairs|
      invariant Measured(pairs[..i], sims[..i], distance) == Ok(measures)
    {
      var dist := distance(pairs[i]);
      var sim := PairSimilarity(pairs, X, fun, typeEnd, pathType, score, i);
      MeasuredSnoc(pairs, sims, distance, i);
      if sim.Err? {
        MeasuredStopsAtError(pairs, sims, distance, i + 1);
        return Err(sim.error);
      }
      measures := measures + [(dist, sim.value)];
      i := i + 1;
    }
    assert pairs[..i] == pairs && sims[..i] == sims;
    return Ok(measures);
  }

  // ---------------------------------------------------------------------------
  // Thinning the measured points.

  /** A closed interval `[lower, upper]` of distances. */
  type Interval = (real, real)

  predicate InInterval(iv: Interval, d: real)
  {
    iv.0 <= d <= iv.1
  }

  /** `lo + step * i`, written as a running sum (equal to the product form by `MarkIsProduct`). */
  function Mark(lo: real, step: real, i: nat): real
  {
    if i == 0 then lo else Mark(lo, step, i - 1) + step
  }

  lemma {:induction false} MarkIsProduct(lo: real, step: real, i: nat)
    ensures Mark(lo, step, i) == lo + step * i as real
  {
    if i > 0 {
      MarkIsProduct(lo, step, i - 1);
      assert step * (i - 1) as real + step == step * i as real;
    }
  }

  lemma {:induction false} MarkMonotone(lo: real, step: real, i: nat, j: nat)
    requires step >= 0.0 && i <= j
    ensures Mark(lo, step, i) <= Mark(lo, step, j)
    decreases j
  {
    if i < j {
      MarkMonotone(lo, step, i, j - 1);
    }
  }

  /** `[[lo + step*i, lo + step*(i+1)] for i in range(n)]`. */
  function Intervals(lo: real, step: real, n: nat): (r: seq<Interval>)
    ensures |r| == n
  {
    seq(n, i requires 0 <= i < n => (Mark(lo, step, i), Mark(lo, step, i + 1)))
  }

  /** The width of each interval for `numberStep` intervals over the distances. */
  function Step(ms: seq<Point>, numberStep: int): real
    requires ms != [] && numberStep != 0
  {
    (MaxReal(Firsts(ms)) - MinReal(Firsts(ms))) / numberStep as real
  }

  /** The keys of `dic_intervals`: the intervals as tuples, so that equal intervals collapse
      into one key kept at its first place. */
  function Keys(ms: seq<Point>, numberStep: int): seq<Interval>
    requires ms != [] && numberStep > 0
  {
    Dedup(Intervals(MinReal(Firsts(ms)), Step(ms, numberStep), numberStep))
  }

  /** The points the binning loop appends under interval `iv`, in their original order. */
  function Bin(ms: seq<Point>, iv: Interval): (b: seq<Point>)
    ensures |b| <= |ms|
  {
    if ms == [] then []
    else Bin(ms[..|ms| - 1], iv) + (if InInterval(iv, ms[|ms| - 1].0) then [ms[|ms| - 1]] else [])
  }

  /** A bin holds exactly the points whose distance lies in its interval. */
  lemma {:induction false} BinMembers(ms: seq<Point>, iv: Interval, x: Point)
    ensures x in Bin(ms, iv) <==> x in ms && InInterval(iv, x.0)
  {
    if ms != [] {
      BinMembers(ms[..|ms| - 1], iv, x);
      assert ms == ms[..|ms| - 1] + [ms[|ms| - 1]];
    }
  }

  lemma BinSnoc(ms: seq<Point>, i: nat, iv: Interval)
    requires i < |ms|
    ensures Bin(ms[..i + 1], iv) == Bin(ms[..i], iv) + (if InInterval(iv, ms[i].0) then [ms[i]] else [])
  {
    assert ms[..i + 1][..i] == ms[..i];
  }

  /** What one interval contributes: all of its points when there are at most `numberPoints`,
      otherwise a sample of exactly `numberPoints` of them. */
  ghost predicate Drawn(part: seq<Point>, bin: seq<Point>, numberPoints: int)
  {
    if |bin| <= numberPoints then part == bin
    else |part| == numberPoints && multiset(part) <= multiset(bin)
  }

  /** Every interval's list of points. */
  function BinsOf(ms: seq<Point>, keys: seq<Interval>): (bins: seq<seq<Point>>)
    ensures |bins| == |keys|
  {
    seq(|keys|, j requires 0 <= j < |keys| => Bin(ms, keys[j]))
  }

  /** After `i` points and, for the point `i`, the first `k` intervals. */
  ghost predicate Binned(bins: seq<seq<Point>>, ms: seq<Point>, keys: seq<Interval>, i: nat, k: nat)
  {
    i < |ms| && k <= |keys| && |bins| == |keys| &&
    (forall j :: 0 <= j < k ==> bins[j] == Bin(ms[..i + 1], keys[j])) &&
    (forall j :: k <= j < |keys| ==> bins[j] == Bin(ms[..i], keys[j]))
  }

  /** The binning loop: each point is appended under every interval that contains it. */
  method BinPoints(ms: seq<Point>, keys: seq<Interval>) returns (bins: seq<seq<Point>>)
    ensures bins == BinsOf(ms, keys)
  {
    bins := seq(|keys|, j => []);
    var i := 0;
    while i < |ms|
      invariant 0 <= i <= |ms| && |bins| == |keys|
      invariant forall j :: 0 <= j < |keys| ==> bins[j] == Bin(ms[..i], keys[j])
    {
      var k := 0;
      while k < |keys|
        invariant Binned(bins, ms, keys, i, k)
      {
        BinSnoc(ms, i, keys[k]);
        if InInterval(keys[k], ms[i].0) {
          bins := bins[k := bins[k] + [ms[i]]];
        }
        k := k + 1;
      }
      i := i + 1;
    }
    assert ms[..i] == ms;
  }

  /** Each part is what its bin contributes. */
  ghost predicate AllDrawn(parts: seq<seq<Point>>, bins: seq<seq<Point>>, numberPoints: int)
  {
    |parts| == |bins| && forall j :: 0 <= j < |parts| ==> Drawn(parts[j], bins[j], numberPoints)
  }

  lemma AllDrawnSnoc(parts: seq<seq<Point>>, bins: seq<seq<Point>>, numberPoints: int, part: seq<Point>, k: nat)
    requires k < |bins| && AllDrawn(parts, bins[..k], numberPoints) && Drawn(part, bins[k], numberPoints)
    ensures AllDrawn(parts + [part], bins[..k + 1], numberPoints)
  {
    assert forall j :: 0 <= j < k ==> bins[..k + 1][j] == bins[..k][j];
  }

  /** How many points the sampling keeps: from each interval its size, capped at
      `numberPoints`. */
  function Retained(bins: seq<seq<Point>>, numberPoints: int): int
  {
    if bins == [] then 0
    else
      var last := bins[|bins| - 1];
      Retained(bins[..|bins| - 1], numberPoints) + (if |last| <= numberPoints then |last| else numberPoints)
  }

  /** The sampling loop: each interval's points in key order, all of them when there are at
      most `numberPoints`, otherwise a `random.sample` of `numberPoints` of them. */
  method SampleBins(bins: seq<seq<Point>>, numberPoints: int) returns (subset: seq<Point>, ghost parts: seq<seq<Point>>)
    requires numberPoints >= 0 || bins == []
    ensures |subset| == Retained(bins, numberPoints)
    ensures subset == Concat(parts) && AllDrawn(parts, bins, numberPoints)
  {
    subset := [];
    parts := [];
    var k := 0;
    while k < |bins|
      invariant 0 <= k <= |bins|
      invariant |subset| == Retained(bins[..k], numberPoints)
      invariant subset == Concat(parts) && AllDrawn(parts, bins[..k], numberPoints)
    {
      assert bins[..k + 1][..k] == bins[..k];
      var part;
      if |bins[k]| <= numberPoints {
        part := bins[k];
      } else {
        assert bins[k] == bins[k][..numberPoints] + bins[k][numberPoints..];
        part :| |part| == numberPoints && multiset(part) <= multiset(bins[k]);
      }
      AllDrawnSnoc(parts, bins, numberPoints, part, k);
      ConcatSnoc(parts, part);
      subset := subset + part;
      parts := parts + [part];
      k := k + 1;
    }
    assert bins[..k] == bins;
  }

  /** Every retained point is one of the measured points. */
  lemma DrawnFromMeasures(ms: seq<Point>, keys: seq<Interval>, parts: seq<seq<Point>>, numberPoints: int)
    requires AllDrawn(parts, BinsOf(ms, keys), numberPoints)
    ensures forall x :: x in Concat(parts) ==> x in ms
  {
    forall x | x in Concat(parts)
      ensures x in ms
    {
      InConcat(parts, x);
      var k :| 0 <= k < |parts| && x in parts[k];
      assert Drawn(parts[k], Bin(ms, keys[k]), numberPoints);
      assert x in multiset(parts[k]);
      BinMembers(ms, keys[k], x);
    }
  }

  /** `get_subset_points_for_threshold`. Empty `measures` raises ValueError (`max` of an
      empty list), `numberStep == 0` ZeroDivisionError, a negative `numberStep` gives no
      interval and so no point, and a negative `numberPoints` makes the first `random.sample`
      raise ValueError. Otherwise the result is the concatenation, in key order, of what each
      interval contributes; `parts` names those contributions. */
  method SubsetPointsForThreshold(measures: seq<Point>, numberPoints: int, numberStep: int)
    returns (res: Result<seq<Point>>, ghost parts: seq<seq<Point>>)
    ensures measures == [] ==> res == Err(ValueError)
    ensures measures != [] && numberStep == 0 ==> res == Err(ZeroDivisionError)
    ensures measures != [] && numberStep < 0 ==> res == Ok([])
    ensures measures != [] && numberStep > 0 && numberPoints < 0 ==> res == Err(ValueError)
    ensures measures != [] && numberStep > 0 && numberPoints >= 0 ==>
              res == Ok(Concat(parts)) && AllDrawn(parts, BinsOf(measures, Keys(measures, numberStep)), numberPoints)
    ensures measures != [] && numberStep > 0 && numberPoints >= 0 ==>
              res.Ok? && |res.value| == Retained(BinsOf(measures, Keys(measures, numberStep)), numberPoints)
    ensures res.Ok? ==> forall x :: x in res.value ==> x in measures
  {
    parts := [];
    if measures == [] {
      return Err(ValueError), parts;
    }
    var distances := Firsts(measures);
    if numberStep == 0 {
      return Err(ZeroDivisionError), parts;
    }
    var lo := MinReal(distances);
    var step := (MaxReal(distances) - lo) / numberStep as real;
    var n := if numberStep > 0 then numberStep else 0;
    var keys := Dedup(Intervals(lo, step, n));
    if n > 0 {
      assert keys == Keys(measures, numberStep);
      assert Intervals(lo, step, n)[0] in keys;
    } else {
      assert keys == [];
    }
    var bins := BinPoints(measures, keys);
    if numberPoints < 0 && |keys| > 0 {
      // the first interval already holds more than a negative number of points
      return Err(ValueError), parts;
    }
    var subset;
    subset, parts := SampleBins(bins, numberPoints);
    DrawnFromMeasures(measures, keys, parts, numberPoints);
    return Ok(subset), parts;
  }

  // ---------------------------------------------------------------------------
  // Properties of the intervals.

  /** `numberStep` steps of the computed width span exactly from the smallest distance to
      the largest. */
  lemma StepSpan(ms: seq<Point>, numberStep: int)
    requires ms != [] && numberStep > 0
    ensures Mark(MinReal(Firsts(ms)), Step(ms, numberStep), numberStep) == MaxReal(Firsts(ms))
    ensures Step(ms, numberStep) >= 0.0
    ensures Step(ms, numberStep) == 0.0 <==> MaxReal(Firsts(ms)) == MinReal(Firsts(ms))
  {
    var ds := Firsts(ms);
    var lo := MinReal(ds);
    var hi := MaxReal(ds);
    assert lo <= ds[0] <= hi;
    MarkSpan(lo, hi, numberStep);
  }

  lemma MarkSpan(lo: real, hi: real, n: nat)
    requires n > 0 && lo <= hi
    ensures Mark(lo, (hi - lo) / n as real, n) == hi
    ensures (hi - lo) / n as real >= 0.0
    ensures (hi - lo) / n as real == 0.0 <==> hi == lo
  {
    var step := (hi - lo) / n as real;
    MarkIsProduct(lo, step, n);
    assert step * n as real == hi - lo;
  }

  /** The intervals start at the smallest distance, have equal width, meet end to end, and
      the last one ends at the largest distance. */
  lemma IntervalsSpan(ms: seq<Point>, numberStep: int)
    requires ms != [] && numberStep > 0
    ensures var lo := MinReal(Firsts(ms));
            var step := Step(ms, numberStep);
            var ivs := Intervals(lo, step, numberStep);
            && ivs[0].0 == lo
            && ivs[numberStep - 1].1 == MaxReal(Firsts(ms))
            && (forall i :: 0 <= i < numberStep ==> ivs[i].1 - ivs[i].0 == step)
            && (forall i :: 0 <= i < numberStep - 1 ==> ivs[i].1 == ivs[i + 1].0)
  {
    StepSpan(ms, numberStep);
  }

  /** A point on the boundary between two neighbouring intervals is binned under both. */
  lemma BoundaryInBoth(ms: seq<Point>, numberStep: int, i: nat, x: Point)
    requires ms != [] && numberStep > 0 && 0 < i < numberStep
    requires x in ms && x.0 == Mark(MinReal(Firsts(ms)), Step(ms, numberStep), i)
    ensures var ivs := Intervals(MinReal(Firsts(ms)), Step(ms, numberStep), numberStep);
            x in Bin(ms, ivs[i - 1]) && x in Bin(ms, ivs[i])
  {
    StepSpan(ms, numberStep);
    BoundaryAt(ms, MinReal(Firsts(ms)), Step(ms, numberStep), numberStep, i, x);
  }

  /** The same for any marks a non-negative step apart. */
  lemma BoundaryAt(ms: seq<Point>, lo: real, step: real, n: nat, i: nat, x: Point)
    requires step >= 0.0 && 0 < i < n
    requires x in ms && x.0 == Mark(lo, step, i)
    ensures x in Bin(ms, Intervals(lo, step, n)[i - 1]) && x in Bin(ms, Intervals(lo, step, n)[i])
  {
    var ivs := Intervals(lo, step, n);
    assert Mark(lo, step, i - 1) <= x.0;
    BinMembers(ms, ivs[i - 1], x);
    BinMembers(ms, ivs[i], x);
  }

  /** A value between the first and the last mark lies between two consecutive marks. */
  lemma {:induction false} Cell(lo: real, step: real, n: nat, d: real) returns (i: nat)
    requires n > 0 && lo <= d <= Mark(lo, step, n)
    ensures i < n && Mark(lo, step, i) <= d <= Mark(lo, step, i + 1)
  {
    if n > 1 && d <= Mark(lo, step, n - 1) {
      i := Cell(lo, step, n - 1, d);
    } else {
      i := n - 1;
    }
  }

  /** Every point falls into at least one interval, so none is lost by the binning. */
  lemma PointCovered(ms: seq<Point>, numberStep: int, x: Point)
    requires ms != [] && numberStep > 0 && x in ms
    ensures exists k :: 0 <= k < |Keys(ms, numberStep)| && x in Bin(ms, Keys(ms, numberStep)[k])
  {
    var ds := Firsts(ms);
    var p :| 0 <= p < |ms| && ms[p] == x;
    assert MinReal(ds) <= ds[p] <= MaxReal(ds);
    StepSpan(ms, numberStep);
    var keys := Dedup(Intervals(MinReal(ds), Step(ms, numberStep), numberStep));
    var k := CoveredBy(ms, MinReal(ds), Step(ms, numberStep), numberStep, x);
    assert keys == Keys(ms, numberStep);
    assert x in Bin(ms, keys[k]);
  }

  /** The same for any marks from `lo` to `Mark(lo, step, n)`. */
  lemma CoveredBy(ms: seq<Point>, lo: real, step: real, n: nat, x: Point) returns (k: nat)
    requires n > 0 && x in ms && lo <= x.0 <= Mark(lo, step, n)
    ensures k < |Dedup(Intervals(lo, step, n))| && x in Bin(ms, Dedup(Intervals(lo, step, n))[k])
  {
    var ivs := Intervals(lo, step, n);
    var keys := Dedup(ivs);
    var i := Cell(lo, step, n, x.0);
    assert ivs[i] in keys;
    k :| 0 <= k < |keys| && keys[k] == ivs[i];
    assert InInterval(keys[k], x.0);
    BinMembers(ms, keys[k], x);
  }

  /** Dedup leaves a list without repeats unchanged. */
  lemma {:induction false} DedupNoDup<T>(s: seq<T>)
    requires NoDup(s)
    ensures Dedup(s) == s
  {
    if s != [] {
      var init := s[..|s| - 1];
      DedupNoDup(init);
      assert s[|s| - 1] !in init by {
        forall j | 0 <= j < |init|
          ensures init[j] != s[|s| - 1]
        {
          assert init[j] == s[j];
        }
      }
      assert s == init + [s[|s| - 1]];
    }
  }

  /** When the distances are not all equal there are exactly `numberStep` distinct intervals;
      when they are all equal every interval is the same point and a single key remains. */
  lemma KeysCount(ms: seq<Point>, numberStep: int)
    requires ms != [] && numberStep > 0
    ensures MaxReal(Firsts(ms)) > MinReal(Firsts(ms)) ==> |Keys(ms, numberStep)| == numberStep
    ensures MaxReal(Firsts(ms)) == MinReal(Firsts(ms)) ==> |Keys(ms, numberStep)| == 1
  {
    StepSpan(ms, numberStep);
    IntervalsDistinct(MinReal(Firsts(ms)), Step(ms, numberStep), numberStep);
  }

  /** Marks a positive step apart give distinct intervals; a zero step gives one. */
  lemma IntervalsDistinct(lo: real, step: real, n: nat)
    requires n > 0 && step >= 0.0
    ensures step > 0.0 ==> |Dedup(Intervals(lo, step, n))| == n
    ensures step == 0.0 ==> |Dedup(Intervals(lo, step, n))| == 1
  {
    var ivs := Intervals(lo, step, n);
    if step > 0.0 {
      forall a, b | 0 <= a < b < n
        ensures ivs[a] != ivs[b]
      {
        MarkMonotone(lo, step, a + 1, b);
      }
      DedupNoDup(ivs);
    } else {
      forall i | 0 <= i < n
        ensures ivs[i] == (lo, lo)
      {
        MarkIsProduct(lo, step, i);
        MarkIsProduct(lo, step, i + 1);
      }
      DedupConstant(ivs, (lo, lo));
    }
  }

  /** Dedup of a non-empty list of one repeated value is that value alone. */
  lemma {:induction false} DedupConstant<T>(s: seq<T>, v: T)
    requires s != [] && forall i :: 0 <= i < |s| ==> s[i] == v
    ensures Dedup(s) == [v]
  {
    if |s| > 1 {
      DedupConstant(s[..|s| - 1], v);
    }
  }
}
