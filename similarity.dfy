/** The similarity of two instances as estimated from an embedding model's scores: for
    every property of the functionality map, each instance's best-scored objects are compared,
    and an end node contributes the share of common objects times the property's weight.
    The model's scoring of a triple is an oracle `score`. */
module Similarity {
  import opened Wrappers
  import opened Seqs
  import opened Dicts
  import opened StrOrder
  import opened TripleStore

  /** `get_objects_of_property`: `np.unique` of the objects of all triples with predicate `p`. */
  function ObjectsOfProperty(X: seq<Triple>, p: string): (r: seq<string>)
    ensures Sorted(r)
    ensures forall o :: o in r <==> o in ObjectsOfPredicate(X, p)
  {
    Unique(ObjectsOfPredicate(X, p))
  }

  /** The candidates of a property are, in ascending order and once each, the objects of
      its triples; any ascending list of exactly those objects is this one. */
  lemma ObjectsOfPropertyCharacterized(X: seq<Triple>, p: string, s: seq<string>)
    ensures forall o :: o in ObjectsOfProperty(X, p) <==> exists k :: 0 <= k < |X| && X[k].1 == p && X[k].2 == o
    ensures Sorted(s) && (forall o :: o in s <==> exists k :: 0 <= k < |X| && X[k].1 == p && X[k].2 == o) ==>
              s == ObjectsOfProperty(X, p)
  {
    ObjectsOfPredicateMembers(X, p);
    if Sorted(s) && (forall o :: o in s <==> exists k :: 0 <= k < |X| && X[k].1 == p && X[k].2 == o) {
      SortedDetermined(s, ObjectsOfProperty(X, p));
    }
  }

  /** `get_properties_to_assess`: `np.unique` of the predicates of the first instance's triples. */
  function PropertiesToAssess(pair: (string, string), X: seq<Triple>): (r: seq<string>)
    ensures Sorted(r)
    ensures forall q :: q in r <==> q in PredicatesOf(X, pair.0)
  {
    Unique(PredicatesOf(X, pair.0))
  }

  /** The properties to assess are, in ascending order and once each, the predicates of the
      first instance's triples. */
  lemma PropertiesToAssessCharacterized(pair: (string, string), X: seq<Triple>)
    ensures forall q :: q in PropertiesToAssess(pair, X) <==>
              exists k :: 0 <= k < |X| && X[k].0 == pair.0 && X[k].1 == q
  {
    PredicatesOfMembers(X, pair.0);
  }

  // ---------------------------------------------------------------------------
  // Ranking the candidate objects of a property by the model's score.

  /** One row of the frame `create_df_values_scores` builds: an object and its score. */
  type Row = (string, real)

  /** The rows for `entity` and `property`, one per candidate object, in candidate order. */
  function ScoredRows(entity: string, property: string, objects: seq<string>,
                      score: Triple -> real): (r: seq<Row>)
    ensures |r| == |objects|
    ensures forall i :: 0 <= i < |r| ==> r[i] == (objects[i], score((entity, property, objects[i])))
  {
    seq(|objects|, i requires 0 <= i < |objects| => (objects[i], score((entity, property, objects[i]))))
  }

  /** Scores never increase along the list. */
  predicate Descending(s: seq<Row>)
  {
    forall i, j :: 0 <= i < j < |s| ==> s[i].1 >= s[j].1
  }

  /** Inserts a row before the first row it does not score below (ties go first). */
  function InsertRow(x: Row, s: seq<Row>): (r: seq<Row>)
    requires Descending(s)
    ensures Descending(r)
    ensures multiset(r) == multiset(s) + multiset{x}
  {
    if s == [] || x.1 >= s[0].1 then
      DescendingCons(x, s);
      [x] + s
    else
      var rest := InsertRow(x, s[1..]);
      HeadAbove(s, x, rest);
      DescendingCons(s[0], rest);
      assert s == [s[0]] + s[1..];
      [s[0]] + rest
  }

  lemma DescendingCons(h: Row, t: seq<Row>)
    requires Descending(t)
    requires t != [] ==> h.1 >= t[0].1
    ensures Descending([h] + t)
  {
  }

  /** A rearrangement of the tail plus a row scoring below the head still scores below it. */
  lemma HeadAbove(s: seq<Row>, x: Row, rest: seq<Row>)
    requires Descending(s) && s != [] && x.1 < s[0].1
    requires multiset(rest) == multiset(s[1..]) + multiset{x}
    ensures rest != [] ==> s[0].1 >= rest[0].1
    ensures forall j :: 0 <= j < |rest| ==> s[0].1 >= rest[j].1
  {
    forall j | 0 <= j < |rest|
      ensures s[0].1 >= rest[j].1
    {
      assert rest[j] in multiset(rest);
      if rest[j] != x {
        assert rest[j] in multiset(s[1..]);
        var k :| 0 <= k < |s[1..]| && s[1..][k] == rest[j];
        assert s[k + 1] == rest[j];
      }
    }
  }

  /** `sort_values(by=['score'], ascending=False)`: a descending rearrangement of the rows
      (pandas' default sort does not promise an order among equal scores; this one keeps
      their original order, and every property below holds for any order of ties). */
  function SortByScore(s: seq<Row>): (r: seq<Row>)
    ensures Descending(r)
    ensures multiset(r) == multiset(s)
  {
    if s == [] then []
    else
      assert s == [s[0]] + s[1..];
      InsertRow(s[0], SortByScore(s[1..]))
  }

  /** Python's `s[:f]`: a negative bound counts from the end. */
  function SliceTo<T>(s: seq<T>, f: int): (r: seq<T>)
    ensures f >= 0 ==> |r| == if f < |s| then f else |s|
    ensures f < 0 ==> |r| == if |s| + f > 0 then |s| + f else 0
    ensures r == s[..|r|]
  {
    if f >= 0 then (if f < |s| then s[..f] else s)
    else if |s| + f > 0 then s[..|s| + f] else []
  }

  /** `get_n_objects_for_property_entity`: the first `f` objects once the candidates are
      ranked by the score the model gives `(entity, property, object)`. */
  function TopObjects(entity: string, property: string, objects: seq<string>,
                      score: Triple -> real, f: int): (r: seq<string>)
    ensures f >= 0 ==> |r| == if f < |objects| then f else |objects|
    ensures |r| <= |objects|
    ensures forall i :: 0 <= i < |r| ==> r[i] in objects
  {
    var sorted := SortByScore(ScoredRows(entity, property, objects, score));
    assert |sorted| == |objects| by {
      assert |multiset(sorted)| == |multiset(ScoredRows(entity, property, objects, score))|;
    }
    var r := SliceTo(Firsts(sorted), f);  // `list(df_['object'])[:func_]`
    assert forall i :: 0 <= i < |r| ==> r[i] in objects by {
      forall i | 0 <= i < |r|
        ensures r[i] in objects
      {
        assert sorted[i] in multiset(ScoredRows(entity, property, objects, score));
        var k :| 0 <= k < |objects| && ScoredRows(entity, property, objects, score)[k] == sorted[i];
      }
    }
    r
  }

  /** The selection is a best prefix: every chosen object scores at least as well as every
      candidate left out. */
  lemma TopObjectsDominate(entity: string, property: string, objects: seq<string>,
                           score: Triple -> real, f: int, o: string, o': string)
    requires o in TopObjects(entity, property, objects, score, f)
    requires o' in objects && o' !in TopObjects(entity, property, objects, score, f)
    ensures score((entity, property, o)) >= score((entity, property, o'))
  {
    var rows := ScoredRows(entity, property, objects, score);
    var sorted := SortByScore(rows);
    var top := TopObjects(entity, property, objects, score, f);
    assert top == SliceTo(Firsts(sorted), f);
    var i :| 0 <= i < |top| && top[i] == o;
    var k :| 0 <= k < |objects| && objects[k] == o';
    assert rows[k] in multiset(sorted) by {
      assert rows[k] in multiset(rows);
    }
    var j :| 0 <= j < |sorted| && sorted[j] == rows[k];
    PrefixMembers(Firsts(sorted), |top|);
    assert sorted[i].1 >= sorted[j].1;
    assert sorted[i] in multiset(rows);
  }

  /** The selection is itself ranked: its objects come in descending score order, so
      `top[0]` is the best-scored candidate. */
  lemma TopObjectsOrdered(entity: string, property: string, objects: seq<string>,
                          score: Triple -> real, f: int, i: nat, j: nat)
    requires i < j < |TopObjects(entity, property, objects, score, f)|
    ensures var top := TopObjects(entity, property, objects, score, f);
            score((entity, property, top[i])) >= score((entity, property, top[j]))
  {
    var rows := ScoredRows(entity, property, objects, score);
    var sorted := SortByScore(rows);
    var top := TopObjects(entity, property, objects, score, f);
    assert top == SliceTo(Firsts(sorted), f);
    assert |sorted| == |objects| by {
      assert |multiset(sorted)| == |multiset(rows)|;
    }
    assert top[i] == sorted[i].0 && top[j] == sorted[j].0;
    ScoredRowScore(entity, property, objects, score, sorted[i]);
    ScoredRowScore(entity, property, objects, score, sorted[j]);
  }

  /** A row of the ranking carries the score of its own object. */
  lemma ScoredRowScore(entity: string, property: string, objects: seq<string>, score: Triple -> real, x: Row)
    requires x in multiset(SortByScore(ScoredRows(entity, property, objects, score)))
    ensures x.1 == score((entity, property, x.0))
  {
    var rows := ScoredRows(entity, property, objects, score);
    assert x in multiset(rows);
    var k :| 0 <= k < |rows| && rows[k] == x;
  }

  lemma PrefixMembers<T>(s: seq<T>, m: nat)
    requires m <= |s|
    ensures forall j :: 0 <= j < m ==> s[j] in s[..m]
  {
    forall j | 0 <= j < m
      ensures s[j] in s[..m]
    {
      assert s[..m][j] == s[j];
    }
  }

  // ---------------------------------------------------------------------------
  // End nodes.

  /** `end_node`: True when the object of the first `pathType` triple of the whole graph is
      one of `typeEnd` (whatever the entity), otherwise True exactly when the entity is the
      subject of no triple; IndexError when no triple has predicate `pathType`. */
  function EndNode(entity: string, X: seq<Triple>, pathType: string, typeEnd: seq<string>): (r: Result<bool>)
    ensures r.Err? <==> forall k :: 0 <= k < |X| ==> X[k].1 != pathType
    ensures r.Err? ==> r.error == IndexError
    ensures r == Ok(false) ==> exists k :: 0 <= k < |X| && X[k].0 == entity
  {
    var k := FirstIndex(X, (t: Triple) => t.1 == pathType);
    if k == |X| then Err(IndexError)
    else if X[k].2 in typeEnd then Ok(true)
    else
      var own := WithSubject(X, entity);
      assert |own| > 0 ==> exists k :: 0 <= k < |X| && X[k].0 == entity by {
        if |own| > 0 {
          assert own[0] in X && own[0].0 == entity;
        }
      }
      Ok(|own| == 0)
  }

  /** When the first `pathType` triple points into `typeEnd`, every entity is an end node. */
  lemma EndNodeIgnoresEntity(X: seq<Triple>, pathType: string, typeEnd: seq<string>, k: nat, e: string)
    requires k < |X| && X[k].1 == pathType && X[k].2 in typeEnd
    requires forall i :: 0 <= i < k ==> X[i].1 != pathType
    ensures EndNode(e, X, pathType, typeEnd) == Ok(true)
  {
    var j := FirstIndex(X, (t: Triple) => t.1 == pathType);
    assert j == k;
  }

  /** Once the first `pathType` triple is found, the answer is decided: an end node exactly when
      that triple points into `typeEnd` or the entity is the subject of no triple. */
  lemma EndNodeDecided(X: seq<Triple>, pathType: string, typeEnd: seq<string>, k: nat, e: string)
    requires k < |X| && X[k].1 == pathType
    requires forall i :: 0 <= i < k ==> X[i].1 != pathType
    ensures EndNode(e, X, pathType, typeEnd) == Ok(X[k].2 in typeEnd || forall i :: 0 <= i < |X| ==> X[i].0 != e)
  {
    assert FirstIndex(X, (t: Triple) => t.1 == pathType) == k;
    var own := WithSubject(X, e);
    if |own| > 0 {
      assert own[0] in X && own[0].0 == e;
    }
    if j :| 0 <= j < |X| && X[j].0 == e {
      assert X[j] in own;
    }
  }

  /** An entity with an outgoing triple is not an end node when the first type is not terminal. */
  lemma EndNodeFalseWhenOwnTriple(X: seq<Triple>, pathType: string, typeEnd: seq<string>, k: nat, j: nat, e: string)
    requires k < |X| && X[k].1 == pathType && X[k].2 !in typeEnd
    requires forall i :: 0 <= i < k ==> X[i].1 != pathType
    requires j < |X| && X[j].0 == e
    ensures EndNode(e, X, pathType, typeEnd) == Ok(false)
  {
    EndNodeDecided(X, pathType, typeEnd, k, e);
  }

  // ---------------------------------------------------------------------------
  // The similarity score.

  /** The number of distinct objects two top lists share: `len(set(a).intersection(b))`. */
  function Common(a: seq<string>, b: seq<string>): (n: nat)
    ensures n <= |a| && n <= |b|
  {
    ElementsBound(a);
    ElementsBound(b);
    CardIntersection(Elements(a), Elements(b));
    |Elements(a) * Elements(b)|
  }

  lemma CardIntersection(A: set<string>, B: set<string>)
    ensures |A * B| <= |A| && |A * B| <= |B|
  {
    assert A == (A * B) + (A - B);
    assert B == (A * B) + (B - A);
  }

  /** The comparison of the two top lists of one property with functionality `f` and
      weight `rw`: end nodes give `|common| / f * rw`. The other branch compares the
      left-over objects pairwise through a recursive call that lacks two arguments, and stores
      the scores under list keys: once the first instance has at least as many left-overs as
      the second this raises TypeError, otherwise `max([])` raises ValueError (and
      `... / rw` raises first when `rw` is 0). */
  function CompareTops(top0: seq<string>, top1: seq<string>, f: int, rw: real, X: seq<Triple>,
                       typeEnd: seq<string>, pathType: string): (r: Result<real>)
    requires top0 != [] ==> f != 0
    ensures top0 == [] ==> r == Err(IndexError)
  {
    if top0 == [] then Err(IndexError)
    else
      match EndNode(top0[0], X, pathType, typeEnd)
      case Err(e) => Err(e)
      case Ok(true) => Ok(Common(top0, top1) as real / f as real * rw)
      case Ok(false) =>
        var rest0 := Filter(top0, (o: string) => o !in top1);
        var rest1 := Filter(top1, (o: string) => o !in top0);
        if rw == 0.0 then Err(ZeroDivisionError)
        else if |rest1| <= |rest0| then Err(TypeError)
        else Err(ValueError)
  }

  /** A comparison that succeeds with a top list no longer than a positive functionality
      gives between 0 and the weight. */
  lemma CompareTopsBounds(top0: seq<string>, top1: seq<string>, f: int, rw: real, X: seq<Triple>,
                          typeEnd: seq<string>, pathType: string)
    requires f > 0 && |top0| <= f && rw >= 0.0
    requires CompareTops(top0, top1, f, rw, X, typeEnd, pathType).Ok?
    ensures 0.0 <= CompareTops(top0, top1, f, rw, X, typeEnd, pathType).value <= rw
  {
    assert top0 != [];
    assert EndNode(top0[0], X, pathType, typeEnd) == Ok(true);
    var n := Common(top0, top1);
    ShareBounds(n as real, f as real, rw);
    assert CompareTops(top0, top1, f, rw, X, typeEnd, pathType).value == (n as real) / (f as real) * rw;
  }

  lemma ShareBounds(n: real, f: real, w: real)
    requires 0.0 <= n <= f && f > 0.0 && w >= 0.0
    ensures 0.0 <= n / f * w <= w
  {
    var q := n / f;
    assert q * f == n;
    assert (1.0 - q) * f == f - n;
    assert q * w <= 1.0 * w;
  }

  /** The contribution of property `p` (one round of the loop over the properties): the candidates,
      both instances' top lists, and their comparison. */
  function Contribution(pair: (string, string), X: seq<Triple>, p: string, f: int, rw: real,
                        typeEnd: seq<string>, pathType: string, score: Triple -> real): (r: Result<real>)
    ensures ObjectsOfProperty(X, p) == [] ==> r == Err(KeyError)
    ensures ObjectsOfProperty(X, p) != [] && f == 0 ==> r == Err(IndexError)
  {
    var objects := ObjectsOfProperty(X, p);
    // Ranking no candidates sorts a DataFrame without a 'score' column.
    if objects == [] then Err(KeyError)
    else
      var top0 := TopObjects(pair.0, p, objects, score, f);
      var top1 := TopObjects(pair.1, p, objects, score, f);
      CompareTops(top0, top1, f, rw, X, typeEnd, pathType)
  }

  /** A property that succeeds with a non-negative functionality contributes between 0 and
      its weight. */
  lemma ContributionBounds(pair: (string, string), X: seq<Triple>, p: string, f: int, rw: real,
                           typeEnd: seq<string>, pathType: string, score: Triple -> real)
    requires f >= 0 && rw >= 0.0
    requires Contribution(pair, X, p, f, rw, typeEnd, pathType, score).Ok?
    ensures 0.0 <= Contribution(pair, X, p, f, rw, typeEnd, pathType, score).value <= rw
  {
    var objects := ObjectsOfProperty(X, p);
    var top0 := TopObjects(pair.0, p, objects, score, f);
    var top1 := TopObjects(pair.1, p, objects, score, f);
    CompareTopsBounds(top0, top1, f, rw, X, typeEnd, pathType);
  }

  /** The contributions of the properties `ks`, in order. */
  function Contributions(pair: (string, string), X: seq<Triple>, fun: Dict<string, int>, ks: seq<string>,
                         rw: real, typeEnd: seq<string>, pathType: string, score: Triple -> real)
    : (cs: seq<Result<real>>)
    requires forall k :: k in ks ==> k in fun.values
    ensures |cs| == |ks|
  {
    if ks == [] then []
    else
      var p := ks[|ks| - 1];
      Contributions(pair, X, fun, ks[..|ks| - 1], rw, typeEnd, pathType, score)
        + [Contribution(pair, X, p, fun.values[p], rw, typeEnd, pathType, score)]
  }

  /** The `i`-th contribution is that of the `i`-th property. */
  lemma {:induction false} ContributionAt(pair: (string, string), X: seq<Triple>, fun: Dict<string, int>,
                                          ks: seq<string>, rw: real, typeEnd: seq<string>, pathType: string,
                                          score: Triple -> real, i: nat)
    requires forall k :: k in ks ==> k in fun.values
    requires i < |ks|
    ensures Contributions(pair, X, fun, ks, rw, typeEnd, pathType, score)[i]
            == Contribution(pair, X, ks[i], fun.values[ks[i]], rw, typeEnd, pathType, score)
  {
    var init := ks[..|ks| - 1];
    if i < |ks| - 1 {
      assert forall k :: k in init ==> k in ks;
      ContributionAt(pair, X, fun, init, rw, typeEnd, pathType, score, i);
    }
  }

  /** The running sum of the loop: contributions are added left to right and the first
      failing one ends it with its error. */
  function SumResults(cs: seq<Result<real>>): Result<real>
  {
    if cs == [] then Ok(0.0)
    else
      match SumResults(cs[..|cs| - 1])
      case Err(e) => Err(e)
      case Ok(s) =>
        match cs[|cs| - 1]
        case Err(e) => Err(e)
        case Ok(c) => Ok(s + c)
  }

  /** When every contribution succeeds, so does the sum. */
  lemma {:induction false} SumAllOk(cs: seq<Result<real>>)
    requires forall i :: 0 <= i < |cs| ==> cs[i].Ok?
    ensures SumResults(cs).Ok?
  {
    if cs != [] {
      SumAllOk(cs[..|cs| - 1]);
    }
  }

  /** Otherwise the sum fails with the error of the first failing contribution. */
  lemma {:induction false} SumFirstError(cs: seq<Result<real>>, k: nat)
    requires k < |cs| && cs[k].Err?
    requires forall i :: 0 <= i < k ==> cs[i].Ok?
    ensures SumResults(cs) == cs[k]
  {
    var init := cs[..|cs| - 1];
    if k == |cs| - 1 {
      SumAllOk(init);
    } else {
      SumFirstError(init, k);
    }
  }

  /** A failed prefix fails the whole sum the same way. */
  lemma {:induction false} SumStopsAtError(cs: seq<Result<real>>, i: nat)
    requires i <= |cs|
    requires SumResults(cs[..i]).Err?
    ensures SumResults(cs) == SumResults(cs[..i])
    decreases |cs| - i
  {
    if i < |cs| {
      assert cs[..i + 1][..i] == cs[..i];
      SumStopsAtError(cs, i + 1);
    } else {
      assert cs[..i] == cs;
    }
  }

  /** A contribution that fails after a successful prefix fails the whole sum with its error. */
  lemma SumErrorAt(cs: seq<Result<real>>, i: nat)
    requires i < |cs| && SumResults(cs[..i]).Ok? && cs[i].Err?
    ensures SumResults(cs) == cs[i]
  {
    assert cs[..i + 1][..i] == cs[..i];
    SumStopsAtError(cs, i + 1);
  }

  /** One more successful contribution adds its value to a successful prefix sum. */
  lemma SumSnoc(cs: seq<Result<real>>, i: nat)
    requires i < |cs| && SumResults(cs[..i]).Ok? && cs[i].Ok?
    ensures SumResults(cs[..i + 1]) == Ok(SumResults(cs[..i]).value + cs[i].value)
  {
    assert cs[..i + 1][..i] == cs[..i];
  }

  /** `n` copies of `w` added up. */
  function Times(n: nat, w: real): real
  {
    if n == 0 then 0.0 else Times(n - 1, w) + w
  }

  lemma {:induction false} TimesIsProduct(n: nat, w: real)
    ensures Times(n, w) == n as real * w
  {
    if n > 0 {
      TimesIsProduct(n - 1, w);
      assert (n - 1) as real * w + w == n as real * w;
    }
  }

  /** A successful sum of contributions that each lie between 0 and `w` lies between 0 and
      `|cs|` times `w`. */
  lemma {:induction false} SumBounds(cs: seq<Result<real>>, w: real)
    requires forall i :: 0 <= i < |cs| && cs[i].Ok? ==> 0.0 <= cs[i].value <= w
    requires SumResults(cs).Ok?
    ensures 0.0 <= SumResults(cs).value <= Times(|cs|, w)
  {
    if cs != [] {
      SumBounds(cs[..|cs| - 1], w);
    }
  }

  /** `get_similarity_for_pair`: the weight is shared equally among the keys of the
      functionality map (ZeroDivisionError when it is empty), and the contributions of the
      properties are added up in key order. */
  function SimilarityScore(pair: (string, string), X: seq<Triple>, fun: Dict<string, int>,
                           typeEnd: seq<string>, pathType: string, score: Triple -> real, weight: real): Result<real>
    requires Valid(fun)
  {
    if fun.keys == [] then Err(ZeroDivisionError)
    else SumResults(Contributions(pair, X, fun, fun.keys, weight / |fun.keys| as real, typeEnd, pathType, score))
  }

  /** The score fails with the error of the first property whose contribution fails. */
  lemma SimilarityFirstError(pair: (string, string), X: seq<Triple>, fun: Dict<string, int>,
                             typeEnd: seq<string>, pathType: string, score: Triple -> real, weight: real, k: nat)
    requires Valid(fun) && k < |fun.keys|
    requires forall i :: 0 <= i < k ==>
               Contribution(pair, X, fun.keys[i], fun.values[fun.keys[i]], weight / |fun.keys| as real, typeEnd, pathType, score).Ok?
    requires Contribution(pair, X, fun.keys[k], fun.values[fun.keys[k]], weight / |fun.keys| as real, typeEnd, pathType, score).Err?
    ensures SimilarityScore(pair, X, fun, typeEnd, pathType, score, weight) ==
            Contribution(pair, X, fun.keys[k], fun.values[fun.keys[k]], weight / |fun.keys| as real, typeEnd, pathType, score)
  {
    var rw := weight / |fun.keys| as real;
    var cs := Contributions(pair, X, fun, fun.keys, rw, typeEnd, pathType, score);
    forall i | 0 <= i <= k
      ensures cs[i] == Contribution(pair, X, fun.keys[i], fun.values[fun.keys[i]], rw, typeEnd, pathType, score)
    {
      ContributionAt(pair, X, fun, fun.keys, rw, typeEnd, pathType, score, i);
    }
    SumFirstError(cs, k);
  }

  /** With at least one property and every contribution successful, so is the score. */
  lemma SimilarityAllOk(pair: (string, string), X: seq<Triple>, fun: Dict<string, int>,
                        typeEnd: seq<string>, pathType: string, score: Triple -> real, weight: real)
    requires Valid(fun) && fun.keys != []
    requires forall i :: 0 <= i < |fun.keys| ==>
               Contribution(pair, X, fun.keys[i], fun.values[fun.keys[i]], weight / |fun.keys| as real, typeEnd, pathType, score).Ok?
    ensures SimilarityScore(pair, X, fun, typeEnd, pathType, score, weight).Ok?
  {
    var rw := weight / |fun.keys| as real;
    var cs := Contributions(pair, X, fun, fun.keys, rw, typeEnd, pathType, score);
    forall i | 0 <= i < |cs|
      ensures cs[i].Ok?
    {
      ContributionAt(pair, X, fun, fun.keys, rw, typeEnd, pathType, score, i);
    }
    SumAllOk(cs);
  }

  /** When the score succeeds and the functionalities are not negative, the similarity
      lies between 0 and the weight. */
  lemma SimilarityBounds(pair: (string, string), X: seq<Triple>, fun: Dict<string, int>,
                         typeEnd: seq<string>, pathType: string, score: Triple -> real, weight: real)
    requires Valid(fun) && weight >= 0.0
    requires forall k :: k in fun.values ==> fun.values[k] >= 0
    requires SimilarityScore(pair, X, fun, typeEnd, pathType, score, weight).Ok?
    ensures 0.0 <= SimilarityScore(pair, X, fun, typeEnd, pathType, score, weight).value <= weight
  {
    var n := |fun.keys|;
    var rw := weight / n as real;
    SharePositive(weight, n as real);
    var cs := Contributions(pair, X, fun, fun.keys, rw, typeEnd, pathType, score);
    forall i | 0 <= i < |cs| && cs[i].Ok?
      ensures 0.0 <= cs[i].value <= rw
    {
      ContributionAt(pair, X, fun, fun.keys, rw, typeEnd, pathType, score, i);
      ContributionBounds(pair, X, fun.keys[i], fun.values[fun.keys[i]], rw, typeEnd, pathType, score);
    }
    SumBounds(cs, rw);
    ShareTotal(SumResults(cs).value, n, weight);
  }

  lemma SharePositive(w: real, n: real)
    requires w >= 0.0 && n > 0.0
    ensures w / n >= 0.0
  {
  }

  /** `n` shares of `w / n` make `w`. */
  lemma ShareTotal(v: real, n: nat, w: real)
    requires n > 0 && 0.0 <= v <= Times(n, w / n as real)
    ensures 0.0 <= v <= w
  {
    TimesIsProduct(n, w / n as real);
    assert n as real * (w / n as real) == w;
  }

  /** One round of the loop: the contribution of the `i`-th property. */
  method PropertyContribution(pair: (string, string), X: seq<Triple>, fun: Dict<string, int>, ks: seq<string>,
                              rw: real, typeEnd: seq<string>, pathType: string, score: Triple -> real, i: nat)
    returns (c: Result<real>)
    requires forall k :: k in ks ==> k in fun.values
    requires i < |ks|
    ensures c == Contributions(pair, X, fun, ks, rw, typeEnd, pathType, score)[i]
  {
    var p := ks[i];
    c := Contribution(pair, X, p, fun.values[p], rw, typeEnd, pathType, score);
    ContributionAt(pair, X, fun, ks, rw, typeEnd, pathType, score, i);
  }

  /** The loop of `get_similarity_for_pair` (the first instance's own predicates are computed
      and then replaced by the keys of the functionality map). */
  method SimilarityForPair(pair: (string, string), X: seq<Triple>, fun: Dict<string, int>,
                           typeEnd: seq<string>, pathType: string, score: Triple -> real, weight: real)
    returns (res: Result<real>)
    requires Valid(fun)
    ensures res == SimilarityScore(pair, X, fun, typeEnd, pathType, score, weight)
  {
    var similarity := 0.0;
    var properties := PropertiesToAssess(pair, X);
    properties := fun.keys;
    if |properties| == 0 {
      return Err(ZeroDivisionError);
    }
    var rw := weight / |properties| as real;
    ghost var cs := Contributions(pair, X, fun, properties, rw, typeEnd, pathType, score);
    var i := 0;
    while i < |properties|
      invariant 0 <= i <= |properties|
      invariant SumResults(cs[..i]) == Ok(similarity)
    {
      var c := PropertyContribution(pair, X, fun, properties, rw, typeEnd, pathType, score, i);
      if c.Err? {
        SumErrorAt(cs, i);
        return Err(c.error);
      }
      SumSnoc(cs, i);
      similarity := similarity + c.value;
      i := i + 1;
    }
    assert cs[..i] == cs;
    assert SimilarityScore(pair, X, fun, typeEnd, pathType, score, weight) == SumResults(cs);
    return Ok(similarity);
  }
}
