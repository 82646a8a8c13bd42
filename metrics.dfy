/** The causal metric of a rule: classify each matched pair by how its outcomes are ordered
    against its treatments, count the classes, and turn the counts into an effect ratio. */
module Metrics {
  import opened Wrappers
  import opened Seqs
  import opened TripleStore
  import opened PyInt

  /** (T_O, T_not_O, same_0): pairs whose outcomes agree with the direction the treatment
      predicts, disagree, or tie. */
  datatype Counts = Counts(tO: nat, tNotO: nat, same0: nat)

  /** What one pair contributes. Unmatched: its treatments do not fit the rule (the categorical
      rules print a message, the numerical rule stays silent); Failed: resolving a member raised
      inside the `try`. Neither touches a counter. */
  datatype PairClass = Agree | Disagree | Tie | Unmatched | Failed

  predicate Counted(k: PairClass) { k.Agree? || k.Disagree? || k.Tie? }

  /** One pass of the loop body over the three counters. */
  function Step(c: Counts, k: PairClass): Counts
  {
    match k
    case Agree => c.(tO := c.tO + 1)
    case Disagree => c.(tNotO := c.tNotO + 1)
    case Tie => c.(same0 := c.same0 + 1)
    case _ => c
  }

  /** The counters after the loop has seen the classes `ks`, starting from (0, 0, 0). */
  function Tally(ks: seq<PairClass>): Counts
  {
    if ks == [] then Counts(0, 0, 0) else Step(Tally(ks[..|ks| - 1]), ks[|ks| - 1])
  }

  /** Counting one more pair applies one more step. */
  lemma TallyPrefix(ks: seq<PairClass>, i: nat)
    requires i < |ks|
    ensures Tally(ks[..i + 1]) == Step(Tally(ks[..i]), ks[i])
  {
    assert ks[..i + 1][..i] == ks[..i];
  }

  /** How many of `ks` equal `k`. */
  function Occurrences(ks: seq<PairClass>, k: PairClass): nat
  {
    if ks == [] then 0 else Occurrences(ks[..|ks| - 1], k) + (if ks[|ks| - 1] == k then 1 else 0)
  }

  /** Each counter counts exactly its own class, so together they count at most one per pair
      and an empty pair list gives (0, 0, 0). */
  lemma {:induction false} TallyCountsClasses(ks: seq<PairClass>)
    ensures Tally(ks).tO == Occurrences(ks, Agree)
    ensures Tally(ks).tNotO == Occurrences(ks, Disagree)
    ensures Tally(ks).same0 == Occurrences(ks, Tie)
    ensures Tally(ks).tO + Tally(ks).tNotO + Tally(ks).same0 <= |ks|
    ensures ks == [] ==> Tally(ks) == Counts(0, 0, 0)
  {
    if ks != [] {
      TallyCountsClasses(ks[..|ks| - 1]);
    }
  }

  /** Pairs that were skipped (failed or unmatched) do not influence the counters:
      the counts are those of the counted pairs alone. */
  lemma {:induction false} TallyIgnoresSkipped(ks: seq<PairClass>)
    ensures Tally(Filter(ks, Counted)) == Tally(ks)
  {
    if ks != [] {
      var init, last := ks[..|ks| - 1], ks[|ks| - 1];
      assert ks == init + [last];
      FilterConcat(init, [last], Counted);
      assert [last][1..] == [];
      TallyIgnoresSkipped(init);
      var fi := Filter(init, Counted);
      if Counted(last) {
        assert Filter(ks, Counted) == fi + [last];
        assert (fi + [last])[..|fi + [last]| - 1] == fi;
      } else {
        assert Filter(ks, Counted) == fi;
      }
    }
  }

  /** The swap of Agree and Disagree: what a pair classifies as when read the other way round. */
  function Invert(k: PairClass): PairClass
  {
    match k
    case Agree => Disagree
    case Disagree => Agree
    case other => other
  }

  /** `if a > b: T_O` / `elif a < b: T_not_O` / `else: same_0`. */
  function Compare(a: int, b: int): (k: PairClass)
    ensures k == Agree <==> a > b
    ensures k == Disagree <==> a < b
    ensures k == Tie <==> a == b
  {
    if a > b then Agree else if a < b then Disagree else Tie
  }

  // ---------------------------------------------------------------------------
  // Resolving treatments and outcomes by walking predicate chains

  /** Start at `s` and, for each predicate of `path`, move to the object of the first triple
      with the current subject and that predicate; None where a step finds no triple. */
  function Walk(X: seq<Triple>, s: string, path: seq<string>): Option<string>
    decreases |path|
  {
    if path == [] then Some(s)
    else match FirstObject(X, s, path[0])
      case None => None
      case Some(n) => Walk(X, n, path[1..])
  }

  /** Walking a concatenated path is walking its first part and then, from where that ends,
      its second part. */
  lemma {:induction false} WalkAppend(X: seq<Triple>, s: string, a: seq<string>, b: seq<string>)
    ensures Walk(X, s, a + b) == match Walk(X, s, a) case None => None case Some(n) => Walk(X, n, b)
    decreases |a|
  {
    if a != [] {
      assert (a + b)[0] == a[0];
      assert (a + b)[1..] == a[1..] + b;
      match FirstObject(X, s, a[0])
      case None =>
        assert Walk(X, s, a) == None;
        assert Walk(X, s, a + b) == None;
      case Some(n) =>
        assert Walk(X, s, a) == Walk(X, n, a[1..]);
        assert Walk(X, s, a + b) == Walk(X, n, a[1..] + b);
        WalkAppend(X, n, a[1..], b);
    } else {
      assert a + b == b;
    }
  }

  /** Each step of a successful walk follows a triple of the graph:
      the last step goes from where the walk of the prefix ends, along the last predicate. */
  lemma WalkLastStep(X: seq<Triple>, s: string, path: seq<string>, v: string)
    requires path != []
    requires Walk(X, s, path) == Some(v)
    ensures exists n :: Walk(X, s, path[..|path| - 1]) == Some(n) && (n, path[|path| - 1], v) in X
  {
    var init := path[..|path| - 1];
    assert path == init + [path[|path| - 1]];
    WalkAppend(X, s, init, [path[|path| - 1]]);
    var n :| Walk(X, s, init) == Some(n);
    assert [path[|path| - 1]][1..] == [];
    var k :| 0 <= k < |X| && X[k] == (n, path[|path| - 1], v);
  }

  /** The loop of the path walkers: `subject = [x[2] for x in X if ...][0]` for each predicate. */
  method FollowPath(X: seq<Triple>, instance: string, path: seq<string>) returns (r: Option<string>)
    ensures r == Walk(X, instance, path)
  {
    var subject := instance;
    var i := 0;
    while i < |path|
      invariant 0 <= i <= |path|
      invariant Walk(X, instance, path) == Walk(X, subject, path[i..])
    {
      assert path[i..][0] == path[i];
      assert path[i..][1..] == path[i + 1..];
      var next := FirstObject(X, subject, path[i]);
      if next.None? {
        return None;
      }
      subject := next.value;
      i := i + 1;
    }
    assert path[i..] == [];
    r := Some(subject);
  }

  /** `int(a) - int(b)`, raising when either is not a number. */
  function Difference(a: Option<string>, b: Option<string>): Option<int>
  {
    if a.Some? && b.Some? && ParseInt(a.value).Some? && ParseInt(b.value).Some?
    then Some(ParseInt(a.value).value - ParseInt(b.value).value)
    else None
  }

  /** The vitamin outcome of an instance: the end of the diet chain minus the end of the
      ideal-diet chain, both read as integers. */
  function DietOutcome(X: seq<Triple>, instance: string, pathDiet: seq<string>, pathIdeal: seq<string>): Option<int>
  {
    Difference(Walk(X, instance, pathDiet), Walk(X, instance, pathIdeal))
  }

  /** `get_treatment_and_outcome_vitamin`: the end of the treatment chain and the diet outcome;
      None where the Python code raises. */
  method TreatmentAndOutcomeVitamin(X: seq<Triple>, instance: string, pathTreatment: seq<string>,
                                    pathDiet: seq<string>, pathIdeal: seq<string>)
    returns (r: Option<(string, int)>)
    ensures r.Some? <==> Walk(X, instance, pathTreatment).Some? && DietOutcome(X, instance, pathDiet, pathIdeal).Some?
    ensures r.Some? ==> r.value == (Walk(X, instance, pathTreatment).value, DietOutcome(X, instance, pathDiet, pathIdeal).value)
  {
    var t := FollowPath(X, instance, pathTreatment);
    var o := OutcomeVitaminNotFunctional(X, instance, pathDiet, pathIdeal);
    if t.None? || o.None? {
      return None;
    }
    r := Some((t.value, o.value));
  }

  /** `get_outcome_vitamin_not_functional`. */
  method OutcomeVitaminNotFunctional(X: seq<Triple>, instance: string, pathDiet: seq<string>, pathIdeal: seq<string>)
    returns (r: Option<int>)
    ensures r.Some? <==> exists d, e :: Walk(X, instance, pathDiet) == Some(d) && Walk(X, instance, pathIdeal) == Some(e)
                                       && ParseInt(d).Some? && ParseInt(e).Some?
    ensures r.Some? ==> r.value == ParseInt(Walk(X, instance, pathDiet).value).value - ParseInt(Walk(X, instance, pathIdeal).value).value
    ensures r == DietOutcome(X, instance, pathDiet, pathIdeal)
  {
    var diet := FollowPath(X, instance, pathDiet);
    var ideal := FollowPath(X, instance, pathIdeal);
    r := Difference(diet, ideal);
  }

  // ---------------------------------------------------------------------------
  // The DBpedia outcome and numerical treatment

  const BirthDate := "http://dbpedia.org/ontology/birthDate"
  const ArwuW := "http://dbpedia.org/ontology/arwuW"
  const HasForStudent := "http://dbpedia.org/ontology/hasForStudent"

  /** The publication year of one book: `int([x[2] for x in X if x[0]==book and x[1]==p][0])`. */
  function YearOf(X: seq<Triple>, book: string, p: string): Option<int>
  {
    match FirstObject(X, book, p)
    case None => None
    case Some(y) => ParseInt(y)
  }

  /** The years of all books in order, or None when one of them raises. */
  function Years(X: seq<Triple>, books: seq<string>, p: string): Option<seq<int>>
  {
    if books == [] then Some([])
    else match (Years(X, books[..|books| - 1], p), YearOf(X, books[|books| - 1], p))
      case (Some(ys), Some(y)) => Some(ys + [y])
      case _ => None
  }

  /** When all books have a year, the list has one year per book, in the books' order. */
  lemma {:induction false} YearsPerBook(X: seq<Triple>, books: seq<string>, p: string)
    requires Years(X, books, p).Some?
    ensures |Years(X, books, p).value| == |books|
    ensures forall i :: 0 <= i < |books| ==> YearOf(X, books[i], p) == Some(Years(X, books, p).value[i])
  {
    if books != [] {
      YearsPerBook(X, books[..|books| - 1], p);
    }
  }

  /** `get_outcome_dbpedia`: the earliest publication year of the instance's books minus its
      birth date. `PATH_OUTCOME` is `[[birth predicate], [author predicate, year predicate]]`;
      a shorter list raises IndexError, which the callers catch. */
  function DbpediaOutcome(X: seq<Triple>, instance: string, pathOutcome: seq<seq<string>>): Option<int>
  {
    if |pathOutcome| < 2 || |pathOutcome[0]| < 1 || |pathOutcome[1]| < 2 then None
    else
      var birth := YearOf(X, instance, pathOutcome[0][0]);
      var years := Years(X, ObjectsOf(X, instance, pathOutcome[1][0]), pathOutcome[1][1]);
      if birth.None? || years.None? || years.value == [] then None
      else Some(Min(years.value) - birth.value)
  }

  /** The earliest of the books' years is the year of one of them and no later than any. */
  lemma {:induction false} EarliestYear(X: seq<Triple>, books: seq<string>, p: string) returns (j: nat)
    requires Years(X, books, p).Some? && books != []
    ensures forall i :: 0 <= i < |books| ==>
      YearOf(X, books[i], p).Some? && Min(Years(X, books, p).value) <= YearOf(X, books[i], p).value
    ensures j < |books| && YearOf(X, books[j], p) == Some(Min(Years(X, books, p).value))
  {
    YearsPerBook(X, books, p);
    var ys := Years(X, books, p).value;
    j :| 0 <= j < |ys| && ys[j] == Min(ys);
    assert YearOf(X, books[j], p) == Some(Min(ys));
  }

  /** The DBpedia outcome is the gap between the birth date and the earliest book: it is at most
      the gap to every book, and equal to the gap to one of them. An instance without books
      (`min([])` raises) has no outcome, so its pairs are skipped. */
  lemma DbpediaOutcomeIsEarliestBook(X: seq<Triple>, instance: string, pathOutcome: seq<seq<string>>)
    requires |pathOutcome| >= 2 && |pathOutcome[0]| >= 1 && |pathOutcome[1]| >= 2
    ensures var books := ObjectsOf(X, instance, pathOutcome[1][0]);
            var p := pathOutcome[1][1];
            var o := DbpediaOutcome(X, instance, pathOutcome);
            var b := YearOf(X, instance, pathOutcome[0][0]);
            (books == [] ==> o == None) &&
            (o.Some? ==>
               && b.Some? && books != []
               && (forall i :: 0 <= i < |books| ==>
                     YearOf(X, books[i], p).Some? && o.value + b.value <= YearOf(X, books[i], p).value)
               && (exists i :: 0 <= i < |books| && YearOf(X, books[i], p) == Some(o.value + b.value)))
  {
    var books := ObjectsOf(X, instance, pathOutcome[1][0]);
    var p := pathOutcome[1][1];
    var o := DbpediaOutcome(X, instance, pathOutcome);
    var b := YearOf(X, instance, pathOutcome[0][0]);
    if o.Some? {
      var j := EarliestYear(X, books, p);
      assert o.value + b.value == Min(Years(X, books, p).value);
      assert YearOf(X, books[j], p) == Some(o.value + b.value);
    }
  }

  /** `get_outcome_dbpedia`, with its loop over the books. */
  method OutcomeDbpedia(X: seq<Triple>, instance: string, pathOutcome: seq<seq<string>>) returns (r: Option<int>)
    ensures r == DbpediaOutcome(X, instance, pathOutcome)
  {
    if |pathOutcome| < 2 || |pathOutcome[0]| < 1 || |pathOutcome[1]| < 2 {
      return None;
    }
    var birth := YearOf(X, instance, pathOutcome[0][0]);
    if birth.None? {
      return None;
    }
    var books := ObjectsOf(X, instance, pathOutcome[1][0]);
    var published := PublishedYears(X, books, pathOutcome[1][1]);
    if published.None? || published.value == [] {
      return None;
    }
    r := Some(Min(published.value) - birth.value);
  }

  /** The loop of `get_outcome_dbpedia` that appends each book's year to `year_published`;
      None where a book has no year or a non-numeric one. */
  method PublishedYears(X: seq<Triple>, books: seq<string>, p: string) returns (r: Option<seq<int>>)
    ensures r == Years(X, books, p)
  {
    var published: seq<int> := [];
    var i := 0;
    while i < |books|
      invariant 0 <= i <= |books|
      invariant Years(X, books[..i], p) == Some(published)
    {
      var y := YearOf(X, books[i], p);
      YearsStep(X, books, i, p, published);
      if y.None? {
        YearsNonePropagates(X, books, i + 1, p);
        return None;
      }
      published := published + [y.value];
      i := i + 1;
    }
    assert books[..i] == books;
    r := Some(published);
  }

  /** One more book extends the years by its own year, or makes them missing. */
  lemma YearsStep(X: seq<Triple>, books: seq<string>, i: nat, p: string, ys: seq<int>)
    requires i < |books| && Years(X, books[..i], p) == Some(ys)
    ensures YearOf(X, books[i], p).Some? ==> Years(X, books[..i + 1], p) == Some(ys + [YearOf(X, books[i], p).value])
    ensures YearOf(X, books[i], p).None? ==> Years(X, books[..i + 1], p) == None
  {
    assert books[..i + 1][..i] == books[..i];
    assert books[..i + 1][i] == books[i];
  }

  /** Once a book has no year, the years of every longer prefix are missing too. */
  lemma {:induction false} YearsNonePropagates(X: seq<Triple>, books: seq<string>, k: nat, p: string)
    requires k <= |books|
    requires Years(X, books[..k], p) == None
    ensures Years(X, books, p) == None
    decreases |books| - k
  {
    if k < |books| {
      assert books[..k + 1][..k] == books[..k];
      YearsNonePropagates(X, books, k + 1, p);
    } else {
      assert books[..k] == books;
    }
  }

  /** `get_numerical_treatment_dbpedia` as corrected: the birth year, or the ARWU score of the
      university that has the instance as a student; any other path returns Python's None,
      whose comparison raises TypeError in the caller. */
  function NumericalTreatment(X: seq<Triple>, instance: string, pathTreatment: seq<string>): Option<int>
  {
    if pathTreatment == [BirthDate] then YearOf(X, instance, BirthDate)
    else if pathTreatment == [ArwuW] then
      var k := FirstIndex(X, (t: Triple) => t.1 == HasForStudent && t.2 == instance);
      if k == |X| then None else YearOf(X, X[k].0, ArwuW)
    else None
  }

  /** `get_numerical_treatment_dbpedia` as written: in the ARWU branch `uni` is bound to the whole
      first matching triple and then compared with the subject string of every triple, a test that
      never succeeds, so the final `[0]` always raises. */
  function NumericalTreatmentAsWritten(X: seq<Triple>, instance: string, pathTreatment: seq<string>): Option<int>
  {
    if pathTreatment == [BirthDate] then YearOf(X, instance, BirthDate)
    else None
  }

  /** The ARWU lookup as written fails even on a graph where the university and its score are
      present, while the corrected lookup returns the score. */
  lemma ArwuLookupAsWrittenFails()
    ensures var X := [("uni", HasForStudent, "w"), ("uni", ArwuW, "7")];
            NumericalTreatmentAsWritten(X, "w", [ArwuW]) == None &&
            NumericalTreatment(X, "w", [ArwuW]) == Some(7)
  {
    var X := [("uni", HasForStudent, "w"), ("uni", ArwuW, "7")];
    assert [ArwuW] != [BirthDate];
    assert FirstIndex(X, (t: Triple) => t.1 == HasForStudent && t.2 == "w") == 0;
    assert X[0].1 == HasForStudent && X[1].1 == ArwuW;
    FirstObjectAt(X, "uni", ArwuW, 1);
    ParseOneDigit('7');
  }

  /** For every graph in which the instance is listed as a student, the corrected lookup
      yields the ARWU score recorded for the first university that lists it, while the lookup
      as written yields nothing. */
  lemma ArwuLookupFindsScore(X: seq<Triple>, instance: string, k: nat)
    requires k < |X| && X[k].1 == HasForStudent && X[k].2 == instance
    requires forall i :: 0 <= i < k ==> !(X[i].1 == HasForStudent && X[i].2 == instance)
    ensures NumericalTreatment(X, instance, [ArwuW]) == YearOf(X, X[k].0, ArwuW)
    ensures NumericalTreatmentAsWritten(X, instance, [ArwuW]) == None
  {
    assert [ArwuW] != [BirthDate];
    var f := (t: Triple) => t.1 == HasForStudent && t.2 == instance;
    assert f(X[k]);
    assert FirstIndex(X, f) == k;
  }

  // ---------------------------------------------------------------------------
  // The three orientation rules

  /** Fixed categorical treatments (t0, t1): with the first member at t0 the pair agrees when
      its outcome is higher; with the members the other way round the comparison flips. */
  function ClassifyCategorical(ti0: string, oi0: int, ti1: string, oi1: int, t0: string, t1: string): PairClass
  {
    if ti0 == t0 && ti1 == t1 then Compare(oi0, oi1)
    else if ti0 == t1 && ti1 == t0 then Compare(oi1, oi0)
    else Unmatched
  }

  /** Group membership: only pairs with exactly one member in the treated list count, and which
      side is the member decides the orientation. `higherIsAgreement` is true for the vitamin
      rule (the member's outcome should be higher) and false for the DBpedia rule. */
  function ClassifyMembership(in0: bool, oi0: int, in1: bool, oi1: int, higherIsAgreement: bool): PairClass
  {
    if in0 && !in1 then (if higherIsAgreement then Compare(oi0, oi1) else Compare(oi1, oi0))
    else if in1 && !in0 then (if higherIsAgreement then Compare(oi1, oi0) else Compare(oi0, oi1))
    else Unmatched
  }

  /** Numerical treatments: the member with the larger treatment should have the smaller
      outcome; equal treatments are skipped without a message. */
  function ClassifyNumerical(ti0: int, oi0: int, ti1: int, oi1: int): PairClass
  {
    if ti0 > ti1 then Compare(oi1, oi0)
    else if ti0 < ti1 then Compare(oi0, oi1)
    else Unmatched
  }

  /** The rules do not depend on the order in which a pair lists its members: the mirrored
      branch uses the mirrored comparison (for the categorical rule, when t0 and t1 differ). */
  lemma SwapPreservesClassification(ti0: string, oi0: int, ti1: string, oi1: int, t0: string, t1: string,
                                    in0: bool, in1: bool, higher: bool, ni0: int, ni1: int)
    ensures t0 != t1 ==> ClassifyCategorical(ti1, oi1, ti0, oi0, t0, t1) == ClassifyCategorical(ti0, oi0, ti1, oi1, t0, t1)
    ensures ClassifyMembership(in1, oi1, in0, oi0, higher) == ClassifyMembership(in0, oi0, in1, oi1, higher)
    ensures ClassifyNumerical(ni1, oi1, ni0, oi0) == ClassifyNumerical(ni0, oi0, ni1, oi1)
  {
  }

  /** Exchanging the two outcomes while keeping the treatments swaps agreement and
      disagreement under every rule; ties and unmatched pairs stay as they are. */
  lemma OutcomeSwapInvertsClassification(ti0: string, oi0: int, ti1: string, oi1: int, t0: string, t1: string,
                                         in0: bool, in1: bool, higher: bool, ni0: int, ni1: int)
    ensures ClassifyCategorical(ti0, oi1, ti1, oi0, t0, t1) == Invert(ClassifyCategorical(ti0, oi0, ti1, oi1, t0, t1))
    ensures ClassifyMembership(in0, oi1, in1, oi0, higher) == Invert(ClassifyMembership(in0, oi0, in1, oi1, higher))
    ensures ClassifyNumerical(ni0, oi1, ni1, oi0) == Invert(ClassifyNumerical(ni0, oi0, ni1, oi1))
  {
  }

  /** The DBpedia membership rule counts in the opposite outcome direction from the vitamin one. */
  lemma DbpediaOppositeToVitamin(in0: bool, oi0: int, in1: bool, oi1: int)
    ensures ClassifyMembership(in0, oi0, in1, oi1, false) == Invert(ClassifyMembership(in0, oi0, in1, oi1, true))
  {
  }

  // ---------------------------------------------------------------------------
  // Classifying whole pairs

  /** One pair under `get_categorical_values_vitamin`. */
  function VitaminClass(X: seq<Triple>, pair: (string, string), pathTreatment: seq<string>, pathDiet: seq<string>,
                        pathIdeal: seq<string>, t0: string, t1: string): PairClass
  {
    var ti0 := Walk(X, pair.0, pathTreatment);
    var oi0 := DietOutcome(X, pair.0, pathDiet, pathIdeal);
    var ti1 := Walk(X, pair.1, pathTreatment);
    var oi1 := DietOutcome(X, pair.1, pathDiet, pathIdeal);
    if ti0.Some? && oi0.Some? && ti1.Some? && oi1.Some?
    then ClassifyCategorical(ti0.value, oi0.value, ti1.value, oi1.value, t0, t1)
    else Failed
  }

  /** One pair under `get_categorical_values_vitamin_not_functional`. */
  function VitaminMembershipClass(X: seq<Triple>, pair: (string, string), treated: seq<string>,
                                  pathDiet: seq<string>, pathIdeal: seq<string>): PairClass
  {
    var oi0 := DietOutcome(X, pair.0, pathDiet, pathIdeal);
    var oi1 := DietOutcome(X, pair.1, pathDiet, pathIdeal);
    if oi0.Some? && oi1.Some?
    then ClassifyMembership(pair.0 in treated, oi0.value, pair.1 in treated, oi1.value, true)
    else Failed
  }

  /** One pair under `get_categorical_values_dbpedia`. */
  function DbpediaMembershipClass(X: seq<Triple>, pair: (string, string), treated: seq<string>,
                                  pathOutcome: seq<seq<string>>): PairClass
  {
    var oi0 := DbpediaOutcome(X, pair.0, pathOutcome);
    var oi1 := DbpediaOutcome(X, pair.1, pathOutcome);
    if oi0.Some? && oi1.Some?
    then ClassifyMembership(pair.0 in treated, oi0.value, pair.1 in treated, oi1.value, false)
    else Failed
  }

  /** One pair under `get_numerical_values_dbpedia`. */
  function NumericalClass(X: seq<Triple>, pair: (string, string), pathTreatment: seq<string>,
                          pathOutcome: seq<seq<string>>): PairClass
  {
    var oi0 := DbpediaOutcome(X, pair.0, pathOutcome);
    var oi1 := DbpediaOutcome(X, pair.1, pathOutcome);
    var ti0 := NumericalTreatment(X, pair.0, pathTreatment);
    var ti1 := NumericalTreatment(X, pair.1, pathTreatment);
    if oi0.Some? && oi1.Some? && ti0.Some? && ti1.Some?
    then ClassifyNumerical(ti0.value, oi0.value, ti1.value, oi1.value)
    else Failed
  }

  /** The worked example of the vitamin rule: u (diet 5, ideal 3) treated with d0 and v (diet 2,
      ideal 3) treated with d1 agree with the rule (d0, d1). */
  lemma VitaminExample()
    ensures VitaminClass(ExampleGraph(), ("u", "v"), ["treats"], ["diet"], ["idealdiet"], "d0", "d1") == Agree
  {
    ExampleTreatments();
    ExampleDietU();
    ExampleDietV();
  }

  /** The graph of the worked example. */
  function ExampleGraph(): seq<Triple>
  {
    [("u", "treats", "d0"), ("u", "diet", "5"), ("u", "idealdiet", "3"),
     ("v", "treats", "d1"), ("v", "diet", "2"), ("v", "idealdiet", "3")]
  }

  lemma ExampleTreatments()
    ensures Walk(ExampleGraph(), "u", ["treats"]) == Some("d0")
    ensures Walk(ExampleGraph(), "v", ["treats"]) == Some("d1")
  {
    var X := ExampleGraph();
    assert "u"[0] != "v"[0];
    FirstObjectAt(X, "u", "treats", 0);
    FirstObjectAt(X, "v", "treats", 3);
    WalkOne(X, "u", "treats");
    WalkOne(X, "v", "treats");
  }

  lemma ExampleDietU()
    ensures DietOutcome(ExampleGraph(), "u", ["diet"], ["idealdiet"]) == Some(2)
  {
    var X := ExampleGraph();
    FirstObjectAt(X, "u", "diet", 1);
    FirstObjectAt(X, "u", "idealdiet", 2);
    WalkOne(X, "u", "diet");
    WalkOne(X, "u", "idealdiet");
    ParseOneDigit('5');
    ParseOneDigit('3');
  }

  lemma ExampleDietV()
    ensures DietOutcome(ExampleGraph(), "v", ["diet"], ["idealdiet"]) == Some(-1)
  {
    var X := ExampleGraph();
    assert "u"[0] != "v"[0];
    FirstObjectAt(X, "v", "diet", 4);
    FirstObjectAt(X, "v", "idealdiet", 5);
    WalkOne(X, "v", "diet");
    WalkOne(X, "v", "idealdiet");
    ParseOneDigit('2');
    ParseOneDigit('3');
  }

  /** A one-predicate path is one lookup. */
  lemma WalkOne(X: seq<Triple>, s: string, p: string)
    ensures Walk(X, s, [p]) == FirstObject(X, s, p)
  {
    assert [p][1..] == [];
  }

  // The classes of all pairs, in order, under each rule.

  function VitaminClasses(X: seq<Triple>, pairs: seq<(string, string)>, pathTreatment: seq<string>, pathDiet: seq<string>, pathIdeal: seq<string>, t0: string, t1: string): (ks: seq<PairClass>)
    ensures |ks| == |pairs|
  {
    seq(|pairs|, i requires 0 <= i < |pairs| => VitaminClass(X, pairs[i], pathTreatment, pathDiet, pathIdeal, t0, t1))
  }

  function VitaminMembershipClasses(X: seq<Triple>, pairs: seq<(string, string)>, treated: seq<string>, pathDiet: seq<string>, pathIdeal: seq<string>): (ks: seq<PairClass>)
    ensures |ks| == |pairs|
  {
    seq(|pairs|, i requires 0 <= i < |pairs| => VitaminMembershipClass(X, pairs[i], treated, pathDiet, pathIdeal))
  }

  function DbpediaMembershipClasses(X: seq<Triple>, pairs: seq<(string, string)>, treated: seq<string>, pathOutcome: seq<seq<string>>): (ks: seq<PairClass>)
    ensures |ks| == |pairs|
  {
    seq(|pairs|, i requires 0 <= i < |pairs| => DbpediaMembershipClass(X, pairs[i], treated, pathOutcome))
  }

  function NumericalClasses(X: seq<Triple>, pairs: seq<(string, string)>, pathTreatment: seq<string>, pathOutcome: seq<seq<string>>): (ks: seq<PairClass>)
    ensures |ks| == |pairs|
  {
    seq(|pairs|, i requires 0 <= i < |pairs| => NumericalClass(X, pairs[i], pathTreatment, pathOutcome))
  }

  /** One pair under `get_numerical_values_dbpedia` with the treatment lookup as written. */
  function NumericalClassAsWritten(X: seq<Triple>, pair: (string, string), pathTreatment: seq<string>,
                                   pathOutcome: seq<seq<string>>): PairClass
  {
    var oi0 := DbpediaOutcome(X, pair.0, pathOutcome);
    var oi1 := DbpediaOutcome(X, pair.1, pathOutcome);
    var ti0 := NumericalTreatmentAsWritten(X, pair.0, pathTreatment);
    var ti1 := NumericalTreatmentAsWritten(X, pair.1, pathTreatment);
    if oi0.Some? && oi1.Some? && ti0.Some? && ti1.Some?
    then ClassifyNumerical(ti0.value, oi0.value, ti1.value, oi1.value)
    else Failed
  }

  function NumericalClassesAsWritten(X: seq<Triple>, pairs: seq<(string, string)>, pathTreatment: seq<string>, pathOutcome: seq<seq<string>>): (ks: seq<PairClass>)
    ensures |ks| == |pairs|
  {
    seq(|pairs|, i requires 0 <= i < |pairs| => NumericalClassAsWritten(X, pairs[i], pathTreatment, pathOutcome))
  }

  /** A tally of classes that all failed is (0, 0, 0). */
  lemma {:induction false} TallyOfFailures(ks: seq<PairClass>)
    requires forall i :: 0 <= i < |ks| ==> ks[i] == Failed
    ensures Tally(ks) == Counts(0, 0, 0)
  {
    if ks != [] {
      TallyOfFailures(ks[..|ks| - 1]);
    }
  }

  /** As written, the numerical count over the ARWU path skips every pair: each pair fails
      and the counters stay at (0, 0, 0), whatever the graph. */
  lemma ArwuPairsSkippedAsWritten(X: seq<Triple>, pairs: seq<(string, string)>, pathOutcome: seq<seq<string>>)
    ensures forall i :: 0 <= i < |pairs| ==> NumericalClassesAsWritten(X, pairs, [ArwuW], pathOutcome)[i] == Failed
    ensures Tally(NumericalClassesAsWritten(X, pairs, [ArwuW], pathOutcome)) == Counts(0, 0, 0)
  {
    assert [ArwuW] != [BirthDate];
    TallyOfFailures(NumericalClassesAsWritten(X, pairs, [ArwuW], pathOutcome));
  }

  /** Off the ARWU path the lookup as written and the corrected lookup classify every pair
      alike, so the corrected count differs from the one as written only on ARWU pairs. */
  lemma NumericalClassesAsWrittenOffArwu(X: seq<Triple>, pairs: seq<(string, string)>, pathTreatment: seq<string>,
                                         pathOutcome: seq<seq<string>>)
    requires pathTreatment != [ArwuW]
    ensures NumericalClassesAsWritten(X, pairs, pathTreatment, pathOutcome) == NumericalClasses(X, pairs, pathTreatment, pathOutcome)
  {
  }

  // ---------------------------------------------------------------------------
  // The counting loops (`get_*_values_*`)

  /** `get_categorical_values_vitamin`. */
  method CategoricalValuesVitamin(pairs: seq<(string, string)>, X: seq<Triple>, pathTreatment: seq<string>,
                                  pathDiet: seq<string>, pathIdeal: seq<string>, t0: string, t1: string)
    returns (c: Counts)
    ensures c == Tally(VitaminClasses(X, pairs, pathTreatment, pathDiet, pathIdeal, t0, t1))
  {
    ghost var ks := VitaminClasses(X, pairs, pathTreatment, pathDiet, pathIdeal, t0, t1);
    c := Counts(0, 0, 0);
    var i := 0;
    while i < |pairs|
      invariant 0 <= i <= |pairs|
      invariant c == Tally(ks[..i])
    {
      c := CountVitaminPair(c, X, pairs[i], pathTreatment, pathDiet, pathIdeal, t0, t1);
      TallyPrefix(ks, i);
      i := i + 1;
    }
    assert ks[..i] == ks;
  }

  /** The body of the `try` in `get_categorical_values_vitamin`, for one pair. */
  method CountVitaminPair(c: Counts, X: seq<Triple>, pair: (string, string), pathTreatment: seq<string>,
                          pathDiet: seq<string>, pathIdeal: seq<string>, t0: string, t1: string)
    returns (d: Counts)
    ensures d == Step(c, VitaminClass(X, pair, pathTreatment, pathDiet, pathIdeal, t0, t1))
  {
    d := c;
    var r0 := TreatmentAndOutcomeVitamin(X, pair.0, pathTreatment, pathDiet, pathIdeal);
    var r1 := TreatmentAndOutcomeVitamin(X, pair.1, pathTreatment, pathDiet, pathIdeal);
    if r0.None? || r1.None? {
      return;
    }
    d := CountCategorical(c, r0.value.0, r0.value.1, r1.value.0, r1.value.1, t0, t1);
  }

  /** The branches of `get_categorical_values_vitamin` once both members are resolved. */
  method CountCategorical(c: Counts, ti0: string, oi0: int, ti1: string, oi1: int, t0: string, t1: string)
    returns (d: Counts)
    ensures d == Step(c, ClassifyCategorical(ti0, oi0, ti1, oi1, t0, t1))
  {
    d := c;
    if ti0 == t0 && ti1 == t1 {
      if oi0 > oi1 {
        d := d.(tO := d.tO + 1);
      } else if oi0 < oi1 {
        d := d.(tNotO := d.tNotO + 1);
      } else {
        d := d.(same0 := d.same0 + 1);
      }
    } else if ti0 == t1 && ti1 == t0 {
      if oi0 < oi1 {
        d := d.(tO := d.tO + 1);
      } else if oi0 > oi1 {
        d := d.(tNotO := d.tNotO + 1);
      } else {
        d := d.(same0 := d.same0 + 1);
      }
    }
  }

  /** `get_categorical_values_vitamin_not_functional`. */
  method CategoricalValuesVitaminNotFunctional(pairs: seq<(string, string)>, treated: seq<string>, X: seq<Triple>,
                                               pathDiet: seq<string>, pathIdeal: seq<string>)
    returns (c: Counts)
    ensures c == Tally(VitaminMembershipClasses(X, pairs, treated, pathDiet, pathIdeal))
  {
    ghost var ks := VitaminMembershipClasses(X, pairs, treated, pathDiet, pathIdeal);
    c := Counts(0, 0, 0);
    var i := 0;
    while i < |pairs|
      invariant 0 <= i <= |pairs|
      invariant c == Tally(ks[..i])
    {
      c := CountVitaminMembershipPair(c, X, pairs[i], treated, pathDiet, pathIdeal);
      TallyPrefix(ks, i);
      i := i + 1;
    }
    assert ks[..i] == ks;
  }

  /** The body of the `try` in `get_categorical_values_vitamin_not_functional`, for one pair. */
  method CountVitaminMembershipPair(c: Counts, X: seq<Triple>, pair: (string, string), treated: seq<string>,
                                    pathDiet: seq<string>, pathIdeal: seq<string>)
    returns (d: Counts)
    ensures d == Step(c, VitaminMembershipClass(X, pair, treated, pathDiet, pathIdeal))
  {
    d := c;
    var r0 := OutcomeVitaminNotFunctional(X, pair.0, pathDiet, pathIdeal);
    var r1 := OutcomeVitaminNotFunctional(X, pair.1, pathDiet, pathIdeal);
    if r0.None? || r1.None? {
      return;
    }
    d := CountVitaminMembership(c, pair.0 in treated, r0.value, pair.1 in treated, r1.value);
  }

  /** The branches of `get_categorical_values_vitamin_not_functional` once both outcomes are
      resolved; `in0` and `in1` say whether each member is in the treated list. */
  method CountVitaminMembership(c: Counts, in0: bool, oi0: int, in1: bool, oi1: int) returns (d: Counts)
    ensures d == Step(c, ClassifyMembership(in0, oi0, in1, oi1, true))
  {
    d := c;
    if in0 && !in1 {
      if oi0 > oi1 {
        d := d.(tO := d.tO + 1);
      } else if oi0 < oi1 {
        d := d.(tNotO := d.tNotO + 1);
      } else {
        d := d.(same0 := d.same0 + 1);
      }
    } else if in1 && !in0 {
      if oi0 < oi1 {
        d := d.(tO := d.tO + 1);
      } else if oi0 > oi1 {
        d := d.(tNotO := d.tNotO + 1);
      } else {
        d := d.(same0 := d.same0 + 1);
      }
    }
  }

  /** `get_categorical_values_dbpedia`. */
  method CategoricalValuesDbpedia(pairs: seq<(string, string)>, treated: seq<string>, X: seq<Triple>,
                                  pathOutcome: seq<seq<string>>)
    returns (c: Counts)
    ensures c == Tally(DbpediaMembershipClasses(X, pairs, treated, pathOutcome))
  {
    ghost var ks := DbpediaMembershipClasses(X, pairs, treated, pathOutcome);
    c := Counts(0, 0, 0);
    var i := 0;
    while i < |pairs|
      invariant 0 <= i <= |pairs|
      invariant c == Tally(ks[..i])
    {
      c := CountDbpediaMembershipPair(c, X, pairs[i], treated, pathOutcome);
      TallyPrefix(ks, i);
      i := i + 1;
    }
    assert ks[..i] == ks;
  }

  /** The body of the `try` in `get_categorical_values_dbpedia`, for one pair. */
  method CountDbpediaMembershipPair(c: Counts, X: seq<Triple>, pair: (string, string), treated: seq<string>,
                                    pathOutcome: seq<seq<string>>)
    returns (d: Counts)
    ensures d == Step(c, DbpediaMembershipClass(X, pair, treated, pathOutcome))
  {
    d := c;
    var r0 := OutcomeDbpedia(X, pair.0, pathOutcome);
    var r1 := OutcomeDbpedia(X, pair.1, pathOutcome);
    if r0.None? || r1.None? {
      return;
    }
    d := CountDbpediaMembership(c, pair.0 in treated, r0.value, pair.1 in treated, r1.value);
  }

  /** The branches of `get_categorical_values_dbpedia` once both outcomes are resolved. */
  method CountDbpediaMembership(c: Counts, in0: bool, oi0: int, in1: bool, oi1: int) returns (d: Counts)
    ensures d == Step(c, ClassifyMembership(in0, oi0, in1, oi1, false))
  {
    d := c;
    if in0 && !in1 {
      if oi0 < oi1 {
        d := d.(tO := d.tO + 1);
      } else if oi0 > oi1 {
        d := d.(tNotO := d.tNotO + 1);
      } else {
        d := d.(same0 := d.same0 + 1);
      }
    } else if in1 && !in0 {
      if oi0 > oi1 {
        d := d.(tO := d.tO + 1);
      } else if oi0 < oi1 {
        d := d.(tNotO := d.tNotO + 1);
      } else {
        d := d.(same0 := d.same0 + 1);
      }
    }
  }

  /** `get_numerical_values_dbpedia` (the four-parameter function). */
  method NumericalValuesDbpedia(pairs: seq<(string, string)>, X: seq<Triple>, pathTreatment: seq<string>,
                                pathOutcome: seq<seq<string>>)
    returns (c: Counts)
    ensures c == Tally(NumericalClasses(X, pairs, pathTreatment, pathOutcome))
  {
    ghost var ks := NumericalClasses(X, pairs, pathTreatment, pathOutcome);
    c := Counts(0, 0, 0);
    var i := 0;
    while i < |pairs|
      invariant 0 <= i <= |pairs|
      invariant c == Tally(ks[..i])
    {
      c := CountNumericalPair(c, X, pairs[i], pathTreatment, pathOutcome);
      TallyPrefix(ks, i);
      i := i + 1;
    }
    assert ks[..i] == ks;
  }

  /** The body of the `try` in `get_numerical_values_dbpedia`, for one pair. */
  method CountNumericalPair(c: Counts, X: seq<Triple>, pair: (string, string), pathTreatment: seq<string>,
                            pathOutcome: seq<seq<string>>)
    returns (d: Counts)
    ensures d == Step(c, NumericalClass(X, pair, pathTreatment, pathOutcome))
  {
    d := c;
    var r0 := OutcomeDbpedia(X, pair.0, pathOutcome);
    var r1 := OutcomeDbpedia(X, pair.1, pathOutcome);
    var s0 := NumericalTreatment(X, pair.0, pathTreatment);
    var s1 := NumericalTreatment(X, pair.1, pathTreatment);
    if r0.None? || r1.None? || s0.None? || s1.None? {
      return;
    }
    d := CountNumerical(c, s0.value, r0.value, s1.value, r1.value);
  }

  /** The branches of `get_numerical_values_dbpedia` once treatments and outcomes are resolved. */
  method CountNumerical(c: Counts, ti0: int, oi0: int, ti1: int, oi1: int) returns (d: Counts)
    ensures d == Step(c, ClassifyNumerical(ti0, oi0, ti1, oi1))
  {
    d := c;
    if ti0 > ti1 {
      if oi0 < oi1 {
        d := d.(tO := d.tO + 1);
      } else if oi0 > oi1 {
        d := d.(tNotO := d.tNotO + 1);
      } else {
        d := d.(same0 := d.same0 + 1);
      }
    } else if ti0 < ti1 {
      if oi0 > oi1 {
        d := d.(tO := d.tO + 1);
      } else if oi0 < oi1 {
        d := d.(tNotO := d.tNotO + 1);
      } else {
        d := d.(same0 := d.same0 + 1);
      }
    }
  }

  // ---------------------------------------------------------------------------
  // The metric (`compute_metric_*`)

  /** The confidence interval: [0, 0] for the sentinel, otherwise
      exp(log(ratio) -/+ z * sqrt(variance)), kept here as its parameters. */
  datatype Interval = Degenerate | LogNormal(z: real, variance: real)

  /** (ratio, interval, T_O, T_not_O, same_0). */
  datatype Effect = Effect(ratio: real, interval: Interval, counts: Counts)

  /** The ratio T_O / T_not_O when both counts are positive, the sentinel (0, [0, 0]) otherwise;
      the counts are passed through. */
  function ComputeEffect(c: Counts, z: real): (e: Effect)
    ensures e.counts == c
    ensures (e.ratio == 0.0 && e.interval == Degenerate) <==> (c.tO == 0 || c.tNotO == 0)
    ensures c.tO > 0 && c.tNotO > 0 ==>
              e.ratio > 0.0 && e.ratio * (c.tNotO as real) == c.tO as real &&
              e.interval == LogNormal(z, 1.0 / (c.tO as real) + 1.0 / (c.tNotO as real))
  {
    if c.tO > 0 && c.tNotO > 0 then
      Effect((c.tO as real) / (c.tNotO as real), LogNormal(z, 1.0 / (c.tO as real) + 1.0 / (c.tNotO as real)), c)
    else Effect(0.0, Degenerate, c)
  }

  /** A defined ratio exceeds 1 exactly when agreeing pairs outnumber disagreeing ones. */
  lemma RatioAboveOne(c: Counts, z: real)
    requires c.tO > 0 && c.tNotO > 0
    ensures ComputeEffect(c, z).ratio > 1.0 <==> c.tO > c.tNotO
  {
    var r := ComputeEffect(c, z).ratio;
    assert r * (c.tNotO as real) == c.tO as real;
    if r > 1.0 {
      assert r * (c.tNotO as real) > 1.0 * (c.tNotO as real);
    } else {
      assert r * (c.tNotO as real) <= 1.0 * (c.tNotO as real);
    }
  }

  /** An empty list of pairs gives the sentinel (0, [0, 0], 0, 0, 0). */
  lemma EmptyPairsGiveSentinel(z: real)
    ensures ComputeEffect(Tally([]), z) == Effect(0.0, Degenerate, Counts(0, 0, 0))
  {
  }

  /** `compute_metric_vitamin`. */
  method ComputeMetricVitamin(pairs: seq<(string, string)>, X: seq<Triple>, pathTreatment: seq<string>,
                              pathDiet: seq<string>, pathIdeal: seq<string>, t0: string, t1: string, z: real)
    returns (e: Effect)
    ensures e == ComputeEffect(Tally(VitaminClasses(X, pairs, pathTreatment, pathDiet, pathIdeal, t0, t1)), z)
  {
    var c := CategoricalValuesVitamin(pairs, X, pathTreatment, pathDiet, pathIdeal, t0, t1);
    e := ComputeEffect(c, z);
  }

  /** `compute_metric_vitamin_not_functional`. */
  method ComputeMetricVitaminNotFunctional(pairs: seq<(string, string)>, treated: seq<string>, X: seq<Triple>,
                                           pathDiet: seq<string>, pathIdeal: seq<string>, z: real)
    returns (e: Effect)
    ensures e == ComputeEffect(Tally(VitaminMembershipClasses(X, pairs, treated, pathDiet, pathIdeal)), z)
  {
    var c := CategoricalValuesVitaminNotFunctional(pairs, treated, X, pathDiet, pathIdeal);
    e := ComputeEffect(c, z);
  }

  /** `compute_metric_dbpedia_categorial`. */
  method ComputeMetricDbpediaCategorical(pairs: seq<(string, string)>, treated: seq<string>, X: seq<Triple>,
                                         pathOutcome: seq<seq<string>>, z: real)
    returns (e: Effect)
    ensures e == ComputeEffect(Tally(DbpediaMembershipClasses(X, pairs, treated, pathOutcome)), z)
  {
    var c := CategoricalValuesDbpedia(pairs, treated, X, pathOutcome);
    e := ComputeEffect(c, z);
  }

  /** `compute_metric_dbpedia_numerical` as written: it passes five arguments to the
      four-parameter counting function, so every call raises TypeError. */
  function ComputeMetricDbpediaNumericalAsWritten(pairs: seq<(string, string)>, treated: seq<string>, X: seq<Triple>,
                                                  pathTreatment: seq<string>, pathOutcome: seq<seq<string>>, z: real)
    : (r: Result<Effect>)
    ensures r == Err(TypeError)
  {
    Err(TypeError)
  }

  /** `compute_metric_dbpedia_numerical` as intended: the four-parameter counter (which has no
      use for the treated list) followed by the ratio. */
  method ComputeMetricDbpediaNumerical(pairs: seq<(string, string)>, treated: seq<string>, X: seq<Triple>,
                                       pathTreatment: seq<string>, pathOutcome: seq<seq<string>>, z: real)
    returns (e: Effect)
    ensures e == ComputeEffect(Tally(NumericalClasses(X, pairs, pathTreatment, pathOutcome)), z)
  {
    var c := NumericalValuesDbpedia(pairs, X, pathTreatment, pathOutcome);
    e := ComputeEffect(c, z);
  }
}
