/** Read-only queries over the knowledge graph, a list of (subject, predicate, object) triples. */
module TripleStore {
  import opened Wrappers
  import opened Seqs

  type Triple = (string, string, string)

  const RdfType := "http://www.w3.org/1999/02/22-rdf-syntax-ns#type"

  /** `[x for x in X if x[0] == s]`. */
  function WithSubject(X: seq<Triple>, s: string): (r: seq<Triple>)
    ensures forall i :: 0 <= i < |r| ==> r[i].0 == s && r[i] in X
    ensures forall i :: 0 <= i < |X| && X[i].0 == s ==> X[i] in r
  {
    Filter(X, (t: Triple) => t.0 == s)
  }

  /** `[x[2] for x in X if x[0] == s and x[1] == p]`. */
  function ObjectsOf(X: seq<Triple>, s: string, p: string): seq<string>
  {
    if X == [] then []
    else (if X[0].0 == s && X[0].1 == p then [X[0].2] else []) + ObjectsOf(X[1..], s, p)
  }

  /** The objects listed are exactly those of the triples with subject `s` and predicate `p`. */
  lemma {:induction false} ObjectsOfMembers(X: seq<Triple>, s: string, p: string)
    ensures forall o :: o in ObjectsOf(X, s, p) <==> (s, p, o) in X
  {
    if X != [] {
      ObjectsOfMembers(X[1..], s, p);
      assert X == [X[0]] + X[1..];
    }
  }

  /** `[x[0] for x in X if x[1] == p and x[2] == o]`. */
  function SubjectsWith(X: seq<Triple>, p: string, o: string): seq<string>
  {
    if X == [] then []
    else (if X[0].1 == p && X[0].2 == o then [X[0].0] else []) + SubjectsWith(X[1..], p, o)
  }

  /** The subjects listed are exactly those of the triples with predicate `p` and object `o`. */
  lemma {:induction false} SubjectsWithMembers(X: seq<Triple>, p: string, o: string)
    ensures forall s :: s in SubjectsWith(X, p, o) <==> (s, p, o) in X
  {
    if X != [] {
      SubjectsWithMembers(X[1..], p, o);
      assert X == [X[0]] + X[1..];
    }
  }

  /** `[x[2] for x in X if x[1] == p]`. */
  function ObjectsOfPredicate(X: seq<Triple>, p: string): (r: seq<string>)
    ensures |r| <= |X|
  {
    if X == [] then []
    else (if X[0].1 == p then [X[0].2] else []) + ObjectsOfPredicate(X[1..], p)
  }

  /** The objects listed are those of the triples with predicate `p`. */
  lemma {:induction false} ObjectsOfPredicateMembers(X: seq<Triple>, p: string)
    ensures forall o :: o in ObjectsOfPredicate(X, p) <==> exists k :: 0 <= k < |X| && X[k].1 == p && X[k].2 == o
  {
    if X != [] {
      ObjectsOfPredicateMembers(X[1..], p);
      assert forall k :: 0 <= k < |X| - 1 ==> X[1..][k] == X[k + 1];
    }
  }

  /** `[x[1] for x in X if x[0] == s]`. */
  function PredicatesOf(X: seq<Triple>, s: string): (r: seq<string>)
    ensures |r| <= |X|
  {
    if X == [] then []
    else (if X[0].0 == s then [X[0].1] else []) + PredicatesOf(X[1..], s)
  }

  /** The predicates listed are those of the triples with subject `s`. */
  lemma {:induction false} PredicatesOfMembers(X: seq<Triple>, s: string)
    ensures forall q :: q in PredicatesOf(X, s) <==> exists k :: 0 <= k < |X| && X[k].0 == s && X[k].1 == q
  {
    if X != [] {
      PredicatesOfMembers(X[1..], s);
      assert forall k :: 0 <= k < |X| - 1 ==> X[1..][k] == X[k + 1];
    }
  }

  /** `[x[2] for x in X if x[0] == s and x[1] == p][0]`: the object of the first matching
      triple, or None where Python raises IndexError. */
  function FirstObject(X: seq<Triple>, s: string, p: string): (r: Option<string>)
    ensures r.None? <==> forall i :: 0 <= i < |X| ==> !(X[i].0 == s && X[i].1 == p)
    ensures r.Some? ==> exists k :: 0 <= k < |X| && X[k] == (s, p, r.value) &&
                                    forall i :: 0 <= i < k ==> !(X[i].0 == s && X[i].1 == p)
  {
    var k := FirstIndex(X, (t: Triple) => t.0 == s && t.1 == p);
    if k == |X| then None else Some(X[k].2)
  }

  /** The first matching triple determines the lookup. */
  lemma FirstObjectAt(X: seq<Triple>, s: string, p: string, k: nat)
    requires k < |X| && X[k].0 == s && X[k].1 == p
    requires forall i :: 0 <= i < k ==> !(X[i].0 == s && X[i].1 == p)
    ensures FirstObject(X, s, p) == Some(X[k].2)
  {
    var j := FirstIndex(X, (t: Triple) => t.0 == s && t.1 == p);
    assert j == k;
  }
}
