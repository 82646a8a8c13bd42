/** The knowledge-graph helpers of the synthetic-data tutorial: describing an instance,
    looking up its type and the instances of a type, grouping the nodes to modify by type,
    searching for an existing instance that already shows a set of modifications, and
    choosing which properties of a writer's neighbourhood to modify. */
module SyntheticGeneration {
  import opened Wrappers
  import opened Seqs
  import opened Dicts
  import opened TripleStore

  const Dbpedia := "dbpedia"
  const HasForStudent := "http://dbpedia.org/ontology/hasForStudent"
  const IsCountryOf := "http://dbpedia.org/ontology/isCountryOf"

  // ---------------------------------------------------------------------------
  // The triples of a subject and its description

  /** `get_triples_where_instance_subject` keeps the graph's order: the triples of two
      concatenated graphs are those of the first followed by those of the second. */
  lemma {:induction false} WithSubjectConcat(A: seq<Triple>, B: seq<Triple>, s: string)
    ensures WithSubject(A + B, s) == WithSubject(A, s) + WithSubject(B, s)
  {
    if A == [] {
      assert A + B == B;
    } else {
      assert (A + B)[0] == A[0];
      assert (A + B)[1..] == A[1..] + B;
      WithSubjectConcat(A[1..], B, s);
    }
  }

  /** The (predicate, object) pairs of a list of triples. */
  function PredicateObjects(ts: seq<Triple>): (r: seq<(string, string)>)
    ensures |r| == |ts|
    ensures forall i :: 0 <= i < |ts| ==> r[i] == (ts[i].1, ts[i].2)
  {
    seq(|ts|, i requires 0 <= i < |ts| => (ts[i].1, ts[i].2))
  }

  /** The dictionary `get_description` builds: the subject's (predicate, object) pairs grouped
      by predicate. */
  function DescriptionOf(X: seq<Triple>, instance: string): (d: Dict<string, seq<string>>)
    ensures Valid(d)
  {
    Group(PredicateObjects(WithSubject(X, instance)))
  }

  /** `get_description`, with its loop over the subject's triples. */
  method Description(X: seq<Triple>, instance: string) returns (d: Dict<string, seq<string>>)
    ensures d == DescriptionOf(X, instance)
  {
    var ts := WithSubject(X, instance);
    ghost var ps := PredicateObjects(ts);
    d := Dict([], map[]);
    var i := 0;
    while i < |ts|
      invariant 0 <= i <= |ts|
      invariant d == Group(ps[..i])
    {
      var t := ts[i];
      GroupSnoc(ps, i);
      if t.1 in d.keys {
        d := Dict(d.keys, d.values[t.1 := d.values[t.1] + [t.2]]);
      } else {
        d := Dict(d.keys + [t.1], d.values[t.1 := [t.2]]);
      }
      i := i + 1;
    }
    assert ps[..i] == ps;
  }

  /** Taking the subject's pairs one triple at a time from the front. */
  lemma SubjectPairsCons(X: seq<Triple>, s: string)
    requires X != []
    ensures PredicateObjects(WithSubject(X, s)) ==
            (if X[0].0 == s then [(X[0].1, X[0].2)] else []) + PredicateObjects(WithSubject(X[1..], s))
  {
    var head := if X[0].0 == s then [X[0]] else [];
    assert WithSubject(X, s) == head + WithSubject(X[1..], s);
    PredicateObjectsConcat(head, WithSubject(X[1..], s));
  }

  /** The pairs of a concatenation are those of each part. */
  lemma PredicateObjectsConcat(a: seq<Triple>, b: seq<Triple>)
    ensures PredicateObjects(a + b) == PredicateObjects(a) + PredicateObjects(b)
  {
    assert forall i :: 0 <= i < |a + b| ==> PredicateObjects(a + b)[i] == (PredicateObjects(a) + PredicateObjects(b))[i];
  }

  /** The predicates of the subject's pairs are `[x[1] for x in X if x[0] == s]`. */
  lemma {:induction false} SubjectPredicates(X: seq<Triple>, s: string)
    ensures Firsts(PredicateObjects(WithSubject(X, s))) == PredicatesOf(X, s)
  {
    if X != [] {
      SubjectPairsCons(X, s);
      SubjectPredicates(X[1..], s);
      var head: seq<(string, string)> := if X[0].0 == s then [(X[0].1, X[0].2)] else [];
      FirstsConcat(head, PredicateObjects(WithSubject(X[1..], s)));
    }
  }

  /** The objects paired with `p` are `[x[2] for x in X if x[0] == s and x[1] == p]`. */
  lemma {:induction false} SubjectObjects(X: seq<Triple>, s: string, p: string)
    ensures ValuesOf(PredicateObjects(WithSubject(X, s)), p) == ObjectsOf(X, s, p)
  {
    if X != [] {
      SubjectPairsCons(X, s);
      SubjectObjects(X[1..], s, p);
      var head: seq<(string, string)> := if X[0].0 == s then [(X[0].1, X[0].2)] else [];
      ValuesOfConcat(head, PredicateObjects(WithSubject(X[1..], s)), p);
      assert ValuesOf(head, p) == if X[0].0 == s && X[0].1 == p then [X[0].2] else [] by {
        if head != [] {
          assert head[..0] == [];
        }
      }
    }
  }

  /** The description's keys are the subject's predicates in order of first appearance; the
      list under a predicate holds its objects in triple order, duplicates kept; and the lists
      hold one entry per triple of the subject. */
  lemma DescriptionContents(X: seq<Triple>, instance: string, p: string)
    ensures DescriptionOf(X, instance).keys == Dedup(PredicatesOf(X, instance))
    ensures p in DescriptionOf(X, instance).values <==> p in PredicatesOf(X, instance)
    ensures p in DescriptionOf(X, instance).values ==> DescriptionOf(X, instance).values[p] == ObjectsOf(X, instance, p)
    ensures TotalUnder(DescriptionOf(X, instance).keys, DescriptionOf(X, instance).values) == |WithSubject(X, instance)|
  {
    var ps := PredicateObjects(WithSubject(X, instance));
    GroupKeys(ps);
    GroupValues(ps, p);
    GroupTotal(ps);
    SubjectPredicates(X, instance);
    SubjectObjects(X, instance, p);
  }

  /** The description holds `v` under `p` exactly when the graph has the triple (instance, p, v). */
  lemma DescriptionTriple(X: seq<Triple>, instance: string, p: string, v: string)
    ensures (p in DescriptionOf(X, instance).values && v in DescriptionOf(X, instance).values[p]) <==> (instance, p, v) in X
  {
    DescriptionContents(X, instance, p);
    ObjectsOfMembers(X, instance, p);
    PredicatesOfMembers(X, instance);
    if (instance, p, v) in X {
      var k :| 0 <= k < |X| && X[k] == (instance, p, v);
      assert X[k].0 == instance && X[k].1 == p;
    }
  }

  // ---------------------------------------------------------------------------
  // Types and instances

  /** `sub in t` on Python strings. */
  predicate HasInfix(t: string, sub: string)
    decreases |t|
  {
    |sub| <= |t| && (t[..|sub|] == sub || HasInfix(t[1..], sub))
  }

  /** `sub` occurs in `t` exactly when `t` splits around a copy of it. */
  lemma HasInfixSplits(t: string, sub: string)
    ensures HasInfix(t, sub) <==> exists a, b :: t == a + sub + b
  {
    if HasInfix(t, sub) {
      var a, b := InfixSplit(t, sub);
    }
    if exists a, b :: t == a + sub + b {
      var a, b :| t == a + sub + b;
      SplitInfix(t, sub, a, b);
    }
  }

  lemma {:induction false} InfixSplit(t: string, sub: string) returns (a: string, b: string)
    requires HasInfix(t, sub)
    ensures t == a + sub + b
    decreases |t|
  {
    if t[..|sub|] == sub {
      a, b := [], t[|sub|..];
      assert t == a + sub + b;
    } else {
      var a', b' := InfixSplit(t[1..], sub);
      a, b := [t[0]] + a', b';
      assert t == [t[0]] + t[1..];
    }
  }

  lemma {:induction false} SplitInfix(t: string, sub: string, a: string, b: string)
    requires t == a + sub + b
    ensures HasInfix(t, sub)
    decreases |a|
  {
    if a == [] {
      assert t[..|sub|] == sub;
    } else {
      assert t[1..] == a[1..] + sub + b;
      SplitInfix(t[1..], sub, a[1..], b);
    }
  }

  /** The first of `types` that contains "dbpedia". */
  function FirstDbpediaType(types: seq<string>): (r: Option<string>)
    ensures r.None? <==> forall i :: 0 <= i < |types| ==> !HasInfix(types[i], Dbpedia)
    ensures r.Some? ==> exists k :: 0 <= k < |types| && types[k] == r.value && HasInfix(types[k], Dbpedia) &&
                                    forall i :: 0 <= i < k ==> !HasInfix(types[i], Dbpedia)
  {
    if types == [] then None
    else if HasInfix(types[0], Dbpedia) then Some(types[0])
    else
      var r := FirstDbpediaType(types[1..]);
      assert forall i :: 1 <= i < |types| ==> types[i] == types[1..][i - 1];
      r
  }

  /** What `get_type` returns: the first `rdf:type` object of `instance` that contains
      "dbpedia"; None (Python's implicit `return None`) when there is none. */
  function TypeOf(X: seq<Triple>, instance: string): Option<string>
  {
    FirstDbpediaType(ObjectsOf(X, instance, RdfType))
  }

  /** The type found is an `rdf:type` of the instance and contains "dbpedia"; there is none
      exactly when no `rdf:type` of the instance contains "dbpedia". */
  lemma TypeOfCharacterized(X: seq<Triple>, instance: string)
    ensures TypeOf(X, instance).Some? ==>
              (instance, RdfType, TypeOf(X, instance).value) in X && HasInfix(TypeOf(X, instance).value, Dbpedia)
    ensures TypeOf(X, instance).None? <==> forall o :: (instance, RdfType, o) in X ==> !HasInfix(o, Dbpedia)
  {
    var types := ObjectsOf(X, instance, RdfType);
    ObjectsOfMembers(X, instance, RdfType);
    if TypeOf(X, instance).None? {
      forall o | (instance, RdfType, o) in X
        ensures !HasInfix(o, Dbpedia)
      {
        assert o in types;
      }
    }
  }

  /** `get_type`, with its loop over the `rdf:type` objects. */
  method GetType(X: seq<Triple>, instance: string) returns (r: Option<string>)
    ensures r == TypeOf(X, instance)
  {
    var types := ObjectsOf(X, instance, RdfType);
    var i := 0;
    while i < |types|
      invariant 0 <= i <= |types|
      invariant FirstDbpediaType(types[i..]) == FirstDbpediaType(types)
    {
      if HasInfix(types[i], Dbpedia) {
        return Some(types[i]);
      }
      assert types[i..][1..] == types[i + 1..];
      i := i + 1;
    }
    return None;
  }

  /** `get_instances_for_type`. Comparing an object with Python's None never succeeds, so an
      instance without a type has no fellow instances. */
  function InstancesForType(X: seq<Triple>, ty: Option<string>): seq<string>
  {
    if ty.None? then [] else SubjectsWith(X, RdfType, ty.value)
  }

  /** The instances of a type are the subjects of its `rdf:type` triples. */
  lemma InstancesForTypeMembers(X: seq<Triple>, ty: Option<string>, i: string)
    ensures i in InstancesForType(X, ty) <==> ty.Some? && (i, RdfType, ty.value) in X
  {
    if ty.Some? {
      SubjectsWithMembers(X, RdfType, ty.value);
    }
  }

  // ---------------------------------------------------------------------------
  // Grouping the nodes to modify by their type

  /** Each node paired with its type. */
  function TypedNodes(X: seq<Triple>, nodes: seq<string>): (r: seq<(Option<string>, string)>)
    ensures |r| == |nodes|
    ensures forall i :: 0 <= i < |nodes| ==> r[i] == (TypeOf(X, nodes[i]), nodes[i])
  {
    seq(|nodes|, i requires 0 <= i < |nodes| => (TypeOf(X, nodes[i]), nodes[i]))
  }

  /** `get_dic_with_type_and_nodes_modified`, with its loop over the nodes to change. */
  method DicWithTypeAndNodesModified(X: seq<Triple>, dic: Dict<string, seq<string>>)
    returns (d: Dict<Option<string>, seq<string>>)
    ensures d == Group(TypedNodes(X, dic.keys))
  {
    ghost var ps := TypedNodes(X, dic.keys);
    d := Dict([], map[]);
    var i := 0;
    while i < |dic.keys|
      invariant 0 <= i <= |dic.keys|
      invariant d == Group(ps[..i])
    {
      var node := dic.keys[i];
      var typeNode := GetType(X, node);
      GroupSnoc(ps, i);
      if typeNode in d.keys {
        d := Dict(d.keys, d.values[typeNode := d.values[typeNode] + [node]]);
      } else {
        d := Dict(d.keys + [typeNode], d.values[typeNode := [node]]);
      }
      i := i + 1;
    }
    assert ps[..i] == ps;
  }

  /** The nodes of type `ty`, in order (an independent statement of what the loop collects). */
  function NodesOfType(X: seq<Triple>, nodes: seq<string>, ty: Option<string>): (r: seq<string>)
    ensures forall n :: n in r <==> n in nodes && TypeOf(X, n) == ty
  {
    if nodes == [] then []
    else
      var init := nodes[..|nodes| - 1];
      var last := nodes[|nodes| - 1];
      assert nodes == init + [last];
      NodesOfType(X, init, ty) + (if TypeOf(X, last) == ty then [last] else [])
  }

  /** The list under a type holds exactly the nodes of that type, in their order, so every
      node sits under one key, its own type; the lists hold all the nodes between them. */
  lemma TypesModified(X: seq<Triple>, nodes: seq<string>, ty: Option<string>)
    ensures ty in Group(TypedNodes(X, nodes)).values <==> exists n :: n in nodes && TypeOf(X, n) == ty
    ensures ty in Group(TypedNodes(X, nodes)).values ==> Group(TypedNodes(X, nodes)).values[ty] == NodesOfType(X, nodes, ty)
    ensures TotalUnder(Group(TypedNodes(X, nodes)).keys, Group(TypedNodes(X, nodes)).values) == |nodes|
  {
    var ps := TypedNodes(X, nodes);
    GroupValues(ps, ty);
    GroupTotal(ps);
    TypedValues(X, nodes, ty);
    TypePresent(X, nodes, ty);
  }

  /** Some node has type `ty` exactly when `ty` is among the types of the nodes. */
  lemma TypePresent(X: seq<Triple>, nodes: seq<string>, ty: Option<string>)
    ensures ty in Firsts(TypedNodes(X, nodes)) <==> exists n :: n in nodes && TypeOf(X, n) == ty
  {
    var fs := Firsts(TypedNodes(X, nodes));
    if ty in fs {
      var j :| 0 <= j < |fs| && fs[j] == ty;
      assert nodes[j] in nodes && TypeOf(X, nodes[j]) == ty;
    }
    if exists n :: n in nodes && TypeOf(X, n) == ty {
      var n :| n in nodes && TypeOf(X, n) == ty;
      var j :| 0 <= j < |nodes| && nodes[j] == n;
      assert fs[j] == ty;
    }
  }

  /** The values under `ty` in the grouped pairs are the nodes of that type. */
  lemma {:induction false} TypedValues(X: seq<Triple>, nodes: seq<string>, ty: Option<string>)
    ensures ValuesOf(TypedNodes(X, nodes), ty) == NodesOfType(X, nodes, ty)
  {
    if nodes != [] {
      var init := nodes[..|nodes| - 1];
      assert TypedNodes(X, nodes)[..|nodes| - 1] == TypedNodes(X, init);
      TypedValues(X, init, ty);
    }
  }

  // ---------------------------------------------------------------------------
  // Searching for an instance that already shows the modifications

  /** `[i for i in cands if i in group]` when `keep`, `[i for i in cands if i not in group]`
      otherwise. */
  function Narrow(cands: seq<string>, group: seq<string>, keep: bool): (r: seq<string>)
    ensures |r| <= |cands|
    ensures forall i :: i in r <==> i in cands && (i in group) == keep
  {
    if cands == [] then []
    else
      assert cands == [cands[0]] + cands[1..];
      (if (cands[0] in group) == keep then [cands[0]] else []) + Narrow(cands[1..], group, keep)
  }

  /** The inner loop over the values of one property: keep (or drop) the candidates that carry
      the property with each value in turn. */
  function NarrowAll(X: seq<Triple>, cands: seq<string>, p: string, values: seq<string>, keep: bool): (r: seq<string>)
    ensures forall i :: i in r <==> i in cands && forall v :: v in values ==> ((i, p, v) in X) == keep
  {
    if values == [] then cands
    else
      var init, last := values[..|values| - 1], values[|values| - 1];
      assert values == init + [last];
      SubjectsWithMembers(X, p, last);
      Narrow(NarrowAll(X, cands, p, init, keep), SubjectsWith(X, p, last), keep)
  }

  /** The outer loop over the properties `ps`: narrow by each property's values in the
      description, stop with None (`return 0`) once no candidate is left, and raise KeyError
      for a property the description lacks. */
  function Sieve(X: seq<Triple>, cands: seq<string>, ps: seq<string>, descr: Dict<string, seq<string>>, keep: bool)
    : (r: Result<Option<seq<string>>>)
  {
    if ps == [] then Ok(Some(cands))
    else
      var p := ps[|ps| - 1];
      match Sieve(X, cands, ps[..|ps| - 1], descr, keep)
      case Ok(Some(v)) =>
        if p !in descr.values then Err(KeyError)
        else
          var w := NarrowAll(X, v, p, descr.values[p], keep);
          if w == [] then Ok(None) else Ok(Some(w))
      case other => other
  }

  /** Instance `i` carries (when `keep`) or lacks (otherwise) every value the description lists
      under the properties `ps`. */
  ghost predicate Meets(X: seq<Triple>, i: string, ps: seq<string>, descr: Dict<string, seq<string>>, keep: bool)
  {
    forall p, v :: p in ps && p in descr.values && v in descr.values[p] ==> ((i, p, v) in X) == keep
  }

  /** What the outer loop computes: KeyError only for a missing property; None only when no
      candidate meets every property; otherwise exactly the candidates that do, and at least
      one of them once a property has been examined. */
  lemma {:induction false} SieveOutcome(X: seq<Triple>, cands: seq<string>, ps: seq<string>,
                                        descr: Dict<string, seq<string>>, keep: bool)
    ensures (forall p :: p in ps ==> p in descr.values) ==> Sieve(X, cands, ps, descr, keep).Ok?
    ensures Sieve(X, cands, ps, descr, keep).Err? ==>
              Sieve(X, cands, ps, descr, keep).error == KeyError && exists p :: p in ps && p !in descr.values
    ensures Sieve(X, cands, ps, descr, keep) == Ok(None) ==> forall i :: i in cands ==> !Meets(X, i, ps, descr, keep)
    ensures Sieve(X, cands, ps, descr, keep).Ok? && Sieve(X, cands, ps, descr, keep).value.Some? ==>
              var w := Sieve(X, cands, ps, descr, keep).value.value;
              (forall i :: i in w <==> i in cands && Meets(X, i, ps, descr, keep)) && (ps != [] ==> w != [])
  {
    if ps != [] {
      var init, p := ps[..|ps| - 1], ps[|ps| - 1];
      assert ps == init + [p];
      SieveOutcome(X, cands, init, descr, keep);
      var r := Sieve(X, cands, init, descr, keep);
      if r.Ok? && r.value.Some? && p in descr.values {
        var v := r.value.value;
        var w := NarrowAll(X, v, p, descr.values[p], keep);
        forall i
          ensures i in w <==> i in cands && Meets(X, i, ps, descr, keep)
        {
          MeetsSnoc(X, i, init, p, descr, keep);
        }
      } else if r == Ok(None) {
        forall i | i in cands
          ensures !Meets(X, i, ps, descr, keep)
        {
          MeetsSnoc(X, i, init, p, descr, keep);
        }
      }
    }
  }

  /** Meeting one more property is meeting the earlier ones and that one. */
  lemma MeetsSnoc(X: seq<Triple>, i: string, init: seq<string>, p: string, descr: Dict<string, seq<string>>, keep: bool)
    ensures Meets(X, i, init + [p], descr, keep) <==>
              Meets(X, i, init, descr, keep) &&
              (p in descr.values ==> forall v :: v in descr.values[p] ==> ((i, p, v) in X) == keep)
  {
  }

  /** One round of the outer loop, from a prefix that left some candidates. */
  lemma SieveStep(X: seq<Triple>, cands: seq<string>, ps: seq<string>, k: nat, descr: Dict<string, seq<string>>,
                  keep: bool, v: seq<string>)
    requires k < |ps|
    requires Sieve(X, cands, ps[..k], descr, keep) == Ok(Some(v))
    ensures ps[k] !in descr.values ==> Sieve(X, cands, ps[..k + 1], descr, keep) == Err(KeyError)
    ensures ps[k] in descr.values ==>
              var w := NarrowAll(X, v, ps[k], descr.values[ps[k]], keep);
              Sieve(X, cands, ps[..k + 1], descr, keep) == if w == [] then Ok(None) else Ok(Some(w))
  {
    assert ps[..k + 1][..k] == ps[..k];
  }

  /** Once the outer loop has stopped, the remaining properties change nothing. */
  lemma {:induction false} SieveStops(X: seq<Triple>, cands: seq<string>, ps: seq<string>,
                                      descr: Dict<string, seq<string>>, keep: bool, k: nat)
    requires k <= |ps|
    requires !(Sieve(X, cands, ps[..k], descr, keep).Ok? && Sieve(X, cands, ps[..k], descr, keep).value.Some?)
    ensures Sieve(X, cands, ps, descr, keep) == Sieve(X, cands, ps[..k], descr, keep)
    decreases |ps| - k
  {
    if k < |ps| {
      assert ps[..k + 1][..k] == ps[..k];
      SieveStops(X, cands, ps, descr, keep, k + 1);
    } else {
      assert ps[..k] == ps;
    }
  }

  /** The inner loop: for each value, `instances_with_p` and the filtered candidates. */
  method NarrowByValues(X: seq<Triple>, cands: seq<string>, p: string, values: seq<string>, keep: bool)
    returns (valid: seq<string>)
    ensures valid == NarrowAll(X, cands, p, values, keep)
  {
    valid := cands;
    var j := 0;
    while j < |values|
      invariant 0 <= j <= |values|
      invariant valid == NarrowAll(X, cands, p, values[..j], keep)
    {
      var instancesWithP := SubjectsWith(X, p, values[j]);
      valid := Narrow(valid, instancesWithP, keep);
      assert values[..j + 1][..j] == values[..j];
      j := j + 1;
    }
    assert values[..j] == values;
  }

  /** One of the two outer loops of `get_if_instance_exist` (`keep` for the shared properties,
      not `keep` for the changed ones). */
  method SieveByProperties(X: seq<Triple>, cands: seq<string>, ps: seq<string>, descr: Dict<string, seq<string>>,
                           keep: bool)
    returns (r: Result<Option<seq<string>>>)
    ensures r == Sieve(X, cands, ps, descr, keep)
  {
    var valid := cands;
    var k := 0;
    while k < |ps|
      invariant 0 <= k <= |ps|
      invariant Sieve(X, cands, ps[..k], descr, keep) == Ok(Some(valid))
    {
      var p := ps[k];
      SieveStep(X, cands, ps, k, descr, keep, valid);
      if p !in descr.values {
        SieveStops(X, cands, ps, descr, keep, k + 1);
        return Err(KeyError);
      }
      valid := NarrowByValues(X, valid, p, descr.values[p], keep);
      if |valid| == 0 {
        SieveStops(X, cands, ps, descr, keep, k + 1);
        return Ok(None);
      }
      k := k + 1;
    }
    assert ps[..k] == ps;
    r := Ok(Some(valid));
  }

  /** The result of `get_if_instance_exist`: the integer 0, or the list of matching instances. */
  datatype Existing = Zero | Instances(instances: seq<string>)

  /** `valid_instances` before the loops: the instances of node's type other than node. */
  function OtherInstances(X: seq<Triple>, node: string): seq<string>
  {
    Narrow(InstancesForType(X, TypeOf(X, node)), [node], false)
  }

  /** `p_to_share`: node's properties that are not to change. */
  function SharedProperties(X: seq<Triple>, node: string, changed: seq<string>): seq<string>
  {
    Narrow(DescriptionOf(X, node).keys, changed, false)
  }

  /** What `get_if_instance_exist` returns, or the KeyError it raises. */
  function InstanceExists(X: seq<Triple>, node: string, dic: Dict<string, seq<string>>): Result<Existing>
  {
    if node !in dic.values then Err(KeyError)
    else
      var descr := DescriptionOf(X, node);
      match Sieve(X, OtherInstances(X, node), SharedProperties(X, node, dic.values[node]), descr, true)
      case Err(e) => Err(e)
      case Ok(None) => Ok(Zero)
      case Ok(Some(v)) =>
        match Sieve(X, v, dic.values[node], descr, false)
        case Err(e) => Err(e)
        case Ok(None) => Ok(Zero)
        case Ok(Some(w)) => Ok(Instances(w))
  }

  /** `get_if_instance_exist`. */
  method IfInstanceExist(X: seq<Triple>, node: string, dic: Dict<string, seq<string>>) returns (r: Result<Existing>)
    ensures r == InstanceExists(X, node, dic)
  {
    var typeNode := GetType(X, node);
    var descriptionNode := Description(X, node);
    var valid := Narrow(InstancesForType(X, typeNode), [node], false);
    if node !in dic.values {
      return Err(KeyError);
    }
    var pToShare := Narrow(descriptionNode.keys, dic.values[node], false);
    var pDiffer := dic.values[node];
    var shared := SieveByProperties(X, valid, pToShare, descriptionNode, true);
    if shared.Err? {
      return Err(shared.error);
    }
    if shared.value.None? {
      return Ok(Zero);
    }
    var differing := SieveByProperties(X, shared.value.value, pDiffer, descriptionNode, false);
    if differing.Err? {
      return Err(differing.error);
    }
    if differing.value.None? {
      return Ok(Zero);
    }
    r := Ok(Instances(differing.value.value));
  }

  /** An instance that already shows the modifications of `node`: another instance of node's
      type that carries every value of node's unchanged properties and none of the values of
      its properties to change. */
  ghost predicate Qualifies(X: seq<Triple>, node: string, changed: seq<string>, i: string)
  {
    && i != node
    && TypeOf(X, node).Some? && (i, RdfType, TypeOf(X, node).value) in X
    && (forall p, v :: (node, p, v) in X && p !in changed ==> (i, p, v) in X)
    && (forall p, v :: (node, p, v) in X && p in changed ==> (i, p, v) !in X)
  }

  /** Meeting the shared properties of the description is carrying every value of node's
      properties that are not to change. */
  lemma ShareMeets(X: seq<Triple>, node: string, changed: seq<string>, i: string)
    ensures Meets(X, i, SharedProperties(X, node, changed), DescriptionOf(X, node), true) <==>
              forall p, v :: (node, p, v) in X && p !in changed ==> (i, p, v) in X
  {
    var descr := DescriptionOf(X, node);
    var share := SharedProperties(X, node, changed);
    forall p, v
      ensures (p in share && p in descr.values && v in descr.values[p]) <==> ((node, p, v) in X && p !in changed)
    {
      DescriptionTriple(X, node, p, v);
    }
  }

  /** Meeting the changed properties negatively is lacking every value node has under them. */
  lemma DifferMeets(X: seq<Triple>, node: string, changed: seq<string>, i: string)
    ensures Meets(X, i, changed, DescriptionOf(X, node), false) <==>
              forall p, v :: (node, p, v) in X && p in changed ==> (i, p, v) !in X
  {
    var descr := DescriptionOf(X, node);
    forall p, v
      ensures (p in changed && p in descr.values && v in descr.values[p]) <==> ((node, p, v) in X && p in changed)
    {
      DescriptionTriple(X, node, p, v);
    }
  }

  /** The starting candidates: the other instances of node's type. */
  lemma ValidMembers(X: seq<Triple>, node: string, i: string)
    ensures i in OtherInstances(X, node) <==>
              i != node && TypeOf(X, node).Some? && (i, RdfType, TypeOf(X, node).value) in X
  {
    InstancesForTypeMembers(X, TypeOf(X, node), i);
  }

  /** What `get_if_instance_exist` finds: KeyError exactly for a node that is not to be
      modified or a property to change that the node does not have; 0 only when no instance
      qualifies; otherwise exactly the qualifying instances, and the empty list only for a node
      that has nothing to share and nothing to change. */
  lemma InstanceExistsOutcome(X: seq<Triple>, node: string, dic: Dict<string, seq<string>>)
    ensures node !in dic.values ==> InstanceExists(X, node, dic) == Err(KeyError)
    ensures InstanceExists(X, node, dic).Err? ==> InstanceExists(X, node, dic).error == KeyError
    ensures node in dic.values && (forall p :: p in dic.values[node] ==> p in PredicatesOf(X, node)) ==>
              InstanceExists(X, node, dic).Ok?
    ensures InstanceExists(X, node, dic) == Ok(Zero) ==> forall i :: !Qualifies(X, node, dic.values[node], i)
    ensures InstanceExists(X, node, dic).Ok? && InstanceExists(X, node, dic).value.Instances? ==>
              forall i :: i in InstanceExists(X, node, dic).value.instances <==> Qualifies(X, node, dic.values[node], i)
    ensures InstanceExists(X, node, dic) == Ok(Instances([])) ==>
              dic.values[node] == [] && forall p, v :: (node, p, v) !in X
  {
    if node in dic.values {
      var changed := dic.values[node];
      var first := Sieve(X, OtherInstances(X, node), SharedProperties(X, node, changed), DescriptionOf(X, node), true);
      SharedStage(X, node, changed);
      if first.Ok? && first.value.Some? {
        DifferStage(X, node, changed, first.value.value);
      }
    }
  }

  /** The loop over the shared properties never raises; it stops with 0 only when no instance
      qualifies, and otherwise leaves the other instances of the type that share them all. */
  lemma SharedStage(X: seq<Triple>, node: string, changed: seq<string>)
    ensures var share := SharedProperties(X, node, changed);
            var first := Sieve(X, OtherInstances(X, node), share, DescriptionOf(X, node), true);
            && first.Ok?
            && (first == Ok(None) ==> forall i :: !Qualifies(X, node, changed, i))
            && (first.Ok? && first.value.Some? ==>
                  (forall i :: i in first.value.value <==>
                     i in OtherInstances(X, node) && Meets(X, i, share, DescriptionOf(X, node), true))
                  && (share != [] ==> first.value.value != []))
  {
    var descr := DescriptionOf(X, node);
    var share := SharedProperties(X, node, changed);
    SieveOutcome(X, OtherInstances(X, node), share, descr, true);
    assert forall p :: p in share ==> p in descr.values;
    if Sieve(X, OtherInstances(X, node), share, descr, true) == Ok(None) {
      forall i
        ensures !Qualifies(X, node, changed, i)
      {
        ValidMembers(X, node, i);
        ShareMeets(X, node, changed, i);
      }
    }
  }

  /** The loop over the changed properties, from the instances the first loop left. */
  lemma DifferStage(X: seq<Triple>, node: string, changed: seq<string>, v: seq<string>)
    requires forall i :: i in v <==>
               i in OtherInstances(X, node) && Meets(X, i, SharedProperties(X, node, changed), DescriptionOf(X, node), true)
    requires SharedProperties(X, node, changed) != [] ==> v != []
    ensures var second := Sieve(X, v, changed, DescriptionOf(X, node), false);
            && (second.Err? ==> second.error == KeyError)
            && ((forall p :: p in changed ==> p in PredicatesOf(X, node)) ==> second.Ok?)
            && (second == Ok(None) ==> forall i :: !Qualifies(X, node, changed, i))
            && (second.Ok? && second.value.Some? ==>
                  forall i :: i in second.value.value <==> Qualifies(X, node, changed, i))
            && (second == Ok(Some([])) ==> changed == [] && forall p, w :: (node, p, w) !in X)
  {
    var descr := DescriptionOf(X, node);
    SieveOutcome(X, v, changed, descr, false);
    forall p | p in changed && p in PredicatesOf(X, node)
      ensures p in descr.values
    {
      DescriptionContents(X, node, p);
    }
    forall i
      ensures Qualifies(X, node, changed, i) <==>
                i in v && Meets(X, i, changed, descr, false)
    {
      ValidMembers(X, node, i);
      ShareMeets(X, node, changed, i);
      DifferMeets(X, node, changed, i);
    }
    if Sieve(X, v, changed, descr, false) == Ok(Some([])) {
      assert changed == [];
      assert SharedProperties(X, node, changed) == [];
      forall p, w
        ensures (node, p, w) !in X
      {
        DescriptionTriple(X, node, p, w);
      }
    }
  }

  // ---------------------------------------------------------------------------
  // Drawing the properties to change

  /** `[[node, k] for k in keys]`. */
  function Entries(node: string, keys: seq<string>): seq<(string, string)>
  {
    if keys == [] then [] else Entries(node, keys[..|keys| - 1]) + [(node, keys[|keys| - 1])]
  }

  /** An entry pairs the node with one of the keys. */
  lemma {:induction false} EntriesMembers(node: string, keys: seq<string>, x: (string, string))
    ensures x in Entries(node, keys) <==> x.0 == node && x.1 in keys
  {
    if keys != [] {
      EntriesMembers(node, keys[..|keys| - 1], x);
      assert keys == keys[..|keys| - 1] + [keys[|keys| - 1]];
    }
  }

  /** `p_book`: the entries of each book's description keys, book after book. */
  function BookEntries(books: seq<string>, m: map<string, Dict<string, seq<string>>>): seq<(string, string)>
    requires forall b :: b in books ==> b in m
  {
    if books == [] then []
    else
      var last := books[|books| - 1];
      BookEntries(books[..|books| - 1], m) + Entries(last, m[last].keys)
  }

  /** A book entry pairs one of the books with a key of its description. */
  lemma {:induction false} BookEntriesMembers(books: seq<string>, m: map<string, Dict<string, seq<string>>>,
                                              x: (string, string))
    requires forall b :: b in books ==> b in m
    ensures x in BookEntries(books, m) <==> x.0 in books && x.1 in m[x.0].keys
  {
    if books != [] {
      var init, last := books[..|books| - 1], books[|books| - 1];
      BookEntriesMembers(init, m, x);
      EntriesMembers(last, m[last].keys, x);
      assert books == init + [last];
    }
  }

  /** The loop that builds `p_book`. */
  method BookPaths(dicBooks: Dict<string, Dict<string, seq<string>>>) returns (pBook: seq<(string, string)>)
    requires Valid(dicBooks)
    ensures pBook == BookEntries(dicBooks.keys, dicBooks.values)
  {
    pBook := [];
    var i := 0;
    while i < |dicBooks.keys|
      invariant 0 <= i <= |dicBooks.keys|
      invariant pBook == BookEntries(dicBooks.keys[..i], dicBooks.values)
    {
      var book := dicBooks.keys[i];
      pBook := pBook + Entries(book, dicBooks.values[book].keys);
      assert dicBooks.keys[..i + 1][..i] == dicBooks.keys[..i];
      i := i + 1;
    }
    assert dicBooks.keys[..i] == dicBooks.keys;
  }

  /** `[x] * n`. */
  function Repeat(x: (string, string), n: nat): (r: seq<(string, string)>)
    ensures multiset(r)[x] == n && forall y :: y != x ==> multiset(r)[y] == 0
  {
    if n == 0 then [] else Repeat(x, n - 1) + [x]
  }

  /** `p_uni`: the university paired with each property once per value it has. */
  function UniEntries(uni: string, keys: seq<string>, m: map<string, seq<string>>): seq<(string, string)>
    requires forall k :: k in keys ==> k in m
  {
    if keys == [] then []
    else
      var last := keys[|keys| - 1];
      UniEntries(uni, keys[..|keys| - 1], m) + Repeat((uni, last), |m[last]|)
  }

  /** A property of the university is drawn from as many entries as it has values. */
  lemma {:induction false} UniEntriesCount(uni: string, keys: seq<string>, m: map<string, seq<string>>,
                                           x: (string, string))
    requires NoDup(keys) && forall k :: k in keys ==> k in m
    ensures multiset(UniEntries(uni, keys, m))[x] == if x.0 == uni && x.1 in keys then |m[x.1]| else 0
  {
    if keys != [] {
      var init, last := keys[..|keys| - 1], keys[|keys| - 1];
      assert keys == init + [last];
      assert NoDup(init) && last !in init;
      UniEntriesCount(uni, init, m, x);
    }
  }

  /** Every entry the pool is drawn from, before the blocked properties are taken out. */
  function Candidates(writer: string, dicWriter: Dict<string, seq<string>>,
                      dicBooks: Dict<string, Dict<string, seq<string>>>,
                      uni: string, dicUni: Dict<string, seq<string>>, country: string): seq<(string, string)>
    requires Valid(dicBooks) && Valid(dicUni)
  {
    Entries(writer, dicWriter.keys) + BookEntries(dicBooks.keys, dicBooks.values)
      + UniEntries(uni, dicUni.keys, dicUni.values) + [(country, IsCountryOf)]
  }

  /** The candidates: the writer's properties, each book's, the university's (those with at
      least one value) and the country's `isCountryOf`. */
  lemma CandidatesMembers(writer: string, dicWriter: Dict<string, seq<string>>,
                          dicBooks: Dict<string, Dict<string, seq<string>>>,
                          uni: string, dicUni: Dict<string, seq<string>>, country: string, x: (string, string))
    requires Valid(dicBooks) && Valid(dicUni)
    ensures x in Candidates(writer, dicWriter, dicBooks, uni, dicUni, country) <==>
              || (x.0 == writer && x.1 in dicWriter.keys)
              || (x.0 in dicBooks.values && x.1 in dicBooks.values[x.0].keys)
              || (x.0 == uni && x.1 in dicUni.values && dicUni.values[x.1] != [])
              || x == (country, IsCountryOf)
  {
    EntriesMembers(writer, dicWriter.keys, x);
    BookEntriesMembers(dicBooks.keys, dicBooks.values, x);
    UniEntriesCount(uni, dicUni.keys, dicUni.values, x);
  }

  /** `[p_ for p_ in pool if p_[1] not in blocked]`. */
  function Unblocked(pool: seq<(string, string)>, blocked: seq<string>): (r: seq<(string, string)>)
    ensures multiset(r) <= multiset(pool)
    ensures forall x :: x in r <==> x in pool && x.1 !in blocked
  {
    if pool == [] then []
    else
      assert pool == [pool[0]] + pool[1..];
      (if pool[0].1 !in blocked then [pool[0]] else []) + Unblocked(pool[1..], blocked)
  }

  /** `s.remove(x)`: drops the first occurrence, or raises ValueError. */
  function Remove(s: seq<(string, string)>, x: (string, string)): Result<seq<(string, string)>>
  {
    if s == [] then Err(ValueError)
    else if s[0] == x then Ok(s[1..])
    else
      match Remove(s[1..], x)
      case Ok(r) => Ok([s[0]] + r)
      case Err(e) => Err(e)
  }

  /** Removal fails exactly when `x` is absent, and otherwise cuts out its first occurrence. */
  lemma {:induction false} RemoveOutcome(s: seq<(string, string)>, x: (string, string)) returns (k: nat)
    ensures Remove(s, x).Ok? <==> x in s
    ensures Remove(s, x).Err? ==> Remove(s, x).error == ValueError
    ensures x in s ==> k < |s| && s[k] == x && x !in s[..k] && Remove(s, x).value == s[..k] + s[k + 1..]
    ensures x in s ==> multiset(Remove(s, x).value) == multiset(s) - multiset{x}
  {
    k := 0;
    if s != [] && s[0] != x {
      assert s == [s[0]] + s[1..];
      var j := RemoveOutcome(s[1..], x);
      if x in s {
        k := j + 1;
        assert s[..k] == [s[0]] + s[1..][..j];
        assert s[k + 1..] == s[1..][j + 1..];
      }
    } else if s != [] {
      assert s == [s[0]] + s[1..];
    }
  }

  /** The list `random.sample` draws from, or the ValueError of `remove`. */
  function Pool(writer: string, dicWriter: Dict<string, seq<string>>,
                dicBooks: Dict<string, Dict<string, seq<string>>>,
                uni: string, dicUni: Dict<string, seq<string>>, country: string, blocked: seq<string>)
    : Result<seq<(string, string)>>
    requires Valid(dicBooks) && Valid(dicUni)
  {
    Remove(Unblocked(Candidates(writer, dicWriter, dicBooks, uni, dicUni, country), blocked), (uni, HasForStudent))
  }

  /** `random.sample(pool, n)`: `n` entries taken from distinct positions of the pool. */
  predicate IsSample(draw: seq<(string, string)>, pool: seq<(string, string)>, n: int)
  {
    |draw| == n && multiset(draw) <= multiset(pool)
  }

  /** `{p_[0]: [] for p_ in draw}`. */
  function EmptyLists(draw: seq<(string, string)>): (d: Dict<string, seq<string>>)
    ensures Valid(d)
  {
    if draw == [] then Empty() else Put(EmptyLists(draw[..|draw| - 1]), draw[|draw| - 1].0, [])
  }

  /** The comprehension has the drawn nodes as keys, in order of first appearance, each with an
      empty list. */
  lemma {:induction false} EmptyListsShape(draw: seq<(string, string)>)
    ensures EmptyLists(draw).keys == Dedup(Firsts(draw))
    ensures forall k :: k in EmptyLists(draw).values ==> EmptyLists(draw).values[k] == []
  {
    if draw != [] {
      var init, k := draw[..|draw| - 1], draw[|draw| - 1].0;
      EmptyListsShape(init);
      var prev := EmptyLists(init);
      assert Firsts(draw)[..|draw| - 1] == Firsts(init);
      assert Firsts(draw)[|draw| - 1] == k;
      assert k in prev.values <==> k in Dedup(Firsts(init));
      assert EmptyLists(draw) == Put(prev, k, []);
    }
  }

  /** A dict with the grouping's keys and, under each, the key's values is the grouping. */
  lemma GroupFromParts(draw: seq<(string, string)>, d: Dict<string, seq<string>>)
    requires d.keys == Group(draw).keys
    requires forall k :: k in d.values <==> k in d.keys
    requires forall k :: k in d.values ==> d.values[k] == ValuesOf(draw, k)
    ensures d == Group(draw)
  {
    forall k
      ensures k in d.values <==> k in Group(draw).values
      ensures k in d.values ==> d.values[k] == Group(draw).values[k]
    {
      GroupValues(draw, k);
    }
    assert d.values == Group(draw).values;
  }

  /** One round of the append loop. */
  lemma AppendStep(draw: seq<(string, string)>, i: nat, m: map<string, seq<string>>)
    requires i < |draw| && draw[i].0 in m
    requires forall k :: k in m ==> m[k] == ValuesOf(draw[..i], k)
    ensures var m' := m[draw[i].0 := m[draw[i].0] + [draw[i].1]];
            forall k :: k in m' ==> m'[k] == ValuesOf(draw[..i + 1], k)
  {
    assert draw[..i + 1][..i] == draw[..i];
  }

  /** The two loops that turn the drawn entries into `dic_paths_to_change`. */
  method ListPaths(draw: seq<(string, string)>) returns (d: Dict<string, seq<string>>)
    ensures d == Group(draw)
  {
    d := EmptyLists(draw);
    EmptyListsShape(draw);
    GroupKeys(draw);
    var i := 0;
    while i < |draw|
      invariant 0 <= i <= |draw|
      invariant d.keys == Dedup(Firsts(draw))
      invariant forall k :: k in d.values <==> k in d.keys
      invariant forall k :: k in d.values ==> d.values[k] == ValuesOf(draw[..i], k)
    {
      var node := draw[i].0;
      assert Firsts(draw)[i] == node;
      AppendStep(draw, i, d.values);
      d := Dict(d.keys, d.values[node := d.values[node] + [draw[i].1]]);
      i := i + 1;
    }
    assert draw[..i] == draw;
    GroupFromParts(draw, d);
  }

  /** The first `n` entries are one possible sample. */
  lemma SampleExists(pool: seq<(string, string)>, n: int)
    requires 0 <= n <= |pool|
    ensures IsSample(pool[..n], pool, n)
  {
    assert pool == pool[..n] + pool[n..];
  }

  /** `get_paths_to_change`: the pool of (node, property) entries, `n` of them drawn by
      `random.sample`, grouped by node. */
  method PathsToChange(writer: string, dicWriter: Dict<string, seq<string>>,
                       dicBooks: Dict<string, Dict<string, seq<string>>>,
                       uni: string, dicUni: Dict<string, seq<string>>, country: string, n: int, blocked: seq<string>)
    returns (res: Result<Dict<string, seq<string>>>, draw: seq<(string, string)>)
    requires Valid(dicBooks) && Valid(dicUni)
    ensures var pool := Pool(writer, dicWriter, dicBooks, uni, dicUni, country, blocked);
            if pool.Err? || n < 0 || n > |pool.value| then res == Err(ValueError)
            else res == Ok(Group(draw)) && IsSample(draw, pool.value, n)
  {
    var pWriter := Entries(writer, dicWriter.keys);
    var pBook := BookPaths(dicBooks);
    var pUni := UniEntries(uni, dicUni.keys, dicUni.values);
    var pCountry := [(country, IsCountryOf)];
    var candidates := Unblocked(pWriter + pBook + pUni + pCountry, blocked);
    var pool := Remove(candidates, (uni, HasForStudent));
    var _ := RemoveOutcome(candidates, (uni, HasForStudent));
    assert pool == Pool(writer, dicWriter, dicBooks, uni, dicUni, country, blocked);
    draw := [];
    if pool.Err? {
      return Err(pool.error), draw;
    }
    if n < 0 || n > |pool.value| {
      return Err(ValueError), draw;
    }
    SampleExists(pool.value, n);
    draw :| IsSample(draw, pool.value, n);
    var d := ListPaths(draw);
    res := Ok(d);
  }

  /** The pool exists exactly when the university's `hasForStudent` entry is a candidate and
      not blocked; it then holds unblocked candidates only, one `hasForStudent` entry fewer. */
  lemma PoolOutcome(writer: string, dicWriter: Dict<string, seq<string>>,
                    dicBooks: Dict<string, Dict<string, seq<string>>>,
                    uni: string, dicUni: Dict<string, seq<string>>, country: string, blocked: seq<string>)
    requires Valid(dicBooks) && Valid(dicUni)
    ensures var cands := Candidates(writer, dicWriter, dicBooks, uni, dicUni, country);
            var pool := Pool(writer, dicWriter, dicBooks, uni, dicUni, country, blocked);
            && (pool.Ok? <==> (uni, HasForStudent) in cands && HasForStudent !in blocked)
            && (pool.Err? ==> pool.error == ValueError)
            && (pool.Ok? ==> multiset(pool.value) == multiset(Unblocked(cands, blocked)) - multiset{(uni, HasForStudent)})
            && (pool.Ok? ==> forall x :: x in pool.value ==> x in cands && x.1 !in blocked)
  {
    var cands := Candidates(writer, dicWriter, dicBooks, uni, dicUni, country);
    var u := Unblocked(cands, blocked);
    var _ := RemoveOutcome(u, (uni, HasForStudent));
    var pool := Remove(u, (uni, HasForStudent));
    if pool.Ok? {
      forall x | x in pool.value
        ensures x in u
      {
        assert multiset(pool.value)[x] > 0;
      }
    }
  }

  /** What the returned dict holds: `n` properties in all, each listed under its node only
      when that (node, property) entry is in the pool. */
  lemma PathsDrawn(draw: seq<(string, string)>, pool: seq<(string, string)>, n: int)
    requires IsSample(draw, pool, n)
    ensures TotalUnder(Group(draw).keys, Group(draw).values) == n
    ensures forall node, p :: node in Group(draw).values && p in Group(draw).values[node] ==> (node, p) in pool
    ensures forall node :: node in Group(draw).values <==> exists p :: (node, p) in draw
  {
    GroupTotal(draw);
    forall node
      ensures node in Group(draw).values <==> exists p :: (node, p) in draw
      ensures node in Group(draw).values ==> forall p :: p in Group(draw).values[node] ==> (node, p) in pool
    {
      DrawnNode(draw, pool, n, node);
    }
  }

  /** The entries of one node in the returned dict. */
  lemma DrawnNode(draw: seq<(string, string)>, pool: seq<(string, string)>, n: int, node: string)
    requires IsSample(draw, pool, n)
    ensures node in Group(draw).values <==> exists p :: (node, p) in draw
    ensures node in Group(draw).values ==> forall p :: p in Group(draw).values[node] ==> (node, p) in pool
  {
    GroupValues(draw, node);
    ValuesOfMembers(draw, node);
    if node in Firsts(draw) {
      var j :| 0 <= j < |draw| && Firsts(draw)[j] == node;
      assert (node, draw[j].1) in draw;
    }
    if exists p :: (node, p) in draw {
      var p :| (node, p) in draw;
      var j :| 0 <= j < |draw| && draw[j] == (node, p);
      assert Firsts(draw)[j] == node;
    }
    forall p | (node, p) in draw
      ensures (node, p) in pool
    {
      assert multiset(draw)[(node, p)] > 0;
    }
  }
}
