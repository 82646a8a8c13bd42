/** Python dictionaries: the keys in insertion order and a value for each, and the
    "append to the list under this key, creating it if needed" idiom that groups a list of
    pairs by their first component. */
module Dicts {
  import opened Wrappers
  import opened Seqs

  /** A dict: `keys` in insertion order, `values` the mapping itself. */
  datatype Dict<K, V> = Dict(keys: seq<K>, values: map<K, V>)

  /** The keys are distinct and are exactly the domain of the mapping. */
  ghost predicate Valid<K(!new), V>(d: Dict<K, V>)
  {
    NoDup(d.keys) && forall k :: k in d.values <==> k in d.keys
  }

  function Empty<K(==,!new), V>(): (d: Dict<K, V>)
    ensures Valid(d) && d.keys == []
  {
    Dict([], map[])
  }

  /** `d[k] = v`: a new key goes to the end, an existing key keeps its place. */
  function Put<K(==,!new), V>(d: Dict<K, V>, k: K, v: V): (r: Dict<K, V>)
    requires Valid(d)
    ensures Valid(r)
    ensures r.keys == if k in d.values then d.keys else d.keys + [k]
    ensures r.values == d.values[k := v]
  {
    Dict(if k in d.values then d.keys else d.keys + [k], d.values[k := v])
  }

  /** `d[k]`, or KeyError. */
  function Get<K(==,!new), V>(d: Dict<K, V>, k: K): (r: Result<V>)
    ensures r.Ok? <==> k in d.values
    ensures r.Ok? ==> r.value == d.values[k]
    ensures r.Err? ==> r.error == KeyError
  {
    if k in d.values then Ok(d.values[k]) else Err(KeyError)
  }

  /** The first components of a list of pairs. */
  function Firsts<K(==,!new), V>(ps: seq<(K, V)>): (r: seq<K>)
    ensures |r| == |ps| && forall i :: 0 <= i < |ps| ==> r[i] == ps[i].0
  {
    seq(|ps|, i requires 0 <= i < |ps| => ps[i].0)
  }

  /** The second components of the pairs whose first component is `k`, in order. */
  function ValuesOf<K(==,!new), V>(ps: seq<(K, V)>, k: K): (r: seq<V>)
    ensures |r| <= |ps|
  {
    if ps == [] then []
    else ValuesOf(ps[..|ps| - 1], k) + (if ps[|ps| - 1].0 == k then [ps[|ps| - 1].1] else [])
  }

  /** The values under `k` in a concatenation are those of each part, one after the other. */
  lemma {:induction false} ValuesOfConcat<K(!new), V>(a: seq<(K, V)>, b: seq<(K, V)>, k: K)
    ensures ValuesOf(a + b, k) == ValuesOf(a, k) + ValuesOf(b, k)
  {
    if b != [] {
      var bi := b[..|b| - 1];
      assert (a + b)[..|a + b| - 1] == a + bi;
      assert (a + b)[|a + b| - 1] == b[|b| - 1];
      ValuesOfConcat(a, bi, k);
    } else {
      assert a + b == a;
    }
  }

  /** A value is listed under `k` exactly when the pair `(k, v)` occurs. */
  lemma {:induction false} ValuesOfMembers<K(!new), V>(ps: seq<(K, V)>, k: K)
    ensures forall v :: v in ValuesOf(ps, k) <==> (k, v) in ps
  {
    if ps != [] {
      var init := ps[..|ps| - 1];
      ValuesOfMembers(init, k);
      assert ps == init + [ps[|ps| - 1]];
    }
  }

  /** The first components of a concatenation. */
  lemma FirstsConcat<K(!new), V>(a: seq<(K, V)>, b: seq<(K, V)>)
    ensures Firsts(a + b) == Firsts(a) + Firsts(b)
  {
    assert forall i :: 0 <= i < |a + b| ==> Firsts(a + b)[i] == (Firsts(a) + Firsts(b))[i];
  }

  /** One step of the grouping loop: append `v` to the list under `k`. */
  function AddTo<K(==,!new), V>(d: Dict<K, seq<V>>, k: K, v: V): (r: Dict<K, seq<V>>)
    requires Valid(d)
    ensures Valid(r)
  {
    Put(d, k, if k in d.values then d.values[k] + [v] else [v])
  }

  /** The dict the grouping loop builds from `ps`. */
  function Group<K(==,!new), V>(ps: seq<(K, V)>): (d: Dict<K, seq<V>>)
    ensures Valid(d)
  {
    if ps == [] then Empty()
    else
      var last := ps[|ps| - 1];
      AddTo(Group(ps[..|ps| - 1]), last.0, last.1)
  }

  /** Grouping one more pair is one more step. */
  lemma GroupSnoc<K(!new), V>(ps: seq<(K, V)>, i: nat)
    requires i < |ps|
    ensures Group(ps[..i + 1]) == AddTo(Group(ps[..i]), ps[i].0, ps[i].1)
  {
    assert ps[..i + 1][..i] == ps[..i];
  }

  /** The keys are the first components in order of first appearance. */
  lemma {:induction false} GroupKeys<K(!new), V>(ps: seq<(K, V)>)
    ensures Group(ps).keys == Dedup(Firsts(ps))
  {
    if ps != [] {
      var init := ps[..|ps| - 1];
      GroupKeys(init);
      assert Firsts(ps)[..|ps| - 1] == Firsts(init);
    }
  }

  /** The list under each key holds that key's second components, in order, duplicates
      kept; and a key is present exactly when some pair carries it. */
  lemma {:induction false} GroupValues<K(!new), V>(ps: seq<(K, V)>, k: K)
    ensures k in Group(ps).values <==> k in Firsts(ps)
    ensures k in Group(ps).values ==> Group(ps).values[k] == ValuesOf(ps, k)
    ensures k !in Group(ps).values ==> ValuesOf(ps, k) == []
  {
    if ps != [] {
      var init := ps[..|ps| - 1];
      GroupValues(init, k);
      assert Firsts(ps) == Firsts(init) + [ps[|ps| - 1].0];
    }
  }

  /** The total length of the lists under `keys`. */
  function TotalUnder<K(==,!new), V>(keys: seq<K>, m: map<K, seq<V>>): nat
    requires forall k :: k in keys ==> k in m
  {
    if keys == [] then 0 else |m[keys[0]]| + TotalUnder(keys[1..], m)
  }

  /** Lengthening the list under one of the keys by one raises the total by one. */
  lemma {:induction false} TotalUnderGrow<K(!new), V>(keys: seq<K>, m: map<K, seq<V>>, k: K, v: V)
    requires NoDup(keys) && forall j :: j in keys ==> j in m
    requires k in keys
    ensures TotalUnder(keys, m[k := m[k] + [v]]) == TotalUnder(keys, m) + 1
  {
    if keys[0] == k {
      assert k !in keys[1..];
      TotalUnderSame(keys[1..], m, k, m[k] + [v]);
    } else {
      TotalUnderGrow(keys[1..], m, k, v);
    }
  }

  /** Changing the list under a key that is not among `keys` leaves their total alone. */
  lemma {:induction false} TotalUnderSame<K(!new), V>(keys: seq<K>, m: map<K, seq<V>>, k: K, s: seq<V>)
    requires forall j :: j in keys ==> j in m
    requires k !in keys
    ensures TotalUnder(keys, m[k := s]) == TotalUnder(keys, m)
  {
    if keys != [] {
      TotalUnderSame(keys[1..], m, k, s);
    }
  }

  /** A new key appended at the end adds the length of its list. */
  lemma {:induction false} TotalUnderAppend<K(!new), V>(keys: seq<K>, m: map<K, seq<V>>, k: K)
    requires forall j :: j in keys ==> j in m
    requires k in m
    ensures TotalUnder(keys + [k], m) == TotalUnder(keys, m) + |m[k]|
  {
    if keys == [] {
      assert [k][1..] == [];
    } else {
      assert (keys + [k])[1..] == keys[1..] + [k];
      TotalUnderAppend(keys[1..], m, k);
    }
  }

  /** Grouping loses no pair: the lists under the keys hold `|ps|` values in all. */
  lemma {:induction false} GroupTotal<K(!new), V>(ps: seq<(K, V)>)
    ensures TotalUnder(Group(ps).keys, Group(ps).values) == |ps|
  {
    if ps != [] {
      var init := ps[..|ps| - 1];
      var d := Group(init);
      var last := ps[|ps| - 1];
      GroupTotal(init);
      if last.0 in d.values {
        TotalUnderGrow(d.keys, d.values, last.0, last.1);
      } else {
        TotalUnderSame(d.keys, d.values, last.0, [last.1]);
        TotalUnderAppend(d.keys, d.values[last.0 := [last.1]], last.0);
      }
    }
  }
}
