/** renumber_list: every id of every n-tuple is looked up in an old-to-new
    id map with `.get`; a tuple in which some id has no new id is dropped,
    the others keep their order and arity. */
module Renumber {
  import opened Topology

  type Tuple = seq<nat>

  /** `map(old2new_ids.get, t)`: the new id of each old id, or None. */
  function Relabel(t: Tuple, m: map<nat, nat>): (r: seq<Option<nat>>)
    ensures |r| == |t|
  {
    seq(|t|, i requires 0 <= i < |t| => if t[i] in m then Some(m[t[i]]) else None)
  }

  /** `None not in p`. */
  predicate Complete(p: seq<Option<nat>>) {
    forall i | 0 <= i < |p| :: p[i].Some?
  }

  function Values(p: seq<Option<nat>>): (r: Tuple)
    requires Complete(p)
    ensures |r| == |p|
  {
    seq(|p|, i requires 0 <= i < |p| => p[i].value)
  }

  /** `[p for p in new_list if None not in p]`. */
  function KeepComplete(ps: seq<seq<Option<nat>>>): (r: seq<Tuple>)
    ensures |r| <= |ps|
  {
    if ps == [] then []
    else (if Complete(ps[0]) then [Values(ps[0])] else []) + KeepComplete(ps[1..])
  }

  /** renumber_list(input_list, old2new_ids). */
  function RenumberList(input: seq<Tuple>, m: map<nat, nat>): (r: seq<Tuple>)
    ensures |r| <= |input|
  {
    KeepComplete(seq(|input|, i requires 0 <= i < |input| => Relabel(input[i], m)))
  }

  // ---------------------------------------------------- reference definitions

  /** Every id of `t` has a new id. */
  predicate AllMapped(t: Tuple, m: map<nat, nat>) {
    forall i | 0 <= i < |t| :: t[i] in m
  }

  /** The tuples of `input` all of whose ids have a new id, in order. */
  function Kept(input: seq<Tuple>, m: map<nat, nat>): (r: seq<Tuple>)
    ensures |r| <= |input|
    ensures forall k | 0 <= k < |r| :: AllMapped(r[k], m) && r[k] in input
  {
    if input == [] then []
    else (if AllMapped(input[0], m) then [input[0]] else []) + Kept(input[1..], m)
  }

  /** `t` with each id replaced by its new id. */
  function MapIds(t: Tuple, m: map<nat, nat>): (r: Tuple)
    requires AllMapped(t, m)
    ensures |r| == |t|
  {
    seq(|t|, i requires 0 <= i < |t| => m[t[i]])
  }

  // ------------------------------------------------------------------ lemmas

  /** A relabelled tuple is complete exactly when all its ids are mapped, and
      its values are then the mapped ids. */
  lemma RelabelComplete(t: Tuple, m: map<nat, nat>)
    ensures Complete(Relabel(t, m)) <==> AllMapped(t, m)
    ensures AllMapped(t, m) ==> Values(Relabel(t, m)) == MapIds(t, m)
  {
    if !AllMapped(t, m) {
      var i :| 0 <= i < |t| && t[i] !in m;
      assert Relabel(t, m)[i] == None;
    }
  }

  /** renumber_list keeps the tuples whose ids are all mapped, in their order,
      and renumbers each of them id by id. */
  lemma {:induction false} RenumberIsFilterThenMap(input: seq<Tuple>, m: map<nat, nat>)
    ensures |RenumberList(input, m)| == |Kept(input, m)|
    ensures forall k | 0 <= k < |Kept(input, m)| ::
      RenumberList(input, m)[k] == MapIds(Kept(input, m)[k], m)
  {
    var news := seq(|input|, i requires 0 <= i < |input| => Relabel(input[i], m));
    if input != [] {
      var rest := input[1..];
      RenumberIsFilterThenMap(rest, m);
      var news' := seq(|rest|, i requires 0 <= i < |rest| => Relabel(rest[i], m));
      assert news[1..] == news';
      assert news[0] == Relabel(input[0], m);
      RelabelComplete(input[0], m);
      assert RenumberList(input, m)
        == (if Complete(news[0]) then [Values(news[0])] else []) + RenumberList(rest, m);
    }
  }

  /** A tuple is in the result exactly when it is the renumbering of a tuple
      of the input all of whose ids are mapped. */
  lemma RenumberMembership(input: seq<Tuple>, m: map<nat, nat>, u: Tuple)
    ensures u in RenumberList(input, m) <==>
      exists t | t in input && AllMapped(t, m) :: MapIds(t, m) == u
  {
    RenumberIsFilterThenMap(input, m);
    KeptMembership(input, m);
    var r := RenumberList(input, m);
    var kept := Kept(input, m);
    if u in r {
      var k :| 0 <= k < |r| && r[k] == u;
      assert kept[k] in input && AllMapped(kept[k], m);
    }
    if exists t | t in input && AllMapped(t, m) :: MapIds(t, m) == u {
      var t :| t in input && AllMapped(t, m) && MapIds(t, m) == u;
      var k :| 0 <= k < |kept| && kept[k] == t;
      assert r[k] == u;
    }
  }

  /** The kept tuples are exactly the input tuples all of whose ids are
      mapped. */
  lemma {:induction false} KeptMembership(input: seq<Tuple>, m: map<nat, nat>)
    ensures forall t :: t in Kept(input, m) <==> t in input && AllMapped(t, m)
  {
    if input != [] {
      KeptMembership(input[1..], m);
      assert forall t :: t in input <==> t == input[0] || t in input[1..];
    }
  }

  /** No tuple is dropped exactly when every tuple's ids are all mapped; then
      the result has the input's length. */
  lemma {:induction false} RenumberKeepsAll(input: seq<Tuple>, m: map<nat, nat>)
    ensures |RenumberList(input, m)| == |input| <==>
      forall k | 0 <= k < |input| :: AllMapped(input[k], m)
  {
    RenumberIsFilterThenMap(input, m);
    KeptAll(input, m);
  }

  lemma {:induction false} KeptAll(input: seq<Tuple>, m: map<nat, nat>)
    ensures |Kept(input, m)| == |input| <==> forall k | 0 <= k < |input| :: AllMapped(input[k], m)
  {
    if input != [] {
      KeptAll(input[1..], m);
      assert forall k | 1 <= k < |input| :: input[k] == input[1..][k - 1];
      if forall k | 0 <= k < |input[1..]| :: AllMapped(input[1..][k], m) {
        assert forall k | 1 <= k < |input| :: AllMapped(input[k], m);
      }
    }
  }

  /** `inv` undoes `m` on every id `m` maps. */
  predicate Inverse(m: map<nat, nat>, inv: map<nat, nat>) {
    forall k | k in m :: m[k] in inv && inv[m[k]] == k
  }

  /** Renumbering with `m` and then with an inverse of `m` gives back the kept
      tuples unchanged. */
  lemma RenumberRoundTrip(input: seq<Tuple>, m: map<nat, nat>, inv: map<nat, nat>)
    requires Inverse(m, inv)
    ensures RenumberList(RenumberList(input, m), inv) == Kept(input, m)
  {
    var r := RenumberList(input, m);
    var kept := Kept(input, m);
    RenumberIsFilterThenMap(input, m);
    forall k | 0 <= k < |r| ensures AllMapped(r[k], inv) && MapIds(r[k], inv) == kept[k] {
      assert r[k] == MapIds(kept[k], m);
    }
    RenumberAllMapped(r, inv);
  }

  /** When every tuple's ids are mapped, renumbering drops nothing and maps
      each tuple. */
  lemma {:induction false} RenumberAllMapped(input: seq<Tuple>, m: map<nat, nat>)
    requires forall k | 0 <= k < |input| :: AllMapped(input[k], m)
    ensures |RenumberList(input, m)| == |input|
    ensures forall k | 0 <= k < |input| :: RenumberList(input, m)[k] == MapIds(input[k], m)
  {
    RenumberIsFilterThenMap(input, m);
    KeptAll(input, m);
    KeptAllIsInput(input, m);
  }

  lemma {:induction false} KeptAllIsInput(input: seq<Tuple>, m: map<nat, nat>)
    requires forall k | 0 <= k < |input| :: AllMapped(input[k], m)
    ensures Kept(input, m) == input
  {
    if input != [] {
      assert forall k | 0 <= k < |input[1..]| :: input[1..][k] == input[k + 1];
      KeptAllIsInput(input[1..], m);
      assert input == [input[0]] + input[1..];
    }
  }
}
