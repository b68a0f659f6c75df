/** Bonded interactions (setBondedInteractions, setAngleInteractions,
    setDihedralInteractions). The three functions differ only in the kind of
    tuple list they build and in the label prefix, so one operation over a
    `Kind` models them. For each group `(id, cross)` the topology's parameter
    object is asked to create an interaction over the group's tuples; when
    it gives one, the interaction is registered as `bond_{id}` (or `angle_`,
    `dihedral_`), with `_cross` appended for a cross group, and returned in a
    map keyed by the group. */
module Bonded {
  import opened Topology
  import Sorting
  import Text

  datatype Kind = Bond | Angle | Dihedral

  function Prefix(k: Kind): string {
    match k
    case Bond => "bond_"
    case Angle => "angle_"
    case Dihedral => "dihedral_"
  }

  /** The tuple list handed to the interaction: pairs, triples or quadruples
      by `kind`, an AdResS list when `ftpl` is given. */
  datatype TupleList = TupleList(kind: Kind, adress: bool, tuples: seq<seq<nat>>)

  /** The groups of one kind, their parameter objects, and whether `ftpl` was
      given. */
  datatype BondedInput<P> = BondedInput(
    kind: Kind,
    groups: map<GroupKey, seq<seq<nat>>>,
    params: map<nat, P>,
    adress: bool)

  /** Every group's parameter id is in the parameter table, as the topology
      reader guarantees. */
  ghost predicate HasParams<P>(c: BondedInput<P>) {
    forall g | g in c.groups :: g.0 in c.params
  }

  /** `params.createEspressoInteraction(system, list)`: an interaction or
      nothing. */
  function Created<P, H>(c: BondedInput<P>, create: (P, TupleList) -> Option<H>, g: GroupKey): Option<H>
    requires g in c.groups && g.0 in c.params
  {
    create(c.params[g.0], TupleList(c.kind, c.adress, c.groups[g]))
  }

  /** Group `g` exists and an interaction was created for it. */
  predicate Made<P, H>(c: BondedInput<P>, create: (P, TupleList) -> Option<H>, g: GroupKey) {
    g in c.groups && g.0 in c.params && Created(c, create, g).Some?
  }

  function Name<P>(c: BondedInput<P>, g: GroupKey): string {
    Text.Label(Prefix(c.kind), g.0, g.1)
  }

  ghost predicate Visits<P>(c: BondedInput<P>, order: seq<GroupKey>) {
    forall k | 0 <= k < |order| :: order[k] in c.groups && order[k].0 in c.params
  }

  /** The registrations made while visiting the groups in `order`. */
  function Registrations<P, H>(c: BondedInput<P>, create: (P, TupleList) -> Option<H>, order: seq<GroupKey>)
    : seq<Registration<H>>
    requires Visits(c, order)
  {
    if order == [] then []
    else
      var g := order[|order| - 1];
      Registrations(c, create, order[..|order| - 1])
      + match Created(c, create, g)
        case Some(h) => [Registration(Name(c, g), h)]
        case None => []
  }

  /** The map returned after visiting the groups in `order`. */
  function Returned<P, H>(c: BondedInput<P>, create: (P, TupleList) -> Option<H>, order: seq<GroupKey>)
    : map<GroupKey, H>
    requires Visits(c, order)
  {
    if order == [] then map[]
    else
      var g := order[|order| - 1];
      var prev := Returned(c, create, order[..|order| - 1]);
      match Created(c, create, g)
      case Some(h) => prev[g := h]
      case None => prev
  }

  /** The bonded setter for one kind. The dict is visited in the ghost
      `order`, an enumeration of its keys. */
  method SetBondedTerms<P, H>(c: BondedInput<P>, create: (P, TupleList) -> Option<H>)
    returns (ret: map<GroupKey, H>, regs: seq<Registration<H>>, ghost order: seq<GroupKey>)
    requires HasParams(c)
    ensures Sorting.Enumerates(order, c.groups.Keys)
    ensures Visits(c, order)
    ensures regs == Registrations(c, create, order)
    ensures forall g :: g in ret <==> Made(c, create, g)
    ensures forall g | g in ret :: Made(c, create, g) && ret[g] == Created(c, create, g).value
  {
    var keys := Sorting.Enumerate(c.groups.Keys);
    ret := map[];
    regs := [];
    for i := 0 to |keys|
      invariant Visits(c, keys[..i])
      invariant regs == Registrations(c, create, keys[..i])
      invariant ret == Returned(c, create, keys[..i])
    {
      Sorting.PrefixStep(keys, i);
      ret, regs := VisitGroup(c, create, keys[..i], keys[i], ret, regs);
    }
    assert keys[..|keys|] == keys;
    order := keys;
    ReturnedFacts(c, create, order);
  }

  /** One iteration: creates the interaction of group `g` and, if there is
      one, registers it and stores it under `g`. */
  method VisitGroup<P, H>(c: BondedInput<P>, create: (P, TupleList) -> Option<H>, ghost visited: seq<GroupKey>,
                          g: GroupKey, ret: map<GroupKey, H>, regs: seq<Registration<H>>)
    returns (ret': map<GroupKey, H>, regs': seq<Registration<H>>)
    requires Visits(c, visited) && g in c.groups && g.0 in c.params
    requires regs == Registrations(c, create, visited) && ret == Returned(c, create, visited)
    ensures Visits(c, visited + [g])
    ensures regs' == Registrations(c, create, visited + [g])
    ensures ret' == Returned(c, create, visited + [g])
  {
    assert (visited + [g])[..|visited|] == visited;
    var list := TupleList(c.kind, c.adress, c.groups[g]);
    var interaction := create(c.params[g.0], list);
    ret', regs' := ret, regs;
    if interaction.Some? {
      regs' := regs + [Registration(Text.Label(Prefix(c.kind), g.0, g.1), interaction.value)];
      ret' := ret[g := interaction.value];
    }
  }

  /** After visiting every group, the map holds exactly the groups whose
      interaction was created, each with its interaction. */
  lemma ReturnedFacts<P, H>(c: BondedInput<P>, create: (P, TupleList) -> Option<H>, order: seq<GroupKey>)
    requires Sorting.Enumerates(order, c.groups.Keys) && Visits(c, order)
    ensures forall g :: g in Returned(c, create, order) <==> Made(c, create, g)
    ensures forall g | g in Returned(c, create, order) ::
      Made(c, create, g) && Returned(c, create, order)[g] == Created(c, create, g).value
  {
    ReturnedOf(c, create, order);
  }

  /** The map after visiting `order` holds the visited groups whose
      interaction was created. */
  lemma {:induction false} ReturnedOf<P, H>(c: BondedInput<P>, create: (P, TupleList) -> Option<H>, order: seq<GroupKey>)
    requires Visits(c, order)
    ensures forall g :: g in Returned(c, create, order) <==> Made(c, create, g) && g in order
    ensures forall g | g in Returned(c, create, order) ::
      Made(c, create, g) && Returned(c, create, order)[g] == Created(c, create, g).value
  {
    if order != [] {
      var init := order[..|order| - 1];
      ReturnedOf(c, create, init);
      assert forall g :: g in order <==> g in init || g == order[|order| - 1];
    }
  }

  // ------------------------------------------------------------------ lemmas

  /** Each registration is the one of a visited group whose interaction was
      created, under that group's name. */
  lemma {:induction false} RegistrationsFrom<P, H>(c: BondedInput<P>, create: (P, TupleList) -> Option<H>,
                                                  order: seq<GroupKey>)
    requires Visits(c, order)
    ensures forall r | r in Registrations(c, create, order) ::
      exists k | 0 <= k < |order| ::
        Created(c, create, order[k]) == Some(r.interaction) && r.name == Name(c, order[k])
  {
    if order != [] {
      var init := order[..|order| - 1];
      RegistrationsFrom(c, create, init);
      forall r | r in Registrations(c, create, order)
        ensures exists k | 0 <= k < |order| ::
          Created(c, create, order[k]) == Some(r.interaction) && r.name == Name(c, order[k])
      {
        if r in Registrations(c, create, init) {
          var k :| 0 <= k < |init| && Created(c, create, init[k]) == Some(r.interaction) && r.name == Name(c, init[k]);
          assert order[k] == init[k];
        } else {
          assert Created(c, create, order[|order| - 1]) == Some(r.interaction);
        }
      }
    }
  }

  /** Every visited group whose interaction was created is registered. */
  lemma {:induction false} RegistrationsInclude<P, H>(c: BondedInput<P>, create: (P, TupleList) -> Option<H>,
                                                     order: seq<GroupKey>, k: nat)
    requires Visits(c, order) && k < |order| && Created(c, create, order[k]).Some?
    ensures Registration(Name(c, order[k]), Created(c, create, order[k]).value) in Registrations(c, create, order)
  {
    var init := order[..|order| - 1];
    if k < |init| {
      assert init[k] == order[k];
      RegistrationsInclude(c, create, init, k);
    }
  }

  /** A group's name is registered exactly when its interaction was created,
      and then with that interaction; so the registered names are exactly
      the keys of the returned map. */
  lemma NameRegistered<P, H>(c: BondedInput<P>, create: (P, TupleList) -> Option<H>,
                             order: seq<GroupKey>, g: GroupKey)
    requires Sorting.Enumerates(order, c.groups.Keys) && Visits(c, order) && g in c.groups
    ensures (exists r | r in Registrations(c, create, order) :: r.name == Name(c, g)) <==> Made(c, create, g)
    ensures forall r | r in Registrations(c, create, order) && r.name == Name(c, g) ::
      Created(c, create, g) == Some(r.interaction)
  {
    var k :| 0 <= k < |order| && order[k] == g;
    RegistrationsFrom(c, create, order);
    if Made(c, create, g) {
      RegistrationsInclude(c, create, order, k);
    }
    forall r | r in Registrations(c, create, order) && r.name == Name(c, g)
      ensures Created(c, create, g) == Some(r.interaction)
    {
      var j :| 0 <= j < |order| && Created(c, create, order[j]) == Some(r.interaction) && r.name == Name(c, order[j]);
      Text.LabelInjective(Prefix(c.kind), g.0, g.1, order[j].0, order[j].1);
    }
  }

  /** No two registrations share a name, so none replaces another. */
  lemma {:induction false} NamesDistinct<P, H>(c: BondedInput<P>, create: (P, TupleList) -> Option<H>,
                                              order: seq<GroupKey>)
    requires Visits(c, order)
    requires forall i, j | 0 <= i < j < |order| :: order[i] != order[j]
    ensures forall i, j | 0 <= i < j < |Registrations(c, create, order)| ::
      Registrations(c, create, order)[i].name != Registrations(c, create, order)[j].name
  {
    if order != [] {
      var init := order[..|order| - 1];
      var g := order[|order| - 1];
      assert forall i, j | 0 <= i < j < |init| :: init[i] == order[i] && init[j] == order[j];
      NamesDistinct(c, create, init);
      RegistrationsFrom(c, create, init);
      var prev := Registrations(c, create, init);
      var regs := Registrations(c, create, order);
      forall i, j | 0 <= i < j < |regs| ensures regs[i].name != regs[j].name {
        if j < |prev| {
          assert regs[i] == prev[i] && regs[j] == prev[j];
          assert prev[i].name != prev[j].name;
        } else {
          assert Created(c, create, g).Some? && j == |prev|;
          assert regs[i] == prev[i] && prev[i] in prev;
          var k :| 0 <= k < |init| && Created(c, create, init[k]) == Some(prev[i].interaction)
                   && prev[i].name == Name(c, init[k]);
          assert order[k] == init[k] && init[k] != g;
          assert regs[j].name == Name(c, g);
          if regs[i].name == regs[j].name {
            Text.LabelInjective(Prefix(c.kind), init[k].0, init[k].1, g.0, g.1);
          }
        }
      }
    }
  }
}
