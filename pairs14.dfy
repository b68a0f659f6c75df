/** The 1-4 pair interactions (setPairInteractions): each group of 1-4
    pairs gets its own Lennard-Jones interaction when its parameters are
    positive, and its pairs are collected into one of three buckets (static,
    coarse-grained cross, atomistic cross), each of which becomes one
    truncated-Coulomb interaction when it is not empty. The engine's
    `system.addInteraction(interaction, label)` calls are the returned
    registrations. */
module PairInteractions {
  import opened Topology
  import Sorting
  import Text
  import NonBonded

  /** A pair of 1-based particle ids. */
  type IdPair = (nat, nat)

  datatype Bucket = Static | CGCross | ATCross

  datatype Term =
      /** FixedPairListLennardJones (isCG None) or
          FixedPairListAdressLennardJones(..., is_cg); `adressList` says the
          pair list is a FixedPairListAdress. */
    | PairLennardJones(pairs: seq<IdPair>, adressList: bool, pot: LJ, isCG: Option<bool>)
      /** A truncated-Coulomb interaction over one bucket, its potential set
          for every pair of atomistic types in `typePairs`. */
    | Coulomb14(bucket: Bucket, pairs: seq<IdPair>, typePairs: seq<TypePair>)

  /** The inputs: `pairtypes`, `pairtypeparams`, the particle types, the
      atom-type table, and whether `ftpl` was given. */
  datatype PairInput = PairInput(
    groups: map<GroupKey, seq<IdPair>>,
    params: map<nat, LJ>,
    types: seq<TypeId>,
    at: map<TypeId, AtomType>,
    adress: bool)

  /** What the topology reader guarantees: every group has parameters and at
      least one pair, and its first particle has a known type. */
  ghost predicate Consistent(c: PairInput) {
    forall g | g in c.groups :: GroupOk(c, g)
  }

  ghost predicate GroupOk(c: PairInput, g: GroupKey) {
    && g in c.groups
    && g.0 in c.params
    && |c.groups[g]| > 0
    && 1 <= c.groups[g][0].0 <= |c.types|
    && c.types[c.groups[g][0].0 - 1] in c.at
  }

  /** The group is coarse-grained: the type of its first pair's first
      particle is virtual. */
  predicate IsCG(c: PairInput, g: GroupKey)
    requires GroupOk(c, g)
  {
    IsVirtual(c.at[c.types[c.groups[g][0].0 - 1]])
  }

  function BucketOf(c: PairInput, g: GroupKey): Bucket
    requires GroupOk(c, g)
  {
    if IsCG(c, g) then CGCross else if g.1 then ATCross else Static
  }

  ghost predicate Visits(c: PairInput, order: seq<GroupKey>) {
    forall k | 0 <= k < |order| :: order[k] in c.groups
  }

  /** A bucket after the loop has met the groups in `order`: the lists of
      that bucket's groups, extended one after another. */
  function BucketAfter(c: PairInput, order: seq<GroupKey>, b: Bucket): seq<IdPair>
    requires Consistent(c) && Visits(c, order)
  {
    if order == [] then []
    else
      var g := order[|order| - 1];
      BucketAfter(c, order[..|order| - 1], b) + (if BucketOf(c, g) == b then c.groups[g] else [])
  }

  /** The LJ-14 registration of one group, if its parameters are positive. */
  function LJ14(c: PairInput, g: GroupKey): Option<Registration<Term>>
    requires GroupOk(c, g)
  {
    var p := c.params[g.0];
    if p.sig > 0.0 && p.eps > 0.0 then
      Some(Registration(
        Text.Label("lj-14_", g.0, g.1),
        PairLennardJones(c.groups[g], !IsCG(c, g) && c.adress, p, if g.1 then Some(IsCG(c, g)) else None)))
    else None
  }

  function LJ14s(c: PairInput, order: seq<GroupKey>): seq<Registration<Term>>
    requires Consistent(c) && Visits(c, order)
  {
    if order == [] then []
    else
      LJ14s(c, order[..|order| - 1]) + NonBonded.OptionToSeq(LJ14(c, order[|order| - 1]))
  }

  /** The Coulomb-14 registrations made after the loop: one per non-empty
      bucket, under three distinct names. */
  function Coulomb14s(static14: seq<IdPair>, cg: seq<IdPair>, at_: seq<IdPair>,
                      typePairs: seq<TypePair>): seq<Registration<Term>>
  {
    (if static14 != [] then [Registration("coulomb14", Coulomb14(Static, static14, typePairs))] else [])
    + (if cg != [] then [Registration("coulomb14_cg_cross", Coulomb14(CGCross, cg, typePairs))] else [])
    + (if at_ != [] then [Registration("coulomb14_at_cross", Coulomb14(ATCross, at_, typePairs))] else [])
  }

  lemma CoulombNames(static14: seq<IdPair>, cg: seq<IdPair>, at_: seq<IdPair>, typePairs: seq<TypePair>)
    ensures var r := Coulomb14s(static14, cg, at_, typePairs);
      && (forall i | 0 <= i < |r| :: |r[i].name| > 0 && r[i].name[0] == 'c')
      && (forall i, j | 0 <= i < j < |r| :: r[i].name != r[j].name)
  {
  }

  predicate BothAtomistic(a: AtomType, b: AtomType) {
    !IsVirtual(a) && !IsVirtual(b)
  }

  function AtomisticSelector(): NonBonded.Selector {
    (a, b) => BothAtomistic(a, b)
  }

  /** The sorted pairs of atomistic types that each Coulomb-14 interaction
      gets its potential for. */
  ghost function AtomisticPairs(at: map<TypeId, AtomType>): seq<TypePair> {
    var s := NonBonded.PairsWhere(at, AtomisticSelector(), at.Keys, at.Keys);
    NonBonded.PairLessStrictTotal(s);
    Sorting.SortedSeq(s, PairLess)
  }

  /** The registrations of setPairInteractions for the loop order `order`,
      the Coulomb-14 potentials being set for the type pairs `typePairs`. */
  function Registrations(c: PairInput, order: seq<GroupKey>, typePairs: seq<TypePair>): seq<Registration<Term>>
    requires Consistent(c) && Visits(c, order)
  {
    LJ14s(c, order)
    + Coulomb14s(BucketAfter(c, order, Static), BucketAfter(c, order, CGCross),
                 BucketAfter(c, order, ATCross), typePairs)
  }

  /** setPairInteractions for the loop order `order`. */
  ghost function PairInteractionsSpec(c: PairInput, order: seq<GroupKey>): seq<Registration<Term>>
    requires Consistent(c) && Visits(c, order)
  {
    Registrations(c, order, AtomisticPairs(c.at))
  }

  method SortedAtomisticPairs(at: map<TypeId, AtomType>) returns (ps: seq<TypePair>)
    ensures ps == AtomisticPairs(at)
  {
    var s := NonBonded.CollectTypePairs(at, AtomisticSelector());
    NonBonded.PairLessStrictTotal(s);
    ps := Sorting.SortSet(s, PairLess);
  }

  lemma StepFacts(c: PairInput, order: seq<GroupKey>, g: GroupKey)
    requires Consistent(c) && Visits(c, order) && g in c.groups
    ensures Visits(c, order + [g])
    ensures (order + [g])[..|order|] == order
    ensures GroupOk(c, g)
    ensures BucketAfter(c, order + [g], Static)
         == BucketAfter(c, order, Static) + (if BucketOf(c, g) == Static then c.groups[g] else [])
    ensures BucketAfter(c, order + [g], CGCross)
         == BucketAfter(c, order, CGCross) + (if BucketOf(c, g) == CGCross then c.groups[g] else [])
    ensures BucketAfter(c, order + [g], ATCross)
         == BucketAfter(c, order, ATCross) + (if BucketOf(c, g) == ATCross then c.groups[g] else [])
    ensures LJ14s(c, order + [g]) == LJ14s(c, order) + NonBonded.OptionToSeq(LJ14(c, g))
  {
    assert (order + [g])[..|order|] == order;
  }

  /** setPairInteractions. The dict is visited in the ghost `order`, an
      enumeration of its keys. */
  method SetPairInteractions(c: PairInput) returns (regs: seq<Registration<Term>>, ghost order: seq<GroupKey>)
    requires Consistent(c)
    ensures Sorting.Enumerates(order, c.groups.Keys)
    ensures regs == PairInteractionsSpec(c, order)
    ensures LabelsUnique(regs)
    ensures forall b: Bucket :: CoulombIffBucketUsed(c, regs, b)
  {
    var static14, cross14cg, cross14at;
    static14, cross14cg, cross14at, regs, order := VisitGroups(c);
    var coulomb := RegisterCoulomb14(c.at, static14, cross14cg, cross14at);
    SpecUnfold(c, order, regs, coulomb);
    regs := regs + coulomb;
    PairInteractionsFacts(c, order, AtomisticPairs(c.at));
  }

  /** No two registrations share a label, so none replaces another. */
  ghost predicate LabelsUnique(regs: seq<Registration<Term>>) {
    forall i, j | 0 <= i < j < |regs| :: regs[i].name != regs[j].name
  }

  /** Bucket `b`'s Coulomb-14 label is registered exactly when some group
      belongs to the bucket. */
  ghost predicate CoulombIffBucketUsed(c: PairInput, regs: seq<Registration<Term>>, b: Bucket) {
    (exists i | 0 <= i < |regs| :: regs[i].name == CoulombName(b))
      <==> exists g | g in c.groups :: InBucket(c, g, b)
  }

  /** After a complete visit, in whatever order, the labels are unique and
      the Coulomb-14 labels follow the buckets in use. */
  lemma PairInteractionsFacts(c: PairInput, order: seq<GroupKey>, typePairs: seq<TypePair>)
    requires Consistent(c) && Sorting.Enumerates(order, c.groups.Keys)
    ensures Visits(c, order)
    ensures LabelsUnique(Registrations(c, order, typePairs))
    ensures forall b: Bucket :: CoulombIffBucketUsed(c, Registrations(c, order, typePairs), b)
  {
    LabelsDistinct(c, order, typePairs);
    forall b: Bucket ensures CoulombIffBucketUsed(c, Registrations(c, order, typePairs), b) {
      CoulombGroups(c, order, typePairs, b);
    }
  }

  /** `CoulombRegistered`, stated over the groups rather than the visiting
      order. */
  lemma CoulombGroups(c: PairInput, order: seq<GroupKey>, typePairs: seq<TypePair>, b: Bucket)
    requires Consistent(c) && Sorting.Enumerates(order, c.groups.Keys)
    ensures Visits(c, order)
    ensures (exists i | 0 <= i < |Registrations(c, order, typePairs)| ::
               Registrations(c, order, typePairs)[i].name == CoulombName(b))
        <==> exists g | g in c.groups :: InBucket(c, g, b)
  {
    CoulombRegistered(c, order, typePairs, b);
    BucketNonEmpty(c, order, b);
    BucketGroups(c, order, b);
  }

  /** The loop over `pairtypes`: fills the three buckets and registers the
      LJ-14 interactions. */
  method VisitGroups(c: PairInput)
    returns (static14: seq<IdPair>, cross14cg: seq<IdPair>, cross14at: seq<IdPair>,
             regs: seq<Registration<Term>>, ghost order: seq<GroupKey>)
    requires Consistent(c)
    ensures Sorting.Enumerates(order, c.groups.Keys)
    ensures Visits(c, order)
    ensures static14 == BucketAfter(c, order, Static)
    ensures cross14cg == BucketAfter(c, order, CGCross)
    ensures cross14at == BucketAfter(c, order, ATCross)
    ensures regs == LJ14s(c, order)
    ensures forall r | r in regs :: exists g | g in c.groups :: GroupOk(c, g) && LJ14(c, g) == Some(r)
    ensures forall g | g in c.groups && GroupOk(c, g) && LJ14(c, g).Some? :: LJ14(c, g).value in regs
    ensures static14 != [] <==> exists g | g in c.groups :: InBucket(c, g, Static)
    ensures cross14cg != [] <==> exists g | g in c.groups :: InBucket(c, g, CGCross)
    ensures cross14at != [] <==> exists g | g in c.groups :: InBucket(c, g, ATCross)
  {
    var keys := Sorting.Enumerate(c.groups.Keys);
    static14, cross14cg, cross14at := [], [], [];
    regs := [];
    for i := 0 to |keys|
      invariant Visits(c, keys[..i])
      invariant static14 == BucketAfter(c, keys[..i], Static)
      invariant cross14cg == BucketAfter(c, keys[..i], CGCross)
      invariant cross14at == BucketAfter(c, keys[..i], ATCross)
      invariant regs == LJ14s(c, keys[..i])
    {
      Sorting.PrefixStep(keys, i);
      static14, cross14cg, cross14at, regs := VisitGroup(c, keys[..i], keys[i], static14, cross14cg, cross14at, regs);
    }
    assert keys[..|keys|] == keys;
    order := keys;
    LJ14Groups(c, order);
    BucketGroups(c, order, Static);
    BucketGroups(c, order, CGCross);
    BucketGroups(c, order, ATCross);
  }

  /** One turn of the loop: the group's pairs go to its bucket, and its LJ-14
      interaction is registered when its parameters are positive. */
  method VisitGroup(c: PairInput, ghost visited: seq<GroupKey>, g: GroupKey, static14: seq<IdPair>,
                    cross14cg: seq<IdPair>, cross14at: seq<IdPair>, regs: seq<Registration<Term>>)
    returns (static14': seq<IdPair>, cross14cg': seq<IdPair>, cross14at': seq<IdPair>,
             regs': seq<Registration<Term>>)
    requires Consistent(c) && Visits(c, visited) && g in c.groups
    requires static14 == BucketAfter(c, visited, Static)
    requires cross14cg == BucketAfter(c, visited, CGCross)
    requires cross14at == BucketAfter(c, visited, ATCross)
    requires regs == LJ14s(c, visited)
    ensures Visits(c, visited + [g])
    ensures static14' == BucketAfter(c, visited + [g], Static)
    ensures cross14cg' == BucketAfter(c, visited + [g], CGCross)
    ensures cross14at' == BucketAfter(c, visited + [g], ATCross)
    ensures regs' == LJ14s(c, visited + [g])
  {
    StepFacts(c, visited, g);
    static14', cross14cg', cross14at', regs' := static14, cross14cg, cross14at, regs;
    var pid, crossBonds := g.0, g.1;
    var pairList := c.groups[g];
    var params := c.params[pid];
    var isCG := IsVirtual(c.at[c.types[pairList[0].0 - 1]]);
    var adressList := !(isCG || !c.adress);
    if crossBonds || isCG {
      if isCG {
        cross14cg' := cross14cg + pairList;
      } else {
        cross14at' := cross14at + pairList;
      }
    } else {
      static14' := static14 + pairList;
    }
    var isCGArg: Option<bool> := if crossBonds then Some(isCG) else None;
    if params.sig > 0.0 && params.eps > 0.0 {
      regs' := regs + [Registration(Text.Label("lj-14_", pid, crossBonds),
                                    PairLennardJones(pairList, adressList, params, isCGArg))];
    }
  }

  lemma SpecUnfold(c: PairInput, order: seq<GroupKey>, ljs: seq<Registration<Term>>, coulomb: seq<Registration<Term>>)
    requires Consistent(c) && Visits(c, order)
    requires ljs == LJ14s(c, order)
    requires coulomb == Coulomb14s(BucketAfter(c, order, Static), BucketAfter(c, order, CGCross),
                                   BucketAfter(c, order, ATCross), AtomisticPairs(c.at))
    ensures ljs + coulomb == PairInteractionsSpec(c, order)
  {
  }

  /** The Coulomb-14 part, run after the loop over the groups. */
  method RegisterCoulomb14(at: map<TypeId, AtomType>, static14: seq<IdPair>,
                           cross14cg: seq<IdPair>, cross14at: seq<IdPair>)
    returns (regs: seq<Registration<Term>>)
    ensures regs == Coulomb14s(static14, cross14cg, cross14at, AtomisticPairs(at))
  {
    regs := [];
    if static14 != [] || cross14cg != [] || cross14at != [] {
      var typePairs := SortedAtomisticPairs(at);
      regs := AddCoulomb14(static14, cross14cg, cross14at, typePairs);
    }
  }

  method AddCoulomb14(static14: seq<IdPair>, cross14cg: seq<IdPair>, cross14at: seq<IdPair>,
                      typePairs: seq<TypePair>)
    returns (regs: seq<Registration<Term>>)
    ensures regs == Coulomb14s(static14, cross14cg, cross14at, typePairs)
  {
      regs := [];
      if static14 != [] {
        regs := regs + [Registration("coulomb14", Coulomb14(Static, static14, typePairs))];
      }
      if cross14cg != [] {
        regs := regs + [Registration("coulomb14_cg_cross", Coulomb14(CGCross, cross14cg, typePairs))];
      }
      if cross14at != [] {
        regs := regs + [Registration("coulomb14_at_cross", Coulomb14(ATCross, cross14at, typePairs))];
      }
  }

  // ------------------------------------------------------------------ lemmas

  /** Every pair of every visited group, in visiting order. */
  function AllPairs(c: PairInput, order: seq<GroupKey>): seq<IdPair>
    requires Visits(c, order)
  {
    if order == [] then [] else AllPairs(c, order[..|order| - 1]) + c.groups[order[|order| - 1]]
  }

  /** The visited groups that belong to bucket `b`, in visiting order. */
  function GroupsIn(c: PairInput, order: seq<GroupKey>, b: Bucket): (r: seq<GroupKey>)
    requires Consistent(c) && Visits(c, order)
    ensures Visits(c, r)
  {
    if order == [] then []
    else
      var g := order[|order| - 1];
      GroupsIn(c, order[..|order| - 1], b) + (if BucketOf(c, g) == b then [g] else [])
  }

  /** Each bucket is the concatenation, in visiting order, of the pair lists
      of exactly the groups that belong to it. */
  lemma {:induction false} BucketIsConcatenation(c: PairInput, order: seq<GroupKey>, b: Bucket)
    requires Consistent(c) && Visits(c, order)
    ensures BucketAfter(c, order, b) == AllPairs(c, GroupsIn(c, order, b))
  {
    if order != [] {
      var init := order[..|order| - 1];
      var g := order[|order| - 1];
      BucketIsConcatenation(c, init, b);
      var prev := GroupsIn(c, init, b);
      assert GroupOk(c, g);
      if BucketOf(c, g) == b {
        var q := prev + [g];
        assert GroupsIn(c, order, b) == q;
        assert q[..|q| - 1] == prev;
        assert AllPairs(c, q) == AllPairs(c, prev) + c.groups[g];
        assert BucketAfter(c, order, b) == BucketAfter(c, init, b) + c.groups[g];
      } else {
        assert GroupsIn(c, order, b) == prev;
        assert BucketAfter(c, order, b) == BucketAfter(c, init, b);
      }
    }
  }

  /** The three buckets split the pairs of all groups: together they hold
      every pair exactly as often as the groups do. */
  lemma {:induction false} BucketsPartition(c: PairInput, order: seq<GroupKey>)
    requires Consistent(c) && Visits(c, order)
    ensures multiset(BucketAfter(c, order, Static)) + multiset(BucketAfter(c, order, CGCross))
            + multiset(BucketAfter(c, order, ATCross)) == multiset(AllPairs(c, order))
  {
    if order != [] {
      BucketsPartition(c, order[..|order| - 1]);
    }
  }

  /** A group is in the CG-cross bucket iff its first particle is virtual,
      else in the AT-cross bucket iff it is a cross group, else static; and
      it lands in no other bucket. */
  lemma {:induction false} GroupBucket(c: PairInput, order: seq<GroupKey>, k: nat, b: Bucket)
    requires Consistent(c) && Visits(c, order) && k < |order|
    requires forall i, j | 0 <= i < j < |order| :: order[i] != order[j]
    ensures order[k] in GroupsIn(c, order, b)
        <==> b == (if IsCG(c, order[k]) then CGCross else if order[k].1 then ATCross else Static)
  {
    var init := order[..|order| - 1];
    var g := order[|order| - 1];
    assert GroupsIn(c, order, b) == GroupsIn(c, init, b) + (if BucketOf(c, g) == b then [g] else []);
    if k < |init| {
      GroupBucket(c, init, k, b);
      assert order[k] != g;
    } else {
      GroupsInSubset(c, init, b);
      assert g !in init;
    }
  }

  lemma {:induction false} GroupsInSubset(c: PairInput, order: seq<GroupKey>, b: Bucket)
    requires Consistent(c) && Visits(c, order)
    ensures forall g | g in GroupsIn(c, order, b) :: g in order
  {
    if order != [] {
      GroupsInSubset(c, order[..|order| - 1], b);
    }
  }

  /** Group `g` belongs to bucket `b`. */
  ghost predicate InBucket(c: PairInput, g: GroupKey, b: Bucket) {
    GroupOk(c, g) && BucketOf(c, g) == b
  }

  /** The Coulomb-14 interaction of a bucket is registered exactly when some
      group belongs to that bucket. */
  lemma {:induction false} BucketNonEmpty(c: PairInput, order: seq<GroupKey>, b: Bucket)
    requires Consistent(c) && Visits(c, order)
    ensures BucketAfter(c, order, b) != [] <==> exists k | 0 <= k < |order| :: InBucket(c, order[k], b)
  {
    if order != [] {
      var init := order[..|order| - 1];
      var g := order[|order| - 1];
      BucketNonEmpty(c, init, b);
      assert GroupOk(c, g);
      assert BucketAfter(c, order, b) == BucketAfter(c, init, b) + (if BucketOf(c, g) == b then c.groups[g] else []);
      if exists k | 0 <= k < |init| :: InBucket(c, init[k], b) {
        var k :| 0 <= k < |init| && InBucket(c, init[k], b);
        assert order[k] == init[k];
      }
      if exists k | 0 <= k < |order| :: InBucket(c, order[k], b) {
        var k :| 0 <= k < |order| && InBucket(c, order[k], b);
        if k < |init| {
          assert init[k] == order[k];
        }
      }
    }
  }

  /** After a complete visit, a bucket is non-empty exactly when some group
      belongs to it, whatever the visiting order. */
  lemma BucketGroups(c: PairInput, order: seq<GroupKey>, b: Bucket)
    requires Consistent(c) && Sorting.Enumerates(order, c.groups.Keys)
    ensures Visits(c, order)
    ensures BucketAfter(c, order, b) != [] <==> exists g | g in c.groups :: InBucket(c, g, b)
  {
    BucketNonEmpty(c, order, b);
    if g :| g in c.groups && InBucket(c, g, b) {
      var k :| 0 <= k < |order| && order[k] == g;
      assert InBucket(c, order[k], b);
    }
  }

  /** After a complete visit, the LJ-14 registrations are exactly those of
      the groups with positive parameters, whatever the visiting order. */
  lemma LJ14Groups(c: PairInput, order: seq<GroupKey>)
    requires Consistent(c) && Sorting.Enumerates(order, c.groups.Keys)
    ensures Visits(c, order)
    ensures forall r | r in LJ14s(c, order) :: exists g | g in c.groups :: GroupOk(c, g) && LJ14(c, g) == Some(r)
    ensures forall g | g in c.groups && GroupOk(c, g) && LJ14(c, g).Some? :: LJ14(c, g).value in LJ14s(c, order)
  {
    LJ14Labels(c, order);
    forall g | g in c.groups && GroupOk(c, g) && LJ14(c, g).Some?
      ensures LJ14(c, g).value in LJ14s(c, order)
    {
      var k :| 0 <= k < |order| && order[k] == g;
      LJ14Included(c, order, k);
    }
  }

  /** The label of a bucket's Coulomb-14 interaction. */
  function CoulombName(b: Bucket): string {
    match b
    case Static => "coulomb14"
    case CGCross => "coulomb14_cg_cross"
    case ATCross => "coulomb14_at_cross"
  }

  /** A bucket's Coulomb-14 interaction is registered exactly when some
      group belongs to the bucket, and it then holds that bucket's pairs. */
  lemma CoulombRegistered(c: PairInput, order: seq<GroupKey>, typePairs: seq<TypePair>, b: Bucket)
    requires Consistent(c) && Visits(c, order)
    ensures (exists i | 0 <= i < |Registrations(c, order, typePairs)| ::
               Registrations(c, order, typePairs)[i].name == CoulombName(b))
        <==> exists k | 0 <= k < |order| :: InBucket(c, order[k], b)
    ensures forall i | 0 <= i < |Registrations(c, order, typePairs)| &&
                       Registrations(c, order, typePairs)[i].name == CoulombName(b) ::
      Registrations(c, order, typePairs)[i ].interaction == Coulomb14(b, BucketAfter(c, order, b), typePairs)
  {
    BucketNonEmpty(c, order, b);
    LJ14NamesStartWithL(c, order);
    var ljs := LJ14s(c, order);
    var cs := Coulomb14s(BucketAfter(c, order, Static), BucketAfter(c, order, CGCross),
                         BucketAfter(c, order, ATCross), typePairs);
    assert Registrations(c, order, typePairs) == ljs + cs;
    NamesAfterLJ14(ljs, cs, CoulombName(b));
    CoulombIn(BucketAfter(c, order, Static), BucketAfter(c, order, CGCross),
              BucketAfter(c, order, ATCross), typePairs, b);
    assert BucketPairs(BucketAfter(c, order, Static), BucketAfter(c, order, CGCross),
                       BucketAfter(c, order, ATCross), b) == BucketAfter(c, order, b);
  }

  /** Every LJ-14 label starts with 'l'. */
  lemma LJ14NamesStartWithL(c: PairInput, order: seq<GroupKey>)
    requires Consistent(c) && Visits(c, order)
    ensures forall i | 0 <= i < |LJ14s(c, order)| :: |LJ14s(c, order)[i].name| > 0 && LJ14s(c, order)[i].name[0] == 'l'
  {
    LJ14Labels(c, order);
    var ljs := LJ14s(c, order);
    forall i | 0 <= i < |ljs| ensures |ljs[i].name| > 0 && ljs[i].name[0] == 'l' {
      assert ljs[i] in ljs;
      var k :| 0 <= k < |order| && GroupOk(c, order[k]) && LJ14(c, order[k]) == Some(ljs[i]);
      var h := order[k];
      assert ljs[i].name == Text.Label("lj-14_", h.0, h.1);
      assert ljs[i].name[0] == ljs[i].name[..6][0] == 'l';
    }
  }

  function BucketPairs(static14: seq<IdPair>, cg: seq<IdPair>, at_: seq<IdPair>, b: Bucket): seq<IdPair> {
    match b
    case Static => static14
    case CGCross => cg
    case ATCross => at_
  }

  /** A name starting with 'c' cannot be one of the LJ-14 labels, so it
      can only be found among the registrations that follow them. */
  lemma NamesAfterLJ14(ljs: seq<Registration<Term>>, cs: seq<Registration<Term>>, name: string)
    requires forall i | 0 <= i < |ljs| :: |ljs[i].name| > 0 && ljs[i].name[0] == 'l'
    requires |name| > 0 && name[0] == 'c'
    ensures (exists i | 0 <= i < |ljs + cs| :: (ljs + cs)[i].name == name)
        <==> exists j | 0 <= j < |cs| :: cs[j].name == name
    ensures forall i | 0 <= i < |ljs + cs| && (ljs + cs)[i].name == name ::
      i >= |ljs| && (ljs + cs)[i] == cs[i - |ljs|]
  {
    var regs := ljs + cs;
    assert forall i | 0 <= i < |ljs| :: regs[i] == ljs[i];
    if j :| 0 <= j < |cs| && cs[j].name == name {
      assert regs[|ljs| + j] == cs[j];
    }
  }

  /** The Coulomb-14 registration of bucket `b` is there exactly when the
      bucket's pair list is non-empty, and it holds that list. */
  lemma CoulombIn(static14: seq<IdPair>, cg: seq<IdPair>, at_: seq<IdPair>,
                  typePairs: seq<TypePair>, b: Bucket)
    ensures (exists j | 0 <= j < |Coulomb14s(static14, cg, at_, typePairs)| ::
               Coulomb14s(static14, cg, at_, typePairs)[j].name == CoulombName(b))
        <==> BucketPairs(static14, cg, at_, b) != []
    ensures forall j | 0 <= j < |Coulomb14s(static14, cg, at_, typePairs)| &&
                       Coulomb14s(static14, cg, at_, typePairs)[j].name == CoulombName(b) ::
      Coulomb14s(static14, cg, at_, typePairs)[j].interaction
        == Coulomb14(b, BucketPairs(static14, cg, at_, b), typePairs)
  {
    var cs := Coulomb14s(static14, cg, at_, typePairs);
    var r := Registration(CoulombName(b), Coulomb14(b, BucketPairs(static14, cg, at_, b), typePairs));
    var s := if static14 != [] then [Registration("coulomb14", Coulomb14(Static, static14, typePairs))] else [];
    var g := if cg != [] then [Registration("coulomb14_cg_cross", Coulomb14(CGCross, cg, typePairs))] else [];
    var a := if at_ != [] then [Registration("coulomb14_at_cross", Coulomb14(ATCross, at_, typePairs))] else [];
    assert cs == s + g + a;
    assert forall j | 0 <= j < |cs| && cs[j].name == CoulombName(b) :: cs[j] == r;
    if BucketPairs(static14, cg, at_, b) != [] {
      match b
      case Static => assert cs[0] == r;
      case CGCross => assert cs[|s|] == r;
      case ATCross => assert cs[|s| + |g|] == r;
    }
  }

  /** The LJ-14 registrations: one per group with positive parameters,
      labelled `lj-14_{pid}` with `_cross` iff the group is a cross group, and
      nothing else. */
  lemma LJ14Registered(c: PairInput, order: seq<GroupKey>, g: GroupKey)
    requires Consistent(c) && Visits(c, order) && g in order
    ensures (exists r | r in LJ14s(c, order) :: r.name == Text.Label("lj-14_", g.0, g.1))
        <==> c.params[g.0].sig > 0.0 && c.params[g.0].eps > 0.0
  {
    var k :| 0 <= k < |order| && order[k] == g;
    assert GroupOk(c, g);
    if c.params[g.0].sig > 0.0 && c.params[g.0].eps > 0.0 {
      LJ14Included(c, order, k);
      assert LJ14(c, g).value in LJ14s(c, order);
    }
    if r :| r in LJ14s(c, order) && r.name == Text.Label("lj-14_", g.0, g.1) {
      LJ14Labels(c, order);
      var j :| 0 <= j < |order| && LJ14(c, order[j]) == Some(r);
      var h := order[j];
      assert GroupOk(c, h);
      Text.LabelInjective("lj-14_", g.0, g.1, h.0, h.1);
    }
  }

  /** A visited group with positive parameters has its registration. */
  lemma {:induction false} LJ14Included(c: PairInput, order: seq<GroupKey>, k: nat)
    requires Consistent(c) && Visits(c, order) && k < |order|
    requires GroupOk(c, order[k]) && LJ14(c, order[k]).Some?
    ensures LJ14(c, order[k]).value in LJ14s(c, order)
  {
    var init := order[..|order| - 1];
    if k < |init| {
      assert init[k] == order[k];
      LJ14Included(c, init, k);
    }
  }

  /** Each LJ-14 registration is the one of a visited group. */
  lemma {:induction false} LJ14Labels(c: PairInput, order: seq<GroupKey>)
    requires Consistent(c) && Visits(c, order)
    ensures forall r | r in LJ14s(c, order) ::
      exists k | 0 <= k < |order| :: GroupOk(c, order[k]) && LJ14(c, order[k]) == Some(r)
  {
    if order != [] {
      var init := order[..|order| - 1];
      LJ14Labels(c, init);
      forall r | r in LJ14s(c, order)
        ensures exists k | 0 <= k < |order| :: GroupOk(c, order[k]) && LJ14(c, order[k]) == Some(r)
      {
        if r in LJ14s(c, init) {
          var k :| 0 <= k < |init| && GroupOk(c, init[k]) && LJ14(c, init[k]) == Some(r);
          assert order[k] == init[k];
        } else {
          assert GroupOk(c, order[|order| - 1]);
        }
      }
    }
  }

  /** No two registrations share a label, so none replaces another. */
  lemma LabelsDistinct(c: PairInput, order: seq<GroupKey>, typePairs: seq<TypePair>)
    requires Consistent(c) && Visits(c, order)
    requires forall i, j | 0 <= i < j < |order| :: order[i] != order[j]
    ensures forall i, j | 0 <= i < j < |Registrations(c, order, typePairs)| ::
      Registrations(c, order, typePairs)[i].name != Registrations(c, order, typePairs)[j].name
  {
    LJ14Distinct(c, order);
    LJ14Labels(c, order);
    var ljs := LJ14s(c, order);
    var cs := Coulomb14s(BucketAfter(c, order, Static), BucketAfter(c, order, CGCross),
                         BucketAfter(c, order, ATCross), typePairs);
    CoulombNames(BucketAfter(c, order, Static), BucketAfter(c, order, CGCross),
                 BucketAfter(c, order, ATCross), typePairs);
    var regs := Registrations(c, order, typePairs);
    assert regs == ljs + cs;
    forall i, j | 0 <= i < j < |regs| ensures regs[i].name != regs[j].name {
      if j < |ljs| {
        assert regs[i] == ljs[i] && regs[j] == ljs[j];
        assert ljs[i].name != ljs[j].name;
      } else if i < |ljs| {
        assert regs[i] == ljs[i] && regs[j] == cs[j - |ljs|];
        assert ljs[i] in ljs;
        var k :| 0 <= k < |order| && GroupOk(c, order[k]) && LJ14(c, order[k]) == Some(ljs[i]);
        var h := order[k];
        assert regs[i].name == Text.Label("lj-14_", h.0, h.1);
        assert regs[i].name[0] == regs[i].name[..6][0] == 'l';
        assert regs[j].name[0] == 'c';
      } else {
        assert regs[i] == cs[i - |ljs|] && regs[j] == cs[j - |ljs|];
        assert cs[i - |ljs|].name != cs[j - |ljs|].name;
      }
    }
  }

  lemma {:induction false} LJ14Distinct(c: PairInput, order: seq<GroupKey>)
    requires Consistent(c) && Visits(c, order)
    requires forall i, j | 0 <= i < j < |order| :: order[i] != order[j]
    ensures forall i, j | 0 <= i < j < |LJ14s(c, order)| :: LJ14s(c, order)[i].name != LJ14s(c, order)[j].name
  {
    if order != [] {
      var init := order[..|order| - 1];
      var g := order[|order| - 1];
      assert forall i, j | 0 <= i < j < |init| :: init[i] == order[i] && init[j] == order[j];
      LJ14Distinct(c, init);
      LJ14Labels(c, init);
      var prev := LJ14s(c, init);
      var ljs := LJ14s(c, order);
      assert ljs == prev + NonBonded.OptionToSeq(LJ14(c, g));
      forall i, j | 0 <= i < j < |ljs| ensures ljs[i].name != ljs[j].name {
        if j < |prev| {
          assert ljs[i] == prev[i] && ljs[j] == prev[j];
          assert prev[i].name != prev[j].name;
        } else {
          assert LJ14(c, g).Some? && j == |prev|;
          assert ljs[i] == prev[i];
          assert prev[i] in prev;
          var k :| 0 <= k < |init| && GroupOk(c, init[k]) && LJ14(c, init[k]) == Some(ljs[i]);
          var h := init[k];
          assert order[k] == h && h != g;
          assert GroupOk(c, h) && GroupOk(c, g);
          assert ljs[j] == LJ14(c, g).value;
          assert ljs[i].name == Text.Label("lj-14_", h.0, h.1);
          assert ljs[j].name == Text.Label("lj-14_", g.0, g.1);
          if ljs[i].name == ljs[j].name {
            Text.LabelInjective("lj-14_", h.0, h.1, g.0, g.1);
          }
          assert ljs[i].name != ljs[j].name;
        }
      }
    }
  }
}
