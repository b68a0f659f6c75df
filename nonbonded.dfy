/** Non-bonded potentials per pair of atom types: which pairs get a
    Lennard-Jones potential (setLennardJonesInteractions), which get a
    tabulated one (setTabulatedInteractions), and with which parameters.
    The engine's interaction object is abstracted as the sequence of
    `setPotential*` calls made on it. */
module NonBonded {
  import opened Topology
  import Sorting
  import Text

  /** Which of the interaction's setters is called: `setPotential`,
      `setPotentialAT` or `setPotentialCG`. */
  datatype Slot = Plain | AT | CG

  datatype Potential =
    | LennardJones(sig: real, eps: real)
    | Tabulated(itype: int, filename: string)

  /** One `setPotential*(type1=t1, type2=t2, potential=pot)` call. */
  datatype Setting = Setting(slot: Slot, t1: TypeId, t2: TypeId, pot: Potential)

  /** The two combination rules. Their floating-point arithmetic is not
      modelled: each is an arbitrary function of (sig_1, eps_1, sig_2, eps_2). */
  datatype Mixing = Mixing(
    arithmetic: (real, real, real, real) -> LJ,
    geometric: (real, real, real, real) -> LJ)

  /** The inputs of setLennardJonesInteractions. `nonbonded` maps a type
      pair to its explicit cross parameters; a falsy entry (None or an empty
      dict) is `None`. `adress` says whether `ftpl` was given. */
  datatype LJInput = LJInput(
    at: map<TypeId, AtomType>,
    nonbonded: map<TypePair, Option<LJ>>,
    rule: int,
    mixing: Mixing,
    adress: bool,
    groups: seq<string>)

  type Selector = (AtomType, AtomType) -> bool

  // --------------------------------------------------------------- type pairs

  /** The set built by the nested loops over `atomtypeparams`: every ordered
      pair of types from `rows` x `cols` that `keep` accepts, normalised. */
  ghost function PairsWhere(at: map<TypeId, AtomType>, keep: Selector,
                            rows: set<TypeId>, cols: set<TypeId>): (r: set<TypePair>)
    requires rows <= at.Keys && cols <= at.Keys
    ensures forall p | p in r :: p.0 in at && p.1 in at && p.0 <= p.1
  {
    set t1, t2 | t1 in rows && t2 in cols && keep(at[t1], at[t2]) :: Normalise(t1, t2)
  }

  ghost predicate Symmetric(keep: Selector) {
    forall a, b :: keep(a, b) == keep(b, a)
  }

  lemma PairsWhereAddRow(at: map<TypeId, AtomType>, keep: Selector,
                         rows: set<TypeId>, x: TypeId, cols: set<TypeId>)
    requires rows <= at.Keys && x in at && cols <= at.Keys
    ensures PairsWhere(at, keep, rows + {x}, cols)
         == PairsWhere(at, keep, rows, cols) + PairsWhere(at, keep, {x}, cols)
  {
  }

  lemma PairsWhereAddColumn(at: map<TypeId, AtomType>, keep: Selector,
                            x: TypeId, cols: set<TypeId>, y: TypeId)
    requires x in at && cols <= at.Keys && y in at
    ensures PairsWhere(at, keep, {x}, cols + {y})
         == PairsWhere(at, keep, {x}, cols) + (if keep(at[x], at[y]) then {Normalise(x, y)} else {})
  {
  }

  /** For a symmetric selection the set holds `(t1, t2)` exactly when
      `t1 <= t2` and the pair is selected. */
  lemma PairsWhereMembership(at: map<TypeId, AtomType>, keep: Selector, t1: TypeId, t2: TypeId)
    requires Symmetric(keep)
    ensures (t1, t2) in PairsWhere(at, keep, at.Keys, at.Keys)
        <==> t1 <= t2 && t1 in at && t2 in at && keep(at[t1], at[t2])
  {
    if t1 <= t2 && t1 in at && t2 in at && keep(at[t1], at[t2]) {
      assert Normalise(t1, t2) == (t1, t2);
    }
    if (t1, t2) in PairsWhere(at, keep, at.Keys, at.Keys) {
      var a, b :| a in at && b in at && keep(at[a], at[b]) && Normalise(a, b) == (t1, t2);
      assert keep(at[b], at[a]);
    }
  }

  /** The nested loops of the source: every ordered pair of types is offered
      to `keep`, and the accepted ones are added normalised. */
  method CollectTypePairs(at: map<TypeId, AtomType>, keep: Selector) returns (pairs: set<TypePair>)
    ensures pairs == PairsWhere(at, keep, at.Keys, at.Keys)
  {
    pairs := {};
    var rows := at.Keys;
    while rows != {}
      invariant rows <= at.Keys
      invariant pairs == PairsWhere(at, keep, at.Keys - rows, at.Keys)
      decreases rows
    {
      var t1 :| t1 in rows;
      ghost var before := pairs;
      var cols := at.Keys;
      while cols != {}
        invariant cols <= at.Keys
        invariant pairs == before + PairsWhere(at, keep, {t1}, at.Keys - cols)
        decreases cols
      {
        var t2 :| t2 in cols;
        PairsWhereAddColumn(at, keep, t1, at.Keys - cols, t2);
        if keep(at[t1], at[t2]) {
          pairs := pairs + {Normalise(t1, t2)};
        }
        assert at.Keys - (cols - {t2}) == (at.Keys - cols) + {t2};
        cols := cols - {t2};
      }
      assert at.Keys - cols == at.Keys;
      PairsWhereAddRow(at, keep, at.Keys - rows, t1, at.Keys);
      assert at.Keys - (rows - {t1}) == (at.Keys - rows) + {t1};
      rows := rows - {t1};
    }
  }

  lemma PairLessStrictTotal(s: set<TypePair>)
    ensures Sorting.StrictTotalOn(PairLess, s)
  {
  }

  // ----------------------------------------------------------- Lennard-Jones

  /** The Lennard-Jones selection: neither type is virtual and the two are
      not both in the tabulated groups. */
  predicate LJKeep(a: AtomType, b: AtomType, groups: seq<string>) {
    !TableGroupPair(a, b, groups) && !IsVirtual(a) && !IsVirtual(b)
  }

  function LJSelector(groups: seq<string>): Selector {
    (a, b) => LJKeep(a, b, groups)
  }

  lemma LJSelectorSymmetric(groups: seq<string>)
    ensures Symmetric(LJSelector(groups))
  {
  }

  ghost function LJPairs(c: LJInput): set<TypePair> {
    PairsWhere(c.at, LJSelector(c.groups), c.at.Keys, c.at.Keys)
  }

  /** The cross parameters of a pair: an explicit, truthy
      `nonbonded_params[(t1, t2)]` entry wins over the combination rule. */
  function CrossParams(c: LJInput, t1: TypeId, t2: TypeId): LJ
    requires t1 in c.at && t2 in c.at
  {
    var pi, pj := c.at[t1], c.at[t2];
    if (t1, t2) in c.nonbonded && c.nonbonded[(t1, t2)].Some? then c.nonbonded[(t1, t2)].value
    else if c.rule == 2 then c.mixing.arithmetic(pi.sig, pi.eps, pj.sig, pj.eps)
    else c.mixing.geometric(pi.sig, pi.eps, pj.sig, pj.eps)
  }

  predicate Positive(p: LJ) {
    p.sig > 0.0 && p.eps > 0.0
  }

  /** The call made for one pair of the sorted list, if any. */
  function LJSetting(c: LJInput, p: TypePair): Option<Setting>
    requires p.0 in c.at && p.1 in c.at
  {
    if IsVirtual(c.at[p.0]) || IsVirtual(c.at[p.1]) then None
    else
      var params := CrossParams(c, p.0, p.1);
      if Positive(params) then
        Some(Setting(if c.adress then AT else Plain, p.0, p.1, LennardJones(params.sig, params.eps)))
      else None
  }

  ghost predicate InTable(c: LJInput, ps: seq<TypePair>) {
    forall k | 0 <= k < |ps| :: ps[k].0 in c.at && ps[k].1 in c.at
  }

  /** The calls made by the loop over the sorted pairs `ps`, in order. */
  function LJSettings(c: LJInput, ps: seq<TypePair>): (r: seq<Setting>)
    requires InTable(c, ps)
    ensures |r| <= |ps|
  {
    if ps == [] then []
    else
      var init := ps[..|ps| - 1];
      assert InTable(c, init);
      LJSettings(c, init) + OptionToSeq(LJSetting(c, ps[|ps| - 1]))
  }

  function OptionToSeq<T>(o: Option<T>): seq<T> {
    match o
    case Some(x) => [x]
    case None => []
  }

  /** Every call made for `ps` is the call of one of its pairs. */
  lemma {:induction false} LJSettingsSound(c: LJInput, ps: seq<TypePair>)
    requires InTable(c, ps)
    ensures forall i | 0 <= i < |LJSettings(c, ps)| ::
      && (LJSettings(c, ps)[i].t1, LJSettings(c, ps)[i].t2) in ps
      && LJSetting(c, (LJSettings(c, ps)[i].t1, LJSettings(c, ps)[i].t2)) == Some(LJSettings(c, ps)[i])
  {
    if ps != [] {
      var init := ps[..|ps| - 1];
      assert InTable(c, init);
      LJSettingsSound(c, init);
      assert forall x | x in init :: x in ps;
    }
  }

  /** Every pair of `ps` that has a call gets it. */
  lemma {:induction false} LJSettingsComplete(c: LJInput, ps: seq<TypePair>)
    requires InTable(c, ps)
    ensures forall k | 0 <= k < |ps| && LJSetting(c, ps[k]).Some? :: LJSetting(c, ps[k]).value in LJSettings(c, ps)
  {
    if ps != [] {
      var init := ps[..|ps| - 1];
      assert InTable(c, init);
      LJSettingsComplete(c, init);
      var prev := LJSettings(c, init);
      var r := LJSettings(c, ps);
      assert r == prev + OptionToSeq(LJSetting(c, ps[|ps| - 1]));
      forall k | 0 <= k < |ps| && LJSetting(c, ps[k]).Some?
        ensures LJSetting(c, ps[k]).value in r
      {
        if k < |init| {
          assert init[k] == ps[k];
          assert LJSetting(c, init[k]).value in prev;
        }
      }
    }
  }

  /** Over strictly increasing pairs the calls come in strictly increasing
      pair order. */
  lemma {:induction false} LJSettingsOrdered(c: LJInput, ps: seq<TypePair>)
    requires InTable(c, ps) && Sorting.StrictlyIncreasing(ps, PairLess)
    ensures forall i, j | 0 <= i < j < |LJSettings(c, ps)| ::
      PairLess((LJSettings(c, ps)[i].t1, LJSettings(c, ps)[i].t2), (LJSettings(c, ps)[j].t1, LJSettings(c, ps)[j].t2))
  {
    if ps != [] {
      var init := ps[..|ps| - 1];
      var last := ps[|ps| - 1];
      assert InTable(c, init);
      assert Sorting.StrictlyIncreasing(init, PairLess);
      LJSettingsOrdered(c, init);
      LJSettingsSound(c, init);
      var prev := LJSettings(c, init);
      var r := LJSettings(c, ps);
      assert r == prev + OptionToSeq(LJSetting(c, last));
      forall i, j | 0 <= i < j < |r|
        ensures PairLess((r[i].t1, r[i].t2), (r[j].t1, r[j].t2))
      {
        if j >= |prev| {
          assert r[j] == LJSetting(c, last).value;
          assert r[i] == prev[i];
          var k :| 0 <= k < |init| && init[k] == (r[i].t1, r[i].t2);
          assert PairLess(ps[k], ps[|ps| - 1]);
        } else {
          assert r[i] == prev[i] && r[j] == prev[j];
        }
      }
    }
  }

  /** setLennardJonesInteractions: None when no pair is selected, otherwise
      the calls made on the interaction, in sorted pair order. */
  ghost function LennardJonesSpec(c: LJInput): Option<seq<Setting>> {
    PairLessStrictTotal(LJPairs(c));
    var ps := Sorting.SortedSeq(LJPairs(c), PairLess);
    if ps == [] then None else Some(LJSettings(c, ps))
  }

  lemma LennardJonesSpecUnfold(c: LJInput, ps: seq<TypePair>)
    requires Sorting.StrictTotalOn(PairLess, LJPairs(c))
    requires ps == Sorting.SortedSeq(LJPairs(c), PairLess)
    ensures InTable(c, ps)
    ensures LennardJonesSpec(c) == if ps == [] then None else Some(LJSettings(c, ps))
  {
  }

  lemma LJSettingsStep(c: LJInput, ps: seq<TypePair>, i: nat)
    requires InTable(c, ps) && i < |ps|
    ensures InTable(c, ps[..i]) && InTable(c, ps[..i + 1])
    ensures LJSettings(c, ps[..i + 1]) == LJSettings(c, ps[..i]) + OptionToSeq(LJSetting(c, ps[i]))
  {
    assert ps[..i + 1][..i] == ps[..i];
  }

  /** The registration loop over the sorted pairs. */
  method RegisterLennardJones(c: LJInput, ps: seq<TypePair>) returns (settings: seq<Setting>)
    requires InTable(c, ps)
    ensures settings == LJSettings(c, ps)
  {
    settings := [];
    for i := 0 to |ps|
      invariant settings == LJSettings(c, ps[..i])
    {
      LJSettingsStep(c, ps, i);
      var s := VisitPair(c, ps[i]);
      settings := settings + OptionToSeq(s);
    }
    assert ps[..|ps|] == ps;
  }

  /** One iteration of the registration loop: a pair with a virtual type is
      skipped (`continue`), otherwise its cross parameters are registered
      when both are positive. */
  method VisitPair(c: LJInput, p: TypePair) returns (s: Option<Setting>)
    requires p.0 in c.at && p.1 in c.at
    ensures s == LJSetting(c, p)
    ensures s.Some? ==> s.value.t1 == p.0 && s.value.t2 == p.1 && Positive(CrossParams(c, p.0, p.1))
  {
    if IsVirtual(c.at[p.0]) || IsVirtual(c.at[p.1]) {
      return None;
    }
    var params := CrossParams(c, p.0, p.1);
    if params.sig > 0.0 && params.eps > 0.0 {
      return Some(Setting(if c.adress then AT else Plain, p.0, p.1, LennardJones(params.sig, params.eps)));
    }
    return None;
  }

  /** The sorted pair list behind LennardJonesSpec, with the facts the
      lemmas below use. */
  lemma LennardJonesSorted(c: LJInput) returns (ps: seq<TypePair>)
    ensures InTable(c, ps)
    ensures Sorting.StrictlyIncreasing(ps, PairLess)
    ensures forall p | p in LJPairs(c) :: p in ps
    ensures forall k | 0 <= k < |ps| :: ps[k] in LJPairs(c)
    ensures LennardJonesSpec(c) == if ps == [] then None else Some(LJSettings(c, ps))
  {
    PairLessStrictTotal(LJPairs(c));
    ps := Sorting.SortedSeq(LJPairs(c), PairLess);
    LennardJonesSpecUnfold(c, ps);
  }

  method SetLennardJonesInteractions(c: LJInput) returns (r: Option<seq<Setting>>)
    ensures r == LennardJonesSpec(c)
  {
    var pairs := CollectTypePairs(c.at, LJSelector(c.groups));
    assert pairs == LJPairs(c);
    PairLessStrictTotal(pairs);
    var ps := Sorting.SortSet(pairs, PairLess);
    LennardJonesSpecUnfold(c, ps);
    if ps == [] {
      return None;
    }
    var settings := RegisterLennardJones(c, ps);
    return Some(settings);
  }

  /** A pair is selected for Lennard-Jones exactly when it is normalised,
      neither type is virtual, and the two are not both tabulated. */
  lemma LennardJonesPairs(c: LJInput, t1: TypeId, t2: TypeId)
    ensures (t1, t2) in LJPairs(c)
        <==> && t1 <= t2 && t1 in c.at && t2 in c.at
             && !IsVirtual(c.at[t1]) && !IsVirtual(c.at[t2])
             && !TableGroupPair(c.at[t1], c.at[t2], c.groups)
  {
    LJSelectorSymmetric(c.groups);
    PairsWhereMembership(c.at, LJSelector(c.groups), t1, t2);
  }

  /** The function returns None exactly when no pair of types is selected. */
  lemma LennardJonesNone(c: LJInput)
    ensures LennardJonesSpec(c).None?
        <==> forall t1, t2 | t1 in c.at && t2 in c.at :: !LJKeep(c.at[t1], c.at[t2], c.groups)
  {
    var ps := LennardJonesSorted(c);
    if ps == [] {
      forall t1, t2 | t1 in c.at && t2 in c.at
        ensures !LJKeep(c.at[t1], c.at[t2], c.groups)
      {
        var p := Normalise(t1, t2);
        LennardJonesPairs(c, p.0, p.1);
      }
    } else {
      var p := ps[0];
      LennardJonesPairs(c, p.0, p.1);
    }
  }

  /** What is registered once pairs exist: a call for the pair (t1, t2)
      exactly when the pair is selected and its cross parameters (explicit
      entry first, combination rule otherwise) are both positive; the call
      uses those parameters and the AT setter iff `ftpl` is given. */
  lemma LennardJonesRegistered(c: LJInput, t1: TypeId, t2: TypeId)
    requires LennardJonesSpec(c).Some?
    ensures (exists i | 0 <= i < |LennardJonesSpec(c).value| ::
               LennardJonesSpec(c).value[i].t1 == t1 && LennardJonesSpec(c).value[i].t2 == t2)
        <==> (t1, t2) in LJPairs(c) && Positive(CrossParams(c, t1, t2))
    ensures forall i | 0 <= i < |LennardJonesSpec(c).value| &&
                       LennardJonesSpec(c).value[i].t1 == t1 && LennardJonesSpec(c).value[i].t2 == t2 ::
      && LennardJonesSpec(c).value[i].slot == (if c.adress then AT else Plain)
      && LennardJonesSpec(c).value[i].pot == LennardJones(CrossParams(c, t1, t2).sig, CrossParams(c, t1, t2).eps)
  {
    var ps := LennardJonesSorted(c);
    SettingsFor(c, ps, t1, t2);
    if (t1, t2) in LJPairs(c) {
      VirtualSkipUnreachable(c, t1, t2);
    }
  }

  /** Pair (t1, t2) has a call among those made for `ps` exactly when it is
      in `ps` and has a call of its own, and every such call is that one. */
  lemma SettingsFor(c: LJInput, ps: seq<TypePair>, t1: TypeId, t2: TypeId)
    requires InTable(c, ps)
    ensures (exists i | 0 <= i < |LJSettings(c, ps)| ::
               LJSettings(c, ps)[i].t1 == t1 && LJSettings(c, ps)[i].t2 == t2)
        <==> (t1, t2) in ps && LJSetting(c, (t1, t2)).Some?
    ensures forall i | 0 <= i < |LJSettings(c, ps)| &&
                       LJSettings(c, ps)[i].t1 == t1 && LJSettings(c, ps)[i].t2 == t2 ::
      LJSetting(c, (t1, t2)) == Some(LJSettings(c, ps)[i])
  {
    var settings := LJSettings(c, ps);
    LJSettingsSound(c, ps);
    if (t1, t2) in ps && LJSetting(c, (t1, t2)).Some? {
      LJSettingsComplete(c, ps);
      var k :| 0 <= k < |ps| && ps[k] == (t1, t2);
      var i :| 0 <= i < |settings| && settings[i] == LJSetting(c, ps[k]).value;
      assert settings[i].t1 == t1 && settings[i].t2 == t2;
      assert exists j | 0 <= j < |LJSettings(c, ps)| ::
               LJSettings(c, ps)[j].t1 == t1 && LJSettings(c, ps)[j].t2 == t2;
    } else {
      assert forall j | 0 <= j < |settings| :: LJSetting(c, (settings[j].t1, settings[j].t2)) == Some(settings[j]);
    }
  }

  /** The calls come in strictly increasing pair order, so no pair is set
      twice. */
  lemma LennardJonesOrdered(c: LJInput)
    requires LennardJonesSpec(c).Some?
    ensures forall i, j | 0 <= i < j < |LennardJonesSpec(c).value| ::
      PairLess((LennardJonesSpec(c).value[i].t1, LennardJonesSpec(c).value[i].t2),
               (LennardJonesSpec(c).value[j].t1, LennardJonesSpec(c).value[j].t2))
  {
    var ps := LennardJonesSorted(c);
    LJSettingsOrdered(c, ps);
  }

  /** The type check inside the registration loop never skips a pair: the
      selection already excluded virtual types. */
  lemma VirtualSkipUnreachable(c: LJInput, t1: TypeId, t2: TypeId)
    requires (t1, t2) in LJPairs(c)
    ensures t1 in c.at && t2 in c.at
    ensures LJSetting(c, (t1, t2)).Some? <==> Positive(CrossParams(c, t1, t2))
  {
    LennardJonesPairs(c, t1, t2);
  }

  /** A truthy explicit entry decides registration on its own: positive
      parameters are registered as given, non-positive ones block the pair
      whatever the combination rule would give. An entry stored under the
      reversed key `(t2, t1)` is never looked up. */
  lemma ExplicitParamsPrecedence(c: LJInput, t1: TypeId, t2: TypeId)
    requires t1 in c.at && t2 in c.at
    ensures (t1, t2) in c.nonbonded && c.nonbonded[(t1, t2)].Some? ==>
              CrossParams(c, t1, t2) == c.nonbonded[(t1, t2)].value
    ensures ((t1, t2) !in c.nonbonded || c.nonbonded[(t1, t2)].None?) ==>
              CrossParams(c, t1, t2) == CrossParams(c.(nonbonded := map[]), t1, t2)
  {
  }

  // --------------------------------------------------------------- tabulated

  /** The tabulated selection: both types virtual, or both in the
      tabulated groups. */
  predicate TabKeep(a: AtomType, b: AtomType, groups: seq<string>) {
    (IsVirtual(a) && IsVirtual(b)) || TableGroupPair(a, b, groups)
  }

  function TabSelector(groups: seq<string>): Selector {
    (a, b) => TabKeep(a, b, groups)
  }

  ghost function TabPairs(at: map<TypeId, AtomType>, groups: seq<string>): set<TypePair> {
    PairsWhere(at, TabSelector(groups), at.Keys, at.Keys)
  }

  /** `'table_{}_{}.pot'.format(name_1, name_2)`. */
  function TableName(n1: string, n2: string): string {
    "table_" + n1 + "_" + n2 + ".pot"
  }

  /** The call for one tabulated pair, or None when a type of the pair has
      no `atnum` (the lookup raises KeyError). The two types are ordered by
      `atnum` with a stable sort, so equal names keep the pair's order. */
  function TabSetting(at: map<TypeId, AtomType>, p: TypePair): Option<Setting>
    requires p.0 in at && p.1 in at
  {
    var a, b := at[p.0], at[p.1];
    if a.atnum.None? || b.atnum.None? then None
    else
      var n1, n2 := a.atnum.value, b.atnum.value;
      if Text.StrLess(n2, n1) then Some(Setting(CG, p.1, p.0, Tabulated(1, TableName(n2, n1))))
      else Some(Setting(CG, p.0, p.1, Tabulated(1, TableName(n1, n2))))
  }

  predicate HasAtnums(at: map<TypeId, AtomType>, p: TypePair) {
    p.0 in at && p.1 in at && at[p.0].atnum.Some? && at[p.1].atnum.Some?
  }

  /** The calls made for the pairs in visiting order `order`. */
  function TabSettings(at: map<TypeId, AtomType>, order: seq<TypePair>): (r: seq<Setting>)
    requires forall k | 0 <= k < |order| :: order[k].0 in at && order[k].1 in at
    requires forall k | 0 <= k < |order| :: at[order[k].0].atnum.Some? && at[order[k].1].atnum.Some?
    ensures |r| == |order|
    ensures forall k | 0 <= k < |order| :: TabSetting(at, order[k]) == Some(r[k])
  {
    if order == [] then []
    else
      var init := order[..|order| - 1];
      assert forall k | 0 <= k < |init| :: init[k] == order[k];
      TabSettings(at, init) + [TabSetting(at, order[|order| - 1]).value]
  }

  datatype TabOutcome =
    | NoPairs                      // the function returns None
    | MissingAtnum(t: TypeId)      // a selected type has no 'atnum': KeyError
    | Registered(settings: seq<Setting>)

  /** setTabulatedInteractions. The loop runs over a set, so the order of
      the calls is the ghost `order`, an enumeration of the selected pairs. */
  method SetTabulatedInteractions(at: map<TypeId, AtomType>, groups: seq<string>)
    returns (r: TabOutcome, ghost order: seq<TypePair>)
    ensures r.NoPairs? <==> TabPairs(at, groups) == {}
    ensures r.MissingAtnum? <==> exists p | p in TabPairs(at, groups) :: !HasAtnums(at, p)
    ensures r.MissingAtnum? ==> r.t in at && at[r.t].atnum.None?
    ensures r.Registered? ==>
              && Sorting.Enumerates(order, TabPairs(at, groups))
              && (forall k | 0 <= k < |order| :: HasAtnums(at, order[k]))
              && r.settings == TabSettings(at, order)
  {
    var pairs := CollectTypePairs(at, TabSelector(groups));
    if pairs == {} {
      return NoPairs, [];
    }
    var list := Sorting.Enumerate(pairs);
    var settings := [];
    for i := 0 to |list|
      invariant forall k | 0 <= k < i :: HasAtnums(at, list[k])
      invariant settings == TabSettings(at, list[..i])
    {
      var p := list[i];
      if at[p.0].atnum.None? {
        return MissingAtnum(p.0), list[..i];
      }
      if at[p.1].atnum.None? {
        return MissingAtnum(p.1), list[..i];
      }
      var s := TabulatedPair(at, p);
      assert list[..i + 1][..i] == list[..i];
      settings := settings + [s];
    }
    assert list[..|list|] == list;
    return Registered(settings), list;
  }

  /** The call for a pair whose types both have an `atnum`. */
  method TabulatedPair(at: map<TypeId, AtomType>, p: TypePair) returns (s: Setting)
    requires HasAtnums(at, p)
    ensures Some(s) == TabSetting(at, p)
  {
    var n1, n2 := at[p.0].atnum.value, at[p.1].atnum.value;
    if Text.StrLess(n2, n1) {
      s := Setting(CG, p.1, p.0, Tabulated(1, TableName(n2, n1)));
    } else {
      s := Setting(CG, p.0, p.1, Tabulated(1, TableName(n1, n2)));
    }
  }

  /** A pair is tabulated exactly when it is normalised and its types are
      both virtual or both in the tabulated groups. */
  lemma TabulatedPairs(at: map<TypeId, AtomType>, groups: seq<string>, t1: TypeId, t2: TypeId)
    ensures (t1, t2) in TabPairs(at, groups)
        <==> && t1 <= t2 && t1 in at && t2 in at
             && ((IsVirtual(at[t1]) && IsVirtual(at[t2])) || TableGroupPair(at[t1], at[t2], groups))
  {
    assert Symmetric(TabSelector(groups));
    PairsWhereMembership(at, TabSelector(groups), t1, t2);
  }

  /** Each tabulated call sets the CG potential of the pair's two types,
      ordered by `atnum`, from the table named after the two `atnum`s. */
  lemma TabulatedSettingShape(at: map<TypeId, AtomType>, p: TypePair)
    requires HasAtnums(at, p)
    ensures var s := TabSetting(at, p).value;
      && s.slot == CG
      && {s.t1, s.t2} == {p.0, p.1}
      && s.pot == Tabulated(1, TableName(at[s.t1].atnum.value, at[s.t2].atnum.value))
      && !Text.StrLess(at[s.t2].atnum.value, at[s.t1].atnum.value)
  {
    var n1, n2 := at[p.0].atnum.value, at[p.1].atnum.value;
    if Text.StrLess(n2, n1) {
      Text.StrLessAsymmetric(n2, n1);
    }
  }

  /** Every pair of atomistic types is selected by exactly one of the two
      functions, a pair with one virtual type is never selected for
      Lennard-Jones, and no pair is selected by both. Selection is not yet a
      potential: see `NonBondedPotentials`. */
  lemma NonBondedPartition(c: LJInput, t1: TypeId, t2: TypeId)
    requires t1 <= t2 && t1 in c.at && t2 in c.at
    ensures !((t1, t2) in LJPairs(c) && (t1, t2) in TabPairs(c.at, c.groups))
    ensures !IsVirtual(c.at[t1]) && !IsVirtual(c.at[t2]) ==>
              ((t1, t2) in LJPairs(c) <==> (t1, t2) !in TabPairs(c.at, c.groups))
    ensures IsVirtual(c.at[t1]) || IsVirtual(c.at[t2]) ==> (t1, t2) !in LJPairs(c)
  {
    LennardJonesPairs(c, t1, t2);
    TabulatedPairs(c.at, c.groups, t1, t2);
  }

  // ------------------------------------------- the potentials actually set

  /** setLennardJonesInteractions makes a call for the pair (t1, t2). */
  ghost predicate LJCalled(c: LJInput, t1: TypeId, t2: TypeId) {
    && LennardJonesSpec(c).Some?
    && exists i | 0 <= i < |LennardJonesSpec(c).value| ::
         LennardJonesSpec(c).value[i].t1 == t1 && LennardJonesSpec(c).value[i].t2 == t2
  }

  /** Some tabulated call of `settings` is for the types t1 and t2, in
      either order. */
  ghost predicate TabCalled(settings: seq<Setting>, t1: TypeId, t2: TypeId) {
    exists k | 0 <= k < |settings| :: {settings[k].t1, settings[k].t2} == {t1, t2}
  }

  /** A pair gets a Lennard-Jones call exactly when it is selected and its
      cross parameters are both positive, whether or not any pair is
      selected at all. */
  lemma LJCalledIff(c: LJInput, t1: TypeId, t2: TypeId)
    requires t1 in c.at && t2 in c.at
    ensures LJCalled(c, t1, t2) <==> (t1, t2) in LJPairs(c) && Positive(CrossParams(c, t1, t2))
  {
    if LennardJonesSpec(c).Some? {
      LennardJonesRegistered(c, t1, t2);
    } else {
      LennardJonesNone(c);
      LennardJonesPairs(c, t1, t2);
    }
  }

  /** When the tabulated loop runs to the end over the visiting order
      `order` (every selected type has an `atnum`), a normalised pair gets a
      tabulated call exactly when it is selected. */
  lemma TabCalledIff(at: map<TypeId, AtomType>, groups: seq<string>, order: seq<TypePair>,
                     t1: TypeId, t2: TypeId)
    requires Sorting.Enumerates(order, TabPairs(at, groups))
    requires forall k | 0 <= k < |order| :: order[k].0 in at && order[k].1 in at
    requires forall k | 0 <= k < |order| :: at[order[k].0].atnum.Some? && at[order[k].1].atnum.Some?
    requires t1 <= t2
    ensures TabCalled(TabSettings(at, order), t1, t2) <==> (t1, t2) in TabPairs(at, groups)
  {
    var settings := TabSettings(at, order);
    if TabCalled(settings, t1, t2) {
      var k :| 0 <= k < |settings| && {settings[k].t1, settings[k].t2} == {t1, t2};
      var p := order[k];
      TabulatedSettingShape(at, p);
      TabulatedPairs(at, groups, p.0, p.1);
      assert {p.0, p.1} == {t1, t2};
      assert p.0 in {t1, t2} && p.1 in {t1, t2} && t1 in {p.0, p.1} && t2 in {p.0, p.1};
      assert p == (t1, t2);
    }
    if (t1, t2) in TabPairs(at, groups) {
      var k :| 0 <= k < |order| && order[k] == (t1, t2);
      TabulatedSettingShape(at, order[k]);
      assert {settings[k].t1, settings[k].t2} == {t1, t2};
    }
  }

  /** The potentials set by the two functions, when the tabulated one runs
      to the end: no pair gets both; a pair of atomistic types gets a
      Lennard-Jones potential exactly when it is not tabulated and its cross
      parameters are positive, so one with non-positive parameters that is
      not tabulated gets neither; a pair with a virtual type gets no
      Lennard-Jones potential. */
  lemma NonBondedPotentials(c: LJInput, order: seq<TypePair>, t1: TypeId, t2: TypeId)
    requires Sorting.Enumerates(order, TabPairs(c.at, c.groups))
    requires forall k | 0 <= k < |order| :: order[k].0 in c.at && order[k].1 in c.at
    requires forall k | 0 <= k < |order| :: c.at[order[k].0].atnum.Some? && c.at[order[k].1].atnum.Some?
    requires t1 <= t2 && t1 in c.at && t2 in c.at
    ensures !(LJCalled(c, t1, t2) && TabCalled(TabSettings(c.at, order), t1, t2))
    ensures !IsVirtual(c.at[t1]) && !IsVirtual(c.at[t2]) ==>
              (LJCalled(c, t1, t2) <==>
                 (t1, t2) !in TabPairs(c.at, c.groups) && Positive(CrossParams(c, t1, t2)))
    ensures IsVirtual(c.at[t1]) || IsVirtual(c.at[t2]) ==> !LJCalled(c, t1, t2)
  {
    LJCalledIff(c, t1, t2);
    TabCalledIff(c.at, c.groups, order, t1, t2);
    NonBondedPartition(c, t1, t2);
  }
}
