/** set_single_th_force: one thermodynamic force, read from a single table
    file, is added for every coarse-grained ("V") atom type. Each call to
    `addForce` is recorded as a `ForceCall`. */
module ThermodynamicForce {
  import opened Topology
  import Sorting

  /** `thdforce.addForce(itype=..., filename=..., type=...)`. */
  datatype ForceCall = ForceCall(itype: int, filename: string, typeId: TypeId)

  /** The `itype` the source passes: the force is read from a table. */
  const TableForce: int := 3

  /** The atom types that receive a force. */
  ghost function VirtualTypes(at: map<TypeId, AtomType>): set<TypeId> {
    set t | t in at && IsVirtual(at[t])
  }

  /** The calls made while visiting the types in `order`. */
  function ThForceCalls(at: map<TypeId, AtomType>, tfNew: string, order: seq<TypeId>): seq<ForceCall>
    requires forall k | 0 <= k < |order| :: order[k] in at
  {
    if order == [] then []
    else
      var t := order[|order| - 1];
      ThForceCalls(at, tfNew, order[..|order| - 1])
      + if IsVirtual(at[t]) then [ForceCall(TableForce, tfNew, t)] else []
  }

  /** The loop over `atomtypeparams.items()`, visited in the ghost `order`.
      Every virtual type gets exactly one call, with the table force and the
      given file; no other type gets one. */
  method SetSingleThForce(at: map<TypeId, AtomType>, tfNew: string)
    returns (calls: seq<ForceCall>, ghost order: seq<TypeId>)
    ensures Sorting.Enumerates(order, at.Keys)
    ensures calls == ThForceCalls(at, tfNew, order)
    ensures forall k | 0 <= k < |calls| :: calls[k].itype == TableForce && calls[k].filename == tfNew
    ensures forall t :: (exists k | 0 <= k < |calls| :: calls[k].typeId == t) <==> t in VirtualTypes(at)
    ensures forall i, j | 0 <= i < j < |calls| :: calls[i].typeId != calls[j].typeId
  {
    var types := Sorting.Enumerate(at.Keys);
    calls := [];
    for i := 0 to |types|
      invariant calls == ThForceCalls(at, tfNew, types[..i])
    {
      calls := VisitType(at, tfNew, types[..i], calls, types[i]);
      Sorting.PrefixStep(types, i);
    }
    assert types[..|types|] == types;
    order := types;
    CallsFacts(at, tfNew, order);
  }

  /** The calls of a complete visit: each adds the table force from `tfNew`,
      the virtual types are exactly the types called, and none is called
      twice. */
  lemma CallsFacts(at: map<TypeId, AtomType>, tfNew: string, order: seq<TypeId>)
    requires Sorting.Enumerates(order, at.Keys)
    ensures forall k | 0 <= k < |ThForceCalls(at, tfNew, order)| ::
      ThForceCalls(at, tfNew, order)[k].itype == TableForce
      && ThForceCalls(at, tfNew, order)[k].filename == tfNew
    ensures forall t :: (exists k | 0 <= k < |ThForceCalls(at, tfNew, order)| ::
      ThForceCalls(at, tfNew, order)[k].typeId == t) <==> t in VirtualTypes(at)
    ensures forall i, j | 0 <= i < j < |ThForceCalls(at, tfNew, order)| ::
      ThForceCalls(at, tfNew, order)[i].typeId != ThForceCalls(at, tfNew, order)[j].typeId
  {
    var calls := ThForceCalls(at, tfNew, order);
    CallsShape(at, tfNew, order);
    CallsAreVirtualOf(at, tfNew, order);
    forall t | t in VirtualTypes(at) ensures exists k | 0 <= k < |calls| :: calls[k].typeId == t {
      var j :| 0 <= j < |order| && order[j] == t;
      CallsIncludeVirtual(at, tfNew, order, j);
    }
  }

  /** One iteration: adds the force for `t` when `t` is virtual. */
  method VisitType(at: map<TypeId, AtomType>, tfNew: string, ghost order: seq<TypeId>,
                   calls: seq<ForceCall>, t: TypeId)
    returns (calls': seq<ForceCall>)
    requires forall k | 0 <= k < |order| :: order[k] in at
    requires t in at && calls == ThForceCalls(at, tfNew, order)
    ensures calls' == ThForceCalls(at, tfNew, order + [t])
  {
    assert (order + [t])[..|order|] == order;
    calls' := calls;
    if at[t].particletype == "V" {
      calls' := calls + [ForceCall(TableForce, tfNew, t)];
    }
  }

  /** Every call adds the table force read from `tfNew`. */
  lemma {:induction false} CallsShape(at: map<TypeId, AtomType>, tfNew: string, order: seq<TypeId>)
    requires forall k | 0 <= k < |order| :: order[k] in at
    ensures forall k | 0 <= k < |ThForceCalls(at, tfNew, order)| ::
      ThForceCalls(at, tfNew, order)[k].itype == TableForce
      && ThForceCalls(at, tfNew, order)[k].filename == tfNew
  {
    if order != [] {
      CallsShape(at, tfNew, order[..|order| - 1]);
    }
  }

  /** Without virtual types no force is added. */
  lemma {:induction false} NoVirtualNoCalls(at: map<TypeId, AtomType>, tfNew: string, order: seq<TypeId>)
    requires forall k | 0 <= k < |order| :: order[k] in at && !IsVirtual(at[order[k]])
    ensures ThForceCalls(at, tfNew, order) == []
  {
    if order != [] {
      NoVirtualNoCalls(at, tfNew, order[..|order| - 1]);
    }
  }

  /** Visiting the types in any order makes the same number of calls: one per
      virtual type. */
  lemma {:induction false} CallCount(at: map<TypeId, AtomType>, tfNew: string, order: seq<TypeId>)
    requires Sorting.Enumerates(order, at.Keys)
    ensures |ThForceCalls(at, tfNew, order)| == |VirtualTypes(at)|
  {
    CallsAreVirtualOf(at, tfNew, order);
    var calls := ThForceCalls(at, tfNew, order);
    var ids := set k | 0 <= k < |calls| :: calls[k].typeId;
    assert ids == VirtualTypes(at) by {
      forall t | t in VirtualTypes(at) ensures t in ids {
        var j :| 0 <= j < |order| && order[j] == t;
        CallsIncludeVirtual(at, tfNew, order, j);
        var k :| 0 <= k < |calls| && calls[k].typeId == t;
      }
    }
    DistinctIdsCount(calls);
  }

  /** Every call of `ThForceCalls` is for a virtual type of `order`, and no
      two calls share a type when `order` has no repeats. */
  lemma {:induction false} CallsAreVirtualOf(at: map<TypeId, AtomType>, tfNew: string, order: seq<TypeId>)
    requires forall k | 0 <= k < |order| :: order[k] in at
    requires forall i, j | 0 <= i < j < |order| :: order[i] != order[j]
    ensures forall k | 0 <= k < |ThForceCalls(at, tfNew, order)| ::
      ThForceCalls(at, tfNew, order)[k].typeId in order
      && IsVirtual(at[ThForceCalls(at, tfNew, order)[k].typeId])
    ensures forall i, j | 0 <= i < j < |ThForceCalls(at, tfNew, order)| ::
      ThForceCalls(at, tfNew, order)[i].typeId != ThForceCalls(at, tfNew, order)[j].typeId
  {
    if order != [] {
      var init := order[..|order| - 1];
      var t := order[|order| - 1];
      assert forall k | 0 <= k < |init| :: init[k] == order[k];
      CallsAreVirtualOf(at, tfNew, init);
      var prev := ThForceCalls(at, tfNew, init);
      assert forall k | 0 <= k < |prev| :: prev[k].typeId in init && prev[k].typeId != t;
    }
  }

  /** A visited virtual type gets a call. */
  lemma {:induction false} CallsIncludeVirtual(at: map<TypeId, AtomType>, tfNew: string,
                                               order: seq<TypeId>, j: nat)
    requires forall k | 0 <= k < |order| :: order[k] in at
    requires j < |order| && IsVirtual(at[order[j]])
    ensures exists k | 0 <= k < |ThForceCalls(at, tfNew, order)| ::
      ThForceCalls(at, tfNew, order)[k].typeId == order[j]
  {
    var init := order[..|order| - 1];
    var prev := ThForceCalls(at, tfNew, init);
    if j < |init| {
      CallsIncludeVirtual(at, tfNew, init, j);
      var k :| 0 <= k < |prev| && prev[k].typeId == init[j];
      assert ThForceCalls(at, tfNew, order)[k] == prev[k];
    } else {
      assert ThForceCalls(at, tfNew, order)[|prev|].typeId == order[j];
    }
  }

  /** Calls with pairwise distinct types are as many as their types. */
  lemma {:induction false} DistinctIdsCount(calls: seq<ForceCall>)
    requires forall i, j | 0 <= i < j < |calls| :: calls[i].typeId != calls[j].typeId
    ensures |set k | 0 <= k < |calls| :: calls[k].typeId| == |calls|
  {
    if calls != [] {
      var init := calls[..|calls| - 1];
      DistinctIdsCount(init);
      var s := set k | 0 <= k < |calls| :: calls[k].typeId;
      var s' := set k | 0 <= k < |init| :: init[k].typeId;
      assert s == s' + {calls[|calls| - 1].typeId};
      assert calls[|calls| - 1].typeId !in s';
    }
  }
}
