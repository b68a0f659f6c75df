/** Records read from a GROMACS topology, as the simulation tools see them,
    and the shape of an interaction registered with the system. */
module Topology {

  datatype Option<+T> = None | Some(value: T)

  /** Key of the atom-type table (`atomtypeparams`). */
  type TypeId = nat

  /** An unordered pair of atom types, stored with the smaller id first. */
  type TypePair = (TypeId, TypeId)

  /** One entry of `atomtypeparams`. `atnum` and `atname` may be absent
      (they are read with `.get`); `sig` and `eps` are the type's own
      Lennard-Jones parameters. */
  datatype AtomType = AtomType(
    particletype: string,
    atnum: Option<string>,
    atname: Option<string>,
    sig: real,
    eps: real)

  /** Key of a bonded or 1-4 group dict (`bondtypes`, `pairtypes`, ...):
      (parameter id, cross flag). */
  type GroupKey = (nat, bool)

  /** `system.addInteraction(interaction, label)`. */
  datatype Registration<H> = Registration(name: string, interaction: H)

  /** Lennard-Jones parameters of a pair. */
  datatype LJ = LJ(sig: real, eps: real)

  /** A coarse-grained "virtual" particle type. */
  predicate IsVirtual(a: AtomType) {
    a.particletype == "V"
  }

  /** `o in table_groups` where `o` is the result of a `.get`: an absent key
      (None) is never a member of a list of group names. */
  predicate InGroups(o: Option<string>, groups: seq<string>) {
    o.Some? && o.value in groups
  }

  /** Both types belong to the tabulated groups, by `atnum` or by `atname`. */
  predicate TableGroupPair(a: AtomType, b: AtomType, groups: seq<string>) {
    || (InGroups(a.atnum, groups) && InGroups(b.atnum, groups))
    || (InGroups(a.atname, groups) && InGroups(b.atname, groups))
  }

  /** `tuple(sorted([t1, t2]))`. */
  function Normalise(t1: TypeId, t2: TypeId): (p: TypePair)
    ensures p.0 <= p.1
    ensures {p.0, p.1} == {t1, t2}
  {
    if t1 <= t2 then (t1, t2) else (t2, t1)
  }

  /** Python's ordering of two-element tuples of integers. */
  predicate PairLess(p: TypePair, q: TypePair) {
    p.0 < q.0 || (p.0 == q.0 && p.1 < q.1)
  }

  /** Truthiness of a Python value that is either None or a number. */
  predicate Truthy(x: Option<real>) {
    x.Some? && x.value != 0.0
  }
}
