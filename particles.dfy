/** The particle list (genParticleList): one record per particle of the
    topology, with the property names that describe the records and, in an
    AdResS run, the tuples that tie every coarse-grained particle to the
    atomistic particles it stands for. */
module ParticleList {
  import opened Topology

  datatype Vec3 = Vec3(x: real, y: real, z: real)

  /** One particle record. The optional fields are present exactly when the
      matching property name is in the property list. */
  datatype Particle = Particle(
    id: nat,
    ptype: TypeId,
    pos: Vec3,
    mass: Option<real>,
    q: Option<real>,
    v: Option<Vec3>,
    adrat: Option<int>)

  /** The per-particle types, masses and charges of the topology, its atom-type
      table, and the positions of the coordinate file keyed by 1-based id. */
  datatype ParticleInput = ParticleInput(
    types: seq<TypeId>,
    at: map<TypeId, AtomType>,
    masses: seq<real>,
    charges: seq<real>,
    positions: map<nat, Vec3>)

  /** The keyword arguments `use_charge`, `adress` and `temperature`. */
  datatype Options = Options(useCharge: bool, adress: bool, temperature: Option<real>)

  datatype Failure =
      /** `len(None)`: the velocities were never drawn. */
    | NoneHasNoLength
      /** The velocity list has no entry for particle `pid` (0-based). */
    | VelocityIndex(pid: nat)

  datatype Outcome =
    | Ok(props: seq<string>, particles: seq<Particle>, tuples: Option<seq<seq<nat>>>)
    | Failed(failure: Failure)

  predicate UseMass(c: ParticleInput) {
    |c.masses| > 0
  }

  predicate UseCharge(c: ParticleInput, o: Options) {
    o.useCharge && |c.charges| > 0
  }

  /** What the topology and coordinate readers guarantee, so that no mass,
      charge, position or atom-type lookup in the loop fails. */
  ghost predicate Readable(c: ParticleInput, o: Options) {
    && (UseMass(c) ==> |c.masses| >= |c.types|)
    && (UseCharge(c, o) ==> |c.charges| >= |c.types|)
    && (forall id: nat | 1 <= id <= |c.types| :: id in c.positions)
    && (o.adress ==> forall pid | 0 <= pid < |c.types| :: c.types[pid] in c.at)
  }

  /** The property names, in the order the record fields are filled. */
  function Props(c: ParticleInput, o: Options): seq<string> {
    ["id", "type", "pos"]
    + (if UseMass(c) then ["mass"] else [])
    + (if UseCharge(c, o) then ["q"] else [])
    + (if Truthy(o.temperature) then ["v"] else [])
    + (if o.adress then ["adrat"] else [])
  }

  /** The names of the fields a record carries, in field order. */
  function FieldNames(p: Particle): seq<string> {
    ["id", "type", "pos"]
    + (if p.mass.Some? then ["mass"] else [])
    + (if p.q.Some? then ["q"] else [])
    + (if p.v.Some? then ["v"] else [])
    + (if p.adrat.Some? then ["adrat"] else [])
  }

  // ------------------------------------------------------ virtual particles

  /** Which particles are coarse-grained ('V'), by 0-based index. */
  function Virtuals(c: ParticleInput): (virt: seq<bool>)
    requires forall pid | 0 <= pid < |c.types| :: c.types[pid] in c.at
    ensures |virt| == |c.types|
    ensures forall pid | 0 <= pid < |c.types| :: virt[pid] == IsVirtual(c.at[c.types[pid]])
  {
    seq(|c.types|, pid requires 0 <= pid < |c.types| && c.types[pid] in c.at => IsVirtual(c.at[c.types[pid]]))
  }

  /** The number of atomistic particles among the first `n`: the counter
      `at_id` when the loop reaches particle `n`. */
  function AtCount(virt: seq<bool>, n: nat): nat
    requires n <= |virt|
  {
    if n == 0 then 0 else AtCount(virt, n - 1) + (if virt[n - 1] then 0 else 1)
  }

  /** Each atomistic particle draws its own velocity: the counter is strictly
      larger at every later particle, and never exceeds the particle index. */
  lemma {:induction false} AtCountRank(virt: seq<bool>, i: nat, j: nat)
    requires i < j <= |virt| && !virt[i]
    ensures AtCount(virt, i) < AtCount(virt, j) <= j
  {
    if j == i + 1 {
      AtCountBound(virt, i);
    } else {
      AtCountRank(virt, i, j - 1);
    }
  }

  lemma {:induction false} AtCountBound(virt: seq<bool>, n: nat)
    requires n <= |virt|
    ensures AtCount(virt, n) <= n
  {
    if n > 0 {
      AtCountBound(virt, n - 1);
    }
  }

  // ----------------------------------------------------------- the records

  /** The index into the velocity list used for particle `pid`. */
  function VelocityIndexOf(c: ParticleInput, o: Options, pid: nat): nat
    requires Readable(c, o) && pid < |c.types|
  {
    if o.adress then AtCount(Virtuals(c), pid) else pid
  }

  /** Particle `pid` needs a velocity the list does not have. */
  predicate Gap(c: ParticleInput, o: Options, vel: seq<Vec3>, pid: nat)
    requires Readable(c, o) && pid < |c.types|
  {
    Truthy(o.temperature) && VelocityIndexOf(c, o, pid) >= |vel|
  }

  /** The first of the first `n` particles that needs a missing velocity. */
  function FirstGap(c: ParticleInput, o: Options, vel: seq<Vec3>, n: nat): Option<nat>
    requires Readable(c, o) && n <= |c.types|
  {
    if n == 0 then None
    else if FirstGap(c, o, vel, n - 1).Some? then FirstGap(c, o, vel, n - 1)
    else if Gap(c, o, vel, n - 1) then Some(n - 1)
    else None
  }

  lemma {:induction false} FirstGapIsFirst(c: ParticleInput, o: Options, vel: seq<Vec3>, n: nat)
    requires Readable(c, o) && n <= |c.types|
    ensures FirstGap(c, o, vel, n).None? <==> forall pid | 0 <= pid < n :: !Gap(c, o, vel, pid)
    ensures FirstGap(c, o, vel, n).Some? ==>
      var pid := FirstGap(c, o, vel, n).value;
      pid < n && Gap(c, o, vel, pid) && forall i | 0 <= i < pid :: !Gap(c, o, vel, i)
  {
    if n > 0 {
      FirstGapIsFirst(c, o, vel, n - 1);
    }
  }

  /** Once a gap is met, later particles do not change the failure. */
  lemma {:induction false} FirstGapStays(c: ParticleInput, o: Options, vel: seq<Vec3>, m: nat, n: nat)
    requires Readable(c, o) && m <= n <= |c.types|
    requires FirstGap(c, o, vel, m).Some?
    ensures FirstGap(c, o, vel, n) == FirstGap(c, o, vel, m)
  {
    if n > m {
      FirstGapStays(c, o, vel, m, n - 1);
    }
  }

  /** The record of particle `pid` (0-based). */
  function ParticleAt(c: ParticleInput, o: Options, vel: seq<Vec3>, pid: nat): Particle
    requires Readable(c, o) && pid < |c.types| && !Gap(c, o, vel, pid)
  {
    Particle(
      pid + 1,
      c.types[pid],
      c.positions[pid + 1],
      if UseMass(c) then Some(c.masses[pid]) else None,
      if UseCharge(c, o) then Some(c.charges[pid]) else None,
      if Truthy(o.temperature) then Some(vel[VelocityIndexOf(c, o, pid)]) else None,
      if o.adress then Some(if IsVirtual(c.at[c.types[pid]]) then 0 else 1) else None)
  }

  /** The records of the first `n` particles. */
  function Particles(c: ParticleInput, o: Options, vel: seq<Vec3>, n: nat): seq<Particle>
    requires Readable(c, o) && n <= |c.types| && FirstGap(c, o, vel, n).None?
  {
    if n == 0 then [] else Particles(c, o, vel, n - 1) + [ParticleAt(c, o, vel, n - 1)]
  }

  // ---------------------------------------------------------- AdResS tuples

  /** The tuples emitted and the pending run (`tmptuple`) after the first `n`
      particles: a 'V' particle flushes a non-empty run as `[its id] + run`
      and empties it; an atomistic particle joins the run. */
  function Scan(virt: seq<bool>, n: nat): (seq<seq<nat>>, seq<nat>)
    requires n <= |virt|
  {
    if n == 0 then ([], [])
    else
      var (ts, run) := Scan(virt, n - 1);
      if virt[n - 1] then ((if run != [] then ts + [[n] + run] else ts), [])
      else (ts, run + [n])
  }

  /** The AdResS tuples: the tuples of the scan and the trailing run. */
  function AdressTuples(virt: seq<bool>): seq<seq<nat>> {
    var (ts, run) := Scan(virt, |virt|);
    if run != [] then ts + [run] else ts
  }

  function Flatten(ts: seq<seq<nat>>): seq<nat> {
    if ts == [] then [] else Flatten(ts[..|ts| - 1]) + ts[|ts| - 1]
  }

  /** `run` is the block of atomistic ids that ends at id `last` and starts
      right after a 'V' particle or the first particle. */
  ghost predicate Run(virt: seq<bool>, run: seq<nat>, last: nat) {
    && last <= |virt|
    && |run| <= last
    && (forall k | 0 <= k < |run| ::
          run[k] == last - |run| + 1 + k && 1 <= run[k] <= |virt| && !virt[run[k] - 1])
    && (|run| < last ==> virt[last - |run| - 1])
  }

  /** The ids a tuple holds: every atomistic id, and a 'V' id exactly when
      the particle before it is atomistic. */
  ghost function Covered(virt: seq<bool>, n: nat): set<nat>
    requires n <= |virt|
  {
    set k: nat | 1 <= k <= n && InTuple(virt, k)
  }

  /** Id `k` belongs to a tuple. */
  predicate InTuple(virt: seq<bool>, k: nat)
    requires 1 <= k <= |virt|
  {
    !virt[k - 1] || (k >= 2 && !virt[k - 2])
  }

  /** A tuple emitted at a 'V' particle: its id, then the whole run of
      atomistic ids right before it. */
  ghost predicate VTuple(virt: seq<bool>, t: seq<nat>) {
    && |t| >= 2
    && 1 <= t[0] <= |virt|
    && virt[t[0] - 1]
    && Run(virt, t[1..], t[0] - 1)
  }

  lemma FlattenStep(ts: seq<seq<nat>>, t: seq<nat>)
    ensures Flatten(ts + [t]) == Flatten(ts) + t
  {
    assert (ts + [t])[..|ts|] == ts;
  }

  lemma {:induction false} ScanRun(virt: seq<bool>, n: nat)
    requires n <= |virt|
    ensures Run(virt, Scan(virt, n).1, n)
  {
    if n > 0 {
      ScanRun(virt, n - 1);
      var (ts, run) := Scan(virt, n - 1);
      if !virt[n - 1] {
        var run' := run + [n];
        forall k | 0 <= k < |run'|
          ensures run'[k] == n - |run'| + 1 + k && 1 <= run'[k] <= |virt| && !virt[run'[k] - 1]
        {
          if k < |run| {
            assert run'[k] == run[k];
          }
        }
      }
    }
  }

  lemma {:induction false} ScanTuples(virt: seq<bool>, n: nat)
    requires n <= |virt|
    ensures forall j | 0 <= j < |Scan(virt, n).0| :: VTuple(virt, Scan(virt, n).0[j])
  {
    if n > 0 {
      ScanTuples(virt, n - 1);
      var (ts, run) := Scan(virt, n - 1);
      if virt[n - 1] && run != [] {
        ScanRun(virt, n - 1);
        var t := [n] + run;
        assert t[1..] == run;
        assert VTuple(virt, t);
        var ts' := ts + [t];
        assert forall j | 0 <= j < |ts| :: ts'[j] == ts[j];
      }
    }
  }

  lemma CoveredStep(virt: seq<bool>, n: nat)
    requires 1 <= n <= |virt|
    ensures multiset(Covered(virt, n))
         == multiset(Covered(virt, n - 1)) + (if InTuple(virt, n) then multiset{n} else multiset{})
  {
    var before := Covered(virt, n - 1);
    if InTuple(virt, n) {
      assert Covered(virt, n) == before + {n};
      assert n !in before;
    } else {
      assert Covered(virt, n) == before;
    }
  }

  /** The pending run is non-empty exactly when the last particle seen is
      atomistic. */
  lemma ScanRunEnd(virt: seq<bool>, n: nat)
    requires n <= |virt|
    ensures Scan(virt, n).1 != [] <==> n >= 1 && !virt[n - 1]
  {
    ScanRun(virt, n);
    var run := Scan(virt, n).1;
    if run != [] {
      assert run[|run| - 1] == n;
    }
  }

  lemma FlushCount(ts: seq<seq<nat>>, run: seq<nat>, n: nat)
    ensures multiset(Flatten(ts + [[n] + run]) + []) == multiset(Flatten(ts) + run) + multiset{n}
  {
    FlattenStep(ts, [n] + run);
    assert Flatten(ts + [[n] + run]) + [] == Flatten(ts) + [n] + run;
  }

  lemma {:induction false} ScanCover(virt: seq<bool>, n: nat)
    requires n <= |virt|
    ensures multiset(Flatten(Scan(virt, n).0) + Scan(virt, n).1) == multiset(Covered(virt, n))
  {
    if n > 0 {
      ScanCover(virt, n - 1);
      ScanCoverStep(virt, n);
    }
  }

  lemma ScanCoverStep(virt: seq<bool>, n: nat)
    requires 0 < n <= |virt|
    requires multiset(Flatten(Scan(virt, n - 1).0) + Scan(virt, n - 1).1) == multiset(Covered(virt, n - 1))
    ensures multiset(Flatten(Scan(virt, n).0) + Scan(virt, n).1) == multiset(Covered(virt, n))
  {
    ScanRunEnd(virt, n - 1);
    CoveredStep(virt, n);
    var ts := Scan(virt, n - 1).0;
    var run := Scan(virt, n - 1).1;
    if virt[n - 1] {
      if run != [] {
        assert InTuple(virt, n);
        assert Scan(virt, n) == (ts + [[n] + run], []);
        FlushCount(ts, run, n);
      } else {
        assert !InTuple(virt, n);
        assert Scan(virt, n) == (ts, run);
      }
    } else {
      assert InTuple(virt, n);
      assert Scan(virt, n) == (ts, run + [n]);
      assert Flatten(ts) + (run + [n]) == (Flatten(ts) + run) + [n];
    }
  }

  /** Every AdResS tuple is either a 'V' particle followed by the run of
      atomistic particles right before it, or, as the last tuple only, the
      trailing run of atomistic particles. */
  lemma AdressTuplesShape(virt: seq<bool>)
    ensures var tuples := AdressTuples(virt);
      forall j | 0 <= j < |tuples| ::
        || VTuple(virt, tuples[j])
        || (j == |tuples| - 1 && |tuples[j]| > 0 && Run(virt, tuples[j], |virt|))
  {
    ScanRun(virt, |virt|);
    ScanTuples(virt, |virt|);
  }

  /** The tuples hold every atomistic id exactly once and every 'V' id at
      most once: exactly when the particle before it is atomistic. */
  lemma AdressTuplesCover(virt: seq<bool>)
    ensures multiset(Flatten(AdressTuples(virt))) == multiset(Covered(virt, |virt|))
  {
    ScanCover(virt, |virt|);
    var (ts, run) := Scan(virt, |virt|);
    if run != [] {
      FlattenStep(ts, run);
    } else {
      assert Flatten(ts) + run == Flatten(ts);
    }
  }

  /** How often each id occurs in the tuples. */
  lemma IdCount(virt: seq<bool>, k: nat)
    ensures multiset(Flatten(AdressTuples(virt)))[k]
         == if 1 <= k <= |virt| && InTuple(virt, k) then 1 else 0
  {
    AdressTuplesCover(virt);
  }

  // ---------------------------------------------------------- the operation

  /** genParticleList, as the code evidently intends it (see the as-written
      model below for the `print(len(vx))` line). */
  ghost function GenParticleListSpec(c: ParticleInput, o: Options, vel: seq<Vec3>): Outcome
    requires Readable(c, o)
  {
    match FirstGap(c, o, vel, |c.types|)
    case Some(pid) => Failed(VelocityIndex(pid))
    case None =>
      Ok(Props(c, o), Particles(c, o, vel, |c.types|),
         if o.adress then Some(AdressTuples(Virtuals(c))) else None)
  }

  /** genParticleList with the velocity list `vel` that the Maxwell-Boltzmann
      generator returns, one entry per mass, when a temperature is given. */
  method GenParticleList(c: ParticleInput, o: Options, vel: seq<Vec3>) returns (r: Outcome)
    requires Readable(c, o)
    requires Truthy(o.temperature) ==> |vel| == |c.masses|
    ensures r == GenParticleListSpec(c, o, vel)
  {
    var props := ["id", "type", "pos"];
    var useMass := |c.masses| > 0;
    var useCharge := o.useCharge && |c.charges| > 0;
    if useMass {
      props := props + ["mass"];
    }
    if useCharge {
      props := props + ["q"];
    }
    if Truthy(o.temperature) {
      props := props + ["v"];
    }
    if o.adress {
      props := props + ["adrat"];
      r := AdressParticles(c, o, vel, props);
    } else {
      r := PlainParticles(c, o, vel, props);
    }
  }

  /** The AdResS branch: every record gets `adrat`, and the atomistic ids
      are gathered into tuples. */
  method AdressParticles(c: ParticleInput, o: Options, vel: seq<Vec3>, props: seq<string>)
    returns (r: Outcome)
    requires Readable(c, o) && o.adress && props == Props(c, o)
    requires Truthy(o.temperature) ==> |vel| == |c.masses|
    ensures r == GenParticleListSpec(c, o, vel)
  {
    var n := |c.types|;
    ghost var virt := Virtuals(c);
    var useMass := |c.masses| > 0;
    var useCharge := o.useCharge && |c.charges| > 0;
    var particles := [];
    var adressTuple := [];
    var tmptuple := [];
    var atId := 0;
    var pid := 0;
    while pid < n
      invariant pid <= n
      invariant FirstGap(c, o, vel, pid).None?
      invariant atId == AtCount(virt, pid)
      invariant particles == Particles(c, o, vel, pid)
      invariant (adressTuple, tmptuple) == Scan(virt, pid)
    {
      var atomType := c.types[pid];
      var isVirtual := c.at[atomType].particletype == "V";
      var v: Option<Vec3> := None;
      if Truthy(o.temperature) {
        if atId >= |vel| {
          FirstGapStays(c, o, vel, pid + 1, n);
          return Failed(VelocityIndex(pid));
        }
        v := Some(vel[atId]);
      }
      var adrat;
      if isVirtual {
        adrat := 0;
        if tmptuple != [] {
          adressTuple := adressTuple + [[pid + 1] + tmptuple];
        }
        tmptuple := [];
      } else {
        adrat := 1;
        tmptuple := tmptuple + [pid + 1];
        atId := atId + 1;
      }
      particles := particles + [Particle(
        pid + 1, atomType, c.positions[pid + 1],
        if useMass then Some(c.masses[pid]) else None,
        if useCharge then Some(c.charges[pid]) else None,
        v, Some(adrat))];
      pid := pid + 1;
    }
    if tmptuple != [] {
      adressTuple := adressTuple + [tmptuple];
    }
    return Ok(props, particles, Some(adressTuple));
  }

  /** The plain branch: velocities are taken by particle index. */
  method PlainParticles(c: ParticleInput, o: Options, vel: seq<Vec3>, props: seq<string>)
    returns (r: Outcome)
    requires Readable(c, o) && !o.adress && props == Props(c, o)
    requires Truthy(o.temperature) ==> |vel| == |c.masses|
    ensures r == GenParticleListSpec(c, o, vel)
  {
    var n := |c.types|;
    var useMass := |c.masses| > 0;
    var useCharge := o.useCharge && |c.charges| > 0;
    var particles := [];
    var pid := 0;
    while pid < n
      invariant pid <= n
      invariant FirstGap(c, o, vel, pid).None?
      invariant particles == Particles(c, o, vel, pid)
    {
      var v: Option<Vec3> := None;
      if Truthy(o.temperature) {
        if pid >= |vel| {
          FirstGapStays(c, o, vel, pid + 1, n);
          return Failed(VelocityIndex(pid));
        }
        v := Some(vel[pid]);
      }
      particles := particles + [Particle(
        pid + 1, c.types[pid], c.positions[pid + 1],
        if useMass then Some(c.masses[pid]) else None,
        if useCharge then Some(c.charges[pid]) else None,
        v, None)];
      pid := pid + 1;
    }
    return Ok(props, particles, None);
  }

  // ------------------------------------------------------------------ lemmas

  lemma {:induction false} ParticlesAt(c: ParticleInput, o: Options, vel: seq<Vec3>, n: nat, i: nat)
    requires Readable(c, o) && n <= |c.types| && FirstGap(c, o, vel, n).None? && i < n
    ensures !Gap(c, o, vel, i)
    ensures |Particles(c, o, vel, n)| == n
    ensures Particles(c, o, vel, n)[i] == ParticleAt(c, o, vel, i)
  {
    FirstGapIsFirst(c, o, vel, n);
    if i < n - 1 {
      ParticlesAt(c, o, vel, n - 1, i);
    } else {
      ParticlesLength(c, o, vel, n - 1);
    }
  }

  lemma {:induction false} ParticlesLength(c: ParticleInput, o: Options, vel: seq<Vec3>, n: nat)
    requires Readable(c, o) && n <= |c.types| && FirstGap(c, o, vel, n).None?
    ensures |Particles(c, o, vel, n)| == n
  {
    if n > 0 {
      ParticlesLength(c, o, vel, n - 1);
    }
  }

  /** Particle `i` gets id `i+1`, its own type and position, its velocity
      from position `at_id` (the number of atomistic particles before it) in
      an AdResS run and from position `i` otherwise, and `adrat` 0 exactly
      for 'V' particles. */
  lemma ParticleFields(c: ParticleInput, o: Options, vel: seq<Vec3>, i: nat)
    requires Readable(c, o) && GenParticleListSpec(c, o, vel).Ok? && i < |c.types|
    ensures var ps := GenParticleListSpec(c, o, vel).particles;
      && |ps| == |c.types|
      && ps[i].id == i + 1
      && ps[i].ptype == c.types[i]
      && ps[i].pos == c.positions[i + 1]
      && (o.adress ==> ps[i].adrat == Some(if IsVirtual(c.at[c.types[i]]) then 0 else 1))
      && (!o.adress ==> ps[i].adrat.None?)
      && (Truthy(o.temperature) ==>
            var k := if o.adress then AtCount(Virtuals(c), i) else i;
            k < |vel| && ps[i].v == Some(vel[k]))
      && (!Truthy(o.temperature) ==> ps[i].v.None?)
  {
    ParticlesAt(c, o, vel, |c.types|, i);
  }

  /** Every record has exactly the fields the property list names, in the
      same order, so building the named tuple never fails. */
  lemma PropsMatchParticles(c: ParticleInput, o: Options, vel: seq<Vec3>)
    requires Readable(c, o) && GenParticleListSpec(c, o, vel).Ok?
    ensures var r := GenParticleListSpec(c, o, vel);
      forall i | 0 <= i < |r.particles| :: FieldNames(r.particles[i]) == r.props
  {
    var r := GenParticleListSpec(c, o, vel);
    ParticlesLength(c, o, vel, |c.types|);
    forall i | 0 <= i < |r.particles| ensures FieldNames(r.particles[i]) == r.props {
      ParticlesAt(c, o, vel, |c.types|, i);
    }
  }

  /** The run fails on a velocity lookup exactly when a temperature is given,
      there is at least one particle, and the topology has no masses (so the
      generator draws no velocities). */
  lemma VelocityFailure(c: ParticleInput, o: Options, vel: seq<Vec3>)
    requires Readable(c, o)
    requires Truthy(o.temperature) ==> |vel| == |c.masses|
    ensures GenParticleListSpec(c, o, vel).Failed?
        <==> Truthy(o.temperature) && |c.types| > 0 && |c.masses| == 0
  {
    var n := |c.types|;
    FirstGapIsFirst(c, o, vel, n);
    if Truthy(o.temperature) && n > 0 && |c.masses| == 0 {
      assert Gap(c, o, vel, 0) by {
        if o.adress {
          assert AtCount(Virtuals(c), 0) == 0;
        }
      }
    }
    if Truthy(o.temperature) && |c.masses| > 0 {
      forall pid | 0 <= pid < n ensures !Gap(c, o, vel, pid) {
        if o.adress {
          AtCountBound(Virtuals(c), pid);
        }
      }
    }
  }

  /** Without a temperature no velocity is drawn: the list has no 'v'
      property and no record a velocity. */
  lemma NoTemperatureNoVelocities(c: ParticleInput, o: Options, vel: seq<Vec3>)
    requires Readable(c, o) && !Truthy(o.temperature)
    ensures var r := GenParticleListSpec(c, o, vel);
      && r.Ok?
      && "v" !in r.props
      && forall i | 0 <= i < |r.particles| :: r.particles[i].v.None?
  {
    VelocityFailure(c, o, vel);
    var r := GenParticleListSpec(c, o, vel);
    ParticlesLength(c, o, vel, |c.types|);
    forall i | 0 <= i < |r.particles| ensures r.particles[i].v.None? {
      ParticlesAt(c, o, vel, |c.types|, i);
    }
  }

  // ------------------------------------------------- the code as it is written

  /** genParticleList as written: `print(len(vx))` runs unconditionally, and
      `vx` is still None when no temperature is given. */
  ghost function GenParticleListAsWritten(c: ParticleInput, o: Options, vel: seq<Vec3>): Outcome
    requires Readable(c, o)
  {
    if !Truthy(o.temperature) then Failed(NoneHasNoLength) else GenParticleListSpec(c, o, vel)
  }

  /** Every call without a temperature fails as written, although the
      intended list is then well defined. */
  lemma AsWrittenFailsWithoutTemperature(c: ParticleInput, o: Options, vel: seq<Vec3>)
    requires Readable(c, o) && !Truthy(o.temperature)
    ensures GenParticleListAsWritten(c, o, vel) == Failed(NoneHasNoLength)
    ensures GenParticleListSpec(c, o, vel).Ok?
  {
    NoTemperatureNoVelocities(c, o, vel);
  }
}
