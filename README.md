# AdResSLab simulation set-up rules, in Dafny

AdResSLab prepares ESPResSo++ simulations from GROMACS topologies, with
adaptive resolution (AdResS). In an AdResS system each coarse-grained
"virtual" particle (particle type `'V'`) stands for a group of atomistic
particles.

This project models the decisions the set-up helpers of
`adresslab/tools_sim.py` and `adresslab/tools_adress.py` make before they
call the engine:

- which pairs of atom types get a Lennard-Jones or a tabulated potential,
  and with which parameters;
- how the particle list and the AdResS tuples are built;
- how 1-4 pairs are split into static, coarse-grained-cross and
  atomistic-cross buckets;
- how bonded, 1-4 and Coulomb interactions are named;
- which energy observables are shown in the system information;
- how id tuples are renumbered;
- which atom types receive the thermodynamic force.

The engine is abstracted away. Every call into it becomes an entry in a log
that the operation returns:

- `setPotential*` calls are `NonBonded.Setting` values;
- `system.addInteraction` calls are `Registration` values;
- `add_observable` calls are `SystemAnalysis.Observable` values;
- `addForce` calls are `ThermodynamicForce.ForceCall` values.

Python 2 dictionaries and sets are visited in an order the program does not
choose. Each loop over one first takes the keys in some order
(`Sorting.Enumerate`, which promises only that every key is visited exactly
once). The operation then returns that order as a ghost value, and its
result is specified as a function of the order. The lemmas state what holds
for every order. Python's `sorted` is `Sorting.SortSet`, proved equal to the
strictly increasing sequence of the set (`Sorting.SortedSeq`), which is
unique (`Sorting.SortedSeqUnique`).

Modules, one per concern:

- `Topology`: atom-type records and type pairs.
- `Sorting`: enumeration and sorting of sets.
- `Text`: `str(n)`, string order, `split(',')`, substring test and
  interaction labels.
- `NonBonded`: setLennardJonesInteractions and setTabulatedInteractions.
- `ParticleList`: genParticleList.
- `PairInteractions`: setPairInteractions.
- `Bonded`: setBondedInteractions, setAngleInteractions and
  setDihedralInteractions.
- `SystemAnalysis`: the observable loop of setSystemAnalysis.
- `Renumber`: renumber_list.
- `ThermodynamicForce`: set_single_th_force.

## Model

| member | source | states |
|---|---|---|
| NonBonded.CollectTypePairs | adresslab/tools_sim.py:110-117 | the nested loops over the atom types collect exactly the normalised pairs the selection accepts, whatever order the keys come in |
| NonBonded.PairsWhereMembership | adresslab/tools_sim.py:110-117 | for a symmetric selection, `(t1, t2)` is collected iff `t1 <= t2`, both types exist and the selection accepts them |
| NonBonded.LennardJonesPairs | adresslab/tools_sim.py:113-117 | a pair is a Lennard-Jones pair iff it is normalised, neither type is `'V'`, and the two types are not both in `table_groups` by `atnum` or by `atname` |
| NonBonded.PairLessStrictTotal | adresslab/tools_sim.py:119 | tuple order on type pairs is a strict total order, so `sorted` yields each pair once |
| NonBonded.SetLennardJonesInteractions | adresslab/tools_sim.py:110-152 | the result is None when no pair is selected; otherwise it is the calls made for the sorted pairs |
| NonBonded.RegisterLennardJones | adresslab/tools_sim.py:125-151 | the registration loop makes, in order, the call of each pair of the sorted list that has one |
| NonBonded.VisitPair | adresslab/tools_sim.py:126-151 | one pair: skipped when a type is `'V'`; otherwise a call with the pair's cross parameters, made only when both are positive |
| NonBonded.LennardJonesNone | adresslab/tools_sim.py:119-122 | the function returns None iff no pair of types passes the Lennard-Jones selection |
| NonBonded.LennardJonesRegistered | adresslab/tools_sim.py:131-151 | a call for `(t1, t2)` exists iff the pair is selected and its cross parameters are both positive; the call uses those parameters and the AT setter iff `ftpl` is given |
| NonBonded.SettingsFor | adresslab/tools_sim.py:125-151 | for any pair list, a pair has a call iff it is in the list and has a call of its own, and every call for it is that call |
| NonBonded.LJSettingsSound | adresslab/tools_sim.py:125-151 | every call made by the loop is the call of one of the listed pairs |
| NonBonded.LJSettingsComplete | adresslab/tools_sim.py:125-151 | every listed pair that has a call gets it |
| NonBonded.LJSettingsOrdered | adresslab/tools_sim.py:125-151 | over strictly increasing pairs the calls come in strictly increasing pair order |
| NonBonded.LennardJonesOrdered | adresslab/tools_sim.py:119-151 | the calls come in strictly increasing pair order, so no pair is set twice |
| NonBonded.VirtualSkipUnreachable | adresslab/tools_sim.py:128-130 | for a selected pair the `'V'` check in the loop never skips it; the call is made iff the cross parameters are positive |
| NonBonded.ExplicitParamsPrecedence | adresslab/tools_sim.py:131-143 | a truthy `nonbonded_params[(t1, t2)]` entry gives the cross parameters; without one they are the combination rule's |
| NonBonded.SetTabulatedInteractions | adresslab/tools_sim.py:169-198 | the result is None iff no pair is selected; the `atnum` lookup fails iff some selected pair has a type without `atnum`; otherwise one CG call per selected pair, in the visiting order |
| NonBonded.TabulatedPair | adresslab/tools_sim.py:181-197 | the call for one pair orders its types by `atnum` and names the table after the two `atnum`s |
| NonBonded.TabulatedPairs | adresslab/tools_sim.py:169-176 | a pair is tabulated iff it is normalised and its types are both `'V'` or both in `table_groups` |
| NonBonded.TabulatedSettingShape | adresslab/tools_sim.py:181-197 | each tabulated call sets the CG potential of the pair's two types, the smaller `atnum` first, from `table_{atnum1}_{atnum2}.pot` with linear interpolation |
| NonBonded.NonBondedPartition | adresslab/tools_sim.py:113-176 | no pair is selected by both functions; a pair of atomistic types is selected by exactly one; a pair with a `'V'` type is never selected for Lennard-Jones |
| NonBonded.LJCalledIff | adresslab/tools_sim.py:119-151 | a pair gets a Lennard-Jones call iff it is selected and its cross parameters are both positive, also when no pair is selected |
| NonBonded.TabCalledIff | adresslab/tools_sim.py:169-197 | when the tabulated loop runs to the end, a normalised pair gets a tabulated call, in either type order, iff it is selected |
| NonBonded.NonBondedPotentials | adresslab/tools_sim.py:113-197 | no pair gets both a Lennard-Jones and a tabulated call; an atomistic pair gets a Lennard-Jones call iff it is not tabulated and its cross parameters are positive, so a non-tabulated pair with `eps` 0 gets neither; a pair with a `'V'` type gets no Lennard-Jones call |
| NonBonded.CrossParams | adresslab/tools_sim.py:131-143 | defines a pair's cross parameters: a truthy `nonbonded_params[(t1, t2)]` entry, else the combination rule (`combinationrule` 2 or the other) over the two types' own `sig` and `eps` |
| NonBonded.LJSetting | adresslab/tools_sim.py:126-151 | defines the call for one sorted pair: none if a type is `'V'` or a cross parameter is not positive, else `setPotentialAT` (with `ftpl`) or `setPotential` with the cross parameters |
| NonBonded.TableName | adresslab/tools_sim.py:187 | defines `'table_{}_{}.pot'.format(name_1, name_2)` |
| NonBonded.TabSetting | adresslab/tools_sim.py:181-197 | defines the call for one tabulated pair: none when a type has no `atnum` (the KeyError), else `setPotentialCG` with the types in stable `atnum` order, itype 1 and the table named after the two `atnum`s |
| Sorting.Enumerate | adresslab/tools_sim.py:111 | the keys of a dict are taken in an order that visits each exactly once |
| Sorting.SortSet | adresslab/tools_sim.py:119 | `sorted` of a set under a strict total order is its unique strictly increasing sequence |
| Sorting.SortedSeqUnique | adresslab/tools_sim.py:119 | any strictly increasing sequence holding exactly the elements of a set is `SortedSeq` of it, so `sorted` has one possible result |
| Sorting.FindMin | adresslab/tools_sim.py:119 | one pass over a non-empty set finds its least element |
| Text.Label | adresslab/tools_sim.py:327 | an interaction label starts with its prefix |
| Text.LabelInjective | adresslab/tools_sim.py:385-386 | two groups get the same label only if they have the same id and cross flag |
| Text.ParseNatToString | adresslab/tools_sim.py:327 | `str(n)` of a non-negative integer reads back as `n` |
| Text.Split | adresslab/tools_sim.py:60 | `split(',')` gives at least one part, no part holds a comma, and joining the parts with commas gives the string back |
| Text.SplitJoin | adresslab/tools_sim.py:60 | splitting the comma-join of comma-free parts gives the parts back |
| Text.StrLessStrictTotal | adresslab/tools_sim.py:64 | Python's string order is a strict total order, so sorted labels are distinct and increasing |
| Text.EmptyIsSubstring | adresslab/tools_sim.py:69 | the empty string occurs in every label |
| Text.NatToString | adresslab/tools_sim.py:327 | defines `str(n)` of a non-negative integer; its result is a non-empty string of decimal digits |
| Text.StrLess | adresslab/tools_sim.py:64 | defines Python 2's `<` on strings: character by character, a proper prefix first |
| Text.IsSubstring | adresslab/tools_sim.py:69 | defines `v in label`: `v` occurs in `label` at some position |
| ParticleList.GenParticleList | adresslab/tools_sim.py:201-280 | builds the property names, the records and, in an AdResS run, the tuples exactly as the intended specification says |
| ParticleList.AdressParticles | adresslab/tools_sim.py:228-263 | the AdResS loop: records with `adrat`, velocities indexed by `at_id`, tuples flushed at each `'V'` particle and at the end |
| ParticleList.PlainParticles | adresslab/tools_sim.py:264-280 | the plain loop: records without `adrat`, velocities indexed by particle |
| ParticleList.ParticleFields | adresslab/tools_sim.py:228-279 | particle `i` gets id `i+1`, its type and position, `adrat` 0 iff it is `'V'`, and the velocity at `at_id` (AdResS) or `i` |
| ParticleList.PropsMatchParticles | adresslab/tools_sim.py:213-230 | every record carries exactly the fields the property list names, in the order `id, type, pos, [mass], [q], [v], [adrat]` |
| ParticleList.AtCountRank | adresslab/tools_sim.py:244-258 | each atomistic particle reads its own velocity: `at_id` is strictly larger at every later particle and never exceeds the index |
| ParticleList.AtCountBound | adresslab/tools_sim.py:258 | `at_id` never exceeds the particle index |
| ParticleList.FirstGapIsFirst | adresslab/tools_sim.py:244-249 | the failing velocity lookup, if any, is the first particle whose index lies beyond the velocity list |
| ParticleList.FirstGapStays | adresslab/tools_sim.py:244-249 | once a lookup fails, later particles do not change the failure |
| ParticleList.ScanRun | adresslab/tools_sim.py:250-258 | `tmptuple` is always the run of atomistic ids since the last `'V'` particle |
| ParticleList.ScanTuples | adresslab/tools_sim.py:250-254 | every tuple flushed at a `'V'` particle is its id followed by the run right before it |
| ParticleList.ScanRunEnd | adresslab/tools_sim.py:252-262 | the pending run is non-empty iff the last particle seen is atomistic |
| ParticleList.ScanCover | adresslab/tools_sim.py:250-258 | the flushed tuples and the pending run hold each covered id exactly once |
| ParticleList.AdressTuplesShape | adresslab/tools_sim.py:250-262 | every tuple is a `'V'` id followed by its run, except possibly the last, which is the trailing run |
| ParticleList.AdressTuplesCover | adresslab/tools_sim.py:250-262 | the tuples hold every atomistic id once and a `'V'` id once exactly when the particle before it is atomistic |
| ParticleList.IdCount | adresslab/tools_sim.py:250-262 | each id occurs in the tuples once or not at all, by that rule |
| ParticleList.ParticlesAt | adresslab/tools_sim.py:237-259 | the record list has one record per particle, the `i`-th being particle `i`'s |
| ParticleList.ParticlesLength | adresslab/tools_sim.py:226-259 | one record per particle |
| ParticleList.VelocityFailure | adresslab/tools_sim.py:221-249 | a velocity lookup fails iff a temperature is given, there are particles, and the topology has no masses |
| ParticleList.NoTemperatureNoVelocities | adresslab/tools_sim.py:220-224 | without a temperature the intended list builds, with no `v` property and no velocities |
| ParticleList.AsWrittenFailsWithoutTemperature | adresslab/tools_sim.py:220-224 | as written, every call without a temperature fails on `len(None)` |
| ParticleList.Props | adresslab/tools_sim.py:213-229 | defines the property names: `id, type, pos`, then `mass` if masses exist, `q` if charges are used and exist, `v` if a temperature is given, `adrat` in an AdResS run |
| ParticleList.ParticleAt | adresslab/tools_sim.py:237-259 | defines particle `pid`'s record: id `pid+1`, type, position, the optional mass, charge and velocity, and `adrat` 0 for `'V'` and 1 otherwise in an AdResS run |
| ParticleList.Scan | adresslab/tools_sim.py:250-258 | defines the tuples flushed and the pending `tmptuple` after the first `n` particles |
| ParticleList.AdressTuples | adresslab/tools_sim.py:250-262 | defines `adress_tuple`: the flushed tuples, then the pending run if it is not empty |
| ParticleList.GenParticleListAsWritten | adresslab/tools_sim.py:220-224 | defines genParticleList as written: every call without a temperature fails on `len(None)` |
| PairInteractions.SetPairInteractions | adresslab/tools_sim.py:283-369 | the registrations are the LJ-14 ones of the groups in visiting order, then one Coulomb-14 per non-empty bucket over the sorted atomistic type pairs; no two share a label, and a bucket's Coulomb-14 label is registered iff some group belongs to the bucket |
| PairInteractions.VisitGroups | adresslab/tools_sim.py:293-327 | the loop leaves each bucket as the concatenation of its groups' pair lists, non-empty iff some group belongs to it, and registers exactly the LJ-14 interactions of the groups with positive parameters |
| PairInteractions.PairInteractionsFacts | adresslab/tools_sim.py:293-369 | for any visiting order, the labels are unique and each Coulomb-14 label is registered iff some group belongs to its bucket |
| PairInteractions.CoulombGroups | adresslab/tools_sim.py:303-369 | a bucket's Coulomb-14 label is registered iff some group of the topology belongs to the bucket |
| PairInteractions.BucketGroups | adresslab/tools_sim.py:293-309 | after the loop a bucket is non-empty iff some group of the topology belongs to it |
| PairInteractions.LJ14Groups | adresslab/tools_sim.py:293-327 | after the loop the LJ-14 registrations are exactly those of the groups with positive parameters |
| PairInteractions.VisitGroup | adresslab/tools_sim.py:294-327 | one group: its pairs extend its bucket, and its LJ-14 interaction is registered when both parameters are positive |
| PairInteractions.SortedAtomisticPairs | adresslab/tools_sim.py:331-337 | the Coulomb-14 type pairs are the sorted pairs of non-`'V'` types |
| PairInteractions.RegisterCoulomb14 | adresslab/tools_sim.py:330-369 | one Coulomb-14 registration per non-empty bucket, in the order static, CG cross, AT cross |
| PairInteractions.AddCoulomb14 | adresslab/tools_sim.py:341-369 | the three conditional registrations under `coulomb14`, `coulomb14_cg_cross` and `coulomb14_at_cross` |
| PairInteractions.CoulombNames | adresslab/tools_sim.py:348-369 | the Coulomb-14 labels start with 'c' and are pairwise distinct |
| PairInteractions.BucketIsConcatenation | adresslab/tools_sim.py:303-309 | each bucket is the concatenation, in visiting order, of the pair lists of exactly its groups |
| PairInteractions.BucketsPartition | adresslab/tools_sim.py:303-309 | the three buckets together hold every pair of every group exactly as often as the groups do |
| PairInteractions.GroupBucket | adresslab/tools_sim.py:295-309 | a group is in the CG-cross bucket iff its first particle is `'V'`, else in the AT-cross bucket iff it is a cross group, else static, and in no other |
| PairInteractions.BucketNonEmpty | adresslab/tools_sim.py:303-309 | a bucket is non-empty iff some visited group belongs to it |
| PairInteractions.CoulombRegistered | adresslab/tools_sim.py:330-369 | a bucket's Coulomb-14 label is registered iff some group belongs to the bucket, and it then holds that bucket's pairs |
| PairInteractions.CoulombIn | adresslab/tools_sim.py:341-369 | the Coulomb-14 registration of a bucket is there iff its list is non-empty, and it holds that list |
| PairInteractions.NamesAfterLJ14 | adresslab/tools_sim.py:327-369 | a Coulomb label cannot collide with an LJ-14 label, so it is found only among the Coulomb-14 registrations |
| PairInteractions.LJ14NamesStartWithL | adresslab/tools_sim.py:327 | every LJ-14 label starts with `lj-14_` |
| PairInteractions.LJ14Registered | adresslab/tools_sim.py:314-327 | `lj-14_{pid}` (with `_cross` iff a cross group) is registered for a visited group iff its `sig` and `eps` are positive |
| PairInteractions.LJ14Included | adresslab/tools_sim.py:314-327 | a visited group with positive parameters has its registration |
| PairInteractions.LJ14Labels | adresslab/tools_sim.py:314-327 | every LJ-14 registration is that of a visited group |
| PairInteractions.LJ14Distinct | adresslab/tools_sim.py:327 | no two LJ-14 registrations share a label |
| PairInteractions.LabelsDistinct | adresslab/tools_sim.py:327-369 | no two registrations of setPairInteractions share a label, so none replaces another |
| PairInteractions.BucketOf | adresslab/tools_sim.py:303-309 | defines a group's bucket: CG cross when its first particle is `'V'`, else AT cross for a cross group, else static |
| PairInteractions.LJ14 | adresslab/tools_sim.py:314-327 | defines a group's LJ-14 registration: none unless `sig` and `eps` are positive, else `lj-14_{pid}[_cross]` over its pairs, on an AdResS pair list iff not CG and `ftpl` is given, with `is_cg` only for a cross group |
| PairInteractions.Coulomb14s | adresslab/tools_sim.py:341-369 | defines the Coulomb-14 registrations: `coulomb14`, `coulomb14_cg_cross`, `coulomb14_at_cross`, each present iff its bucket is non-empty, each over the sorted atomistic type pairs |
| Bonded.SetBondedTerms | adresslab/tools_sim.py:371-389 | one registration per group whose interaction was created, named after the group; the returned map holds exactly those groups with their interactions |
| Bonded.VisitGroup | adresslab/tools_sim.py:376-387 | one group: when the parameter object creates an interaction, it is registered and stored under the group |
| Bonded.ReturnedFacts | adresslab/tools_sim.py:384-387 | after the loop the map's keys are exactly the groups whose interaction was created, each mapped to it |
| Bonded.ReturnedOf | adresslab/tools_sim.py:384-387 | after visiting a prefix, the map holds the visited groups whose interaction was created |
| Bonded.RegistrationsFrom | adresslab/tools_sim.py:383-386 | each registration is a visited group's created interaction under that group's name |
| Bonded.RegistrationsInclude | adresslab/tools_sim.py:383-386 | each visited group whose interaction was created is registered |
| Bonded.NameRegistered | adresslab/tools_sim.py:383-387 | `bond_{id}` (with `_cross` iff a cross group) is registered iff the group's interaction was created, and with that interaction |
| Bonded.NamesDistinct | adresslab/tools_sim.py:385-386 | no two bonded registrations share a name |
| SystemAnalysis.ShowInSystemInfo | adresslab/tools_sim.py:65-71 | a label is shown iff there is no filter or some filter token occurs in it |
| SystemAnalysis.SetSystemAnalysis | adresslab/tools_sim.py:51-74 | 'T' and 'Ekin', then one potential-energy observable per interaction in sorted label order, each with its show flag |
| SystemAnalysis.AddEnergyObservables | adresslab/tools_sim.py:64-74 | the loop over the sorted labels adds one observable per label |
| SystemAnalysis.SortedInteractionLabels | adresslab/tools_sim.py:64 | the labels of all interactions, in sorted order |
| SystemAnalysis.EnergyObservablesAt | adresslab/tools_sim.py:72-74 | the `i`-th energy observable measures the `i`-th label's interaction, with that label's show flag |
| SystemAnalysis.EnergyObservablesLength | adresslab/tools_sim.py:64-74 | one energy observable per label |
| SystemAnalysis.ObservablesPerInteraction | adresslab/tools_sim.py:51-74 | after 'T' and 'Ekin' every interaction has an observable of its own potential energy, and there are no others |
| SystemAnalysis.ObservablesInLabelOrder | adresslab/tools_sim.py:64 | the energy observables come in strictly increasing label order |
| SystemAnalysis.ShownIff | adresslab/tools_sim.py:59-71 | an observable is shown iff no filter is given or some comma-separated token occurs in its label |
| SystemAnalysis.EmptyTokenShowsAll | adresslab/tools_sim.py:66-71 | a filter with an empty token (one ending in a comma, say) shows every label |
| SystemAnalysis.FilterTokens | adresslab/tools_sim.py:59-62 | defines the filter: `split(',')` of the option, or None when it is absent (the AttributeError branch) |
| SystemAnalysis.Head | adresslab/tools_sim.py:52-57 | defines the first two observables, `T` over the given particle types and `Ekin`, both shown |
| Renumber.RenumberIsFilterThenMap | adresslab/tools_sim.py:440-441 | the result keeps, in input order, exactly the tuples whose ids are all mapped, each renumbered id by id |
| Renumber.RenumberMembership | adresslab/tools_sim.py:440-441 | a tuple is in the result iff it renumbers an input tuple whose ids are all mapped |
| Renumber.RenumberKeepsAll | adresslab/tools_sim.py:440-441 | nothing is dropped iff every tuple's ids are all mapped |
| Renumber.RenumberAllMapped | adresslab/tools_sim.py:440-441 | when every id is mapped, each tuple is renumbered in place and none is dropped |
| Renumber.RenumberList | adresslab/tools_sim.py:440-441 | the result is never longer than the input |
| Renumber.RelabelComplete | adresslab/tools_sim.py:440-441 | a relabelled tuple holds no None iff all its ids are mapped, and then holds the mapped ids |
| Renumber.Kept | adresslab/tools_sim.py:441 | the kept tuples are input tuples whose ids are all mapped |
| Renumber.KeptMembership | adresslab/tools_sim.py:441 | a tuple is kept iff it is an input tuple whose ids are all mapped |
| Renumber.MapIds | adresslab/tools_sim.py:440 | renumbering keeps a tuple's arity |
| Renumber.RenumberRoundTrip | adresslab/tools_sim.py:430-441 | renumbering with a map and then with its inverse gives back the kept tuples |
| Renumber.Relabel | adresslab/tools_sim.py:440 | defines `map(old2new_ids.get, t)`: the new id of each old id, or None, keeping the arity |
| Renumber.KeepComplete | adresslab/tools_sim.py:441 | defines `[p for p in new_list if None not in p]`, never longer than its input |
| ThermodynamicForce.SetSingleThForce | adresslab/tools_adress.py:22-26 | every `'V'` type gets exactly one `addForce` call and no other type gets one; every call has `itype` 3 and file `tf_new` |
| ThermodynamicForce.VisitType | adresslab/tools_adress.py:25-26 | one type: a call for it iff its particle type is `'V'` |
| ThermodynamicForce.CallsFacts | adresslab/tools_adress.py:24-26 | after visiting every type: all calls use `itype` 3 and `tf_new`, the called types are exactly the `'V'` types, and none is called twice |
| ThermodynamicForce.CallsShape | adresslab/tools_adress.py:26 | every call uses `itype` 3 and `tf_new` |
| ThermodynamicForce.CallsAreVirtualOf | adresslab/tools_adress.py:24-26 | every call is for a visited `'V'` type, and no type is called twice |
| ThermodynamicForce.CallsIncludeVirtual | adresslab/tools_adress.py:24-26 | every visited `'V'` type is called |
| ThermodynamicForce.CallCount | adresslab/tools_adress.py:24-26 | in any visiting order there are as many calls as `'V'` types |
| ThermodynamicForce.NoVirtualNoCalls | adresslab/tools_adress.py:25-26 | without `'V'` types no force is added |

## Left out

- Engine objects (verlet lists, fixed tuple lists, interactions, potentials, the system monitor, the thermodynamic force object) are not built. The operations return the log of the calls they would make.
- The combination-rule arithmetic (`0.5*(s1+s2)`, square roots) is a pair of arbitrary functions in `NonBonded.Mixing`. Floating-point numerics are not modelled, and `sig`/`eps` are `real`.
- Cutoffs, the shift, the Coulomb prefactor `138.935485 * fudgeQQ` and the `print` output carry no decisions and are not modelled.
- Maxwell-Boltzmann velocity generation is random and foreign. `ParticleList.GenParticleList` takes the velocity list as a parameter with one entry per mass, as the generator returns it.
- `os.path.exists`, the GROMACS table conversion and the CSV output path are file I/O. The `.xvg` name is not modelled.
- NonBonded.SetLennardJonesInteractions: does not model creating the interaction when none is passed in. The calls are returned instead.
- ParticleList.GenParticleList: requires what the topology and coordinate readers guarantee (`Readable`): one mass, charge, position and atom type per particle. The lookups that would fail otherwise are not modelled as errors.
- PairInteractions.SetPairInteractions: requires what the topology reader guarantees (`Consistent`): every group has parameters and at least one pair, and its first particle has a known type.
- Bonded.SetBondedTerms: requires that every group's parameter id is in the parameter table (`HasParams`), as the topology reader guarantees.
- The three bonded setters are one operation over a `Kind` (bond, angle, dihedral). They differ only in the tuple list they build and the label prefix.
- `createEspressoInteraction` is an arbitrary function from a parameter object and a tuple list to an optional interaction. Its truthiness is `Some`.
- `particletype` is a required field of an atom type. The `.get('particletype', 'A')` of the tabulated selection behaves the same, since `'A'` is not `'V'`.
- Atom-type keys (`TypeId`) are natural numbers, as GROMACS type indices are. This fixes the order of `tuple(sorted([t1, t2]))` and of `sorted(type_pairs)` to numeric order; string keys would sort differently.
- `atnum` and `atname` are strings, as the `table_groups` option they are compared with is a list of strings. The `atnum` sort of the tabulated pairs is therefore string order, in which `"10"` comes before `"6"`; numeric `atnum`s would sort differently.
- Python 2 string order is modelled as lexicographic order on characters. Byte strings and unicode are not distinguished.
- The order in which Python 2 visits a dict or a set is not modelled. Any order that visits every key once is allowed, and the operations return the order they used.
- NonBonded.SetTabulatedInteractions: reports only which type lacked an `atnum` in the pair where the loop stopped. It does not model the calls made before the `KeyError`.
- `adresslab/app_args.py` is an option table for a library parser and is not part of this model.

## Findings

| source | as written | input that shows it | evidently intended | confidence | as-written member | corrected member |
|---|---|---|---|---|---|---|
| adresslab/tools_sim.py:220-224 | `print(len(vx))` runs unconditionally, and `vx` is still None unless a temperature was given, so the call raises a TypeError | any call with `temperature=None` (the default) | print the length only when velocities were drawn; without a temperature the list builds with no velocities | not executed | ParticleList.AsWrittenFailsWithoutTemperature | ParticleList.NoTemperatureNoVelocities |
