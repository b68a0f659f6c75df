/** The energy observables of setSystemAnalysis. After the temperature and
    kinetic-energy observables, every registered interaction gets a
    potential-energy observable, in sorted label order; it is shown in the
    system information exactly when no filter is given or one of the
    comma-separated filter tokens occurs in its label. */
module SystemAnalysis {
  import opened Topology
  import Sorting
  import Text

  datatype Measure<H> =
    | Temperature(types: seq<TypeId>)
    | KineticEnergy
    | PotentialEnergy(interaction: H)

  /** `system_analysis.add_observable(name, measure, shown)`. */
  datatype Observable<H> = Observable(name: string, measure: Measure<H>, shown: bool)

  /** `args.system_info_filter.split(',')`, or None when the option is absent
      or None (the AttributeError branch). */
  function FilterTokens(filter: Option<string>): Option<seq<string>> {
    match filter
    case None => None
    case Some(f) => Some(Text.Split(f, ','))
  }

  /** Some token occurs in the label. */
  predicate AnyTokenIn(tokens: seq<string>, lbl: string) {
    exists k | 0 <= k < |tokens| :: Text.IsSubstring(tokens[k], lbl)
  }

  /** The scan over the filter tokens that decides `show_in_system_info`. */
  method ShowInSystemInfo(tokens: Option<seq<string>>, lbl: string) returns (show: bool)
    ensures show <==> tokens.None? || tokens.value == [] || AnyTokenIn(tokens.value, lbl)
  {
    show := true;
    if tokens.Some? && tokens.value != [] {
      show := false;
      var i := 0;
      while i < |tokens.value|
        invariant i <= |tokens.value|
        invariant !show
        invariant forall k | 0 <= k < i :: !Text.IsSubstring(tokens.value[k], lbl)
      {
        if Text.IsSubstring(tokens.value[i], lbl) {
          show := true;
          break;
        }
        i := i + 1;
      }
    }
  }

  /** The labels in sorted order. */
  ghost function SortedLabels<H>(interactions: map<string, H>): seq<string> {
    Text.StrLessStrictTotal(interactions.Keys);
    Sorting.SortedSeq(interactions.Keys, Text.StrLess)
  }

  /** The potential-energy observables for the labels `labels`. */
  function EnergyObservables<H>(interactions: map<string, H>, tokens: Option<seq<string>>,
                                labels: seq<string>): seq<Observable<H>>
    requires forall k | 0 <= k < |labels| :: labels[k] in interactions
  {
    if labels == [] then []
    else
      var lbl := labels[|labels| - 1];
      EnergyObservables(interactions, tokens, labels[..|labels| - 1])
      + [Observable(lbl, PotentialEnergy(interactions[lbl]),
                    tokens.None? || tokens.value == [] || AnyTokenIn(tokens.value, lbl))]
  }

  /** The temperature and kinetic-energy observables, always shown. */
  function Head<H>(particleTypes: seq<TypeId>): seq<Observable<H>> {
    [Observable("T", Temperature(particleTypes), true), Observable("Ekin", KineticEnergy, true)]
  }

  ghost function SystemAnalysisSpec<H>(particleTypes: seq<TypeId>, filter: Option<string>,
                                       interactions: map<string, H>): seq<Observable<H>>
  {
    Head(particleTypes) + EnergyObservables(interactions, FilterTokens(filter), SortedLabels(interactions))
  }

  lemma SpecUnfold<H>(particleTypes: seq<TypeId>, filter: Option<string>, interactions: map<string, H>,
                      labels: seq<string>)
    requires labels == SortedLabels(interactions)
    requires forall k | 0 <= k < |labels| :: labels[k] in interactions
    ensures SystemAnalysisSpec(particleTypes, filter, interactions)
         == Head(particleTypes) + EnergyObservables(interactions, FilterTokens(filter), labels)
  {
  }

  lemma SortedLabelsMembers<H>(interactions: map<string, H>) returns (labels: seq<string>)
    ensures labels == SortedLabels(interactions)
    ensures |labels| == |interactions.Keys|
    ensures forall k | 0 <= k < |labels| :: labels[k] in interactions
    ensures forall l | l in interactions :: l in labels
  {
    Text.StrLessStrictTotal(interactions.Keys);
    labels := Sorting.SortedSeq(interactions.Keys, Text.StrLess);
  }

  lemma SortedLabelsOrdered<H>(interactions: map<string, H>) returns (labels: seq<string>)
    ensures labels == SortedLabels(interactions)
    ensures forall k | 0 <= k < |labels| :: labels[k] in interactions
    ensures forall i, j | 0 <= i < j < |labels| :: Text.StrLess(labels[i], labels[j])
  {
    Text.StrLessStrictTotal(interactions.Keys);
    labels := Sorting.SortedSeq(interactions.Keys, Text.StrLess);
  }

  method SortedInteractionLabels<H>(interactions: map<string, H>) returns (labels: seq<string>)
    ensures labels == SortedLabels(interactions)
    ensures forall k | 0 <= k < |labels| :: labels[k] in interactions
  {
    Text.StrLessStrictTotal(interactions.Keys);
    labels := Sorting.SortSet(interactions.Keys, Text.StrLess);
  }

  /** setSystemAnalysis, with the engine's `getAllInteractions()` as
      `interactions`. */
  method SetSystemAnalysis<H>(particleTypes: seq<TypeId>, filter: Option<string>,
                              interactions: map<string, H>) returns (obs: seq<Observable<H>>)
    ensures obs == SystemAnalysisSpec(particleTypes, filter, interactions)
  {
    var tokens := FilterTokens(filter);
    var labels := SortedInteractionLabels(interactions);
    SpecUnfold(particleTypes, filter, interactions, labels);
    obs := AddEnergyObservables(Head(particleTypes), interactions, tokens, labels);
  }

  /** The loop over the sorted labels. */
  method AddEnergyObservables<H>(head: seq<Observable<H>>, interactions: map<string, H>,
                                 tokens: Option<seq<string>>, labels: seq<string>)
    returns (obs: seq<Observable<H>>)
    requires forall k | 0 <= k < |labels| :: labels[k] in interactions
    ensures obs == head + EnergyObservables(interactions, tokens, labels)
  {
    obs := head;
    var i := 0;
    while i < |labels|
      invariant i <= |labels|
      invariant obs == head + EnergyObservables(interactions, tokens, labels[..i])
    {
      var lbl := labels[i];
      var show := ShowInSystemInfo(tokens, lbl);
      EnergyObservablesStep(interactions, tokens, labels, i);
      obs := obs + [Observable(lbl, PotentialEnergy(interactions[lbl]), show)];
      i := i + 1;
    }
    assert labels[..|labels|] == labels;
  }

  lemma EnergyObservablesStep<H>(interactions: map<string, H>, tokens: Option<seq<string>>,
                                 labels: seq<string>, i: nat)
    requires forall k | 0 <= k < |labels| :: labels[k] in interactions
    requires i < |labels|
    ensures EnergyObservables(interactions, tokens, labels[..i + 1])
         == EnergyObservables(interactions, tokens, labels[..i])
            + [Observable(labels[i], PotentialEnergy(interactions[labels[i]]),
                          tokens.None? || tokens.value == [] || AnyTokenIn(tokens.value, labels[i]))]
  {
    assert labels[..i + 1][..i] == labels[..i];
  }

  // ------------------------------------------------------------------ lemmas

  lemma {:induction false} EnergyObservablesAt<H>(interactions: map<string, H>, tokens: Option<seq<string>>,
                                                 labels: seq<string>, i: nat)
    requires forall k | 0 <= k < |labels| :: labels[k] in interactions
    requires i < |labels|
    ensures |EnergyObservables(interactions, tokens, labels)| == |labels|
    ensures EnergyObservables(interactions, tokens, labels)[i]
         == Observable(labels[i], PotentialEnergy(interactions[labels[i]]),
                       tokens.None? || tokens.value == [] || AnyTokenIn(tokens.value, labels[i]))
  {
    var init := labels[..|labels| - 1];
    if i < |init| {
      EnergyObservablesAt(interactions, tokens, init, i);
    } else if init != [] {
      EnergyObservablesAt(interactions, tokens, init, 0);
    }
  }

  lemma {:induction false} EnergyObservablesLength<H>(interactions: map<string, H>, tokens: Option<seq<string>>,
                                                     labels: seq<string>)
    requires forall k | 0 <= k < |labels| :: labels[k] in interactions
    ensures |EnergyObservables(interactions, tokens, labels)| == |labels|
  {
    if labels != [] {
      EnergyObservablesLength(interactions, tokens, labels[..|labels| - 1]);
    }
  }

  /** After 'T' and 'Ekin', one potential-energy observable per interaction,
      of that interaction. */
  lemma ObservablesPerInteraction<H>(particleTypes: seq<TypeId>, filter: Option<string>,
                                     interactions: map<string, H>)
    ensures var obs := SystemAnalysisSpec(particleTypes, filter, interactions);
      && |obs| == 2 + |interactions|
      && obs[0] == Observable("T", Temperature(particleTypes), true)
      && obs[1] == Observable("Ekin", KineticEnergy, true)
      && (forall l | l in interactions :: exists i | 2 <= i < |obs| :: obs[i].name == l)
      && (forall i | 2 <= i < |obs| ::
            obs[i].name in interactions && obs[i].measure == PotentialEnergy(interactions[obs[i].name]))
  {
    var labels := SortedLabelsMembers(interactions);
    SpecUnfold(particleTypes, filter, interactions, labels);
    PerInteractionOf(particleTypes, filter, interactions, labels);
  }

  lemma PerInteractionOf<H>(particleTypes: seq<TypeId>, filter: Option<string>,
                            interactions: map<string, H>, labels: seq<string>)
    requires |labels| == |interactions.Keys|
    requires forall k | 0 <= k < |labels| :: labels[k] in interactions
    requires forall l | l in interactions :: l in labels
    ensures var obs := Head(particleTypes) + EnergyObservables(interactions, FilterTokens(filter), labels);
      && |obs| == 2 + |interactions|
      && obs[0] == Observable("T", Temperature(particleTypes), true)
      && obs[1] == Observable("Ekin", KineticEnergy, true)
      && (forall l | l in interactions :: exists i | 2 <= i < |obs| :: obs[i].name == l)
      && (forall i | 2 <= i < |obs| ::
            obs[i].name in interactions && obs[i].measure == PotentialEnergy(interactions[obs[i].name]))
  {
    var tokens := FilterTokens(filter);
    EnergyObservablesLength(interactions, tokens, labels);
    var obs := Head(particleTypes) + EnergyObservables(interactions, tokens, labels);
    forall i | 2 <= i < |obs|
      ensures obs[i].name == labels[i - 2] && obs[i].measure == PotentialEnergy(interactions[labels[i - 2]])
    {
      EnergyObservablesAt(interactions, tokens, labels, i - 2);
    }
    forall l | l in interactions ensures exists i | 2 <= i < |obs| :: obs[i].name == l {
      var k :| 0 <= k < |labels| && labels[k] == l;
      assert obs[k + 2].name == l;
    }
  }

  /** The potential-energy observables come in strictly increasing label
      order. */
  lemma LabelOrderOf<H>(particleTypes: seq<TypeId>, filter: Option<string>,
                                   interactions: map<string, H>, labels: seq<string>)
    requires forall k | 0 <= k < |labels| :: labels[k] in interactions
    requires forall i, j | 0 <= i < j < |labels| :: Text.StrLess(labels[i], labels[j])
    ensures var obs := Head(particleTypes) + EnergyObservables(interactions, FilterTokens(filter), labels);
      forall i, j | 2 <= i < j < |obs| :: Text.StrLess(obs[i].name, obs[j].name)
  {
    var tokens := FilterTokens(filter);
    EnergyObservablesLength(interactions, tokens, labels);
    var obs := Head(particleTypes) + EnergyObservables(interactions, tokens, labels);
    forall i | 2 <= i < |obs| ensures obs[i].name == labels[i - 2] {
      EnergyObservablesAt(interactions, tokens, labels, i - 2);
    }
  }

  lemma ObservablesInLabelOrder<H>(particleTypes: seq<TypeId>, filter: Option<string>,
                                   interactions: map<string, H>)
    ensures var obs := SystemAnalysisSpec(particleTypes, filter, interactions);
      forall i, j | 2 <= i < j < |obs| :: Text.StrLess(obs[i].name, obs[j].name)
  {
    var labels := SortedLabelsOrdered(interactions);
    SpecUnfold(particleTypes, filter, interactions, labels);
    LabelOrderOf(particleTypes, filter, interactions, labels);
  }

  /** A label is shown exactly when no filter is given or some token of the
      comma-split filter occurs in it. */
  lemma ShownIff<H>(particleTypes: seq<TypeId>, filter: Option<string>, interactions: map<string, H>, i: nat)
    requires 2 <= i < 2 + |interactions|
    ensures var obs := SystemAnalysisSpec(particleTypes, filter, interactions);
      i < |obs| && (obs[i].shown <==> filter.None? || AnyTokenIn(Text.Split(filter.value, ','), obs[i].name))
  {
    var labels := SortedLabelsMembers(interactions);
    SpecUnfold(particleTypes, filter, interactions, labels);
    ShownOf(particleTypes, filter, interactions, labels, i);
  }

  lemma ShownOf<H>(particleTypes: seq<TypeId>, filter: Option<string>, interactions: map<string, H>,
                   labels: seq<string>, i: nat)
    requires forall k | 0 <= k < |labels| :: labels[k] in interactions
    requires 2 <= i < 2 + |labels|
    ensures var obs := Head(particleTypes) + EnergyObservables(interactions, FilterTokens(filter), labels);
      i < |obs| && (obs[i].shown <==> filter.None? || AnyTokenIn(Text.Split(filter.value, ','), obs[i].name))
  {
    EnergyObservablesLength(interactions, FilterTokens(filter), labels);
    EnergyObservablesAt(interactions, FilterTokens(filter), labels, i - 2);
  }

  /** A filter with an empty token, such as one ending in a comma, shows
      every label, since the empty string occurs in every label. */
  lemma EmptyTokenShowsAll(tokens: seq<string>, lbl: string)
    requires "" in tokens
    ensures AnyTokenIn(tokens, lbl)
  {
    var k :| 0 <= k < |tokens| && tokens[k] == "";
    Text.EmptyIsSubstring(lbl);
    assert Text.IsSubstring(tokens[k], lbl);
  }
}
