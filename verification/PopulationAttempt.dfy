/** What one population policy binding comes to: its policy's PRODUCTION version, the window of
    its system, and the finding of the one on the other. */
module PopulationAttempt {
  import opened Wrappers
  import opened Schemas
  import opened Bindings
  import opened RegistryLookup
  import opened PopulationWindow
  import opened PopulationFindings
  import PluginRegistry
  import AdverseImpact

  type Parameters = map<string, AdverseImpact.Float>

  type PopulationBinding = Bindings.Binding<Parameters>

  datatype Window = Window(start: int, end: int)

  /** The window as a policy is given it; the classification snapshot marks each attribute of
      `direct`. */
  datatype PolicyInput = PolicyInput(systemId: string, window: Window, groups: seq<GroupCount>, direct: seq<string>,
                                     parameters: Parameters)

  /** Constructing a deployed policy and evaluating a window; None is an exception. */
  type PopulationPolicy = PolicyInput -> Option<PopulationFindings.Finding>

  /** What a run finds around it. `registrations(p)` are the rows of population policy family
      `p` in whatever order; `deployed` is the code this process has; `direct(s)` are the DIRECT
      attributes of the domain of system `s`, None when there is no such system; `query(s, a)` is
      what the counting query of an attribute answers; and storing a finding may fail for other
      reasons than its key being taken. */
  datatype Process = Process(
    registrations: string -> seq<Registration>,
    deployed: map<(string, string), PopulationPolicy>,
    direct: string -> Option<seq<string>>,
    query: (string, string) -> seq<GroupCount>,
    storeFails: PopulationBinding -> bool)

  datatype Attempt = NotRegistered | NotDeployed | Raises | Computes(finding: PopulationFindings.Finding)

  function QueryOf(p: Process, systemId: string): string -> seq<GroupCount> {
    name => p.query(systemId, name)
  }

  function InputFor(p: Process, w: Window, b: PopulationBinding, direct: seq<string>): PolicyInput {
    PolicyInput(b.pair.subject, w, GroupCountsOf(direct, QueryOf(p, b.pair.subject)), direct, b.config)
  }

  function AttemptOf(p: Process, w: Window, b: PopulationBinding): Attempt {
    match FirstProduction(p.registrations(b.pair.policyId))
    case None => NotRegistered
    case Some(r) =>
      if (r.pluginId, r.version) !in p.deployed then NotDeployed
      else
        match p.direct(b.pair.subject)
        case None => Raises
        case Some(direct) =>
          match p.deployed[(r.pluginId, r.version)](InputFor(p, w, b, direct))
          case None => Raises
          case Some(finding) => if p.storeFails(b) then Raises else Computes(finding)
  }

  /** The rows a run finds are those of this registry. */
  ghost predicate ReadsRegistry(p: Process, registry: PluginRegistry.Registry) {
    forall id :: ListsFamily(registry, PluginRegistry.POPULATION_POLICY, id, p.registrations(id))
  }

  predicate InProduction(registry: PluginRegistry.Registry, policyId: string, k: PluginRegistry.Key) {
    IsProduction(registry, PluginRegistry.POPULATION_POLICY, policyId, k)
  }

  /** Over the registry: a binding is skipped as unregistered exactly when its policy has no
      PRODUCTION version and as not deployed exactly when this process lacks the one it has;
      else that version decides. */
  lemma AttemptExactly(p: Process, registry: PluginRegistry.Registry, w: Window, b: PopulationBinding)
    requires ReadsRegistry(p, registry) && PluginRegistry.OneProduction(registry)
    ensures AttemptOf(p, w, b) == NotRegistered <==> !exists k :: InProduction(registry, b.pair.policyId, k)
    ensures forall k :: InProduction(registry, b.pair.policyId, k) ==>
              && (AttemptOf(p, w, b) == NotDeployed <==> (k.pluginId, k.version) !in p.deployed)
              && (forall f :: AttemptOf(p, w, b) == Computes(f) <==>
                    && (k.pluginId, k.version) in p.deployed && p.direct(b.pair.subject).Some? && !p.storeFails(b)
                    && p.deployed[(k.pluginId, k.version)](InputFor(p, w, b, p.direct(b.pair.subject).value))
                         == Some(f))
  {
    var rows := p.registrations(b.pair.policyId);
    assert ListsFamily(registry, PluginRegistry.POPULATION_POLICY, b.pair.policyId, rows);
    UniqueProductionFound(registry, PluginRegistry.POPULATION_POLICY, b.pair.policyId, rows);
    if FirstProduction(rows).Some? {
      assert InProduction(registry, b.pair.policyId,
                          RegisteredKey(PluginRegistry.POPULATION_POLICY, FirstProduction(rows).value));
    }
    assert forall k :: InProduction(registry, b.pair.policyId, k) ==>
        IsProduction(registry, PluginRegistry.POPULATION_POLICY, b.pair.policyId, k);
  }

  // ----- The four-fifths policy deployed -----

  /** What `AdverseImpact.Evaluate` says of the outcome for these groups and overrides. */
  ghost predicate ShowsDisparity(groups: seq<GroupCount>, parameters: Parameters) {
    exists name :: AdverseImpact.AttributeFlagged(groups, name, AdverseImpact.EffectiveGroupSize(parameters),
                                                  AdverseImpact.EffectiveThreshold(parameters))
  }

  /** The adverse impact ratio policy, as deployed: it does not raise, and its findings carry
      the window's system and bounds and the outcome evaluation gives. */
  ghost predicate IsFourFifths(policy: PopulationPolicy) {
    forall input ::
      && policy(input).Some?
      && policy(input).value.systemId == input.systemId
      && policy(input).value.windowStart == input.window.start && policy(input).value.windowEnd == input.window.end
      && (policy(input).value.outcome == FLAG <==> ShowsDisparity(input.groups, input.parameters))
  }

  /** Some policy is of this kind. */
  lemma SomeFourFifths()
    ensures exists policy :: IsFourFifths(policy)
  {
    ghost var policy := (input: PolicyInput) =>
      Some(PopulationFindings.Finding(
             "", "", "", input.systemId, input.window.start, input.window.end,
             if ShowsDisparity(input.groups, input.parameters) then FLAG else CLEAR, [], [], None, "", 0));
    assert IsFourFifths(policy);
  }

  /** The counting queries of one system answer over these events and this window. */
  ghost predicate CountsEvents(p: Process, w: Window, systemId: string, versions: map<string, string>,
                               es: seq<DecisionEvent>)
  {
    p.direct(systemId).Some? ==>
      Answers(Scope(versions, systemId, w.start, w.end), es, p.direct(systemId).value, QueryOf(p, systemId))
  }

  /** On the events: some DIRECT attribute of the binding's system has two values, each decided
      on often enough in the window, of which one falls short of the other; how often and how
      far is what the binding's parameters say. */
  ghost predicate FallsShortFor(direct: seq<string>, w: Window, b: PopulationBinding, versions: map<string, string>,
                                es: seq<DecisionEvent>)
  {
    exists name, size: nat, threshold ::
      && name in direct && size > 0
      && AdverseImpact.IsGroupSize(b.config, size) && AdverseImpact.IsThreshold(b.config, threshold)
      && AdverseImpact.Shortfall(Scope(versions, b.pair.subject, w.start, w.end), es, name, size, threshold)
  }

  lemma DisparityOnEvents(direct: seq<string>, query: string -> seq<GroupCount>, w: Window, b: PopulationBinding,
                          versions: map<string, string>, es: seq<DecisionEvent>)
    requires Answers(Scope(versions, b.pair.subject, w.start, w.end), es, direct, query)
    ensures ShowsDisparity(GroupCountsOf(direct, query), b.config) <==> FallsShortFor(direct, w, b, versions, es)
  {
    var scope := Scope(versions, b.pair.subject, w.start, w.end);
    var (groups, size) := (GroupCountsOf(direct, query), AdverseImpact.EffectiveGroupSize(b.config));
    var threshold := AdverseImpact.EffectiveThreshold(b.config);
    CountsExact(scope, es, direct, query);
    AdverseImpact.OverridesExactly(b.config);
    forall n: nat, t | AdverseImpact.IsGroupSize(b.config, n) && AdverseImpact.IsThreshold(b.config, t)
      ensures n == size && t == threshold
    {
      AdverseImpact.OverridesUnique(b.config, n, t);
    }
    forall name
      ensures AdverseImpact.AttributeFlagged(groups, name, size, threshold) <==>
              name in direct && AdverseImpact.Shortfall(scope, es, name, size, threshold)
    {
      AdverseImpact.FlaggedFromEvents(scope, es, direct, groups, name, size, threshold);
    }
  }

  /** From the registry and the raw events: a binding whose policy's PRODUCTION version is the
      four-fifths policy computes a finding, and flags exactly when the events fall short. */
  lemma AttemptFromEvents(p: Process, registry: PluginRegistry.Registry, w: Window, b: PopulationBinding,
                          k: PluginRegistry.Key, versions: map<string, string>, es: seq<DecisionEvent>)
    requires ReadsRegistry(p, registry) && PluginRegistry.OneProduction(registry)
    requires InProduction(registry, b.pair.policyId, k)
    requires (k.pluginId, k.version) in p.deployed && IsFourFifths(p.deployed[(k.pluginId, k.version)])
    requires p.direct(b.pair.subject).Some? && !p.storeFails(b)
    requires CountsEvents(p, w, b.pair.subject, versions, es)
    ensures AttemptOf(p, w, b).Computes?
    ensures AttemptOf(p, w, b).finding.systemId == b.pair.subject
    ensures AttemptOf(p, w, b).finding.windowStart == w.start && AttemptOf(p, w, b).finding.windowEnd == w.end
    ensures AttemptOf(p, w, b).finding.outcome == FLAG <==>
            FallsShortFor(p.direct(b.pair.subject).value, w, b, versions, es)
  {
    AttemptExactly(p, registry, w, b);
    var direct := p.direct(b.pair.subject).value;
    var found := p.deployed[(k.pluginId, k.version)](InputFor(p, w, b, direct));
    assert AttemptOf(p, w, b) == Computes(found.value);
    DisparityOnEvents(direct, QueryOf(p, b.pair.subject), w, b, versions, es);
  }
}
