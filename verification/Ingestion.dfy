/** One ingestion request: resolve the governing policies, fail closed, govern, append the
    evidence, and only then let the shadow policies run. */
module Ingestion {
  import opened Wrappers
  import opened JsonText
  import opened Schemas
  import opened Governance
  import opened PluginRegistry
  import opened RegistryLookup
  import opened Paging
  import Bindings

  datatype Binding = Binding(policyId: string, severity: PolicySeverity)

  /** What one request finds. `adapterState` is None when the adapter is not registered,
      `event` when translating or normalizing the payload raises. `bindings` are the
      adapter's ACTIVE ones, in creation order; `registrations(p)` are the rows of policy
      family `p` in whatever order the database returns them; `deployed` is the code this
      process has. `appendFails`, `refreshFails` and `shadowStoreFails(id)` are database
      failures: the append is rolled back, or it is committed and raises afterwards. */
  datatype Environment = Environment(
    adapterState: Option<State>,
    event: Option<Event>,
    bindings: seq<Binding>,
    registrations: string -> seq<Registration>,
    deployed: map<(string, string), Policy>,
    appendFails: bool,
    refreshFails: bool,
    shadowStoreFails: string -> bool)

  datatype Failure =
    | AdapterNotAccepting
    | TranslationFailed
    | NoActiveBindings
    | NoProductionPolicy(policyId: string)
    | NotDeployed(policyId: string)
    | PolicyFailed
    | AppendFailed
    | RefreshFailed
    | ShadowConstructionFailed
    | ShadowStoreFailed

  datatype Response = Accepted(verdict: Verdict) | Rejected(failure: Failure)

  datatype ShadowRow = ShadowRow(registrationId: string, finding: Finding)

  function Shadows(rs: seq<Registration>): seq<Registration> {
    if rs == [] then []
    else (if rs[0].state == SHADOW then [rs[0]] else []) + Shadows(rs[1..])
  }

  datatype Resolved = Ready(policy: GoverningPolicy) | Unresolved(failure: Failure)

  function ResolveBinding(env: Environment, b: Binding): Resolved {
    match FirstProduction(env.registrations(b.policyId))
    case None => Unresolved(NoProductionPolicy(b.policyId))
    case Some(r) =>
      if (r.pluginId, r.version) !in env.deployed then Unresolved(NotDeployed(b.policyId))
      else
        var policy := env.deployed[(r.pluginId, r.version)];
        if policy.constructs then Ready(GoverningPolicy(policy, b.severity)) else Unresolved(PolicyFailed)
  }

  /** One governing policy per binding, in order, or the first failure. */
  datatype Resolution = Governing(policies: seq<GoverningPolicy>) | Stopped(failure: Failure)

  function ResolveAll(env: Environment, bindings: seq<Binding>): Resolution {
    if bindings == [] then Governing([])
    else
      var n := |bindings| - 1;
      match ResolveAll(env, bindings[..n])
      case Stopped(failure) => Stopped(failure)
      case Governing(policies) =>
        match ResolveBinding(env, bindings[n])
        case Unresolved(failure) => Stopped(failure)
        case Ready(policy) => Governing(policies + [policy])
  }

  /** What the request appends to the ledger, decided before any shadow policy runs. */
  function Governed(env: Environment): Response {
    if env.adapterState == None || env.adapterState == Some(DRAFT) then Rejected(AdapterNotAccepting)
    else if env.event == None then Rejected(TranslationFailed)
    else if env.bindings == [] then Rejected(NoActiveBindings)
    else
      match ResolveAll(env, env.bindings)
      case Stopped(failure) => Rejected(failure)
      case Governing(policies) =>
        match Govern(policies, env.event.value)
        case None => Rejected(PolicyFailed)
        case Some(verdict) => if env.appendFails then Rejected(AppendFailed) else Accepted(verdict)
  }

  lemma {:induction false} ResolveAllExactly(env: Environment, bindings: seq<Binding>)
    ensures var r := ResolveAll(env, bindings);
            && (r.Governing? <==> forall i :: 0 <= i < |bindings| ==> ResolveBinding(env, bindings[i]).Ready?)
            && (r.Governing? ==> |r.policies| == |bindings|)
            && (r.Governing? ==>
                  forall i :: 0 <= i < |bindings| ==> ResolveBinding(env, bindings[i]) == Ready(r.policies[i]))
  {
    if bindings != [] {
      ResolveAllExactly(env, bindings[..|bindings| - 1]);
    }
  }

  lemma {:induction false} StopsForGood(env: Environment, bindings: seq<Binding>, n: nat)
    requires n <= |bindings| && ResolveAll(env, bindings[..n]).Stopped?
    ensures ResolveAll(env, bindings) == ResolveAll(env, bindings[..n])
  {
    if n == |bindings| {
      assert bindings[..n] == bindings;
    } else {
      assert bindings[..|bindings| - 1][..n] == bindings[..n];
      StopsForGood(env, bindings[..|bindings| - 1], n);
    }
  }

  // ----- When evidence is appended -----

  function BindingOf(row: Bindings.Binding<PolicySeverity>): Binding {
    Binding(row.pair.policyId, row.config)
  }

  /** What a request to `adapter` finds in the plugin registry and the binding table; `listed`
      is the answer to its binding query. */
  ghost predicate FromDatabase(env: Environment, registry: Registry, table: Bindings.Table<PolicySeverity>,
                               adapter: Key, listed: seq<Bindings.Binding<PolicySeverity>>)
  {
    && env.adapterState == (if adapter in registry then Some(registry[adapter]) else None)
    && IsOrderBy(Bindings.CreatedBefore, multiset(Bindings.ActiveRows(table, Some(adapter.pluginId))), listed)
    && |env.bindings| == |listed| && (forall i :: 0 <= i < |listed| ==> env.bindings[i] == BindingOf(listed[i]))
    && (forall p :: ListsFamily(registry, POLICY, p, env.registrations(p)))
  }

  /** `k` is the family's PRODUCTION version and this process can run it on the event. */
  predicate Governs(env: Environment, registry: Registry, policyId: string, k: Key)
    requires env.event.Some?
  {
    && IsProduction(registry, POLICY, policyId, k)
    && (k.pluginId, k.version) in env.deployed
    && env.deployed[(k.pluginId, k.version)].constructs
    && env.deployed[(k.pluginId, k.version)].evaluate(env.event.value).Some?
  }

  /** The binding resolves, and its policy evaluates the event. */
  predicate Evaluates(env: Environment, b: Binding)
    requires env.event.Some?
  {
    ResolveBinding(env, b).Ready? && ResolveBinding(env, b).policy.policy.evaluate(env.event.value).Some?
  }

  ghost predicate SomeVersionGoverns(env: Environment, registry: Registry, policyId: string)
    requires env.event.Some?
  {
    exists k :: Governs(env, registry, policyId, k)
  }

  /** A binding resolves to a policy that evaluates the event exactly when its family's one
      PRODUCTION version governs, and then to that version. */
  lemma BindingGoverned(env: Environment, registry: Registry, b: Binding)
    requires OneProduction(registry) && ListsFamily(registry, POLICY, b.policyId, env.registrations(b.policyId))
               && env.event.Some?
    ensures Evaluates(env, b) <==> SomeVersionGoverns(env, registry, b.policyId)
    ensures var r := ResolveBinding(env, b);
            forall k :: Governs(env, registry, b.policyId, k) ==>
                 r.Ready? && r.policy == GoverningPolicy(env.deployed[(k.pluginId, k.version)], b.severity)
  {
    UniqueProductionFound(registry, POLICY, b.policyId, env.registrations(b.policyId));
    var first := FirstProduction(env.registrations(b.policyId));
    if Evaluates(env, b) {
      assert Governs(env, registry, b.policyId, RegisteredKey(POLICY, first.value));
    }
  }

  /** Acceptance, binding by binding. */
  lemma AcceptedBindings(env: Environment)
    ensures Governed(env).Accepted? <==>
            && env.adapterState.Some? && env.adapterState.value != DRAFT && env.event.Some? && env.bindings != []
            && !env.appendFails
            && forall i :: 0 <= i < |env.bindings| ==> Evaluates(env, env.bindings[i])
    ensures Governed(env).Accepted? ==>
              var findings := Governed(env).verdict.findings;
              |findings| == |env.bindings| && forall i :: 0 <= i < |env.bindings| ==>
                ResolveBinding(env, env.bindings[i]).policy.policy.evaluate(env.event.value) == Some(findings[i])
  {
    ResolveAllExactly(env, env.bindings);
  }

  lemma ListedBindings(env: Environment, registry: Registry, table: Bindings.Table<PolicySeverity>, adapter: Key,
                       listed: seq<Bindings.Binding<PolicySeverity>>)
    requires FromDatabase(env, registry, table, adapter, listed) && Bindings.Inv(table)
    ensures forall b :: b in listed <==> b in Bindings.ActiveRows(table, Some(adapter.pluginId))
    ensures forall i, j :: 0 <= i < j < |listed| ==> env.bindings[i].policyId != env.bindings[j].policyId
    ensures env.bindings == [] <==> Bindings.ActiveRows(table, Some(adapter.pluginId)) == {}
  {
    Bindings.ActiveListing(table, Some(adapter.pluginId), listed);
    forall i, j | 0 <= i < j < |listed| ensures env.bindings[i].policyId != env.bindings[j].policyId {
      assert listed[i] in listed && listed[j] in listed;
      assert listed[i].pair != listed[j].pair;
    }
    if listed != [] {
      assert listed[0] in listed;
    }
  }

  lemma AllGoverned(env: Environment, registry: Registry, table: Bindings.Table<PolicySeverity>, adapter: Key,
                    listed: seq<Bindings.Binding<PolicySeverity>>)
    requires FromDatabase(env, registry, table, adapter, listed) && OneProduction(registry) && Bindings.Inv(table)
    requires env.event.Some?
    ensures (forall i :: 0 <= i < |env.bindings| ==> Evaluates(env, env.bindings[i])) <==>
            forall b :: b in Bindings.ActiveRows(table, Some(adapter.pluginId)) ==>
                SomeVersionGoverns(env, registry, b.pair.policyId)
  {
    ListedBindings(env, registry, table, adapter, listed);
    forall i | 0 <= i < |listed|
      ensures listed[i] in listed
      ensures SomeVersionGoverns(env, registry, listed[i].pair.policyId) <==> Evaluates(env, env.bindings[i])
    {
      BindingGoverned(env, registry, env.bindings[i]);
    }
  }

  /** Over the registry and the binding table: a request appends evidence if and only if its
      adapter is registered past DRAFT, the payload translates, the adapter has an ACTIVE
      binding, every ACTIVE binding's policy has a PRODUCTION version that is deployed here and
      evaluates the event, and the append itself succeeds. */
  lemma AcceptedExactly(env: Environment, registry: Registry, table: Bindings.Table<PolicySeverity>, adapter: Key,
                        listed: seq<Bindings.Binding<PolicySeverity>>)
    requires FromDatabase(env, registry, table, adapter, listed) && OneProduction(registry) && Bindings.Inv(table)
    ensures Governed(env).Accepted? <==>
            && adapter in registry && registry[adapter] != DRAFT && env.event.Some? && !env.appendFails
            && Bindings.ActiveRows(table, Some(adapter.pluginId)) != {}
            && forall b :: b in Bindings.ActiveRows(table, Some(adapter.pluginId)) ==>
                 SomeVersionGoverns(env, registry, b.pair.policyId)
  {
    ListedBindings(env, registry, table, adapter, listed);
    AcceptedBindings(env);
    if env.event.Some? {
      AllGoverned(env, registry, table, adapter, listed);
    }
  }

  /** And then findings match the ACTIVE bindings one to one in their order, no policy bound
      twice, each finding that of the one PRODUCTION version its policy has. */
  lemma FindingsMatchBindings(env: Environment, registry: Registry, table: Bindings.Table<PolicySeverity>, adapter: Key,
                              listed: seq<Bindings.Binding<PolicySeverity>>)
    requires FromDatabase(env, registry, table, adapter, listed) && OneProduction(registry) && Bindings.Inv(table)
    requires Governed(env).Accepted?
    ensures env.event.Some? && |Governed(env).verdict.findings| == |listed|
    ensures forall i, j :: 0 <= i < j < |listed| ==> listed[i].pair.policyId != listed[j].pair.policyId
    ensures forall i :: 0 <= i < |listed| ==>
              exists k :: Governs(env, registry, listed[i].pair.policyId, k)
                && (forall j :: IsProduction(registry, POLICY, listed[i].pair.policyId, j) ==> j == k)
                && env.deployed[(k.pluginId, k.version)].evaluate(env.event.value)
                     == Some(Governed(env).verdict.findings[i])
  {
    ListedBindings(env, registry, table, adapter, listed);
    AcceptedBindings(env);
    forall i, j | 0 <= i < j < |listed| ensures listed[i].pair.policyId != listed[j].pair.policyId {
      assert env.bindings[i].policyId != env.bindings[j].policyId;
    }
    forall i | 0 <= i < |listed|
      ensures exists k :: Governs(env, registry, listed[i].pair.policyId, k)
                && (forall j :: IsProduction(registry, POLICY, listed[i].pair.policyId, j) ==> j == k)
                && env.deployed[(k.pluginId, k.version)].evaluate(env.event.value)
                     == Some(Governed(env).verdict.findings[i])
    {
      BindingGoverned(env, registry, env.bindings[i]);
      UniqueProductionFound(registry, POLICY, env.bindings[i].policyId, env.registrations(env.bindings[i].policyId));
      var k :| Governs(env, registry, env.bindings[i].policyId, k);
    }
  }

  lemma {:induction false} PoliciesOf(env: Environment, bindings: seq<Binding>)
    requires ResolveAll(env, bindings).Governing?
    ensures var ps := ResolveAll(env, bindings).policies;
            |ps| == |bindings| && forall i :: 0 <= i < |ps| ==> ps[i].severity == bindings[i].severity
  {
    if bindings != [] {
      PoliciesOf(env, bindings[..|bindings| - 1]);
    }
  }

  /** The i-th binding flags, and with more than LOW severity. */
  predicate FlagsSeverely(env: Environment, findings: seq<Finding>, i: nat)
    requires |findings| == |env.bindings|
  {
    i < |findings| && env.bindings[i].severity != LOW && findings[i].outcome == FLAG
  }

  lemma FlaggedAt(env: Environment, ps: seq<GoverningPolicy>, fs: seq<Finding>, e: Event, i: nat)
    requires |ps| == |fs| == |env.bindings| && i < |ps| && ps[i].severity == env.bindings[i].severity
    requires ps[i].policy.evaluate(e) == Some(fs[i])
    ensures FlagsSeverely(env, fs, i) <==> Flags(ps[i], e, MEDIUM) || Flags(ps[i], e, HIGH)
  {}

  lemma SomeSevere(env: Environment, ps: seq<GoverningPolicy>, fs: seq<Finding>, e: Event)
    requires |ps| == |fs| == |env.bindings|
    requires forall i :: 0 <= i < |ps| ==>
               ps[i].severity == env.bindings[i].severity && ps[i].policy.evaluate(e) == Some(fs[i])
    ensures (SomeFlags(ps, e, MEDIUM) || SomeFlags(ps, e, HIGH)) <==> exists i: nat :: FlagsSeverely(env, fs, i)
  {
    if p :| p in ps && (Flags(p, e, MEDIUM) || Flags(p, e, HIGH)) {
      var i :| 0 <= i < |ps| && ps[i] == p;
      FlaggedAt(env, ps, fs, e, i);
    }
    if i: nat :| FlagsSeverely(env, fs, i) {
      FlaggedAt(env, ps, fs, e, i);
      assert ps[i] in ps;
    }
  }

  /** The verdicts whose review one request attempts to queue. */
  function ReviewAttempts(env: Environment): seq<Verdict> {
    if Governed(env).Accepted? && !env.refreshFails && Governed(env).verdict.status in REVIEWABLE_VERDICT_STATUSES
    then [Governed(env).verdict]
    else []
  }

  /** A review of the verdict appended is attempted if and only if a binding of MEDIUM or HIGH
      severity flags and the append does not raise after its commit. */
  lemma ReviewAttempted(env: Environment)
    requires Governed(env).Accepted?
    ensures |Governed(env).verdict.findings| == |env.bindings|
    ensures Governed(env).verdict.status in REVIEWABLE_VERDICT_STATUSES <==>
            exists i: nat :: FlagsSeverely(env, Governed(env).verdict.findings, i)
    ensures ReviewAttempts(env) == [Governed(env).verdict] <==>
            !env.refreshFails && exists i: nat :: FlagsSeverely(env, Governed(env).verdict.findings, i)
    ensures ReviewAttempts(env) == [] <==>
            env.refreshFails || !exists i: nat :: FlagsSeverely(env, Governed(env).verdict.findings, i)
  {
    var ps := ResolveAll(env, env.bindings).policies;
    PoliciesOf(env, env.bindings);
    ReviewableExactly(ps, env.event.value);
    SomeSevere(env, ps, Governed(env).verdict.findings, env.event.value);
  }

  // ----- Shadows -----

  function AllShadows(env: Environment, bindings: seq<Binding>): seq<Registration> {
    if bindings == [] then []
    else
      var n := |bindings| - 1;
      AllShadows(env, bindings[..n]) + Shadows(env.registrations(bindings[n].policyId))
  }

  /** A family's rows with its SHADOW versions struck out. */
  function NonShadow(rs: seq<Registration>): seq<Registration> {
    if rs == [] then []
    else (if rs[0].state == SHADOW then [] else [rs[0]]) + NonShadow(rs[1..])
  }

  lemma ConsRow(r: Registration, rest: seq<Registration>)
    ensures FirstProduction([r] + rest) == if r.state == PRODUCTION then Some(r) else FirstProduction(rest)
    ensures NonShadow([r] + rest) == (if r.state == SHADOW then [] else [r]) + NonShadow(rest)
    ensures Shadows([r] + rest) == (if r.state == SHADOW then [r] else []) + Shadows(rest)
  {
    assert ([r] + rest)[1..] == rest;
  }

  lemma {:induction false} FirstProductionNonShadow(rs: seq<Registration>)
    ensures FirstProduction(NonShadow(rs)) == FirstProduction(rs)
  {
    if rs != [] {
      assert rs == [rs[0]] + rs[1..];
      ConsRow(rs[0], rs[1..]);
      ConsRow(rs[0], NonShadow(rs[1..]));
      FirstProductionNonShadow(rs[1..]);
      assert [] + NonShadow(rs[1..]) == NonShadow(rs[1..]);
    }
  }

  ghost predicate SameCode(a: Environment, b: Environment, k: (string, string)) {
    (k in a.deployed <==> k in b.deployed) && (k in a.deployed ==> a.deployed[k] == b.deployed[k])
  }

  /** But for SHADOW rows the family has the same rows in both, and the same code for those in
      PRODUCTION. */
  ghost predicate SameButShadows(a: Environment, b: Environment, policyId: string) {
    && NonShadow(a.registrations(policyId)) == NonShadow(b.registrations(policyId))
    && forall r :: r in a.registrations(policyId) && r.state == PRODUCTION ==> SameCode(a, b, (r.pluginId, r.version))
  }

  /** Two environments that differ in which SHADOW rows there are, what their code does, and
      whether shadow findings can be stored. */
  ghost predicate DifferInShadowsOnly(a: Environment, b: Environment) {
    && a.adapterState == b.adapterState && a.event == b.event && a.bindings == b.bindings
    && a.appendFails == b.appendFails && a.refreshFails == b.refreshFails
    && forall p :: p in a.bindings ==> SameButShadows(a, b, p.policyId)
  }

  lemma SameBinding(a: Environment, b: Environment, p: Binding)
    requires SameButShadows(a, b, p.policyId)
    ensures ResolveBinding(a, p) == ResolveBinding(b, p)
  {
    FirstProductionNonShadow(a.registrations(p.policyId));
    FirstProductionNonShadow(b.registrations(p.policyId));
  }

  lemma {:induction false} SameResolution(a: Environment, b: Environment, bindings: seq<Binding>)
    requires forall p :: p in bindings ==> SameButShadows(a, b, p.policyId)
    ensures ResolveAll(a, bindings) == ResolveAll(b, bindings)
  {
    if bindings != [] {
      var n := |bindings| - 1;
      assert bindings == bindings[..n] + [bindings[n]];
      SameResolution(a, b, bindings[..n]);
      SameBinding(a, b, bindings[n]);
    }
  }

  /** Shadow non-interference: the verdict, and so the ledger row and the review attempted, is
      the same whatever the SHADOW registrations are and whatever their code does. */
  lemma ShadowsDoNotInterfere(a: Environment, b: Environment)
    requires DifferInShadowsOnly(a, b)
    ensures Governed(a) == Governed(b) && ReviewAttempts(a) == ReviewAttempts(b)
  {
    SameResolution(a, b, a.bindings);
  }

  function WithoutShadows(env: Environment): Environment {
    env.(registrations := p => NonShadow(env.registrations(p)))
  }

  lemma {:induction false} NonShadowTwice(rs: seq<Registration>)
    ensures NonShadow(NonShadow(rs)) == NonShadow(rs) && Shadows(NonShadow(rs)) == []
  {
    if rs != [] {
      assert rs == [rs[0]] + rs[1..];
      ConsRow(rs[0], rs[1..]);
      ConsRow(rs[0], NonShadow(rs[1..]));
      NonShadowTwice(rs[1..]);
      assert [] + NonShadow(rs[1..]) == NonShadow(rs[1..]);
    }
  }

  /** In particular, with no shadows at all. */
  lemma AsWithoutShadows(env: Environment)
    ensures Governed(WithoutShadows(env)) == Governed(env)
    ensures AllShadows(WithoutShadows(env), env.bindings) == []
  {
    forall p | p in env.bindings ensures SameButShadows(env, WithoutShadows(env), p.policyId) {
      NonShadowTwice(env.registrations(p.policyId));
    }
    ShadowsDoNotInterfere(env, WithoutShadows(env));
    NoShadowsLeft(env, env.bindings);
  }

  lemma {:induction false} NoShadowsLeft(env: Environment, bindings: seq<Binding>)
    ensures AllShadows(WithoutShadows(env), bindings) == []
  {
    if bindings != [] {
      var n := |bindings| - 1;
      NoShadowsLeft(env, bindings[..n]);
      NonShadowTwice(env.registrations(bindings[n].policyId));
    }
  }

  /** The ledger after one request, and after many. */
  function LedgerAfter(ledger: seq<(Event, Verdict)>, env: Environment): seq<(Event, Verdict)> {
    ledger + if Governed(env).Accepted? then [(env.event.value, Governed(env).verdict)] else []
  }

  function LedgerAfterAll(ledger: seq<(Event, Verdict)>, envs: seq<Environment>): seq<(Event, Verdict)> {
    if envs == [] then ledger else LedgerAfter(LedgerAfterAll(ledger, envs[..|envs| - 1]), envs[|envs| - 1])
  }

  /** Over any sequence of requests, the ledger comes out as if there had been no shadows. */
  lemma {:induction false} LedgerAsWithoutShadows(ledger: seq<(Event, Verdict)>, envs: seq<Environment>,
                                                  bare: seq<Environment>)
    requires |bare| == |envs| && forall i :: 0 <= i < |envs| ==> bare[i] == WithoutShadows(envs[i])
    ensures LedgerAfterAll(ledger, bare) == LedgerAfterAll(ledger, envs)
  {
    if envs != [] {
      var n := |envs| - 1;
      LedgerAsWithoutShadows(ledger, envs[..n], bare[..n]);
      AsWithoutShadows(envs[n]);
    }
  }

  // ----- The shadow loop -----

  /** What one shadow registration comes to. Only its evaluation is contained: an exception
      while constructing it, or while storing its finding, leaves the loop. */
  datatype ShadowStep = Skip | Store(finding: Finding) | Escape(failure: Failure)

  function RunShadow(env: Environment, e: Event, r: Registration): ShadowStep {
    if (r.pluginId, r.version) !in env.deployed then Skip
    else
      var policy := env.deployed[(r.pluginId, r.version)];
      if !policy.constructs then Escape(ShadowConstructionFailed)
      else
        match policy.evaluate(e)
        case None => Skip
        case Some(finding) => if env.shadowStoreFails(r.id) then Escape(ShadowStoreFailed) else Store(finding)
  }

  predicate Contained(env: Environment, e: Event, rs: seq<Registration>) {
    forall i :: 0 <= i < |rs| ==> !RunShadow(env, e, rs[i]).Escape?
  }

  /** The shadow findings stored: all of them, or those before the first escape. */
  function ShadowRows(env: Environment, e: Event, rs: seq<Registration>): seq<ShadowRow> {
    if rs == [] then []
    else
      match RunShadow(env, e, rs[0])
      case Skip => ShadowRows(env, e, rs[1..])
      case Store(finding) => [ShadowRow(rs[0].id, finding)] + ShadowRows(env, e, rs[1..])
      case Escape(_) => []
  }

  /** The first failure that leaves the loop. */
  function FirstEscape(env: Environment, e: Event, rs: seq<Registration>): (r: Option<Failure>)
    ensures r == None <==> Contained(env, e, rs)
    ensures r.Some? ==> r.value in {ShadowConstructionFailed, ShadowStoreFailed}
  {
    if rs == [] then None
    else
      match RunShadow(env, e, rs[0])
      case Escape(failure) => Some(failure)
      case _ =>
        var r := FirstEscape(env, e, rs[1..]);
        assert r == None ==> forall i :: 0 < i < |rs| ==> rs[i] == rs[1..][i - 1];
        assert !Contained(env, e, rs[1..]) ==> !Contained(env, e, rs) by {
          if i :| 0 <= i < |rs[1..]| && RunShadow(env, e, rs[1..][i]).Escape? {
            assert rs[i + 1] == rs[1..][i];
          }
        }
        r
  }

  /** The shadow findings one request stores. */
  function ShadowFindings(env: Environment): seq<ShadowRow> {
    if Governed(env).Accepted? && !env.refreshFails
    then ShadowRows(env, env.event.value, AllShadows(env, env.bindings))
    else []
  }

  /** A deployed shadow that evaluates the event, and whose finding can be stored. */
  predicate Stores(env: Environment, e: Event, r: Registration, finding: Finding) {
    && (r.pluginId, r.version) in env.deployed && env.deployed[(r.pluginId, r.version)].constructs
    && env.deployed[(r.pluginId, r.version)].evaluate(e) == Some(finding) && !env.shadowStoreFails(r.id)
  }

  /** A deployed shadow that cannot be constructed, or whose finding cannot be stored. */
  predicate Escapes(env: Environment, e: Event, r: Registration) {
    && (r.pluginId, r.version) in env.deployed
    && (!env.deployed[(r.pluginId, r.version)].constructs
        || (env.deployed[(r.pluginId, r.version)].evaluate(e).Some? && env.shadowStoreFails(r.id)))
  }

  /** Stored are, each under its own registration's id, the findings of exactly the shadows that
      store and that no shadow which escapes precedes. */
  lemma {:induction false} ShadowRowsExactly(env: Environment, e: Event, rs: seq<Registration>, x: ShadowRow)
    ensures x in ShadowRows(env, e, rs) <==>
            exists i :: 0 <= i < |rs| && Stores(env, e, rs[i], x.finding) && x.registrationId == rs[i].id
                        && forall j :: 0 <= j < i ==> !Escapes(env, e, rs[j])
  {
    if rs != [] {
      ShadowRowsExactly(env, e, rs[1..], x);
      if i :| 0 <= i < |rs| && Stores(env, e, rs[i], x.finding) && x.registrationId == rs[i].id
              && forall j :: 0 <= j < i ==> !Escapes(env, e, rs[j]) {
        if i > 0 {
          assert rs[1..][i - 1] == rs[i] && !Escapes(env, e, rs[0]);
          assert forall j :: 0 <= j < i - 1 ==> rs[1..][j] == rs[j + 1];
        }
      }
      if i :| 0 <= i < |rs[1..]| && Stores(env, e, rs[1..][i], x.finding) && x.registrationId == rs[1..][i].id
              && (forall j :: 0 <= j < i ==> !Escapes(env, e, rs[1..][j])) && !Escapes(env, e, rs[0]) {
        assert rs[i + 1] == rs[1..][i];
        forall j | 0 <= j < i + 1 ensures !Escapes(env, e, rs[j]) {
          assert j > 0 ==> rs[j] == rs[1..][j - 1];
        }
      }
    }
  }

  lemma ShadowsAre(rs: seq<Registration>, r: Registration)
    ensures r in Shadows(rs) <==> r in rs && r.state == SHADOW
  {}

  lemma {:induction false} AllShadowsAre(env: Environment, bindings: seq<Binding>, r: Registration)
    ensures r in AllShadows(env, bindings) <==>
            r.state == SHADOW && exists p :: p in bindings && r in env.registrations(p.policyId)
  {
    if bindings != [] {
      var n := |bindings| - 1;
      assert bindings == bindings[..n] + [bindings[n]];
      AllShadowsAre(env, bindings[..n], r);
      ShadowsAre(env.registrations(bindings[n].policyId), r);
    }
  }

  /** The caller is given the verdict if and only if it was appended, the append did not raise
      after its commit, and no SHADOW version of a bound policy escapes its containment. */
  lemma AnsweredExactly(env: Environment)
    ensures Answer(env).Accepted? <==>
            && Governed(env).Accepted? && !env.refreshFails
            && forall p, r :: p in env.bindings && r in env.registrations(p.policyId) && r.state == SHADOW ==>
                 !Escapes(env, env.event.value, r)
    ensures Answer(env).Accepted? ==> Answer(env) == Governed(env)
  {
    if Governed(env).Accepted? {
      var (rs, e) := (AllShadows(env, env.bindings), env.event.value);
      forall r ensures r in rs <==>
                       r.state == SHADOW && exists p :: p in env.bindings && r in env.registrations(p.policyId) {
        AllShadowsAre(env, env.bindings, r);
      }
      assert forall r :: RunShadow(env, e, r).Escape? <==> Escapes(env, e, r);
    }
  }

  /** Which refusal it is, of those before any policy is looked up, and when the append is the one
      thing that fails. */
  lemma RefusedExactly(env: Environment)
    ensures Governed(env) == Rejected(AdapterNotAccepting) <==>
            env.adapterState == None || env.adapterState == Some(DRAFT)
    ensures Governed(env) == Rejected(TranslationFailed) <==>
            env.adapterState.Some? && env.adapterState.value != DRAFT && env.event == None
    ensures Governed(env) == Rejected(NoActiveBindings) <==>
            env.adapterState.Some? && env.adapterState.value != DRAFT && env.event.Some? && env.bindings == []
    ensures Governed(env) == Rejected(AppendFailed) <==>
            && env.adapterState.Some? && env.adapterState.value != DRAFT && env.event.Some? && env.bindings != []
            && (forall i :: 0 <= i < |env.bindings| ==> Evaluates(env, env.bindings[i])) && env.appendFails
  {
    ResolveAllExactly(env, env.bindings);
    StopsFor(env, env.bindings);
  }

  /** The binding cannot be resolved, and why. */
  predicate Unresolvable(env: Environment, b: Binding, failure: Failure) {
    var production := FirstProduction(env.registrations(b.policyId));
    match failure
    case NoProductionPolicy(p) => p == b.policyId && forall r :: r in env.registrations(p) ==> r.state != PRODUCTION
    case NotDeployed(p) =>
      && p == b.policyId && production.Some?
      && (production.value.pluginId, production.value.version) !in env.deployed
    case PolicyFailed =>
      && production.Some? && (production.value.pluginId, production.value.version) in env.deployed
      && !env.deployed[(production.value.pluginId, production.value.version)].constructs
    case _ => false
  }

  /** Resolution stops at the first binding that cannot be resolved, for the reason it cannot. */
  lemma {:induction false} StopsFor(env: Environment, bindings: seq<Binding>)
    ensures ResolveAll(env, bindings).Stopped? ==>
              exists i :: 0 <= i < |bindings| && Unresolvable(env, bindings[i], ResolveAll(env, bindings).failure)
                && forall j :: 0 <= j < i ==> ResolveBinding(env, bindings[j]).Ready?
  {
    if bindings != [] {
      var n := |bindings| - 1;
      StopsFor(env, bindings[..n]);
      ResolveAllExactly(env, bindings[..n]);
      if ResolveAll(env, bindings).Stopped? {
        if ResolveAll(env, bindings[..n]).Stopped? {
          var i :| 0 <= i < n && Unresolvable(env, bindings[..n][i], ResolveAll(env, bindings[..n]).failure)
            && forall j :: 0 <= j < i ==> ResolveBinding(env, bindings[..n][j]).Ready?;
          assert bindings[i] == bindings[..n][i] && forall j :: 0 <= j < i ==> bindings[j] == bindings[..n][j];
        } else {
          assert forall j :: 0 <= j < n ==> bindings[j] == bindings[..n][j];
          assert Unresolvable(env, bindings[n], ResolveAll(env, bindings).failure);
        }
      }
    }
  }

  /** What the caller is told: the governed response, unless the append raises, or a shadow
      policy fails outside its containment, after the evidence has been committed. */
  function Answer(env: Environment): Response {
    if Governed(env).Rejected? then Governed(env)
    else if env.refreshFails then Rejected(RefreshFailed)
    else
      match FirstEscape(env, env.event.value, AllShadows(env, env.bindings))
      case None => Governed(env)
      case Some(failure) => Rejected(failure)
  }

  function BrokenShadow(): Environment {
    Environment(Some(PRODUCTION), Some(Event("event", "system", Null)), [Binding("policy", LOW)],
                p => [Registration("1", "policy", "1.0.0", PRODUCTION), Registration("2", "policy", "2.0.0", SHADOW)],
                map[("policy", "1.0.0") := Policy(true, e => Some(Finding("policy", CLEAR, "fine"))),
                    ("policy", "2.0.0") := Policy(false, e => None)],
                false, false, id => false)
  }

  lemma BrokenShadowGoverned()
    ensures Governed(BrokenShadow()) == Accepted(Verdict(ALLOW, [Finding("policy", CLEAR, "fine")]))
  {
    var env := BrokenShadow();
    var p := GoverningPolicy(env.deployed[("policy", "1.0.0")], LOW);
    assert FirstProduction(env.registrations("policy")) == Some(env.registrations("policy")[0]);
    assert ResolveBinding(env, env.bindings[0]) == Ready(p);
    assert env.bindings[..0] == [] && ResolveAll(env, []) == Governing([]);
    assert ResolveAll(env, env.bindings) == Governing([] + [p]);
    assert [p][1..] == [] && Evaluate([], env.event.value) == Some([]);
    assert Evaluate([p], env.event.value) == Some([Finding("policy", CLEAR, "fine")] + []);
  }

  lemma BrokenShadowEscapes()
    ensures AllShadows(BrokenShadow(), BrokenShadow().bindings) == [Registration("2", "policy", "2.0.0", SHADOW)]
    ensures FirstEscape(BrokenShadow(), Event("event", "system", Null), [Registration("2", "policy", "2.0.0", SHADOW)])
            == Some(ShadowConstructionFailed)
  {
    var env := BrokenShadow();
    var rs := env.registrations("policy");
    ConsRow(rs[0], [rs[1]]);
    ConsRow(rs[1], []);
    assert rs == [rs[0]] + [rs[1]] && [rs[1]] + [] == [rs[1]];
    assert env.bindings[..0] == [] && AllShadows(env, []) == [];
    assert AllShadows(env, env.bindings) == [] + [rs[1]];
    assert ("policy", "2.0.0") in env.deployed && !env.deployed[("policy", "2.0.0")].constructs;
  }

  /** A shadow version whose constructor raises: the evidence is appended as if it were not
      there, and the request is answered with an error. */
  lemma BrokenShadowSurfaces()
    ensures LedgerAfter([], BrokenShadow()) ==
              [(Event("event", "system", Null), Verdict(ALLOW, [Finding("policy", CLEAR, "fine")]))]
    ensures Answer(BrokenShadow()) == Rejected(ShadowConstructionFailed)
  {
    BrokenShadowGoverned();
    BrokenShadowEscapes();
  }

  /** One binding of HIGH severity that flags, and an append that commits and then raises. */
  function LostRefresh(): Environment {
    Environment(Some(PRODUCTION), Some(Event("event", "system", Null)), [Binding("policy", HIGH)],
                p => [Registration("1", "policy", "1.0.0", PRODUCTION)],
                map[("policy", "1.0.0") := Policy(true, e => Some(Finding("policy", FLAG, "high")))],
                false, true, id => false)
  }

  lemma LostRefreshGoverned()
    ensures Governed(LostRefresh()) == Accepted(Verdict(RECOMMEND_HOLD, [Finding("policy", FLAG, "high")]))
  {
    var env := LostRefresh();
    var p := GoverningPolicy(env.deployed[("policy", "1.0.0")], HIGH);
    assert FirstProduction(env.registrations("policy")) == Some(env.registrations("policy")[0]);
    assert ResolveBinding(env, env.bindings[0]) == Ready(p);
    assert env.bindings[..0] == [] && ResolveAll(env, []) == Governing([]);
    assert ResolveAll(env, env.bindings) == Governing([] + [p]);
    assert [] + [p] == [p];
    assert [p][1..] == [] && Evaluate([], env.event.value) == Some([]);
    assert Evaluate([p], env.event.value) == Some([Finding("policy", FLAG, "high")] + []);
    assert p in [p] && Flags(p, env.event.value, HIGH);
    StatusIsMostRestrictive([p], env.event.value);
  }

  /** Evidence of a verdict to be reviewed is committed, no review of it is attempted, and the
      request is answered with an error. */
  lemma LostRefreshLosesTheReview()
    ensures var verdict := Verdict(RECOMMEND_HOLD, [Finding("policy", FLAG, "high")]);
            && LedgerAfter([], LostRefresh()) == [(Event("event", "system", Null), verdict)]
            && verdict.status in REVIEWABLE_VERDICT_STATUSES && ReviewAttempts(LostRefresh()) == []
    ensures Answer(LostRefresh()) == Rejected(RefreshFailed)
  {
    LostRefreshGoverned();
  }

  class Api {
    var ledger: seq<(Event, Verdict)>
    var reviewAttempts: seq<Verdict>
    var shadowFindings: seq<ShadowRow>

    constructor ()
      ensures ledger == [] && reviewAttempts == [] && shadowFindings == []
    {
      ledger, reviewAttempts, shadowFindings := [], [], [];
    }

    /** The per-binding resolution loop. */
    method ResolvePolicies(env: Environment) returns (resolution: Resolution, shadowRegistrations: seq<Registration>)
      ensures resolution == ResolveAll(env, env.bindings)
      ensures resolution.Governing? ==> shadowRegistrations == AllShadows(env, env.bindings)
    {
      var productionPolicies: seq<GoverningPolicy> := [];
      shadowRegistrations := [];
      for i := 0 to |env.bindings|
        invariant ResolveAll(env, env.bindings[..i]) == Governing(productionPolicies)
        invariant shadowRegistrations == AllShadows(env, env.bindings[..i])
      {
        assert env.bindings[..i + 1][..i] == env.bindings[..i];
        var binding := env.bindings[i];
        match ResolveBinding(env, binding) {
          case Unresolved(failure) =>
            StopsForGood(env, env.bindings, i + 1);
            return Stopped(failure), shadowRegistrations;
          case Ready(policy) =>
            productionPolicies := productionPolicies + [policy];
        }
        shadowRegistrations := shadowRegistrations + Shadows(env.registrations(binding.policyId));
      }
      assert env.bindings[..|env.bindings|] == env.bindings;
      resolution := Governing(productionPolicies);
    }

    /** The shadow loop, after the evidence is committed. */
    method RunShadows(env: Environment, event: Event, shadowRegistrations: seq<Registration>)
      returns (escaped: Option<Failure>)
      modifies this`shadowFindings
      ensures shadowFindings == old(shadowFindings) + ShadowRows(env, event, shadowRegistrations)
      ensures escaped == FirstEscape(env, event, shadowRegistrations)
    {
      for i := 0 to |shadowRegistrations|
        invariant FirstEscape(env, event, shadowRegistrations[i..]) == FirstEscape(env, event, shadowRegistrations)
        invariant shadowFindings + ShadowRows(env, event, shadowRegistrations[i..])
                  == old(shadowFindings) + ShadowRows(env, event, shadowRegistrations)
      {
        var registration := shadowRegistrations[i];
        assert shadowRegistrations[i..][0] == registration
                 && shadowRegistrations[i..][1..] == shadowRegistrations[i + 1..];
        match RunShadow(env, event, registration) {
          case Skip =>
          case Store(finding) =>
            shadowFindings := shadowFindings + [ShadowRow(registration.id, finding)];
          case Escape(failure) =>
            return Some(failure);
        }
      }
      assert shadowRegistrations[..|shadowRegistrations|] == shadowRegistrations;
      return None;
    }

    /** The generated route handler. The ledger grows by exactly the governed verdict, or not
        at all, and a review of it is attempted exactly when it is reviewable and the append
        does not raise after its commit; shadow findings reach neither. */
    method Handle(env: Environment) returns (response: Response)
      modifies this
      ensures ledger == LedgerAfter(old(ledger), env) && response == Answer(env)
      ensures old(ledger) <= ledger && (|ledger| == |old(ledger)| + 1 <==> Governed(env).Accepted?)
      ensures Governed(env).Accepted? ==> ledger[|old(ledger)|] == (env.event.value, Governed(env).verdict)
      ensures reviewAttempts == old(reviewAttempts) + ReviewAttempts(env)
      ensures shadowFindings == old(shadowFindings) + ShadowFindings(env)
    {
      if env.adapterState == None || env.adapterState == Some(DRAFT) {
        return Rejected(AdapterNotAccepting);
      }
      if env.event == None {
        return Rejected(TranslationFailed);
      }
      if env.bindings == [] {
        return Rejected(NoActiveBindings);
      }
      var event := env.event.value;
      var resolution, shadowRegistrations := ResolvePolicies(env);
      if resolution.Stopped? {
        return Rejected(resolution.failure);
      }
      var governed := Govern(resolution.policies, event);
      if governed == None {
        return Rejected(PolicyFailed);
      }
      if env.appendFails {
        return Rejected(AppendFailed);
      }
      ledger := ledger + [(event, governed.value)];
      if env.refreshFails {
        return Rejected(RefreshFailed);
      }
      if governed.value.status in REVIEWABLE_VERDICT_STATUSES {
        reviewAttempts := reviewAttempts + [governed.value];
      }
      var escaped := RunShadows(env, event, shadowRegistrations);
      response := if escaped.Some? then Rejected(escaped.value) else Accepted(governed.value);
    }
  }
}
