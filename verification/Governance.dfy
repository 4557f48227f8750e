/** The governance engine: one finding per governing policy, and a status that is the most
    restrictive any flagged finding's severity calls for. */
module Governance {
  import opened Wrappers
  import opened JsonText
  import opened Schemas

  datatype Event = Event(eventId: string, systemId: string, inputs: Json)

  datatype Finding = Finding(policyId: string, outcome: Outcome, rationale: string)

  /** A deployed policy class: constructing it may raise, and evaluating an event may raise
      or run out of time, which is None. */
  datatype Policy = Policy(constructs: bool, evaluate: Event -> Option<Finding>)

  datatype GoverningPolicy = GoverningPolicy(policy: Policy, severity: PolicySeverity)

  datatype Verdict = Verdict(status: VerdictStatus, findings: seq<Finding>)

  /** How restrictive a status is. */
  function Restrictiveness(s: VerdictStatus): int {
    match s
    case ALLOW => 0
    case ALLOW_WITH_FLAG => 1
    case ESCALATE_FOR_REVIEW => 2
    case RECOMMEND_HOLD => 3
    case FLAGGED => -1
  }

  function SeverityToStatus(s: PolicySeverity): VerdictStatus {
    match s case LOW => ALLOW_WITH_FLAG case MEDIUM => ESCALATE_FOR_REVIEW case HIGH => RECOMMEND_HOLD
  }

  function SeverityRank(s: PolicySeverity): int {
    match s case LOW => 0 case MEDIUM => 1 case HIGH => 2
  }

  /** `max(severities, key=rank)`. */
  function MaxSeverity(ss: seq<PolicySeverity>): PolicySeverity
    requires ss != []
  {
    if |ss| == 1 then ss[0]
    else
      var m := MaxSeverity(ss[1..]);
      if SeverityRank(m) > SeverityRank(ss[0]) then m else ss[0]
  }

  /** Every policy's finding, in order; None as soon as one raises. */
  function Evaluate(ps: seq<GoverningPolicy>, e: Event): (r: Option<seq<Finding>>)
    ensures r.Some? <==> forall i :: 0 <= i < |ps| ==> ps[i].policy.evaluate(e).Some?
    ensures r.Some? ==> |r.value| == |ps| && forall i :: 0 <= i < |ps| ==> ps[i].policy.evaluate(e) == Some(r.value[i])
  {
    if ps == [] then Some([])
    else
      match (ps[0].policy.evaluate(e), Evaluate(ps[1..], e))
      case (Some(f), Some(fs)) => Some([f] + fs)
      case _ => None
  }

  function FlaggedSeverities(ps: seq<GoverningPolicy>, fs: seq<Finding>): seq<PolicySeverity>
    requires |ps| == |fs|
  {
    if ps == [] then []
    else (if fs[0].outcome == FLAG then [ps[0].severity] else []) + FlaggedSeverities(ps[1..], fs[1..])
  }

  /** `GovernanceEngine.govern`; None propagates a policy's exception. */
  function Govern(ps: seq<GoverningPolicy>, e: Event): Option<Verdict> {
    match Evaluate(ps, e)
    case None => None
    case Some(findings) =>
      var flagged := FlaggedSeverities(ps, findings);
      Some(Verdict(if flagged == [] then ALLOW else SeverityToStatus(MaxSeverity(flagged)), findings))
  }

  /** The binding at hand flags the event with this severity. */
  predicate Flags(p: GoverningPolicy, e: Event, severity: PolicySeverity) {
    p.severity == severity && p.policy.evaluate(e).Some? && p.policy.evaluate(e).value.outcome == FLAG
  }

  ghost predicate SomeFlags(ps: seq<GoverningPolicy>, e: Event, severity: PolicySeverity) {
    exists p :: p in ps && Flags(p, e, severity)
  }

  lemma {:induction false} MaxSeverityIsMax(ss: seq<PolicySeverity>)
    requires ss != []
    ensures MaxSeverity(ss) in ss && forall s :: s in ss ==> SeverityRank(s) <= SeverityRank(MaxSeverity(ss))
  {
    if |ss| > 1 {
      MaxSeverityIsMax(ss[1..]);
      assert forall s :: s in ss ==> s == ss[0] || s in ss[1..];
    }
  }

  lemma SomeFlagsCons(ps: seq<GoverningPolicy>, e: Event, severity: PolicySeverity)
    requires ps != []
    ensures SomeFlags(ps, e, severity) <==> Flags(ps[0], e, severity) || SomeFlags(ps[1..], e, severity)
  {
    assert ps == [ps[0]] + ps[1..];
  }

  lemma {:induction false} FlaggedSeveritiesAre(ps: seq<GoverningPolicy>, fs: seq<Finding>, e: Event,
                                                severity: PolicySeverity)
    requires Evaluate(ps, e) == Some(fs)
    ensures severity in FlaggedSeverities(ps, fs) <==> SomeFlags(ps, e, severity)
  {
    if ps != [] {
      FlaggedSeveritiesAre(ps[1..], fs[1..], e, severity);
      SomeFlagsCons(ps, e, severity);
      assert ps[0].policy.evaluate(e) == Some(fs[0]);
      assert severity in FlaggedSeverities(ps, fs) <==>
               Flags(ps[0], e, severity) || severity in FlaggedSeverities(ps[1..], fs[1..]);
    }
  }

  /** The status, from the set of bindings alone: HOLD if some HIGH binding flags, else
      ESCALATE if some MEDIUM one does, else ALLOW_WITH_FLAG if any does, else ALLOW. */
  ghost function StatusOf(ps: seq<GoverningPolicy>, e: Event): VerdictStatus {
    if SomeFlags(ps, e, HIGH) then RECOMMEND_HOLD
    else if SomeFlags(ps, e, MEDIUM) then ESCALATE_FOR_REVIEW
    else if SomeFlags(ps, e, LOW) then ALLOW_WITH_FLAG
    else ALLOW
  }

  lemma StatusIsMostRestrictive(ps: seq<GoverningPolicy>, e: Event)
    requires Govern(ps, e).Some?
    ensures Govern(ps, e).value.status == StatusOf(ps, e)
  {
    var fs := Evaluate(ps, e).value;
    var flagged := FlaggedSeverities(ps, fs);
    FlaggedSeveritiesAre(ps, fs, e, HIGH);
    FlaggedSeveritiesAre(ps, fs, e, MEDIUM);
    FlaggedSeveritiesAre(ps, fs, e, LOW);
    if flagged != [] {
      MaxSeverityIsMax(flagged);
    } else {
      assert HIGH !in flagged && MEDIUM !in flagged && LOW !in flagged;
    }
  }

  /** Binding order does not matter to the status. */
  lemma OrderIrrelevant(ps: seq<GoverningPolicy>, qs: seq<GoverningPolicy>, e: Event)
    requires (forall p :: p in ps <==> p in qs) && Govern(ps, e).Some?
    ensures Govern(qs, e).Some? && Govern(qs, e).value.status == Govern(ps, e).value.status
  {
    forall i | 0 <= i < |qs| ensures qs[i].policy.evaluate(e).Some? {
      assert qs[i] in ps;
    }
    StatusIsMostRestrictive(ps, e);
    StatusIsMostRestrictive(qs, e);
    assert forall s :: SomeFlags(ps, e, s) <==> SomeFlags(qs, e, s);
  }

  /** Adding bindings, anywhere, never relaxes the verdict. */
  lemma AddingNeverRelaxes(ps: seq<GoverningPolicy>, qs: seq<GoverningPolicy>, e: Event)
    requires (forall p :: p in ps ==> p in qs) && Govern(ps, e).Some? && Govern(qs, e).Some?
    ensures Restrictiveness(Govern(ps, e).value.status) <= Restrictiveness(Govern(qs, e).value.status)
  {
    StatusIsMostRestrictive(ps, e);
    StatusIsMostRestrictive(qs, e);
    forall s | SomeFlags(ps, e, s) ensures SomeFlags(qs, e, s) {
      var p :| p in ps && Flags(p, e, s);
      assert p in qs;
    }
  }

  /** A verdict is queued for review exactly when a MEDIUM or HIGH binding flags. */
  lemma ReviewableExactly(ps: seq<GoverningPolicy>, e: Event)
    requires Govern(ps, e).Some?
    ensures Govern(ps, e).value.status in REVIEWABLE_VERDICT_STATUSES <==>
              SomeFlags(ps, e, MEDIUM) || SomeFlags(ps, e, HIGH)
  {
    StatusIsMostRestrictive(ps, e);
  }
}
