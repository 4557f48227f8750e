/** The batch run over every ACTIVE population policy binding: at most one finding per
    policy, system and window, each binding on its own, and a queued review for each flag. */
module PopulationBatch {
  import opened Wrappers
  import opened Schemas
  import opened Bindings
  import opened RegistryLookup
  import opened PopulationWindow
  import opened PopulationFindings
  import opened PopulationAttempt
  import PluginRegistry
  import Reviews

  const DAY: int := 86400

  /** `default_window`: yesterday's full UTC day, over seconds since the epoch. */
  function DefaultWindow(now: int): (w: Window)
    ensures w.end <= now < w.end + DAY && w.start == w.end - DAY && w.end % DAY == 0
  {
    Window(now - now % DAY - DAY, now - now % DAY)
  }

  /** Every instant lies in the window of exactly the runs made on the next day: the windows
      leave no gap and never overlap. */
  lemma WindowsTile(instant: int, now: int)
    ensures var w := DefaultWindow(now);
            w.start <= instant < w.end <==> now / DAY == instant / DAY + 1
  {
    var day := instant / DAY;
    assert instant == DAY * day + instant % DAY;
    assert now == DAY * (now / DAY) + now % DAY;
  }

  /** The stored findings by their unique key, and the review table beside them. */
  datatype State = State(findings: map<Key, Row>, reviews: Reviews.Table)

  /** One run's surroundings: what decides what each binding comes to, the signed row a finding
      is stored as, and whether a binding's review write, whose failures are swallowed, fails. */
  datatype Env = Env(
    window: Window,
    process: Process,
    store: Finding -> Row,
    reviewId: PopulationBinding -> string,
    queueFails: PopulationBinding -> bool,
    now: int)

  /** What this binding comes to. */
  function Evaluate(env: Env, b: PopulationBinding): Attempt {
    AttemptOf(env.process, env.window, b)
  }

  /** The signed row this binding's finding is stored as. */
  function RowOf(env: Env, b: PopulationBinding): Option<Row> {
    match Evaluate(env, b)
    case Computes(f) => Some(env.store(f))
    case _ => None
  }

  function KeyFor(w: Window, b: PopulationBinding): Key {
    Key(b.pair.policyId, b.pair.subject, w.start, w.end)
  }

  /** The row this binding adds to what is stored, if any. */
  function NewFinding(env: Env, findings: map<Key, Row>, b: PopulationBinding): Option<Row> {
    match RowOf(env, b)
    case Some(row) => if KeyFor(env.window, b) in findings then None else Some(row)
    case None => None
  }

  /** `_queue_population_finding_review`. */
  function Queue(env: Env, reviews: Reviews.Table, b: PopulationBinding, row: Row): Reviews.Table {
    if row.outcome != FLAG || env.queueFails(b) then reviews
    else Reviews.Apply(reviews, Reviews.Create(env.reviewId(b), row.id, env.now))
  }

  /** `run_population_policy_binding`. */
  function Step(env: Env, s: State, b: PopulationBinding): State {
    match NewFinding(env, s.findings, b)
    case None => s
    case Some(row) => State(s.findings[KeyFor(env.window, b) := row], Queue(env, s.reviews, b, row))
  }

  function RunBatch(env: Env, s: State, bs: seq<PopulationBinding>): State {
    if bs == [] then s else Step(env, RunBatch(env, s, bs[..|bs| - 1]), bs[|bs| - 1])
  }

  /** The stored findings after a run, in one expression and with no order of bindings. */
  ghost predicate IsClosedForm(env: Env, before: map<Key, Row>, bs: seq<PopulationBinding>, after: map<Key, Row>) {
    && (forall k :: k in before ==> k in after && after[k] == before[k])
    && (forall b :: b in bs && NewFinding(env, before, b).Some? ==>
          KeyFor(env.window, b) in after && after[KeyFor(env.window, b)] == NewFinding(env, before, b).value)
    && (forall k :: k in after && k !in before ==>
          exists b :: b in bs && NewFinding(env, before, b).Some? && KeyFor(env.window, b) == k)
  }

  /** A binding of a pair not seen before finds its key as it was. */
  lemma OwnKeyUntouched(env: Env, before: map<Key, Row>, init: seq<PopulationBinding>, mid: map<Key, Row>,
                        last: PopulationBinding)
    requires IsClosedForm(env, before, init, mid)
    requires forall b :: b in init ==> KeyFor(env.window, b) != KeyFor(env.window, last)
    ensures KeyFor(env.window, last) in mid <==> KeyFor(env.window, last) in before
    ensures NewFinding(env, mid, last) == NewFinding(env, before, last)
  {}

  lemma SameBindings(env: Env, before: map<Key, Row>, init: seq<PopulationBinding>, mid: map<Key, Row>,
                     last: PopulationBinding)
    requires IsClosedForm(env, before, init, mid) && NewFinding(env, before, last).None?
    ensures IsClosedForm(env, before, init + [last], mid)
  {
    assert forall b :: b in init ==> b in init + [last];
  }

  /** One more binding, of a pair not seen before, extends the closed form. */
  lemma ClosedFormStep(env: Env, before: map<Key, Row>, init: seq<PopulationBinding>, mid: map<Key, Row>,
                       last: PopulationBinding)
    requires IsClosedForm(env, before, init, mid) && NewFinding(env, before, last).Some?
    requires forall b :: b in init ==> KeyFor(env.window, b) != KeyFor(env.window, last)
    ensures IsClosedForm(env, before, init + [last],
              mid[KeyFor(env.window, last) := NewFinding(env, before, last).value])
  {
    var after := mid[KeyFor(env.window, last) := NewFinding(env, before, last).value];
    assert last in init + [last];
    forall j | j in after && j !in before
      ensures exists b :: b in init + [last] && NewFinding(env, before, b).Some? && KeyFor(env.window, b) == j
    {
      if j != KeyFor(env.window, last) {
        var b :| b in init && NewFinding(env, before, b).Some? && KeyFor(env.window, b) == j;
        assert b in init + [last];
      }
    }
  }

  lemma {:induction false} RunClosedForm(env: Env, s: State, bs: seq<PopulationBinding>)
    requires DistinctPairs(bs)
    ensures IsClosedForm(env, s.findings, bs, RunBatch(env, s, bs).findings)
  {
    if bs != [] {
      var n := |bs| - 1;
      var (init, last) := (bs[..n], bs[n]);
      assert bs == init + [last];
      RunClosedForm(env, s, init);
      forall b | b in init ensures KeyFor(env.window, b) != KeyFor(env.window, last) {
        var i :| 0 <= i < n && bs[i] == b;
        assert bs[i].pair != bs[n].pair;
      }
      var mid := RunBatch(env, s, init).findings;
      OwnKeyUntouched(env, s.findings, init, mid, last);
      if NewFinding(env, s.findings, last).Some? {
        ClosedFormStep(env, s.findings, init, mid, last);
      } else {
        SameBindings(env, s.findings, init, mid, last);
      }
    }
  }

  lemma ClosedFormUnique(env: Env, before: map<Key, Row>, bs: seq<PopulationBinding>, cs: seq<PopulationBinding>,
                         a: map<Key, Row>, c: map<Key, Row>)
    requires IsClosedForm(env, before, bs, a) && IsClosedForm(env, before, cs, c)
    requires forall b :: b in bs <==> b in cs
    ensures a == c
  {
    forall k ensures (k in a <==> k in c) && (k in a ==> a[k] == c[k]) {}
  }

  /** The order bindings are listed in, and so the way ties of `created_at` fall, changes
      neither the stored keys nor the outcomes. */
  lemma OrderIrrelevant(env: Env, s: State, bs: seq<PopulationBinding>, cs: seq<PopulationBinding>)
    requires DistinctPairs(bs) && DistinctPairs(cs) && forall b :: b in bs <==> b in cs
    ensures RunBatch(env, s, bs).findings == RunBatch(env, s, cs).findings
  {
    RunClosedForm(env, s, bs);
    RunClosedForm(env, s, cs);
    ClosedFormUnique(env, s.findings, bs, cs, RunBatch(env, s, bs).findings, RunBatch(env, s, cs).findings);
  }

  /** The two runs may differ in what becomes of `odd` alone. */
  ghost predicate DifferIn(env: Env, other: Env, odd: PopulationBinding) {
    && other.window == env.window && other.store == env.store
    && forall b :: b != odd ==> Evaluate(other, b) == Evaluate(env, b)
  }

  lemma SameElsewhere(env: Env, other: Env, before: map<Key, Row>, bs: seq<PopulationBinding>, odd: PopulationBinding,
                      k: Key, a: map<Key, Row>, c: map<Key, Row>)
    requires IsClosedForm(env, before, bs, a) && IsClosedForm(other, before, bs, c)
    requires DifferIn(env, other, odd) && k != KeyFor(env.window, odd)
    ensures k in a ==> k in c && c[k] == a[k]
  {
    if k in a && k !in before {
      var b :| b in bs && NewFinding(env, before, b).Some? && KeyFor(env.window, b) == k;
      assert b != odd && RowOf(other, b) == RowOf(env, b);
    }
  }

  /** However one binding fares, every other key ends up with the same finding. */
  lemma FailuresStayApart(env: Env, other: Env, s: State, bs: seq<PopulationBinding>, odd: PopulationBinding, k: Key)
    requires DistinctPairs(bs) && DifferIn(env, other, odd) && k != KeyFor(env.window, odd)
    ensures var (a, c) := (RunBatch(env, s, bs).findings, RunBatch(other, s, bs).findings);
            (k in a <==> k in c) && (k in a ==> a[k] == c[k])
  {
    var (a, c) := (RunBatch(env, s, bs).findings, RunBatch(other, s, bs).findings);
    RunClosedForm(env, s, bs);
    RunClosedForm(other, s, bs);
    SameElsewhere(env, other, s.findings, bs, odd, k, a, c);
    SameElsewhere(other, env, s.findings, bs, odd, k, c, a);
  }

  /** `again` repeats `env`'s run of the same window; only what failed may now turn out
      differently, and a finding computed anew may differ from the stored one. */
  ghost predicate Repeats(env: Env, again: Env) {
    && again.window == env.window
    && forall b :: !Evaluate(env, b).Raises? && !Evaluate(env, b).Computes? ==> Evaluate(again, b) == Evaluate(env, b)
  }

  /** On the second run a binding has a finding to add exactly when it raised the first time,
      computes now, and had no finding stored before. */
  lemma AddsNow(env: Env, again: Env, s: State, bs: seq<PopulationBinding>, b: PopulationBinding)
    requires DistinctPairs(bs) && Repeats(env, again) && b in bs
    ensures NewFinding(again, RunBatch(env, s, bs).findings, b).Some? <==>
            Evaluate(env, b).Raises? && Evaluate(again, b).Computes? && KeyFor(env.window, b) !in s.findings
  {
    RunClosedForm(env, s, bs);
    if Evaluate(env, b).Raises? && KeyFor(env.window, b) !in s.findings {
      RaisedKeyAbsent(env, s, bs, b);
    }
  }

  /** Running the same window again adds a finding exactly when a binding raised the first
      time, computes now, and had no finding stored before. After an error-free run it adds
      nothing: no finding, no review. */
  lemma {:induction false} RerunAdds(env: Env, again: Env, s: State, bs: seq<PopulationBinding>)
    requires DistinctPairs(bs) && Repeats(env, again)
    ensures var once := RunBatch(env, s, bs);
            var twice := RunBatch(again, once, bs);
            twice.findings != once.findings <==>
              exists b :: b in bs && Evaluate(env, b).Raises? && Evaluate(again, b).Computes?
                  && KeyFor(env.window, b) !in s.findings
    ensures (forall b :: b in bs ==> !Evaluate(env, b).Raises?) ==>
              RunBatch(again, RunBatch(env, s, bs), bs) == RunBatch(env, s, bs)
  {
    var once := RunBatch(env, s, bs);
    forall b | b in bs
      ensures NewFinding(again, once.findings, b).Some? <==>
              Evaluate(env, b).Raises? && Evaluate(again, b).Computes? && KeyFor(env.window, b) !in s.findings
    {
      AddsNow(env, again, s, bs, b);
    }
    AddsSome(again, once, bs);
  }

  lemma AddsSome(env: Env, s: State, bs: seq<PopulationBinding>)
    requires DistinctPairs(bs)
    ensures RunBatch(env, s, bs).findings != s.findings <==> exists b :: b in bs && NewFinding(env, s.findings, b).Some?
    ensures (forall b :: b in bs ==> NewFinding(env, s.findings, b).None?) ==> RunBatch(env, s, bs) == s
  {
    RunClosedForm(env, s, bs);
    if b :| b in bs && NewFinding(env, s.findings, b).Some? {
      assert KeyFor(env.window, b) in RunBatch(env, s, bs).findings;
    } else {
      NothingNew(env, s, bs);
    }
  }

  lemma RaisedKeyAbsent(env: Env, s: State, bs: seq<PopulationBinding>, b: PopulationBinding)
    requires DistinctPairs(bs) && b in bs && Evaluate(env, b).Raises? && KeyFor(env.window, b) !in s.findings
    ensures KeyFor(env.window, b) !in RunBatch(env, s, bs).findings
  {
    RunClosedForm(env, s, bs);
    if KeyFor(env.window, b) in RunBatch(env, s, bs).findings {
      var c :| c in bs && NewFinding(env, s.findings, c).Some? && KeyFor(env.window, c) == KeyFor(env.window, b);
      SamePairSameBinding(bs, b, c);
    }
  }

  lemma SamePairSameBinding(bs: seq<PopulationBinding>, b: PopulationBinding, c: PopulationBinding)
    requires DistinctPairs(bs) && b in bs && c in bs && b.pair == c.pair
    ensures b == c
  {
    var i :| 0 <= i < |bs| && bs[i] == b;
    var j :| 0 <= j < |bs| && bs[j] == c;
  }

  lemma {:induction false} NothingNew(env: Env, s: State, bs: seq<PopulationBinding>)
    requires forall b :: b in bs ==> NewFinding(env, s.findings, b) == None
    ensures RunBatch(env, s, bs) == s
  {
    if bs != [] {
      assert bs == bs[..|bs| - 1] + [bs[|bs| - 1]];
      NothingNew(env, s, bs[..|bs| - 1]);
    }
  }

  /** A review is active for a subject, and stays so through any batch run. */
  lemma {:induction false} ReviewsKept(env: Env, s: State, bs: seq<PopulationBinding>, subjectId: string)
    requires Reviews.TableInv(s.reviews)
    ensures Reviews.TableInv(RunBatch(env, s, bs).reviews)
    ensures Reviews.HasActive(s.reviews, subjectId) ==> Reviews.HasActive(RunBatch(env, s, bs).reviews, subjectId)
  {
    if bs != [] {
      var n := |bs| - 1;
      ReviewsKept(env, s, bs[..n], subjectId);
      var mid := RunBatch(env, s, bs[..n]);
      var finding := NewFinding(env, mid.findings, bs[n]);
      if finding.Some? {
        QueueKeeps(env, mid.reviews, bs[n], finding.value, subjectId);
      }
    }
  }

  lemma QueueKeeps(env: Env, t: Reviews.Table, b: PopulationBinding, finding: Row, subjectId: string)
    requires Reviews.TableInv(t)
    ensures Reviews.TableInv(Queue(env, t, b, finding))
    ensures Reviews.HasActive(t, subjectId) ==> Reviews.HasActive(Queue(env, t, b, finding), subjectId)
    ensures forall id :: id in t ==> id in Queue(env, t, b, finding) && Queue(env, t, b, finding)[id] == t[id]
    ensures finding.outcome == FLAG && !env.queueFails(b) && env.reviewId(b) !in t ==>
              Reviews.HasActive(Queue(env, t, b, finding), finding.id)
  {
    var op := Reviews.Create(env.reviewId(b), finding.id, env.now);
    Reviews.ApplyInv(t, op);
    if Reviews.HasActive(t, subjectId) {
      var id :| id in t && t[id].subjectId == subjectId && Reviews.Active(t[id]);
      assert id in Queue(env, t, b, finding) && Queue(env, t, b, finding)[id] == t[id];
    }
    if Reviews.Judge(t, op) == Reviews.Done {
      assert op.id in Reviews.Apply(t, op);
    }
  }

  /** Review ids are fresh uuids: no two bindings draw the same one, nor one in use. */
  ghost predicate FreshReviewIds(env: Env, t: Reviews.Table, bs: seq<PopulationBinding>) {
    && (forall b :: b in bs ==> env.reviewId(b) !in t)
    && (forall i, j :: 0 <= i < j < |bs| ==> env.reviewId(bs[i]) != env.reviewId(bs[j]))
  }

  lemma {:induction false} ReviewIdsUsed(env: Env, s: State, bs: seq<PopulationBinding>, id: string)
    requires id in RunBatch(env, s, bs).reviews
    ensures id in s.reviews || exists b :: b in bs && env.reviewId(b) == id
  {
    if bs != [] {
      var n := |bs| - 1;
      assert bs == bs[..n] + [bs[n]];
      if id in RunBatch(env, s, bs[..n]).reviews {
        ReviewIdsUsed(env, s, bs[..n], id);
      }
    }
  }

  /** A binding's own turn finds the keys and the review ids it needs still free. */
  lemma OwnTurn(env: Env, s: State, bs: seq<PopulationBinding>)
    requires bs != [] && DistinctPairs(bs) && FreshReviewIds(env, s.reviews, bs)
    ensures var (init, b) := (bs[..|bs| - 1], bs[|bs| - 1]);
            var mid := RunBatch(env, s, init);
            NewFinding(env, mid.findings, b) == NewFinding(env, s.findings, b) && env.reviewId(b) !in mid.reviews
  {
    var (init, b) := (bs[..|bs| - 1], bs[|bs| - 1]);
    var mid := RunBatch(env, s, init);
    RunClosedForm(env, s, init);
    assert b in bs;
    if env.reviewId(b) in mid.reviews {
      ReviewIdsUsed(env, s, init, env.reviewId(b));
    }
  }

  /** What is queued before the last binding's turn, or flagged in it, is queued after it. */
  lemma LastKeeps(env: Env, s: State, bs: seq<PopulationBinding>, id: string)
    requires bs != [] && DistinctPairs(bs) && Reviews.TableInv(s.reviews) && FreshReviewIds(env, s.reviews, bs)
    requires var (init, last) := (bs[..|bs| - 1], bs[|bs| - 1]);
             || Reviews.HasActive(RunBatch(env, s, init).reviews, id)
             || (NewFinding(env, s.findings, last).Some? && NewFinding(env, s.findings, last).value.id == id
                 && NewFinding(env, s.findings, last).value.outcome == FLAG && !env.queueFails(last))
    ensures Reviews.HasActive(RunBatch(env, s, bs).reviews, id)
  {
    var (init, last) := (bs[..|bs| - 1], bs[|bs| - 1]);
    var mid := RunBatch(env, s, init);
    ReviewsKept(env, s, init, id);
    OwnTurn(env, s, bs);
    var finding := NewFinding(env, mid.findings, last);
    if finding.Some? {
      QueueKeeps(env, mid.reviews, last, finding.value, id);
    }
  }

  /** Every finding this run flags has an active review when the run is over, unless the
      write of its review failed. */
  lemma {:induction false} FlaggedIsQueued(env: Env, s: State, bs: seq<PopulationBinding>, b: PopulationBinding)
    requires DistinctPairs(bs) && Reviews.TableInv(s.reviews) && FreshReviewIds(env, s.reviews, bs) && b in bs
    requires NewFinding(env, s.findings, b).Some? && NewFinding(env, s.findings, b).value.outcome == FLAG
               && !env.queueFails(b)
    ensures Reviews.HasActive(RunBatch(env, s, bs).reviews, NewFinding(env, s.findings, b).value.id)
  {
    var (init, last) := (bs[..|bs| - 1], bs[|bs| - 1]);
    assert bs == init + [last];
    if b != last {
      assert forall c :: c in init ==> c in bs;
      FlaggedIsQueued(env, s, init, b);
    }
    LastKeeps(env, s, bs, NewFinding(env, s.findings, b).value.id);
  }

  lemma QueueAdds(env: Env, t: Reviews.Table, b: PopulationBinding, row: Row, id: string)
    requires id in Queue(env, t, b, row)
    ensures id in t ==> Queue(env, t, b, row)[id] == t[id]
    ensures id !in t ==>
              && id == env.reviewId(b) && row.outcome == FLAG && !env.queueFails(b)
              && Queue(env, t, b, row)[id].subjectId == row.id
              && Queue(env, t, b, row)[id].status == Reviews.OPEN && Queue(env, t, b, row)[id].createdAt == env.now
  {
    assert Reviews.Create(env.reviewId(b), row.id, env.now).Create?;
  }

  /** The review is opened now, of a finding the run stores, whose outcome is FLAG and whose review
      write does not fail. */
  ghost predicate QueuedFor(env: Env, s: State, bs: seq<PopulationBinding>, r: Reviews.Review, id: string) {
    exists b :: b in bs && QueuedBy(env, s, b, r, id)
  }

  predicate QueuedBy(env: Env, s: State, b: PopulationBinding, r: Reviews.Review, id: string) {
    && env.reviewId(b) == id && !env.queueFails(b)
    && NewFinding(env, s.findings, b).Some? && NewFinding(env, s.findings, b).value.outcome == FLAG
    && r.subjectId == NewFinding(env, s.findings, b).value.id
    && r.status == Reviews.OPEN && r.createdAt == env.now
  }

  /** A run adds no other reviews than those; none is of a CLEAR finding. */
  lemma {:induction false} OnlyFlaggedQueued(env: Env, s: State, bs: seq<PopulationBinding>, id: string)
    requires DistinctPairs(bs) && FreshReviewIds(env, s.reviews, bs)
    requires id in RunBatch(env, s, bs).reviews && id !in s.reviews
    ensures QueuedFor(env, s, bs, RunBatch(env, s, bs).reviews[id], id)
  {
    var (init, last) := (bs[..|bs| - 1], bs[|bs| - 1]);
    var mid := RunBatch(env, s, init);
    assert bs == init + [last];
    OwnTurn(env, s, bs);
    var finding := NewFinding(env, mid.findings, last);
    if finding.Some? {
      QueueAdds(env, mid.reviews, last, finding.value, id);
    }
    if id in mid.reviews {
      assert forall c :: c in init ==> c in bs;
      OnlyFlaggedQueued(env, s, init, id);
      var b :| b in init && QueuedBy(env, s, b, mid.reviews[id], id);
      assert b in bs && QueuedBy(env, s, b, RunBatch(env, s, bs).reviews[id], id);
    } else {
      assert last in bs && QueuedBy(env, s, last, RunBatch(env, s, bs).reviews[id], id);
    }
  }

  /** An event counts in the default window of exactly the runs made on the next UTC day, if its
      model version is one of the system's, and in no other run's. */
  lemma CountedOnce(versions: map<string, string>, systemId: string, e: DecisionEvent, now: int)
    ensures var w := DefaultWindow(now);
            InScope(Scope(versions, systemId, w.start, w.end), e) <==>
            && e.modelVersionId in versions && versions[e.modelVersionId] == systemId
            && now / DAY == e.occurredAt / DAY + 1
  {
    WindowsTile(e.occurredAt, now);
  }

  // ----- From the registry and the raw events -----

  /** One run over the registry and the events of one binding's system, its window not yet
      computed: afterwards there is a finding, it flags if and only if the events fall short for
      some DIRECT attribute, and then it has an active review unless that write failed. */
  lemma BatchFromEvents(env: Env, registry: PluginRegistry.Registry, s: State, bs: seq<PopulationBinding>,
                        b: PopulationBinding, k: PluginRegistry.Key, versions: map<string, string>,
                        es: seq<DecisionEvent>)
    requires DistinctPairs(bs) && b in bs && KeyFor(env.window, b) !in s.findings
    requires Reviews.TableInv(s.reviews) && FreshReviewIds(env, s.reviews, bs)
    requires ReadsRegistry(env.process, registry) && PluginRegistry.OneProduction(registry)
    requires InProduction(registry, b.pair.policyId, k) && (k.pluginId, k.version) in env.process.deployed
               && IsFourFifths(env.process.deployed[(k.pluginId, k.version)])
    requires env.process.direct(b.pair.subject).Some? && !env.process.storeFails(b)
    requires CountsEvents(env.process, env.window, b.pair.subject, versions, es)
    requires forall f :: exists signature :: env.store(f) == Store(f, signature)
    ensures var (after, key) := (RunBatch(env, s, bs), KeyFor(env.window, b));
            && key in after.findings
            && after.findings[key].systemId == b.pair.subject
            && after.findings[key].windowStart == env.window.start && after.findings[key].windowEnd == env.window.end
            && (after.findings[key].outcome == FLAG <==>
                  FallsShortFor(env.process.direct(b.pair.subject).value, env.window, b, versions, es))
            && (after.findings[key].outcome == FLAG && !env.queueFails(b) ==>
                  Reviews.HasActive(after.reviews, after.findings[key].id))
  {
    AttemptFromEvents(env.process, registry, env.window, b, k, versions, es);
    RunClosedForm(env, s, bs);
    assert NewFinding(env, s.findings, b) == Some(env.store(Evaluate(env, b).finding));
    var signature :| env.store(Evaluate(env, b).finding) == Store(Evaluate(env, b).finding, signature);
    StoredColumns(Evaluate(env, b).finding, signature);
    if env.store(Evaluate(env, b).finding).outcome == FLAG && !env.queueFails(b) {
      FlaggedIsQueued(env, s, bs, b);
    }
  }

  // ----- The program -----

  datatype Line = SkipNotRegistered | SkipNotDeployed | SkipAlreadyComputed | FindingLine(outcome: Outcome) | ErrorLine

  /** Finding ids are fresh uuids: from the i-th binding on none is in use, and no two
      bindings draw the same one. */
  ghost predicate FreshFrom(env: Env, rows: map<string, Row>, bs: seq<PopulationBinding>, i: nat) {
    && (forall j :: i <= j < |bs| && RowOf(env, bs[j]).Some? ==> RowOf(env, bs[j]).value.id !in rows)
    && (forall j, k :: 0 <= j < k < |bs| && RowOf(env, bs[j]).Some? && RowOf(env, bs[k]).Some? ==>
          RowOf(env, bs[j]).value.id != RowOf(env, bs[k]).value.id)
  }

  lemma StillFresh(env: Env, before: map<string, Row>, after: map<string, Row>, bs: seq<PopulationBinding>, i: nat)
    requires i < |bs| && FreshFrom(env, before, bs, i)
    requires forall id :: id in after ==> id in before || (RowOf(env, bs[i]).Some? && id == RowOf(env, bs[i]).value.id)
    ensures FreshFrom(env, after, bs, i + 1)
  {}

  /** A finding is signed over its hash and stored with the signature; and a policy reports
      itself and the system and window it was given, as those of this code base do. */
  ghost predicate StoresSigned(env: Env, hash: Finding -> string, sign: string -> string, b: PopulationBinding) {
    Evaluate(env, b).Computes? ==>
      var f := Evaluate(env, b).finding;
      && env.store(f) == Store(f, Some(sign(hash(f))))
      && KeyOf(env.store(f)) == KeyFor(env.window, b)
  }

  /** What the loop has reported on the bindings so far. */
  predicate Reported(env: Env, bindings: seq<PopulationBinding>, lines: seq<Line>, hadError: bool) {
    && |lines| <= |bindings|
    && (hadError <==> exists j :: 0 <= j < |lines| && lines[j] == ErrorLine)
    && forall j :: 0 <= j < |lines| ==> (lines[j] == ErrorLine <==> Evaluate(env, bindings[j]).Raises?)
  }

  lemma ReportedNext(env: Env, bindings: seq<PopulationBinding>, lines: seq<Line>, hadError: bool, line: Option<Line>)
    requires Reported(env, bindings, lines, hadError) && |lines| < |bindings| && line != Some(ErrorLine)
    requires line == None <==> Evaluate(env, bindings[|lines|]).Raises?
    ensures Reported(env, bindings, lines + [if line.Some? then line.value else ErrorLine], hadError || line == None)
  {
    var lines' := lines + [if line.Some? then line.value else ErrorLine];
    if hadError {
      var j :| 0 <= j < |lines| && lines[j] == ErrorLine;
      assert lines'[j] == ErrorLine;
    }
    if line == None {
      assert lines'[|lines|] == ErrorLine;
    }
  }

  lemma ReportedAll(env: Env, bindings: seq<PopulationBinding>, lines: seq<Line>, hadError: bool)
    requires Reported(env, bindings, lines, hadError) && |lines| == |bindings|
    ensures hadError <==> exists b :: b in bindings && Evaluate(env, b).Raises?
  {
    if hadError {
      var j :| 0 <= j < |lines| && lines[j] == ErrorLine;
      assert bindings[j] in bindings;
    }
    forall b | b in bindings && Evaluate(env, b).Raises? ensures hadError {
      var j :| 0 <= j < |bindings| && bindings[j] == b;
      assert lines[j] == ErrorLine;
    }
  }

  class Database {
    const hash: Finding -> string
    const sign: string -> string
    const findings: PopulationFindingRepository
    var reviews: Reviews.Table

    ghost function Abstract(): State
      reads this, findings
    {
      State(findings.byKey, reviews)
    }

    constructor (hash: Finding -> string, sign: string -> string)
      ensures this.hash == hash && this.sign == sign
      ensures fresh(findings) && findings.Valid() && Abstract() == State(map[], map[])
    {
      this.hash, this.sign := hash, sign;
      findings := new PopulationFindingRepository();
      reviews := map[];
    }

    /** None when it raises. The finding is committed first; then its review is queued in a
        transaction of its own, whose failure changes neither the finding nor the result. */
    method RunPopulationPolicyBinding(env: Env, b: PopulationBinding) returns (line: Option<Line>)
      requires StoresSigned(env, hash, sign, b)
      requires findings.Valid() && (RowOf(env, b).Some? ==> RowOf(env, b).value.id !in findings.rows)
      modifies this, findings
      ensures findings.Valid() && Abstract() == Step(env, old(Abstract()), b)
      ensures forall id :: id in findings.rows ==>
                id in old(findings.rows) || (RowOf(env, b).Some? && id == RowOf(env, b).value.id)
      ensures line == None <==> Evaluate(env, b).Raises?
      ensures line == Some(SkipNotRegistered) <==> Evaluate(env, b).NotRegistered?
      ensures line == Some(SkipNotDeployed) <==> Evaluate(env, b).NotDeployed?
      ensures line == Some(SkipAlreadyComputed) <==>
              Evaluate(env, b).Computes? && NewFinding(env, old(Abstract()).findings, b) == None
      ensures line == Some(SkipAlreadyComputed) <==>
              Evaluate(env, b).Computes? && exists id ::
                && id in old(findings.rows)
                && old(findings.rows)[id].policyId == b.pair.policyId
                && old(findings.rows)[id].systemId == b.pair.subject
                && old(findings.rows)[id].windowStart == env.window.start
                && old(findings.rows)[id].windowEnd == env.window.end
      ensures line.Some? && line.value.FindingLine? <==> NewFinding(env, old(Abstract()).findings, b).Some?
      ensures line.Some? && line.value.FindingLine? ==> line.value.outcome == Evaluate(env, b).finding.outcome
      ensures line != Some(ErrorLine)
    {
      var registration := FirstProduction(env.process.registrations(b.pair.policyId));
      if registration.None? {
        return Some(SkipNotRegistered);
      }
      var version := (registration.value.pluginId, registration.value.version);
      if version !in env.process.deployed {
        return Some(SkipNotDeployed);
      }
      var direct := env.process.direct(b.pair.subject);
      if direct.None? {
        return None;
      }
      var groups := BuildGroupCounts(direct.value, QueryOf(env.process, b.pair.subject));
      var evaluated :=
        env.process.deployed[version](PolicyInput(b.pair.subject, env.window, groups, direct.value, b.config));
      if evaluated.None? || env.process.storeFails(b) {
        return None;
      }
      var finding := evaluated.value;
      var signature := sign(hash(finding));
      var created := findings.Create(finding, Some(signature), true);
      if !created {
        return Some(SkipAlreadyComputed);
      }
      if finding.outcome == FLAG && !env.queueFails(b) {
        reviews := Reviews.Apply(reviews, Reviews.Create(env.reviewId(b), finding.id, env.now));
      }
      return Some(FindingLine(finding.outcome));
    }

    /** `main`, over the bindings it has listed: the exit code is 1 exactly when some
        binding raised, and none of the others is affected by it. */
    method RunPolicies(env: Env, bindings: seq<PopulationBinding>) returns (exitCode: int, lines: seq<Line>)
      requires forall b :: b in bindings ==> StoresSigned(env, hash, sign, b)
      requires findings.Valid() && FreshFrom(env, findings.rows, bindings, 0)
      modifies this, findings
      ensures findings.Valid() && Abstract() == RunBatch(env, old(Abstract()), bindings)
      ensures exitCode == 0 || exitCode == 1
      ensures exitCode == 1 <==> exists b :: b in bindings && Evaluate(env, b).Raises?
      ensures |lines| == |bindings| && Reported(env, bindings, lines, exitCode == 1)
    {
      var hadError := false;
      lines := [];
      for i := 0 to |bindings|
        invariant findings.Valid() && FreshFrom(env, findings.rows, bindings, i)
        invariant Abstract() == RunBatch(env, old(Abstract()), bindings[..i])
        invariant |lines| == i && Reported(env, bindings, lines, hadError)
      {
        assert bindings[..i + 1][..i] == bindings[..i] && bindings[i] in bindings;
        ghost var before := findings.rows;
        var line := RunPopulationPolicyBinding(env, bindings[i]);
        StillFresh(env, before, findings.rows, bindings, i);
        ReportedNext(env, bindings, lines, hadError, line);
        hadError := hadError || line == None;
        lines := lines + [if line.Some? then line.value else ErrorLine];
      }
      assert bindings[..|bindings|] == bindings;
      exitCode := if hadError then 1 else 0;
      ReportedAll(env, bindings, lines, hadError);
    }
  }

  /** Fresh ids, however the bindings are listed. */
  ghost predicate FreshFor(env: Env, rows: map<string, Row>, bs: set<PopulationBinding>) {
    && (forall b :: b in bs && RowOf(env, b).Some? ==> RowOf(env, b).value.id !in rows)
    && (forall b, c :: b in bs && c in bs && b != c && RowOf(env, b).Some? && RowOf(env, c).Some? ==>
          RowOf(env, b).value.id != RowOf(env, c).value.id)
  }

  lemma FreshWhenListed(env: Env, rows: map<string, Row>, bs: set<PopulationBinding>, listed: seq<PopulationBinding>)
    requires FreshFor(env, rows, bs) && DistinctPairs(listed) && forall b :: b in listed <==> b in bs
    ensures FreshFrom(env, rows, listed, 0)
  {
    forall i, j | 0 <= i < j < |listed| && RowOf(env, listed[i]).Some? && RowOf(env, listed[j]).Some?
      ensures RowOf(env, listed[i]).value.id != RowOf(env, listed[j]).value.id
    {
      assert listed[i] in listed && listed[j] in listed && listed[i].pair != listed[j].pair;
    }
  }

  /** From the binding table to the findings table: no pair is ACTIVE twice, so however the
      database breaks ties of `created_at`, one run of the batch comes to one result. */
  method RunActiveBindings(repository: BindingRepository<Parameters>, db: Database, env: Env)
    returns (exitCode: int)
    requires Bindings.Inv(repository.rows) && db.findings.Valid()
    requires forall b :: b in ActiveRows(repository.rows, None) ==> StoresSigned(env, db.hash, db.sign, b)
    requires FreshFor(env, db.findings.rows, ActiveRows(repository.rows, None))
    modifies db, db.findings
    ensures db.findings.Valid()
    ensures exists bindings :: (forall b :: b in bindings <==> b in ActiveRows(repository.rows, None))
              && DistinctPairs(bindings) && db.Abstract() == RunBatch(env, old(db.Abstract()), bindings)
              && IsClosedForm(env, old(db.findings.byKey), bindings, db.findings.byKey)
    ensures exitCode == 0 <==> forall b :: b in ActiveRows(repository.rows, None) ==> !Evaluate(env, b).Raises?
  {
    var bindings := repository.ListActive(None);
    ActiveListing(repository.rows, None, bindings);
    FreshWhenListed(env, db.findings.rows, ActiveRows(repository.rows, None), bindings);
    var lines;
    exitCode, lines := db.RunPolicies(env, bindings);
    RunClosedForm(env, old(db.Abstract()), bindings);
  }
}
