/** The evidence ledger and the reviews on one database: appends committing verdicts beside the
    writers of reviews, and what that carries from a request to the review of its verdict. */
module AppendToReview {
  import opened Wrappers
  import opened Schemas
  import Reviews
  import Ingestion
  import L = EvidenceLedger
  import R = Reconciliation

  datatype System = System(ledger: L.State, reviews: Reviews.Table, runs: map<nat, R.RunState>)

  const START := System(L.INITIAL, map[], map[])

  /** What the writers of reviews see: the verdicts are those the ledger has committed. */
  function ReviewWorld(s: System): R.World {
    R.World(s.ledger.tables.verdicts, s.reviews, s.runs)
  }

  datatype Action = Append(append: L.Action) | Review(review: R.Action)

  /** A verdict is committed by an append, and in no other way. */
  function Step(suite: L.Suite, s: System, a: Action): System {
    match a
    case Append(append) => s.(ledger := L.Step(suite, s.ledger, append))
    case Review(review) =>
      if review.CommitVerdict? then s
      else
        var w := R.Step(ReviewWorld(s), review);
        s.(reviews := w.reviews, runs := w.runs)
  }

  function Run(suite: L.Suite, s: System, actions: seq<Action>): System
    decreases |actions|
  {
    if actions == [] then s else Run(suite, Step(suite, s, actions[0]), actions[1..])
  }

  // ----- Each half is a run of its own -----

  /** What one action is to the ledger, and to the reviews: the commit of an append is the
      commit of its verdict. */
  function LedgerPart(a: Action): seq<L.Action> {
    if a.Append? then [a.append] else []
  }

  function ReviewPart(suite: L.Suite, s: System, a: Action): seq<R.Action> {
    match a
    case Append(append) =>
      if append.Commit? && L.Enabled(suite, s.ledger, append) then
        var req := s.ledger.txs[append.id].req;
        [R.CommitVerdict(req.verdictId, req.status)]
      else []
    case Review(review) => if review.CommitVerdict? then [] else [review]
  }

  function LedgerActions(actions: seq<Action>): seq<L.Action> {
    if actions == [] then [] else LedgerPart(actions[0]) + LedgerActions(actions[1..])
  }

  function ReviewActions(suite: L.Suite, s: System, actions: seq<Action>): seq<R.Action>
    decreases |actions|
  {
    if actions == [] then []
    else ReviewPart(suite, s, actions[0]) + ReviewActions(suite, Step(suite, s, actions[0]), actions[1..])
  }

  lemma StepRefines(suite: L.Suite, s: System, a: Action)
    requires L.Inv(suite, s.ledger)
    ensures var (mine, theirs) := (ReviewPart(suite, s, a), LedgerPart(a));
            && ReviewWorld(Step(suite, s, a))
               == (if mine == [] then ReviewWorld(s) else R.Step(ReviewWorld(s), mine[0]))
            && Step(suite, s, a).ledger == (if theirs == [] then s.ledger else L.Step(suite, s.ledger, theirs[0]))
  {
    if a.Append? && a.append.Commit? && L.Enabled(suite, s.ledger, a.append) {
      assert L.TxInv(suite, s.ledger, a.append.id);
    }
  }

  lemma RunPart(suite: L.Suite, s: System, a: Action, ls: seq<L.Action>, rs: seq<R.Action>)
    requires L.Inv(suite, s.ledger)
    ensures L.Run(suite, s.ledger, LedgerPart(a) + ls) == L.Run(suite, Step(suite, s, a).ledger, ls)
    ensures R.Run(ReviewWorld(s), ReviewPart(suite, s, a) + rs) == R.Run(ReviewWorld(Step(suite, s, a)), rs)
  {
    StepRefines(suite, s, a);
    var (mine, theirs) := (ReviewPart(suite, s, a), LedgerPart(a));
    if theirs == [] {
      assert theirs + ls == ls;
    } else {
      assert (theirs + ls)[1..] == ls;
    }
    if mine == [] {
      assert mine + rs == rs;
    } else {
      assert (mine + rs)[1..] == rs;
    }
  }

  /** Any interleaving of appends and writers of reviews is an interleaving of appends, and an
      interleaving of writers of reviews in which each commit of an append commits its verdict:
      all that is proved of either holds of both together. */
  lemma {:induction false} RunRefines(suite: L.Suite, s: System, actions: seq<Action>)
    requires L.Inv(suite, s.ledger)
    ensures Run(suite, s, actions).ledger == L.Run(suite, s.ledger, LedgerActions(actions))
    ensures ReviewWorld(Run(suite, s, actions)) == R.Run(ReviewWorld(s), ReviewActions(suite, s, actions))
    decreases |actions|
  {
    if actions != [] {
      var s' := Step(suite, s, actions[0]);
      if actions[0].Append? {
        L.StepInv(suite, s.ledger, actions[0].append);
      }
      RunPart(suite, s, actions[0], LedgerActions(actions[1..]), ReviewActions(suite, s', actions[1..]));
      RunRefines(suite, s', actions[1..]);
    }
  }

  // ----- What holds of both together -----

  predicate WrittenAs(verdicts: map<string, VerdictStatus>, written: seq<L.Request>, i: nat) {
    i < |written| && written[i].verdictId in verdicts && verdicts[written[i].verdictId] == written[i].status
  }

  ghost predicate HasEvidence(written: seq<L.Request>, v: string) {
    exists i :: 0 <= i < |written| && written[i].verdictId == v
  }

  /** The verdict table holds the verdicts of the committed requests, and no others. */
  ghost predicate Matching(verdicts: map<string, VerdictStatus>, written: seq<L.Request>) {
    && (forall i: nat :: i < |written| ==> WrittenAs(verdicts, written, i))
    && (forall v :: v in verdicts ==> HasEvidence(written, v))
  }

  lemma MatchingGrows(verdicts: map<string, VerdictStatus>, written: seq<L.Request>, req: L.Request)
    requires Matching(verdicts, written) && req.verdictId !in verdicts
    ensures Matching(verdicts[req.verdictId := req.status], written + [req])
  {
    var (verdicts', written') := (verdicts[req.verdictId := req.status], written + [req]);
    forall i: nat | i < |written'| ensures WrittenAs(verdicts', written', i) {
      assert i < |written| ==> WrittenAs(verdicts, written, i);
    }
    forall v | v in verdicts' ensures HasEvidence(written', v) {
      if v == req.verdictId {
        assert written'[|written|].verdictId == v;
      } else {
        var i :| 0 <= i < |written| && written[i].verdictId == v;
        assert written'[i].verdictId == v;
      }
    }
  }

  /** Only reviewable verdicts are reviewed, or visited by a reconciliation. */
  ghost predicate OnlyReviewable(w: R.World) {
    && (forall id :: id in w.reviews ==> w.reviews[id].subjectId in R.Reviewable(w.verdicts))
    && (forall run :: run in w.runs ==> w.runs[run].snapshot <= R.Reviewable(w.verdicts))
  }

  ghost predicate Inv(suite: L.Suite, s: System) {
    && L.Inv(suite, s.ledger) && Matching(s.ledger.tables.verdicts, s.ledger.written)
    && R.Inv(ReviewWorld(s)) && OnlyReviewable(ReviewWorld(s))
  }

  lemma ApplySubjects(t: Reviews.Table, op: Reviews.Op, allowed: set<string>)
    requires (forall id :: id in t ==> t[id].subjectId in allowed) && (op.Create? ==> op.subjectId in allowed)
    ensures forall id :: id in Reviews.Apply(t, op) ==> Reviews.Apply(t, op)[id].subjectId in allowed
  {}

  lemma OnlyReviewableStep(w: R.World, a: R.Action)
    requires R.Inv(w) && OnlyReviewable(w)
    ensures OnlyReviewable(R.Step(w, a))
  {
    if R.Enabled(w, a) && R.ReviewOp(w, a).Some? {
      if a.ReconcileOne? {
        assert a.verdictId in w.runs[a.run].left && w.runs[a.run].left <= w.runs[a.run].snapshot;
      }
      ApplySubjects(w.reviews, R.ReviewOp(w, a).value, R.Reviewable(w.verdicts));
    }
    assert R.Reviewable(w.verdicts) <= R.Reviewable(R.Step(w, a).verdicts);
  }

  /** The reviews' side of any step. */
  lemma ReviewSide(suite: L.Suite, s: System, a: Action)
    requires Inv(suite, s)
    ensures R.Inv(ReviewWorld(Step(suite, s, a))) && OnlyReviewable(ReviewWorld(Step(suite, s, a)))
  {
    StepRefines(suite, s, a);
    var part := ReviewPart(suite, s, a);
    if part != [] {
      R.StepInv(ReviewWorld(s), part[0]);
      OnlyReviewableStep(ReviewWorld(s), part[0]);
    }
  }

  /** The ledger's side. */
  lemma LedgerSide(suite: L.Suite, s: L.State, a: L.Action)
    requires L.Inv(suite, s) && Matching(s.tables.verdicts, s.written)
    ensures L.Inv(suite, L.Step(suite, s, a))
    ensures Matching(L.Step(suite, s, a).tables.verdicts, L.Step(suite, s, a).written)
  {
    L.StepInv(suite, s, a);
    if a.Commit? && L.Enabled(suite, s, a) {
      assert L.TxInv(suite, s, a.id);
      MatchingGrows(s.tables.verdicts, s.written, s.txs[a.id].req);
    }
  }

  /** In every interleaving: every review is of a verdict whose evidence is committed, and which
      is reviewable; verdicts and evidence match. */
  lemma {:induction false} RunInv(suite: L.Suite, s: System, actions: seq<Action>)
    requires Inv(suite, s)
    ensures Inv(suite, Run(suite, s, actions))
    decreases |actions|
  {
    if actions != [] {
      ReviewSide(suite, s, actions[0]);
      if actions[0].Append? {
        LedgerSide(suite, s.ledger, actions[0].append);
      }
      RunInv(suite, Step(suite, s, actions[0]), actions[1..]);
    }
  }

  // ----- From the evidence to its review -----

  lemma StepKeepsRows(suite: L.Suite, s: System, a: Action)
    ensures s.ledger.rows <= Step(suite, s, a).ledger.rows && s.ledger.written <= Step(suite, s, a).ledger.written
  {}

  lemma {:induction false} RunKeepsRows(suite: L.Suite, s: System, actions: seq<Action>)
    ensures s.ledger.rows <= Run(suite, s, actions).ledger.rows
    ensures s.ledger.written <= Run(suite, s, actions).ledger.written
    decreases |actions|
  {
    if actions != [] {
      StepKeepsRows(suite, s, actions[0]);
      RunKeepsRows(suite, Step(suite, s, actions[0]), actions[1..]);
    }
  }

  lemma {:induction false} SnapshotStays(w: R.World, actions: seq<R.Action>, run: nat)
    requires run in w.runs
    ensures run in R.Run(w, actions).runs && R.Run(w, actions).runs[run].snapshot == w.runs[run].snapshot
    decreases |actions|
  {
    if actions != [] {
      SnapshotStays(R.Step(w, actions[0]), actions[1..], run);
    }
  }

  /** A run that starts later finds every verdict there is to be reviewed now. */
  lemma {:induction false} SnapshotFinds(w: R.World, actions: seq<R.Action>, run: nat, v: string)
    requires run !in w.runs && run in R.Run(w, actions).runs && v in R.Reviewable(w.verdicts)
    ensures v in R.Run(w, actions).runs[run].snapshot
    decreases |actions|
  {
    if actions != [] {
      var w' := R.Step(w, actions[0]);
      assert v in R.Reviewable(w'.verdicts);
      if run in w'.runs {
        SnapshotStays(w', actions[1..], run);
      } else {
        SnapshotFinds(w', actions[1..], run, v);
      }
    }
  }

  /** The visit of a reconciliation to a verdict is undone. */
  predicate LostReview(suite: L.Suite, s: System, actions: seq<Action>, run: nat, v: string) {
    R.Lost(ReviewWorld(s), ReviewActions(suite, s, actions), run, v)
  }

  /** From the append to the review, over any interleaving of everything: evidence once committed
      stays where it is, and when a reconciliation that started after the commit of a reviewable
      verdict is finished, the verdict has exactly one active review if and only if that has not
      been lost. */
  lemma EvidenceIsReviewed(suite: L.Suite, first: seq<Action>, second: seq<Action>, run: nat, i: nat)
    requires var mid := Run(suite, START, first);
             var end := Run(suite, mid, second);
             && i < |mid.ledger.written| && mid.ledger.written[i].status in REVIEWABLE_VERDICT_STATUSES
             && run !in mid.runs && run in end.runs && end.runs[run].left == {}
    ensures var mid := Run(suite, START, first);
            var end := Run(suite, mid, second);
            var v := mid.ledger.written[i].verdictId;
            && i < |mid.ledger.rows| && mid.ledger.rows <= end.ledger.rows && mid.ledger.rows[i].verdictId == v
            && (R.ExactlyOneActive(end.reviews, v) <==> !LostReview(suite, mid, second, run, v))
  {
    var mid := Run(suite, START, first);
    var v := mid.ledger.written[i].verdictId;
    var w := ReviewWorld(mid);
    RunInv(suite, START, first);
    RunKeepsRows(suite, mid, second);
    assert L.ChainInv(suite, mid.ledger.rows, mid.ledger.written, mid.ledger.nextSequence);
    assert L.Chained(suite, mid.ledger.rows, mid.ledger.written, i) && WrittenAs(w.verdicts, mid.ledger.written, i);
    RunRefines(suite, mid, second);
    assert v in R.Reviewable(w.verdicts);
    SnapshotFinds(w, ReviewActions(suite, mid, second), run, v);
    R.ReconciliationExactly(w, ReviewActions(suite, mid, second), run, v);
  }

  /** The request an append was asked to write for this ingestion request. */
  predicate WrittenFor(req: L.Request, env: Ingestion.Environment) {
    && Ingestion.Governed(env).Accepted?
    && req.eventId == env.event.value.eventId && req.status == Ingestion.Governed(env).verdict.status
  }

  /** Some binding of more than LOW severity flags the event. */
  ghost predicate FlagsSeverely(env: Ingestion.Environment)
    requires Ingestion.Governed(env).Accepted?
  {
    Ingestion.AcceptedBindings(env);
    exists j: nat :: Ingestion.FlagsSeverely(env, Ingestion.Governed(env).verdict.findings, j)
  }

  /** And from the policies: once such a reconciliation is finished and has not lost it, the
      verdict on an event has exactly one active review if and only if a binding of MEDIUM or
      HIGH severity flagged the event; and none of any kind if not. */
  lemma FlaggedIsReviewed(suite: L.Suite, first: seq<Action>, second: seq<Action>, run: nat, i: nat,
                          env: Ingestion.Environment)
    requires var mid := Run(suite, START, first);
             var end := Run(suite, mid, second);
             && i < |mid.ledger.written| && WrittenFor(mid.ledger.written[i], env)
             && run !in mid.runs && run in end.runs && end.runs[run].left == {}
             && !LostReview(suite, mid, second, run, mid.ledger.written[i].verdictId)
    ensures var mid := Run(suite, START, first);
            var end := Run(suite, mid, second);
            var v := mid.ledger.written[i].verdictId;
            && (FlagsSeverely(env) ==> R.ExactlyOneActive(end.reviews, v))
            && (!FlagsSeverely(env) ==> forall id :: id in end.reviews ==> end.reviews[id].subjectId != v)
  {
    var mid := Run(suite, START, first);
    Ingestion.ReviewAttempted(env);
    if FlagsSeverely(env) {
      EvidenceIsReviewed(suite, first, second, run, i);
    } else {
      RunInv(suite, START, first);
      RunInv(suite, mid, second);
      RunKeepsRows(suite, mid, second);
      var end := Run(suite, mid, second).ledger;
      assert WrittenAs(end.tables.verdicts, end.written, i);
    }
  }
}
