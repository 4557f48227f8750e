/** The writers of reviews racing one another: appends whose queue step may be lost, any
    number of reconciliation runs, and the reviewers. */
module Reconciliation {
  import opened Wrappers
  import opened Schemas
  import opened Reviews
  import Repo = ReviewRepository

  function Reviewable(verdicts: map<string, VerdictStatus>): set<string> {
    set v | v in verdicts && verdicts[v] in REVIEWABLE_VERDICT_STATUSES
  }

  /** One reconciliation run in flight. `snapshot` is what its first query returned, `left`
      what its loop has still to visit; `created` and `errored` are the verdicts it counts,
      and a verdict whose insert is lost at the commit is counted under both. */
  datatype RunState = RunState(snapshot: set<string>, left: set<string>, created: set<string>, errored: set<string>)

  datatype World = World(verdicts: map<string, VerdictStatus>, reviews: Table, runs: map<nat, RunState>)

  /** A queue step that fails is swallowed, and leaves nothing behind. */
  datatype Action =
    | CommitVerdict(verdictId: string, status: VerdictStatus)
    | QueueReview(verdictId: string, reviewId: string, now: int)
    | QueueFails(verdictId: string)
    | Reviewer(op: Op)
    | StartRun(run: nat)
    | ReconcileOne(run: nat, verdictId: string, reviewId: string, now: int)
    | FailOne(run: nat, verdictId: string, atCommit: bool)

  /** A writer of reviews draws a fresh uuid for each attempt. */
  predicate Enabled(w: World, a: Action) {
    match a
    case CommitVerdict(v, _) => v !in w.verdicts
    case QueueReview(v, id, _) => v in Reviewable(w.verdicts) && id !in w.reviews
    case QueueFails(v) => v in Reviewable(w.verdicts)
    case Reviewer(op) => !op.Create?
    case StartRun(run) => run !in w.runs
    case ReconcileOne(run, v, id, _) => run in w.runs && v in w.runs[run].left && id !in w.reviews
    case FailOne(run, v, _) => run in w.runs && v in w.runs[run].left
  }

  function Step(w: World, a: Action): World {
    if !Enabled(w, a) then w
    else
      match a
      case CommitVerdict(v, status) => w.(verdicts := w.verdicts[v := status])
      case QueueReview(v, id, now) => w.(reviews := Apply(w.reviews, Create(id, v, now)))
      case QueueFails(_) => w
      case Reviewer(op) => w.(reviews := Apply(w.reviews, op))
      case StartRun(run) =>
        w.(runs := w.runs[run := RunState(Reviewable(w.verdicts), Reviewable(w.verdicts), {}, {})])
      case ReconcileOne(run, v, id, now) =>
        var r := w.runs[run];
        var op := Create(id, v, now);
        var inserted := if Judge(w.reviews, op) == Done then {v} else {};
        World(w.verdicts, Apply(w.reviews, op),
            w.runs[run := r.(left := r.left - {v}, created := r.created + inserted)])
      case FailOne(run, v, atCommit) =>
        var r := w.runs[run];
        var lost := if atCommit && !HasActive(w.reviews, v) then {v} else {};
        w.(runs := w.runs[run := RunState(r.snapshot, r.left - {v}, r.created + lost, r.errored + {v})])
  }

  function Run(w: World, actions: seq<Action>): World
    decreases |actions|
  {
    if actions == [] then w else Run(Step(w, actions[0]), actions[1..])
  }

  predicate RunInv(r: RunState) {
    r.left <= r.snapshot && r.created <= r.snapshot - r.left && r.errored <= r.snapshot - r.left
  }

  ghost predicate Inv(w: World) {
    TableInv(w.reviews) && forall run :: run in w.runs ==> RunInv(w.runs[run])
  }

  function ReviewOp(w: World, a: Action): Option<Op> {
    match a
    case QueueReview(v, id, now) => Some(Create(id, v, now))
    case Reviewer(op) => Some(op)
    case ReconcileOne(_, v, id, now) => Some(Create(id, v, now))
    case _ => None
  }

  lemma StepInv(w: World, a: Action)
    requires Inv(w)
    ensures Inv(Step(w, a))
  {
    if Enabled(w, a) && ReviewOp(w, a).Some? {
      ApplyInv(w.reviews, ReviewOp(w, a).value);
    }
  }

  lemma {:induction false} RunsInv(w: World, actions: seq<Action>)
    requires Inv(w)
    ensures Inv(Run(w, actions))
    decreases |actions|
  {
    if actions != [] {
      StepInv(w, actions[0]);
      RunsInv(Step(w, actions[0]), actions[1..]);
    }
  }

  // ----- What one action does to one verdict's active review -----

  /** A writer tries to insert a review of `v`. */
  predicate AttemptsFor(w: World, a: Action, v: string) {
    Enabled(w, a) && (a.QueueReview? || a.ReconcileOne?) && a.verdictId == v
  }

  /** And succeeds. */
  predicate CreatesFor(w: World, a: Action, v: string) {
    AttemptsFor(w, a, v) && Judge(w.reviews, ReviewOp(w, a).value) == Done
  }

  function Resolves(t: Table, op: Op): set<string> {
    if op.Resolve? && Judge(t, op) == Done then {t[op.id].subjectId} else {}
  }

  predicate ResolvesFor(w: World, a: Action, v: string) {
    Enabled(w, a) && a.Reviewer? && v in Resolves(w.reviews, a.op)
  }

  lemma ActiveKept(t: Table, op: Op, v: string)
    requires HasActive(t, v) && v !in Resolves(t, op)
    ensures HasActive(Apply(t, op), v)
  {
    var id :| id in t && t[id].subjectId == v && Active(t[id]);
    assert id in Apply(t, op) && Apply(t, op)[id].subjectId == v && Active(Apply(t, op)[id]);
  }

  lemma CreateMakesActive(t: Table, id: string, v: string, now: int)
    requires id !in t
    ensures HasActive(Apply(t, Create(id, v, now)), v)
  {
    if !HasActive(t, v) {
      assert Active(Apply(t, Create(id, v, now))[id]);
    }
  }

  lemma ResolveClears(t: Table, op: Op, v: string)
    requires TableInv(t) && v in Resolves(t, op)
    ensures HasActive(t, v) && !HasActive(Apply(t, op), v)
  {
    assert Active(t[op.id]);
    forall id | id in Apply(t, op) && Apply(t, op)[id].subjectId == v ensures !Active(Apply(t, op)[id]) {
      assert id != op.id ==> t[id] == Apply(t, op)[id];
    }
  }

  lemma NotMadeActive(t: Table, op: Op, v: string)
    requires !HasActive(t, v) && (op.Create? ==> op.subjectId != v)
    ensures !HasActive(Apply(t, op), v)
  {
    var t' := Apply(t, op);
    forall id | id in t' && t'[id].subjectId == v ensures !Active(t'[id]) {
      assert id in t && t[id].subjectId == v && !Active(t[id]);
    }
  }

  /** A verdict's active review appears by an insert and goes by a resolve, and nothing else
      touches it; an attempt inserts exactly when there is none. */
  lemma ActiveStep(w: World, a: Action, v: string)
    requires Inv(w)
    ensures HasActive(Step(w, a).reviews, v) <==>
              AttemptsFor(w, a, v) || (HasActive(w.reviews, v) && !ResolvesFor(w, a, v))
    ensures CreatesFor(w, a, v) <==> AttemptsFor(w, a, v) && !HasActive(w.reviews, v)
    ensures ResolvesFor(w, a, v) ==> HasActive(w.reviews, v)
  {
    if Enabled(w, a) && ReviewOp(w, a).Some? {
      var op := ReviewOp(w, a).value;
      if AttemptsFor(w, a, v) {
        CreateMakesActive(w.reviews, a.reviewId, v, a.now);
      } else if v in Resolves(w.reviews, op) {
        ResolveClears(w.reviews, op, v);
      } else if HasActive(w.reviews, v) {
        ActiveKept(w.reviews, op, v);
      } else {
        NotMadeActive(w.reviews, op, v);
      }
    }
  }

  // ----- Races between writers -----

  function Creations(w: World, actions: seq<Action>, v: string): nat
    decreases |actions|
  {
    if actions == [] then 0
    else (if CreatesFor(w, actions[0], v) then 1 else 0) + Creations(Step(w, actions[0]), actions[1..], v)
  }

  predicate SomeAttempt(w: World, actions: seq<Action>, v: string)
    decreases |actions|
  {
    actions != [] && (AttemptsFor(w, actions[0], v) || SomeAttempt(Step(w, actions[0]), actions[1..], v))
  }

  predicate SomeResolve(w: World, actions: seq<Action>, v: string)
    decreases |actions|
  {
    actions != [] && (ResolvesFor(w, actions[0], v) || SomeResolve(Step(w, actions[0]), actions[1..], v))
  }

  predicate WriterErrs(w: World, a: Action) {
    && Enabled(w, a) && (a.QueueReview? || a.ReconcileOne?)
    && Judge(w.reviews, ReviewOp(w, a).value) == Refused
  }

  /** Every attempt of every writer is answered by an insert or by the silent no-op. */
  predicate NoWriterErrs(w: World, actions: seq<Action>)
    decreases |actions|
  {
    actions != [] ==> !WriterErrs(w, actions[0]) && NoWriterErrs(Step(w, actions[0]), actions[1..])
  }

  /** Of any number of writers racing over one verdict, whatever else happens and as long as
      nobody resolves its review, exactly one inserts if there was no active review, and none
      if there was; the others do not fail. */
  lemma {:induction false} RaceHasOneWinner(w: World, actions: seq<Action>, v: string)
    requires Inv(w) && !SomeResolve(w, actions, v)
    ensures Creations(w, actions, v) == if !HasActive(w.reviews, v) && SomeAttempt(w, actions, v) then 1 else 0
    ensures HasActive(Run(w, actions).reviews, v) <==> HasActive(w.reviews, v) || SomeAttempt(w, actions, v)
    ensures NoWriterErrs(w, actions)
    decreases |actions|
  {
    if actions != [] {
      StepInv(w, actions[0]);
      ActiveStep(w, actions[0], v);
      RaceHasOneWinner(Step(w, actions[0]), actions[1..], v);
    }
  }

  // ----- What a run covers -----

  /** Exactly one active review. */
  ghost predicate ExactlyOneActive(t: Table, v: string) {
    exists id :: id in t && t[id].subjectId == v && Active(t[id])
                 && forall other :: other in t && t[other].subjectId == v && Active(t[other]) ==> other == id
  }

  lemma OneActiveExactly(t: Table, v: string)
    requires OneActive(t)
    ensures ExactlyOneActive(t, v) <==> HasActive(t, v)
  {}

  predicate Visited(w: World, run: nat, v: string) {
    run in w.runs && v in w.runs[run].snapshot && v !in w.runs[run].left
  }

  /** The run's visit raises while the verdict has no active review, or the review of a
      verdict the run has behind it is resolved. */
  predicate Loses(w: World, a: Action, run: nat, v: string) {
    || (Enabled(w, a) && a.FailOne? && a.run == run && a.verdictId == v && !HasActive(w.reviews, v))
    || (ResolvesFor(w, a, v) && Visited(w, run, v))
  }

  /** That happens, and no writer inserts a review of the verdict afterwards. */
  predicate Lost(w: World, actions: seq<Action>, run: nat, v: string)
    decreases |actions|
  {
    && actions != []
    && var w' := Step(w, actions[0]);
       || (Loses(w, actions[0], run, v) && Creations(w', actions[1..], v) == 0)
       || Lost(w', actions[1..], run, v)
  }

  lemma VisitStep(w: World, a: Action, run: nat, v: string)
    requires Inv(w)
    ensures Visited(w, run, v) ==> Visited(Step(w, a), run, v)
    ensures !Visited(w, run, v) && Visited(Step(w, a), run, v) ==>
              Enabled(w, a) && (a.FailOne? || a.ReconcileOne?) && a.run == run && a.verdictId == v
  {}

  lemma {:induction false} CoverExactly(w: World, actions: seq<Action>, run: nat, v: string)
    requires Inv(w) && Visited(Run(w, actions), run, v)
    ensures Visited(w, run, v) ==>
              (HasActive(Run(w, actions).reviews, v) <==>
                 !Lost(w, actions, run, v) && (HasActive(w.reviews, v) || Creations(w, actions, v) > 0))
    ensures !Visited(w, run, v) ==> (HasActive(Run(w, actions).reviews, v) <==> !Lost(w, actions, run, v))
    decreases |actions|
  {
    if actions != [] {
      StepInv(w, actions[0]);
      ActiveStep(w, actions[0], v);
      VisitStep(w, actions[0], run, v);
      CoverExactly(Step(w, actions[0]), actions[1..], run, v);
    }
  }

  /** Whatever interleaves with it, once a run has visited a verdict of its snapshot, that
      verdict has exactly one active review, if and only if neither its visit raised while
      there was none, nor its review was resolved after the visit, with no writer inserting
      one since. A resolve ahead of the visit does no harm: the visit reopens it. */
  lemma ReconciliationExactly(w: World, actions: seq<Action>, run: nat, v: string)
    requires Inv(w) && run !in w.runs && Visited(Run(w, actions), run, v)
    ensures ExactlyOneActive(Run(w, actions).reviews, v) <==> !Lost(w, actions, run, v)
  {
    RunsInv(w, actions);
    CoverExactly(w, actions, run, v);
    OneActiveExactly(Run(w, actions).reviews, v);
  }

  predicate NeverLoses(w: World, actions: seq<Action>, run: nat, v: string)
    decreases |actions|
  {
    actions != [] ==> !Loses(w, actions[0], run, v) && NeverLoses(Step(w, actions[0]), actions[1..], run, v)
  }

  lemma {:induction false} NeverLost(w: World, actions: seq<Action>, run: nat, v: string)
    requires NeverLoses(w, actions, run, v)
    ensures !Lost(w, actions, run, v)
    decreases |actions|
  {
    if actions != [] {
      NeverLost(Step(w, actions[0]), actions[1..], run, v);
    }
  }

  /** In particular: a finished run that no error and no resolve behind it has met leaves
      every verdict that was reviewable at its snapshot with exactly one active review. */
  lemma ReconciliationCovers(w: World, actions: seq<Action>, run: nat)
    requires Inv(w) && run !in w.runs && run in Run(w, actions).runs && Run(w, actions).runs[run].left == {}
    requires forall v :: v in Run(w, actions).runs[run].snapshot ==> NeverLoses(w, actions, run, v)
    ensures forall v :: v in Run(w, actions).runs[run].snapshot ==> ExactlyOneActive(Run(w, actions).reviews, v)
  {
    forall v | v in Run(w, actions).runs[run].snapshot ensures ExactlyOneActive(Run(w, actions).reviews, v) {
      NeverLost(w, actions, run, v);
      ReconciliationExactly(w, actions, run, v);
    }
  }

  // ----- What a run counts -----

  /** The run's visit of the verdict raises. */
  predicate ErrsOn(w: World, a: Action, run: nat, v: string) {
    Enabled(w, a) && a.FailOne? && a.run == run && a.verdictId == v
  }

  /** Its upsert inserts a review, which stays or is lost at the commit. */
  predicate CountsOn(w: World, a: Action, run: nat, v: string) {
    && Enabled(w, a) && !HasActive(w.reviews, v)
    && ((a.ReconcileOne? && a.run == run && a.verdictId == v) || (ErrsOn(w, a, run, v) && a.atCommit))
  }

  predicate SomeErr(w: World, actions: seq<Action>, run: nat, v: string)
    decreases |actions|
  {
    actions != [] && (ErrsOn(w, actions[0], run, v) || SomeErr(Step(w, actions[0]), actions[1..], run, v))
  }

  predicate SomeCount(w: World, actions: seq<Action>, run: nat, v: string)
    decreases |actions|
  {
    actions != [] && (CountsOn(w, actions[0], run, v) || SomeCount(Step(w, actions[0]), actions[1..], run, v))
  }

  function Counted(w: World, run: nat): set<string> {
    if run in w.runs then w.runs[run].created else {}
  }

  function Errored(w: World, run: nat): set<string> {
    if run in w.runs then w.runs[run].errored else {}
  }

  lemma CountsStep(w: World, a: Action, run: nat, v: string)
    ensures v in Errored(Step(w, a), run) <==> v in Errored(w, run) || ErrsOn(w, a, run, v)
    ensures v in Counted(Step(w, a), run) <==> v in Counted(w, run) || CountsOn(w, a, run, v)
  {}

  /** Whatever interleaves, a run counts a verdict as errored if and only if its visit raised, and
      as created if and only if its upsert inserted a review, lost at the commit or not. */
  lemma {:induction false} CountedExactly(w: World, actions: seq<Action>, run: nat, v: string)
    ensures v in Errored(Run(w, actions), run) <==> v in Errored(w, run) || SomeErr(w, actions, run, v)
    ensures v in Counted(Run(w, actions), run) <==> v in Counted(w, run) || SomeCount(w, actions, run, v)
    decreases |actions|
  {
    if actions != [] {
      CountsStep(w, actions[0], run, v);
      CountedExactly(Step(w, actions[0]), actions[1..], run, v);
    }
  }

  // ----- Running it again, beside everything else -----

  /** What a run has inserted for the verdicts in `vs`. */
  function CreatedFor(w: World, run: nat, vs: set<string>): set<string> {
    if run in w.runs then w.runs[run].created * vs else {}
  }

  lemma CreatedStep(w: World, a: Action, run: nat, vs: set<string>)
    requires Inv(w) && forall v :: v in vs ==> HasActive(w.reviews, v)
    ensures CreatedFor(Step(w, a), run, vs) == CreatedFor(w, run, vs)
  {
    if AttemptsFor(w, a, if a.ReconcileOne? then a.verdictId else "") && a.ReconcileOne? && a.verdictId in vs {
      assert HasActive(w.reviews, a.verdictId);
    }
  }

  /** While none of the reviews of `vs` is resolved, all of `vs` stays under active review,
      and no run, however many there are and whatever they race with, creates one for it. */
  lemma {:induction false} CoveredStaysCovered(w: World, actions: seq<Action>, run: nat, vs: set<string>)
    requires Inv(w) && forall v :: v in vs ==> HasActive(w.reviews, v) && !SomeResolve(w, actions, v)
    ensures forall v :: v in vs ==> HasActive(Run(w, actions).reviews, v) && Creations(w, actions, v) == 0
    ensures CreatedFor(Run(w, actions), run, vs) == CreatedFor(w, run, vs)
    decreases |actions|
  {
    if actions != [] {
      StepInv(w, actions[0]);
      CreatedStep(w, actions[0], run, vs);
      forall v | v in vs ensures HasActive(Step(w, actions[0]).reviews, v) && !CreatesFor(w, actions[0], v) {
        ActiveStep(w, actions[0], v);
      }
      CoveredStaysCovered(Step(w, actions[0]), actions[1..], run, vs);
    }
  }

  /** After a finished run that lost nothing, another run beside live traffic creates none for
      the verdicts of the first, as long as none of their reviews is resolved; if it found no
      newer verdicts it creates none at all. */
  lemma SecondRunCreatesNone(w: World, first: seq<Action>, run: nat, second: seq<Action>, again: nat)
    requires Inv(w) && run !in w.runs && run in Run(w, first).runs && Run(w, first).runs[run].left == {}
    requires forall v :: v in Run(w, first).runs[run].snapshot ==>
               NeverLoses(w, first, run, v) && !SomeResolve(Run(w, first), second, v)
    requires again !in Run(w, first).runs && again in Run(Run(w, first), second).runs
    ensures var (covered, r) := (Run(w, first).runs[run].snapshot, Run(Run(w, first), second).runs[again]);
            && r.created * covered == {}
            && (r.snapshot <= covered ==> r.created == {})
  {
    var covered := Run(w, first).runs[run].snapshot;
    ReconciliationCovers(w, first, run);
    RunsInv(w, first);
    CoveredStaysCovered(Run(w, first), second, again, covered);
    RunsInv(Run(w, first), second);
  }

  // ----- The one case a run does not cover -----

  const LOST_WORLD := World(map["v" := RECOMMEND_HOLD], map[], map[])

  function LosingActions(): seq<Action> {
    [StartRun(0)] + ([ReconcileOne(0, "v", "r", 1)]
      + ([Reviewer(Claim("r", "ann", 2))] + [Reviewer(Resolve("r", "ann", DISMISSED, "", 3))]))
  }

  lemma RunCons(w: World, a: Action, rest: seq<Action>)
    ensures Run(w, [a] + rest) == Run(Step(w, a), rest)
  {
    assert ([a] + rest)[1..] == rest;
  }

  /** One verdict: the run creates its review, a reviewer resolves it before the run is
      reported, and the finished, error-free run leaves it without an active one. */
  lemma ResolvedBehindTheRun()
    ensures var w' := Run(LOST_WORLD, LosingActions());
            && Inv(LOST_WORLD) && 0 in w'.runs && w'.runs[0] == RunState({"v"}, {}, {"v"}, {})
            && !HasActive(w'.reviews, "v")
  {
    var (claim, resolve) := (Reviewer(Claim("r", "ann", 2)), Reviewer(Resolve("r", "ann", DISMISSED, "", 3)));
    var w1 := Step(LOST_WORLD, StartRun(0));
    assert Reviewable(LOST_WORLD.verdicts) == {"v"};
    assert w1.runs == map[0 := RunState({"v"}, {"v"}, {}, {})];
    var w2 := Step(w1, ReconcileOne(0, "v", "r", 1));
    assert w2.reviews == map["r" := Review("r", "v", OPEN, None, None, None, 1, None, None)];
    assert {"v"} - {"v"} == {} && {} + {"v"} == {"v"};
    assert w2.runs == map[0 := RunState({"v"}, {}, {"v"}, {})];
    var w3 := Step(w2, claim);
    assert w3.reviews["r"].status == IN_REVIEW && w3.reviews["r"].reviewer == Some("ann");
    var w4 := Step(w3, resolve);
    assert w4.reviews.Keys == {"r"} && w4.reviews["r"].status == RESOLVED;
    RunCons(LOST_WORLD, StartRun(0), [ReconcileOne(0, "v", "r", 1)] + ([claim] + [resolve]));
    RunCons(w1, ReconcileOne(0, "v", "r", 1), [claim] + [resolve]);
    RunCons(w2, claim, [resolve]);
    RunCons(w3, resolve, []);
    assert [resolve] + [] == [resolve];
  }

  // ----- The tool itself, uninterrupted -----

  /** How one id's session goes: through, or raising before its upsert, or raising at its
      commit, which undoes the upsert but not the count the loop keeps of it. */
  datatype Session = Goes | FailsEarly | FailsAtCommit

  /** What the loop leaves in the table: one upsert per id, save those whose session raises.
      `mint` supplies the uuid each insert uses. */
  function After(t: Table, ids: seq<string>, session: string -> Session, mint: string -> string, now: int): Table {
    if ids == [] then t
    else
      var last := ids[|ids| - 1];
      var t' := After(t, ids[..|ids| - 1], session, mint, now);
      if session(last) == Goes then Apply(t', Create(mint(last), last, now)) else t'
  }

  function Count(ids: seq<string>, p: string -> bool): nat {
    if ids == [] then 0 else Count(ids[..|ids| - 1], p) + if p(ids[|ids| - 1]) then 1 else 0
  }

  predicate Distinct(ids: seq<string>) {
    forall i, j :: 0 <= i < j < |ids| ==> ids[i] != ids[j]
  }

  predicate FreshIds(t: Table, ids: seq<string>, mint: string -> string) {
    && (forall i, j :: 0 <= i < j < |ids| ==> mint(ids[i]) != mint(ids[j]))
    && (forall i :: 0 <= i < |ids| ==> mint(ids[i]) !in t)
  }

  lemma CreateElsewhere(t: Table, id: string, v: string, now: int, other: string)
    requires other != v && id !in t
    ensures HasActive(Apply(t, Create(id, v, now)), other) <==> HasActive(t, other)
  {
    if HasActive(t, other) {
      ActiveKept(t, Create(id, v, now), other);
    }
  }

  /** The loop keeps the table's invariant and every row it found, and works on each id by
      itself: the ids it visits without error end active, the others are as before. */
  lemma {:induction false} AfterVisits(t: Table, ids: seq<string>, session: string -> Session, mint: string -> string,
                                       now: int)
    requires TableInv(t) && FreshIds(t, ids, mint)
    ensures var t' := After(t, ids, session, mint, now);
            && TableInv(t')
            && (forall id :: id in t ==> id in t' && t'[id] == t[id])
            && (forall id :: id in t' ==> id in t || exists v :: v in ids && id == mint(v))
            && (forall v :: v in ids && session(v) == Goes ==> HasActive(t', v))
            && (forall v :: v !in ids ==> (HasActive(t', v) <==> HasActive(t, v)))
  {
    if ids != [] {
      var n := |ids| - 1;
      var last := ids[n];
      assert ids == ids[..n] + [last];
      AfterVisits(t, ids[..n], session, mint, now);
      var t1 := After(t, ids[..n], session, mint, now);
      if session(last) == Goes {
        assert mint(last) !in t1;
        ApplyInv(t1, Create(mint(last), last, now));
        CreateMakesActive(t1, mint(last), last, now);
        forall v | v != last ensures HasActive(Apply(t1, Create(mint(last), last, now)), v) <==> HasActive(t1, v) {
          CreateElsewhere(t1, mint(last), last, now, v);
        }
      }
    }
  }

  /** A row the loop adds is open, now, for one of the ids, which raised no error and had no active
      review. */
  lemma {:induction false} AddedRow(t: Table, ids: seq<string>, session: string -> Session, mint: string -> string,
                                    now: int, id: string)
    requires TableInv(t) && Distinct(ids) && FreshIds(t, ids, mint)
    requires id in After(t, ids, session, mint, now) && id !in t
    ensures var r := After(t, ids, session, mint, now)[id];
            && r.subjectId in ids && session(r.subjectId) == Goes && !HasActive(t, r.subjectId)
            && id == mint(r.subjectId) && r.status == OPEN && r.createdAt == now
  {
    var n := |ids| - 1;
    assert ids == ids[..n] + [ids[n]] && ids[..n + 1] == ids;
    VisitNext(t, ids, session, mint, now, n);
    if id in After(t, ids[..n], session, mint, now) {
      AddedRow(t, ids[..n], session, mint, now, id);
    }
  }

  /** The ids an insert is made for and stays: no error, and no active review at the start. */
  function Inserted(t: Table, session: string -> Session): string -> bool {
    v => session(v) == Goes && !HasActive(t, v)
  }

  /** The ids an insert is made for and lost: an error at the commit, and none at the start. */
  function LostAtCommit(t: Table, session: string -> Session): string -> bool {
    v => session(v) == FailsAtCommit && !HasActive(t, v)
  }

  function Erring(session: string -> Session): string -> bool {
    v => session(v) != Goes
  }

  lemma CountNext(ids: seq<string>, p: string -> bool, i: nat)
    requires i < |ids|
    ensures Count(ids[..i + 1], p) == Count(ids[..i], p) + if p(ids[i]) then 1 else 0
  {
    assert ids[..i + 1][..i] == ids[..i];
  }

  lemma VisitNext(t: Table, ids: seq<string>, session: string -> Session, mint: string -> string, now: int, i: nat)
    requires TableInv(t) && Distinct(ids) && FreshIds(t, ids, mint) && i < |ids|
    ensures var t' := After(t, ids[..i], session, mint, now);
            && mint(ids[i]) !in t' && (HasActive(t', ids[i]) <==> HasActive(t, ids[i]))
            && After(t, ids[..i + 1], session, mint, now)
                 == (if session(ids[i]) == Goes then Apply(t', Create(mint(ids[i]), ids[i], now)) else t')
  {
    assert ids[..i + 1][..i] == ids[..i];
    AfterVisits(t, ids[..i], session, mint, now);
    assert ids[i] !in ids[..i];
  }

  /** `reconcile_verdict_reviews`, and its twin for findings, over the ids its query returned
      in whatever order. `created` counts the reviews inserted and the inserts lost at their
      commit, which `errored` counts as well. */
  method Reconcile(repo: Repo.ReviewRepository, ids: seq<string>, session: string -> Session, mint: string -> string,
                   now: int)
    returns (created: nat, errored: nat)
    requires TableInv(repo.rows) && Distinct(ids) && FreshIds(repo.rows, ids, mint)
    modifies repo`rows
    ensures repo.rows == After(old(repo.rows), ids, session, mint, now)
    ensures errored == Count(ids, Erring(session))
    ensures created == Count(ids, Inserted(old(repo.rows), session)) + Count(ids, LostAtCommit(old(repo.rows), session))
  {
    created, errored := 0, 0;
    ghost var before := repo.rows;
    for i := 0 to |ids|
      invariant repo.rows == After(before, ids[..i], session, mint, now)
      invariant errored == Count(ids[..i], Erring(session))
      invariant created == Count(ids[..i], Inserted(before, session)) + Count(ids[..i], LostAtCommit(before, session))
    {
      var verdictId := ids[i];
      VisitNext(before, ids, session, mint, now, i);
      CountNext(ids, Erring(session), i);
      CountNext(ids, Inserted(before, session), i);
      CountNext(ids, LostAtCommit(before, session), i);
      if session(verdictId) == FailsEarly {
        errored := errored + 1;
      } else {
        var snapshot := repo.rows;
        var review := repo.Create(mint(verdictId), verdictId, now);
        if review.Some? {
          created := created + 1;
        }
        if session(verdictId) == FailsAtCommit {
          repo.rows := snapshot;
          errored := errored + 1;
        }
      }
    }
    assert ids[..|ids|] == ids;
  }

  /** The count is the number of the ids that are so. */
  lemma {:induction false} CountIsSize(ids: seq<string>, p: string -> bool)
    requires Distinct(ids)
    ensures Count(ids, p) == |set v | v in ids && p(v)|
  {
    if ids != [] {
      var n := |ids| - 1;
      assert ids == ids[..n] + [ids[n]];
      CountIsSize(ids[..n], p);
      var (all, rest) := (set v | v in ids && p(v), set v | v in ids[..n] && p(v));
      assert ids[n] !in ids[..n];
      assert all == rest + if p(ids[n]) then {ids[n]} else {};
    }
  }

  lemma {:induction false} CountZero(ids: seq<string>, p: string -> bool)
    ensures Count(ids, p) == 0 <==> forall v :: v in ids ==> !p(v)
  {
    if ids != [] {
      var n := |ids| - 1;
      assert ids == ids[..n] + [ids[n]];
      CountZero(ids[..n], p);
    }
  }

  /** `created` is what the table has grown by if and only if no session lost an insert at its
      commit. */
  lemma CreatedIsGrowthExactly(t: Table, ids: seq<string>, session: string -> Session, mint: string -> string,
                               now: int)
    requires TableInv(t) && Distinct(ids) && FreshIds(t, ids, mint)
    ensures |After(t, ids, session, mint, now)| == |t| + Count(ids, Inserted(t, session))
                + Count(ids, LostAtCommit(t, session))
            <==> forall v :: v in ids && session(v) == FailsAtCommit ==> HasActive(t, v)
  {
    GrowthExactly(t, ids, session, mint, now);
    CountZero(ids, LostAtCommit(t, session));
    var t' := After(t, ids, session, mint, now);
    assert |t'| == |t'.Keys| && |t| == |t.Keys|;
  }

  lemma CreateGrows(t: Table, id: string, v: string, now: int)
    requires id !in t
    ensures |Apply(t, Create(id, v, now)).Keys| == |t.Keys| + if HasActive(t, v) then 0 else 1
  {
    assert Apply(t, Create(id, v, now)).Keys == if HasActive(t, v) then t.Keys else t.Keys + {id};
  }

  /** The table grows by the inserts that stay. */
  lemma {:induction false} GrowthExactly(t: Table, ids: seq<string>, session: string -> Session,
                                         mint: string -> string, now: int)
    requires TableInv(t) && Distinct(ids) && FreshIds(t, ids, mint)
    ensures |After(t, ids, session, mint, now).Keys| == |t.Keys| + Count(ids, Inserted(t, session))
  {
    if ids != [] {
      var n := |ids| - 1;
      assert ids[..n + 1] == ids;
      VisitNext(t, ids, session, mint, now, n);
      GrowthExactly(t, ids[..n], session, mint, now);
      if session(ids[n]) == Goes {
        CreateGrows(After(t, ids[..n], session, mint, now), mint(ids[n]), ids[n], now);
      }
    }
  }

  /** One id without a review, whose insert is lost at the commit: it is counted as created and
      as errored, and there is no review. */
  lemma CountedTwice(mint: string -> string, now: int)
    ensures var session := (v: string) => FailsAtCommit;
            && After(map[], ["v"], session, mint, now) == map[]
            && Count(["v"], Inserted(map[], session)) + Count(["v"], LostAtCommit(map[], session)) == 1
            && Count(["v"], Erring(session)) == 1
  {
    var session := (v: string) => FailsAtCommit;
    assert ["v"][..0] == [];
    assert !HasActive(map[], "v");
    assert LostAtCommit(map[], session)("v") && !Inserted(map[], session)("v") && Erring(session)("v");
  }

  lemma {:induction false} NothingLacking(t: Table, ids: seq<string>, session: string -> Session,
                                          mint: string -> string, now: int)
    requires forall v :: v in ids ==> HasActive(t, v)
    ensures After(t, ids, session, mint, now) == t
  {
    if ids != [] {
      NothingLacking(t, ids[..|ids| - 1], session, mint, now);
    }
  }

  /** After an undisturbed run without errors every id has exactly one active review, and
      running the tool again, errors or none, leaves the table as it is. */
  lemma ReconciledOnce(t: Table, ids: seq<string>, mint: string -> string, now: int,
                       session: string -> Session, mintAgain: string -> string, later: int)
    requires TableInv(t) && FreshIds(t, ids, mint)
    ensures var t' := After(t, ids, v => Goes, mint, now);
            && (forall v :: v in ids ==> ExactlyOneActive(t', v))
            && After(t', ids, session, mintAgain, later) == t'
  {
    AfterVisits(t, ids, v => Goes, mint, now);
    var t' := After(t, ids, v => Goes, mint, now);
    forall v | v in ids ensures ExactlyOneActive(t', v) {
      OneActiveExactly(t', v);
    }
    NothingLacking(t', ids, session, mintAgain, later);
  }

  /** A verdict whose only reviews are RESOLVED is reopened by the next run. */
  lemma ResolvedIsReopened(t: Table, v: string, mint: string -> string, now: int)
    requires TableInv(t) && mint(v) !in t && !HasActive(t, v)
    ensures var t' := After(t, [v], x => Goes, mint, now);
            && InStatus(t', mint(v), OPEN) && t'[mint(v)].subjectId == v
            && forall id :: id in t ==> id in t' && t'[id] == t[id]
  {
    assert [v][..0] == [];
    assert After(t, [], x => Goes, mint, now) == t;
  }
}
