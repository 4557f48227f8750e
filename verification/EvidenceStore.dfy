/** The store as one process uses it: an append with nobody else on the database, and the
    review queued after it. */
module EvidenceStore {
  import opened Wrappers
  import opened JsonText
  import opened Schemas
  import opened Encryption
  import opened HashChain
  import opened EvidenceLedger
  import opened LedgerContents
  import Reviews

  lemma RunCons(suite: Suite, s: State, a: Action, rest: seq<Action>)
    ensures Run(suite, s, [a] + rest) == Run(suite, Step(suite, s, a), rest)
  {
    assert ([a] + rest)[1..] == rest;
  }

  /** One append with nobody else on the database. A step that is refused leaves the rest
      refused too, up to the rollback; a rollback after the commit finds nothing to undo. */
  function AloneActions(req: Request, commitFails: bool): seq<Action> {
    [Begin(0, req)] + ([Lock(0)] + ([Stage(0)] + ([ReadTail(0)] + ([InsertRow(0)]
      + ((if commitFails then [] else [Commit(0)]) + [Rollback(0)])))))
  }

  lemma RunLast(suite: Suite, s: State, a: Action)
    ensures Run(suite, s, [a]) == Step(suite, s, a)
  {
    RunCons(suite, s, a, []);
    assert [a] + [] == [a];
  }

  /** Up to the insert. */
  function UpToInsert(suite: Suite, s: State, req: Request): State {
    var locked := Step(suite, Step(suite, s, Begin(0, req)), Lock(0));
    Step(suite, Step(suite, Step(suite, locked, Stage(0)), ReadTail(0)), InsertRow(0))
  }

  lemma RunUpToInsert(suite: Suite, s: State, req: Request, rest: seq<Action>)
    ensures Run(suite, s, [Begin(0, req)] + ([Lock(0)] + ([Stage(0)] + ([ReadTail(0)] + ([InsertRow(0)] + rest)))))
            == Run(suite, UpToInsert(suite, s, req), rest)
  {
    var e5 := [InsertRow(0)] + rest;
    var e4 := [ReadTail(0)] + e5;
    var e3 := [Stage(0)] + e4;
    var e2 := [Lock(0)] + e3;
    var s1 := Step(suite, s, Begin(0, req));
    var s2 := Step(suite, s1, Lock(0));
    var s3 := Step(suite, s2, Stage(0));
    var s4 := Step(suite, s3, ReadTail(0));
    RunCons(suite, s, Begin(0, req), e2);
    RunCons(suite, s1, Lock(0), e3);
    RunCons(suite, s2, Stage(0), e4);
    RunCons(suite, s3, ReadTail(0), e5);
    RunCons(suite, s4, InsertRow(0), rest);
  }

  function OnlyTx(s: State, req: Request, phase: Phase): State {
    s.(holder := Some(0), txs := map[0 := Tx(req, phase)])
  }

  lemma AloneLocked(suite: Suite, s: State, req: Request)
    requires s.txs == map[] && s.holder == None && Payload(req)
    ensures Step(suite, Step(suite, s, Begin(0, req)), Lock(0)) == OnlyTx(s, req, Locked)
  {
    var s1 := Step(suite, s, Begin(0, req));
    assert s1 == s.(txs := map[0 := Tx(req, Begun)]);
  }

  lemma AloneFromLock(suite: Suite, s: State, req: Request)
    ensures var row := BuildRow(suite, req, LatestHash(s.rows), s.nextSequence);
            Step(suite, Step(suite, Step(suite, OnlyTx(s, req, Locked), Stage(0)), ReadTail(0)), InsertRow(0)) ==
              if CanAdd(s.tables, req) then OnlyTx(s, req, Inserted(row)).(nextSequence := s.nextSequence + 1)
              else OnlyTx(s, req, Locked)
  {
    var s3 := Step(suite, OnlyTx(s, req, Locked), Stage(0));
    if CanAdd(s.tables, req) {
      assert s3 == OnlyTx(s, req, Staged);
      assert Step(suite, s3, ReadTail(0)) == OnlyTx(s, req, TailRead(LatestHash(s.rows)));
    } else {
      assert s3 == OnlyTx(s, req, Locked);
    }
  }

  lemma AloneUpToInsert(suite: Suite, s: State, req: Request)
    requires s.txs == map[] && s.holder == None && Payload(req)
    ensures var row := BuildRow(suite, req, LatestHash(s.rows), s.nextSequence);
            UpToInsert(suite, s, req) ==
              if CanAdd(s.tables, req) then OnlyTx(s, req, Inserted(row)).(nextSequence := s.nextSequence + 1)
              else OnlyTx(s, req, Locked)
  {
    AloneLocked(suite, s, req);
    AloneFromLock(suite, s, req);
  }

  lemma AloneRollback(suite: Suite, s: State, req: Request, phase: Phase)
    requires s.txs == map[] && s.holder == None
    ensures Step(suite, OnlyTx(s, req, phase), Rollback(0)) == s
  {
    assert OnlyTx(s, req, phase).txs - {0} == map[];
  }

  /** The end of the transaction, from the inserted row: committed, or rolled back when its
      hash is taken. */
  lemma AloneCommit(suite: Suite, s: State, req: Request, row: Row)
    requires s.txs == map[] && s.holder == None
    ensures Step(suite, Step(suite, OnlyTx(s, req, Inserted(row)), Commit(0)), Rollback(0)) ==
              if FreshHash(s.rows, row) then
                State(s.rows + [row], AddRows(s.tables, req), s.nextSequence, None, map[], s.written + [req])
              else s
  {
    var s5 := OnlyTx(s, req, Inserted(row));
    if FreshHash(s.rows, row) {
      assert s5.txs - {0} == map[];
    } else {
      AloneRollback(suite, s, req, Inserted(row));
    }
  }

  /** What one append with nobody else on the database comes to: all of its rows, or none of
      them, a failure after the insert still using up a number. */
  function AfterAlone(suite: Suite, s: State, req: Request, commitFails: bool): State {
    var row := BuildRow(suite, req, LatestHash(s.rows), s.nextSequence);
    if !CanAdd(s.tables, req) then s
    else if commitFails || !FreshHash(s.rows, row) then s.(nextSequence := s.nextSequence + 1)
    else State(s.rows + [row], AddRows(s.tables, req), s.nextSequence + 1, None, map[], s.written + [req])
  }

  /** The run, ending in a rollback or in an attempted commit. */
  lemma RunAloneEnds(suite: Suite, s: State, req: Request, commitFails: bool)
    ensures var inserted := UpToInsert(suite, s, req);
            Run(suite, s, AloneActions(req, commitFails))
            == Step(suite, if commitFails then inserted else Step(suite, inserted, Commit(0)), Rollback(0))
  {
    var inserted := UpToInsert(suite, s, req);
    if commitFails {
      assert [] + [Rollback(0)] == [Rollback(0)];
      RunUpToInsert(suite, s, req, [Rollback(0)]);
      RunLast(suite, inserted, Rollback(0));
    } else {
      RunUpToInsert(suite, s, req, [Commit(0)] + [Rollback(0)]);
      RunCons(suite, inserted, Commit(0), [Rollback(0)]);
      RunLast(suite, Step(suite, inserted, Commit(0)), Rollback(0));
    }
  }

  lemma RunAlone(suite: Suite, s: State, req: Request, commitFails: bool)
    requires s.txs == map[] && s.holder == None && Payload(req)
    ensures Run(suite, s, AloneActions(req, commitFails)) == AfterAlone(suite, s, req, commitFails)
  {
    var row := BuildRow(suite, req, LatestHash(s.rows), s.nextSequence);
    var used := s.(nextSequence := s.nextSequence + 1);
    RunAloneEnds(suite, s, req, commitFails);
    AloneUpToInsert(suite, s, req);
    AloneRollback(suite, s, req, Locked);
    AloneRollback(suite, used, req, Inserted(row));
    AloneCommit(suite, used, req, row);
  }

  /** It commits exactly when its own commit does not fail and nothing conflicts with what is
      there; and then its row stands at the end of the chain, and its event, each of its findings,
      its verdict and each of its resolutions are in their tables. */
  lemma AppendAddsAll(suite: Suite, s: State, req: Request, commitFails: bool)
    requires Inv(suite, s)
    ensures var after := AfterAlone(suite, s, req, commitFails);
            && (commitFails || Conflicts(suite, s.rows, s.tables, req) ==>
                  after.rows == s.rows && after.tables == s.tables && after.written == s.written)
            && (!commitFails && !Conflicts(suite, s.rows, s.tables, req) ==> Extends(suite, s, after, req))
  {
    AloneExactly(suite, s, req, BuildRow(suite, req, LatestHash(s.rows), s.nextSequence));
  }

  lemma AloneInv(suite: Suite, s: State, req: Request, commitFails: bool)
    requires Inv(suite, s) && s.txs == map[] && s.holder == None && Payload(req)
    ensures Inv(suite, AfterAlone(suite, s, req, commitFails))
  {
    RunAlone(suite, s, req, commitFails);
    InterleavingInv(suite, s, AloneActions(req, commitFails));
  }

  lemma {:induction false} RunConcat(suite: Suite, s: State, xs: seq<Action>, ys: seq<Action>)
    ensures Run(suite, s, xs + ys) == Run(suite, Run(suite, s, xs), ys)
    decreases |xs|
  {
    if xs == [] {
      assert xs + ys == ys;
    } else {
      assert xs + ys == [xs[0]] + (xs[1..] + ys);
      RunCons(suite, s, xs[0], xs[1..] + ys);
      RunConcat(suite, Step(suite, s, xs[0]), xs[1..], ys);
    }
  }

  /** Alone on the database, the ledger after each of three appends, the second of them failing
      at its commit. */
  lemma ThreeAlone(suite: Suite, a: Request, b: Request, c: Request)
    requires LawfulSuite(suite) && Payload(a) && Payload(b) && Payload(c)
    ensures Run(suite, INITIAL, AloneActions(a, false) + (AloneActions(b, true) + AloneActions(c, false)))
            == AfterAlone(suite, AfterAlone(suite, AfterAlone(suite, INITIAL, a, false), b, true), c, false)
  {
    var (xs, ys, zs) := (AloneActions(a, false), AloneActions(b, true), AloneActions(c, false));
    var s1 := AfterAlone(suite, INITIAL, a, false);
    RunAlone(suite, INITIAL, a, false);
    RunAlone(suite, s1, b, true);
    RunAlone(suite, AfterAlone(suite, s1, b, true), c, false);
    RunConcat(suite, INITIAL, xs, ys + zs);
    RunConcat(suite, s1, ys, zs);
  }

  lemma FirstAlone(suite: Suite, a: Request)
    requires CanAdd(EMPTY_TABLES, a)
    ensures var first := BuildRow(suite, a, GENESIS_HASH, 1);
            AfterAlone(suite, INITIAL, a, false) == State([first], AddRows(EMPTY_TABLES, a), 2, None, map[], [a])
  {
    assert LatestHash(INITIAL.rows) == GENESIS_HASH;
  }

  /** After one committed row, an append that burns a number and one that commits. */
  lemma BurnAndCommit(suite: Suite, s: State, first: Row, b: Request, c: Request)
    requires s.rows == [first] && CanAdd(s.tables, b) && CanAdd(s.tables, c)
    requires BuildRow(suite, c, first.recordHash, s.nextSequence + 1).recordHash != first.recordHash
    ensures AfterAlone(suite, AfterAlone(suite, s, b, true), c, false).rows
            == [first, BuildRow(suite, c, first.recordHash, s.nextSequence + 1)]
  {
    assert LatestHash(s.rows) == first.recordHash;
    assert AfterAlone(suite, s, b, true) == s.(nextSequence := s.nextSequence + 1);
  }

  /** Three appends one after another, of requests that share no key and whose texts the digest
      tells apart, the second failing at its commit: the ledger holds the numbers 1 and 3. */
  lemma ThreeAppendsLeaveAGap(suite: Suite, a: Request, b: Request, c: Request)
    requires LawfulSuite(suite) && Payload(a) && Payload(b) && Payload(c)
    requires CanAdd(EMPTY_TABLES, a) && CanAdd(AddRows(EMPTY_TABLES, a), b) && CanAdd(AddRows(EMPTY_TABLES, a), c)
    requires var first := BuildRow(suite, a, GENESIS_HASH, 1).recordHash;
             BuildRow(suite, c, first, 3).recordHash != first
    ensures var rows := Run(suite, INITIAL,
                            AloneActions(a, false) + (AloneActions(b, true) + AloneActions(c, false))).rows;
            && |rows| == 2 && rows[0].sequenceNumber == 1 && rows[1].sequenceNumber == 3 && !Gapless(rows)
  {
    var first := BuildRow(suite, a, GENESIS_HASH, 1);
    FirstAlone(suite, a);
    BurnAndCommit(suite, AfterAlone(suite, INITIAL, a, false), first, b, c);
    ThreeAlone(suite, a, b, c);
  }

  function Repeat(c: char, n: nat): (r: string)
    ensures |r| == n && forall i :: 0 <= i < n ==> r[i] == c
  {
    if n == 0 then "" else [c] + Repeat(c, n - 1)
  }

  /** A digest, of no use as one, that tells the first record's text from all later ones. */
  function ExampleDigest(text: string): (r: string)
    ensures |r| == 64
  {
    if GENESIS_HASH <= text then Repeat('1', 64) else Repeat('2', 64)
  }

  function ExampleRequest(id: string): Request {
    Request(id, id, ALLOW, {}, Some({}), Obj([Member("decision_event", Obj([])), Member("verdict", Obj([]))]), 0,
            Fernet("key"), 0, "key")
  }

  lemma ExamplePayload(id: string)
    ensures Payload(ExampleRequest(id))
  {
    assert "decision_event"[0] != "verdict"[0];
  }

  /** The first record's text starts with the genesis value, the third's does not. */
  lemma ExampleHashes(suite: Suite, a: Request, c: Request)
    requires suite.h == ExampleDigest
    ensures BuildRow(suite, a, GENESIS_HASH, 1).recordHash == Repeat('1', 64)
    ensures BuildRow(suite, c, Repeat('1', 64), 3).recordHash == Repeat('2', 64)
    ensures Repeat('1', 64) != Repeat('2', 64)
  {
    assert GENESIS_HASH <= Preimage(GENESIS_HASH, CanonicalJson(a.payload));
    assert Preimage(Repeat('1', 64), CanonicalJson(c.payload))[0] == '1' && GENESIS_HASH[0] == '0';
    assert Repeat('1', 64)[0] != Repeat('2', 64)[0];
  }

  lemma ExampleKeys()
    ensures var (a, b, c) := (ExampleRequest("a"), ExampleRequest("b"), ExampleRequest("c"));
            CanAdd(EMPTY_TABLES, a) && CanAdd(AddRows(EMPTY_TABLES, a), b) && CanAdd(AddRows(EMPTY_TABLES, a), c)
  {
    assert "a"[0] != "b"[0] && "a"[0] != "c"[0];
  }

  function ExampleActions(): seq<Action> {
    AloneActions(ExampleRequest("a"), false)
    + (AloneActions(ExampleRequest("b"), true) + AloneActions(ExampleRequest("c"), false))
  }

  lemma ExampleGap(suite: Suite)
    requires LawfulSuite(suite) && suite.h == ExampleDigest
    ensures !Gapless(Run(suite, INITIAL, ExampleActions()).rows)
  {
    ExamplePayload("a");
    ExamplePayload("b");
    ExamplePayload("c");
    ExampleKeys();
    ExampleHashes(suite, ExampleRequest("a"), ExampleRequest("c"));
    ThreeAppendsLeaveAGap(suite, ExampleRequest("a"), ExampleRequest("b"), ExampleRequest("c"));
  }

  function ExampleSuite(cipher: Cipher): Suite {
    Suite(ExampleDigest, (key, hash) => hash, key => key,
          (hash, signature, key) => if signature == hash then Matches else Mismatches, cipher)
  }

  /** Such requests there are, under a lawful suite, so the ledger's numbering does have gaps. */
  lemma SomeLedgerHasAGap()
    ensures exists suite, actions :: LawfulSuite(suite) && !Gapless(Run(suite, INITIAL, actions).rows)
  {
    LawsConsistent();
    var cipher :| Lawful(cipher);
    assert LawfulSuite(ExampleSuite(cipher));
    ExampleGap(ExampleSuite(cipher));
  }

  /** `_queue_verdict_review`, in a transaction of its own after the commit; its failure is
      swallowed. `reviewId` is a fresh uuid. */
  datatype QueueStep = QueueStep(fails: bool, reviewId: string, now: int)

  function Queued(reviews: Reviews.Table, req: Request, queue: QueueStep): Reviews.Table {
    if req.status !in REVIEWABLE_VERDICT_STATUSES || queue.fails then reviews
    else Reviews.Apply(reviews, Reviews.Create(queue.reviewId, req.verdictId, queue.now))
  }

  /** After a committed append of a reviewable verdict its review is active, unless the queue
      step failed; no other verdict's reviews are touched, and the table stays in order. */
  lemma QueuedIsActive(reviews: Reviews.Table, req: Request, queue: QueueStep)
    requires Reviews.TableInv(reviews) && queue.reviewId !in reviews
    ensures var t := Queued(reviews, req, queue);
            && Reviews.TableInv(t)
            && (req.status in REVIEWABLE_VERDICT_STATUSES && !queue.fails ==> Reviews.HasActive(t, req.verdictId))
            && forall id :: id in t && (id !in reviews || t[id] != reviews[id]) ==>
                 id == queue.reviewId && t[id].status == Reviews.OPEN && t[id].createdAt == queue.now &&
                 t[id].subjectId == req.verdictId && req.status in REVIEWABLE_VERDICT_STATUSES && !queue.fails
  {
    var op := Reviews.Create(queue.reviewId, req.verdictId, queue.now);
    Reviews.ApplyInv(reviews, op);
    if Reviews.Judge(reviews, op) == Reviews.Done {
      assert queue.reviewId in Reviews.Apply(reviews, op);
    }
  }

  /** What `append` returns: the row's columns, with the payload as it was handed in. */
  function ReturnedRecord(row: Row, req: Request): Record {
    Record(row.sequenceNumber, row.decisionEventId, row.verdictId, req.payload, row.previousHash, row.recordHash,
           row.recordedAt, row.signature)
  }

  /** `append` returns, or raises with nothing written, or raises with everything written: the
      row is read again after the commit, and that may fail. */
  datatype AppendOutcome = Appended(record: Record) | RolledBack | RaisedAfterCommit

  /** The store as one process uses it. `attempts` are the verdicts whose review it has tried
      to queue. */
  class EvidenceStore {
    const suite: Suite
    var rows: seq<Row>
    var tables: Tables
    var nextSequence: int
    var reviews: Reviews.Table
    var attempts: seq<string>
    ghost var written: seq<Request>

    constructor (suite: Suite)
      ensures this.suite == suite && Database() == INITIAL && reviews == map[] && attempts == []
    {
      this.suite := suite;
      reviews, attempts := map[], [];
      rows, tables, nextSequence, written := [], EMPTY_TABLES, 1, [];
    }

    ghost function Database(): State
      reads this`rows, this`tables, this`nextSequence, this`written
    {
      State(rows, tables, nextSequence, None, map[], written)
    }

    method QueueVerdictReview(req: Request, queue: QueueStep)
      modifies this`reviews, this`attempts
      ensures reviews == Queued(old(reviews), req, queue)
      ensures attempts == old(attempts) + if req.status in REVIEWABLE_VERDICT_STATUSES then [req.verdictId] else []
    {
      if req.status !in REVIEWABLE_VERDICT_STATUSES {
        return;
      }
      attempts := attempts + [req.verdictId];
      if !queue.fails {
        reviews := Reviews.Apply(reviews, Reviews.Create(queue.reviewId, req.verdictId, queue.now));
      }
    }

    /** The transaction of `append`: the row it commits, if it commits. */
    method AppendRows(req: Request, commitFails: bool) returns (committed: Option<Row>)
      requires Payload(req) && Inv(suite, Database())
      modifies this`rows, this`tables, this`nextSequence, this`written
      ensures Database() == AfterAlone(suite, old(Database()), req, commitFails) && Inv(suite, Database())
      ensures rows == old(rows) + if committed.Some? then [committed.value] else []
      ensures committed.Some? ==>
                && committed.value.decisionEventId == req.eventId && committed.value.verdictId == req.verdictId
                && committed.value.recordedAt == req.recordedAt
      ensures committed.None? ==> tables == old(tables)
    {
      AloneInv(suite, Database(), req, commitFails);
      if !CanAdd(tables, req) {
        return None;
      }
      var payloadJson := CanonicalJson(req.payload);
      var previousHash := LatestHash(rows);
      var recordHash := ComputeHash(suite.h, previousHash, payloadJson);
      var signature := suite.sign(req.signingKey, recordHash);
      var encryptedPayload := Encrypt(suite.cipher, req.encryptor, req.nonce, payloadJson);
      var row := Row(nextSequence, req.eventId, req.verdictId, encryptedPayload, previousHash, recordHash,
                     req.recordedAt, Some(signature));
      nextSequence := nextSequence + 1;
      if commitFails || !FreshHash(rows, row) {
        return None;
      }
      rows, tables, written := rows + [row], AddRows(tables, req), written + [req];
      return Some(row);
    }

    /** `append`: all of its rows or none of them, as the protocol with this one transaction
        in it. A committed append attempts the review if and only if the verdict is reviewable
        and the row could be read again; nothing of the result depends on how queueing goes. */
    method Append(req: Request, commitFails: bool, refreshFails: bool, queue: QueueStep)
      returns (outcome: AppendOutcome)
      requires Payload(req) && Inv(suite, Database())
      modifies this
      ensures Database() == AfterAlone(suite, old(Database()), req, commitFails) && Inv(suite, Database())
      ensures outcome == RolledBack <==> rows == old(rows)
      ensures outcome == RolledBack ==> tables == old(tables)
      ensures outcome == RaisedAfterCommit <==> rows != old(rows) && refreshFails
      ensures outcome.Appended? ==>
                var row := rows[|rows| - 1];
                outcome.record == Record(row.sequenceNumber, req.eventId, req.verdictId, req.payload, row.previousHash,
                                         row.recordHash, req.recordedAt, row.signature)
      ensures attempts == old(attempts)
                + if outcome.Appended? && req.status in {ESCALATE_FOR_REVIEW, RECOMMEND_HOLD} then [req.verdictId]
                  else []
      ensures reviews == if outcome.Appended? then Queued(old(reviews), req, queue) else old(reviews)
    {
      var committed := AppendRows(req, commitFails);
      outcome :=
        if committed.None? then RolledBack
        else if refreshFails then RaisedAfterCommit
        else Appended(ReturnedRecord(committed.value, req));
      if outcome.Appended? {
        QueueVerdictReview(req, queue);
      }
    }
  }
}
