/** The evidence ledger: append transactions interleaving on one database, the chain they
    commit, and the numbers they draw. */
module EvidenceLedger {
  import opened Wrappers
  import opened JsonText
  import opened Ordering
  import opened Schemas
  import opened Encryption
  import opened HashChain

  // ----- What one append is asked to write -----

  /** `resolutions` is None when resolving the event's protected attributes raises. */
  datatype Request = Request(
    eventId: string,
    verdictId: string,
    status: VerdictStatus,
    findingIds: set<string>,
    resolutions: Option<set<string>>,
    payload: Json,
    recordedAt: int,
    encryptor: Encryptor,
    nonce: int,
    signingKey: string)

  datatype Row = Row(
    sequenceNumber: int,
    decisionEventId: string,
    verdictId: string,
    payload: string,
    previousHash: string,
    recordHash: string,
    recordedAt: int,
    signature: Option<string>)

  /** The normalized tables an append fills beside the chain. */
  datatype Tables = Tables(
    events: set<string>,
    findings: set<string>,
    verdicts: map<string, VerdictStatus>,
    resolutions: set<string>)

  const EMPTY_TABLES := Tables({}, {}, map[], {})

  /** No primary key of the request is taken, and its attributes resolve. */
  predicate CanAdd(t: Tables, req: Request) {
    && req.eventId !in t.events
    && req.verdictId !in t.verdicts
    && req.findingIds !! t.findings
    && req.resolutions.Some?
    && req.resolutions.value !! t.resolutions
  }

  function AddRows(t: Tables, req: Request): Tables {
    Tables(t.events + {req.eventId}, t.findings + req.findingIds, t.verdicts[req.verdictId := req.status],
           t.resolutions + (if req.resolutions.Some? then req.resolutions.value else {}))
  }

  function TablesOf(written: seq<Request>): Tables {
    if written == [] then EMPTY_TABLES
    else AddRows(TablesOf(written[..|written| - 1]), written[|written| - 1])
  }

  // ----- Cryptography as functions -----

  /** `sign(key, hash)`; `publicKey(key)` is what a verifier is given. */
  datatype Suite = Suite(
    h: string -> string,
    sign: (string, string) -> string,
    publicKey: string -> string,
    check: SignatureCheck,
    cipher: Cipher)

  ghost predicate LawfulSuite(suite: Suite) {
    && Digest(suite.h)
    && Lawful(suite.cipher)
    && forall key, hash :: suite.check(hash, suite.sign(key, hash), suite.publicKey(key)) == Matches
  }

  /** Hash the plaintext, sign the hash, then encrypt the text. */
  function BuildRow(suite: Suite, req: Request, previousHash: string, sequenceNumber: int): Row {
    var payloadJson := CanonicalJson(req.payload);
    var recordHash := ComputeHash(suite.h, previousHash, payloadJson);
    Row(sequenceNumber, req.eventId, req.verdictId,
        Encrypt(suite.cipher, req.encryptor, req.nonce, payloadJson),
        previousHash, recordHash, req.recordedAt, Some(suite.sign(req.signingKey, recordHash)))
  }

  predicate SequenceLess(a: Row, b: Row) {
    a.sequenceNumber < b.sequenceNumber
  }

  /** The table in sequence order, as every reader asks for it. */
  function Ordered(rows: seq<Row>): seq<Row> {
    Sort(SequenceLess, rows)
  }

  /** `_latest_hash` over the committed rows. */
  function LatestHash(rows: seq<Row>): string {
    var ordered := Ordered(rows);
    if ordered == [] then GENESIS_HASH else ordered[|ordered| - 1].recordHash
  }

  // ----- Interleaved transactions -----

  /** How far one append has come. The advisory lock is held from Locked on. */
  datatype Phase = Begun | Locked | Staged | TailRead(previousHash: string) | Inserted(row: Row)

  datatype Tx = Tx(req: Request, phase: Phase)

  /** `rows` holds the committed chain in the order of the commits; `written` remembers the
      committed requests. A sequence number once drawn is never returned. */
  datatype State = State(
    rows: seq<Row>,
    tables: Tables,
    nextSequence: int,
    holder: Option<nat>,
    txs: map<nat, Tx>,
    written: seq<Request>)

  const INITIAL := State([], EMPTY_TABLES, 1, None, map[], [])

  datatype Action =
    | Begin(id: nat, req: Request)
    | Lock(id: nat)
    | Stage(id: nat)
    | ReadTail(id: nat)
    | InsertRow(id: nat)
    | Commit(id: nat)
    | Rollback(id: nat)

  predicate At(s: State, id: nat, phase: Phase) {
    id in s.txs && s.txs[id].phase == phase
  }

  /** The unique constraint on record hashes. */
  predicate FreshHash(rows: seq<Row>, row: Row) {
    forall i :: 0 <= i < |rows| ==> rows[i].recordHash != row.recordHash
  }

  /** When a transaction's next statement can go through. Waiting for the lock, a key
      already taken and a duplicate record hash all leave the statement disabled: the
      transaction then waits or rolls back. */
  predicate Enabled(suite: Suite, s: State, a: Action) {
    match a
    case Begin(id, req) => id !in s.txs && Payload(req)
    case Lock(id) => At(s, id, Begun) && s.holder == None
    case Stage(id) => At(s, id, Locked) && CanAdd(s.tables, s.txs[id].req)
    case ReadTail(id) => At(s, id, Staged)
    case InsertRow(id) => id in s.txs && s.txs[id].phase.TailRead?
    case Commit(id) =>
      && id in s.txs && s.txs[id].phase.Inserted?
      && FreshHash(s.rows, s.txs[id].phase.row)
    case Rollback(id) => id in s.txs
  }

  function Release(s: State, id: nat): Option<nat> {
    if s.holder == Some(id) then None else s.holder
  }

  function Step(suite: Suite, s: State, a: Action): State {
    if !Enabled(suite, s, a) then s
    else
      match a
      case Begin(id, req) => s.(txs := s.txs[id := Tx(req, Begun)])
      case Lock(id) => s.(holder := Some(id), txs := s.txs[id := s.txs[id].(phase := Locked)])
      case Stage(id) => s.(txs := s.txs[id := s.txs[id].(phase := Staged)])
      case ReadTail(id) => s.(txs := s.txs[id := s.txs[id].(phase := TailRead(LatestHash(s.rows)))])
      case InsertRow(id) =>
        var tx := s.txs[id];
        var row := BuildRow(suite, tx.req, tx.phase.previousHash, s.nextSequence);
        s.(nextSequence := s.nextSequence + 1, txs := s.txs[id := tx.(phase := Inserted(row))])
      case Commit(id) =>
        var tx := s.txs[id];
        State(s.rows + [tx.phase.row], AddRows(s.tables, tx.req), s.nextSequence, Release(s, id),
              s.txs - {id}, s.written + [tx.req])
      case Rollback(id) => s.(holder := Release(s, id), txs := s.txs - {id})
  }

  /** Any interleaving of any number of appends is some list of actions. */
  function Run(suite: Suite, s: State, actions: seq<Action>): State
    decreases |actions|
  {
    if actions == [] then s else Run(suite, Step(suite, s, actions[0]), actions[1..])
  }

  // ----- What every interleaving keeps -----

  function PreviousHash(rows: seq<Row>, i: nat): string
    requires i <= |rows|
  {
    if i == 0 then GENESIS_HASH else rows[i - 1].recordHash
  }

  /** The row at `i` is the `i`-th committed request, chained to the row before it. */
  predicate Chained(suite: Suite, rows: seq<Row>, written: seq<Request>, i: nat)
    requires i < |rows| == |written|
  {
    rows[i] == BuildRow(suite, written[i], PreviousHash(rows, i), rows[i].sequenceNumber)
  }

  predicate Payload(req: Request) {
    Valid(req.payload) && req.payload.Obj?
  }

  predicate Below(rows: seq<Row>, n: int) {
    forall i :: 0 <= i < |rows| ==> rows[i].sequenceNumber < n
  }

  predicate Increasing(rows: seq<Row>) {
    forall i, j :: 0 <= i < j < |rows| ==> rows[i].sequenceNumber < rows[j].sequenceNumber
  }

  ghost predicate ChainInv(suite: Suite, rows: seq<Row>, written: seq<Request>, nextSequence: int) {
    && |rows| == |written|
    && (forall i :: 0 <= i < |rows| ==> Chained(suite, rows, written, i))
    && Increasing(rows) && Below(rows, nextSequence)
    && (forall i :: 0 <= i < |written| ==> Payload(written[i]))
  }

  ghost predicate TxInv(suite: Suite, s: State, id: nat)
    requires id in s.txs
  {
    var tx := s.txs[id];
    && Payload(tx.req)
    && (tx.phase == Begun || s.holder == Some(id))
    && (tx.phase != Begun && tx.phase != Locked ==> CanAdd(s.tables, tx.req))
    && (tx.phase.TailRead? ==> tx.phase.previousHash == PreviousHash(s.rows, |s.rows|))
    && (tx.phase.Inserted? ==>
          && tx.phase.row == BuildRow(suite, tx.req, PreviousHash(s.rows, |s.rows|), tx.phase.row.sequenceNumber)
          && Below(s.rows, tx.phase.row.sequenceNumber)
          && tx.phase.row.sequenceNumber == s.nextSequence - 1)
  }

  ghost predicate Inv(suite: Suite, s: State) {
    && ChainInv(suite, s.rows, s.written, s.nextSequence)
    && s.tables == TablesOf(s.written)
    && (forall id :: id in s.txs ==> TxInv(suite, s, id))
  }

  lemma IncreasingIsStrict(rows: seq<Row>)
    requires Increasing(rows)
    ensures SortedBy(SequenceLess, rows) && NoTies(SequenceLess, rows)
  {
    forall x, y | x in rows && y in rows && x != y ensures SequenceLess(x, y) || SequenceLess(y, x) {
      var i :| 0 <= i < |rows| && rows[i] == x;
      var j :| 0 <= j < |rows| && rows[j] == y;
    }
  }

  /** Commit order is sequence order, so the row with the largest number is the last one. */
  lemma OrderedIsCommitOrder(rows: seq<Row>)
    requires Increasing(rows)
    ensures Ordered(rows) == rows && LatestHash(rows) == PreviousHash(rows, |rows|)
  {
    IncreasingIsStrict(rows);
    SortIsIdentity(SequenceLess, rows);
  }

  /** A step short of a commit leaves the other transactions' accounts of themselves true: all
      but the lock's holder have only begun. */
  lemma OtherTx(suite: Suite, s: State, a: Action, id: nat)
    requires Inv(suite, s) && !a.Commit? && id in s.txs && id != a.id
    ensures id in Step(suite, s, a).txs && TxInv(suite, Step(suite, s, a), id)
  {
    assert TxInv(suite, s, id);
    assert a.id in s.txs ==> TxInv(suite, s, a.id);
  }

  lemma OwnTx(suite: Suite, s: State, a: Action)
    requires Inv(suite, s) && !a.Commit? && Enabled(suite, s, a) && !a.Rollback?
    ensures a.id in Step(suite, s, a).txs && TxInv(suite, Step(suite, s, a), a.id)
  {
    if a.ReadTail? {
      OrderedIsCommitOrder(s.rows);
    }
    assert a.id in s.txs ==> TxInv(suite, s, a.id);
  }

  lemma StepInv(suite: Suite, s: State, a: Action)
    requires Inv(suite, s)
    ensures Inv(suite, Step(suite, s, a))
  {
    if Enabled(suite, s, a) && a.Commit? {
      CommitInv(suite, s, a.id);
    } else {
      forall id | id in Step(suite, s, a).txs ensures TxInv(suite, Step(suite, s, a), id) {
        if !Enabled(suite, s, a) {
          assert TxInv(suite, s, id);
        } else if id == a.id {
          OwnTx(suite, s, a);
        } else {
          OtherTx(suite, s, a, id);
        }
      }
    }
  }

  lemma NumbersExtend(rows: seq<Row>, row: Row, next: int)
    requires Increasing(rows) && Below(rows, row.sequenceNumber) && row.sequenceNumber < next
    ensures Increasing(rows + [row]) && Below(rows + [row], next)
  {}

  lemma ChainedExtends(suite: Suite, rows: seq<Row>, written: seq<Request>, row: Row, req: Request, i: nat)
    requires |rows| == |written| && i <= |rows|
    requires row == BuildRow(suite, req, PreviousHash(rows, |rows|), row.sequenceNumber)
    requires i < |rows| ==> Chained(suite, rows, written, i)
    ensures Chained(suite, rows + [row], written + [req], i)
  {
    assert PreviousHash(rows + [row], i) == PreviousHash(rows, i);
  }

  /** One more row, built on the last one, extends the chain. */
  lemma ChainExtends(suite: Suite, rows: seq<Row>, written: seq<Request>, next: int, row: Row, req: Request)
    requires ChainInv(suite, rows, written, next) && Payload(req)
    requires row == BuildRow(suite, req, PreviousHash(rows, |rows|), row.sequenceNumber)
    requires Below(rows, row.sequenceNumber) && row.sequenceNumber < next
    ensures ChainInv(suite, rows + [row], written + [req], next)
  {
    NumbersExtend(rows, row, next);
    forall i | 0 <= i < |rows| + 1 ensures Chained(suite, rows + [row], written + [req], i) {
      ChainedExtends(suite, rows, written, row, req, i);
    }
  }

  lemma CommitInv(suite: Suite, s: State, id: nat)
    requires Inv(suite, s) && Enabled(suite, s, Commit(id))
    ensures Inv(suite, Step(suite, s, Commit(id)))
  {
    var s' := Step(suite, s, Commit(id));
    assert TxInv(suite, s, id);
    ChainExtends(suite, s.rows, s.written, s.nextSequence, s.txs[id].phase.row, s.txs[id].req);
    assert s'.written[..|s.written|] == s.written;
    forall other | other in s'.txs ensures TxInv(suite, s', other) {
      assert TxInv(suite, s, other) && s.txs[other].phase == Begun;
    }
  }

  /** In every interleaving of any number of appends, committed or rolled back at any
      point, the committed rows form one unbroken chain of the committed requests, in
      sequence order, and every table holds exactly the rows of those requests. */
  lemma {:induction false} InterleavingInv(suite: Suite, s: State, actions: seq<Action>)
    requires Inv(suite, s)
    ensures Inv(suite, Run(suite, s, actions))
    decreases |actions|
  {
    if actions != [] {
      StepInv(suite, s, actions[0]);
      InterleavingInv(suite, Step(suite, s, actions[0]), actions[1..]);
    }
  }

  // ----- Sequence numbers -----

  /** A rollback that gives up a number already drawn. */
  predicate Burns(s: State, a: Action) {
    a.Rollback? && a.id in s.txs && s.txs[a.id].phase.Inserted?
  }

  predicate Commits(suite: Suite, s: State, a: Action) {
    a.Commit? && Enabled(suite, s, a)
  }

  /** The numbers drawn and given up again in the course of these actions. */
  function Burned(suite: Suite, s: State, actions: seq<Action>): nat
    decreases |actions|
  {
    if actions == [] then 0
    else (if Burns(s, actions[0]) then 1 else 0) + Burned(suite, Step(suite, s, actions[0]), actions[1..])
  }

  /** 1 while some transaction holds a number it has not committed. */
  function Pending(s: State): nat {
    if exists id :: id in s.txs && s.txs[id].phase.Inserted? then 1 else 0
  }

  /** Numbers drawn that are neither committed nor pending. */
  function Missing(s: State): int {
    s.nextSequence - 1 - |s.rows| - Pending(s)
  }

  lemma OneInserted(suite: Suite, s: State, id: nat, other: nat)
    requires Inv(suite, s) && id in s.txs && other in s.txs
    requires s.txs[id].phase != Begun && s.txs[other].phase != Begun
    ensures id == other
  {
    assert TxInv(suite, s, id) && TxInv(suite, s, other);
  }

  lemma PendingIs(s: State, id: nat)
    requires id in s.txs && s.txs[id].phase.Inserted?
    ensures Pending(s) == 1
  {}

  /** Only the lock's holder can be past its beginning. */
  lemma NoOtherPending(suite: Suite, s: State, id: nat)
    requires Inv(suite, s) && id in s.txs && s.txs[id].phase != Begun
    ensures forall other :: other in s.txs && other != id ==> !s.txs[other].phase.Inserted?
  {
    forall other | other in s.txs && other != id ensures !s.txs[other].phase.Inserted? {
      if s.txs[other].phase.Inserted? {
        OneInserted(suite, s, id, other);
      }
    }
  }

  lemma PendingElsewhere(s: State, s': State, id: nat)
    requires forall other :: other != id ==> (other in s.txs <==> other in s'.txs)
    requires forall other :: other in s.txs && other != id ==> s'.txs[other] == s.txs[other]
    requires (id in s.txs && s.txs[id].phase.Inserted?) <==> (id in s'.txs && s'.txs[id].phase.Inserted?)
    ensures Pending(s') == Pending(s)
  {
    if other :| other in s.txs && s.txs[other].phase.Inserted? {
      assert other in s'.txs && s'.txs[other].phase.Inserted?;
    }
  }

  lemma InsertPends(suite: Suite, s: State, id: nat)
    requires Inv(suite, s) && Enabled(suite, s, InsertRow(id))
    ensures Pending(s) == 0 && Pending(Step(suite, s, InsertRow(id))) == 1
  {
    NoOtherPending(suite, s, id);
    PendingIs(Step(suite, s, InsertRow(id)), id);
  }

  lemma EndUnpends(suite: Suite, s: State, id: nat, s': State)
    requires Inv(suite, s) && id in s.txs && s.txs[id].phase.Inserted? && s'.txs == s.txs - {id}
    ensures Pending(s) == 1 && Pending(s') == 0
  {
    NoOtherPending(suite, s, id);
    PendingIs(s, id);
  }

  lemma RollbackMissing(suite: Suite, s: State, id: nat)
    requires Inv(suite, s) && id in s.txs
    ensures Missing(Step(suite, s, Rollback(id))) == Missing(s) + if Burns(s, Rollback(id)) then 1 else 0
  {
    var s' := Step(suite, s, Rollback(id));
    if Burns(s, Rollback(id)) {
      EndUnpends(suite, s, id, s');
    } else {
      PendingElsewhere(s, s', id);
    }
  }

  /** One step's account: a number goes missing exactly when an inserted row is rolled back. */
  lemma MissingStep(suite: Suite, s: State, a: Action)
    requires Inv(suite, s)
    ensures Missing(Step(suite, s, a)) == Missing(s) + if Burns(s, a) then 1 else 0
  {
    if Enabled(suite, s, a) {
      var s' := Step(suite, s, a);
      match a
      case InsertRow(id) => InsertPends(suite, s, id);
      case Commit(id) => EndUnpends(suite, s, id, s');
      case Rollback(id) => RollbackMissing(suite, s, id);
      case Begin(id, _) => PendingElsewhere(s, s', id);
      case Lock(id) => PendingElsewhere(s, s', id);
      case Stage(id) => PendingElsewhere(s, s', id);
      case ReadTail(id) => PendingElsewhere(s, s', id);
    }
  }

  /** Conservation, over any interleaving: the numbers drawn are those committed, the one
      pending, and one for each rollback of an inserted row. */
  lemma {:induction false} NumbersConserved(suite: Suite, s: State, actions: seq<Action>)
    requires Inv(suite, s)
    ensures Missing(Run(suite, s, actions)) == Missing(s) + Burned(suite, s, actions)
    decreases |actions|
  {
    if actions != [] {
      StepInv(suite, s, actions[0]);
      MissingStep(suite, s, actions[0]);
      NumbersConserved(suite, Step(suite, s, actions[0]), actions[1..]);
    }
  }

  predicate Gapless(rows: seq<Row>) {
    forall i :: 0 <= i < |rows| ==> rows[i].sequenceNumber == i + 1
  }

  predicate SomeCommit(suite: Suite, s: State, actions: seq<Action>)
    decreases |actions|
  {
    actions != [] && (Commits(suite, s, actions[0]) || SomeCommit(suite, Step(suite, s, actions[0]), actions[1..]))
  }

  /** An inserted row is rolled back, and a later append commits. */
  predicate BurnThenCommit(suite: Suite, s: State, actions: seq<Action>)
    decreases |actions|
  {
    && actions != []
    && var s' := Step(suite, s, actions[0]);
       || (Burns(s, actions[0]) && SomeCommit(suite, s', actions[1..]))
       || BurnThenCommit(suite, s', actions[1..])
  }

  lemma {:induction false} BurnThenCommitCommits(suite: Suite, s: State, actions: seq<Action>)
    requires BurnThenCommit(suite, s, actions)
    ensures SomeCommit(suite, s, actions)
    decreases |actions|
  {
    var s' := Step(suite, s, actions[0]);
    if !SomeCommit(suite, s', actions[1..]) {
      BurnThenCommitCommits(suite, s', actions[1..]);
    }
  }

  lemma {:induction false} RowsExtend(suite: Suite, s: State, actions: seq<Action>)
    ensures |s.rows| <= |Run(suite, s, actions).rows| && Run(suite, s, actions).rows[..|s.rows|] == s.rows
    ensures Gapless(Run(suite, s, actions).rows) ==> Gapless(s.rows)
    decreases |actions|
  {
    if actions != [] {
      RowsExtend(suite, Step(suite, s, actions[0]), actions[1..]);
    }
    var rows := Run(suite, s, actions).rows;
    forall i | 0 <= i < |s.rows| ensures s.rows[i] == rows[i] {
      assert rows[..|s.rows|][i] == rows[i];
    }
  }

  /** The number a commit puts into the ledger. */
  lemma CommittedNumber(suite: Suite, s: State, a: Action)
    requires Inv(suite, s) && Commits(suite, s, a)
    ensures Step(suite, s, a).rows == s.rows + [s.txs[a.id].phase.row]
    ensures s.txs[a.id].phase.row.sequenceNumber == |s.rows| + 1 + Missing(s)
  {
    assert TxInv(suite, s, a.id);
    PendingIs(s, a.id);
  }

  /** Once a number is missing, the next commit leaves a gap. */
  lemma {:induction false} MissingThenGap(suite: Suite, s: State, actions: seq<Action>)
    requires Inv(suite, s) && Missing(s) > 0 && Gapless(s.rows)
    ensures Gapless(Run(suite, s, actions).rows) <==> !SomeCommit(suite, s, actions)
    decreases |actions|
  {
    if actions != [] {
      var (a, s') := (actions[0], Step(suite, s, actions[0]));
      StepInv(suite, s, a);
      MissingStep(suite, s, a);
      if Commits(suite, s, a) {
        CommittedNumber(suite, s, a);
        assert s'.rows[|s.rows|].sequenceNumber != |s.rows| + 1;
        RowsExtend(suite, s', actions[1..]);
      } else {
        MissingThenGap(suite, s', actions[1..]);
      }
    }
  }

  lemma {:induction false} GapsExactly(suite: Suite, s: State, actions: seq<Action>)
    requires Inv(suite, s) && Missing(s) == 0 && Gapless(s.rows)
    ensures Gapless(Run(suite, s, actions).rows) <==> !BurnThenCommit(suite, s, actions)
    decreases |actions|
  {
    if actions != [] {
      var (a, s') := (actions[0], Step(suite, s, actions[0]));
      StepInv(suite, s, a);
      MissingStep(suite, s, a);
      if Commits(suite, s, a) {
        CommittedNumber(suite, s, a);
      }
      if Burns(s, a) {
        MissingThenGap(suite, s', actions[1..]);
        if BurnThenCommit(suite, s', actions[1..]) {
          BurnThenCommitCommits(suite, s', actions[1..]);
        }
      } else {
        GapsExactly(suite, s', actions[1..]);
      }
    }
  }

  /** The committed numbers are 1, 2, 3 and so on without a gap if and only if no append
      that had drawn its number was rolled back before another one committed. */
  lemma GaplessExactly(suite: Suite, actions: seq<Action>)
    ensures Gapless(Run(suite, INITIAL, actions).rows) <==> !BurnThenCommit(suite, INITIAL, actions)
  {
    GapsExactly(suite, INITIAL, actions);
  }
}
