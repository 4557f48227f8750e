/** What the ledger's tables hold after any interleaving of appends, said of the committed
    requests themselves. */
module LedgerContents {
  import opened Wrappers
  import opened JsonText
  import opened Schemas
  import opened Encryption
  import opened HashChain
  import opened EvidenceLedger

  /** The i-th row is the i-th committed request's, column by column: chained to the row before
      it, hashed over the plain text, signed over the hash, and sealed if its writer seals. */
  predicate RowHolds(suite: Suite, rows: seq<Row>, written: seq<Request>, i: nat)
    requires i < |rows| == |written|
  {
    var (row, req, text) := (rows[i], written[i], CanonicalJson(written[i].payload));
    && row.decisionEventId == req.eventId && row.verdictId == req.verdictId && row.recordedAt == req.recordedAt
    && row.previousHash == (if i == 0 then GENESIS_HASH else rows[i - 1].recordHash)
    && row.recordHash == suite.h(row.previousHash + ":" + text)
    && row.signature == Some(suite.sign(req.signingKey, row.recordHash))
    && row.payload == (match req.encryptor
                       case NoOp => text
                       case Fernet(key) => "gpenc1:" + suite.cipher.seal(key, req.nonce, text))
  }

  lemma RowsExactly(suite: Suite, actions: seq<Action>)
    ensures var s := Run(suite, INITIAL, actions);
            |s.rows| == |s.written| && forall i :: 0 <= i < |s.rows| ==> RowHolds(suite, s.rows, s.written, i)
  {
    InterleavingInv(suite, INITIAL, actions);
    var s := Run(suite, INITIAL, actions);
    forall i | 0 <= i < |s.rows| ensures RowHolds(suite, s.rows, s.written, i) {
      assert Chained(suite, s.rows, s.written, i);
    }
  }

  // ----- One append -----

  /** A key is taken, attributes do not resolve, or the record hash is one already there. */
  ghost predicate Conflicts(suite: Suite, rows: seq<Row>, t: Tables, req: Request) {
    var previousHash := if rows == [] then GENESIS_HASH else rows[|rows| - 1].recordHash;
    || req.eventId in t.events || req.verdictId in t.verdicts || (exists id :: id in req.findingIds && id in t.findings)
    || req.resolutions.None? || (exists id :: id in req.resolutions.value && id in t.resolutions)
    || (exists i :: 0 <= i < |rows|
          && rows[i].recordHash == suite.h(previousHash + ":" + CanonicalJson(req.payload)))
  }

  /** The event, every finding, the verdict with its status and every resolution are added. */
  ghost predicate Added(before: Tables, after: Tables, req: Request) {
    && (forall id :: id in after.events <==> id in before.events || id == req.eventId)
    && (forall id :: id in after.findings <==> id in before.findings || id in req.findingIds)
    && after.verdicts == before.verdicts[req.verdictId := req.status]
    && req.resolutions.Some?
    && (forall id :: id in after.resolutions <==> id in before.resolutions || id in req.resolutions.value)
  }

  /** An append with nobody else on the database commits exactly when its own commit does not
      fail and nothing conflicts, and then adds all of its rows. */
  lemma AloneExactly(suite: Suite, s: State, req: Request, row: Row)
    requires Inv(suite, s) && row == BuildRow(suite, req, LatestHash(s.rows), s.nextSequence)
    ensures CanAdd(s.tables, req) && FreshHash(s.rows, row) <==> !Conflicts(suite, s.rows, s.tables, req)
    ensures !Conflicts(suite, s.rows, s.tables, req) ==> Added(s.tables, AddRows(s.tables, req), req)
    ensures RowHolds(suite, s.rows + [row], s.written + [req], |s.rows|)
  {
    OrderedIsCommitOrder(s.rows);
    assert row.recordHash == suite.h(row.previousHash + ":" + CanonicalJson(req.payload));
  }

  /** One request more: its row at the end of the chain, and all it brings in the tables. */
  ghost predicate Extends(suite: Suite, before: State, after: State, req: Request) {
    && after.written == before.written + [req] && |after.rows| == |after.written|
    && before.rows <= after.rows && |after.rows| == |before.rows| + 1
    && RowHolds(suite, after.rows, after.written, |before.rows|)
    && Added(before.tables, after.tables, req)
  }

  // ----- The tables beside the chain -----

  ghost predicate EventWritten(written: seq<Request>, id: string) {
    exists i :: 0 <= i < |written| && written[i].eventId == id
  }

  ghost predicate FindingWritten(written: seq<Request>, id: string) {
    exists i :: 0 <= i < |written| && id in written[i].findingIds
  }

  ghost predicate ResolutionWritten(written: seq<Request>, id: string) {
    exists i :: 0 <= i < |written| && written[i].resolutions.Some? && id in written[i].resolutions.value
  }

  ghost predicate VerdictWritten(written: seq<Request>, id: string, status: VerdictStatus) {
    exists i :: 0 <= i < |written| && written[i].verdictId == id && written[i].status == status
  }

  /** Each table holds what the requests brought, and nothing else. */
  ghost predicate Holds(t: Tables, written: seq<Request>) {
    && (forall id :: id in t.events <==> EventWritten(written, id))
    && (forall id :: id in t.findings <==> FindingWritten(written, id))
    && (forall id :: id in t.resolutions <==> ResolutionWritten(written, id))
    && (forall id, status :: VerdictWritten(written, id, status) <==> id in t.verdicts && t.verdicts[id] == status)
  }

  /** No two requests share a key, and every one's attributes resolved. */
  ghost predicate Apart(a: Request, b: Request) {
    && a.eventId != b.eventId && a.verdictId != b.verdictId && a.findingIds !! b.findingIds
    && a.resolutions.Some? && b.resolutions.Some? && a.resolutions.value !! b.resolutions.value
  }

  ghost predicate KeysApart(written: seq<Request>) {
    && (forall i, j :: 0 <= i < j < |written| ==> Apart(written[i], written[j]))
    && (forall i :: 0 <= i < |written| ==> written[i].resolutions.Some?)
  }

  ghost predicate HashesApart(rows: seq<Row>) {
    forall i, j :: 0 <= i < j < |rows| ==> rows[i].recordHash != rows[j].recordHash
  }

  ghost predicate Contents(s: State) {
    Holds(s.tables, s.written) && KeysApart(s.written) && HashesApart(s.rows)
  }

  lemma SomeWritten(written: seq<Request>, req: Request)
    ensures forall id :: EventWritten(written + [req], id) <==> EventWritten(written, id) || id == req.eventId
    ensures forall id :: FindingWritten(written + [req], id) <==> FindingWritten(written, id) || id in req.findingIds
    ensures forall id :: ResolutionWritten(written + [req], id) <==>
              ResolutionWritten(written, id) || (req.resolutions.Some? && id in req.resolutions.value)
    ensures forall id, status :: VerdictWritten(written + [req], id, status) <==>
              VerdictWritten(written, id, status) || (id == req.verdictId && status == req.status)
  {
    var more := written + [req];
    assert more[|written|] == req && forall i :: 0 <= i < |written| ==> more[i] == written[i];
  }

  lemma HoldsMore(t: Tables, written: seq<Request>, req: Request)
    requires Holds(t, written) && CanAdd(t, req)
    ensures Holds(AddRows(t, req), written + [req])
  {
    SomeWritten(written, req);
    forall status ensures !VerdictWritten(written, req.verdictId, status) {
      assert req.verdictId !in t.verdicts;
    }
  }

  lemma ApartMore(t: Tables, written: seq<Request>, req: Request)
    requires Holds(t, written) && KeysApart(written) && CanAdd(t, req)
    ensures KeysApart(written + [req])
  {
    forall i | 0 <= i < |written| ensures Apart(written[i], req) {
      assert EventWritten(written, written[i].eventId);
      assert VerdictWritten(written, written[i].verdictId, written[i].status);
      forall id | id in written[i].findingIds ensures id !in req.findingIds {
        assert FindingWritten(written, id);
      }
      forall id | id in written[i].resolutions.value ensures id !in req.resolutions.value {
        assert ResolutionWritten(written, id);
      }
    }
  }

  lemma HashesMore(rows: seq<Row>, row: Row)
    requires HashesApart(rows) && FreshHash(rows, row)
    ensures HashesApart(rows + [row])
  {}

  lemma ContentsStep(suite: Suite, s: State, a: Action)
    requires Inv(suite, s) && Contents(s)
    ensures Contents(Step(suite, s, a))
  {
    if a.Commit? && Enabled(suite, s, a) {
      var tx := s.txs[a.id];
      assert TxInv(suite, s, a.id);
      HoldsMore(s.tables, s.written, tx.req);
      ApartMore(s.tables, s.written, tx.req);
      HashesMore(s.rows, tx.phase.row);
    }
  }

  lemma {:induction false} ContentsRun(suite: Suite, s: State, actions: seq<Action>)
    requires Inv(suite, s) && Contents(s)
    ensures Contents(Run(suite, s, actions))
    decreases |actions|
  {
    if actions != [] {
      StepInv(suite, s, actions[0]);
      ContentsStep(suite, s, actions[0]);
      ContentsRun(suite, Step(suite, s, actions[0]), actions[1..]);
    }
  }

  /** In every interleaving: an id is in the table of events, findings, resolutions or verdicts if
      and only if a committed request brought it, a verdict with its status; no two committed
      requests share a key, and no two rows a record hash. */
  lemma TablesExactly(suite: Suite, actions: seq<Action>)
    ensures var s := Run(suite, INITIAL, actions);
            && (forall id :: id in s.tables.events <==>
                  exists i :: 0 <= i < |s.written| && s.written[i].eventId == id)
            && (forall id :: id in s.tables.findings <==>
                  exists i :: 0 <= i < |s.written| && id in s.written[i].findingIds)
            && (forall id :: id in s.tables.resolutions <==>
                  exists i :: 0 <= i < |s.written| && s.written[i].resolutions.Some?
                     && id in s.written[i].resolutions.value)
            && (forall id :: id in s.tables.verdicts <==>
                  exists i :: 0 <= i < |s.written| && s.written[i].verdictId == id)
            && (forall i :: 0 <= i < |s.written| ==>
                  && s.written[i].verdictId in s.tables.verdicts
                  && s.tables.verdicts[s.written[i].verdictId] == s.written[i].status)
    ensures KeysApart(Run(suite, INITIAL, actions).written) && HashesApart(Run(suite, INITIAL, actions).rows)
  {
    ContentsRun(suite, INITIAL, actions);
    var s := Run(suite, INITIAL, actions);
    assert forall id :: id in s.tables.events <==> EventWritten(s.written, id);
    assert forall id :: id in s.tables.findings <==> FindingWritten(s.written, id);
    assert forall id :: id in s.tables.resolutions <==> ResolutionWritten(s.written, id);
    forall i | 0 <= i < |s.written|
      ensures s.written[i].verdictId in s.tables.verdicts
      ensures s.tables.verdicts[s.written[i].verdictId] == s.written[i].status
    {
      assert VerdictWritten(s.written, s.written[i].verdictId, s.written[i].status);
    }
    forall id | id in s.tables.verdicts ensures exists i :: 0 <= i < |s.written| && s.written[i].verdictId == id {
      assert VerdictWritten(s.written, id, s.tables.verdicts[id]);
    }
  }
}
