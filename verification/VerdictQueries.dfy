/** Reading verdicts with their findings: one verdict by a query of its own, or many by two
    queries and a grouping loop. The database may break ORDER BY ties either way, and
    differently each time. */
module VerdictQueries {
  import opened Wrappers
  import opened Ordering
  import opened Schemas
  import opened Paging

  datatype FindingRow = FindingRow(id: string, policyId: string, outcome: Outcome, evaluatedAt: int)

  datatype VerdictRow = VerdictRow(id: string, decisionEventId: string, status: VerdictStatus, createdAt: int)

  datatype Link = Link(verdictId: string, findingId: string)

  datatype Db = Db(verdicts: map<string, VerdictRow>, findings: map<string, FindingRow>, links: set<Link>)

  datatype Verdict = Verdict(row: VerdictRow, findings: seq<FindingRow>)

  /** Primary keys, and the foreign key of the join table. */
  predicate WellFormed(db: Db) {
    && (forall id :: id in db.verdicts ==> db.verdicts[id].id == id)
    && (forall id :: id in db.findings ==> db.findings[id].id == id)
    && (forall l :: l in db.links ==> l.findingId in db.findings)
  }

  /** How the database orders text: a deterministic collation, whichever it is. */
  type Collation = (string, string) -> bool

  ghost predicate Deterministic(c: Collation) {
    Transitive(c) && Asymmetric(c) && forall a, b :: a != b ==> c(a, b) || c(b, a)
  }

  /** Code point order is one. */
  lemma CodePointsDeterministic()
    ensures Deterministic(StrLess)
  {
    StrLessLaws();
    forall a, b | a != b ensures StrLess(a, b) || StrLess(b, a) {
      StrLessTotal(a, b);
    }
  }

  /** ORDER BY evaluated_at, policy_id. */
  function RowLess(c: Collation): (FindingRow, FindingRow) -> bool {
    (a: FindingRow, b: FindingRow) =>
      a.evaluatedAt < b.evaluatedAt || (a.evaluatedAt == b.evaluatedAt && c(a.policyId, b.policyId))
  }

  function FindingsOf(db: Db, verdictId: string): set<FindingRow>
    requires WellFormed(db)
  {
    set l | l in db.links && l.verdictId == verdictId :: db.findings[l.findingId]
  }

  /** An answer to `get`'s findings query. */
  ghost predicate IsAnswer(c: Collation, db: Db, verdictId: string, answer: seq<FindingRow>)
    requires WellFormed(db)
  {
    IsOrderBy(RowLess(c), multiset(FindingsOf(db, verdictId)), answer)
  }

  /** `get`, given the answer to its query. */
  function Get(db: Db, verdictId: string, answer: seq<FindingRow>): Option<Verdict> {
    if verdictId in db.verdicts then Some(Verdict(db.verdicts[verdictId], answer)) else None
  }

  /** A verdict is found by its id, with the findings its links name, each once, in ascending order
      of evaluation. */
  lemma GetExactly(c: Collation, db: Db, verdictId: string, answer: seq<FindingRow>)
    requires WellFormed(db) && IsAnswer(c, db, verdictId, answer)
    ensures Get(db, verdictId, answer).Some? <==> verdictId in db.verdicts
    ensures Get(db, verdictId, answer).Some? ==>
              Get(db, verdictId, answer).value == Verdict(db.verdicts[verdictId], answer)
    ensures forall f :: f in answer <==>
              exists l :: l in db.links && l.verdictId == verdictId && db.findings[l.findingId] == f
    ensures forall i, j :: 0 <= i < j < |answer| ==>
              answer[i] != answer[j] && answer[i].evaluatedAt <= answer[j].evaluatedAt
  {
    forall f ensures f in answer <==> f in FindingsOf(db, verdictId) {
      assert f in answer <==> f in multiset(answer);
    }
    forall i, j | 0 <= i < j < |answer|
      ensures answer[i] != answer[j] && answer[i].evaluatedAt <= answer[j].evaluatedAt
    {
      assert !RowLess(c)(answer[j], answer[i]);
      if answer[i] == answer[j] {
        DuplicateCounted(answer, i, j);
      }
    }
  }

  /** One row of the batch query: a finding beside the verdict that links to it. */
  datatype Joined = Joined(row: FindingRow, verdictId: string)

  function JoinedLess(c: Collation): (Joined, Joined) -> bool {
    (a: Joined, b: Joined) => RowLess(c)(a.row, b.row)
  }

  function JoinedRows(db: Db, ids: seq<string>): set<Joined>
    requires WellFormed(db)
  {
    set l | l in db.links && l.verdictId in ids :: Joined(db.findings[l.findingId], l.verdictId)
  }

  /** An answer to `get_many`'s findings query. */
  ghost predicate IsJoinedAnswer(c: Collation, db: Db, ids: seq<string>, joined: seq<Joined>)
    requires WellFormed(db)
  {
    IsOrderBy(JoinedLess(c), multiset(JoinedRows(db, ids)), joined)
  }

  /** What the grouping loop collects under one verdict. */
  function Restrict(joined: seq<Joined>, verdictId: string): seq<FindingRow> {
    if joined == [] then []
    else
      var n := |joined| - 1;
      Restrict(joined[..n], verdictId) + if joined[n].verdictId == verdictId then [joined[n].row] else []
  }

  lemma {:induction false} RestrictCounts(joined: seq<Joined>, verdictId: string, row: FindingRow)
    ensures multiset(Restrict(joined, verdictId))[row] == multiset(joined)[Joined(row, verdictId)]
  {
    if joined != [] {
      var n := |joined| - 1;
      assert joined == joined[..n] + [joined[n]];
      RestrictCounts(joined[..n], verdictId, row);
    }
  }

  lemma {:induction false} RestrictMembers(joined: seq<Joined>, verdictId: string)
    ensures forall row :: row in Restrict(joined, verdictId) ==> Joined(row, verdictId) in joined
  {
    if joined != [] {
      var n := |joined| - 1;
      assert joined == joined[..n] + [joined[n]];
      RestrictMembers(joined[..n], verdictId);
    }
  }

  lemma {:induction false} RestrictSorted(c: Collation, joined: seq<Joined>, verdictId: string)
    requires SortedBy(JoinedLess(c), joined)
    ensures SortedBy(RowLess(c), Restrict(joined, verdictId))
  {
    if joined != [] {
      var n := |joined| - 1;
      var init := Restrict(joined[..n], verdictId);
      RestrictSorted(c, joined[..n], verdictId);
      RestrictMembers(joined[..n], verdictId);
      forall i | 0 <= i < |init| ensures !RowLess(c)(joined[n].row, init[i]) {
        assert init[i] in init;
        var k :| 0 <= k < n && joined[..n][k] == Joined(init[i], verdictId);
        assert !JoinedLess(c)(joined[n], joined[k]);
      }
    }
  }

  /** Every requested verdict's share of the batch answer is an answer to its own query. */
  lemma RestrictIsAnswer(c: Collation, db: Db, ids: seq<string>, joined: seq<Joined>, verdictId: string)
    requires WellFormed(db) && IsJoinedAnswer(c, db, ids, joined) && verdictId in ids
    ensures IsAnswer(c, db, verdictId, Restrict(joined, verdictId))
  {
    RestrictSorted(c, joined, verdictId);
    forall row ensures multiset(Restrict(joined, verdictId))[row] == multiset(FindingsOf(db, verdictId))[row] {
      RestrictCounts(joined, verdictId, row);
      assert Joined(row, verdictId) in JoinedRows(db, ids) <==> row in FindingsOf(db, verdictId);
    }
    assert multiset(Restrict(joined, verdictId)) == multiset(FindingsOf(db, verdictId));
  }

  lemma RestrictStep(joined: seq<Joined>, i: nat, verdictId: string)
    requires i < |joined|
    ensures Restrict(joined[..i + 1], verdictId) ==
              Restrict(joined[..i], verdictId) + if joined[i].verdictId == verdictId then [joined[i].row] else []
  {
    assert joined[..i + 1][..i] == joined[..i];
  }

  /** The grouping loop of `get_many`, over a defaultdict. */
  method GroupByVerdict(joined: seq<Joined>) returns (groups: map<string, seq<FindingRow>>)
    ensures forall id :: (if id in groups then groups[id] else []) == Restrict(joined, id)
  {
    groups := map[];
    for i := 0 to |joined|
      invariant forall id :: (if id in groups then groups[id] else []) == Restrict(joined[..i], id)
    {
      var (before, j) := (groups, joined[i]);
      groups := groups[j.verdictId := (if j.verdictId in groups then groups[j.verdictId] else []) + [j.row]];
      forall id ensures (if id in groups then groups[id] else []) == Restrict(joined[..i + 1], id) {
        RestrictStep(joined, i, id);
        assert (if id in before then before[id] else []) == Restrict(joined[..i], id);
      }
    }
    assert joined[..|joined|] == joined;
  }

  lemma SameAsGet(c: Collation, db: Db, ids: seq<string>, joined: seq<Joined>, id: string, answer: seq<FindingRow>)
    requires WellFormed(db) && IsJoinedAnswer(c, db, ids, joined) && id in ids
    requires IsAnswer(c, db, id, answer) && NoTies(RowLess(c), answer)
    ensures Restrict(joined, id) == answer
  {
    RestrictIsAnswer(c, db, ids, joined, id);
    SortedArrangementUnique(RowLess(c), answer, Restrict(joined, id));
  }

  /** `get_many`: exactly the existing ids, each as `get` returns it for some answer to its
      query; and so for every answer when the verdict's findings do not tie. */
  method GetMany(c: Collation, db: Db, ids: seq<string>, joined: seq<Joined>) returns (verdicts: map<string, Verdict>)
    requires WellFormed(db) && IsJoinedAnswer(c, db, ids, joined)
    ensures forall id :: id in verdicts <==> id in ids && id in db.verdicts
    ensures forall id :: id in verdicts ==>
              IsAnswer(c, db, id, verdicts[id].findings) && Get(db, id, verdicts[id].findings) == Some(verdicts[id])
    ensures forall id, answer :: id in verdicts && IsAnswer(c, db, id, answer) && NoTies(RowLess(c), answer) ==>
              Get(db, id, answer) == Some(verdicts[id])
  {
    var groups := GroupByVerdict(joined);
    verdicts := map id | id in ids && id in db.verdicts ::
      Verdict(db.verdicts[id], if id in groups then groups[id] else []);
    forall id | id in verdicts ensures IsAnswer(c, db, id, verdicts[id].findings) {
      RestrictIsAnswer(c, db, ids, joined, id);
    }
    forall id, answer | id in verdicts && IsAnswer(c, db, id, answer) && NoTies(RowLess(c), answer)
      ensures verdicts[id].findings == answer
    {
      SameAsGet(c, db, ids, joined, id, answer);
    }
  }

  // ----- When the two reads can differ -----

  /** Two different findings of the verdict that the ORDER BY does not tell apart. */
  predicate Tied(db: Db, verdictId: string)
    requires WellFormed(db)
  {
    exists x, y :: x in FindingsOf(db, verdictId) && y in FindingsOf(db, verdictId) && x != y
      && x.evaluatedAt == y.evaluatedAt && x.policyId == y.policyId
  }

  /** Exchanging two rows the ordering does not tell apart gives another valid answer. */
  lemma SwapTied(c: Collation, db: Db, verdictId: string, answer: seq<FindingRow>, i: nat, j: nat)
    requires WellFormed(db) && IsAnswer(c, db, verdictId, answer) && i < j < |answer|
    requires answer[i].evaluatedAt == answer[j].evaluatedAt && answer[i].policyId == answer[j].policyId
    ensures IsAnswer(c, db, verdictId, answer[i := answer[j]][j := answer[i]])
  {
    var swapped := answer[i := answer[j]][j := answer[i]];
    forall k ensures 0 <= k < |answer| ==>
      swapped[k].evaluatedAt == answer[k].evaluatedAt && swapped[k].policyId == answer[k].policyId {}
    forall k, l | 0 <= k < l < |swapped| ensures !RowLess(c)(swapped[l], swapped[k]) {
      assert !RowLess(c)(answer[l], answer[k]);
    }
    assert multiset(swapped) == multiset(answer);
  }

  lemma UntiedIsTotal(c: Collation, db: Db, verdictId: string, answer: seq<FindingRow>)
    requires WellFormed(db) && Deterministic(c)
    requires multiset(answer) == multiset(FindingsOf(db, verdictId)) && !Tied(db, verdictId)
    ensures NoTies(RowLess(c), answer)
  {
    forall x, y | x in answer && y in answer && x != y ensures RowLess(c)(x, y) || RowLess(c)(y, x) {
      assert x in multiset(answer) && y in multiset(answer);
    }
  }

  /** The two reads agree on a verdict, however their queries are answered, exactly when no
      two of its findings share both timestamp and policy id. */
  lemma ReadsAgree(c: Collation, db: Db, verdictId: string, answer: seq<FindingRow>)
    requires WellFormed(db) && Deterministic(c) && IsAnswer(c, db, verdictId, answer)
    ensures !Tied(db, verdictId) <==>
            forall joined :: IsJoinedAnswer(c, db, [verdictId], joined) ==> Restrict(joined, verdictId) == answer
  {
    if !Tied(db, verdictId) {
      UntiedIsTotal(c, db, verdictId, answer);
      forall joined | IsJoinedAnswer(c, db, [verdictId], joined) ensures Restrict(joined, verdictId) == answer {
        RestrictIsAnswer(c, db, [verdictId], joined, verdictId);
        SortedArrangementUnique(RowLess(c), answer, Restrict(joined, verdictId));
      }
    } else {
      var x, y :| x in FindingsOf(db, verdictId) && y in FindingsOf(db, verdictId) && x != y
        && x.evaluatedAt == y.evaluatedAt && x.policyId == y.policyId;
      assert x in multiset(answer) && y in multiset(answer);
      var i :| 0 <= i < |answer| && answer[i] == x;
      var j :| 0 <= j < |answer| && answer[j] == y;
      var (lo, hi) := if i < j then (i, j) else (j, i);
      var other := answer[lo := answer[hi]][hi := answer[lo]];
      SwapTied(c, db, verdictId, answer, lo, hi);
      AnswerJoins(c, db, verdictId, other);
      assert other[lo] != answer[lo];
    }
  }

  function Join(answer: seq<FindingRow>, verdictId: string): (r: seq<Joined>)
    ensures |r| == |answer| && forall k :: 0 <= k < |r| ==> r[k] == Joined(answer[k], verdictId)
  {
    if answer == [] then [] else Join(answer[..|answer| - 1], verdictId) + [Joined(answer[|answer| - 1], verdictId)]
  }

  lemma {:induction false} JoinCounts(answer: seq<FindingRow>, verdictId: string, row: FindingRow)
    ensures multiset(Join(answer, verdictId))[Joined(row, verdictId)] == multiset(answer)[row]
  {
    if answer != [] {
      var n := |answer| - 1;
      assert answer == answer[..n] + [answer[n]];
      JoinCounts(answer[..n], verdictId, row);
    }
  }

  lemma {:induction false} RestrictJoin(answer: seq<FindingRow>, verdictId: string)
    ensures Restrict(Join(answer, verdictId), verdictId) == answer
  {
    if answer != [] {
      var n := |answer| - 1;
      var joined := Join(answer, verdictId);
      assert joined[..n] == Join(answer[..n], verdictId);
      RestrictJoin(answer[..n], verdictId);
    }
  }

  lemma JoinIsJoinedRows(db: Db, verdictId: string, answer: seq<FindingRow>)
    requires WellFormed(db) && multiset(answer) == multiset(FindingsOf(db, verdictId))
    ensures multiset(Join(answer, verdictId)) == multiset(JoinedRows(db, [verdictId]))
  {
    var joined := Join(answer, verdictId);
    forall j ensures multiset(joined)[j] == multiset(JoinedRows(db, [verdictId]))[j] {
      if j.verdictId == verdictId {
        JoinCounts(answer, verdictId, j.row);
        assert j in JoinedRows(db, [verdictId]) <==> j.row in FindingsOf(db, verdictId);
      } else {
        assert j !in joined;
        assert j !in multiset(joined) && j !in JoinedRows(db, [verdictId]);
      }
    }
  }

  /** Every answer to the single query can come back from the batch query too. */
  lemma AnswerJoins(c: Collation, db: Db, verdictId: string, answer: seq<FindingRow>)
    requires WellFormed(db) && IsAnswer(c, db, verdictId, answer)
    ensures IsJoinedAnswer(c, db, [verdictId], Join(answer, verdictId))
    ensures Restrict(Join(answer, verdictId), verdictId) == answer
  {
    JoinIsJoinedRows(db, verdictId, answer);
    RestrictJoin(answer, verdictId);
  }

  /** Findings are written in the order their policies ran, timestamps never decreasing and
      no policy twice. They are read back in that order exactly when, wherever timestamps are
      equal, the policies happened to run in the ascending order of their ids. */
  lemma ReadOrderIsWriteOrder(c: Collation, db: Db, verdictId: string, written: seq<FindingRow>,
                              answer: seq<FindingRow>)
    requires WellFormed(db) && Deterministic(c) && IsAnswer(c, db, verdictId, answer)
    requires multiset(written) == multiset(FindingsOf(db, verdictId))
    requires forall i, j :: 0 <= i < j < |written| ==> written[i].evaluatedAt <= written[j].evaluatedAt
    requires forall i, j :: 0 <= i < j < |written| ==> written[i].policyId != written[j].policyId
    ensures answer == written <==>
            forall i, j :: 0 <= i < j < |written| && written[i].evaluatedAt == written[j].evaluatedAt ==>
              c(written[i].policyId, written[j].policyId)
  {
    forall i, j | 0 <= i < j < |written|
      ensures RowLess(c)(written[j], written[i]) <==>
              written[i].evaluatedAt == written[j].evaluatedAt && !c(written[i].policyId, written[j].policyId)
    {
      assert c(written[i].policyId, written[j].policyId) || c(written[j].policyId, written[i].policyId);
    }
    if SortedBy(RowLess(c), written) {
      SortedArrangementUnique(RowLess(c), written, answer);
    }
  }

  /** A verdict of two findings with one timestamp, of policies `ratio` and `age`. */
  function SameInstant(): Db {
    Db(map["v" := VerdictRow("v", "e", ALLOW, 5)],
       map["1" := FindingRow("1", "ratio", CLEAR, 5), "2" := FindingRow("2", "age", CLEAR, 5)],
       {Link("v", "1"), Link("v", "2")})
  }

  lemma SameInstantFindings()
    ensures WellFormed(SameInstant())
    ensures FindingsOf(SameInstant(), "v") == {FindingRow("1", "ratio", CLEAR, 5), FindingRow("2", "age", CLEAR, 5)}
  {
    var db := SameInstant();
    assert "1"[0] != "2"[0];
    forall f | f in {db.findings["1"], db.findings["2"]} ensures f in FindingsOf(db, "v") {
      assert Link("v", f.id) in db.links;
    }
  }

  /** `ratio` ran first and `age` second, within one tick of the clock: under a collation that
      puts `age` first, they come back the other way round. */
  lemma ReadBackSwapped(c: Collation)
    requires Deterministic(c) && c("age", "ratio")
    ensures WellFormed(SameInstant())
    ensures var (first, second) := (FindingRow("1", "ratio", CLEAR, 5), FindingRow("2", "age", CLEAR, 5));
            forall answer :: IsAnswer(c, SameInstant(), "v", answer) <==> answer == [second, first]
  {
    var (first, second) := (FindingRow("1", "ratio", CLEAR, 5), FindingRow("2", "age", CLEAR, 5));
    SameInstantFindings();
    assert first != second && multiset({first, second}) == multiset{first, second} == multiset([second, first]);
    assert RowLess(c)(second, first) && !RowLess(c)(first, second);
    assert IsAnswer(c, SameInstant(), "v", [second, first]);
    forall answer | IsAnswer(c, SameInstant(), "v", answer) ensures answer == [second, first] {
      SortedArrangementUnique(RowLess(c), [second, first], answer);
    }
  }
}
