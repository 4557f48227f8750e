/** `VerdictReviewRepository` and `PopulationFindingReviewRepository`: one table, changed in
    place by single conditional statements, and listed page by page. */
module ReviewRepository {
  import opened Wrappers
  import opened Ordering
  import opened Schemas
  import opened Encryption
  import opened Reviews
  import opened Paging

  /** Oldest first; `id` breaks ties. */
  predicate ReviewLess(a: Review, b: Review) {
    a.createdAt < b.createdAt || (a.createdAt == b.createdAt && StrLess(a.id, b.id))
  }

  lemma ReviewLessLaws()
    ensures Transitive(ReviewLess) && Asymmetric(ReviewLess)
  {
    StrLessLaws();
    assert forall a: Review, b: Review, c: Review :: ReviewLess(a, b) && ReviewLess(b, c) ==> ReviewLess(a, c);
    assert forall a: Review, b: Review :: ReviewLess(a, b) ==> !ReviewLess(b, a);
  }

  /** The WHERE clauses `list_all` adds, each only when its argument is given. */
  predicate Matches(r: Review, status: Option<Status>, severity: Option<VerdictStatus>,
                    verdicts: map<string, VerdictStatus>)
  {
    && (status.Some? ==> r.status == status.value)
    && (severity.Some? ==> r.subjectId in verdicts && verdicts[r.subjectId] == severity.value)
  }

  function Selected(t: Table, status: Option<Status>, severity: Option<VerdictStatus>,
                    verdicts: map<string, VerdictStatus>): set<Review>
  {
    set r | r in t.Values && Matches(r, status, severity, verdicts)
  }

  /** Row ids are unique, so a listing has no ties: (createdAt, id) orders it strictly. */
  lemma ListingHasNoTies(t: Table, rows: set<Review>, listing: seq<Review>)
    requires TableInv(t) && rows <= t.Values && multiset(listing) == multiset(rows)
    ensures NoTies(ReviewLess, listing)
  {
    forall x, y | x in listing && y in listing && x != y ensures ReviewLess(x, y) || ReviewLess(y, x) {
      assert x in multiset(listing) && y in multiset(listing);
      StrLessTotal(x.id, y.id);
    }
  }

  /** A listing holds the reviews the given filters leave, each once, oldest first, and those of
      one instant by ascending id. */
  lemma ListedExactly(t: Table, status: Option<Status>, severity: Option<VerdictStatus>,
                      verdicts: map<string, VerdictStatus>, listing: seq<Review>)
    requires TableInv(t) && IsOrderBy(ReviewLess, multiset(Selected(t, status, severity, verdicts)), listing)
    ensures forall r :: r in listing <==>
              && r.id in t && t[r.id] == r && (status.Some? ==> r.status == status.value)
              && (severity.Some? ==> r.subjectId in verdicts && verdicts[r.subjectId] == severity.value)
    ensures forall i, j :: 0 <= i < j < |listing| ==>
              listing[i].createdAt < listing[j].createdAt
              || (listing[i].createdAt == listing[j].createdAt && StrLess(listing[i].id, listing[j].id))
  {
    var rows := Selected(t, status, severity, verdicts);
    forall r ensures r in listing <==> r in rows {
      assert r in listing <==> r in multiset(listing);
    }
    ListingHasNoTies(t, rows, listing);
    forall i, j | 0 <= i < j < |listing| ensures ReviewLess(listing[i], listing[j]) {
      assert listing[i] in listing && listing[j] in listing;
      if listing[i] == listing[j] {
        DuplicateCounted(listing, i, j);
      }
    }
  }

  /** Walking a review listing by pages shows every selected review exactly once, whatever
      filters are given and however each page's query was executed. */
  lemma ReviewPagesAreExact(t: Table, rows: set<Review>, results: seq<seq<Review>>, n: nat)
    requires TableInv(t) && rows <= t.Values && |rows| <= |results| * n
    requires forall i :: 0 <= i < |results| ==> IsOrderBy(ReviewLess, multiset(rows), results[i])
    ensures IsOrderBy(ReviewLess, multiset(rows), Walk(results, n, |results|))
  {
    forall x, y | x in rows && y in rows && x != y ensures ReviewLess(x, y) || ReviewLess(y, x) {
      StrLessTotal(x.id, y.id);
    }
    PagesOfSetAreExact(ReviewLess, rows, results, n);
  }

  /** `_to_model`: the row as a caller sees it, its notes decrypted. */
  function Shown(c: Cipher, e: Encryptor, r: Review): Review {
    r.(notes := match r.notes case Some(stored) => Some(ReadNotes(c, e, stored)) case None => None)
  }

  function ShownAll(c: Cipher, e: Encryptor, rs: seq<Review>): (shown: seq<Review>)
    ensures |shown| == |rs| && forall i :: 0 <= i < |rs| ==> shown[i] == Shown(c, e, rs[i])
  {
    if rs == [] then [] else [Shown(c, e, rs[0])] + ShownAll(c, e, rs[1..])
  }

  class ReviewRepository {
    const cipher: Cipher
    const encryptor: Encryptor
    var rows: Table

    constructor (cipher: Cipher, encryptor: Encryptor)
      ensures rows == map[] && this.cipher == cipher && this.encryptor == encryptor
    {
      this.cipher, this.encryptor := cipher, encryptor;
      rows := map[];
    }

    /** The idempotent upsert: None when an active review already exists, never an error.
        `id` is a fresh uuid. */
    method Create(id: string, subjectId: string, now: int) returns (r: Option<Review>)
      requires id !in rows
      modifies this`rows
      ensures rows == Apply(old(rows), Op.Create(id, subjectId, now))
      ensures r.Some? <==> !HasActive(old(rows), subjectId)
      ensures r.Some? ==> id in rows && rows[id] == r.value
      ensures r.Some? ==> r.value == Review(id, subjectId, OPEN, None, None, None, now, None, None)
      ensures HasActive(rows, subjectId)
    {
      if exists other :: other in rows && rows[other].subjectId == subjectId && rows[other].status != RESOLVED {
        return None;
      }
      var row := Review(id, subjectId, OPEN, None, None, None, now, None, None);
      rows := rows[id := row];
      assert Active(rows[id]);
      return Some(row);
    }

    /** None is the conflict. */
    method Claim(id: string, reviewer: string, now: int) returns (r: Option<Review>)
      modifies this`rows
      ensures rows == Apply(old(rows), Op.Claim(id, reviewer, now))
      ensures r.Some? <==> InStatus(old(rows), id, OPEN)
      ensures r.Some? ==> id in rows && r.value == rows[id]
      ensures r.Some? ==>
                r.value.status == IN_REVIEW && r.value.reviewer == Some(reviewer) && r.value.claimedAt == Some(now)
    {
      if id !in rows || rows[id].status != OPEN {
        return None;
      }
      rows := rows[id := rows[id].(status := IN_REVIEW, reviewer := Some(reviewer), claimedAt := Some(now))];
      return Some(rows[id]);
    }

    method Release(id: string) returns (r: Option<Review>)
      modifies this`rows
      ensures rows == Apply(old(rows), Op.Release(id))
      ensures r.Some? <==> InStatus(old(rows), id, IN_REVIEW)
      ensures r.Some? ==> id in rows && r.value == rows[id]
      ensures r.Some? ==> r.value.status == OPEN && r.value.reviewer == None && r.value.claimedAt == None
    {
      if id !in rows || rows[id].status != IN_REVIEW {
        return None;
      }
      rows := rows[id := rows[id].(status := OPEN, reviewer := None, claimedAt := None)];
      return Some(rows[id]);
    }

    /** Only the current claimer resolves; the notes are stored encrypted and shown back. */
    method Resolve(id: string, reviewer: string, resolution: Resolution, notes: string, nonce: int, now: int)
      returns (r: Option<Review>)
      requires Lawful(cipher)
      modifies this`rows
      ensures rows == Apply(old(rows), Op.Resolve(id, reviewer, resolution,
                Encrypt(cipher, encryptor, nonce, notes), now))
      ensures r.Some? <==> InStatus(old(rows), id, IN_REVIEW) && old(rows)[id].reviewer == Some(reviewer)
      ensures r.Some? ==>
                && r.value.status == RESOLVED && r.value.reviewer == Some(reviewer)
                && r.value.resolution == Some(resolution) && r.value.resolvedAt == Some(now)
                && id in rows && rows[id].(notes := None) == r.value.(notes := None)
      ensures r.Some? ==> (r.value.notes == Some(notes) <==> encryptor.Fernet? || !IsEncrypted(notes))
    {
      NotesRoundTrip(cipher, encryptor, nonce, notes);
      var encryptedNotes := Encrypt(cipher, encryptor, nonce, notes);
      if id !in rows || rows[id].status != IN_REVIEW || rows[id].reviewer != Some(reviewer) {
        return None;
      }
      rows := rows[id := rows[id].(status := RESOLVED, resolution := Some(resolution),
                                   notes := Some(encryptedNotes), resolvedAt := Some(now))];
      return Some(Shown(cipher, encryptor, rows[id]));
    }

    /** `list_all`: the page cut from the one listing the filters and the order allow. */
    method ListAll(status: Option<Status>, severity: Option<VerdictStatus>, verdicts: map<string, VerdictStatus>,
                   limit: Option<nat>, offset: Option<nat>)
      returns (page: seq<Review>)
      requires TableInv(rows)
      ensures exists listing :: IsOrderBy(ReviewLess, multiset(Selected(rows, status, severity, verdicts)), listing)
      ensures forall listing :: IsOrderBy(ReviewLess, multiset(Selected(rows, status, severity, verdicts)), listing)
                ==> page == ShownAll(cipher, encryptor, Page(listing, limit, offset))
    {
      var statement := rows.Values;
      if status.Some? {
        statement := set r | r in statement && r.status == status.value;
      }
      if severity.Some? {
        statement := set r | r in statement && r.subjectId in verdicts && verdicts[r.subjectId] == severity.value;
      }
      assert statement == Selected(rows, status, severity, verdicts);
      var scanned := Scan(statement);
      var listing := Sort(ReviewLess, scanned);
      ListingHasNoTies(rows, statement, scanned);
      ReviewLessLaws();
      SortSorted(ReviewLess, scanned);
      ListingHasNoTies(rows, statement, listing);
      assert IsOrderBy(ReviewLess, multiset(Selected(rows, status, severity, verdicts)), listing);
      forall other | IsOrderBy(ReviewLess, multiset(statement), other) ensures other == listing {
        SortedArrangementUnique(ReviewLess, listing, other);
      }
      return ShownAll(cipher, encryptor, Page(listing, limit, offset));
    }
  }
}
