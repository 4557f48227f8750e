/** Reading the ledger back: decrypt, parse, verify; what an untouched table is found to hold,
    and what a table changed behind the store's back can still be passed off as. */
module LedgerReadBack {
  import opened Wrappers
  import opened JsonText
  import opened Encryption
  import opened HashChain
  import opened EvidenceLedger

  /** FieldDecryptionError, which names the row, or the error of a text that is not a JSON
      object, which names none. */
  datatype ReadFailure = Undecryptable(sequenceNumber: int) | NotAnObject

  datatype ReadRow = Read(record: Record) | Unread(failure: ReadFailure)

  datatype ReadResult = Records(records: seq<Record>) | Failed(failure: ReadFailure)

  /** `_to_model`: decrypt, parse, and take the payload only if it is an object. */
  function ToModel(c: Cipher, reader: Encryptor, row: Row): ReadRow {
    match DecryptField(c, reader, row.payload)
    case None => Unread(Undecryptable(row.sequenceNumber))
    case Some(payloadJson) =>
      match Loads(payloadJson)
      case Some(Obj(members)) =>
        Read(Record(row.sequenceNumber, row.decisionEventId, row.verdictId, Obj(members), row.previousHash,
                    row.recordHash, row.recordedAt, row.signature))
      case _ => Unread(NotAnObject)
  }

  /** All the records, or the failure of the first row that cannot be read. */
  function ReadAll(c: Cipher, reader: Encryptor, rows: seq<Row>): ReadResult {
    if rows == [] then Records([])
    else
      var n := |rows| - 1;
      var front := ReadAll(c, reader, rows[..n]);
      if front.Failed? then front
      else
        match ToModel(c, reader, rows[n])
        case Read(record) => Records(front.records + [record])
        case Unread(failure) => Failed(failure)
  }

  lemma {:induction false} FailurePersists(c: Cipher, reader: Encryptor, rows: seq<Row>, n: nat)
    requires n <= |rows| && ReadAll(c, reader, rows[..n]).Failed?
    ensures ReadAll(c, reader, rows) == ReadAll(c, reader, rows[..n])
  {
    if n == |rows| {
      assert rows[..n] == rows;
    } else {
      assert rows[..|rows| - 1][..n] == rows[..n];
      FailurePersists(c, reader, rows[..|rows| - 1], n);
    }
  }

  predicate ReadableBy(e: Encryptor, reader: Encryptor) {
    e.NoOp? || e == reader
  }

  /** What a committed request reads back as. */
  function RecordOf(suite: Suite, req: Request, previousHash: string, sequenceNumber: int): Record {
    var recordHash := ComputeHash(suite.h, previousHash, CanonicalJson(req.payload));
    Record(sequenceNumber, req.eventId, req.verdictId, Canon(req.payload), previousHash, recordHash,
           req.recordedAt, Some(suite.sign(req.signingKey, recordHash)))
  }

  lemma ReadBuiltRow(suite: Suite, req: Request, previousHash: string, n: int, reader: Encryptor)
    requires LawfulSuite(suite) && Payload(req)
    ensures ToModel(suite.cipher, reader, BuildRow(suite, req, previousHash, n)) ==
              if ReadableBy(req.encryptor, reader) then Read(RecordOf(suite, req, previousHash, n))
              else Unread(Undecryptable(n))
  {
    var text := CanonicalJson(req.payload);
    CanonicalFixpoint(req.payload);
    match req.encryptor
    case NoOp => ObjectTextUnmarked(req.payload);
    case Fernet(key) => SealedField(suite.cipher, key, req.nonce, text, reader);
  }

  predicate Faithful(suite: Suite, rows: seq<Row>, written: seq<Request>, record: Record, i: nat)
    requires i < |rows| == |written|
  {
    record == RecordOf(suite, written[i], PreviousHash(rows, i), rows[i].sequenceNumber)
  }

  predicate AllReadable(written: seq<Request>, reader: Encryptor) {
    forall i :: 0 <= i < |written| ==> ReadableBy(written[i].encryptor, reader)
  }

  lemma ReadOneMore(c: Cipher, reader: Encryptor, rows: seq<Row>, m: nat)
    requires m < |rows| && ReadAll(c, reader, rows[..m]).Records?
    ensures ReadAll(c, reader, rows[..m + 1]) ==
              match ToModel(c, reader, rows[m])
              case Read(record) => Records(ReadAll(c, reader, rows[..m]).records + [record])
              case Unread(failure) => Failed(failure)
  {
    assert rows[..m + 1][..m] == rows[..m];
  }

  /** The i-th row reads back as the i-th request's record. */
  lemma ReadChainedRow(suite: Suite, rows: seq<Row>, written: seq<Request>, next: int, reader: Encryptor, i: nat)
    requires LawfulSuite(suite) && ChainInv(suite, rows, written, next) && i < |rows|
    ensures ToModel(suite.cipher, reader, rows[i]) ==
              if ReadableBy(written[i].encryptor, reader)
              then Read(RecordOf(suite, written[i], PreviousHash(rows, i), rows[i].sequenceNumber))
              else Unread(Undecryptable(rows[i].sequenceNumber))
  {
    assert Chained(suite, rows, written, i) && Payload(written[i]);
    ReadBuiltRow(suite, written[i], PreviousHash(rows, i), rows[i].sequenceNumber, reader);
  }

  predicate AllFaithful(suite: Suite, rows: seq<Row>, written: seq<Request>, records: seq<Record>)
    requires |records| <= |rows| == |written|
  {
    forall i :: 0 <= i < |records| ==> Faithful(suite, rows, written, records[i], i)
  }

  predicate ReadsFaithfully(suite: Suite, rows: seq<Row>, written: seq<Request>, reader: Encryptor, n: nat)
    requires n <= |rows| == |written|
  {
    var r := ReadAll(suite.cipher, reader, rows[..n]);
    r.Records? && |r.records| == n && AllFaithful(suite, rows, written, r.records)
  }

  lemma ReadsOneMore(suite: Suite, rows: seq<Row>, written: seq<Request>, reader: Encryptor, record: Record, m: nat)
    requires m < |rows| == |written| && ReadsFaithfully(suite, rows, written, reader, m)
    requires ToModel(suite.cipher, reader, rows[m]) == Read(record) && Faithful(suite, rows, written, record, m)
    ensures ReadsFaithfully(suite, rows, written, reader, m + 1)
  {
    ReadOneMore(suite.cipher, reader, rows, m);
    var front := ReadAll(suite.cipher, reader, rows[..m]).records;
    forall i | 0 <= i < m + 1 ensures Faithful(suite, rows, written, (front + [record])[i], i) {
      assert i < m ==> Faithful(suite, rows, written, front[i], i);
    }
  }

  /** Rows written by any mix of processes with encryption off, or on under the reader's key,
      read back record by record to what was written. */
  lemma {:induction false} ReadBack(suite: Suite, rows: seq<Row>, written: seq<Request>, next: int, reader: Encryptor,
                                    n: nat)
    requires LawfulSuite(suite) && ChainInv(suite, rows, written, next) && n <= |rows|
    requires forall i :: 0 <= i < n ==> ReadableBy(written[i].encryptor, reader)
    ensures ReadsFaithfully(suite, rows, written, reader, n)
  {
    if n > 0 {
      ReadBack(suite, rows, written, next, reader, n - 1);
      ReadChainedRow(suite, rows, written, next, reader, n - 1);
      ReadsOneMore(suite, rows, written, reader, ToModel(suite.cipher, reader, rows[n - 1]).record, n - 1);
    }
  }

  /** With no key, or a wrong one, the first row sealed under another key is the one named. */
  lemma ReadStops(suite: Suite, rows: seq<Row>, written: seq<Request>, next: int, reader: Encryptor, m: nat)
    requires LawfulSuite(suite) && ChainInv(suite, rows, written, next) && m < |rows|
    requires forall i :: 0 <= i < m ==> ReadableBy(written[i].encryptor, reader)
    requires !ReadableBy(written[m].encryptor, reader)
    ensures ReadAll(suite.cipher, reader, rows) == Failed(Undecryptable(rows[m].sequenceNumber))
  {
    ReadBack(suite, rows, written, next, reader, m);
    ReadOneMore(suite.cipher, reader, rows, m);
    ReadChainedRow(suite, rows, written, next, reader, m);
    FailurePersists(suite.cipher, reader, rows, m + 1);
  }

  lemma FaithfulRecord(suite: Suite, req: Request, previousHash: string, n: int, key: Option<string>)
    requires LawfulSuite(suite) && Payload(req)
    requires key.Some? ==> suite.publicKey(req.signingKey) == key.value
    ensures var r := RecordOf(suite, req, previousHash, n);
            && r.recordHash == suite.h(RecordPreimage(r))
            && SignatureOk(suite.check, key, r)
            && SameTree(r.payload, req.payload)
  {
    CanonicalFixpoint(req.payload);
    CanonValid(req.payload);
    CanonIdempotent(req.payload);
    CanonThenSameTree(Canon(req.payload), req.payload);
  }

  ghost predicate SignedFor(suite: Suite, written: seq<Request>, key: Option<string>) {
    key.Some? ==> forall i :: 0 <= i < |written| ==> suite.publicKey(written[i].signingKey) == key.value
  }

  /** The records read back are a chain the verifier accepts, signatures included. */
  lemma ReadBackVerifies(suite: Suite, rows: seq<Row>, written: seq<Request>, next: int, records: seq<Record>,
                         key: Option<string>)
    requires LawfulSuite(suite) && ChainInv(suite, rows, written, next) && |records| == |rows|
    requires forall i :: 0 <= i < |rows| ==> Faithful(suite, rows, written, records[i], i)
    requires SignedFor(suite, written, key)
    ensures ChainOk(suite.h, suite.check, key, records)
    ensures forall i :: 0 <= i < |records| ==> SameTree(records[i].payload, written[i].payload)
  {
    forall i | 0 <= i < |records|
      ensures LinkOk(suite.h, suite.check, key, records, i) && SameTree(records[i].payload, written[i].payload)
    {
      assert Faithful(suite, rows, written, records[i], i) && Payload(written[i]);
      FaithfulRecord(suite, written[i], PreviousHash(rows, i), rows[i].sequenceNumber, key);
      if i > 0 {
        assert Faithful(suite, rows, written, records[i - 1], i - 1) && Chained(suite, rows, written, i - 1);
      }
    }
  }

  /** Everything a reader of a reachable ledger can see. */
  lemma ReachableReads(suite: Suite, actions: seq<Action>, reader: Encryptor, key: Option<string>)
    requires LawfulSuite(suite) && SignedFor(suite, Run(suite, INITIAL, actions).written, key)
    ensures var s := Run(suite, INITIAL, actions);
            var r := ReadAll(suite.cipher, reader, Ordered(s.rows));
            && |s.rows| == |s.written| && Ordered(s.rows) == s.rows
            && (AllReadable(s.written, reader) ==>
                  && r.Records? && |r.records| == |s.rows| && ChainOk(suite.h, suite.check, key, r.records)
                  && forall i :: 0 <= i < |s.rows| ==> SameTree(r.records[i].payload, s.written[i].payload))
            && (forall m :: 0 <= m < |s.rows| && FirstUnreadable(s.written, reader, m)
                  ==> r == Failed(Undecryptable(s.rows[m].sequenceNumber)))
            && (!AllReadable(s.written, reader) ==> r.Failed?)
  {
    var s := Run(suite, INITIAL, actions);
    InterleavingInv(suite, INITIAL, actions);
    OrderedIsCommitOrder(s.rows);
    ChainReads(suite, s.rows, s.written, s.nextSequence, reader, key);
  }

  lemma ChainReads(suite: Suite, rows: seq<Row>, written: seq<Request>, next: int, reader: Encryptor,
                   key: Option<string>)
    requires LawfulSuite(suite) && ChainInv(suite, rows, written, next) && SignedFor(suite, written, key)
    ensures var r := ReadAll(suite.cipher, reader, rows);
            && (AllReadable(written, reader) ==>
                  && r.Records? && |r.records| == |rows| && ChainOk(suite.h, suite.check, key, r.records)
                  && forall i :: 0 <= i < |rows| ==> SameTree(r.records[i].payload, written[i].payload))
            && (forall m :: 0 <= m < |rows| && FirstUnreadable(written, reader, m)
                  ==> r == Failed(Undecryptable(rows[m].sequenceNumber)))
            && (!AllReadable(written, reader) ==> r.Failed?)
  {
    assert rows[..|rows|] == rows;
    if AllReadable(written, reader) {
      ReadBack(suite, rows, written, next, reader, |rows|);
      ReadBackVerifies(suite, rows, written, next, ReadAll(suite.cipher, reader, rows).records, key);
    } else {
      SomeFirstUnreadable(written, reader);
    }
    forall m | 0 <= m < |rows| && FirstUnreadable(written, reader, m)
      ensures ReadAll(suite.cipher, reader, rows) == Failed(Undecryptable(rows[m].sequenceNumber))
    {
      ReadStops(suite, rows, written, next, reader, m);
    }
  }

  predicate FirstUnreadable(written: seq<Request>, reader: Encryptor, m: nat)
    requires m < |written|
  {
    !ReadableBy(written[m].encryptor, reader) && forall i :: 0 <= i < m ==> ReadableBy(written[i].encryptor, reader)
  }

  lemma {:induction false} SomeFirstUnreadable(written: seq<Request>, reader: Encryptor)
    requires !AllReadable(written, reader)
    ensures exists m :: 0 <= m < |written| && FirstUnreadable(written, reader, m)
  {
    var m := 0;
    while ReadableBy(written[m].encryptor, reader)
      invariant 0 <= m < |written|
      invariant forall i :: 0 <= i < m ==> ReadableBy(written[i].encryptor, reader)
      decreases |written| - m
    {
      m := m + 1;
    }
    assert FirstUnreadable(written, reader, m);
  }

  // ----- The stores and tools around the ledger -----

  /** Raises is an exception the tool lets through. */
  datatype DatabaseVerdict = Verified(result: VerificationResult) | Unreadable(sequenceNumber: int) | Raises

  /** `EvidenceStore.all`. */
  method All(c: Cipher, reader: Encryptor, rows: seq<Row>) returns (result: ReadResult)
    ensures result == ReadAll(c, reader, Ordered(rows))
  {
    var ordered := Ordered(rows);
    var records: seq<Record> := [];
    for i := 0 to |ordered|
      invariant ReadAll(c, reader, ordered[..i]) == Records(records)
    {
      ReadOneMore(c, reader, ordered, i);
      match ToModel(c, reader, ordered[i]) {
        case Read(record) =>
          records := records + [record];
        case Unread(failure) =>
          FailurePersists(c, reader, ordered, i + 1);
          return Failed(failure);
      }
    }
    assert ordered[..|ordered|] == ordered;
    return Records(records);
  }

  /** What the tool may answer about a table: of the failures to read it, the failure to
      decrypt alone is caught and reported; records read are judged as `verify_chain` judges
      them. */
  ghost predicate MayAnswer(suite: Suite, rows: seq<Row>, reader: Encryptor, key: Option<string>,
                            verdict: DatabaseVerdict)
  {
    match ReadAll(suite.cipher, reader, Ordered(rows))
    case Failed(Undecryptable(n)) => verdict == Unreadable(n)
    case Failed(NotAnObject) => verdict == Raises
    case Records(records) =>
      match verdict
      case Verified(result) => result != Raised && Judges(suite.h, suite.check, key, records, result)
      case Unreadable(_) => false
      case Raises => Judges(suite.h, suite.check, key, records, Raised)
  }

  /** `verify_chain_from_database`, over whatever the table holds. */
  method VerifyChainFromDatabase(suite: Suite, rows: seq<Row>, reader: Encryptor, key: Option<string>)
    returns (verdict: DatabaseVerdict)
    ensures MayAnswer(suite, rows, reader, key, verdict)
  {
    var r := All(suite.cipher, reader, rows);
    match r {
      case Failed(Undecryptable(n)) => verdict := Unreadable(n);
      case Failed(NotAnObject) => verdict := Raises;
      case Records(records) =>
        var result := VerifyChain(suite.h, suite.check, records, key);
        verdict := if result == Raised then Raises else Verified(result);
    }
  }

  // ----- When the tool raises -----

  predicate Decrypts(c: Cipher, reader: Encryptor, row: Row) {
    DecryptField(c, reader, row.payload).Some?
  }

  predicate IsObjectText(text: string) {
    Loads(text).Some? && Loads(text).value.Obj?
  }

  predicate HoldsObject(c: Cipher, reader: Encryptor, row: Row) {
    Decrypts(c, reader, row) && IsObjectText(DecryptField(c, reader, row.payload).value)
  }

  /** The m-th row is the first that cannot be read. */
  predicate FirstBad(c: Cipher, reader: Encryptor, rows: seq<Row>, m: nat) {
    && m < |rows| && !HoldsObject(c, reader, rows[m])
    && forall i :: 0 <= i < m ==> HoldsObject(c, reader, rows[i])
  }

  lemma {:induction false} ReadsAll(c: Cipher, reader: Encryptor, rows: seq<Row>)
    requires forall i :: 0 <= i < |rows| ==> HoldsObject(c, reader, rows[i])
    ensures ReadAll(c, reader, rows).Records?
  {
    if rows != [] {
      ReadsAll(c, reader, rows[..|rows| - 1]);
    }
  }

  lemma FailsAtFirstBad(c: Cipher, reader: Encryptor, rows: seq<Row>, m: nat)
    requires FirstBad(c, reader, rows, m)
    ensures ReadAll(c, reader, rows) ==
              Failed(if Decrypts(c, reader, rows[m]) then NotAnObject else Undecryptable(rows[m].sequenceNumber))
  {
    ReadsAll(c, reader, rows[..m]);
    ReadOneMore(c, reader, rows, m);
    FailurePersists(c, reader, rows, m + 1);
  }

  /** Rows can all be read, or there is a first that cannot. */
  lemma {:induction false} SomeFirstBad(c: Cipher, reader: Encryptor, rows: seq<Row>)
    ensures ReadAll(c, reader, rows).Records? <==> !exists m: nat :: FirstBad(c, reader, rows, m)
  {
    if m: nat :| FirstBad(c, reader, rows, m) {
      FailsAtFirstBad(c, reader, rows, m);
    } else {
      var n := 0;
      while n < |rows|
        invariant n <= |rows| && forall i :: 0 <= i < n ==> HoldsObject(c, reader, rows[i])
      {
        assert !FirstBad(c, reader, rows, n);
        n := n + 1;
      }
      ReadsAll(c, reader, rows);
    }
  }

  /** All rows can be read, and the chain check comes to a signature it raises on. */
  ghost predicate RaisesOnSignature(suite: Suite, rows: seq<Row>, reader: Encryptor, key: Option<string>) {
    var r := ReadAll(suite.cipher, reader, rows);
    r.Records? && exists n: nat :: n < |r.records| && RaisesAt(suite.h, suite.check, key, r.records, n)
  }

  /** Over any table: the tool reports a row as unreadable exactly when the first row it cannot
      read does not decrypt, and names that row; it raises exactly when that row does decrypt
      but to something else than a JSON object, or when all can be read and the first one at
      fault has a malformed signature. It returns a result in every other case. */
  lemma RaisesExactly(suite: Suite, rows: seq<Row>, reader: Encryptor, key: Option<string>, verdict: DatabaseVerdict)
    requires MayAnswer(suite, rows, reader, key, verdict)
    ensures verdict == Raises <==>
              || (exists m: nat :: FirstBad(suite.cipher, reader, Ordered(rows), m)
                    && Decrypts(suite.cipher, reader, Ordered(rows)[m]))
              || RaisesOnSignature(suite, Ordered(rows), reader, key)
    ensures forall n :: verdict == Unreadable(n) <==>
              exists m: nat :: FirstBad(suite.cipher, reader, Ordered(rows), m)
                && !Decrypts(suite.cipher, reader, Ordered(rows)[m]) && Ordered(rows)[m].sequenceNumber == n
    ensures key.None? ==> !RaisesOnSignature(suite, Ordered(rows), reader, key)
  {
    var ordered := Ordered(rows);
    SomeFirstBad(suite.cipher, reader, ordered);
    forall m: nat | FirstBad(suite.cipher, reader, ordered, m)
      ensures ReadAll(suite.cipher, reader, ordered) ==
                Failed(if Decrypts(suite.cipher, reader, ordered[m]) then NotAnObject
                       else Undecryptable(ordered[m].sequenceNumber))
    {
      FailsAtFirstBad(suite.cipher, reader, ordered, m);
    }
    var r := ReadAll(suite.cipher, reader, ordered);
    if r.Records? && verdict.Verified? {
      if n: nat :| n < |r.records| && RaisesAt(suite.h, suite.check, key, r.records, n) {
        NotBoth(suite.h, suite.check, key, r.records, verdict.result, n);
      }
    }
  }

  /** A ledger produced by any interleaving is called valid exactly when no committed row was
      sealed under a key the reader lacks; otherwise the first such row is reported. */
  lemma HonestLedgerVerifies(suite: Suite, actions: seq<Action>, reader: Encryptor, key: Option<string>,
                             verdict: DatabaseVerdict)
    requires LawfulSuite(suite) && SignedFor(suite, Run(suite, INITIAL, actions).written, key)
    requires MayAnswer(suite, Run(suite, INITIAL, actions).rows, reader, key, verdict)
    ensures var s := Run(suite, INITIAL, actions);
            && |s.written| == |s.rows|
            && (AllReadable(s.written, reader) <==> verdict == Verified(Intact(|s.rows|)))
            && forall m :: 0 <= m < |s.rows| && FirstUnreadable(s.written, reader, m) ==>
                 verdict == Unreadable(s.rows[m].sequenceNumber)
  {
    ReachableReads(suite, actions, reader, key);
    if AllReadable(Run(suite, INITIAL, actions).written, reader) {
      IntactOnly(suite, Run(suite, INITIAL, actions).rows, reader, key, verdict);
    }
  }

  /** Of rows that read back as an acceptable chain there is one answer. */
  lemma IntactOnly(suite: Suite, rows: seq<Row>, reader: Encryptor, key: Option<string>, verdict: DatabaseVerdict)
    requires MayAnswer(suite, rows, reader, key, verdict)
    requires var r := ReadAll(suite.cipher, reader, Ordered(rows));
             r.Records? && ChainOk(suite.h, suite.check, key, r.records)
    ensures verdict == Verified(Intact(|ReadAll(suite.cipher, reader, Ordered(rows)).records|))
  {
    var result := if verdict == Raises then Raised else verdict.result;
    OnlyIntact(suite.h, suite.check, key, ReadAll(suite.cipher, reader, Ordered(rows)).records, result);
  }

  /** Two texts that are not ciphertext and not JSON objects. */
  lemma NotObjectTexts()
    ensures !IsEncrypted("x") && !IsObjectText("x")
    ensures !IsEncrypted("[]") && !IsObjectText("[]")
  {
    assert MARKER_PREFIX[0] == 'g';
    LoadsDumps(Arr([]));
    assert Render(Arr([])) == "[]";
  }

  /** A payload of a ledger that can be read, overwritten with text that is no JSON object and
      not marked as ciphertext, makes the tool raise instead of naming the record. */
  lemma OverwrittenPayloadRaises(suite: Suite, actions: seq<Action>, reader: Encryptor, key: Option<string>, i: nat,
                                 text: string, verdict: DatabaseVerdict)
    requires LawfulSuite(suite) && AllReadable(Run(suite, INITIAL, actions).written, reader)
    requires i < |Run(suite, INITIAL, actions).rows| && text in {"x", "[]"}
    requires var rows := Run(suite, INITIAL, actions).rows;
             MayAnswer(suite, rows[i := rows[i].(payload := text)], reader, key, verdict)
    ensures verdict == Raises
  {
    var s := Run(suite, INITIAL, actions);
    var altered := s.rows[i := s.rows[i].(payload := text)];
    InterleavingInv(suite, INITIAL, actions);
    OrderedIsCommitOrder(altered);
    NotObjectTexts();
    forall j | 0 <= j < i ensures HoldsObject(suite.cipher, reader, altered[j]) {
      ReadChainedRow(suite, s.rows, s.written, s.nextSequence, reader, j);
    }
    FailsAtFirstBad(suite.cipher, reader, altered, i);
  }

  // ----- A table changed behind the store's back -----

  lemma ReadRowValid(c: Cipher, reader: Encryptor, row: Row)
    requires ToModel(c, reader, row).Read?
    ensures var record := ToModel(c, reader, row).record;
            Valid(record.payload) && record.recordHash == row.recordHash
  {
    LoadsValid(DecryptField(c, reader, row.payload).value);
  }

  lemma {:induction false} ReadPayloadsValid(c: Cipher, reader: Encryptor, rows: seq<Row>)
    requires ReadAll(c, reader, rows).Records?
    ensures var records := ReadAll(c, reader, rows).records;
            |records| == |rows| && ValidPayloads(records)
            && forall i :: 0 <= i < |rows| ==> records[i].recordHash == rows[i].recordHash
  {
    if rows != [] {
      ReadPayloadsValid(c, reader, rows[..|rows| - 1]);
      ReadRowValid(c, reader, rows[|rows| - 1]);
    }
  }

  /** What is read is what is stored, column by column, the payload decrypted and parsed. */
  lemma {:induction false} ReadColumns(c: Cipher, reader: Encryptor, rows: seq<Row>, i: nat)
    requires ReadAll(c, reader, rows).Records? && i < |rows|
    ensures |ReadAll(c, reader, rows).records| == |rows|
    ensures var (row, record) := (rows[i], ReadAll(c, reader, rows).records[i]);
            && record.sequenceNumber == row.sequenceNumber && record.decisionEventId == row.decisionEventId
            && record.verdictId == row.verdictId && record.previousHash == row.previousHash
            && record.recordHash == row.recordHash && record.recordedAt == row.recordedAt
            && record.signature == row.signature
            && DecryptField(c, reader, row.payload).Some?
            && Loads(DecryptField(c, reader, row.payload).value) == Some(record.payload)
  {
    ReadPayloadsValid(c, reader, rows);
    if i < |rows| - 1 {
      ReadColumns(c, reader, rows[..|rows| - 1], i);
    }
  }

  /** The records the committed requests amount to, whoever can read their rows. */
  function CommittedRecords(suite: Suite, rows: seq<Row>, written: seq<Request>, n: nat): (r: seq<Record>)
    requires n <= |rows| == |written|
    ensures |r| == n && AllFaithful(suite, rows, written, r)
  {
    if n == 0 then []
    else
      CommittedRecords(suite, rows, written, n - 1)
      + [RecordOf(suite, written[n - 1], PreviousHash(rows, n - 1), rows[n - 1].sequenceNumber)]
  }

  lemma CommittedRecordsVerify(suite: Suite, rows: seq<Row>, written: seq<Request>, next: int)
    requires LawfulSuite(suite) && ChainInv(suite, rows, written, next)
    ensures var records := CommittedRecords(suite, rows, written, |rows|);
            ChainOk(suite.h, suite.check, None, records) && ValidPayloads(records)
    ensures forall i :: 0 <= i < |rows| ==>
              CommittedRecords(suite, rows, written, |rows|)[i].payload == Canon(written[i].payload)
  {
    var records := CommittedRecords(suite, rows, written, |rows|);
    ReadBackVerifies(suite, rows, written, next, records, None);
    forall i | 0 <= i < |records| ensures records[i].payload == Canon(written[i].payload) && Valid(records[i].payload) {
      assert Faithful(suite, rows, written, records[i], i) && Payload(written[i]);
      CanonValid(written[i].payload);
    }
  }

  lemma CommittedEnd(suite: Suite, rows: seq<Row>, written: seq<Request>, next: int)
    requires ChainInv(suite, rows, written, next) && rows != []
    ensures CommittedRecords(suite, rows, written, |rows|)[|rows| - 1].recordHash == LatestHash(rows)
  {
    var n := |rows| - 1;
    OrderedIsCommitOrder(rows);
    assert Faithful(suite, rows, written, CommittedRecords(suite, rows, written, |rows|)[n], n);
    assert Chained(suite, rows, written, n);
  }

  lemma KeylessChain(h: string -> string, check: SignatureCheck, key: Option<string>, rs: seq<Record>)
    requires ChainOk(h, check, key, rs)
    ensures ChainOk(h, check, None, rs)
  {
    forall i | 0 <= i < |rs| ensures LinkOk(h, check, None, rs, i) {
      assert LinkOk(h, check, key, rs, i);
    }
  }

  /** What two accepted record lists with one final hash come to, the first of them found in
      a table and the second being the committed one. */
  lemma FoundIsWritten(suite: Suite, found: seq<Record>, records: seq<Record>, written: seq<Request>)
    requires Digest(suite.h) && ChainOk(suite.h, suite.check, None, found)
               && ChainOk(suite.h, suite.check, None, records)
    requires ValidPayloads(found) && ValidPayloads(records) && found != [] && records != []
    requires found[|found| - 1].recordHash == records[|records| - 1].recordHash
    requires |records| == |written|
    requires forall i :: 0 <= i < |records| ==> Payload(written[i]) && records[i].payload == Canon(written[i].payload)
    ensures DigestBroken(suite.h, found, records) || SameAsWritten(found, written)
  {
    TamperEvidence(suite.h, suite.check, None, found, records);
    if !DigestBroken(suite.h, found, records) {
      forall i | 0 <= i < |found| ensures SameTree(found[i].payload, written[i].payload) {
        assert SameTree(found[i].payload, records[i].payload) && found[i] in found && Payload(written[i]);
        SamePayloadWritten(found[i].payload, written[i].payload);
      }
    }
  }

  ghost predicate SameAsWritten(found: seq<Record>, written: seq<Request>) {
    |found| == |written| && forall i :: 0 <= i < |found| ==> SameTree(found[i].payload, written[i].payload)
  }

  /** What a table accepted as valid is found to hold. */
  lemma FoundRecords(suite: Suite, rows: seq<Row>, reader: Encryptor, key: Option<string>, n: nat)
    requires rows != [] && MayAnswer(suite, rows, reader, key, Verified(Intact(n)))
    ensures var found := ReadAll(suite.cipher, reader, Ordered(rows)).records;
            && found != [] && ValidPayloads(found) && ChainOk(suite.h, suite.check, None, found)
            && found[|found| - 1].recordHash == LatestHash(rows)
  {
    var found := ReadAll(suite.cipher, reader, Ordered(rows)).records;
    ReadPayloadsValid(suite.cipher, reader, Ordered(rows));
    assert |Ordered(rows)| == |multiset(Ordered(rows))| == |multiset(rows)| == |rows|;
    KeylessChain(suite.h, suite.check, key, found);
  }

  /** The payloads are those written, or the digest has been broken. */
  ghost predicate Untampered(suite: Suite, rows: seq<Row>, written: seq<Request>, found: seq<Record>)
    requires |rows| == |written|
  {
    DigestBroken(suite.h, found, CommittedRecords(suite, rows, written, |rows|)) || SameAsWritten(found, written)
  }

  lemma FoundIsCommitted(suite: Suite, rows: seq<Row>, written: seq<Request>, next: int, found: seq<Record>)
    requires LawfulSuite(suite) && ChainInv(suite, rows, written, next) && rows != []
    requires found != [] && ValidPayloads(found) && ChainOk(suite.h, suite.check, None, found)
    requires found[|found| - 1].recordHash == LatestHash(rows)
    ensures Untampered(suite, rows, written, found)
  {
    CommittedRecordsVerify(suite, rows, written, next);
    CommittedEnd(suite, rows, written, next);
    FoundIsWritten(suite, found, CommittedRecords(suite, rows, written, |rows|), written);
  }

  /** Tamper evidence on the stored table: whatever is done to the rows of a ledger some
      interleaving has produced, if the tool still calls the table valid and it ends in the
      record hash the ledger ended in, it holds exactly the payloads that were appended, or
      the digest itself has been broken. */
  lemma TamperedTable(suite: Suite, actions: seq<Action>, rows: seq<Row>, reader: Encryptor, key: Option<string>,
                      n: nat)
    requires LawfulSuite(suite) && Run(suite, INITIAL, actions).rows != [] && rows != []
    requires MayAnswer(suite, rows, reader, key, Verified(Intact(n)))
    requires LatestHash(rows) == LatestHash(Run(suite, INITIAL, actions).rows)
    ensures var s := Run(suite, INITIAL, actions);
            && |s.written| == |s.rows|
            && Untampered(suite, s.rows, s.written, ReadAll(suite.cipher, reader, Ordered(rows)).records)
  {
    var s := Run(suite, INITIAL, actions);
    InterleavingInv(suite, INITIAL, actions);
    FoundRecords(suite, rows, reader, key, n);
    FoundIsCommitted(suite, s.rows, s.written, s.nextSequence, ReadAll(suite.cipher, reader, Ordered(rows)).records);
  }

  /** Equal to the canonical form is equal to the payload. */
  lemma SamePayloadWritten(found: Json, written: Json)
    requires Valid(found) && Valid(written) && SameTree(found, Canon(written))
    ensures SameTree(found, written)
  {
    CanonValid(written);
    SameTreeThenCanon(found, Canon(written));
    CanonIdempotent(written);
    CanonThenSameTree(found, written);
  }
}
