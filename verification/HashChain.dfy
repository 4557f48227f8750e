/** The hash chain and its independent verifier. The digest is any function `h` whose
    output is 64 characters long, as a SHA-256 hex digest is; nothing else is assumed. */
module HashChain {
  import opened Wrappers
  import opened JsonText

  function Zeros(n: nat): (r: string)
    ensures |r| == n && forall i :: 0 <= i < n ==> r[i] == '0'
  {
    if n == 0 then "" else "0" + Zeros(n - 1)
  }

  const GENESIS_HASH: string := Zeros(64)

  ghost predicate Digest(h: string -> string) {
    forall s :: |h(s)| == 64
  }

  /** The text `compute_hash` feeds to the digest. */
  function Preimage(previousHash: string, payloadJson: string): string {
    previousHash + ":" + payloadJson
  }

  function ComputeHash(h: string -> string, previousHash: string, payloadJson: string): string {
    h(Preimage(previousHash, payloadJson))
  }

  datatype Record = Record(
    sequenceNumber: int,
    decisionEventId: string,
    verdictId: string,
    payload: Json,
    previousHash: string,
    recordHash: string,
    recordedAt: int,
    signature: Option<string>)

  datatype Fault = PreviousHashMismatch | RecordHashMismatch | BadSignature

  datatype VerificationResult =
    | Intact(checkedCount: nat)
    | Corrupt(checkedCount: nat, firstCorruptionAt: int, detail: Fault)
    | Raised

  /** `verify_signature` on record hash, signature and public key. Malformed is the ValueError
      of a signature or key that cannot be decoded, which nothing catches. */
  datatype SignatureVerdict = Matches | Mismatches | Malformed

  type SignatureCheck = (string, string, string) -> SignatureVerdict

  function RecordPreimage(r: Record): string {
    Preimage(r.previousHash, CanonicalJson(r.payload))
  }

  /** The hash the record at `i` has to name as its predecessor. */
  function ExpectedPrevious(rs: seq<Record>, i: nat): string
    requires i <= |rs|
  {
    if i == 0 then GENESIS_HASH else rs[i - 1].recordHash
  }

  /** A record without a signature, or a run without a key, has nothing to check. */
  function CheckSignature(check: SignatureCheck, key: Option<string>, r: Record): SignatureVerdict {
    if key.Some? && r.signature.Some? then check(r.recordHash, r.signature.value, key.value) else Matches
  }

  predicate SignatureOk(check: SignatureCheck, key: Option<string>, r: Record) {
    CheckSignature(check, key, r) == Matches
  }

  predicate LinkOk(h: string -> string, check: SignatureCheck, key: Option<string>, rs: seq<Record>, i: nat)
    requires i < |rs|
  {
    && rs[i].previousHash == ExpectedPrevious(rs, i)
    && rs[i].recordHash == h(RecordPreimage(rs[i]))
    && SignatureOk(check, key, rs[i])
  }

  predicate ChainOk(h: string -> string, check: SignatureCheck, key: Option<string>, rs: seq<Record>) {
    forall i :: 0 <= i < |rs| ==> LinkOk(h, check, key, rs, i)
  }

  /** The first thing wrong with the record at `i`, in the order the verifier looks. */
  predicate FaultAt(h: string -> string, check: SignatureCheck, key: Option<string>, rs: seq<Record>, i: nat,
                    fault: Fault)
    requires i < |rs|
  {
    match fault
    case PreviousHashMismatch => rs[i].previousHash != ExpectedPrevious(rs, i)
    case RecordHashMismatch =>
      && rs[i].previousHash == ExpectedPrevious(rs, i)
      && rs[i].recordHash != h(RecordPreimage(rs[i]))
    case BadSignature =>
      && rs[i].previousHash == ExpectedPrevious(rs, i)
      && rs[i].recordHash == h(RecordPreimage(rs[i]))
      && CheckSignature(check, key, rs[i]) == Mismatches
  }

  /** The verifier gets as far as the record at `i`, finds it linked and hashed as it should
      be, and raises on its signature. */
  predicate RaisesAt(h: string -> string, check: SignatureCheck, key: Option<string>, rs: seq<Record>, i: nat)
    requires i < |rs|
  {
    && ChainOk(h, check, key, rs[..i])
    && rs[i].previousHash == ExpectedPrevious(rs, i)
    && rs[i].recordHash == h(RecordPreimage(rs[i]))
    && CheckSignature(check, key, rs[i]) == Malformed
  }

  /** Valid exactly on acceptable chains; on rejection `checkedCount` is the length of the
      longest acceptable prefix, and the record after it is the one named, with its fault,
      unless its signature makes the check raise. */
  ghost predicate Judges(h: string -> string, check: SignatureCheck, key: Option<string>, rs: seq<Record>,
                         result: VerificationResult)
  {
    match result
    case Intact(n) => n == |rs| && ChainOk(h, check, key, rs)
    case Corrupt(n, at, fault) =>
      && n < |rs| && at == rs[n].sequenceNumber
      && ChainOk(h, check, key, rs[..n])
      && (forall m :: n < m <= |rs| ==> !ChainOk(h, check, key, rs[..m]))
      && FaultAt(h, check, key, rs, n, fault)
    case Raised => exists n: nat :: n < |rs| && RaisesAt(h, check, key, rs, n)
  }

  /** Where the first record fails, the longest acceptable prefix ends. */
  lemma StopsAt(h: string -> string, check: SignatureCheck, key: Option<string>, rs: seq<Record>, n: nat)
    requires n < |rs| && !LinkOk(h, check, key, rs, n)
    requires forall i :: 0 <= i < n ==> LinkOk(h, check, key, rs, i)
    ensures ChainOk(h, check, key, rs[..n]) && !ChainOk(h, check, key, rs)
    ensures forall m :: n < m <= |rs| ==> !ChainOk(h, check, key, rs[..m])
  {
    forall i | 0 <= i < n ensures LinkOk(h, check, key, rs[..n], i) {
      assert LinkOk(h, check, key, rs, i);
    }
    forall m | n < m <= |rs| ensures !ChainOk(h, check, key, rs[..m]) {
      assert ExpectedPrevious(rs[..m], n) == ExpectedPrevious(rs, n);
      assert !LinkOk(h, check, key, rs[..m], n);
    }
  }

  /** `verify_chain`. */
  method VerifyChain(h: string -> string, check: SignatureCheck, records: seq<Record>, publicKey: Option<string>)
    returns (result: VerificationResult)
    ensures Judges(h, check, publicKey, records, result)
    ensures result.Intact? <==> ChainOk(h, check, publicKey, records)
  {
    var expectedPreviousHash := GENESIS_HASH;
    for index := 0 to |records|
      invariant expectedPreviousHash == ExpectedPrevious(records, index)
      invariant forall i :: 0 <= i < index ==> LinkOk(h, check, publicKey, records, i)
    {
      var record := records[index];
      var fault: Option<Fault> := None;
      var signature := Matches;
      if record.previousHash != expectedPreviousHash {
        fault := Some(PreviousHashMismatch);
      } else if ComputeHash(h, record.previousHash, CanonicalJson(record.payload)) != record.recordHash {
        fault := Some(RecordHashMismatch);
      } else if publicKey.Some? && record.signature.Some? {
        signature := check(record.recordHash, record.signature.value, publicKey.value);
        if signature == Mismatches {
          fault := Some(BadSignature);
        }
      }
      if fault.Some? || signature == Malformed {
        StopsAt(h, check, publicKey, records, index);
        assert signature == Malformed ==> RaisesAt(h, check, publicKey, records, index);
        return if fault.Some? then Corrupt(index, record.sequenceNumber, fault.value) else Raised;
      }
      expectedPreviousHash := record.recordHash;
    }
    return Intact(|records|);
  }

  /** The verifier calls a chain intact if and only if every record names its predecessor,
      carries the digest of its own text and, when there is a key to check with and a signature
      to check, has that signature match. */
  lemma IntactExactly(h: string -> string, check: SignatureCheck, key: Option<string>, rs: seq<Record>,
                      result: VerificationResult)
    requires Judges(h, check, key, rs, result)
    ensures result == Intact(|rs|) <==>
              forall i :: 0 <= i < |rs| ==>
                && rs[i].previousHash == (if i == 0 then GENESIS_HASH else rs[i - 1].recordHash)
                && rs[i].recordHash == h(rs[i].previousHash + ":" + CanonicalJson(rs[i].payload))
                && (key.Some? && rs[i].signature.Some? ==>
                      check(rs[i].recordHash, rs[i].signature.value, key.value) == Matches)
  {
    if result == Intact(|rs|) {
      forall i | 0 <= i < |rs|
        ensures rs[i].previousHash == (if i == 0 then GENESIS_HASH else rs[i - 1].recordHash)
        ensures rs[i].recordHash == h(rs[i].previousHash + ":" + CanonicalJson(rs[i].payload))
        ensures key.Some? && rs[i].signature.Some? ==>
                  check(rs[i].recordHash, rs[i].signature.value, key.value) == Matches
      {
        assert LinkOk(h, check, key, rs, i);
      }
    } else {
      IntactWhenOk(h, check, key, rs, result);
    }
  }

  lemma IntactWhenOk(h: string -> string, check: SignatureCheck, key: Option<string>, rs: seq<Record>,
                     result: VerificationResult)
    requires Judges(h, check, key, rs, result)
    ensures ChainOk(h, check, key, rs) ==> result == Intact(|rs|)
  {
    if ChainOk(h, check, key, rs) {
      OnlyIntact(h, check, key, rs, result);
    }
  }

  /** Of an acceptable chain there is one answer. */
  lemma OnlyIntact(h: string -> string, check: SignatureCheck, key: Option<string>, rs: seq<Record>,
                   result: VerificationResult)
    requires ChainOk(h, check, key, rs) && Judges(h, check, key, rs, result)
    ensures result == Intact(|rs|)
  {
    assert rs[..|rs|] == rs;
    if result == Raised {
      var n: nat :| n < |rs| && RaisesAt(h, check, key, rs, n);
      NotBoth(h, check, key, rs, Intact(|rs|), n);
    }
  }

  lemma PrefixLink(h: string -> string, check: SignatureCheck, key: Option<string>, rs: seq<Record>, m: nat, n: nat)
    requires n < m <= |rs| && ChainOk(h, check, key, rs[..m])
    ensures LinkOk(h, check, key, rs, n)
  {
    assert LinkOk(h, check, key, rs[..m], n);
  }

  /** A chain is judged, or it makes the check raise, not both. */
  lemma NotBoth(h: string -> string, check: SignatureCheck, key: Option<string>, rs: seq<Record>,
                result: VerificationResult, n: nat)
    requires Judges(h, check, key, rs, result) && n < |rs| && RaisesAt(h, check, key, rs, n)
    ensures result == Raised
  {
    forall i | 0 <= i < n ensures LinkOk(h, check, key, rs, i) {
      PrefixLink(h, check, key, rs, n, i);
    }
    StopsAt(h, check, key, rs, n);
  }

  /** The answer concerns the first record at fault. */
  lemma JudgedAt(h: string -> string, check: SignatureCheck, key: Option<string>, rs: seq<Record>, n: nat,
                 result: VerificationResult)
    requires Judges(h, check, key, rs, result) && n < |rs| && !LinkOk(h, check, key, rs, n)
    requires forall i :: 0 <= i < n ==> LinkOk(h, check, key, rs, i)
    ensures match result
            case Intact(_) => false
            case Corrupt(m, _, _) => m == n
            case Raised => RaisesAt(h, check, key, rs, n)
  {
    StopsAt(h, check, key, rs, n);
    if result == Raised {
      var m: nat :| m < |rs| && RaisesAt(h, check, key, rs, m);
      RaisesFirst(h, check, key, rs, m, n);
    }
  }

  lemma RaisesFirst(h: string -> string, check: SignatureCheck, key: Option<string>, rs: seq<Record>, m: nat, n: nat)
    requires m < |rs| && RaisesAt(h, check, key, rs, m)
    requires n < |rs| && !LinkOk(h, check, key, rs, n) && forall i :: 0 <= i < n ==> LinkOk(h, check, key, rs, i)
    ensures m == n
  {
    assert !LinkOk(h, check, key, rs, m);
    if n < m {
      PrefixLink(h, check, key, rs, m, n);
    }
  }

  /** One record of an acceptable chain replaced by another: whatever is wrong with the new one,
      exactly that is reported, of that record; what it checks first comes first. */
  lemma AlteredRecord(h: string -> string, check: SignatureCheck, key: Option<string>, rs: seq<Record>, i: nat,
                      r: Record, result: VerificationResult)
    requires ChainOk(h, check, key, rs) && i < |rs|
    requires Judges(h, check, key, rs[i := r], result)
    ensures r.previousHash != rs[i].previousHash ==> result == Corrupt(i, r.sequenceNumber, PreviousHashMismatch)
    ensures r.previousHash == rs[i].previousHash
            && r.recordHash != h(r.previousHash + ":" + CanonicalJson(r.payload)) ==>
              result == Corrupt(i, r.sequenceNumber, RecordHashMismatch)
    ensures r.previousHash == rs[i].previousHash
            && r.recordHash == h(r.previousHash + ":" + CanonicalJson(r.payload))
            && key.Some? && r.signature.Some? ==>
              match check(r.recordHash, r.signature.value, key.value)
              case Matches => true
              case Mismatches => result == Corrupt(i, r.sequenceNumber, BadSignature)
              case Malformed => result == Raised
  {
    var altered := rs[i := r];
    forall j | 0 <= j < i ensures LinkOk(h, check, key, altered, j) {
      assert LinkOk(h, check, key, rs, j);
    }
    assert LinkOk(h, check, key, rs, i);
    assert ExpectedPrevious(altered, i) == rs[i].previousHash;
    if !LinkOk(h, check, key, altered, i) {
      JudgedAt(h, check, key, altered, i, result);
    }
  }

  /** On a chain accepted with a key to check signatures with, one signature replaced: a
      mismatching one is the fault reported, a malformed one makes the verifier raise. */
  lemma AlteredSignature(h: string -> string, check: SignatureCheck, key: string, rs: seq<Record>, i: nat,
                         signature: string, result: VerificationResult)
    requires ChainOk(h, check, Some(key), rs) && i < |rs|
    requires Judges(h, check, Some(key), rs[i := rs[i].(signature := Some(signature))], result)
    ensures check(rs[i].recordHash, signature, key) == Mismatches ==>
              result == Corrupt(i, rs[i].sequenceNumber, BadSignature)
    ensures check(rs[i].recordHash, signature, key) == Malformed ==> result == Raised
  {
    assert LinkOk(h, check, Some(key), rs, i);
    AlteredRecord(h, check, Some(key), rs, i, rs[i].(signature := Some(signature)), result);
  }

  predicate Collide(h: string -> string, a: seq<Record>, b: seq<Record>, r: Record, s: Record) {
    r in a && s in b && RecordPreimage(r) != RecordPreimage(s) && h(RecordPreimage(r)) == h(RecordPreimage(s))
  }

  /** Two different texts among those hashed by `a` and `b` share a digest, or one of them
      digests to the genesis value. */
  ghost predicate DigestBroken(h: string -> string, a: seq<Record>, b: seq<Record>) {
    || (exists r, s :: Collide(h, a, b, r, s))
    || (exists r :: r in a + b && h(RecordPreimage(r)) == GENESIS_HASH)
  }

  /** The separator cannot be moved: predecessors have one length. */
  lemma PreimageInjective(p: string, t: string, p': string, t': string)
    requires |p| == |p'| && Preimage(p, t) == Preimage(p', t')
    ensures p == p' && t == t'
  {
    var x, y := Preimage(p, t), Preimage(p', t');
    assert x[..|p|] == p && y[..|p'|] == p';
    assert x[|p| + 1..] == t && y[|p'| + 1..] == t';
  }

  lemma ChainPrefix(h: string -> string, check: SignatureCheck, key: Option<string>, rs: seq<Record>, n: nat)
    requires ChainOk(h, check, key, rs) && n <= |rs|
    ensures ChainOk(h, check, key, rs[..n])
  {
    forall i | 0 <= i < n ensures LinkOk(h, check, key, rs[..n], i) {
      assert LinkOk(h, check, key, rs, i);
    }
  }

  ghost predicate ValidPayloads(rs: seq<Record>) {
    forall r :: r in rs ==> Valid(r.payload)
  }

  ghost predicate SamePayloads(a: seq<Record>, b: seq<Record>) {
    |a| == |b| && forall i :: 0 <= i < |a| ==> SameTree(a[i].payload, b[i].payload)
  }

  lemma SamePayloadsExtend(a: seq<Record>, b: seq<Record>, m: nat, n: nat)
    requires |a| == m + 1 && |b| == n + 1
    requires SamePayloads(a[..m], b[..n]) && SameTree(a[m].payload, b[n].payload)
    ensures SamePayloads(a, b)
  {
    forall i | 0 <= i < |a| ensures SameTree(a[i].payload, b[i].payload) {
      if i < m { assert a[i] == a[..m][i] && b[i] == b[..n][i]; }
    }
  }

  /** One step back from equal record hashes: equal predecessors and equal payloads. */
  lemma TamperStep(h: string -> string, a: seq<Record>, b: seq<Record>, r: Record, s: Record)
    requires r in a && s in b && Valid(r.payload) && Valid(s.payload)
    requires r.recordHash == h(RecordPreimage(r)) && s.recordHash == h(RecordPreimage(s))
    requires r.recordHash == s.recordHash && |r.previousHash| == |s.previousHash|
    ensures DigestBroken(h, a, b) || (r.previousHash == s.previousHash && SameTree(r.payload, s.payload))
  {
    if RecordPreimage(r) != RecordPreimage(s) {
      assert Collide(h, a, b, r, s);
    } else {
      PreimageInjective(r.previousHash, CanonicalJson(r.payload), s.previousHash, CanonicalJson(s.payload));
      CanonicalInjective(r.payload, s.payload);
    }
  }

  lemma DigestBrokenGrows(h: string -> string, a: seq<Record>, b: seq<Record>, m: nat, n: nat)
    requires m <= |a| && n <= |b| && DigestBroken(h, a[..m], b[..n])
    ensures DigestBroken(h, a, b)
  {
    if r, s :| Collide(h, a[..m], b[..n], r, s) {
      assert Collide(h, a, b, r, s);
    } else {
      var r :| r in a[..m] + b[..n] && h(RecordPreimage(r)) == GENESIS_HASH;
      assert r in a + b;
    }
  }

  /** What an accepted chain says of its last record. */
  lemma LastLink(h: string -> string, check: SignatureCheck, key: Option<string>, rs: seq<Record>)
    requires Digest(h) && ChainOk(h, check, key, rs) && rs != []
    ensures var last := rs[|rs| - 1];
            && last.recordHash == h(RecordPreimage(last))
            && last.previousHash == ExpectedPrevious(rs, |rs| - 1)
            && |last.previousHash| == 64
    ensures |rs| > 1 ==> ExpectedPrevious(rs, |rs| - 1) == h(RecordPreimage(rs[|rs| - 2]))
    ensures ChainOk(h, check, key, rs[..|rs| - 1])
  {
    assert LinkOk(h, check, key, rs, |rs| - 1);
    if |rs| > 1 {
      assert LinkOk(h, check, key, rs, |rs| - 2);
    }
    ChainPrefix(h, check, key, rs, |rs| - 1);
  }

  lemma PrefixesAgree(h: string -> string, a: seq<Record>, b: seq<Record>, m: nat, n: nat)
    requires |a| == m + 1 && |b| == n + 1 && SameTree(a[m].payload, b[n].payload)
    requires DigestBroken(h, a[..m], b[..n]) || SamePayloads(a[..m], b[..n])
    ensures DigestBroken(h, a, b) || SamePayloads(a, b)
  {
    if DigestBroken(h, a[..m], b[..n]) {
      DigestBrokenGrows(h, a, b, m, n);
    } else {
      SamePayloadsExtend(a, b, m, n);
    }
  }

  /** Tamper evidence: two chains that both verify and end in one record hash hold the
      same payloads, record by record, or the digest itself has been broken by them. */
  lemma {:induction false} TamperEvidence(h: string -> string, check: SignatureCheck, key: Option<string>,
                                          a: seq<Record>, b: seq<Record>)
    requires Digest(h) && ChainOk(h, check, key, a) && ChainOk(h, check, key, b)
    requires ValidPayloads(a) && ValidPayloads(b)
    requires a != [] && b != [] && a[|a| - 1].recordHash == b[|b| - 1].recordHash
    ensures DigestBroken(h, a, b) || SamePayloads(a, b)
    decreases |a|
  {
    var m, n := |a| - 1, |b| - 1;
    LastLink(h, check, key, a);
    LastLink(h, check, key, b);
    TamperStep(h, a, b, a[m], b[n]);
    if !DigestBroken(h, a, b) {
      // Equal predecessors: neither chain can stop at the genesis value while the other goes on.
      if m == 0 && n == 0 {
        SamePayloadsExtend(a, b, m, n);
      } else if m > 0 && n > 0 {
        TamperEvidence(h, check, key, a[..m], b[..n]);
        PrefixesAgree(h, a, b, m, n);
      }
    }
  }

  /** The columns a record carries beside the chain are not covered by it. */
  lemma UncoveredColumns(h: string -> string, check: SignatureCheck, key: Option<string>, a: seq<Record>,
                         b: seq<Record>)
    requires |a| == |b|
    requires forall i :: 0 <= i < |a| ==>
               b[i] == a[i].(sequenceNumber := b[i].sequenceNumber, decisionEventId := b[i].decisionEventId,
                             verdictId := b[i].verdictId, recordedAt := b[i].recordedAt)
    ensures ChainOk(h, check, key, a) == ChainOk(h, check, key, b)
  {
    forall i | 0 <= i < |a|
      ensures LinkOk(h, check, key, a, i) == LinkOk(h, check, key, b, i)
    {
      assert ExpectedPrevious(a, i) == ExpectedPrevious(b, i);
    }
  }
}
