/** Population findings: the signed payload, the stored row, the way back, and the verifier.
    An instant prints as `iso` prints it; a float is the literal it prints as. */
module PopulationFindings {
  import opened Wrappers
  import opened JsonText
  import opened Ordering
  import opened Schemas
  import opened Paging
  import HashChain

  datatype Finding = Finding(
    id: string,
    policyId: string,
    policyVersion: string,
    systemId: string,
    windowStart: int,
    windowEnd: int,
    outcome: Outcome,
    metricValues: seq<Member>,
    classificationSnapshot: seq<Member>,
    parametersUsed: Option<seq<Member>>,
    rationale: string,
    evaluatedAt: int)

  /** `dict[str, float]` and `dict[str, str]`. */
  predicate IsFloats(ms: seq<Member>) {
    DistinctKeys(ms) && forall m :: m in ms ==> m.value.Num? && IsNumber(m.value.text)
  }

  predicate IsTexts(ms: seq<Member>) {
    DistinctKeys(ms) && forall m :: m in ms ==> m.value.Str?
  }

  predicate WellFormed(f: Finding) {
    && IsFloats(f.metricValues) && IsTexts(f.classificationSnapshot)
    && (f.parametersUsed.Some? ==> IsFloats(f.parametersUsed.value))
  }

  function OutcomeText(o: Outcome): string {
    if o == FLAG then "FLAGGED" else "CLEAR"
  }

  // ----- The signed payload -----

  /** The members every finding has had since findings exist. */
  function CommonKeys(): (r: seq<string>)
    ensures |r| == 11
  {
    ["population_finding_id", "population_policy_id", "population_policy_version", "system_id",
     "window_start", "window_end", "outcome", "metric_values", "classification_snapshot", "rationale", "evaluated_at"]
  }

  function CommonValues(iso: int -> string, f: Finding): (r: seq<Json>)
    ensures |r| == 11
  {
    [Str(f.id), Str(f.policyId), Str(f.policyVersion), Str(f.systemId), Str(iso(f.windowStart)), Str(iso(f.windowEnd)),
     Str(OutcomeText(f.outcome)), Obj(f.metricValues), Obj(f.classificationSnapshot), Str(f.rationale),
     Str(iso(f.evaluatedAt))]
  }

  function Zip(keys: seq<string>, values: seq<Json>): (r: seq<Member>)
    requires |keys| == |values|
    ensures |r| == |keys| && forall i :: 0 <= i < |r| ==> r[i] == Member(keys[i], values[i])
  {
    if keys == [] then [] else [Member(keys[0], values[0])] + Zip(keys[1..], values[1..])
  }

  function CommonMembers(iso: int -> string, f: Finding): seq<Member> {
    Zip(CommonKeys(), CommonValues(iso, f))
  }

  function ParametersMember(value: Json): Member {
    Member("parameters_used", value)
  }

  /** `model_dump(mode="json", exclude_none=True)`. The added member's place does not matter:
      the canonical text sorts. */
  function Dump(iso: int -> string, f: Finding): Json {
    Obj(CommonMembers(iso, f) + if f.parametersUsed.Some? then [ParametersMember(Obj(f.parametersUsed.value))] else [])
  }

  /** The dump without `exclude_none`. */
  function DumpWithNull(iso: int -> string, f: Finding): Json {
    var value := if f.parametersUsed.Some? then Obj(f.parametersUsed.value) else Null;
    Obj(CommonMembers(iso, f) + [ParametersMember(value)])
  }

  /** The dump of a schema that does not have the field at all. */
  function LegacyDump(iso: int -> string, f: Finding): Json {
    Obj(CommonMembers(iso, f))
  }

  /** `population_finding_hash`, for a digest and a way to print instants. */
  function PopulationFindingHash(h: string -> string, iso: int -> string): Finding -> string {
    f => h(CanonicalJson(Dump(iso, f)))
  }

  lemma MembersValid(ms: seq<Member>)
    requires IsFloats(ms) || IsTexts(ms)
    ensures Valid(Obj(ms))
  {
    forall i | 0 <= i < |ms| ensures Valid(ms[i].value) {
      assert ms[i] in ms;
    }
  }

  /** Tells the payload's keys apart: their lengths, and two pairs of equal length by how
      they begin. */
  function KeyRank(key: string): int {
    2 * |key| + if key != "" && (key[0] == 'e' || key[0] == 'r') then 1 else 0
  }

  lemma CommonRanks()
    ensures var ks := CommonKeys();
            && KeyRank(ks[0]) == 42 && KeyRank(ks[1]) == 40 && KeyRank(ks[2]) == 50 && KeyRank(ks[3]) == 18
            && KeyRank(ks[4]) == 24 && KeyRank(ks[5]) == 20 && KeyRank(ks[6]) == 14 && KeyRank(ks[7]) == 26
            && KeyRank(ks[8]) == 46 && KeyRank(ks[9]) == 19 && KeyRank(ks[10]) == 25
            && KeyRank("parameters_used") == 30
  {}

  lemma KeysDistinct(ks: seq<string>)
    requires ks == CommonKeys()
    ensures forall i, j :: 0 <= i < j < |ks| ==> ks[i] != ks[j]
    ensures forall i :: 0 <= i < |ks| ==> ks[i] != "parameters_used"
  {
    CommonRanks();
    forall i, j | 0 <= i < j < |ks| ensures ks[i] != ks[j] {
      assert KeyRank(ks[i]) != KeyRank(ks[j]);
    }
    forall i | 0 <= i < |ks| ensures ks[i] != "parameters_used" {
      assert KeyRank(ks[i]) != 30;
    }
  }

  lemma CommonKeysDistinct(iso: int -> string, f: Finding)
    ensures DistinctKeys(CommonMembers(iso, f))
    ensures forall m :: m in CommonMembers(iso, f) ==> m.key != "parameters_used"
  {
    KeysDistinct(CommonKeys());
  }

  lemma CommonValid(iso: int -> string, f: Finding)
    requires WellFormed(f)
    ensures Valid(Obj(CommonMembers(iso, f)))
  {
    CommonKeysDistinct(iso, f);
    var values := CommonValues(iso, f);
    forall i | 0 <= i < 11 ensures Valid(values[i]) {
      MembersValid(f.metricValues);
      MembersValid(f.classificationSnapshot);
      assert i == 7 || i == 8 || values[i].Str?;
    }
  }

  lemma OneMoreMember(ms: seq<Member>, m: Member)
    requires Valid(Obj(ms)) && Valid(m.value) && forall n :: n in ms ==> n.key != m.key
    ensures Valid(Obj(ms + [m]))
  {
    forall i | 0 <= i < |ms| ensures ms[i].key != m.key {
      assert ms[i] in ms;
    }
  }

  lemma DumpsValid(iso: int -> string, f: Finding)
    requires WellFormed(f)
    ensures Valid(Dump(iso, f)) && Valid(DumpWithNull(iso, f)) && Valid(LegacyDump(iso, f))
  {
    var common := CommonMembers(iso, f);
    CommonValid(iso, f);
    CommonKeysDistinct(iso, f);
    if f.parametersUsed.Some? {
      MembersValid(f.parametersUsed.value);
      OneMoreMember(common, ParametersMember(Obj(f.parametersUsed.value)));
    } else {
      assert common + [] == common;
      OneMoreMember(common, ParametersMember(Null));
    }
  }

  /** A member of one object has its counterpart under the same key in an equal one. */
  lemma SameField(a: seq<Member>, b: seq<Member>, i: nat, j: nat)
    requires SameTree(Obj(a), Obj(b)) && DistinctKeys(b) && i < |a| && j < |b| && a[i].key == b[j].key
    ensures SameTree(a[i].value, b[j].value)
  {
    assert a[i] in a;
    assert SomeRight(a[i], b);
    var n :| n in b && SameMember(a[i], n);
    var k :| 0 <= k < |b| && b[k] == n;
    assert k == j;
  }

  lemma KeyKept(a: seq<Member>, b: seq<Member>, m: Member)
    requires m in a && (SameTree(Obj(a), Obj(b)) || SameTree(Obj(b), Obj(a)))
    ensures exists n :: n in b && n.key == m.key
  {
    if SameTree(Obj(a), Obj(b)) {
      assert SomeRight(m, b);
    } else {
      assert SomeLeft(b, m);
    }
  }

  lemma MissingKey(a: seq<Member>, b: seq<Member>, m: Member)
    requires m in a && forall n :: n in b ==> n.key != m.key
    ensures !SameTree(Obj(a), Obj(b)) && !SameTree(Obj(b), Obj(a))
  {
    if SameTree(Obj(a), Obj(b)) || SameTree(Obj(b), Obj(a)) {
      KeyKept(a, b, m);
    }
  }

  /** A finding signed before the field existed hashes as it always did. Writing the absent
      value as a null, or as an empty map, would sign different text. */
  lemma AbsentParametersStayAbsent(h: string -> string, iso: int -> string, f: Finding)
    requires WellFormed(f) && f.parametersUsed == None
    ensures PopulationFindingHash(h, iso)(f) == h(CanonicalJson(LegacyDump(iso, f)))
    ensures CanonicalJson(Dump(iso, f)) != CanonicalJson(DumpWithNull(iso, f))
    ensures CanonicalJson(Dump(iso, f)) != CanonicalJson(Dump(iso, f.(parametersUsed := Some([]))))
  {
    var common := CommonMembers(iso, f);
    assert common + [] == common;
    CommonKeysDistinct(iso, f);
    DumpsValid(iso, f);
    DumpsValid(iso, f.(parametersUsed := Some([])));
    var nulled, empty := ParametersMember(Null), ParametersMember(Obj([]));
    MissingKey(common + [nulled], common, nulled);
    MissingKey(common + [empty], common, empty);
    CanonicalInjective(Dump(iso, f), DumpWithNull(iso, f));
    CanonicalInjective(Dump(iso, f), Dump(iso, f.(parametersUsed := Some([]))));
  }

  /** What is signed, member by member: each field under its own name, instants and dictionaries
      as they print, and the parameters only when there are any. */
  lemma DumpHolds(iso: int -> string, f: Finding)
    ensures Dump(iso, f) == Obj(
      [Member("population_finding_id", Str(f.id)), Member("population_policy_id", Str(f.policyId)),
       Member("population_policy_version", Str(f.policyVersion)), Member("system_id", Str(f.systemId)),
       Member("window_start", Str(iso(f.windowStart))), Member("window_end", Str(iso(f.windowEnd))),
       Member("outcome", Str(if f.outcome == FLAG then "FLAGGED" else "CLEAR")),
       Member("metric_values", Obj(f.metricValues)), Member("classification_snapshot", Obj(f.classificationSnapshot)),
       Member("rationale", Str(f.rationale)), Member("evaluated_at", Str(iso(f.evaluatedAt)))]
      + if f.parametersUsed.Some? then [Member("parameters_used", Obj(f.parametersUsed.value))] else [])
  {
  }

  // ----- Store and read back -----

  /** A row of `population_findings`: the dictionaries as JSON text, NULL for no parameters. */
  datatype Row = Row(
    id: string,
    policyId: string,
    policyVersion: string,
    systemId: string,
    windowStart: int,
    windowEnd: int,
    outcome: Outcome,
    metricValues: string,
    classificationSnapshot: string,
    parametersUsed: Option<string>,
    rationale: string,
    evaluatedAt: int,
    signature: Option<string>)

  datatype Record = Record(finding: Finding, signature: Option<string>)

  function Store(f: Finding, signature: Option<string>): Row {
    Row(f.id, f.policyId, f.policyVersion, f.systemId, f.windowStart, f.windowEnd, f.outcome,
        Render(Obj(f.metricValues)), Render(Obj(f.classificationSnapshot)),
        (match f.parametersUsed case Some(ms) => Some(Render(Obj(ms))) case None => None),
        f.rationale, f.evaluatedAt, signature)
  }

  function LoadFloats(text: string): Option<seq<Member>> {
    match Loads(text)
    case Some(Obj(ms)) => if IsFloats(ms) then Some(ms) else None
    case _ => None
  }

  function LoadTexts(text: string): Option<seq<Member>> {
    match Loads(text)
    case Some(Obj(ms)) => if IsTexts(ms) then Some(ms) else None
    case _ => None
  }

  /** `_to_model`; None when a stored text is not what the model accepts. */
  function ToModel(row: Row): Option<Record> {
    var parameters := match row.parametersUsed case Some(text) => LoadFloats(text) case None => None;
    match (LoadFloats(row.metricValues), LoadTexts(row.classificationSnapshot))
    case (Some(metrics), Some(snapshot)) =>
      if row.parametersUsed.Some? && parameters.None? then None
      else Some(Record(
        Finding(row.id, row.policyId, row.policyVersion, row.systemId, row.windowStart, row.windowEnd, row.outcome,
                metrics, snapshot, parameters, row.rationale, row.evaluatedAt),
        row.signature))
    case _ => None
  }

  lemma LoadsBack(ms: seq<Member>)
    ensures IsFloats(ms) ==> LoadFloats(Render(Obj(ms))) == Some(ms)
    ensures IsTexts(ms) ==> LoadTexts(Render(Obj(ms))) == Some(ms)
  {
    if IsFloats(ms) || IsTexts(ms) {
      MembersValid(ms);
      LoadsDumps(Obj(ms));
    }
  }

  /** What is stored, column by column. */
  lemma StoredColumns(f: Finding, signature: Option<string>)
    ensures var row := Store(f, signature);
            && row.id == f.id && row.policyId == f.policyId && row.policyVersion == f.policyVersion
            && row.systemId == f.systemId && row.windowStart == f.windowStart && row.windowEnd == f.windowEnd
            && row.outcome == f.outcome && row.rationale == f.rationale && row.evaluatedAt == f.evaluatedAt
            && row.signature == signature && (row.parametersUsed.Some? <==> f.parametersUsed.Some?)
            && (WellFormed(f) ==>
                  && Loads(row.metricValues) == Some(Obj(f.metricValues))
                  && Loads(row.classificationSnapshot) == Some(Obj(f.classificationSnapshot))
                  && (f.parametersUsed.Some? ==>
                        Loads(row.parametersUsed.value) == Some(Obj(f.parametersUsed.value))))
  {
    if WellFormed(f) {
      MembersValid(f.metricValues);
      LoadsDumps(Obj(f.metricValues));
      MembersValid(f.classificationSnapshot);
      LoadsDumps(Obj(f.classificationSnapshot));
      if f.parametersUsed.Some? {
        MembersValid(f.parametersUsed.value);
        LoadsDumps(Obj(f.parametersUsed.value));
      }
    }
  }

  /** What is read back is what was stored: NULL, the absent value and the empty map stay
      three different things all the way round. */
  lemma ReadBack(f: Finding, signature: Option<string>)
    requires WellFormed(f)
    ensures ToModel(Store(f, signature)) == Some(Record(f, signature))
  {
    LoadsBack(f.metricValues);
    LoadsBack(f.classificationSnapshot);
    if f.parametersUsed.Some? {
      LoadsBack(f.parametersUsed.value);
    }
  }

  // ----- Verification -----

  datatype Verification = AllValid(checkedCount: nat) | Invalid(checkedCount: nat, firstInvalidId: string) | Raised

  function CheckSignature(hash: Finding -> string, check: HashChain.SignatureCheck, publicKey: string, r: Record)
    : HashChain.SignatureVerdict
  {
    if r.signature.Some? then check(hash(r.finding), r.signature.value, publicKey) else HashChain.Matches
  }

  predicate SignedOk(hash: Finding -> string, check: HashChain.SignatureCheck, publicKey: string, r: Record) {
    CheckSignature(hash, check, publicKey, r) == HashChain.Matches
  }

  /** The i-th record is the first that does not verify. */
  predicate FirstNotOk(hash: Finding -> string, check: HashChain.SignatureCheck, publicKey: string,
                       records: seq<Record>, i: nat)
  {
    && i < |records| && !SignedOk(hash, check, publicKey, records[i])
    && forall j :: 0 <= j < i ==> SignedOk(hash, check, publicKey, records[j])
  }

  /** `verify_population_findings`: unsigned records are passed over, and the first one that does
      not verify is reported, unless its signature makes the check raise. */
  method VerifyPopulationFindings(hash: Finding -> string, check: HashChain.SignatureCheck, records: seq<Record>,
                                  publicKey: string)
    returns (result: Verification)
    ensures result.AllValid? <==> forall r :: r in records ==>
              (r.signature.Some? ==> check(hash(r.finding), r.signature.value, publicKey) == HashChain.Matches)
    ensures result.AllValid? ==> result.checkedCount == |records|
    ensures result.Invalid? ==>
              && FirstNotOk(hash, check, publicKey, records, result.checkedCount)
              && records[result.checkedCount].finding.id == result.firstInvalidId
              && records[result.checkedCount].signature.Some?
              && check(hash(records[result.checkedCount].finding), records[result.checkedCount].signature.value,
                       publicKey) == HashChain.Mismatches
    ensures result == Raised <==>
              exists i: nat :: FirstNotOk(hash, check, publicKey, records, i)
                  && CheckSignature(hash, check, publicKey, records[i]) == HashChain.Malformed
  {
    for index := 0 to |records|
      invariant forall i :: 0 <= i < index ==> SignedOk(hash, check, publicKey, records[i])
    {
      var record := records[index];
      if record.signature == None {
        continue;
      }
      var verdict := check(hash(record.finding), record.signature.value, publicKey);
      if verdict != HashChain.Matches {
        assert record in records && FirstNotOk(hash, check, publicKey, records, index);
        return if verdict == HashChain.Malformed then Raised else Invalid(index, record.finding.id);
      }
    }
    return AllValid(|records|);
  }

  ghost predicate Signs(sign: string -> string, check: HashChain.SignatureCheck, publicKey: string) {
    forall message :: check(message, sign(message), publicKey) == HashChain.Matches
  }

  /** A signature speaks for one message only. */
  ghost predicate Unforgeable(sign: string -> string, check: HashChain.SignatureCheck, publicKey: string) {
    forall signed, message :: check(message, sign(signed), publicKey) == HashChain.Matches ==> message == signed
  }

  /** Whatever the batch signs and stores can be read back, and still verifies. */
  lemma StoredFindingVerifies(hash: Finding -> string, sign: string -> string, check: HashChain.SignatureCheck,
                              publicKey: string, f: Finding)
    requires Signs(sign, check, publicKey) && WellFormed(f)
    ensures var r := ToModel(Store(f, Some(sign(hash(f)))));
            r.Some? && r.value.finding == f && SignedOk(hash, check, publicKey, r.value)
  {
    ReadBack(f, Some(sign(hash(f))));
  }

  /** Two findings with equal dumps agree on everything, dictionaries up to key order. */
  predicate SameFinding(f: Finding, g: Finding) {
    && f.(metricValues := [], classificationSnapshot := [], parametersUsed := None)
       == g.(metricValues := [], classificationSnapshot := [], parametersUsed := None)
    && (f.parametersUsed.Some? <==> g.parametersUsed.Some?)
  }

  ghost predicate SameDictionaries(f: Finding, g: Finding) {
    && SameTree(Obj(f.metricValues), Obj(g.metricValues))
    && SameTree(Obj(f.classificationSnapshot), Obj(g.classificationSnapshot))
    && (f.parametersUsed.Some? && g.parametersUsed.Some? ==>
          SameTree(Obj(f.parametersUsed.value), Obj(g.parametersUsed.value)))
  }

  ghost predicate Injective(iso: int -> string) {
    forall s, t :: iso(s) == iso(t) ==> s == t
  }

  lemma CommonFieldsAgree(iso: int -> string, f: Finding, g: Finding, i: nat)
    requires WellFormed(f) && WellFormed(g) && SameTree(Dump(iso, f), Dump(iso, g)) && i < 11
    ensures SameTree(CommonValues(iso, f)[i], CommonValues(iso, g)[i])
  {
    var (a, b) := (Dump(iso, f).members, Dump(iso, g).members);
    DumpsValid(iso, g);
    assert a[i] == Member(CommonKeys()[i], CommonValues(iso, f)[i])
             && b[i] == Member(CommonKeys()[i], CommonValues(iso, g)[i]);
    SameField(a, b, i, i);
  }

  lemma ParametersAgree(iso: int -> string, f: Finding, g: Finding)
    requires WellFormed(f) && WellFormed(g) && SameTree(Dump(iso, f), Dump(iso, g))
    ensures f.parametersUsed.Some? <==> g.parametersUsed.Some?
    ensures f.parametersUsed.Some? ==> SameTree(Obj(f.parametersUsed.value), Obj(g.parametersUsed.value))
  {
    var (a, b) := (Dump(iso, f).members, Dump(iso, g).members);
    DumpsValid(iso, g);
    CommonKeysDistinct(iso, f);
    CommonKeysDistinct(iso, g);
    if f.parametersUsed.Some? && g.parametersUsed.Some? {
      SameField(a, b, 11, 11);
    } else if f.parametersUsed.Some? {
      MissingKey(a, b, a[11]);
    } else if g.parametersUsed.Some? {
      MissingKey(b, a, b[11]);
    }
  }

  lemma DumpCoversEverything(iso: int -> string, f: Finding, g: Finding)
    requires WellFormed(f) && WellFormed(g) && Injective(iso) && SameTree(Dump(iso, f), Dump(iso, g))
    ensures SameFinding(f, g) && SameDictionaries(f, g)
  {
    forall i | 0 <= i < 11 ensures SameTree(CommonValues(iso, f)[i], CommonValues(iso, g)[i]) {
      CommonFieldsAgree(iso, f, g, i);
    }
    ParametersAgree(iso, f, g);
    CommonSame(iso, f, g);
  }

  lemma CommonSame(iso: int -> string, f: Finding, g: Finding)
    requires Injective(iso) && (f.parametersUsed.Some? <==> g.parametersUsed.Some?)
    requires forall i :: 0 <= i < 11 ==> SameTree(CommonValues(iso, f)[i], CommonValues(iso, g)[i])
    ensures SameFinding(f, g)
    ensures SameTree(Obj(f.metricValues), Obj(g.metricValues))
    ensures SameTree(Obj(f.classificationSnapshot), Obj(g.classificationSnapshot))
  {
    var (a, b) := (CommonValues(iso, f), CommonValues(iso, g));
    assert a[0] == b[0] && a[1] == b[1] && a[2] == b[2] && a[3] == b[3] && a[4] == b[4] && a[5] == b[5];
    assert a[6] == b[6] && a[9] == b[9] && a[10] == b[10];
    assert SameTree(a[7], b[7]) && SameTree(a[8], b[8]);
    assert |OutcomeText(FLAG)| != |OutcomeText(CLEAR)|;
  }

  /** A signature issued for one finding verifies for another only if they are the same in
      every field, or the digest collides on their texts. */
  lemma SignatureCoversEverything(h: string -> string, iso: int -> string, sign: string -> string,
                                  check: HashChain.SignatureCheck, publicKey: string, f: Finding, g: Finding)
    requires WellFormed(f) && WellFormed(g) && Injective(iso) && Unforgeable(sign, check, publicKey)
    requires SignedOk(PopulationFindingHash(h, iso), check, publicKey,
               Record(g, Some(sign(PopulationFindingHash(h, iso)(f)))))
    ensures (SameFinding(f, g) && SameDictionaries(f, g))
            || (CanonicalJson(Dump(iso, f)) != CanonicalJson(Dump(iso, g))
                  && h(CanonicalJson(Dump(iso, f))) == h(CanonicalJson(Dump(iso, g))))
  {
    assert PopulationFindingHash(h, iso)(f) == PopulationFindingHash(h, iso)(g);
    if CanonicalJson(Dump(iso, f)) == CanonicalJson(Dump(iso, g)) {
      DumpsValid(iso, f);
      DumpsValid(iso, g);
      CanonicalInjective(Dump(iso, f), Dump(iso, g));
      DumpCoversEverything(iso, f, g);
    }
  }

  // ----- The repository -----

  /** What the unique constraint of `population_findings` keeps apart. */
  datatype Key = Key(policyId: string, systemId: string, windowStart: int, windowEnd: int)

  function KeyOf(r: Row): Key {
    Key(r.policyId, r.systemId, r.windowStart, r.windowEnd)
  }

  predicate TableInv(t: map<string, Row>) {
    && (forall id :: id in t ==> t[id].id == id)
    && forall a, b :: a in t && b in t && KeyOf(t[a]) == KeyOf(t[b]) ==> a == b
  }

  predicate RowUnder(t: map<string, Row>, k: Key) {
    exists id :: id in t && KeyOf(t[id]) == k
  }

  /** `byKey` is the table seen through its unique constraint. */
  ghost predicate IsByKey(t: map<string, Row>, byKey: map<Key, Row>) {
    && (forall id :: id in t ==> t[id].id == id && KeyOf(t[id]) in byKey && byKey[KeyOf(t[id])] == t[id])
    && (forall k :: k in byKey ==> RowUnder(t, k))
  }

  lemma ByKeyUnique(t: map<string, Row>, byKey: map<Key, Row>)
    requires IsByKey(t, byKey)
    ensures TableInv(t)
    ensures forall k :: k in byKey <==> RowUnder(t, k)
  {}

  lemma ByKeyCreate(t: map<string, Row>, byKey: map<Key, Row>, row: Row)
    requires IsByKey(t, byKey) && row.id !in t && !RowUnder(t, KeyOf(row))
    ensures IsByKey(t[row.id := row], byKey[KeyOf(row) := row])
  {
    var (t', byKey') := (t[row.id := row], byKey[KeyOf(row) := row]);
    assert forall id :: id in t ==> KeyOf(t[id]) != KeyOf(row);
    forall k | k in byKey' ensures RowUnder(t', k) {
      if k == KeyOf(row) {
        assert t'[row.id] == row;
      } else {
        var id :| id in t && KeyOf(t[id]) == k;
        assert id in t' && t'[id] == t[id];
      }
    }
  }

  /** Oldest first; `id` breaks ties. */
  predicate FindingLess(a: Row, b: Row) {
    a.evaluatedAt < b.evaluatedAt || (a.evaluatedAt == b.evaluatedAt && StrLess(a.id, b.id))
  }

  function Selected(t: map<string, Row>, systemId: Option<string>): set<Row> {
    set r | r in t.Values && (systemId.Some? ==> r.systemId == systemId.value)
  }

  /** A listing holds the findings of the system, or all of them, each once, oldest first, and
      those of one instant by ascending id. */
  lemma ListedExactly(t: map<string, Row>, systemId: Option<string>, listing: seq<Row>)
    requires TableInv(t) && IsOrderBy(FindingLess, multiset(Selected(t, systemId)), listing)
    ensures forall r :: r in listing <==>
              r.id in t && t[r.id] == r && (systemId.Some? ==> r.systemId == systemId.value)
    ensures forall i, j :: 0 <= i < j < |listing| ==>
              listing[i].evaluatedAt < listing[j].evaluatedAt
              || (listing[i].evaluatedAt == listing[j].evaluatedAt && StrLess(listing[i].id, listing[j].id))
  {
    var rows := Selected(t, systemId);
    forall r ensures r in listing <==> r in rows {
      assert r in listing <==> r in multiset(listing);
    }
    forall i, j | 0 <= i < j < |listing| ensures FindingLess(listing[i], listing[j]) {
      assert listing[i] in listing && listing[j] in listing;
      if listing[i] == listing[j] {
        DuplicateCounted(listing, i, j);
      }
      StrLessTotal(listing[i].id, listing[j].id);
    }
  }

  /** Walking the findings by pages shows every one once, filtered by system or not. */
  lemma FindingPagesAreExact(t: map<string, Row>, systemId: Option<string>, results: seq<seq<Row>>, n: nat)
    requires TableInv(t) && |Selected(t, systemId)| <= |results| * n
    requires forall i :: 0 <= i < |results| ==> IsOrderBy(FindingLess, multiset(Selected(t, systemId)), results[i])
    ensures IsOrderBy(FindingLess, multiset(Selected(t, systemId)), Walk(results, n, |results|))
  {
    var rows := Selected(t, systemId);
    forall x, y | x in rows && y in rows && x != y ensures FindingLess(x, y) || FindingLess(y, x) {
      StrLessTotal(x.id, y.id);
    }
    PagesOfSetAreExact(FindingLess, rows, results, n);
  }

  class PopulationFindingRepository {
    var rows: map<string, Row>
    ghost var byKey: map<Key, Row>

    ghost predicate Valid()
      reads this
    {
      IsByKey(rows, byKey)
    }

    constructor ()
      ensures Valid() && rows == map[] && byKey == map[]
    {
      rows, byKey := map[], map[];
    }

    /** `create`; false is the ValueError, raised when the window was computed before or the
        system does not exist. The id is a fresh uuid. */
    method Create(f: Finding, signature: Option<string>, systemExists: bool) returns (created: bool)
      requires Valid() && f.id !in rows
      modifies this
      ensures Valid() && TableInv(rows)
      ensures created <==> systemExists && KeyOf(Store(f, signature)) !in old(byKey)
      ensures created <==> systemExists && !exists id ::
                && id in old(rows)
                && old(rows)[id].policyId == f.policyId && old(rows)[id].systemId == f.systemId
                && old(rows)[id].windowStart == f.windowStart && old(rows)[id].windowEnd == f.windowEnd
      ensures rows == if created then old(rows)[f.id := Store(f, signature)] else old(rows)
      ensures byKey == if created then old(byKey)[KeyOf(Store(f, signature)) := Store(f, signature)] else old(byKey)
    {
      var row := Store(f, signature);
      ByKeyUnique(rows, byKey);
      if !systemExists {
        return false;
      }
      var rest := rows.Keys;
      while rest != {}
        invariant rest <= rows.Keys
        invariant forall id :: id in rows && id !in rest ==> KeyOf(rows[id]) != KeyOf(row)
        decreases rest
      {
        var id :| id in rest;
        if KeyOf(rows[id]) == KeyOf(row) {
          return false;
        }
        rest := rest - {id};
      }
      ByKeyCreate(rows, byKey, row);
      rows, byKey := rows[f.id := row], byKey[KeyOf(row) := row];
      ByKeyUnique(rows, byKey);
      return true;
    }
  }
}
