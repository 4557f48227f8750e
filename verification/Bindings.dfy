/** Policy bindings and population policy bindings: one table of each, the same rules for
    both. A pair is (adapter, policy) in the first and (system, population policy) in the
    second; `config` is the severity in the first and the parameters in the second. */
module Bindings {
  import opened Wrappers
  import opened Ordering
  import Paging

  datatype LifecycleState = ACTIVE | INACTIVE

  datatype Pair = Pair(subject: string, policyId: string)

  datatype Binding<C> = Binding(id: string, pair: Pair, config: C, state: LifecycleState, createdAt: int)

  type Table<C> = map<string, Binding<C>>

  /** `subjectExists` is the foreign key of `systems`; it always holds for adapters. */
  datatype Op<C> =
    | Create(id: string, pair: Pair, config: C, at: int, subjectExists: bool)
    | SetLifecycleState(id: string, target: LifecycleState)

  /** `IntegrityViolation` is the database's own error, which only `create` translates. */
  datatype Reply = Done | AlreadyExists | NotFound | AlreadyInState | IntegrityViolation

  predicate ActiveFor<C>(t: Table<C>, pair: Pair) {
    exists id :: id in t && t[id].pair == pair && t[id].state == ACTIVE
  }

  function Apply<C>(t: Table<C>, op: Op<C>): (Table<C>, Reply) {
    match op
    case Create(id, pair, config, at, subjectExists) =>
      if !subjectExists || ActiveFor(t, pair) then (t, AlreadyExists)
      else (t[id := Binding(id, pair, config, ACTIVE, at)], Done)
    case SetLifecycleState(id, target) =>
      if id !in t then (t, NotFound)
      else if t[id].state == target then (t, AlreadyInState)
      else if target == ACTIVE && ActiveFor(t, t[id].pair) then (t, IntegrityViolation)
      else (t[id := t[id].(state := target)], Done)
  }

  /** A new row's id is a fresh uuid. */
  predicate Enabled<C>(t: Table<C>, op: Op<C>) {
    op.Create? ==> op.id !in t
  }

  predicate OneActivePerPair<C>(t: Table<C>) {
    forall a, b :: a in t && b in t && t[a].state == ACTIVE && t[b].state == ACTIVE && t[a].pair == t[b].pair ==> a == b
  }

  predicate Inv<C>(t: Table<C>) {
    && (forall id :: id in t ==> t[id].id == id)
    && OneActivePerPair(t)
  }

  lemma ApplyInv<C>(t: Table<C>, op: Op<C>)
    requires Inv(t) && Enabled(t, op)
    ensures Inv(Apply(t, op).0)
    ensures Apply(t, op).1 != Done ==> Apply(t, op).0 == t
  {
  }

  predicate Legal<C>(t: Table<C>, ops: seq<Op<C>>)
    decreases |ops|
  {
    ops != [] ==> Enabled(t, ops[0]) && Legal(Apply(t, ops[0]).0, ops[1..])
  }

  function Run<C>(t: Table<C>, ops: seq<Op<C>>): Table<C>
    decreases |ops|
  {
    if ops == [] then t else Run(Apply(t, ops[0]).0, ops[1..])
  }

  /** At most one ACTIVE binding per pair, after any calls in any order. */
  lemma {:induction false} RunInv<C>(t: Table<C>, ops: seq<Op<C>>)
    requires Inv(t) && Legal(t, ops)
    ensures Inv(Run(t, ops))
    decreases |ops|
  {
    if ops != [] {
      ApplyInv(t, ops[0]);
      RunInv(Apply(t, ops[0]).0, ops[1..]);
    }
  }

  // ----- Every row is one that was asked for -----

  predicate PairTaken<C>(t: Table<C>, pair: Pair) {
    exists k :: k in t && t[k].pair == pair && t[k].state == ACTIVE
  }

  /** A create is refused exactly when the subject does not exist or the pair has an ACTIVE
      binding; otherwise it adds the binding as given, ACTIVE. */
  lemma CreateAnswered<C>(t: Table<C>, id: string, pair: Pair, config: C, at: int, subjectExists: bool)
    ensures Apply(t, Op.Create(id, pair, config, at, subjectExists)) ==
            if subjectExists && !PairTaken(t, pair) then (t[id := Binding(id, pair, config, ACTIVE, at)], Done)
            else (t, AlreadyExists)
  {}

  /** A change of state fails, and changes nothing, exactly when there is no such binding, or it is
      in that state already, or it is to be ACTIVE and another of its pair is. */
  lemma SetAnswered<C>(t: Table<C>, id: string, target: LifecycleState)
    ensures var reply := Apply(t, SetLifecycleState(id, target)).1;
            && (reply == NotFound <==> id !in t)
            && (reply == AlreadyInState <==> id in t && t[id].state == target)
            && (reply == IntegrityViolation <==>
                  id in t && t[id].state == INACTIVE && target == ACTIVE && PairTaken(t, t[id].pair))
            && (reply == Done <==>
                  id in t && t[id].state != target && (target == INACTIVE || !PairTaken(t, t[id].pair)))
    ensures var (after, reply) := Apply(t, SetLifecycleState(id, target));
            && (reply == Done ==> id in t && after == t[id := t[id].(state := target)])
            && (reply != Done ==> after == t)
  {}

  /** After any calls from an empty table, each row is one that was created as it stands, but for
      its state, for a subject that existed. */
  lemma {:induction false} RowsAsCreated<C>(t: Table<C>, before: seq<Op<C>>, ops: seq<Op<C>>, id: string)
    requires Legal(t, ops) && id in Run(t, ops)
    requires forall k :: k in t ==> t[k].id == k && Op.Create(k, t[k].pair, t[k].config, t[k].createdAt, true) in before
    ensures var row := Run(t, ops)[id];
            row.id == id && Op.Create(id, row.pair, row.config, row.createdAt, true) in before + ops
    decreases |ops|
  {
    if ops == [] {
      assert before + ops == before;
    } else {
      var t' := Apply(t, ops[0]).0;
      assert ops[0] in before + [ops[0]];
      RowsAsCreated(t', before + [ops[0]], ops[1..], id);
      assert before + ops == before + [ops[0]] + ops[1..];
    }
  }

  /** In particular no row's pair names a subject that did not exist when it was created. */
  lemma SubjectsExisted<C>(ops: seq<Op<C>>, id: string)
    requires Legal(map[], ops) && id in Run(map[], ops)
    ensures exists op ::
              op in ops && op.Create? && op.subjectExists && op.id == id && op.pair == Run(map[], ops)[id].pair
  {
    RowsAsCreated(map[], [], ops, id);
    assert [] + ops == ops;
  }

  // ----- What the calls so far say about a pair -----

  predicate Creates<C>(t: Table<C>, op: Op<C>, pair: Pair) {
    op.Create? && op.pair == pair && Apply(t, op).1 == Done
  }

  predicate Sets<C>(t: Table<C>, op: Op<C>, pair: Pair, target: LifecycleState) {
    op.SetLifecycleState? && op.target == target && Apply(t, op).1 == Done && t[op.id].pair == pair
  }

  /** Bindings created for the pair in this run, and how many of its bindings the run
      brought into service less how many it took out. */
  function Created<C>(t: Table<C>, ops: seq<Op<C>>, pair: Pair): nat
    decreases |ops|
  {
    if ops == [] then 0
    else (if Creates(t, ops[0], pair) then 1 else 0) + Created(Apply(t, ops[0]).0, ops[1..], pair)
  }

  function NetActivated<C>(t: Table<C>, ops: seq<Op<C>>, pair: Pair): int
    decreases |ops|
  {
    if ops == [] then 0
    else
      (if Creates(t, ops[0], pair) || Sets(t, ops[0], pair, ACTIVE) then 1
       else if Sets(t, ops[0], pair, INACTIVE) then -1 else 0)
      + NetActivated(Apply(t, ops[0]).0, ops[1..], pair)
  }

  function RowsFor<C>(t: Table<C>, pair: Pair): set<string> {
    set id | id in t && t[id].pair == pair
  }

  function Level<C>(t: Table<C>, pair: Pair): int {
    if ActiveFor(t, pair) then 1 else 0
  }

  lemma RowsForStep<C>(t: Table<C>, op: Op<C>, pair: Pair)
    requires Enabled(t, op)
    ensures RowsFor(Apply(t, op).0, pair) == RowsFor(t, pair) + if Creates(t, op, pair) then {op.id} else {}
  {
    var after := Apply(t, op).0;
    forall id ensures id in RowsFor(after, pair) <==> id in RowsFor(t, pair) || (Creates(t, op, pair) && id == op.id) {
      if id in t {
        assert id in after && after[id].pair == t[id].pair;
      }
    }
  }

  lemma CreateStep<C>(t: Table<C>, op: Op<C>, pair: Pair)
    requires Enabled(t, op)
    ensures |RowsFor(Apply(t, op).0, pair)| == |RowsFor(t, pair)| + if Creates(t, op, pair) then 1 else 0
  {
    RowsForStep(t, op, pair);
    if Creates(t, op, pair) {
      assert op.id !in RowsFor(t, pair);
    } else {
      assert RowsFor(t, pair) + {} == RowsFor(t, pair);
    }
  }

  lemma LevelStep<C>(t: Table<C>, op: Op<C>, pair: Pair)
    requires Inv(t) && Enabled(t, op)
    ensures Level(Apply(t, op).0, pair) == Level(t, pair)
              + if Creates(t, op, pair) || Sets(t, op, pair, ACTIVE) then 1
                else if Sets(t, op, pair, INACTIVE) then -1 else 0
  {
    var after := Apply(t, op).0;
    if after != t && after[op.id].pair == pair {
      if after[op.id].state == INACTIVE {
        assert t[op.id].state == ACTIVE && ActiveFor(t, pair);
        assert !ActiveFor(after, pair);
      } else {
        assert ActiveFor(after, pair);
      }
    } else if ActiveFor(t, pair) {
      var a :| a in t && t[a].pair == pair && t[a].state == ACTIVE;
      assert after[a] == t[a];
    }
  }

  /** Conservation, per pair: rows are only ever added, one by each successful create; and a
      pair is in service exactly when it was brought in once more than it was taken out. */
  lemma {:induction false} PairCounted<C>(t: Table<C>, ops: seq<Op<C>>, pair: Pair)
    requires Inv(t) && Legal(t, ops)
    ensures |RowsFor(Run(t, ops), pair)| == |RowsFor(t, pair)| + Created(t, ops, pair)
    ensures Level(Run(t, ops), pair) == Level(t, pair) + NetActivated(t, ops, pair)
    decreases |ops|
  {
    if ops != [] {
      ApplyInv(t, ops[0]);
      CreateStep(t, ops[0], pair);
      LevelStep(t, ops[0], pair);
      PairCounted(Apply(t, ops[0]).0, ops[1..], pair);
    }
  }

  lemma {:induction false} RowsStay<C>(t: Table<C>, ops: seq<Op<C>>, id: string)
    requires Legal(t, ops) && id in t
    ensures id in Run(t, ops) && Run(t, ops)[id] == t[id].(state := Run(t, ops)[id].state)
    decreases |ops|
  {
    if ops != [] {
      RowsStay(Apply(t, ops[0]).0, ops[1..], id);
    }
  }

  /** Taking a binding out of service and putting it back later: the second call hits the
      partial index, and fails, exactly when the calls between them left another binding of
      the pair in service. Straight after, it undoes the first. */
  lemma Reactivation<C>(t: Table<C>, id: string, between: seq<Op<C>>)
    requires Inv(t) && id in t && t[id].state == ACTIVE
    requires Legal(Apply(t, SetLifecycleState(id, INACTIVE)).0, between)
    requires id in Run(Apply(t, SetLifecycleState(id, INACTIVE)).0, between)
    requires Run(Apply(t, SetLifecycleState(id, INACTIVE)).0, between)[id].state == INACTIVE
    ensures var out := Apply(t, SetLifecycleState(id, INACTIVE)).0;
            var later := Run(out, between);
            var (back, outcome) := Apply(later, SetLifecycleState(id, ACTIVE));
            && (NetActivated(out, between, t[id].pair) == 1 ==> outcome == IntegrityViolation && back == later)
            && (NetActivated(out, between, t[id].pair) == 0 ==> outcome == Done && back == later[id := t[id]])
            && 0 <= NetActivated(out, between, t[id].pair) <= 1
            && (between == [] ==> back == t)
  {
    var off := SetLifecycleState(id, INACTIVE);
    ApplyInv(t, off);
    LevelStep(t, off, t[id].pair);
    assert ActiveFor(t, t[id].pair) && Apply(t, off).1 == Done;
    PairCounted(Apply(t, off).0, between, t[id].pair);
    RowsStay(Apply(t, off).0, between, id);
  }

  // ----- Lookups -----

  datatype Lookup<C> = NoRow | OneRow(binding: Binding<C>) | MultipleResultsFound

  /** `get_by_identity`: any row of the pair, whatever its state, if there is only one. */
  ghost predicate IsLookup<C>(t: Table<C>, pair: Pair, r: Lookup<C>) {
    match r
    case NoRow => RowsFor(t, pair) == {}
    case OneRow(b) => exists id :: RowsFor(t, pair) == {id} && b == t[id]
    case MultipleResultsFound => |RowsFor(t, pair)| >= 2
  }

  /** Starting from an empty table, the lookup raises exactly when two bindings of the pair
      were ever created; which takes a deactivation in between. */
  lemma LookupRaises<C>(ops: seq<Op<C>>, pair: Pair, r: Lookup<C>)
    requires Legal(map[], ops) && IsLookup(Run(map[], ops), pair, r)
    ensures r == MultipleResultsFound <==> Created(map[], ops, pair) >= 2
    ensures r == NoRow <==> Created(map[], ops, pair) == 0
  {
    var none: Table<C> := map[];
    assert RowsFor(none, pair) == {};
    PairCounted(none, ops, pair);
    if r.OneRow? {
      var id :| RowsFor(Run(none, ops), pair) == {id};
      assert |{id}| == 1;
    }
  }

  lemma OneMore<C>(t: Table<C>, ops: seq<Op<C>>, pair: Pair)
    requires ops != [] && Enabled(t, ops[0]) && Legal(Apply(t, ops[0]).0, ops[1..])
    ensures Legal(t, ops)
    ensures Created(t, ops, pair) == (if Creates(t, ops[0], pair) then 1 else 0)
              + Created(Apply(t, ops[0]).0, ops[1..], pair)
  {}

  function RecreateOps<C>(pair: Pair, config: C): seq<Op<C>> {
    [Op.Create("1", pair, config, 0, true), SetLifecycleState("1", INACTIVE), Op.Create("2", pair, config, 1, true)]
  }

  /** Three ordinary calls that break it: create, deactivate, create again. */
  lemma RecreatedPairBreaksLookup<C>(pair: Pair, config: C)
    ensures var ops := RecreateOps(pair, config);
            Legal(map[], ops) && Created(map[], ops, pair) == 2
            && forall r: Lookup<C> :: IsLookup(Run(map[], ops), pair, r) ==> r == MultipleResultsFound
  {
    var none: Table<C> := map[];
    var ops := RecreateOps(pair, config);
    var t1 := Apply(none, ops[0]).0;
    var t2 := Apply(t1, ops[1]).0;
    var t3 := Apply(t2, ops[2]).0;
    assert t1.Keys == {"1"} && t2.Keys == {"1"} && t2["1"].state == INACTIVE && !ActiveFor(t2, pair);
    assert "2"[0] != "1"[0];
    assert Created(t3, ops[3..], pair) == 0;
    assert ops[2..][1..] == ops[3..] && ops[1..][1..] == ops[2..];
    OneMore(t2, ops[2..], pair);
    OneMore(t1, ops[1..], pair);
    OneMore(none, ops, pair);
    forall r: Lookup<C> | IsLookup(Run(none, ops), pair, r) ensures r == MultipleResultsFound {
      LookupRaises(ops, pair, r);
    }
  }

  // ----- Listing -----

  predicate CreatedBefore<C>(a: Binding<C>, b: Binding<C>) {
    a.createdAt < b.createdAt
  }

  function ActiveRows<C(==)>(t: Table<C>, subject: Option<string>): set<Binding<C>> {
    set id | id in t && t[id].state == ACTIVE && (subject.Some? ==> t[id].pair.subject == subject.value) :: t[id]
  }

  predicate DistinctPairs<C>(s: seq<Binding<C>>) {
    forall i, j :: 0 <= i < j < |s| ==> s[i].pair != s[j].pair
  }

  /** However ties of `created_at` are broken, no pair is listed twice. */
  lemma ActiveListing<C>(t: Table<C>, subject: Option<string>, s: seq<Binding<C>>)
    requires Inv(t) && multiset(s) == multiset(ActiveRows(t, subject))
    ensures DistinctPairs(s)
    ensures forall b :: b in s <==> b in ActiveRows(t, subject)
  {
    forall b ensures b in s <==> b in ActiveRows(t, subject) {
      assert b in s <==> b in multiset(s);
    }
    forall i, j | 0 <= i < j < |s| ensures s[i].pair != s[j].pair {
      assert s[i] in s && s[j] in s;
      if s[i] == s[j] {
        DuplicateCounted(s, i, j);
      }
    }
  }

  // ----- The repository -----

  predicate CreatedThenId<C>(a: Binding<C>, b: Binding<C>) {
    a.createdAt < b.createdAt || (a.createdAt == b.createdAt && StrLess(a.id, b.id))
  }

  lemma CreatedThenIdLaws<C(!new)>(s: seq<Binding<C>>)
    requires forall i, j :: 0 <= i < |s| && 0 <= j < |s| && s[i].id == s[j].id ==> s[i] == s[j]
    ensures Transitive(CreatedThenId<C>) && Asymmetric(CreatedThenId<C>) && NoTies(CreatedThenId, s)
  {
    StrLessLaws();
    assert forall a: Binding<C>, b: Binding<C>, c: Binding<C> ::
        CreatedThenId(a, b) && CreatedThenId(b, c) ==> CreatedThenId(a, c);
    assert forall a: Binding<C>, b: Binding<C> :: CreatedThenId(a, b) ==> !CreatedThenId(b, a);
    forall x, y | x in s && y in s && x != y ensures CreatedThenId(x, y) || CreatedThenId(y, x) {
      StrLessTotal(x.id, y.id);
    }
  }

  class BindingRepository<C(==,!new)> {
    var rows: Table<C>

    constructor ()
      ensures rows == map[] && Inv(rows)
    {
      rows := map[];
    }

    method Create(id: string, pair: Pair, config: C, at: int, subjectExists: bool) returns (outcome: Reply)
      requires Inv(rows) && id !in rows
      modifies this
      ensures Inv(rows)
      ensures (rows, outcome) == Apply(old(rows), Op.Create(id, pair, config, at, subjectExists))
      ensures !subjectExists ==> outcome == AlreadyExists && rows == old(rows)
    {
      ApplyInv(rows, Op.Create(id, pair, config, at, subjectExists));
      var taken := !subjectExists;
      var rest := rows.Keys;
      while rest != {}
        invariant rest <= rows.Keys
        invariant taken <==>
                    !subjectExists ||
                    exists k :: k in rows && k !in rest && rows[k].pair == pair && rows[k].state == ACTIVE
        decreases rest
      {
        var k :| k in rest;
        taken := taken || (rows[k].pair == pair && rows[k].state == ACTIVE);
        rest := rest - {k};
      }
      if taken {
        return AlreadyExists;
      }
      rows := rows[id := Binding(id, pair, config, ACTIVE, at)];
      return Done;
    }

    method SetLifecycleState(id: string, target: LifecycleState) returns (outcome: Reply)
      requires Inv(rows)
      modifies this
      ensures Inv(rows)
      ensures (rows, outcome) == Apply(old(rows), Op.SetLifecycleState(id, target))
    {
      ApplyInv(rows, Op.SetLifecycleState(id, target));
      if id in rows && rows[id].state != target {
        if target == ACTIVE && ActiveFor(rows, rows[id].pair) {
          return IntegrityViolation;
        }
        rows := rows[id := rows[id].(state := target)];
        return Done;
      }
      return if id in rows then AlreadyInState else NotFound;
    }

    /** `list_active` and `list_active_for_adapter`. The source leaves ties of `created_at`
        to the database, and so does this contract. */
    method ListActive(subject: Option<string>) returns (s: seq<Binding<C>>)
      requires Inv(rows)
      ensures Paging.IsOrderBy(CreatedBefore, multiset(ActiveRows(rows, subject)), s)
      ensures DistinctPairs(s)
      ensures forall b :: b in s <==>
                && b.id in rows && rows[b.id] == b && b.state == ACTIVE
                && (subject.Some? ==> b.pair.subject == subject.value)
      ensures forall i, j :: 0 <= i < j < |s| ==> s[i].createdAt <= s[j].createdAt
    {
      var scanned := Paging.Scan(ActiveRows(rows, subject));
      ActiveListing(rows, subject, scanned);
      assert forall i :: 0 <= i < |scanned| ==> scanned[i] in scanned;
      CreatedThenIdLaws(scanned);
      SortSorted(CreatedThenId, scanned);
      s := Sort(CreatedThenId, scanned);
      ActiveListing(rows, subject, s);
      forall i, j | 0 <= i < j < |s| ensures !CreatedBefore(s[j], s[i]) {
        assert !CreatedThenId(s[j], s[i]);
      }
    }

    method GetByIdentity(pair: Pair) returns (r: Lookup<C>)
      ensures IsLookup(rows, pair, r)
    {
      var ids := RowsFor(rows, pair);
      if ids == {} {
        return NoRow;
      }
      var id :| id in ids;
      if ids == {id} {
        return OneRow(rows[id]);
      }
      assert |ids - {id}| > 0;
      return MultipleResultsFound;
    }

    /** `seed_policy_binding`: an existing binding is left exactly as it is. None when the
        lookup raises, which the seed does not handle. */
    method Seed(id: string, pair: Pair, config: C, at: int) returns (created: Option<bool>)
      requires Inv(rows) && id !in rows
      modifies this
      ensures Inv(rows)
      ensures created == None <==> |RowsFor(old(rows), pair)| >= 2
      ensures created == Some(true) <==> RowsFor(old(rows), pair) == {}
      ensures rows == if created == Some(true) then old(rows)[id := Binding(id, pair, config, ACTIVE, at)]
                else old(rows)
    {
      var existing := GetByIdentity(pair);
      match existing
      case MultipleResultsFound => return None;
      case OneRow(_) => return Some(false);
      case NoRow =>
        assert !ActiveFor(rows, pair) by {
          assert forall k :: k in rows && rows[k].pair == pair ==> k in RowsFor(rows, pair);
        }
        var outcome := Create(id, pair, config, at, true);
        return Some(true);
    }
  }
}
