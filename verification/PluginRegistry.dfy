/** The plugin lifecycle registry: DRAFT, SHADOW, PRODUCTION, with at most one PRODUCTION
    version of each plugin, and the tool that seeds it. Rows are keyed by their unique
    identity (plugin type, plugin id, version). */
module PluginRegistry {
  import opened Ordering
  import opened ReleaseOrder

  datatype PluginType = ADAPTER | POLICY | POPULATION_POLICY

  datatype State = DRAFT | SHADOW | PRODUCTION

  datatype Key = Key(pluginType: PluginType, pluginId: string, version: string)

  type Registry = map<Key, State>

  predicate SameFamily(a: Key, b: Key) {
    a.pluginType == b.pluginType && a.pluginId == b.pluginId
  }

  /** The partial unique index `one_production_version_per_plugin`. */
  predicate OneProduction(r: Registry) {
    forall a, b :: a in r && b in r && SameFamily(a, b) && r[a] == PRODUCTION && r[b] == PRODUCTION ==> a == b
  }

  predicate HasProduction(r: Registry, key: Key) {
    exists k :: k in r && SameFamily(k, key) && r[k] == PRODUCTION
  }

  /** A registration request or a promotion, run serially. */
  datatype Op = Create(key: Key) | Promote(key: Key)

  function Demoted(r: Registry, key: Key): Registry {
    map k | k in r :: if SameFamily(k, key) && r[k] == PRODUCTION then SHADOW else r[k]
  }

  predicate Accepted(r: Registry, op: Op) {
    match op
    case Create(key) => key !in r
    case Promote(key) => key in r && r[key] != PRODUCTION
  }

  function Apply(r: Registry, op: Op): Registry {
    if !Accepted(r, op) then r
    else
      match op
      case Create(key) => r[key := DRAFT]
      case Promote(key) => if r[key] == DRAFT then r[key := SHADOW] else Demoted(r, key)[key := PRODUCTION]
  }

  function Run(r: Registry, ops: seq<Op>): Registry
    decreases |ops|
  {
    if ops == [] then r else Run(Apply(r, ops[0]), ops[1..])
  }

  /** Exactly: a new identity is registered in DRAFT; a DRAFT row goes to SHADOW; a SHADOW row goes
      to PRODUCTION, and the family's PRODUCTION row, if there is one, back to SHADOW. Everything
      else is refused, and nothing else changes. */
  lemma OneStageForward(r: Registry, key: Key)
    ensures var (created, promoted) := (Apply(r, Op.Create(key)), Apply(r, Promote(key)));
            && (Accepted(r, Op.Create(key)) <==> key !in r)
            && created == (if key in r then r else r[key := DRAFT])
            && (Accepted(r, Promote(key)) <==> key in r && (r[key] == DRAFT || r[key] == SHADOW))
            && (key !in r || r[key] == PRODUCTION ==> promoted == r)
            && (key in r && r[key] == DRAFT ==> promoted == r[key := SHADOW])
            && (key in r && r[key] == SHADOW ==>
                  && promoted.Keys == r.Keys && promoted[key] == PRODUCTION
                  && forall k :: k in r && k != key ==>
                       promoted[k] == if k.pluginType == key.pluginType && k.pluginId == key.pluginId
                                         && r[k] == PRODUCTION then SHADOW else r[k])
  {
    assert Demoted(r, key).Keys == r.Keys;
  }

  lemma {:induction false} RunLast(r: Registry, ops: seq<Op>, op: Op)
    ensures Run(r, ops + [op]) == Apply(Run(r, ops), op)
    decreases |ops|
  {
    if ops == [] {
      assert [op][1..] == [];
    } else {
      assert (ops + [op])[1..] == ops[1..] + [op];
      RunLast(Apply(r, ops[0]), ops[1..], op);
    }
  }

  /** After the first `n` of these operations, from an empty registry, the row is in this state. */
  predicate StoodIn(ops: seq<Op>, n: nat, key: Key, state: State) {
    n <= |ops| && key in Run(map[], ops[..n]) && Run(map[], ops[..n])[key] == state
  }

  lemma StoodBefore(ops: seq<Op>, n: nat, m: nat, key: Key, state: State)
    requires n <= m <= |ops| && StoodIn(ops[..m], n, key, state)
    ensures StoodIn(ops, n, key, state)
  {
    assert ops[..m][..n] == ops[..n];
  }

  /** Over serial runs, no stage is skipped: a row in SHADOW was in DRAFT after some earlier
      operation, and a row in PRODUCTION in SHADOW after one later than that. */
  lemma {:induction false} NoStageSkipped(ops: seq<Op>, key: Key)
    ensures StoodIn(ops, |ops|, key, SHADOW) ==> exists i: nat :: i < |ops| && StoodIn(ops, i, key, DRAFT)
    ensures StoodIn(ops, |ops|, key, PRODUCTION) ==>
              exists i: nat, j: nat :: i < j < |ops| && StoodIn(ops, i, key, DRAFT) && StoodIn(ops, j, key, SHADOW)
  {
    if ops != [] {
      var n := |ops| - 1;
      var init := ops[..n];
      NoStageSkipped(init, key);
      CameFrom(ops, key);
      forall i: nat, state | i <= n && StoodIn(init, i, key, state) ensures StoodIn(ops, i, key, state) {
        StoodBefore(ops, i, n, key, state);
      }
    }
  }

  /** What the last operation made of the row. */
  lemma CameFrom(ops: seq<Op>, key: Key)
    requires ops != []
    ensures var (n, init) := (|ops| - 1, ops[..|ops| - 1]);
            && (StoodIn(ops, n + 1, key, SHADOW) ==>
                  StoodIn(init, n, key, DRAFT) || StoodIn(init, n, key, SHADOW) || StoodIn(init, n, key, PRODUCTION))
            && (StoodIn(ops, n + 1, key, PRODUCTION) ==>
                  StoodIn(init, n, key, SHADOW) || StoodIn(init, n, key, PRODUCTION))
  {
    var n := |ops| - 1;
    var init := ops[..n];
    assert ops[..n + 1] == ops && ops == init + [ops[n]] && init[..n] == init;
    RunLast(map[], init, ops[n]);
    OneStageForward(Run(map[], init), ops[n].key);
  }

  /** Over serial runs: the index holds, no row disappears, none returns to DRAFT, and a
      family that once has a PRODUCTION row has exactly one at every later commit. */
  lemma {:induction false} SerialRuns(r: Registry, ops: seq<Op>)
    requires OneProduction(r)
    ensures var r' := Run(r, ops);
            && OneProduction(r')
            && (forall k :: k in r ==> k in r' && (r[k] != DRAFT ==> r'[k] != DRAFT))
            && (forall k :: HasProduction(r, k) ==> HasProduction(r', k))
    decreases |ops|
  {
    if ops != [] {
      var r1 := Apply(r, ops[0]);
      forall k | HasProduction(r, k) ensures HasProduction(r1, k) {
        var p :| p in r && SameFamily(p, k) && r[p] == PRODUCTION;
        if Accepted(r, ops[0]) && ops[0].Promote? && r[ops[0].key] == SHADOW && SameFamily(ops[0].key, k) {
          assert r1[ops[0].key] == PRODUCTION;
        } else {
          assert r1[p] == PRODUCTION;
        }
      }
      SerialRuns(r1, ops[1..]);
    }
  }

  // ----- Seeding -----

  /** What seeding one key does to the registry as a whole. */
  function Seeded(r: Registry, key: Key): Registry {
    Demoted(r, key)[key := PRODUCTION]
  }

  function SeedAll(r: Registry, keys: seq<Key>): Registry {
    if keys == [] then r else Seeded(SeedAll(r, keys[..|keys| - 1]), keys[|keys| - 1])
  }

  /** When the i-th key's turn comes it is in PRODUCTION already. */
  predicate WasInProduction(r: Registry, keys: seq<Key>, i: nat)
    requires i < |keys|
  {
    var now := SeedAll(r, keys[..i]);
    keys[i] in now && now[keys[i]] == PRODUCTION
  }

  predicate ResultsSoFar(r: Registry, keys: seq<Key>, results: seq<bool>)
    requires |results| <= |keys|
  {
    forall i :: 0 <= i < |results| ==> (results[i] <==> WasInProduction(r, keys, i))
  }

  predicate SeedsFamily(keys: seq<Key>, key: Key) {
    exists k :: k in keys && SameFamily(k, key)
  }

  /** The last of the keys in its family. */
  function LastOf(keys: seq<Key>, key: Key): (r: Key)
    requires SeedsFamily(keys, key)
    ensures r in keys && SameFamily(r, key)
  {
    var last := keys[|keys| - 1];
    if SameFamily(last, key) then last
    else
      assert forall k :: k in keys ==> k == last || k in keys[..|keys| - 1];
      LastOf(keys[..|keys| - 1], key)
  }

  /** Where a row stands after seeding, by its key alone: in a seeded family the last seeded
      key is in PRODUCTION and no other row is; other seeded keys are in SHADOW; everything
      else is where it was. */
  function Target(r: Registry, keys: seq<Key>, key: Key): State
    requires key in r || key in keys
  {
    if SeedsFamily(keys, key) && LastOf(keys, key) == key then PRODUCTION
    else if key in keys || (SeedsFamily(keys, key) && r[key] == PRODUCTION) then SHADOW
    else r[key]
  }

  lemma {:induction false} SeedAllTargets(r: Registry, keys: seq<Key>)
    ensures var r' := SeedAll(r, keys);
            && (forall k :: k in r' <==> k in r || k in keys)
            && (forall k :: k in r' ==> r'[k] == Target(r, keys, k))
  {
    if keys != [] {
      var n := |keys| - 1;
      var (front, last) := (keys[..n], keys[n]);
      assert keys == front + [last];
      assert forall k :: k in keys <==> k in front || k == last;
      SeedAllTargets(r, front);
      var r1 := SeedAll(r, front);
      var r' := SeedAll(r, keys);
      forall k | k in r' ensures r'[k] == Target(r, keys, k) {
        if SameFamily(k, last) {
          assert last in keys && SeedsFamily(keys, k) && LastOf(keys, k) == last;
          if k != last && r1[k] == PRODUCTION && k !in keys {
            assert Target(r, front, k) == PRODUCTION;
          }
        } else {
          assert SeedsFamily(keys, k) <==> SeedsFamily(front, k);
        }
      }
    }
  }

  /** Seeding again leaves every lifecycle state as it is, whatever the registry was before. */
  lemma SeedingIdempotent(r: Registry, keys: seq<Key>)
    ensures SeedAll(SeedAll(r, keys), keys) == SeedAll(r, keys)
  {
    var once := SeedAll(r, keys);
    SeedAllTargets(r, keys);
    SeedAllTargets(once, keys);
    forall k | k in once ensures SeedAll(once, keys)[k] == once[k] {
      if SeedsFamily(keys, k) && k !in keys {
        assert once[k] != PRODUCTION;
      }
    }
  }

  /** `sorted((plugin_id, version))`, one plugin type after another. */
  function TypeRank(t: PluginType): int {
    match t case ADAPTER => 0 case POLICY => 1 case POPULATION_POLICY => 2
  }

  predicate KeyLess(a: Key, b: Key) {
    || TypeRank(a.pluginType) < TypeRank(b.pluginType)
    || (a.pluginType == b.pluginType
        && (StrLess(a.pluginId, b.pluginId) || (a.pluginId == b.pluginId && StrLess(a.version, b.version))))
  }

  lemma LaterIsNotLess(keys: seq<Key>, k: Key)
    requires SortedBy(KeyLess, keys) && k in keys && SameFamily(k, keys[|keys| - 1])
    ensures !StrLess(keys[|keys| - 1].version, k.version)
  {
    var n := |keys| - 1;
    var i :| 0 <= i < |keys| && keys[i] == k;
    if StrLess(keys[n].version, k.version) {
      StrLessAsymmetric(keys[n].version, k.version);
      assert KeyLess(keys[n], keys[i]);
    }
  }

  /** In sorted keys, the last of a family is its greatest version in string order. */
  lemma {:induction false} LastIsGreatest(keys: seq<Key>, key: Key)
    requires SortedBy(KeyLess, keys) && SeedsFamily(keys, key)
    ensures forall k :: k in keys && SameFamily(k, key) ==> !StrLess(LastOf(keys, key).version, k.version)
  {
    var n := |keys| - 1;
    if SameFamily(keys[n], key) {
      forall k | k in keys && SameFamily(k, key) ensures !StrLess(LastOf(keys, key).version, k.version) {
        LaterIsNotLess(keys, k);
      }
    } else {
      assert keys == keys[..n] + [keys[n]];
      LastIsGreatest(keys[..n], key);
    }
  }

  predicate InFamily(keys: seq<Key>, key: Key, k: Key) {
    k in keys && SameFamily(k, key)
  }

  /** No version of the family is greater as text. */
  ghost predicate GreatestText(keys: seq<Key>, key: Key, k: Key) {
    forall j :: InFamily(keys, key, j) ==> !StrLess(k.version, j.version)
  }

  ghost predicate AllDotted(keys: seq<Key>, key: Key) {
    forall k :: InFamily(keys, key, k) ==> Dotted(k.version)
  }

  /** No version of the family is a newer release. */
  ghost predicate NewestRelease(keys: seq<Key>, key: Key, k: Key)
    requires AllDotted(keys, key) && InFamily(keys, key, k)
  {
    forall j :: InFamily(keys, key, j) ==> !ReleaseLess(k.version, j.version)
  }

  lemma LastIsGreatestText(keys: seq<Key>, key: Key)
    requires SortedBy(KeyLess, keys) && SeedsFamily(keys, key)
    ensures forall k :: InFamily(keys, key, k) ==> (GreatestText(keys, key, k) <==> k == LastOf(keys, key))
  {
    LastIsGreatest(keys, key);
    var last := LastOf(keys, key);
    forall k | InFamily(keys, key, k) && GreatestText(keys, key, k) ensures k == last {
      StrLessTotal(k.version, last.version);
      assert InFamily(keys, key, last);
    }
  }

  /** A version that is greater as text and no older. */
  predicate NoOlderAbove(keys: seq<Key>, key: Key, j: Key, i: Key)
    requires AllDotted(keys, key) && InFamily(keys, key, j)
  {
    InFamily(keys, key, i) && StrLess(j.version, i.version) && !ReleaseLess(i.version, j.version)
  }

  /** Text order climbs with release order: each version has a greater one that is no older,
      unless none is greater. */
  ghost predicate TextClimbs(keys: seq<Key>, key: Key)
    requires AllDotted(keys, key)
  {
    forall j :: InFamily(keys, key, j) ==> GreatestText(keys, key, j) || exists i :: NoOlderAbove(keys, key, j, i)
  }

  lemma GreaterIsLater(keys: seq<Key>, p: nat, q: nat)
    requires SortedBy(KeyLess, keys) && p < |keys| && q < |keys| && SameFamily(keys[p], keys[q])
    requires StrLess(keys[p].version, keys[q].version)
    ensures p < q
  {
    StrLessAsymmetric(keys[p].version, keys[q].version);
    assert KeyLess(keys[p], keys[q]);
  }

  lemma {:induction false} Climb(keys: seq<Key>, key: Key, p: nat)
    requires SortedBy(KeyLess, keys) && SeedsFamily(keys, key) && AllDotted(keys, key) && TextClimbs(keys, key)
    requires p < |keys| && InFamily(keys, key, keys[p])
    ensures !ReleaseLess(LastOf(keys, key).version, keys[p].version)
    decreases |keys| - p
  {
    var (last, j) := (LastOf(keys, key), keys[p]);
    LastIsGreatestText(keys, key);
    if GreatestText(keys, key, j) {
      ReleaseLessSplits(j.version, j.version, j.version);
    } else {
      var i :| NoOlderAbove(keys, key, j, i);
      var q :| 0 <= q < |keys| && keys[q] == i;
      GreaterIsLater(keys, p, q);
      Climb(keys, key, q);
      ReleaseLessSplits(last.version, i.version, j.version);
    }
  }

  /** The version seeding leaves in PRODUCTION is the last of its family in the sorted keys. */
  lemma SeededIsLast(r: Registry, keys: seq<Key>, key: Key, k: Key)
    requires SeedsFamily(keys, key)
    requires InFamily(keys, key, k) && SeedAll(r, keys).Keys >= {k} && SeedAll(r, keys)[k] == PRODUCTION
    ensures k == LastOf(keys, key)
  {
    SeedAllTargets(r, keys);
    SameLast(keys, key, k);
    assert Target(r, keys, k) == PRODUCTION;
  }

  /** Seeding leaves the newest release of a family in PRODUCTION if and only if text order
      climbs with release order there. */
  lemma NewestSeededExactly(r: Registry, keys: seq<Key>, key: Key, k: Key)
    requires SortedBy(KeyLess, keys) && SeedsFamily(keys, key) && AllDotted(keys, key)
    requires InFamily(keys, key, k) && SeedAll(r, keys).Keys >= {k} && SeedAll(r, keys)[k] == PRODUCTION
    ensures NewestRelease(keys, key, k) <==> TextClimbs(keys, key)
  {
    SeededIsLast(r, keys, key, k);
    LastIsGreatestText(keys, key);
    if TextClimbs(keys, key) {
      forall j | InFamily(keys, key, j) ensures !ReleaseLess(k.version, j.version) {
        var p :| 0 <= p < |keys| && keys[p] == j;
        Climb(keys, key, p);
      }
    }
    if NewestRelease(keys, key, k) {
      forall j | InFamily(keys, key, j) && !GreatestText(keys, key, j)
        ensures NoOlderAbove(keys, key, j, k)
      {
        StrLessTotal(j.version, k.version);
      }
    }
  }

  lemma {:induction false} SameLast(keys: seq<Key>, key: Key, k: Key)
    requires SeedsFamily(keys, key) && SameFamily(k, key)
    ensures SeedsFamily(keys, k) && LastOf(keys, k) == LastOf(keys, key)
  {
    var some :| some in keys && SameFamily(some, key);
    assert SameFamily(some, k);
    var n := |keys| - 1;
    if !SameFamily(keys[n], key) {
      assert keys == keys[..n] + [keys[n]];
      assert SeedsFamily(keys[..n], key);
      SameLast(keys[..n], key, k);
    }
  }

  /** Which it does, in particular, when the versions have the same number of digits in every
      place. */
  lemma SameShapesSeedNewest(r: Registry, keys: seq<Key>, key: Key, k: Key)
    requires SortedBy(KeyLess, keys) && SeedsFamily(keys, key) && AllDotted(keys, key)
    requires InFamily(keys, key, k) && SeedAll(r, keys).Keys >= {k} && SeedAll(r, keys)[k] == PRODUCTION
    requires forall i, j :: InFamily(keys, key, i) && InFamily(keys, key, j) ==> SameShape(i.version, j.version)
    ensures NewestRelease(keys, key, k)
  {
    SeededIsLast(r, keys, key, k);
    LastIsGreatestText(keys, key);
    forall j | InFamily(keys, key, j) ensures !ReleaseLess(k.version, j.version) {
      SameShapeAgrees(k.version, j.version);
    }
  }

  lemma TenAndNineNumbers()
    ensures Numbers("0.9.0", 0) == [0, 9, 0] && Numbers("0.10.0", 0) == [0, 10, 0]
  {
    assert "0.10.0"[1..] == ".10.0" && "0.9.0"[1..] == ".9.0";
    assert ".10.0"[1..] == "10.0" && ".9.0"[1..] == "9.0";
    assert "10.0"[1..] == "0.0" && "9.0"[1..] == ".0" && "0.0"[1..] == ".0" && ".0"[1..] == "0";
    assert Numbers("0", 0) == [0];
    assert Numbers("9.0", 0) == [9] + Numbers("0", 0);
    assert Numbers("10.0", 0) == Numbers("0.0", 1) == Numbers(".0", 10) == [10] + Numbers("0", 0);
    assert Numbers("0.9.0", 0) == [0] + Numbers("9.0", 0) && Numbers("0.10.0", 0) == [0] + Numbers("10.0", 0);
  }

  lemma TenAndNine()
    ensures StrLess("0.10.0", "0.9.0") && Dotted("0.10.0") && Dotted("0.9.0") && ReleaseLess("0.9.0", "0.10.0")
  {
    TenAndNineNumbers();
    assert [0, 9, 0][1..] == [9, 0] && [0, 10, 0][1..] == [10, 0];
    assert "0.10.0"[1..] == ".10.0" && "0.9.0"[1..] == ".9.0";
    assert ".10.0"[1..] == "10.0" && ".9.0"[1..] == "9.0";
  }

  /** Seeding 0.10.0 and 0.9.0 of a plugin, in the order the tool sorts them, leaves the older
      release in PRODUCTION and the newer one in SHADOW. */
  lemma TenSortsBeforeNine(t: PluginType, id: string)
    ensures var (nine, ten) := (Key(t, id, "0.9.0"), Key(t, id, "0.10.0"));
            && SortedBy(KeyLess, [ten, nine]) && ReleaseLess(nine.version, ten.version)
            && SeedAll(map[], [ten, nine]) == map[ten := SHADOW, nine := PRODUCTION]
  {
    var (nine, ten) := (Key(t, id, "0.9.0"), Key(t, id, "0.10.0"));
    TenAndNine();
    StrLessLaws();
    assert !StrLess(id, id) && !StrLess("0.9.0", "0.10.0");
    assert !KeyLess(nine, ten);
    assert [ten, nine][..1] == [ten] && [ten][..0] == [];
    assert SeedAll(map[], [ten]) == map[ten := PRODUCTION];
    assert Demoted(map[ten := PRODUCTION], nine) == map[ten := SHADOW];
  }

  // ----- The repository -----

  class PluginRegistrationRepository {
    var rows: Registry

    constructor ()
      ensures rows == map[]
    {
      rows := map[];
    }

    /** One flushed UPDATE: the index is checked at the end of this statement, so a write
        that would put two versions of a plugin in PRODUCTION fails and changes nothing. */
    method Flush(key: Key, state: State) returns (ok: bool)
      requires key in rows && OneProduction(rows)
      modifies this
      ensures OneProduction(rows)
      ensures ok <==> OneProduction(old(rows)[key := state])
      ensures rows == if ok then old(rows)[key := state] else old(rows)
    {
      ok := state != PRODUCTION || forall k :: k in rows && SameFamily(k, key) && k != key ==> rows[k] != PRODUCTION;
      if ok {
        rows := rows[key := state];
      } else {
        ghost var k :| k in rows && SameFamily(k, key) && k != key && rows[k] == PRODUCTION;
        ghost var next := rows[key := state];
        assert next[k] == PRODUCTION && next[key] == PRODUCTION;
      }
    }

    /** False when the identity is already registered. */
    method Create(key: Key) returns (ok: bool)
      requires OneProduction(rows)
      modifies this
      ensures ok == Accepted(old(rows), Op.Create(key)) && rows == Apply(old(rows), Op.Create(key))
      ensures ok ==> rows == old(rows)[key := DRAFT]
      ensures OneProduction(rows)
    {
      ok := key !in rows;
      if ok {
        rows := rows[key := DRAFT];
      }
    }

    /** One stage forward, demoting the previous PRODUCTION version first: the index holds at
        each flush, so neither flush can fail. False when there is nothing to promote to. */
    method Promote(key: Key) returns (ok: bool)
      requires OneProduction(rows)
      modifies this
      ensures ok == Accepted(old(rows), Op.Promote(key)) && rows == Apply(old(rows), Op.Promote(key))
      ensures ok && old(rows)[key] == DRAFT ==> rows == old(rows)[key := SHADOW]
      ensures ok && old(rows)[key] != DRAFT ==> old(rows)[key] == SHADOW && key in rows && rows[key] == PRODUCTION
      ensures OneProduction(rows)
    {
      if key !in rows || rows[key] == PRODUCTION {
        return false;
      }
      ghost var before := rows;
      var nextState := if rows[key] == DRAFT then SHADOW else PRODUCTION;
      if nextState == PRODUCTION {
        var previous := set k | k in rows && SameFamily(k, key) && rows[k] == PRODUCTION;
        if previous != {} {
          var previousProduction :| previousProduction in previous;
          var flushed := Flush(previousProduction, SHADOW);
        } else {
          assert forall k :: k in rows && SameFamily(k, key) && rows[k] == PRODUCTION ==> k in previous;
        }
        assert rows == Demoted(before, key);
      }
      ok := Flush(key, nextState);
    }

    /** `seed_to_production`: register if need be, then promote until in PRODUCTION. The
        result tells whether it already was. */
    method SeedToProduction(key: Key) returns (was: bool)
      requires OneProduction(rows)
      modifies this
      ensures rows == Seeded(old(rows), key) && OneProduction(rows)
      ensures was <==> key in old(rows) && old(rows)[key] == PRODUCTION
    {
      ghost var before := rows;
      if key !in rows {
        var created := Create(key);
      }
      was := rows[key] == PRODUCTION;
      if was {
        assert rows == Seeded(before, key);
      }
      while rows[key] != PRODUCTION
        invariant key in rows && OneProduction(rows)
        invariant rows[key] != PRODUCTION ==>
                    rows == before[key := rows[key]] && (key in before ==> before[key] != PRODUCTION)
        invariant rows[key] == PRODUCTION ==> rows == Seeded(before, key)
        decreases if rows[key] == DRAFT then 2 else if rows[key] == SHADOW then 1 else 0
      {
        var promoted := Promote(key);
        assert rows[key] == PRODUCTION ==> rows == Seeded(before, key);
      }
    }

    /** The seeding passes of `main`: for each key in turn, whether it was in PRODUCTION when
        its turn came. */
    method Seed(keys: seq<Key>) returns (results: seq<bool>)
      requires OneProduction(rows)
      modifies this
      ensures rows == SeedAll(old(rows), keys) && OneProduction(rows)
      ensures |results| == |keys| && ResultsSoFar(old(rows), keys, results)
    {
      results := [];
      ghost var before := rows;
      for i := 0 to |keys|
        invariant rows == SeedAll(before, keys[..i]) && OneProduction(rows)
        invariant |results| == i && ResultsSoFar(before, keys, results)
      {
        var was := SeedToProduction(keys[i]);
        assert was <==> WasInProduction(before, keys, i);
        results := results + [was];
        assert keys[..i + 1][..i] == keys[..i];
      }
      assert keys[..|keys|] == keys;
    }
  }
}
