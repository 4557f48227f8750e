/** Promotions in concurrent transactions: each reads, decides, flushes one or two UPDATEs
    and commits or rolls back, with nothing conditional in its WHERE clauses. Rows written
    by an open transaction are locked, and the partial unique index waits for, or fails on,
    any other row that is or may become PRODUCTION. */
module PluginConcurrency {
  import opened Wrappers
  import opened PluginRegistry

  datatype Pc =
    | Ready
    | Got(key: Key, seen: State)
    | ToDemote(key: Key, previous: Key)
    | ToPromote(key: Key, target: State)

  /** `writes` are the transaction's own flushed, uncommitted rows. */
  datatype Tx = Tx(writes: Registry, pc: Pc)

  datatype World = World(committed: Registry, txs: map<nat, Tx>)

  datatype Action =
    | Begin(id: nat)
    | Register(id: nat, key: Key)
    | Get(id: nat, key: Key)
    | FindPrevious(id: nat)
    | FlushDemotion(id: nat)
    | FlushPromotion(id: nat)
    | Commit(id: nat)
    | Rollback(id: nat)

  /** READ COMMITTED with the transaction's own writes on top. */
  function View(w: World, id: nat): Registry
    requires id in w.txs
  {
    w.committed + w.txs[id].writes
  }

  predicate LockedByOther(w: World, id: nat, key: Key) {
    exists other :: other in w.txs && other != id && key in w.txs[other].writes
  }

  /** The index lets `id` make `key` PRODUCTION: no other row of the family is PRODUCTION,
      neither committed (unless `id` itself has overwritten it) nor pending in any transaction. */
  predicate IndexFree(w: World, id: nat, key: Key)
    requires id in w.txs
  {
    && (forall k :: k in w.committed && k != key && SameFamily(k, key) && w.committed[k] == PRODUCTION
          ==> k in w.txs[id].writes && w.txs[id].writes[k] != PRODUCTION)
    && (forall t, k :: t in w.txs && k in w.txs[t].writes && k != key && SameFamily(k, key) ==>
          w.txs[t].writes[k] != PRODUCTION)
  }

  predicate CanWrite(w: World, id: nat, key: Key, state: State) {
    && id in w.txs && key in View(w, id) && !LockedByOther(w, id, key)
    && (state == PRODUCTION ==> IndexFree(w, id, key))
  }

  predicate IsPrevious(w: World, id: nat, key: Key, k: Key)
    requires id in w.txs
  {
    k in View(w, id) && SameFamily(k, key) && View(w, id)[k] == PRODUCTION
  }

  predicate Enabled(w: World, a: Action) {
    match a
    case Begin(id) => id !in w.txs
    case Register(id, key) => id in w.txs && w.txs[id].pc == Ready && key !in View(w, id) && !LockedByOther(w, id, key)
    case Get(id, key) => id in w.txs && w.txs[id].pc == Ready && key in View(w, id) && View(w, id)[key] != PRODUCTION
    case FindPrevious(id) => id in w.txs && w.txs[id].pc.Got?
    case FlushDemotion(id) => id in w.txs && w.txs[id].pc.ToDemote? && CanWrite(w, id, w.txs[id].pc.previous, SHADOW)
    case FlushPromotion(id) => id in w.txs && w.txs[id].pc.ToPromote?
        && CanWrite(w, id, w.txs[id].pc.key, w.txs[id].pc.target)
    case Commit(id) => id in w.txs && w.txs[id].pc == Ready
    case Rollback(id) => id in w.txs
  }

  function Write(w: World, id: nat, key: Key, state: State, pc: Pc): World
    requires id in w.txs
  {
    w.(txs := w.txs[id := Tx(w.txs[id].writes[key := state], pc)])
  }

  function Plan(key: Key, seen: State, previous: Option<Key>): Pc {
    if seen == DRAFT then ToPromote(key, SHADOW)
    else if previous.Some? then ToDemote(key, previous.value)
    else ToPromote(key, PRODUCTION)
  }

  /** Every next world of `a`. The query for the previous PRODUCTION row may find any such
      row of the view; the invariant below says there is at most one. */
  ghost predicate Next(w: World, a: Action, w': World) {
    if !Enabled(w, a) then w' == w
    else
      match a
      case Begin(id) => w' == w.(txs := w.txs[id := Tx(map[], Ready)])
      case Register(id, key) => w' == Write(w, id, key, DRAFT, Ready)
      case Get(id, key) => w' == w.(txs := w.txs[id := w.txs[id].(pc := Got(key, View(w, id)[key]))])
      case FindPrevious(id) =>
        var pc := w.txs[id].pc;
        exists previous: Option<Key> ::
          && w' == w.(txs := w.txs[id := w.txs[id].(pc := Plan(pc.key, pc.seen, previous))])
          && (previous.Some? ==> IsPrevious(w, id, pc.key, previous.value))
          && (previous.None? ==> forall k :: !IsPrevious(w, id, pc.key, k))
      case FlushDemotion(id) =>
        w' == Write(w, id, w.txs[id].pc.previous, SHADOW, ToPromote(w.txs[id].pc.key, PRODUCTION))
      case FlushPromotion(id) => w' == Write(w, id, w.txs[id].pc.key, w.txs[id].pc.target, Ready)
      case Commit(id) => w' == World(View(w, id), w.txs - {id})
      case Rollback(id) => w' == w.(txs := w.txs - {id})
  }

  ghost predicate Behavior(worlds: seq<World>, actions: seq<Action>) {
    |worlds| == |actions| + 1 && forall i :: 0 <= i < |actions| ==> Next(worlds[i], actions[i], worlds[i + 1])
  }

  predicate Wrote(w: World, t: nat, k: Key) {
    t in w.txs && k in w.txs[t].writes
  }

  predicate Pending(w: World, t: nat, k: Key) {
    Wrote(w, t, k) && w.txs[t].writes[k] == PRODUCTION
  }

  predicate Holds(w: World, k: Key) {
    k in w.committed && w.committed[k] == PRODUCTION
  }

  /** Two transactions never hold the same row. */
  ghost predicate Disjoint(w: World) {
    forall s, t, k :: Wrote(w, s, k) && Wrote(w, t, k) ==> s == t
  }

  ghost predicate PendingUnique(w: World) {
    forall s, t, j, k :: Pending(w, s, j) && Pending(w, t, k) && SameFamily(j, k) ==> j == k
  }

  /** Where a transaction has a row pending for PRODUCTION, it has itself demoted the row
      that holds the place. */
  ghost predicate PlaceVacated(w: World) {
    forall t, j, k :: Pending(w, t, k) && Holds(w, j) && SameFamily(j, k) && j != k ==>
        Wrote(w, t, j) && !Pending(w, t, j)
  }

  /** Only an uncommitted registration is pending as DRAFT. */
  ghost predicate DraftsAreNew(w: World) {
    && (forall t, k :: Wrote(w, t, k) && w.txs[t].writes[k] == DRAFT ==> k !in w.committed)
    && (forall t :: t in w.txs && w.txs[t].pc.ToPromote? ==> w.txs[t].pc.target != DRAFT)
  }

  ghost predicate Inv(w: World) {
    OneProduction(w.committed) && Disjoint(w) && PendingUnique(w) && PlaceVacated(w) && DraftsAreNew(w)
  }

  /** Every transaction, after each of its flushes, sees at most one PRODUCTION version. */
  lemma ViewsHaveOne(w: World, id: nat)
    requires Inv(w) && id in w.txs
    ensures OneProduction(View(w, id))
  {
    var v := View(w, id);
    forall a, b | a in v && b in v && SameFamily(a, b) && v[a] == PRODUCTION && v[b] == PRODUCTION ensures a == b {
      assert Wrote(w, id, a) ==> Pending(w, id, a);
      assert Wrote(w, id, b) ==> Pending(w, id, b);
      assert !Wrote(w, id, a) ==> Holds(w, a);
      assert !Wrote(w, id, b) ==> Holds(w, b);
      assert SameFamily(b, a);
    }
  }

  lemma WriteInv(w: World, id: nat, key: Key, state: State, pc: Pc)
    requires Inv(w) && CanWrite(w, id, key, state) && state != DRAFT && !(pc.ToPromote? && pc.target == DRAFT)
    ensures Inv(Write(w, id, key, state, pc))
  {
    var w' := Write(w, id, key, state, pc);
    forall t, k ensures Wrote(w', t, k) <==> Wrote(w, t, k) || (t == id && k == key) {}
    forall s, t, k | Wrote(w', s, k) && Wrote(w', t, k) ensures s == t {
      assert LockedByOther(w, id, key) || s == t || (Wrote(w, s, k) && Wrote(w, t, k));
    }
    WritePending(w, id, key, state, pc);
    WritePlace(w, id, key, state, pc);
  }

  lemma WritePending(w: World, id: nat, key: Key, state: State, pc: Pc)
    requires Inv(w) && CanWrite(w, id, key, state)
    ensures PendingUnique(Write(w, id, key, state, pc))
  {
    var w' := Write(w, id, key, state, pc);
    forall s, t, j, k | Pending(w', s, j) && Pending(w', t, k) && SameFamily(j, k) ensures j == k {
      if j != k {
        assert j != key ==> Pending(w, s, j);
        assert k != key ==> Pending(w, t, k);
        assert SameFamily(k, j);
      }
    }
  }

  lemma WritePlace(w: World, id: nat, key: Key, state: State, pc: Pc)
    requires Inv(w) && CanWrite(w, id, key, state)
    ensures PlaceVacated(Write(w, id, key, state, pc))
  {
    var w' := Write(w, id, key, state, pc);
    forall t, j, k | Pending(w', t, k) && Holds(w', j) && SameFamily(j, k) && j != k
      ensures Wrote(w', t, j) && !Pending(w', t, j)
    {
      assert Holds(w, j);
      if k != key || t != id {
        assert Pending(w, t, k);
        assert Wrote(w, t, j) && !Pending(w, t, j);
        if j == key && t == id && state == PRODUCTION {
          assert Pending(w', id, key) && SameFamily(k, key);
        }
      }
    }
  }

  lemma CommitInv(w: World, id: nat)
    requires Inv(w) && id in w.txs
    ensures Inv(World(View(w, id), w.txs - {id}))
  {
    ViewsHaveOne(w, id);
    var w' := World(View(w, id), w.txs - {id});
    assert forall t, k :: Wrote(w', t, k) <==> Wrote(w, t, k) && t != id;
    assert forall t, k :: Pending(w', t, k) <==> Pending(w, t, k) && t != id;
    assert forall k :: Holds(w', k) ==> Pending(w, id, k) || Holds(w, k);
    forall t, k | Wrote(w', t, k) && w'.txs[t].writes[k] == DRAFT ensures k !in w'.committed {
      assert !Wrote(w, id, k);
    }
  }

  /** Steps that write no row. */
  lemma QuietInv(w: World, w': World)
    requires Inv(w) && w'.committed == w.committed
    requires forall t, k :: Wrote(w', t, k) ==> Wrote(w, t, k) && w'.txs[t].writes[k] == w.txs[t].writes[k]
    requires forall t, k :: Wrote(w, t, k) && t in w'.txs ==> Wrote(w', t, k)
    requires forall t :: t in w'.txs && w'.txs[t].pc.ToPromote? ==> w'.txs[t].pc.target != DRAFT
    ensures Inv(w')
  {
    assert forall t, k :: Pending(w', t, k) ==> Pending(w, t, k);
    assert forall k :: Holds(w', k) <==> Holds(w, k);
  }

  lemma RegisterInv(w: World, id: nat, key: Key)
    requires Inv(w) && Enabled(w, Register(id, key))
    ensures Inv(Write(w, id, key, DRAFT, Ready))
  {
    var w' := Write(w, id, key, DRAFT, Ready);
    forall t, k ensures Wrote(w', t, k) <==> Wrote(w, t, k) || (t == id && k == key) {}
    assert forall t, k :: Pending(w', t, k) <==> Pending(w, t, k);
    assert forall k :: Holds(w', k) <==> Holds(w, k);
    forall s, t, k | Wrote(w', s, k) && Wrote(w', t, k) ensures s == t {
      assert LockedByOther(w, id, key) || s == t || (Wrote(w, s, k) && Wrote(w, t, k));
    }
  }

  lemma NextInv(w: World, a: Action, w': World)
    requires Inv(w) && Next(w, a, w')
    ensures Inv(w')
    ensures forall k :: k in w.committed ==> k in w'.committed && (w.committed[k] != DRAFT ==> w'.committed[k] != DRAFT)
  {
    if Enabled(w, a) {
      match a
      case FlushDemotion(id) =>
        WriteInv(w, id, w.txs[id].pc.previous, SHADOW, ToPromote(w.txs[id].pc.key, PRODUCTION));
      case FlushPromotion(id) =>
        WriteInv(w, id, w.txs[id].pc.key, w.txs[id].pc.target, Ready);
      case Commit(id) =>
        CommitInv(w, id);
        assert forall k :: Wrote(w, id, k) <==> k in w.txs[id].writes;
      case Register(id, key) => RegisterInv(w, id, key);
      case Begin(_) => QuietInv(w, w');
      case Get(_, _) => QuietInv(w, w');
      case FindPrevious(_) => QuietInv(w, w');
      case Rollback(_) => QuietInv(w, w');
    }
  }

  /** Under any interleaving of any number of promotions and registrations, at every flush
      and at every commit each plugin has at most one PRODUCTION version, and no committed
      row returns to DRAFT. */
  lemma {:induction false} AtMostOneProduction(worlds: seq<World>, actions: seq<Action>, n: nat)
    requires Behavior(worlds, actions) && worlds[0].txs == map[] && OneProduction(worlds[0].committed) && n < |worlds|
    ensures Inv(worlds[n]) && OneProduction(worlds[n].committed)
    ensures forall id :: id in worlds[n].txs ==> OneProduction(View(worlds[n], id))
    ensures forall k :: k in worlds[0].committed
              ==> k in worlds[n].committed && (worlds[0].committed[k] != DRAFT ==> worlds[n].committed[k] != DRAFT)
  {
    if n > 0 {
      AtMostOneProduction(worlds, actions, n - 1);
      NextInv(worlds[n - 1], actions[n - 1], worlds[n]);
    }
    forall id | id in worlds[n].txs ensures OneProduction(View(worlds[n], id)) {
      ViewsHaveOne(worlds[n], id);
    }
  }

  // ----- Survival of the PRODUCTION version -----

  /** A promotion to SHADOW is flushed over a row that is in PRODUCTION by now: the row was
      read, in DRAFT, before some other transaction took it there. */
  predicate LateFlush(w: World, a: Action) {
    && Enabled(w, a) && a.FlushPromotion? && w.txs[a.id].pc.target == SHADOW
    && View(w, a.id)[w.txs[a.id].pc.key] == PRODUCTION
  }

  /** The rows each open transaction has flushed late, with no promotion to PRODUCTION in
      their family since. */
  function LateAfter(w: World, late: set<(nat, Key)>, a: Action): set<(nat, Key)> {
    if !Enabled(w, a) then late
    else
      match a
      case FlushPromotion(id) =>
        if LateFlush(w, a) then late + {(id, w.txs[id].pc.key)}
        else if w.txs[id].pc.target == PRODUCTION then
          set p | p in late && !(p.0 == id && SameFamily(p.1, w.txs[id].pc.key))
        else late
      case Commit(id) => set p | p in late && p.0 != id
      case Rollback(id) => set p | p in late && p.0 != id
      case _ => late
  }

  ghost function LateSet(worlds: seq<World>, actions: seq<Action>, n: nat): set<(nat, Key)>
    requires n <= |actions| < |worlds|
  {
    if n == 0 then {} else LateAfter(worlds[n - 1], LateSet(worlds, actions, n - 1), actions[n - 1])
  }

  ghost predicate PendingFor(w: World, t: nat, k: Key) {
    exists q :: Pending(w, t, q) && SameFamily(q, k)
  }

  /** The transaction is about to promote a row of this family. */
  predicate AboutToPromote(w: World, t: nat, k: Key) {
    t in w.txs && w.txs[t].pc.ToPromote? && w.txs[t].pc.target == PRODUCTION && SameFamily(w.txs[t].pc.key, k)
  }

  predicate DemotesProduction(w: World, t: nat, k: Key) {
    Wrote(w, t, k) && w.txs[t].writes[k] == SHADOW && Holds(w, k)
  }

  /** A transaction that has written SHADOW over the row in PRODUCTION has promoted another of
      its family, or is about to, or has flushed that row late. */
  ghost predicate Covered(w: World, late: set<(nat, Key)>) {
    forall t: nat, k :: DemotesProduction(w, t, k) ==> PendingFor(w, t, k) || AboutToPromote(w, t, k) || (t, k) in late
  }

  /** A row flushed late still is the family's PRODUCTION row for everybody else, and its own
      transaction has promoted nothing in its place. */
  ghost predicate LateHolds(w: World, late: set<(nat, Key)>) {
    forall t: nat, k :: (t, k) in late ==> DemotesProduction(w, t, k) && !PendingFor(w, t, k)
  }

  /** A demotion planned is of the promoted row's own family, and a row read in DRAFT has not
      been written since but by its own registration. */
  predicate Plans(w: World, t: nat)
    requires t in w.txs
  {
    var (pc, writes) := (w.txs[t].pc, w.txs[t].writes);
    && (pc.ToDemote? ==> SameFamily(pc.previous, pc.key))
    && (pc.Got? && pc.seen == DRAFT && pc.key in writes ==> writes[pc.key] == DRAFT)
    && (pc.ToPromote? && pc.target == SHADOW && pc.key in writes ==> writes[pc.key] == DRAFT)
  }

  ghost predicate LateInv(w: World, late: set<(nat, Key)>) {
    Inv(w) && Covered(w, late) && LateHolds(w, late) && forall t :: t in w.txs ==> Plans(w, t)
  }

  // Demotions.

  lemma DemotionCovered(w: World, late: set<(nat, Key)>, id: nat)
    requires LateInv(w, late) && Enabled(w, FlushDemotion(id))
    ensures Covered(Write(w, id, w.txs[id].pc.previous, SHADOW, ToPromote(w.txs[id].pc.key, PRODUCTION)), late)
  {
    assert Plans(w, id);
    var (key, previous) := (w.txs[id].pc.key, w.txs[id].pc.previous);
    var w' := Write(w, id, previous, SHADOW, ToPromote(key, PRODUCTION));
    forall t, k | DemotesProduction(w', t, k)
      ensures PendingFor(w', t, k) || AboutToPromote(w', t, k) || (t, k) in late
    {
      if t == id && k == previous {
        assert SameFamily(key, k);
      } else {
        assert DemotesProduction(w, t, k);
        if PendingFor(w, t, k) {
          var q :| Pending(w, t, q) && SameFamily(q, k);
          assert t == id && q == previous ==> SameFamily(key, k);
          assert t != id || q != previous ==> Pending(w', t, q);
        }
      }
    }
  }

  lemma DemotionHolds(w: World, late: set<(nat, Key)>, id: nat)
    requires LateInv(w, late) && Enabled(w, FlushDemotion(id))
    ensures LateHolds(Write(w, id, w.txs[id].pc.previous, SHADOW, ToPromote(w.txs[id].pc.key, PRODUCTION)), late)
  {
    var w' := Write(w, id, w.txs[id].pc.previous, SHADOW, ToPromote(w.txs[id].pc.key, PRODUCTION));
    forall t, k | (t, k) in late ensures DemotesProduction(w', t, k) && !PendingFor(w', t, k) {
      assert DemotesProduction(w, t, k);
      forall q | Pending(w', t, q) ensures Pending(w, t, q) {}
    }
  }

  // Promotions.

  /** At its late flush the row is committed as PRODUCTION, and no other row of its family is
      pending in the same transaction. */
  lemma LateFlushIs(w: World, late: set<(nat, Key)>, id: nat)
    requires LateInv(w, late) && LateFlush(w, FlushPromotion(id))
    ensures var key := w.txs[id].pc.key; Holds(w, key) && !Wrote(w, id, key) && !PendingFor(w, id, key)
  {
    assert Plans(w, id);
    var key := w.txs[id].pc.key;
    if q :| Pending(w, id, q) && SameFamily(q, key) {
      assert SameFamily(key, q);
    }
  }

  lemma PromotionCovered(w: World, late: set<(nat, Key)>, id: nat)
    requires LateInv(w, late) && Enabled(w, FlushPromotion(id))
    ensures Covered(Write(w, id, w.txs[id].pc.key, w.txs[id].pc.target, Ready), LateAfter(w, late, FlushPromotion(id)))
  {
    var (key, target) := (w.txs[id].pc.key, w.txs[id].pc.target);
    var (w', late') := (Write(w, id, key, target, Ready), LateAfter(w, late, FlushPromotion(id)));
    assert target == PRODUCTION ==> Pending(w', id, key);
    forall t, k | DemotesProduction(w', t, k)
      ensures PendingFor(w', t, k) || AboutToPromote(w', t, k) || (t, k) in late'
    {
      if t == id && k == key {
        assert target == SHADOW && View(w, id)[key] == PRODUCTION by {
          assert Plans(w, id);
          assert key in w.txs[id].writes ==> w.txs[id].writes[key] == DRAFT;
          assert !Wrote(w, id, key);
        }
      } else {
        assert DemotesProduction(w, t, k);
        if PendingFor(w, t, k) {
          PendingSurvivesFlush(w, late, id, t, k);
        } else if t == id && target == PRODUCTION && SameFamily(k, key) {
          assert SameFamily(key, k);
        }
      }
    }
  }

  lemma PendingSurvivesFlush(w: World, late: set<(nat, Key)>, id: nat, t: nat, k: Key)
    requires LateInv(w, late) && Enabled(w, FlushPromotion(id)) && PendingFor(w, t, k)
    ensures PendingFor(Write(w, id, w.txs[id].pc.key, w.txs[id].pc.target, Ready), t, k)
  {
    var (key, target) := (w.txs[id].pc.key, w.txs[id].pc.target);
    var w' := Write(w, id, key, target, Ready);
    var q :| Pending(w, t, q) && SameFamily(q, k);
    assert Plans(w, id);
    assert t == id && q == key ==> target == PRODUCTION;
    assert Pending(w', t, q);
  }

  lemma PromotionHolds(w: World, late: set<(nat, Key)>, id: nat)
    requires LateInv(w, late) && Enabled(w, FlushPromotion(id))
    ensures LateHolds(Write(w, id, w.txs[id].pc.key, w.txs[id].pc.target, Ready),
              LateAfter(w, late, FlushPromotion(id)))
  {
    var (key, target) := (w.txs[id].pc.key, w.txs[id].pc.target);
    var (w', late') := (Write(w, id, key, target, Ready), LateAfter(w, late, FlushPromotion(id)));
    if LateFlush(w, FlushPromotion(id)) {
      LateFlushIs(w, late, id);
    }
    forall t, k | (t, k) in late' ensures DemotesProduction(w', t, k) && !PendingFor(w', t, k) {
      if (t, k) in late {
        assert DemotesProduction(w, t, k);
        LateKeptByFlush(w, late, id, t, k);
      } else {
        assert t == id && k == key;
        forall q | Pending(w', t, q) && SameFamily(q, k) ensures false {
          assert q != key && Pending(w, t, q);
        }
      }
    }
  }

  lemma LateKeptByFlush(w: World, late: set<(nat, Key)>, id: nat, t: nat, k: Key)
    requires LateInv(w, late) && Enabled(w, FlushPromotion(id)) && (t, k) in late
    requires (t, k) in LateAfter(w, late, FlushPromotion(id))
    ensures var w' := Write(w, id, w.txs[id].pc.key, w.txs[id].pc.target, Ready);
            DemotesProduction(w', t, k) && !PendingFor(w', t, k)
  {
    var (key, target) := (w.txs[id].pc.key, w.txs[id].pc.target);
    var w' := Write(w, id, key, target, Ready);
    assert DemotesProduction(w, t, k) && !PendingFor(w, t, k);
    assert k == key ==> SameFamily(k, key);
    forall q | Pending(w', t, q) && SameFamily(q, k) ensures Pending(w, t, q) {
      assert q == key ==> SameFamily(k, key);
    }
  }

  // Commits and rollbacks.

  lemma EndKeepsOthers(w: World, late: set<(nat, Key)>, id: nat, w': World)
    requires LateInv(w, late) && id in w.txs && w'.txs == w.txs - {id}
    requires w'.committed == w.committed || w'.committed == View(w, id)
    ensures var late' := set p | p in late && p.0 != id; Covered(w', late') && LateHolds(w', late')
  {
    var late' := set p | p in late && p.0 != id;
    forall t, q ensures Pending(w', t, q) <==> Pending(w, t, q) && t != id {}
    forall t, k ensures t != id && t in w.txs && Wrote(w, t, k) ==> (Holds(w', k) <==> Holds(w, k)) {
      assert Wrote(w, t, k) && Wrote(w, id, k) ==> t == id;
    }
    forall t, k | DemotesProduction(w', t, k)
      ensures PendingFor(w', t, k) || AboutToPromote(w', t, k) || (t, k) in late'
    {
      assert DemotesProduction(w, t, k) && t != id;
      if PendingFor(w, t, k) {
        var q :| Pending(w, t, q) && SameFamily(q, k);
        assert Pending(w', t, q);
      }
    }
    forall t, k | (t, k) in late' ensures DemotesProduction(w', t, k) && !PendingFor(w', t, k) {
      assert DemotesProduction(w, t, k);
    }
  }

  /** The exact condition at a commit: it loses the family's PRODUCTION version if and only if
      its transaction has flushed a row of the family late, and promoted none to PRODUCTION
      since. */
  lemma CommitLosesExactly(w: World, late: set<(nat, Key)>, id: nat, key: Key)
    requires LateInv(w, late) && Enabled(w, Commit(id)) && HasProduction(w.committed, key)
    ensures !HasProduction(View(w, id), key) <==> exists k :: SameFamily(k, key) && (id, k) in late
  {
    var p :| p in w.committed && SameFamily(p, key) && w.committed[p] == PRODUCTION;
    assert Holds(w, p);
    if k :| SameFamily(k, key) && (id, k) in late {
      assert DemotesProduction(w, id, k) && SameFamily(k, p) && k == p;
      forall j | j in View(w, id) && SameFamily(j, key) ensures View(w, id)[j] != PRODUCTION {
        assert SameFamily(j, p);
        assert Wrote(w, id, j) ==> !Pending(w, id, j);
        assert Holds(w, j) ==> j == p;
      }
    } else if Wrote(w, id, p) && !Pending(w, id, p) {
      assert DemotesProduction(w, id, p);
      var q :| Pending(w, id, q) && SameFamily(q, p);
      assert View(w, id)[q] == PRODUCTION && SameFamily(q, key);
    } else {
      assert View(w, id)[p] == PRODUCTION;
    }
  }

  /** Steps that write no row keep what is covered covered. */
  lemma QuietCovered(w: World, late: set<(nat, Key)>, w': World)
    requires Covered(w, late) && LateHolds(w, late) && w'.committed == w.committed
    requires forall t, k :: Wrote(w', t, k) ==> Wrote(w, t, k)
    requires forall t, k :: Wrote(w, t, k) ==> Wrote(w', t, k) && w'.txs[t].writes[k] == w.txs[t].writes[k]
    requires forall t, k :: AboutToPromote(w, t, k) ==> AboutToPromote(w', t, k)
    ensures Covered(w', late) && LateHolds(w', late)
  {
    assert forall t, q :: Pending(w', t, q) <==> Pending(w, t, q);
    assert forall t, k :: DemotesProduction(w', t, k) <==> DemotesProduction(w, t, k);
    assert forall t, k :: PendingFor(w', t, k) <==> PendingFor(w, t, k);
  }

  lemma RegisterCovered(w: World, late: set<(nat, Key)>, id: nat, key: Key)
    requires LateInv(w, late) && Enabled(w, Register(id, key))
    ensures Covered(Write(w, id, key, DRAFT, Ready), late) && LateHolds(Write(w, id, key, DRAFT, Ready), late)
  {
    var w' := Write(w, id, key, DRAFT, Ready);
    assert forall t, q :: Pending(w', t, q) <==> Pending(w, t, q);
    assert forall t, k :: DemotesProduction(w', t, k) <==> DemotesProduction(w, t, k);
    assert forall t, k :: PendingFor(w', t, k) <==> PendingFor(w, t, k);
  }

  lemma NextPlans(w: World, late: set<(nat, Key)>, a: Action, w': World)
    requires LateInv(w, late) && Next(w, a, w')
    ensures forall t :: t in w'.txs ==> Plans(w', t)
  {
    if Enabled(w, a) {
      forall t | t in w'.txs ensures Plans(w', t) {
        if t != a.id {
          assert Plans(w, t) && w'.txs[t] == w.txs[t];
        } else if !a.Begin? {
          assert Plans(w, t);
        }
      }
    }
  }

  lemma NextCovered(w: World, late: set<(nat, Key)>, a: Action, w': World)
    requires LateInv(w, late) && Next(w, a, w')
    ensures Covered(w', LateAfter(w, late, a)) && LateHolds(w', LateAfter(w, late, a))
  {
    if Enabled(w, a) {
      match a
      case FlushDemotion(id) =>
        DemotionCovered(w, late, id);
        DemotionHolds(w, late, id);
      case FlushPromotion(id) =>
        PromotionCovered(w, late, id);
        PromotionHolds(w, late, id);
      case Commit(id) => EndKeepsOthers(w, late, id, w');
      case Rollback(id) => EndKeepsOthers(w, late, id, w');
      case Register(id, key) => RegisterCovered(w, late, id, key);
      case Begin(_) => QuietCovered(w, late, w');
      case Get(_, _) => QuietCovered(w, late, w');
      case FindPrevious(_) => QuietCovered(w, late, w');
    }
  }

  lemma NextLate(w: World, late: set<(nat, Key)>, a: Action, w': World)
    requires LateInv(w, late) && Next(w, a, w')
    ensures LateInv(w', LateAfter(w, late, a))
  {
    NextInv(w, a, w');
    NextPlans(w, late, a, w');
    NextCovered(w, late, a, w');
  }

  lemma {:induction false} BehaviorLate(worlds: seq<World>, actions: seq<Action>, n: nat)
    requires Behavior(worlds, actions) && worlds[0].txs == map[] && OneProduction(worlds[0].committed) && n < |worlds|
    ensures LateInv(worlds[n], LateSet(worlds, actions, n))
  {
    if n > 0 {
      BehaviorLate(worlds, actions, n - 1);
      NextLate(worlds[n - 1], LateSet(worlds, actions, n - 1), actions[n - 1], worlds[n]);
    }
  }

  /** Over every interleaving, a family with a PRODUCTION version loses it at one kind of step
      only, and there always: the commit of a transaction that has flushed a row of the family
      late and promoted none to PRODUCTION since. */
  lemma ProductionLostExactly(worlds: seq<World>, actions: seq<Action>, n: nat, key: Key)
    requires Behavior(worlds, actions) && worlds[0].txs == map[] && OneProduction(worlds[0].committed) && n < |actions|
    requires HasProduction(worlds[n].committed, key)
    ensures !HasProduction(worlds[n + 1].committed, key) <==>
              && Enabled(worlds[n], actions[n]) && actions[n].Commit?
              && exists k :: SameFamily(k, key) && (actions[n].id, k) in LateSet(worlds, actions, n)
  {
    BehaviorLate(worlds, actions, n);
    var w := worlds[n];
    assert Next(w, actions[n], worlds[n + 1]);
    if Enabled(w, actions[n]) && actions[n].Commit? {
      CommitLosesExactly(w, LateSet(worlds, actions, n), actions[n].id, key);
    } else {
      assert worlds[n + 1].committed == w.committed;
    }
  }

  ghost predicate NeverLate(worlds: seq<World>, actions: seq<Action>, n: nat)
    requires n <= |actions| < |worlds|
  {
    forall i :: 0 <= i < n ==> !LateFlush(worlds[i], actions[i])
  }

  lemma {:induction false} NoLateFlush(worlds: seq<World>, actions: seq<Action>, n: nat)
    requires n <= |actions| < |worlds| && NeverLate(worlds, actions, n)
    ensures LateSet(worlds, actions, n) == {}
  {
    if n > 0 {
      NoLateFlush(worlds, actions, n - 1);
      assert !LateFlush(worlds[n - 1], actions[n - 1]);
    }
  }

  lemma SurvivesStep(worlds: seq<World>, actions: seq<Action>, n: nat, key: Key)
    requires Behavior(worlds, actions) && worlds[0].txs == map[] && OneProduction(worlds[0].committed) && n < |actions|
    requires NeverLate(worlds, actions, n) && HasProduction(worlds[n].committed, key)
    ensures HasProduction(worlds[n + 1].committed, key)
  {
    NoLateFlush(worlds, actions, n);
    ProductionLostExactly(worlds, actions, n, key);
  }

  /** In particular, if no promotion to SHADOW is ever flushed over a row in PRODUCTION, a
      family that once has a PRODUCTION version has one at every later commit. A stale flush
      over a row in SHADOW does no harm. */
  lemma {:induction false} ProductionSurvives(worlds: seq<World>, actions: seq<Action>, m: nat, n: nat, key: Key)
    requires Behavior(worlds, actions) && worlds[0].txs == map[] && OneProduction(worlds[0].committed)
    requires m <= n < |worlds| && NeverLate(worlds, actions, n)
    requires HasProduction(worlds[m].committed, key)
    ensures HasProduction(worlds[n].committed, key)
  {
    if m < n {
      assert NeverLate(worlds, actions, n - 1);
      ProductionSurvives(worlds, actions, m, n - 1, key);
      SurvivesStep(worlds, actions, n - 1, key);
    }
  }

  // ----- Such an interleaving exists -----

  ghost predicate Reaches(w: World, actions: seq<Action>, w': World) {
    exists worlds :: Behavior(worlds, actions) && worlds[0] == w && worlds[|actions|] == w'
  }

  lemma OneStep(w: World, a: Action, w': World)
    requires Next(w, a, w')
    ensures Reaches(w, [a], w')
  {
    var worlds := [w, w'];
    assert Behavior(worlds, [a]);
  }

  lemma Then(w: World, xs: seq<Action>, mid: World, ys: seq<Action>, w': World)
    requires Reaches(w, xs, mid) && Reaches(mid, ys, w')
    ensures Reaches(w, xs + ys, w')
  {
    var a :| Behavior(a, xs) && a[0] == w && a[|xs|] == mid;
    var b :| Behavior(b, ys) && b[0] == mid && b[|ys|] == w';
    var worlds := a + b[1..];
    forall i | 0 <= i < |xs + ys| ensures Next(worlds[i], (xs + ys)[i], worlds[i + 1]) {
      if i < |xs| {
        assert Next(a[i], xs[i], a[i + 1]);
      } else {
        assert Next(b[i - |xs|], ys[i - |xs|], b[i - |xs| + 1]);
      }
    }
    assert Behavior(worlds, xs + ys);
  }

  function Opened(w: World, id: nat, pc: Pc): World {
    w.(txs := w.txs[id := Tx(map[], pc)])
  }

  function TargetOf(state: State): State {
    if state == DRAFT then SHADOW else PRODUCTION
  }

  /** A transaction reads the only row there is, and plans its promotion. */
  lemma PlansPromotion(w: World, id: nat, key: Key)
    requires w.committed.Keys == {key} && w.committed[key] != PRODUCTION && id !in w.txs
    ensures Reaches(w, [Begin(id), Get(id, key), FindPrevious(id)],
              Opened(w, id, ToPromote(key, TargetOf(w.committed[key]))))
  {
    var state := w.committed[key];
    var (w1, w2, w3) := (Opened(w, id, Ready), Opened(w, id, Got(key, state)),
                          Opened(w, id, ToPromote(key, TargetOf(state))));
    assert View(w1, id) == w.committed && View(w2, id) == w.committed;
    OneStep(w, Begin(id), w1);
    assert w2.txs == w1.txs[id := w1.txs[id].(pc := Got(key, state))];
    OneStep(w1, Get(id, key), w2);
    NoneInProduction(w2, id, key);
    FindsNone(w2, id, key, state);
    OneStep(w2, FindPrevious(id), w3);
    Then(w, [Begin(id)], w1, [Get(id, key)], w2);
    Then(w, [Begin(id)] + [Get(id, key)], w2, [FindPrevious(id)], w3);
    assert [Begin(id)] + [Get(id, key)] + [FindPrevious(id)] == [Begin(id), Get(id, key), FindPrevious(id)];
  }

  lemma NoneInProduction(w: World, id: nat, key: Key)
    requires id in w.txs && View(w, id).Keys == {key} && View(w, id)[key] != PRODUCTION
    ensures forall k :: !IsPrevious(w, id, key, k)
  {
    forall k ensures !IsPrevious(w, id, key, k) {
      assert k in View(w, id) ==> k in View(w, id).Keys;
    }
  }

  lemma FindsNone(w: World, id: nat, key: Key, state: State)
    requires id in w.txs && w.txs[id] == Tx(map[], Got(key, state)) && state != PRODUCTION
    requires forall k :: !IsPrevious(w, id, key, k)
    ensures Next(w, FindPrevious(id), Opened(w, id, ToPromote(key, TargetOf(state))))
  {
    var planned := w.(txs := w.txs[id := w.txs[id].(pc := Plan(key, state, None))]);
    assert planned.txs == Opened(w, id, ToPromote(key, TargetOf(state))).txs;
  }

  /** It then carries the plan out, whatever the row has become, and commits. */
  lemma CarriesOut(w: World, id: nat, key: Key, target: State)
    requires w.committed.Keys == {key} && id !in w.txs && forall t :: t in w.txs ==> w.txs[t].writes == map[]
    ensures Reaches(Opened(w, id, ToPromote(key, target)), [FlushPromotion(id), Commit(id)],
              World(map[key := target], w.txs))
  {
    var w0 := Opened(w, id, ToPromote(key, target));
    var w1 := w.(txs := w.txs[id := Tx(map[key := target], Ready)]);
    var w2 := World(map[key := target], w.txs);
    assert key in w0.committed.Keys && key in View(w0, id);
    assert forall k :: k in w0.committed ==> k in w0.committed.Keys;
    assert CanWrite(w0, id, key, target);
    assert map[][key := target] == map[key := target];
    assert w1.txs == w0.txs[id := Tx(w0.txs[id].writes[key := target], Ready)];
    OneStep(w0, FlushPromotion(id), w1);
    assert View(w1, id) == map[key := target] && w1.txs - {id} == w.txs;
    OneStep(w1, Commit(id), w2);
    Then(w0, [FlushPromotion(id)], w1, [Commit(id)], w2);
    assert [FlushPromotion(id)] + [Commit(id)] == [FlushPromotion(id), Commit(id)];
  }

  function Promotion(id: nat, key: Key): seq<Action> {
    [Begin(id), Get(id, key), FindPrevious(id)] + [FlushPromotion(id), Commit(id)]
  }

  lemma Promotes(w: World, id: nat, key: Key)
    requires w.committed.Keys == {key} && w.committed[key] != PRODUCTION && id !in w.txs
    requires forall t :: t in w.txs ==> w.txs[t].writes == map[]
    ensures Reaches(w, Promotion(id, key), World(map[key := TargetOf(w.committed[key])], w.txs))
  {
    var target := TargetOf(w.committed[key]);
    PlansPromotion(w, id, key);
    CarriesOut(w, id, key, target);
    Then(w, [Begin(id), Get(id, key), FindPrevious(id)], Opened(w, id, ToPromote(key, target)),
         [FlushPromotion(id), Commit(id)], World(map[key := target], w.txs));
  }

  /** Exactly one is not kept under concurrency: from a single DRAFT row, one transaction
      reads it and pauses, others take it to SHADOW and on to PRODUCTION, and the first then
      writes SHADOW over it. The family is left with no PRODUCTION version. */
  lemma StalePromotionLosesProduction(key: Key)
    ensures var start := World(map[key := DRAFT], map[]);
            var during := World(map[key := PRODUCTION], map[0 := Tx(map[], ToPromote(key, SHADOW))]);
            var end := World(map[key := SHADOW], map[]);
            && Reaches(start, [Begin(0), Get(0, key), FindPrevious(0)]
                 + (Promotion(1, key) + Promotion(1, key)), during)
            && Reaches(during, [FlushPromotion(0), Commit(0)], end)
            && HasProduction(during.committed, key) && !HasProduction(end.committed, key)
  {
    var start := World(map[key := DRAFT], map[]);
    var paused := Opened(start, 0, ToPromote(key, SHADOW));
    assert paused.txs == map[0 := Tx(map[], ToPromote(key, SHADOW))];
    var shadow := World(map[key := SHADOW], paused.txs);
    var during := World(map[key := PRODUCTION], paused.txs);
    PlansPromotion(start, 0, key);
    Promotes(paused, 1, key);
    Promotes(shadow, 1, key);
    Then(paused, Promotion(1, key), shadow, Promotion(1, key), during);
    Then(start, [Begin(0), Get(0, key), FindPrevious(0)], paused, Promotion(1, key) + Promotion(1, key), during);
    var idle := World(map[key := PRODUCTION], map[]);
    CarriesOut(idle, 0, key, SHADOW);
    assert Opened(idle, 0, ToPromote(key, SHADOW)) == during;
    assert during.committed[key] == PRODUCTION && SameFamily(key, key);
  }
}
