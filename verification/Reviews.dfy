/** The review protocol: rows that change only through guarded single-statement updates.
    Verdict reviews and population finding reviews are two tables of this one shape. */
module Reviews {
  import opened Wrappers

  datatype Status = OPEN | IN_REVIEW | RESOLVED

  datatype Resolution = CONFIRMED | DISMISSED

  /** `subjectId` is the verdict, or the population finding, under review. */
  datatype Review = Review(
    id: string,
    subjectId: string,
    status: Status,
    reviewer: Option<string>,
    resolution: Option<Resolution>,
    notes: Option<string>,
    createdAt: int,
    claimedAt: Option<int>,
    resolvedAt: Option<int>)

  type Table = map<string, Review>

  /** One statement against the table. `notes` is the stored, possibly encrypted, text. */
  datatype Op =
    | Create(id: string, subjectId: string, now: int)
    | Claim(id: string, reviewer: string, now: int)
    | Release(id: string)
    | Resolve(id: string, reviewer: string, resolution: Resolution, notes: string, now: int)

  /** Done changed one row; Skipped is the upsert's silent no-op; Refused is an error. */
  datatype Reply = Done | Skipped | Refused

  predicate Active(r: Review) {
    r.status != RESOLVED
  }

  predicate HasActive(t: Table, subjectId: string) {
    exists id :: id in t && t[id].subjectId == subjectId && Active(t[id])
  }

  predicate InStatus(t: Table, id: string, status: Status) {
    id in t && t[id].status == status
  }

  function Judge(t: Table, op: Op): Reply {
    match op
    case Create(id, subjectId, _) => if HasActive(t, subjectId) then Skipped else if id in t then Refused else Done
    case Claim(id, _, _) => if InStatus(t, id, OPEN) then Done else Refused
    case Release(id) => if InStatus(t, id, IN_REVIEW) then Done else Refused
    case Resolve(id, reviewer, _, _, _) =>
      if InStatus(t, id, IN_REVIEW) && t[id].reviewer == Some(reviewer) then Done else Refused
  }

  function Apply(t: Table, op: Op): Table {
    if Judge(t, op) != Done then t
    else
      match op
      case Create(id, subjectId, now) => t[id := Review(id, subjectId, OPEN, None, None, None, now, None, None)]
      case Claim(id, reviewer, now) =>
        t[id := t[id].(status := IN_REVIEW, reviewer := Some(reviewer), claimedAt := Some(now))]
      case Release(id) => t[id := t[id].(status := OPEN, reviewer := None, claimedAt := None)]
      case Resolve(id, _, resolution, notes, now) =>
        t[id := t[id].(status := RESOLVED, resolution := Some(resolution), notes := Some(notes),
            resolvedAt := Some(now))]
  }

  // ----- What every statement keeps -----

  predicate FieldsMatch(r: Review) {
    && (r.reviewer.Some? <==> r.status != OPEN)
    && (r.claimedAt.Some? <==> r.status != OPEN)
    && (r.resolution.Some? <==> r.status == RESOLVED)
    && (r.notes.Some? <==> r.status == RESOLVED)
    && (r.resolvedAt.Some? <==> r.status == RESOLVED)
  }

  ghost predicate OneActive(t: Table) {
    forall a, b :: a in t && b in t && Active(t[a]) && Active(t[b]) && t[a].subjectId == t[b].subjectId ==> a == b
  }

  ghost predicate TableInv(t: Table) {
    && OneActive(t)
    && forall id :: id in t ==> t[id].id == id && FieldsMatch(t[id])
  }

  lemma ApplyInv(t: Table, op: Op)
    requires TableInv(t)
    ensures TableInv(Apply(t, op))
  {}

  /** A row once RESOLVED is never changed again, by any statement. */
  lemma ApplyKeepsResolved(t: Table, op: Op, id: string)
    requires InStatus(t, id, RESOLVED)
    ensures id in Apply(t, op) && Apply(t, op)[id] == t[id]
  {}

  // ----- Who did it: requests, principals and the log of what succeeded -----

  /** A principal is None when authentication is off. */
  datatype Call =
    | DoCreate(id: string, subjectId: string, now: int)
    | DoClaim(id: string, named: Option<string>, principal: Option<string>, now: int)
    | DoRelease(id: string)
    | DoResolve(id: string, named: Option<string>, principal: Option<string>, resolution: Resolution, notes: string,
                now: int)

  /** `resolve_reviewer`; None is the 422. The result is the authenticated name when there is
      one, and a disagreeing name is refused, never replaced. */
  function ResolveReviewer(named: Option<string>, principal: Option<string>): (r: Option<string>)
    ensures r.Some? ==> named == None || named == r
    ensures r.Some? && principal.Some? ==> r == principal
    ensures r.None? <==> (if principal.None? then named.None? else named.Some? && named != principal)
  {
    match principal
    case None => named
    case Some(name) => if named.Some? && named.value != name then None else Some(name)
  }

  function OpOf(call: Call): Option<Op> {
    match call
    case DoCreate(id, subjectId, now) => Some(Create(id, subjectId, now))
    case DoClaim(id, named, principal, now) =>
      (match ResolveReviewer(named, principal)
       case None => None
       case Some(reviewer) => Some(Claim(id, reviewer, now)))
    case DoRelease(id) => Some(Release(id))
    case DoResolve(id, named, principal, resolution, notes, now) =>
      match ResolveReviewer(named, principal)
      case None => None
      case Some(reviewer) => Some(Resolve(id, reviewer, resolution, notes, now))
  }

  /** What a call that succeeded asked for. */
  datatype Entry =
    | Opened(id: string, subjectId: string, at: int)
    | Claimed(id: string, who: string, principal: Option<string>, at: int)
    | Released(id: string)
    | Closed(id: string, who: string, principal: Option<string>, resolution: Resolution, notes: string, at: int)

  datatype Sys = Sys(table: Table, log: seq<Entry>)

  const EMPTY := Sys(map[], [])

  function EntriesOf(call: Call): seq<Entry> {
    match call
    case DoCreate(id, subjectId, now) => [Opened(id, subjectId, now)]
    case DoClaim(id, named, principal, now) =>
      (match ResolveReviewer(named, principal)
       case None => []
       case Some(reviewer) => [Claimed(id, reviewer, principal, now)])
    case DoRelease(id) => [Released(id)]
    case DoResolve(id, named, principal, resolution, notes, now) =>
      match ResolveReviewer(named, principal)
      case None => []
      case Some(reviewer) => [Closed(id, reviewer, principal, resolution, notes, now)]
  }

  function Handle(s: Sys, call: Call): Sys {
    match OpOf(call)
    case None => s
    case Some(op) =>
      if Judge(s.table, op) == Done then Sys(Apply(s.table, op), s.log + EntriesOf(call)) else s
  }

  function Run(s: Sys, calls: seq<Call>): Sys
    decreases |calls|
  {
    if calls == [] then s else Run(Handle(s, calls[0]), calls[1..])
  }

  function Claims(log: seq<Entry>, id: string): nat {
    if log == [] then 0
    else Claims(log[..|log| - 1], id) + if log[|log| - 1].Claimed? && log[|log| - 1].id == id then 1 else 0
  }

  function Releases(log: seq<Entry>, id: string): nat {
    if log == [] then 0
    else Releases(log[..|log| - 1], id) + if log[|log| - 1].Released? && log[|log| - 1].id == id then 1 else 0
  }

  /** The latest claim of `id` that no release has followed. */
  function Holder(log: seq<Entry>, id: string): (r: Option<Entry>)
    ensures r.Some? ==> r.value.Claimed? && r.value.id == id && r.value in log
  {
    if log == [] then None
    else
      var last := log[|log| - 1];
      if last.id == id && last.Claimed? then Some(last)
      else if last.id == id && last.Released? then None
      else Holder(log[..|log| - 1], id)
  }

  function Closer(log: seq<Entry>, id: string): (r: Option<Entry>)
    ensures r.Some? ==> r.value.Closed? && r.value.id == id && r.value in log
  {
    if log == [] then None
    else
      var last := log[|log| - 1];
      if last.id == id && last.Closed? then Some(last) else Closer(log[..|log| - 1], id)
  }

  function Opener(log: seq<Entry>, id: string): (r: Option<Entry>)
    ensures r.Some? ==> r.value.Opened? && r.value.id == id && r.value in log
  {
    if log == [] then None
    else
      var last := log[|log| - 1];
      if last.id == id && last.Opened? then Some(last) else Opener(log[..|log| - 1], id)
  }

  lemma LogAppend(log: seq<Entry>, e: Entry, id: string)
    ensures var log' := log + [e];
            && Claims(log', id) == Claims(log, id) + (if e.Claimed? && e.id == id then 1 else 0)
            && Releases(log', id) == Releases(log, id) + (if e.Released? && e.id == id then 1 else 0)
            && Holder(log', id) == (if e.id == id && e.Claimed? then Some(e)
                                    else if e.id == id && e.Released? then None else Holder(log, id))
            && Closer(log', id) == (if e.id == id && e.Closed? then Some(e) else Closer(log, id))
            && Opener(log', id) == (if e.id == id && e.Opened? then Some(e) else Opener(log, id))
  {
    assert (log + [e])[..|log|] == log;
  }

  /** With authentication on, claims and resolutions come from principals of that name. */
  predicate EntryOk(authOn: bool, e: Entry) {
    e.Opened? || e.Released? || ((authOn ==> e.principal.Some?) && (e.principal.Some? ==> e.principal.value == e.who))
  }

  predicate CallOk(authOn: bool, call: Call) {
    authOn && (call.DoClaim? || call.DoResolve?) ==> call.principal.Some?
  }

  /** The row was opened as asked, for this subject and at this time. */
  predicate OpenedAs(log: seq<Entry>, r: Review) {
    var opener := Opener(log, r.id);
    opener.Some? && r.subjectId == opener.value.subjectId && r.createdAt == opener.value.at
  }

  /** Its reviewer and time of claim are those of its latest unreleased claim. */
  predicate ClaimedAs(log: seq<Entry>, r: Review) {
    var holder := Holder(log, r.id);
    holder.Some? && r.reviewer == Some(holder.value.who) && r.claimedAt == Some(holder.value.at)
  }

  /** It was resolved by its reviewer, as asked. */
  predicate ClosedAs(log: seq<Entry>, r: Review) {
    var closer := Closer(log, r.id);
    && closer.Some? && r.reviewer == Some(closer.value.who) && r.resolution == Some(closer.value.resolution)
    && r.notes == Some(closer.value.notes) && r.resolvedAt == Some(closer.value.at)
  }

  /** What the log tells about one row. Claims less releases is 1 while the row is held or
      resolved and 0 while it is open; every field is the one the log's last word on it gave. */
  predicate RowStory(t: Table, log: seq<Entry>, id: string) {
    && Claims(log, id) - Releases(log, id) == (if id in t && t[id].status != OPEN then 1 else 0)
    && (id in t ==> t[id].id == id && OpenedAs(log, t[id]))
    && (id in t && t[id].status != OPEN ==> ClaimedAs(log, t[id]))
    && (InStatus(t, id, RESOLVED) ==> ClosedAs(log, t[id]))
  }

  ghost predicate SysInv(authOn: bool, s: Sys) {
    && TableInv(s.table)
    && (forall id :: RowStory(s.table, s.log, id))
    && (forall e :: e in s.log ==> EntryOk(authOn, e))
  }

  lemma CreateStory(t: Table, log: seq<Entry>, e: Entry, id: string)
    requires e.Opened? && Judge(t, Create(e.id, e.subjectId, e.at)) == Done && RowStory(t, log, id)
    ensures RowStory(Apply(t, Create(e.id, e.subjectId, e.at)), log + [e], id)
  {
    LogAppend(log, e, id);
  }

  lemma ClaimStory(t: Table, log: seq<Entry>, e: Entry, id: string)
    requires e.Claimed? && Judge(t, Claim(e.id, e.who, e.at)) == Done && RowStory(t, log, id)
    ensures RowStory(Apply(t, Claim(e.id, e.who, e.at)), log + [e], id)
  {
    LogAppend(log, e, id);
  }

  lemma ReleaseStory(t: Table, log: seq<Entry>, e: Entry, id: string)
    requires e.Released? && Judge(t, Release(e.id)) == Done && RowStory(t, log, id)
    ensures RowStory(Apply(t, Release(e.id)), log + [e], id)
  {
    LogAppend(log, e, id);
  }

  lemma ResolveStory(t: Table, log: seq<Entry>, e: Entry, id: string)
    requires e.Closed? && Judge(t, Resolve(e.id, e.who, e.resolution, e.notes, e.at)) == Done && RowStory(t, log, id)
    ensures RowStory(Apply(t, Resolve(e.id, e.who, e.resolution, e.notes, e.at)), log + [e], id)
  {
    LogAppend(log, e, id);
  }

  /** One row's story goes on to be true: every call logs the one change it makes. */
  lemma RowStoryStep(s: Sys, call: Call, id: string)
    requires OpOf(call).Some? && Judge(s.table, OpOf(call).value) == Done && RowStory(s.table, s.log, id)
    ensures RowStory(Handle(s, call).table, Handle(s, call).log, id)
  {
    var entries := EntriesOf(call);
    match OpOf(call).value
    case Create(_, _, _) => CreateStory(s.table, s.log, entries[0], id);
    case Claim(_, _, _) => ClaimStory(s.table, s.log, entries[0], id);
    case Release(_) => ReleaseStory(s.table, s.log, entries[0], id);
    case Resolve(_, _, _, _, _) => ResolveStory(s.table, s.log, entries[0], id);
  }

  lemma EntriesStep(authOn: bool, call: Call, e: Entry)
    requires CallOk(authOn, call) && e in EntriesOf(call)
    ensures EntryOk(authOn, e)
  {
  }

  lemma HandleInv(authOn: bool, s: Sys, call: Call)
    requires SysInv(authOn, s) && CallOk(authOn, call)
    ensures SysInv(authOn, Handle(s, call))
  {
    var op := OpOf(call);
    if op.Some? && Judge(s.table, op.value) == Done {
      ApplyInv(s.table, op.value);
      var s' := Handle(s, call);
      forall id ensures RowStory(s'.table, s'.log, id) {
        assert RowStory(s.table, s.log, id);
        RowStoryStep(s, call, id);
      }
      forall e | e in s'.log ensures EntryOk(authOn, e) {
        if e !in s.log {
          EntriesStep(authOn, call, e);
        }
      }
    }
  }

  /** Over all runs, with any number of reviewers: at most one active review per subject,
      every row's fields match its status, and every row's story is the one its log tells. */
  lemma {:induction false} RunInv(authOn: bool, s: Sys, calls: seq<Call>)
    requires SysInv(authOn, s) && forall c :: c in calls ==> CallOk(authOn, c)
    ensures SysInv(authOn, Run(s, calls))
    decreases |calls|
  {
    if calls != [] {
      HandleInv(authOn, s, calls[0]);
      RunInv(authOn, Handle(s, calls[0]), calls[1..]);
    }
  }

  /** RESOLVED rows never change, over any run. */
  lemma {:induction false} ResolvedForever(s: Sys, calls: seq<Call>, id: string)
    requires InStatus(s.table, id, RESOLVED)
    ensures id in Run(s, calls).table && Run(s, calls).table[id] == s.table[id]
    decreases |calls|
  {
    if calls != [] {
      if OpOf(calls[0]).Some? {
        ApplyKeepsResolved(s.table, OpOf(calls[0]).value, id);
      }
      ResolvedForever(Handle(s, calls[0]), calls[1..], id);
    }
  }

  /** With authentication on, whoever a RESOLVED row names claimed it last, with no release
      since, and resolved it, both times signed in under that very name. */
  lemma ResolvedByItsReviewer(calls: seq<Call>, id: string)
    requires forall c :: c in calls ==> CallOk(true, c)
    requires InStatus(Run(EMPTY, calls).table, id, RESOLVED)
    ensures var s := Run(EMPTY, calls);
            var (holder, closer) := (Holder(s.log, id), Closer(s.log, id));
            && holder.Some? && holder.value.Claimed? && closer.Some? && closer.value.Closed?
            && holder.value.principal == closer.value.principal == s.table[id].reviewer
            && s.table[id].resolution == Some(closer.value.resolution) && s.table[id].notes == Some(closer.value.notes)
  {
    var s := Run(EMPTY, calls);
    assert SysInv(true, EMPTY);
    RunInv(true, EMPTY, calls);
    assert RowStory(s.table, s.log, id);
  }

  // ----- Every field is what some call asked for -----

  ghost predicate FromCalls(log: seq<Entry>, calls: seq<Call>) {
    && (forall e :: e in log && e.Opened? ==> DoCreate(e.id, e.subjectId, e.at) in calls)
    && (forall e :: e in log && e.Claimed? ==> exists named :: DoClaim(e.id, named, e.principal, e.at) in calls)
    && (forall e :: e in log && e.Closed? ==>
          exists named :: DoResolve(e.id, named, e.principal, e.resolution, e.notes, e.at) in calls)
  }

  lemma HandleFromCalls(s: Sys, calls: seq<Call>, call: Call)
    requires FromCalls(s.log, calls)
    ensures FromCalls(Handle(s, call).log, calls + [call])
  {
    var more := calls + [call];
    assert call in more && forall c :: c in calls ==> c in more;
    match call
    case DoClaim(id, named, principal, now) => assert DoClaim(id, named, principal, now) in more;
    case DoResolve(id, named, principal, resolution, notes, now) =>
      assert DoResolve(id, named, principal, resolution, notes, now) in more;
    case _ =>
  }

  lemma {:induction false} RunFromCalls(s: Sys, before: seq<Call>, calls: seq<Call>)
    requires FromCalls(s.log, before)
    ensures FromCalls(Run(s, calls).log, before + calls)
    decreases |calls|
  {
    if calls == [] {
      assert before + calls == before;
    } else {
      HandleFromCalls(s, before, calls[0]);
      RunFromCalls(Handle(s, calls[0]), before + [calls[0]], calls[1..]);
      assert before + calls == before + [calls[0]] + calls[1..];
    }
  }

  /** Over all runs: a row's subject and creation time are those of a create of it; while it is
      held or resolved, its time of claim is that of a claim of it; and once RESOLVED its
      resolution, notes and time are together those of one call to resolve it. */
  lemma RowsAsAsked(authOn: bool, calls: seq<Call>, id: string)
    requires (forall c :: c in calls ==> CallOk(authOn, c)) && id in Run(EMPTY, calls).table
    ensures var r := Run(EMPTY, calls).table[id];
            && r.id == id && DoCreate(id, r.subjectId, r.createdAt) in calls
            && (r.status != OPEN ==>
                  r.claimedAt.Some? &&
                  exists named, principal :: DoClaim(id, named, principal, r.claimedAt.value) in calls)
            && (r.status == RESOLVED ==>
                  r.resolution.Some? && r.notes.Some? && r.resolvedAt.Some? && exists named, principal ::
                    DoResolve(id, named, principal, r.resolution.value, r.notes.value, r.resolvedAt.value) in calls)
  {
    var s := Run(EMPTY, calls);
    assert SysInv(authOn, EMPTY);
    RunInv(authOn, EMPTY, calls);
    RunFromCalls(EMPTY, [], calls);
    assert [] + calls == calls;
    assert RowStory(s.table, s.log, id);
  }

  predicate Attempts(call: Call, id: string) {
    OpOf(call).Some? && OpOf(call).value.Claim? && call.id == id
  }

  /** A call that succeeds logs its one entry. */
  lemma ClaimsLogged(s: Sys, call: Call, id: string)
    requires OpOf(call).Some? && Judge(s.table, OpOf(call).value) == Done
    ensures |EntriesOf(call)| == 1
    ensures Claims(Handle(s, call).log, id) == Claims(s.log, id) + if Attempts(call, id) then 1 else 0
  {
    LogAppend(s.log, EntriesOf(call)[0], id);
  }

  /** One call other than a release of the row: a claim succeeds on an open row only, and
      then the row is open no more. */
  lemma ClaimStep(s: Sys, call: Call, id: string)
    requires id in s.table && call != DoRelease(id)
    ensures var s' := Handle(s, call);
            && id in s'.table
            && (s'.table[id].status == OPEN <==> s.table[id].status == OPEN && !Attempts(call, id))
            && Claims(s'.log, id) ==
                 Claims(s.log, id) + if s.table[id].status == OPEN && Attempts(call, id) then 1 else 0
  {
    if OpOf(call).Some? && Judge(s.table, OpOf(call).value) == Done {
      ClaimsLogged(s, call, id);
    }
  }

  /** Of any number of racing claims on an open row with no release among them, exactly one
      succeeds; on a row already held, none does. */
  lemma {:induction false} OneClaimWins(s: Sys, calls: seq<Call>, id: string)
    requires id in s.table && forall c :: c in calls ==> c != DoRelease(id)
    ensures Claims(Run(s, calls).log, id) ==
              Claims(s.log, id)
              + if s.table[id].status == OPEN && (exists c :: c in calls && Attempts(c, id)) then 1 else 0
    decreases |calls|
  {
    if calls != [] {
      assert calls == [calls[0]] + calls[1..];
      assert forall c :: c in calls <==> c == calls[0] || c in calls[1..];
      assert calls[0] in calls;
      ClaimStep(s, calls[0], id);
      OneClaimWins(Handle(s, calls[0]), calls[1..], id);
    }
  }
}
