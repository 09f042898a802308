/** The approval queue: rows that leave `pending` by one compare-and-set, and their audit rows. */
module Approvals {
  import opened Prelude

  type Id = nat

  datatype Status = Pending | Approved | Denied | Expired

  datatype Approval = Approval(
    agent: Id, tool: string, status: Status, requestedAt: int,
    decidedAt: Option<int>, decidedBy: Option<string>, expiresAt: int)

  datatype Kind = Requested | Granted | Rejected

  datatype AuditRow = AuditRow(approval: Id, agent: Id, kind: Kind)

  /** Agents are only ever added; `unlogged` are the requests whose handler still waits for its notifications. */
  datatype State = State(agents: set<Id>, rows: map<Id, Approval>, unlogged: set<Id>, audit: seq<AuditRow>)

  const EMPTY_QUEUE := State({}, map[], {}, [])

  datatype Error = ValidationFailed | AgentNotFound | ApprovalNotFound | AlreadyDecided(status: Status) | TimedOut

  datatype Reply = Done(status: Status) | Refused(error: Error)

  // ---- Statements on the table

  /** UPDATE ... WHERE id = ? AND status = 'pending'. */
  function CompareAndSet(rows: map<Id, Approval>, id: Id, to: Status, who: string, now: int): map<Id, Approval> {
    if id in rows && rows[id].status == Pending
    then rows[id := rows[id].(status := to, decidedAt := Some(now), decidedBy := Some(who))]
    else rows
  }

  /** UPDATE ... WHERE status = 'pending' AND expires_at <= ?. */
  function ExpireOld(rows: map<Id, Approval>, now: int): map<Id, Approval> {
    map x | x in rows ::
      if rows[x].status == Pending && rows[x].expiresAt <= now then rows[x].(status := Expired) else rows[x]
  }

  // ---- Handlers as steps. The expiry test and the update that follows it read the clock separately.

  datatype Event =
    | AgentAdded(agent: Id)
    | Create(id: Id, agent: Id, tool: string, timeoutSeconds: int, at: int)
    | Notified(id: Id)
    | Decide(id: Id, approve: bool, who: string, checked: int, at: int)
    | Get(id: Id, checked: int, at: int)
    | ListPending(at: int)

  predicate ValidRequest(tool: string, timeoutSeconds: int) {
    tool != "" && 10 <= timeoutSeconds <= 3600
  }

  predicate Accepts(s: State, id: Id, agent: Id, tool: string, timeoutSeconds: int) {
    ValidRequest(tool, timeoutSeconds) && agent in s.agents && id !in s.rows
  }

  /** The request handler up to its wait: the row is there, its audit row is not. */
  function CreateStep(s: State, id: Id, agent: Id, tool: string, timeoutSeconds: int, now: int): State {
    if !Accepts(s, id, agent, tool, timeoutSeconds) then s
    else
      var row := Approval(agent, tool, Pending, now, None, None, now + timeoutSeconds * 1000);
      s.(rows := ExpireOld(s.rows, now)[id := row], unlogged := s.unlogged + {id})
  }

  function NotifiedStep(s: State, id: Id): State {
    if id !in s.unlogged || id !in s.rows then s
    else s.(unlogged := s.unlogged - {id}, audit := s.audit + [AuditRow(id, s.rows[id].agent, Requested)])
  }

  /** Approve, deny and the Slack action alike. */
  function DecideStep(s: State, id: Id, approve: bool, who: string, checked: int, now: int): State {
    if id !in s.rows || s.rows[id].status != Pending then s
    else if s.rows[id].expiresAt <= checked then s.(rows := CompareAndSet(s.rows, id, Expired, "system", now))
    else
      var to := if approve then Approved else Denied;
      s.(rows := CompareAndSet(s.rows, id, to, who, now),
         audit := if s.rows[id].agent in s.agents
                  then s.audit + [AuditRow(id, s.rows[id].agent, if approve then Granted else Rejected)]
                  else s.audit)
  }

  function GetStep(s: State, id: Id, checked: int, now: int): State {
    if id in s.rows && s.rows[id].status == Pending && s.rows[id].expiresAt <= checked
    then s.(rows := CompareAndSet(s.rows, id, Expired, "system", now)) else s
  }

  function Step(s: State, e: Event): State {
    match e
    case AgentAdded(a) => s.(agents := s.agents + {a})
    case Create(id, agent, tool, timeout, now) => CreateStep(s, id, agent, tool, timeout, now)
    case Notified(id) => NotifiedStep(s, id)
    case Decide(id, approve, who, checked, now) => DecideStep(s, id, approve, who, checked, now)
    case Get(id, checked, now) => GetStep(s, id, checked, now)
    case ListPending(now) => s.(rows := ExpireOld(s.rows, now))
  }

  function Run(s: State, events: seq<Event>): State
    decreases |events|
  {
    if events == [] then s else Run(Step(s, events[0]), events[1..])
  }

  // ---- What a step does, on the columns

  /** What becomes of a pending row: it expires exactly when its expiry is reached, by the reading taken, in a poll of it, a
      decision on it, the listing or an accepted request; it is decided exactly by a decision on it before its expiry; and
      else it stays as it is. */
  lemma PendingRowAfter(s: State, e: Event, id: Id)
    requires id in s.rows && s.rows[id].status == Pending
    ensures var r, due := s.rows[id], (now: int) => s.rows[id].expiresAt <= now;
            && id in Step(s, e).rows
            && var r' := Step(s, e).rows[id];
               && r'.agent == r.agent && r'.tool == r.tool && r'.requestedAt == r.requestedAt && r'.expiresAt == r.expiresAt
               && (r'.status == Expired <==>
                     || (e.Get? && e.id == id && due(e.checked))
                     || (e.Decide? && e.id == id && due(e.checked))
                     || (e.ListPending? && due(e.at))
                     || (e.Create? && due(e.at) && e.tool != "" && 10 <= e.timeoutSeconds <= 3600 && e.agent in s.agents
                         && e.id !in s.rows))
               && (r'.status == Approved <==> e.Decide? && e.id == id && !due(e.checked) && e.approve)
               && (r'.status == Denied <==> e.Decide? && e.id == id && !due(e.checked) && !e.approve)
               && (r'.status in {Approved, Denied} ==> r'.decidedAt == Some(e.at) && r'.decidedBy == Some(e.who))
               && (r'.status == Expired && (e.Get? || e.Decide?) ==>
                     r'.decidedAt == Some(e.at) && r'.decidedBy == Some("system"))
               && (r'.status == Expired && (e.ListPending? || e.Create?) ==>
                     r'.decidedAt == r.decidedAt && r'.decidedBy == r.decidedBy)
               && (r'.status == Pending ==> r' == r)
  {
  }

  /** Every other row: a decided or expired one stays as it is, and a new one is a request's, pending from then on for the
      time asked for. */
  lemma OtherRowsAfter(s: State, e: Event, id: Id)
    ensures id in s.rows && s.rows[id].status != Pending ==> id in Step(s, e).rows && Step(s, e).rows[id] == s.rows[id]
    ensures id !in s.rows && id in Step(s, e).rows <==>
            && id !in s.rows && e.Create? && e.id == id && e.tool != "" && 10 <= e.timeoutSeconds <= 3600
            && e.agent in s.agents
    ensures id !in s.rows && id in Step(s, e).rows ==>
              && e.Create?
              && Step(s, e).rows[id] == Approval(e.agent, e.tool, Pending, e.at, None, None, e.at + e.timeoutSeconds * 1000)
  {
  }

  // ---- Invariant

  function Count(audit: seq<AuditRow>, id: Id, kind: Kind): nat {
    if audit == [] then 0
    else Count(audit[..|audit| - 1], id, kind)
         + if audit[|audit| - 1].approval == id && audit[|audit| - 1].kind == kind then 1 else 0
  }

  /** The audit rows an approval in this status has, once its request has been logged. */
  predicate Logged(audit: seq<AuditRow>, id: Id, row: Option<Approval>, waiting: bool) {
    && Count(audit, id, Requested) == (if row.Some? && !waiting then 1 else 0)
    && Count(audit, id, Granted) == (if row.Some? && row.value.status == Approved then 1 else 0)
    && Count(audit, id, Rejected) == (if row.Some? && row.value.status == Denied then 1 else 0)
  }

  function Row(s: State, id: Id): Option<Approval> {
    if id in s.rows then Some(s.rows[id]) else None
  }

  /** Approved and denied approvals were decided by someone; pending ones by nobody yet. */
  predicate RowOk(s: State, r: Approval) {
    && r.agent in s.agents
    && (r.status in {Approved, Denied} ==> r.decidedAt.Some? && r.decidedBy.Some?)
    && (r.status == Pending ==> r.decidedAt.None? && r.decidedBy.None?)
  }

  ghost predicate Inv(s: State) {
    RowsOk(s) && AllLogged(s) && Attributed(s)
  }

  ghost predicate RowsOk(s: State) {
    (forall id <- s.rows :: RowOk(s, s.rows[id])) && s.unlogged <= s.rows.Keys
  }

  ghost predicate AllLogged(s: State) {
    forall id :: Logged(s.audit, id, Row(s, id), id in s.unlogged)
  }

  /** Every audit row is about an approval and names its agent. */
  ghost predicate Attributed(s: State) {
    forall r <- s.audit :: r.approval in s.rows && r.agent == s.rows[r.approval].agent
  }

  lemma CountSnoc(audit: seq<AuditRow>, r: AuditRow, id: Id, kind: Kind)
    ensures Count(audit + [r], id, kind) == Count(audit, id, kind) + if r.approval == id && r.kind == kind then 1 else 0
  {
    assert (audit + [r])[..|audit|] == audit;
  }

  lemma AppendLogged(audit: seq<AuditRow>, r: AuditRow)
    ensures forall id, kind :: Count(audit + [r], id, kind)
                               == Count(audit, id, kind) + if r.approval == id && r.kind == kind then 1 else 0
  {
    forall id, kind ensures Count(audit + [r], id, kind)
                            == Count(audit, id, kind) + if r.approval == id && r.kind == kind then 1 else 0 {
      CountSnoc(audit, r, id, kind);
    }
  }

  lemma StepKeepsAttributed(s: State, e: Event)
    requires Attributed(s)
    ensures Attributed(Step(s, e))
  {
    assert forall id <- s.rows :: id in Step(s, e).rows && Step(s, e).rows[id].agent == s.rows[id].agent;
  }

  lemma StepKeepsRowsOk(s: State, e: Event)
    requires RowsOk(s)
    ensures RowsOk(Step(s, e))
  {
  }

  lemma StepKeepsLogged(s: State, e: Event)
    requires RowsOk(s) && AllLogged(s)
    ensures AllLogged(Step(s, e))
  {
    hide Count;
    var s' := Step(s, e);
    if |s'.audit| > |s.audit| {
      AppendLogged(s.audit, s'.audit[|s.audit|]);
      assert s'.audit == s.audit + [s'.audit[|s.audit|]];
    }
    forall id ensures Logged(s'.audit, id, Row(s', id), id in s'.unlogged) {
      assert Logged(s.audit, id, Row(s, id), id in s.unlogged);
    }
  }

  lemma StepKeepsInv(s: State, e: Event)
    requires Inv(s)
    ensures Inv(Step(s, e))
  {
    StepKeepsRowsOk(s, e);
    StepKeepsLogged(s, e);
    StepKeepsAttributed(s, e);
  }

  /** Once it has left `pending`, a row never changes again. */
  lemma {:induction false} DecidedIsFinal(s: State, events: seq<Event>, id: Id)
    requires id in s.rows && s.rows[id].status != Pending
    ensures id in Run(s, events).rows && Run(s, events).rows[id] == s.rows[id]
    decreases |events|
  {
    if events != [] {
      DecidedIsFinal(Step(s, events[0]), events[1..], id);
    }
  }

  lemma {:induction false} RunKeepsInv(s: State, events: seq<Event>)
    requires Inv(s)
    ensures Inv(Run(s, events))
    decreases |events|
  {
    if events != [] {
      StepKeepsInv(s, events[0]);
      RunKeepsInv(Step(s, events[0]), events[1..]);
    }
  }

  /** Over any run: a decision row exists exactly for a decided approval, exactly once; a request is logged exactly
      once, unless its handler is still waiting. */
  lemma DecisionsAreLoggedOnce(events: seq<Event>, id: Id)
    ensures var s := Run(EMPTY_QUEUE, events);
            && Count(s.audit, id, Granted) == (if id in s.rows && s.rows[id].status == Approved then 1 else 0)
            && Count(s.audit, id, Rejected) == (if id in s.rows && s.rows[id].status == Denied then 1 else 0)
            && Count(s.audit, id, Requested) == (if id in s.rows && id !in s.unlogged then 1 else 0)
            && (forall r <- s.audit :: r.approval in s.rows && r.agent == s.rows[r.approval].agent)
  {
    assert Inv(EMPTY_QUEUE);
    RunKeepsInv(EMPTY_QUEUE, events);
    var s := Run(EMPTY_QUEUE, events);
    assert Logged(s.audit, id, Row(s, id), id in s.unlogged);
  }

  lemma {:induction false} RunAppend(s: State, a: seq<Event>, b: seq<Event>)
    ensures Run(s, a + b) == Run(Run(s, a), b)
    decreases |a|
  {
    if a == [] {
      assert a + b == b;
    } else {
      assert (a + b)[1..] == a[1..] + b;
      RunAppend(Step(s, a[0]), a[1..], b);
    }
  }

  lemma RunLast(s: State, events: seq<Event>)
    requires events != []
    ensures Run(s, events) == Step(Run(s, events[..|events| - 1]), events[|events| - 1])
  {
    var last := [events[|events| - 1]];
    assert events == events[..|events| - 1] + last && last[1..] == [];
    RunAppend(s, events[..|events| - 1], last);
  }

  /** Event `i` is the decision that the row shows: made in time by the reading it was compared with, on a row that was
      still pending, and stamped by a later reading. */
  ghost predicate DecidedAt(events: seq<Event>, i: int, id: Id, row: Approval) {
    && 0 <= i < |events| && events[i].Decide? && events[i].id == id
    && row.status == (if events[i].approve then Approved else Denied)
    && row.decidedBy == Some(events[i].who) && row.decidedAt == Some(events[i].at)
    && events[i].checked < row.expiresAt
    && var before := Run(EMPTY_QUEUE, events[..i]); id in before.rows && before.rows[id].status == Pending
  }

  /** Every approved or denied row was decided by one event of the run, in time by that event's own test. */
  lemma {:induction false} DecisionsAreInTime(events: seq<Event>, id: Id)
    requires var s := Run(EMPTY_QUEUE, events); id in s.rows && s.rows[id].status in {Approved, Denied}
    ensures exists i :: DecidedAt(events, i, id, Run(EMPTY_QUEUE, events).rows[id])
  {
    if events != [] {
      var n := |events| - 1;
      var init, e := events[..n], events[n];
      RunLast(EMPTY_QUEUE, events);
      var s := Run(EMPTY_QUEUE, init);
      if id in s.rows && s.rows[id].status in {Approved, Denied} {
        DecisionsAreInTime(init, id);
        var i :| DecidedAt(init, i, id, s.rows[id]);
        assert init[..i] == events[..i];
        assert DecidedAt(events, i, id, Run(EMPTY_QUEUE, events).rows[id]);
      } else {
        assert DecidedAt(events, n, id, Run(EMPTY_QUEUE, events).rows[id]);
      }
    }
  }

  /** Event `i` expired the row: it found it pending, and the reading it took had reached the expiry. */
  ghost predicate ExpiredBy(events: seq<Event>, i: int, id: Id, row: Approval) {
    && 0 <= i < |events|
    && (match events[i]
        case Get(x, checked, _) => x == id && row.expiresAt <= checked
        case Decide(x, _, _, checked, _) => x == id && row.expiresAt <= checked
        case ListPending(at) => row.expiresAt <= at
        case Create(_, _, _, _, at) => row.expiresAt <= at
        case _ => false)
    && var before := Run(EMPTY_QUEUE, events[..i]);
       id in before.rows && before.rows[id].status == Pending && before.rows[id].expiresAt == row.expiresAt
  }

  /** No row expires early: every expired row was expired by one event of the run, whose reading had reached its expiry. */
  lemma {:induction false} ExpiriesAreDue(events: seq<Event>, id: Id)
    requires var s := Run(EMPTY_QUEUE, events); id in s.rows && s.rows[id].status == Expired
    ensures exists i :: ExpiredBy(events, i, id, Run(EMPTY_QUEUE, events).rows[id])
  {
    if events != [] {
      var n := |events| - 1;
      var init, e := events[..n], events[n];
      RunLast(EMPTY_QUEUE, events);
      var s := Run(EMPTY_QUEUE, init);
      OtherRowsAfter(s, e, id);
      if id in s.rows && s.rows[id].status == Expired {
        ExpiriesAreDue(init, id);
        var i :| ExpiredBy(init, i, id, s.rows[id]);
        assert init[..i] == events[..i];
        assert ExpiredBy(events, i, id, Run(EMPTY_QUEUE, events).rows[id]);
      } else {
        PendingRowAfter(s, e, id);
        hide Step;
        assert ExpiredBy(events, n, id, Run(EMPTY_QUEUE, events).rows[id]);
      }
    }
  }

  /** The stamp itself may lie beyond the expiry: the update reads the clock after the test has. */
  lemma LateStampsExist()
    ensures var s := Run(EMPTY_QUEUE, [AgentAdded(0), Create(1, 0, "t", 10, 0), Event.Decide(1, true, "a", 9999, 10001)]);
            && 1 in s.rows && s.rows[1].status == Approved
            && s.rows[1].expiresAt == 10000 && s.rows[1].decidedAt == Some(10001)
  {
    var a, b, c := AgentAdded(0), Create(1, 0, "t", 10, 0), Event.Decide(1, true, "a", 9999, 10001);
    assert [a, b, c][1..] == [b, c] && [b, c][1..] == [c] && [c][1..] == [];
    var s1 := Step(EMPTY_QUEUE, a);
    var s2 := Step(s1, b);
    var s3 := Step(s2, c);
    assert Run(EMPTY_QUEUE, [a, b, c]) == Run(s1, [b, c]) == Run(s2, [c]) == Run(s3, []) == s3;
  }

  /** What a row was requested for never changes. */
  lemma {:induction false} RequestIsFinal(s: State, events: seq<Event>, id: Id)
    requires id in s.rows
    ensures var r := Run(s, events).rows;
            id in r && r[id].agent == s.rows[id].agent && r[id].tool == s.rows[id].tool && r[id].expiresAt == s.rows[id].expiresAt
    decreases |events|
  {
    if events != [] {
      RequestIsFinal(Step(s, events[0]), events[1..], id);
    }
  }

  /** The row of an accepted request is for that agent and that tool at the end of the run. */
  lemma RequestedRow(events: seq<Event>, j: int, id: Id, agent: Id, tool: string, timeoutSeconds: int, at: int)
    requires 0 <= j < |events| && events[j] == Create(id, agent, tool, timeoutSeconds, at)
    requires Accepts(Run(EMPTY_QUEUE, events[..j]), id, agent, tool, timeoutSeconds)
    ensures var r := Run(EMPTY_QUEUE, events).rows; id in r && r[id].agent == agent && r[id].tool == tool
  {
    var before, after := events[..j], events[j + 1..];
    assert events == before + [events[j]] + after && [events[j]][1..] == [];
    RunAppend(EMPTY_QUEUE, before, [events[j]]);
    RunAppend(EMPTY_QUEUE, before + [events[j]], after);
    RequestIsFinal(Run(EMPTY_QUEUE, before + [events[j]]), after, id);
  }

  // ---- The queue itself

  class ApprovalQueue {
    var agents: set<Id>
    var rows: map<Id, Approval>
    var audit: seq<AuditRow>
    var nextUuid: Id
    /** The requests whose handler waits for its notifications. */
    var unlogged: set<Id>

    ghost function Now(): State
      reads this
    {
      State(agents, rows, unlogged, audit)
    }

    ghost predicate Valid()
      reads this
    {
      Inv(Now()) && forall id <- rows :: id < nextUuid
    }

    constructor ()
      ensures Valid() && Now() == EMPTY_QUEUE
    {
      agents, rows, unlogged, audit, nextUuid := {}, map[], {}, [], 0;
      new;
      assert Inv(EMPTY_QUEUE);
    }

    method UpdateApprovalStatus(id: Id, to: Status, who: string, now: int) returns (updated: bool)
      modifies `rows
      ensures rows == CompareAndSet(old(rows), id, to, who, now)
      ensures updated <==> id in old(rows) && old(rows)[id].status == Pending
      ensures updated ==> rows == old(rows)[id := old(rows)[id].(status := to, decidedAt := Some(now), decidedBy := Some(who))]
      ensures !updated ==> rows == old(rows)
    {
      updated := id in rows && rows[id].status == Pending;
      if updated {
        rows := rows[id := rows[id].(status := to, decidedAt := Some(now), decidedBy := Some(who))];
      }
    }

    method ExpireOldApprovals(now: int)
      modifies `rows
      ensures rows == ExpireOld(old(rows), now)
      ensures rows.Keys == old(rows).Keys
      ensures forall x <- old(rows) :: var r := old(rows)[x];
                && (r.status == Pending && r.expiresAt <= now ==> rows[x] == r.(status := Expired))
                && (r.status != Pending || now < r.expiresAt ==> rows[x] == r)
    {
      rows := map x | x in rows ::
        if rows[x].status == Pending && rows[x].expiresAt <= now then rows[x].(status := Expired) else rows[x];
    }

    /** POST /api/v1/approvals, up to the notifications. */
    method Request(agent: Id, tool: string, timeoutSeconds: int, now: int) returns (r: Reply, id: Id)
      requires Valid()
      modifies this
      ensures Valid()
      ensures r == if tool == "" || timeoutSeconds < 10 || 3600 < timeoutSeconds then Reply.Refused(ValidationFailed)
                   else if agent !in agents then Reply.Refused(AgentNotFound) else Done(Pending)
      ensures r.Refused? ==> Now() == old(Now())
      ensures r.Done? ==> id !in old(rows) && Now() == Step(old(Now()), Create(id, agent, tool, timeoutSeconds, now))
                          && id in rows && id in unlogged
                          && rows[id] == Approval(agent, tool, Pending, now, None, None, now + timeoutSeconds * 1000)
      ensures r.Done? ==> forall x <- old(rows) :: x in rows && var row := old(rows)[x];
                && (row.status == Pending && row.expiresAt <= now ==> rows[x] == row.(status := Expired))
                && (row.status != Pending || now < row.expiresAt ==> rows[x] == row)
    {
      id := nextUuid;
      if tool == "" || timeoutSeconds < 10 || timeoutSeconds > 3600 { return Reply.Refused(ValidationFailed), id; }
      if agent !in agents { return Reply.Refused(AgentNotFound), id; }
      StepKeepsInv(Now(), Create(id, agent, tool, timeoutSeconds, now));
      hide Inv;
      ExpireOldApprovals(now);
      nextUuid := nextUuid + 1;
      rows := rows[id := Approval(agent, tool, Pending, now, None, None, now + timeoutSeconds * 1000)];
      unlogged := unlogged + {id};
      return Done(Pending), id;
    }

    /** The rest of the request's handler, after the notifications. */
    method LogRequest(id: Id)
      requires Valid() && id in unlogged
      modifies this
      ensures Valid() && Now() == Step(old(Now()), Notified(id))
      ensures Count(audit, id, Requested) == 1
    {
      StepKeepsInv(Now(), Notified(id));
      unlogged, audit := unlogged - {id}, audit + [AuditRow(id, rows[id].agent, Requested)];
      assert Logged(audit, id, Row(Now(), id), id in unlogged);
    }

    method Decide(id: Id, approve: bool, who: string, checked: int, now: int) returns (r: Reply)
      requires Valid()
      modifies this
      ensures Valid() && Now() == Step(old(Now()), Event.Decide(id, approve, who, checked, now))
      ensures r.Done? <==> id in old(rows) && old(rows)[id].status == Pending && checked < old(rows)[id].expiresAt
      ensures r.Done? ==> r.status == (if approve then Approved else Denied)
                          && rows == old(rows)[id := old(rows)[id].(status := r.status, decidedAt := Some(now),
                                                                    decidedBy := Some(who))]
      ensures id !in old(rows) ==> r == Reply.Refused(ApprovalNotFound) && rows == old(rows)
      ensures id in old(rows) && old(rows)[id].status != Pending ==>
                r == Reply.Refused(AlreadyDecided(old(rows)[id].status)) && rows == old(rows)
      ensures id in old(rows) && old(rows)[id].status == Pending && old(rows)[id].expiresAt <= checked ==>
                && r == Reply.Refused(TimedOut) && audit == old(audit)
                && rows == old(rows)[id := old(rows)[id].(status := Expired, decidedAt := Some(now), decidedBy := Some("system"))]
    {
      StepKeepsInv(Now(), Event.Decide(id, approve, who, checked, now));
      hide Inv;
      if id !in rows { return Reply.Refused(ApprovalNotFound); }
      var a := rows[id];
      if a.status != Pending { return Reply.Refused(AlreadyDecided(a.status)); }
      if a.expiresAt <= checked {
        var _ := UpdateApprovalStatus(id, Expired, "system", now);
        return Reply.Refused(TimedOut);
      }
      var to := if approve then Approved else Denied;
      var updated := UpdateApprovalStatus(id, to, who, now);
      if a.agent in agents {
        audit := audit + [AuditRow(id, a.agent, if approve then Granted else Rejected)];
      }
      return Done(to);
    }

    method Poll(id: Id, checked: int, now: int) returns (r: Reply)
      requires Valid()
      modifies this
      ensures Valid() && Now() == Step(old(Now()), Get(id, checked, now))
      ensures r == if id in rows then Done(rows[id].status) else Reply.Refused(ApprovalNotFound)
      ensures rows.Keys == old(rows).Keys && (forall x <- rows :: x != id ==> rows[x] == old(rows)[x])
      ensures id in rows ==>
                var was := old(rows)[id];
                && (rows[id].status == Expired <==>
                    was.status == Expired || (was.status == Pending && was.expiresAt <= checked))
                && (was.status == Pending && was.expiresAt <= checked ==>
                    rows[id] == was.(status := Expired, decidedAt := Some(now), decidedBy := Some("system")))
                && (was.status != Pending || checked < was.expiresAt ==> rows[id] == was)
      ensures audit == old(audit) && agents == old(agents) && unlogged == old(unlogged)
    {
      StepKeepsInv(Now(), Get(id, checked, now));
      hide Inv;
      if id !in rows { return Reply.Refused(ApprovalNotFound); }
      if rows[id].status == Pending && rows[id].expiresAt <= checked {
        var _ := UpdateApprovalStatus(id, Expired, "system", now);
      }
      return Done(rows[id].status);
    }
  }

  // ---- The sidecar's side

  datatype PollReply = NoAnswer | Answer(status: Status)

  datatype Outcome = OutcomeApproved | OutcomeDenied | OutcomeExpired | OutcomeTimeout

  /** Reply `i` is the first that is an answer other than `pending`, and it is `status`. */
  predicate FirstAnswer(replies: seq<PollReply>, i: int, status: Status) {
    && 0 <= i < |replies| && replies[i] == Answer(status) && status != Pending
    && forall j :: 0 <= j < i ==> replies[j] in {NoAnswer, Answer(Pending)}
  }

  /** What the sidecar makes of the replies that arrive before its deadline: the first final one counts. */
  function FirstFinal(replies: seq<PollReply>): (o: Outcome)
    ensures o == OutcomeTimeout <==> forall p <- replies :: p in {NoAnswer, Answer(Pending)}
    ensures o != OutcomeTimeout ==> exists i :: FirstAnswer(replies, i, Final(o))
  {
    if replies == [] then OutcomeTimeout
    else
      assert replies[0] in replies && forall p :: p in replies <==> p == replies[0] || p in replies[1..];
      assert replies[0] in {NoAnswer, Answer(Pending)} ==>
          forall i, t :: FirstAnswer(replies[1..], i, t) ==> FirstAnswer(replies, i + 1, t);
      match replies[0]
      case Answer(Approved) => assert FirstAnswer(replies, 0, Final(OutcomeApproved)); OutcomeApproved
      case Answer(Denied) => assert FirstAnswer(replies, 0, Final(OutcomeDenied)); OutcomeDenied
      case Answer(Expired) => assert FirstAnswer(replies, 0, Final(OutcomeExpired)); OutcomeExpired
      case Answer(Pending) => FirstFinal(replies[1..])
      case NoAnswer => FirstFinal(replies[1..])
  }

  /** Which replies give which outcome. */
  lemma FirstFinalExactly(replies: seq<PollReply>)
    ensures var o := FirstFinal(replies);
            && (o == OutcomeApproved <==> exists i :: FirstAnswer(replies, i, Approved))
            && (o == OutcomeDenied <==> exists i :: FirstAnswer(replies, i, Denied))
            && (o == OutcomeExpired <==> exists i :: FirstAnswer(replies, i, Expired))
            && (o == OutcomeTimeout <==> forall p <- replies :: p == NoAnswer || p == Answer(Pending))
  {
    forall i, j, t, u | FirstAnswer(replies, i, t) && FirstAnswer(replies, j, u) ensures t == u {
      assert i == j;
    }
    assert forall i, t :: FirstAnswer(replies, i, t) ==> replies[i] in replies;
  }

  /** `None` if the request was not accepted. */
  function PollOutcome(polls: Option<seq<PollReply>>): Outcome {
    if polls.None? then OutcomeTimeout else FirstFinal(polls.value)
  }

  /** Poll until a final status is seen. */
  method RequestAndPoll(polls: Option<seq<PollReply>>) returns (o: Outcome)
    ensures o == PollOutcome(polls)
    ensures o == OutcomeApproved <==> polls.Some? && exists i :: FirstAnswer(polls.value, i, Approved)
  {
    if polls.Some? { FirstFinalExactly(polls.value); }
    if polls.None? { return OutcomeTimeout; }
    var replies := polls.value;
    for i := 0 to |replies|
      invariant FirstFinal(replies) == FirstFinal(replies[i..])
    {
      assert replies[i..][1..] == replies[i + 1..];
      match replies[i] {
        case NoAnswer =>
        case Answer(Approved) => return OutcomeApproved;
        case Answer(Denied) => return OutcomeDenied;
        case Answer(Expired) => return OutcomeExpired;
        case Answer(Pending) =>
      }
    }
    return OutcomeTimeout;
  }

  function Final(o: Outcome): Status {
    match o
    case OutcomeApproved => Approved
    case OutcomeDenied => Denied
    case OutcomeExpired => Expired
    case OutcomeTimeout => Pending
  }

  /** Poll `i` arrived after the first `at[i]` events of the run and, if it was answered, read the row then. */
  ghost predicate PolledDuring(events: seq<Event>, id: Id, polls: seq<PollReply>, at: seq<nat>) {
    && |at| == |polls| && (forall i :: 0 <= i < |at| ==> at[i] <= |events|)
    && forall i :: 0 <= i < |polls| && polls[i].Answer? ==>
         var s := Run(EMPTY_QUEUE, events[..at[i]]); id in s.rows && polls[i] == Answer(s.rows[id].status)
  }

  /** A final answer is the row's status for good: whatever the registry did around the polls, an outcome of
      `approved` means that the row is approved, was approved by an event of the run that was in time, and has exactly
      one audit row saying so and none saying the opposite; likewise for the other two answers. */
  lemma OutcomeIsTheRowsStatus(events: seq<Event>, id: Id, polls: seq<PollReply>, at: seq<nat>)
    requires PolledDuring(events, id, polls, at) && FirstFinal(polls) != OutcomeTimeout
    ensures var s, o := Run(EMPTY_QUEUE, events), FirstFinal(polls);
            && id in s.rows && s.rows[id].status == Final(o)
            && Count(s.audit, id, Granted) == (if o == OutcomeApproved then 1 else 0)
            && Count(s.audit, id, Rejected) == (if o == OutcomeDenied then 1 else 0)
            && (o in {OutcomeApproved, OutcomeDenied} ==> exists i :: DecidedAt(events, i, id, s.rows[id]))
  {
    hide Inv, Count, DecidedAt;
    var o := FirstFinal(polls);
    var i :| FirstAnswer(polls, i, Final(o));
    var before, after := events[..at[i]], events[at[i]..];
    assert events == before + after;
    RunAppend(EMPTY_QUEUE, before, after);
    DecidedIsFinal(Run(EMPTY_QUEUE, before), after, id);
    DecisionsAreLoggedOnce(events, id);
    if o in {OutcomeApproved, OutcomeDenied} { DecisionsAreInTime(events, id); }
  }
}
