/**
 The registry's database operations and handlers over one shared, mutable agents table, each
 proved against the step of `RegistrySpec` it performs.
 */
module RegistryDb {
  import opened Prelude
  import opened Agents
  import opened RegistrySpec
  import opened RegistryRuns
  import RegistryEffects

  datatype Reply<+T> = Ok(value: T) | Err(error: Error)

  datatype Action =
    | Issued | Delegated | RowRevoked | AutoExpired | MarkedStale | RowDeprovisioned | HumanDeprovisioned
    | HumanDeparted
    | TokenRotated | CallAllowed(tool: string) | CallBlocked(tool: string, reason: Reason)

  datatype AuditEvent = AuditEvent(agent: Id, email: string, action: Action, at: int)

  datatype Grant = Grant(agent: Id, jti: Id, scope: seq<string>)

  /** One audit row per agent, in the order given, each with the agent's own email. */
  function AuditRows(t: Table, ids: seq<Id>, action: Action, now: int): seq<AuditEvent>
    requires forall x <- ids :: x in t
  {
    if ids == [] then []
    else
      var last := ids[|ids| - 1];
      AuditRows(t, ids[..|ids| - 1], action, now) + [AuditEvent(last, t[last].human.email, action, now)]
  }

  lemma {:induction false} AuditRowsExactly(t: Table, ids: seq<Id>, action: Action, now: int)
    requires forall x <- ids :: x in t
    ensures |AuditRows(t, ids, action, now)| == |ids|
    ensures forall i :: 0 <= i < |ids| ==>
              AuditRows(t, ids, action, now)[i] == AuditEvent(ids[i], t[ids[i]].human.email, action, now)
  {
    if ids != [] {
      AuditRowsExactly(t, ids[..|ids| - 1], action, now);
    }
  }

  /** The table with the listed rows moved to `status`. */
  function Flip(t: Table, ids: seq<Id>, status: Status): Table {
    map x | x in t :: if x in ids then t[x].(status := status) else t[x]
  }

  function Due(t: Table, now: int): set<Id> {
    set x | x in t && Expirable(t[x], now)
  }

  function StaleSet(t: Table, cutoff: int): set<Id> {
    set x | x in t && LooksStale(t[x], cutoff)
  }

  lemma FlipKeepsShape(t: Table, ids: seq<Id>, status: Status)
    requires Forest(t)
    ensures var u := Flip(t, ids, status); Forest(u) && forall b, a :: b in t ==> Under(t, a, b) == Under(u, a, b)
  {
    assert SameShape(t, Flip(t, ids, status));
    SameShapeForest(t, Flip(t, ids, status));
  }

  lemma FlipAll(t: Table, ids: seq<Id>, now: int, cutoff: int)
    ensures Enumerates(ids, Due(t, now)) ==> Flip(t, ids, Expired) == ExpireDue(t, now)
    ensures Enumerates(ids, StaleSet(t, cutoff)) ==> Flip(t, ids, Stale) == MarkStale(t, cutoff)
  {
  }

  /** Whatever is active below a due agent is due itself. */
  lemma BelowDueIsDue(t: Table, a: Id, b: Id, now: int)
    requires TreeOk(t) && b in t && Under(t, a, b) && a in Due(t, now) && t[b].status == Active
    ensures b in Due(t, now)
  {
    AncestorFacts(t, a, b);
  }

  class Registry {
    var agents: Table
    var tokens: map<Id, Token>
    var audit: seq<AuditEvent>
    var nextUuid: Id

    ghost function Now(): State
      reads `agents, `tokens
    {
      State(agents, tokens)
    }

    ghost predicate Valid()
      reads `agents, `tokens, `nextUuid
    {
      Inv(Now()) && (forall x <- agents :: x < nextUuid) && (forall j <- tokens :: j < nextUuid)
    }

    constructor ()
      ensures Valid() && Now() == EMPTY_REGISTRY && audit == []
    {
      agents, tokens, audit, nextUuid := map[], map[], [], 0;
    }

    /** `uuidv7`: a value never handed out before. */
    method NewUuid() returns (id: Id)
      modifies `nextUuid
      ensures id == old(nextUuid) && nextUuid == id + 1
    {
      id := nextUuid;
      nextUuid := nextUuid + 1;
    }

    // ---- Database operations

    /** The recursive query: a work list of rows whose children are still to be joined. It ends, and
        yields every proper descendant once, because the table is a forest. */
    method FindDescendants(a: Id) returns (ids: seq<Id>)
      requires Forest(agents)
      ensures Enumerates(ids, Descendants(agents, a))
    {
      hide Forest, Under, Descendants;
      ids := [];
      var queue: seq<Id> := Select<Id>(set b | b in agents && agents[b].parent == Some(a));
      WorkStart(agents, a, queue);
      while queue != []
        invariant WorkList(agents, a, ids, queue)
        decreases |Descendants(agents, a)| - |ids|
      {
        var kids: seq<Id> := Select<Id>(set b | b in agents && agents[b].parent == Some(queue[0]));
        WorkStep(agents, a, ids, queue, kids);
        ids, queue := ids + [queue[0]], queue[1..] + kids;
      }
      WorkDone(agents, a, ids);
    }

    /** Run one prepared UPDATE for each of the listed rows. */
    method UpdateEach(ids: seq<Id>, f: Agent -> Agent)
      requires NoDup(ids) && forall x <- ids :: x in agents
      modifies `agents
      ensures agents == map x | x in old(agents) :: if x in ids then f(old(agents)[x]) else old(agents)[x]
    {
      for i := 0 to |ids|
        invariant agents.Keys == old(agents).Keys
        invariant forall x <- old(agents) :: agents[x] == if x in ids[..i] then f(old(agents)[x]) else old(agents)[x]
      {
        assert ids[..i + 1] == ids[..i] + [ids[i]] && ids[i] !in ids[..i];
        agents := agents[ids[i] := f(agents[ids[i]])];
      }
      assert ids[..|ids|] == ids;
    }

    /** Set `revoked` on the agent and everything below it. */
    method RevokeAgentCascade(a: Id, now: int) returns (ids: seq<Id>)
      requires Valid() && a in agents
      modifies `agents
      ensures Valid() && agents == RevokeCascade(old(agents), a, now)
      ensures |ids| > 0 && ids[0] == a && Enumerates(ids, Subtree(old(agents), a))
    {
      ghost var t := agents;
      var descendants := FindDescendants(a);
      ids := [a] + descendants;
      SubtreeListed(t, a, descendants);
      UpdateEach(ids, (r: Agent) => r.(status := Status.Revoked, revokedAt := Some(now)));
      assert agents == RevokeCascade(t, a, now);
      RevokeKeepsInv(t, a, now);
      UpdateKeepsInv(State(t, tokens), agents);
    }

    /** Walk the parent references up, putting each row in front; empty for an unknown agent. */
    method GetDelegationChain(a: Id) returns (chain: seq<Id>)
      requires Forest(agents)
      ensures chain == if a in agents then Chain(agents, a) else []
    {
      chain := [];
      if a !in agents { return; }
      var current := a;
      while true
        invariant current in agents
        invariant Chain(agents, a) == Chain(agents, current) + chain
        decreases agents[current].depth
      {
        assert Placed(agents, current);
        chain := [current] + chain;
        if agents[current].parent.None? { return; }
        current := agents[current].parent.value;
      }
    }

    // ---- Handlers

    /** Sign the agent's token, insert its row and log it. */
    method InsertAgent(id: Id, row: Agent, action: Action, now: int)
      requires id < nextUuid && row.jti < nextUuid
      requires (forall x <- agents :: x < nextUuid) && (forall j <- tokens :: j < nextUuid)
      requires Inv(IssueAgent(Now(), id, row))
      modifies `agents, `tokens, `audit
      ensures Valid() && Now() == IssueAgent(old(Now()), id, row)
      ensures audit == old(audit) + [AuditEvent(id, row.human.email, action, now)]
    {
      hide Inv;
      tokens := tokens[row.jti := Token(id, Seconds(row.expiresAt))];
      agents := agents[id := row];
      audit := audit + [AuditEvent(id, row.human.email, action, now)];
    }

    method Register(i: RegisterInput, now: int) returns (r: Reply<Grant>)
      requires Valid()
      modifies this
      ensures Valid()
      ensures r.Err? <==> RegisterRefusal(i).Some?
      ensures r.Err? ==> r.error == RegisterRefusal(i).value && Now() == old(Now()) && audit == old(audit)
      ensures r.Ok? ==>
                && r.value.agent !in old(agents)
                && Now() == Step(old(Now()), Event.Register(r.value.agent, r.value.jti, i, now))
                && r.value.agent in agents && r.value.scope == i.scope
                && (var row := agents[r.value.agent];
                    && row.scope == i.scope && row.canDelegate == (if i.canDelegate == [] then i.scope else i.canDelegate)
                    && row.parent == None && row.depth == 0 && row.status == Active
                    && row.expiresAt == now + i.ttlSeconds * 1000 && row.jti == r.value.jti)
                && audit == old(audit) + [AuditEvent(r.value.agent, i.identity.human.email, Issued, now)]
    {
      hide TreeOk, ExpiryClosed, TokensOk, Step;
      if !i.wellFormed || i.scope == [] || (exists x <- i.scope :: x == "") || i.maxDepth < 0 || i.maxDepth > 10
         || i.ttlSeconds < 60 || i.ttlSeconds > MAX_TTL_SECONDS {
        return Err(ValidationFailed);
      }
      var human: Human;
      var identityVerified := false;
      match i.identity {
        case NoProvider => return Err(OidcNotConfigured);
        case BadIdToken => return Err(IdTokenRejected);
        case IdToken(h) => human, identityVerified := h, true;
        case NoFields => return Err(HumanMissing);
        case Claimed(h) => human := h;
      }
      if i.risk == Unacceptable { return Err(UnacceptableRisk); }
      if i.risk == High {
        if !identityVerified { return Err(HighRiskUnverified); }
        if i.maxDepth > 1 { return Err(HighRiskTooDeep); }
        if exists x <- i.scope :: x == "*" || x == "all" { return Err(HighRiskWildcard); }
      }
      var id := NewUuid();
      var delegatable := if |i.canDelegate| > 0 then i.canDelegate else i.scope;
      var expiresAt := now + i.ttlSeconds * 1000;
      var jti := NewUuid();
      if !i.orgExists { return Err(UnknownOrganisation); }  // the foreign key on the row to insert
      RegisterStep(Now(), id, jti, i, now);
      RegistryEffects.RegisterEffect(Now(), id, jti, i, now);
      InsertAgent(id, Agent(i.org, human, i.scope, None, 0, i.maxDepth, delegatable, jti, Active,
                            i.risk, expiresAt, None, None, None), Issued, now);
      return Ok(Grant(id, jti, i.scope));
    }

    /** The requested scopes that may be handed on. */
    method GrantScope(requested: seq<string>, delegatable: seq<string>) returns (granted: seq<string>)
      ensures granted == Granted(requested, delegatable)
    {
      granted := [];
      for k := 0 to |requested|
        invariant granted == Granted(requested[..k], delegatable)
      {
        GrantedSnoc(requested[..k], requested[k], delegatable);
        assert requested[..k + 1] == requested[..k] + [requested[k]];
        if requested[k] in delegatable { granted := granted + [requested[k]]; }
      }
      assert requested[..|requested|] == requested;
    }

    /** The part of the handler after its guards. */
    method InsertChild(parentId: Id, i: DelegateInput, granted: seq<string>, now: int) returns (g: Grant)
      requires Valid() && DelegateRefusal(Now(), parentId, i).None? && parentId in agents
      requires granted == Granted(i.requested, agents[parentId].canDelegate)
      modifies this
      ensures Valid()
      ensures g.agent !in old(agents) && g.agent in agents && agents.Keys == old(agents).Keys + {g.agent}
      ensures Now() == Step(old(Now()), Event.Delegate(parentId, g.agent, g.jti, i, now))
      ensures var row, parent := agents[g.agent], old(agents)[parentId];
              && g.scope == row.scope == row.canDelegate
              && (forall x :: x in row.scope <==> x in i.requested && x in parent.canDelegate)
              && IsFilter(row.scope, i.requested, Elements(parent.canDelegate))
              && row.parent == Some(parentId) && row.depth == parent.depth + 1 && row.status == Active
              && row.expiresAt <= parent.expiresAt && row.expiresAt <= now + i.ttlSeconds * 1000
              && row.expiresAt in {parent.expiresAt, now + i.ttlSeconds * 1000} && row.jti == g.jti
      ensures audit == old(audit) + [AuditEvent(g.agent, old(agents)[parentId].human.email, Delegated, now)]
    {
      hide TreeOk, ExpiryClosed, TokensOk, Step, DelegateRefusal, Granted;
      var p := agents[parentId];
      var id := NewUuid();
      var requestedExpiry := now + i.ttlSeconds * 1000;
      var expiresAt := if p.expiresAt <= requestedExpiry then p.expiresAt else requestedExpiry;
      var jti := NewUuid();
      DelegateStep(Now(), parentId, id, jti, i, now);
      GrantedExactly(i.requested, p.canDelegate);
      hide IsFilter, Inv, Elements, IssueAgent;
      InsertAgent(id, Agent(p.org, p.human, granted, Some(parentId), p.depth + 1, p.maxDepth, granted, jti,
                            Active, p.risk, expiresAt, None, None, None), Delegated, now);
      return Grant(id, jti, granted);
    }

    method Delegate(parentId: Id, i: DelegateInput, now: int) returns (r: Reply<Grant>)
      requires Valid()
      modifies this
      ensures Valid()
      ensures r.Err? <==> DelegateRefusal(old(Now()), parentId, i).Some?
      ensures r.Err? ==> r.error == DelegateRefusal(old(Now()), parentId, i).value
                         && Now() == old(Now()) && audit == old(audit)
      ensures r.Ok? ==>
                && r.value.agent !in old(agents)
                && Now() == Step(old(Now()), Event.Delegate(parentId, r.value.agent, r.value.jti, i, now))
                && r.value.agent in agents && parentId in old(agents)
                && (var row, parent := agents[r.value.agent], old(agents)[parentId];
                    && r.value.scope == row.scope == row.canDelegate
                    && (forall x :: x in row.scope <==> x in i.requested && x in parent.canDelegate)
                    && IsFilter(row.scope, i.requested, Elements(parent.canDelegate))
                    && row.parent == Some(parentId) && row.depth == parent.depth + 1 && row.status == Active
                    && row.expiresAt <= parent.expiresAt && row.expiresAt <= now + i.ttlSeconds * 1000
                    && row.expiresAt in {parent.expiresAt, now + i.ttlSeconds * 1000} && row.jti == r.value.jti)
                && audit == old(audit) + [AuditEvent(r.value.agent, old(agents)[parentId].human.email, Delegated, now)]
    {
      hide TreeOk, ExpiryClosed, TokensOk, Step;
      if i.requested == [] || (exists x <- i.requested :: x == "") || i.ttlSeconds < 60
         || i.ttlSeconds > MAX_TTL_SECONDS {
        return Err(ValidationFailed);
      }
      if i.token !in tokens || tokens[i.token].exp <= Seconds(i.checkedAt) { return Err(InvalidToken); }
      if tokens[i.token].agent != parentId { return Err(TokenMismatch); }
      if parentId !in agents { return Err(NotFound); }
      var p := agents[parentId];
      if p.status != Active { return Err(NotActive); }
      if p.depth >= p.maxDepth { return Err(DepthExceeded); }
      var granted := GrantScope(i.requested, p.canDelegate);
      if granted == [] { return Err(NothingDelegatable); }
      var grant := InsertChild(parentId, i, granted, now);
      return Ok(grant);
    }

    /** One audit row for each listed agent. */
    method LogRows(ids: seq<Id>, action: Action, now: int, ghost t: Table)
      requires forall x <- ids :: x in agents && x in t && agents[x].human == t[x].human
      modifies `audit
      ensures audit == old(audit) + AuditRows(t, ids, action, now)
    {
      for k := 0 to |ids|
        invariant audit == old(audit) + AuditRows(t, ids[..k], action, now)
      {
        assert ids[..k + 1][..k] == ids[..k];
        audit := audit + [AuditEvent(ids[k], agents[ids[k]].human.email, action, now)];
      }
      assert ids[..|ids|] == ids;
    }

    /** DELETE /api/agents/:id. The reply lists the subtree, the agent itself first. */
    method Revoke(a: Id, now: int) returns (r: Reply<seq<Id>>)
      requires Valid()
      modifies this
      ensures Valid() && Now() == Step(old(Now()), Event.Revoke(a, now))
      ensures r.Err? <==> a !in old(agents) || old(agents)[a].status == Status.Revoked
      ensures r.Err? ==> r.error == (if a !in old(agents) then NotFound else AlreadyRevoked) && audit == old(audit)
      ensures r.Ok? ==> Enumerates(r.value, Subtree(old(agents), a)) && |r.value| == |Subtree(old(agents), a)|
      ensures r.Ok? ==> (forall x <- r.value :: x in old(agents))
                        && audit == old(audit) + AuditRows(old(agents), r.value, RowRevoked, now)
    {
      if a !in agents { return Err(NotFound); }
      if agents[a].status == Status.Revoked { return Err(AlreadyRevoked); }
      ghost var t := agents;
      RevokeStep(Now(), a, now);
      hide Inv, Under, Placed, Step, RevokeCascade, AuditRows;
      var ids := RevokeAgentCascade(a, now);
      EnumerationLength(ids, Subtree(t, a));
      LogRows(ids, RowRevoked, now, t);
      return Ok(ids);
    }

    /** `checked` is the clock reading of the token's verification, which the handler waits for, `now` the later one of
        its own test; the row is read after the wait. */
    method Verify(jti: Id, tool: string, checked: int, now: int) returns (v: Verdict)
      requires Valid()
      modifies `audit
      ensures v == RegistryRuns.Verify(Now(), jti, tool, checked, now)
      ensures v.Allowed? ==>
                && v.agent in agents
                && audit == old(audit) + [AuditEvent(v.agent, agents[v.agent].human.email, CallAllowed(tool), now)]
      ensures v.Refused? && v.reason in {EmptyTool, TokenRejected, UnknownToken} ==> audit == old(audit)
      ensures v.Refused? && v.reason !in {EmptyTool, TokenRejected, UnknownToken} ==>
                jti in tokens && tokens[jti].agent in agents
                && audit == old(audit) + [AuditEvent(tokens[jti].agent, agents[tokens[jti].agent].human.email,
                                                     CallBlocked(tool, v.reason), now)]
    {
      if tool == "" { return Verdict.Refused(EmptyTool); }
      if jti !in tokens || tokens[jti].exp <= Seconds(checked) { return Verdict.Refused(TokenRejected); }
      var rows: seq<Id> := Select<Id>(set x | x in agents && agents[x].jti == jti);
      if rows == [] {
        assert forall x :: Holds(Now(), jti, x) ==> x in rows;
        return Verdict.Refused(UnknownToken);
      }
      var x := rows[0];
      assert x in rows;
      forall y | Holds(Now(), jti, y) ensures y == x { HolderIsUnique(Now(), jti, y); HolderIsUnique(Now(), jti, x); }
      assert Holds(Now(), jti, x);
      if agents[x].status == Status.Revoked {
        audit := audit + [AuditEvent(x, agents[x].human.email, CallBlocked(tool, AgentRevoked), now)];
        return Verdict.Refused(AgentRevoked);
      }
      if agents[x].expiresAt < now {
        audit := audit + [AuditEvent(x, agents[x].human.email, CallBlocked(tool, RowExpired), now)];
        return Verdict.Refused(RowExpired);
      }
      var chain := GetDelegationChain(x);
      if tool in agents[x].scope {
        audit := audit + [AuditEvent(x, agents[x].human.email, CallAllowed(tool), now)];
        return Allowed(x, chain);
      }
      audit := audit + [AuditEvent(x, agents[x].human.email, CallBlocked(tool, NotInScope), now)];
      return Verdict.Refused(NotInScope);
    }

    // ---- Lifecycle jobs

    /** State of a sweep over the table `t`: the rows of `done` have been moved and logged, in that order. */
    ghost predicate Swept(t: Table, done: seq<Id>, to: Status, action: Action, now: int, log: seq<AuditEvent>)
      reads this
    {
      && NoDup(done) && (forall x <- done :: x in t && t[x].status == Active)
      && agents == Flip(t, done, to)
      && audit == log + AuditRows(t, done, action, now)
    }

    lemma SweptNothing(t: Table, to: Status, action: Action, now: int)
      requires agents == t
      ensures Swept(t, [], to, action, now, audit)
    {
      assert Flip(t, [], to) == t;
      assert audit + [] == audit;
    }

    lemma FlippedAll(t: Table, done: seq<Id>, to: Status, action: Action, now: int, log: seq<AuditEvent>)
      requires Swept(t, done, to, action, now, log)
      ensures agents == Flip(t, done, to) && (forall x <- done :: x in t) && audit == log + AuditRows(t, done, action, now)
    {
    }

    lemma SweptOnce(t: Table, done: seq<Id>, to: Status, action: Action, now: int, log: seq<AuditEvent>)
      requires Swept(t, done, to, action, now, log)
      ensures NoDup(done)
    {
    }

    /** UPDATE ... WHERE id = ? AND status = 'active', with its audit row if the row changed. */
    method SweepRow(id: Id, to: Status, action: Action, now: int, ghost t: Table, ghost done: seq<Id>,
                    ghost log: seq<AuditEvent>) returns (changed: bool)
      requires to != Active && id in t && Swept(t, done, to, action, now, log)
      modifies `agents, `audit
      ensures changed <==> t[id].status == Active && id !in done
      ensures Swept(t, if changed then done + [id] else done, to, action, now, log)
    {
      changed := agents[id].status == Active;
      if changed {
        agents := agents[id := agents[id].(status := to)];
        audit := audit + [AuditEvent(id, agents[id].human.email, action, now)];
        assert (done + [id])[..|done + [id]| - 1] == done;
        assert agents == Flip(t, done + [id], to);
      }
    }

    /** Expire the active rows below `id`; `flips` grows by the rows that changed. */
    method ExpireBelow(id: Id, now: int, expired: seq<Id>, cascadedSoFar: seq<Id>, ghost t: Table, ghost flips: seq<Id>,
                       ghost log: seq<AuditEvent>) returns (cascaded: seq<Id>, ghost moved: seq<Id>)
      requires TreeOk(t) && Swept(t, flips, Expired, AutoExpired, now, log) && id in expired && id in Due(t, now)
      requires Listed(t, flips, Due(t, now), expired, cascadedSoFar)
      modifies `agents, `audit
      ensures Swept(t, moved, Expired, AutoExpired, now, log) && flips <= moved
      ensures Listed(t, moved, Due(t, now), expired, cascaded)
    {
      cascaded, moved := cascadedSoFar, flips;
      FlipKeepsShape(t, flips, Expired);
      var descendants := FindDescendants(id);
      for k := 0 to |descendants|
        invariant Swept(t, moved, Expired, AutoExpired, now, log) && flips <= moved
        invariant Listed(t, moved, Due(t, now), expired, cascaded)
      {
        var child := descendants[k];
        assert child in descendants && Under(t, id, child);
        var changed := SweepRow(child, Expired, AutoExpired, now, t, moved, log);
        if changed {
          BelowDueIsDue(t, id, child, now);
          ListOne(t, moved, Due(t, now), expired, cascaded, child);
          cascaded, moved := cascaded + [child], moved + [child];
        }
      }
    }

    method ExpireRows(now: int) returns (expired: seq<Id>, cascaded: seq<Id>, ghost flips: seq<Id>)
      requires TreeOk(agents)
      modifies `agents, `audit
      ensures Swept(old(agents), flips, Expired, AutoExpired, now, old(audit))
      ensures Listed(old(agents), flips, Due(old(agents), now), expired, cascaded)
      ensures Enumerates(flips, Due(old(agents), now))
    {
      hide RowOk, LinkOk, EdgeOk, Under, Placed, Swept, Listed, Flip, AuditRows;
      ghost var t, log := agents, audit;
      expired, cascaded, flips := [], [], [];
      var snapshot: seq<Id> := Select<Id>(Due(agents, now));
      SweptNothing(t, Expired, AutoExpired, now);
      ListedNothing(t, Due(t, now));
      for i := 0 to |snapshot|
        invariant Swept(t, flips, Expired, AutoExpired, now, log)
        invariant Listed(t, flips, Due(t, now), expired, cascaded)
        invariant forall x <- snapshot[..i] :: x in flips
      {
        var id := snapshot[i];
        assert id in snapshot && id in Due(t, now);
        assert snapshot[..i + 1] == snapshot[..i] + [id];
        var changed := SweepRow(id, Expired, AutoExpired, now, t, flips, log);
        if changed {
          ListOne(t, flips, Due(t, now), expired, cascaded, id);
          expired, flips := expired + [id], flips + [id];
          ghost var grown := flips;
          cascaded, flips := ExpireBelow(id, now, expired, cascaded, t, flips, log);
          PrefixKeeps(grown, flips);
        }
      }
      assert snapshot[..|snapshot|] == snapshot;
      SweptOnce(t, flips, Expired, AutoExpired, now, log);
      ListedAreDue(t, flips, Due(t, now), expired, cascaded);
      forall x | x in Due(t, now) ensures x in flips { assert x in snapshot; }
    }

    /** In whatever order the due rows come and however the cascade anticipates them, exactly the active
        agents past their expiry are flipped, each listed once and logged once; a cascaded one hangs
        under a listed one. */
    method RunAutoExpiry(now: int) returns (expired: seq<Id>, cascaded: seq<Id>)
      requires Valid()
      modifies `agents, `audit
      ensures Valid() && Now() == Step(old(Now()), Event.AutoExpiry(now))
      ensures Enumerates(expired + cascaded, Due(old(agents), now))
      ensures forall c <- cascaded :: c in old(agents) && exists a :: a in expired && Under(old(agents), a, c)
      ensures exists flips :: Enumerates(flips, Due(old(agents), now))
                              && audit == old(audit) + AuditRows(old(agents), flips, AutoExpired, now)
    {
      hide RowOk, LinkOk, EdgeOk, ExpiryClosed, TokensOk, Under, Placed;
      ghost var t := agents;
      ghost var flips;
      expired, cascaded, flips := ExpireRows(now);
      FlipAll(t, flips, now, 0);
      ExpireKeepsInv(t, now);
      UpdateKeepsInv(State(t, tokens), agents);
    }

    /** The staleness sweep does not cascade. */
    method MarkStaleAgents(cutoff: int, now: int) returns (marked: seq<Id>)
      requires Valid()
      modifies `agents, `audit
      ensures Valid() && Now() == Step(old(Now()), Event.StaleSweep(cutoff, now))
      ensures Enumerates(marked, StaleSet(old(agents), cutoff))
      ensures audit == old(audit) + AuditRows(old(agents), marked, MarkedStale, now)
    {
      hide RowOk, LinkOk, EdgeOk, ExpiryClosed, TokensOk, Under, Placed;
      ghost var t, log := agents, audit;
      marked := [];
      var snapshot: seq<Id> := Select<Id>(StaleSet(agents, cutoff));
      SweptNothing(t, Stale, MarkedStale, now);
      for i := 0 to |snapshot|
        invariant Swept(t, marked, Stale, MarkedStale, now, log) && tokens == old(tokens) && nextUuid == old(nextUuid)
        invariant marked == snapshot[..i]
      {
        var id := snapshot[i];
        assert id in snapshot && id !in snapshot[..i];
        var changed := SweepRow(id, Stale, MarkedStale, now, t, marked, log);
        if changed { marked := marked + [id]; }
      }
      assert marked == snapshot;
      hide Swept;
      FlippedAll(t, marked, Stale, MarkedStale, now, log);
      FlipAll(t, marked, 0, cutoff);
      StaleKeepsInv(t, cutoff);
      UpdateKeepsInv(State(t, tokens), agents);
    }

    method DeprovisionAgent(a: Id, now: int) returns (r: Reply<seq<Id>>)
      requires Valid()
      modifies `agents, `audit
      ensures Valid() && Now() == Step(old(Now()), Event.DeprovisionAgent(a, now))
      ensures r.Err? <==> a !in old(agents) || old(agents)[a].status == Deprovisioned
      ensures r.Err? ==> r.error == (if a !in old(agents) then NotFound else AlreadyDeprovisioned) && audit == old(audit)
      ensures r.Ok? ==> Enumerates(r.value, Descendants(old(agents), a))
                        && audit == old(audit) + AuditRows(old(agents), [a], RowDeprovisioned, now)
    {
      hide RowOk, LinkOk, EdgeOk, ExpiryClosed, TokensOk, Under, Placed;
      if a !in agents { return Err(NotFound); }
      if agents[a].status == Deprovisioned { return Err(AlreadyDeprovisioned); }
      ghost var t := agents;
      var descendants := FindDescendants(a);
      var ids := [a] + descendants;
      SubtreeListed(t, a, descendants);
      UpdateEach(ids, (r: Agent) => DeprovisionRow(r, now));
      assert agents == DeprovisionCascade(t, a, now);
      DeprovisionKeepsInv(t, a, now);
      UpdateKeepsInv(State(t, tokens), agents);
      audit := audit + [AuditEvent(a, agents[a].human.email, RowDeprovisioned, now)];
      assert [a][..0] == [];
      return Ok(descendants);
    }

    method DeprovisionHuman(email: string, now: int) returns (ids: seq<Id>)
      requires Valid()
      modifies `agents, `audit
      ensures Valid() && Now() == Step(old(Now()), Event.DeprovisionHuman(email, now))
      ensures Enumerates(ids, set x | x in old(agents) && old(agents)[x].human.email == email
                                      && old(agents)[x].status != Deprovisioned)
      ensures audit == if ids == [] then old(audit)
                       else old(audit) + [AuditEvent(ids[0], email, HumanDeprovisioned, now)]
    {
      hide RowOk, LinkOk, EdgeOk, ExpiryClosed, TokensOk, Under, Placed;
      ghost var t := agents;
      var rows: seq<Id> := Select<Id>(set x | x in agents && agents[x].human.email == email && agents[x].status != Deprovisioned);
      DeprovisionEmailKeepsInv(t, email, now);
      if rows == [] {
        EmailRowsUpdated(t, agents, rows, email, now);
        return [];
      }
      UpdateEach(rows, (r: Agent) => DeprovisionRow(r, now));
      ids := rows;
      EmailRowsUpdated(t, agents, rows, email, now);
      UpdateKeepsInv(State(t, tokens), agents);
      audit := audit + [AuditEvent(ids[0], email, HumanDeprovisioned, now)];
    }

    method RotateToken(a: Id, now: int) returns (r: Reply<Id>)
      requires Valid()
      modifies this
      ensures Valid()
      ensures r.Err? <==> a !in old(agents) || old(agents)[a].status != Active
      ensures r.Err? ==> r.error == (if a !in old(agents) then NotFound else NotActive)
                         && Now() == old(Now()) && audit == old(audit)
      ensures r.Ok? ==> r.value !in old(tokens) && Now() == Step(old(Now()), Event.Rotate(a, r.value, now))
                        && audit == old(audit) + [AuditEvent(a, agents[a].human.email, TokenRotated, now)]
    {
      if a !in agents { return Err(NotFound); }
      if agents[a].status != Active { return Err(NotActive); }
      hide RowOk, LinkOk, EdgeOk, ExpiryClosed, Under, Placed;
      var jti := NewUuid();
      StepKeepsInv(Now(), Event.Rotate(a, jti, now));
      tokens := tokens[jti := Token(a, Seconds(agents[a].expiresAt))];
      agents := agents[a := agents[a].(jti := jti)];
      audit := audit + [AuditEvent(a, agents[a].human.email, TokenRotated, now)];
      return Ok(jti);
    }

    method RecordHeartbeat(a: Id, now: int) returns (r: Reply<int>)
      requires Valid()
      modifies `agents
      ensures Valid() && Now() == Step(old(Now()), Event.Heartbeat(a, now))
      ensures r == if a in old(agents) then Ok(now) else Err(NotFound)
    {
      StepKeepsInv(Now(), Event.Heartbeat(a, now));
      if a !in agents { return Err(NotFound); }
      agents := agents[a := agents[a].(lastSeenAt := Some(now))];
      return Ok(now);
    }
  }

  // ---- Steps of the proofs above

  lemma RegisterStep(s: State, id: Id, jti: Id, i: RegisterInput, now: int)
    requires Inv(s) && FreshAgent(s, id, jti) && RegisterRefusal(i).None?
    ensures var s' := IssueAgent(s, id, RootRow(i, jti, now)); Inv(s') && Step(s, Event.Register(id, jti, i, now)) == s'
  {
    StepKeepsInv(s, Event.Register(id, jti, i, now));
  }

  lemma RevokeStep(s: State, a: Id, now: int)
    requires Inv(s) && a in s.agents && s.agents[a].status != Status.Revoked
    ensures Forest(s.agents) && Step(s, Event.Revoke(a, now)) == s.(agents := RevokeCascade(s.agents, a, now))
    ensures RevokeCascade(s.agents, a, now).Keys == s.agents.Keys
    ensures forall x <- s.agents :: RevokeCascade(s.agents, a, now)[x].human == s.agents[x].human
  {
  }

  lemma DelegateStep(s: State, p: Id, id: Id, jti: Id, i: DelegateInput, now: int)
    requires Inv(s) && FreshAgent(s, id, jti) && DelegateRefusal(s, p, i).None?
    ensures var s' := IssueAgent(s, id, ChildRow(s.agents[p], p, i, jti, now));
            Inv(s') && Step(s, Event.Delegate(p, id, jti, i, now)) == s'
  {
    StepKeepsInv(s, Event.Delegate(p, id, jti, i, now));
  }

  /** The query's work list: `ids` are joined with their children, which are listed or still in the queue. */
  ghost predicate WorkList(t: Table, a: Id, ids: seq<Id>, queue: seq<Id>)
    requires Forest(t)
  {
    && NoDup(ids + queue)
    && (forall b <- ids + queue :: b in Descendants(t, a))
    && (forall b <- Children(t, a) :: b in ids + queue)
    && (forall x <- ids :: forall b <- Children(t, x) :: b in ids + queue)
    && (forall b <- ids + queue :: b in t && t[b].parent.Some? && (t[b].parent.value == a || t[b].parent.value in ids))
  }

  lemma WorkStart(t: Table, a: Id, queue: seq<Id>)
    requires Forest(t) && Enumerates(queue, Children(t, a))
    ensures WorkList(t, a, [], queue)
  {
    assert [] + queue == queue;
    forall b | b in queue ensures b in Descendants(t, a) { ChildIsDescendant(t, a, a, b); }
  }

  lemma WorkStep(t: Table, a: Id, ids: seq<Id>, queue: seq<Id>, kids: seq<Id>)
    requires Forest(t) && WorkList(t, a, ids, queue) && queue != [] && Enumerates(kids, Children(t, queue[0]))
    ensures WorkList(t, a, ids + [queue[0]], queue[1..] + kids)
    ensures |ids| < |Descendants(t, a)|
  {
    hide Under;
    var x := queue[0];
    var all := ids + queue;
    var next := (ids + [x]) + (queue[1..] + kids);
    assert next == all + kids;
    assert x in all && forall b <- ids :: b in all;
    assert x !in ids by {
      forall i | 0 <= i < |ids| ensures ids[i] != x {
        assert all[i] == ids[i] && all[|ids|] == x;
      }
    }
    forall b | b in kids ensures b in Descendants(t, a) && b !in all {
      ChildIsDescendant(t, a, x, b);
    }
    NoDupConcat(all, kids);
    NoDupBound(all, Descendants(t, a));
  }

  lemma WorkDone(t: Table, a: Id, ids: seq<Id>)
    requires Forest(t) && WorkList(t, a, ids, [])
    ensures Enumerates(ids, Descendants(t, a))
  {
    assert ids + [] == ids;
    forall b | b in Descendants(t, a) ensures b in ids {
      ClosedCoversDescendants(t, a, b, ids);
    }
  }

  lemma ChildIsDescendant(t: Table, a: Id, x: Id, b: Id)
    requires Forest(t) && b in t && t[b].parent == Some(x) && (x == a || x in Descendants(t, a))
    ensures b in Descendants(t, a) && b != a && b != x
  {
    assert Placed(t, b);
    assert Under(t, a, x);
    assert Under(t, a, b);
  }

  lemma {:induction false} ClosedCoversDescendants(t: Table, a: Id, b: Id, ids: seq<Id>)
    requires Forest(t) && b in Descendants(t, a)
    requires forall c <- Children(t, a) :: c in ids
    requires forall x <- ids :: forall c <- Children(t, x) :: c in ids
    ensures b in ids
    decreases t[b].depth
  {
    assert Placed(t, b);
    var p := t[b].parent.value;
    assert b in Children(t, p);
    if p != a {
      ClosedCoversDescendants(t, a, p, ids);
    }
  }

  lemma NoDupConcat(a: seq<Id>, b: seq<Id>)
    requires NoDup(a) && NoDup(b) && forall x <- b :: x !in a
    ensures NoDup(a + b)
  {
    forall i, j | 0 <= i < j < |a + b| ensures (a + b)[i] != (a + b)[j] {
      if i < |a| <= j {
        assert b[j - |a|] in b && a[i] in a;
      }
    }
  }

  lemma SubtreeListed(t: Table, a: Id, descendants: seq<Id>)
    requires Forest(t) && a in t && Enumerates(descendants, Descendants(t, a))
    ensures Enumerates([a] + descendants, Subtree(t, a))
  {
    assert Under(t, a, a);
    NoDupConcat([a], descendants);
  }

  /** The two result lists of the expiry sweep, together, are the rows moved so far. */
  ghost predicate Listed(t: Table, flips: seq<Id>, due: set<Id>, expired: seq<Id>, cascaded: seq<Id>)
    requires Forest(t)
  {
    && (forall x <- flips :: x in due)
    && NoDup(expired + cascaded)
    && (forall x :: x in expired + cascaded <==> x in flips)
    && (forall c <- cascaded :: c in t && exists a :: a in expired && Under(t, a, c))
  }

  lemma EmailRowsUpdated(t: Table, u: Table, rows: seq<Id>, email: string, now: int)
    requires Enumerates(rows, set x | x in t && t[x].human.email == email && t[x].status != Deprovisioned)
    requires u == map x | x in t :: if x in rows then DeprovisionRow(t[x], now) else t[x]
    ensures u == DeprovisionEmail(t, email, now)
  {
    hide DeprovisionRow;
  }

  lemma PrefixKeeps(a: seq<Id>, b: seq<Id>)
    requires a <= b
    ensures forall x <- a :: x in b
  {
    assert b == a + b[|a|..];
  }

  lemma ListedNothing(t: Table, due: set<Id>)
    requires Forest(t)
    ensures Listed(t, [], due, [], [])
  {
  }

  lemma ListedAreDue(t: Table, flips: seq<Id>, due: set<Id>, expired: seq<Id>, cascaded: seq<Id>)
    requires Forest(t) && Listed(t, flips, due, expired, cascaded)
    ensures forall x <- flips :: x in due
  {
  }

  lemma ListOne(t: Table, flips: seq<Id>, due: set<Id>, expired: seq<Id>, cascaded: seq<Id>, id: Id)
    requires Forest(t) && Listed(t, flips, due, expired, cascaded) && id in due && id in t && id !in flips
    ensures Listed(t, flips + [id], due, expired + [id], cascaded)
    ensures (exists a :: a in expired && Under(t, a, id)) ==> Listed(t, flips + [id], due, expired, cascaded + [id])
  {
    assert id !in expired + cascaded;
    NoDupInsert(expired, cascaded, id);
    forall x
      ensures x in (expired + [id]) + cascaded <==> x in flips + [id]
      ensures x in expired + (cascaded + [id]) <==> x in flips + [id]
    {
      assert x in expired + cascaded <==> x in flips;
    }
    forall c | c in cascaded ensures exists a :: a in expired + [id] && Under(t, a, c) {
      var a :| a in expired && Under(t, a, c);
      assert a in expired + [id];
    }
  }

  lemma NoDupInsert(a: seq<Id>, b: seq<Id>, x: Id)
    requires NoDup(a + b) && x !in a + b
    ensures NoDup((a + [x]) + b) && NoDup(a + (b + [x]))
  {
    forall i, j | 0 <= i < j < |a| + 1 + |b| ensures ((a + [x]) + b)[i] != ((a + [x]) + b)[j] {
      var i', j' := if i <= |a| then i else i - 1, if j <= |a| then j else j - 1;
      if i != |a| { assert ((a + [x]) + b)[i] == (a + b)[i']; }
      if j != |a| { assert ((a + [x]) + b)[j] == (a + b)[j']; }
    }
    assert a + (b + [x]) == (a + b) + [x];
  }
}
