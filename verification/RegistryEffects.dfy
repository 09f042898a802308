/**
 What each step of the registry does, written out on the columns: the handlers and jobs are proved to perform these
 steps, and here is what the steps are.
 */
module RegistryEffects {
  import opened Prelude
  import opened Agents
  import opened RegistrySpec
  import opened RegistryRuns

  // ---- When a token is in time

  lemma TokenInTimeExactly(s: State, jti: Id, now: int)
    ensures TokenLive(s, jti, now) <==> jti in s.tokens && now < s.tokens[jti].exp * 1000
  {
  }

  /** A token is signed for the row's lifetime, cut to whole seconds. */
  lemma TokenLifetime(s: State, x: Id)
    requires Inv(s) && x in s.agents
    ensures s.agents[x].jti in s.tokens && s.tokens[s.agents[x].jti].agent == x
    ensures var exp := s.tokens[s.agents[x].jti].exp; exp * 1000 <= s.agents[x].expiresAt < exp * 1000 + 1000
  {
  }

  // ---- Register and delegate

  lemma RegisterAcceptsExactly(i: RegisterInput)
    ensures RegisterRefusal(i).None? <==>
              && i.wellFormed && i.scope != [] && "" !in i.scope && 0 <= i.maxDepth <= 10
              && 60 <= i.ttlSeconds <= 2592000
              && (i.identity.IdToken? || i.identity.Claimed?)
              && i.risk != Unacceptable
              && (i.risk == High ==> i.identity.IdToken? && i.maxDepth <= 1 && "*" !in i.scope && "all" !in i.scope)
              && i.orgExists
  {
  }

  /** Which refusal a registration meets: the first of these, each on the condition that none before it applies. */
  lemma RegisterRefusalsInOrder(i: RegisterInput)
    ensures var valid := i.wellFormed && i.scope != [] && "" !in i.scope && 0 <= i.maxDepth <= 10 && 60 <= i.ttlSeconds <= 2592000;
            var known := valid && (i.identity.IdToken? || i.identity.Claimed?);
            var wildcard := "*" in i.scope || "all" in i.scope;
            var e := RegisterRefusal(i);
            && (e == Some(ValidationFailed) <==> !valid)
            && (e == Some(OidcNotConfigured) <==> valid && i.identity.NoProvider?)
            && (e == Some(IdTokenRejected) <==> valid && i.identity.BadIdToken?)
            && (e == Some(HumanMissing) <==> valid && i.identity.NoFields?)
            && (e == Some(UnacceptableRisk) <==> known && i.risk == Unacceptable)
            && (e == Some(HighRiskUnverified) <==> known && i.risk == High && i.identity.Claimed?)
            && (e == Some(HighRiskTooDeep) <==> known && i.risk == High && i.identity.IdToken? && i.maxDepth > 1)
            && (e == Some(HighRiskWildcard) <==> known && i.risk == High && i.identity.IdToken? && i.maxDepth <= 1 && wildcard)
            && (e == Some(UnknownOrganisation) <==>
                  && known && !i.orgExists && i.risk != Unacceptable
                  && (i.risk == High ==> i.identity.IdToken? && i.maxDepth <= 1 && !wildcard))
  {
  }

  /** A registration inserts one root: for the human of the identity, delegating what it asks to delegate or else all it
      holds, active for the time asked for. */
  lemma RegisterEffect(s: State, id: Id, jti: Id, i: RegisterInput, now: int)
    requires Inv(s) && FreshAgent(s, id, jti) && RegisterRefusal(i).None?
    ensures var u := Step(s, Event.Register(id, jti, i, now));
            && u.agents.Keys == s.agents.Keys + {id} && (forall x <- s.agents :: u.agents[x] == s.agents[x])
            && u.tokens.Keys == s.tokens.Keys + {jti} && (forall j <- s.tokens :: u.tokens[j] == s.tokens[j])
            && var r := u.agents[id];
               && r.parent == None && r.depth == 0 && r.maxDepth == i.maxDepth && r.org == i.org && r.risk == i.risk
               && (i.identity.IdToken? || i.identity.Claimed?) && r.human == i.identity.human
               && r.scope == i.scope && (i.canDelegate == [] ==> r.canDelegate == i.scope)
               && (i.canDelegate != [] ==> r.canDelegate == i.canDelegate)
               && r.status == Active && r.jti == jti && r.expiresAt == now + i.ttlSeconds * 1000
               && r.revokedAt == None && r.lastSeenAt == None && r.deprovisionedAt == None
               && u.tokens[jti].agent == id
  {
  }

  lemma DelegateAcceptsExactly(s: State, p: Id, i: DelegateInput)
    ensures DelegateRefusal(s, p, i).None? <==>
              && i.requested != [] && "" !in i.requested && 60 <= i.ttlSeconds <= 2592000
              && i.token in s.tokens && i.checkedAt < s.tokens[i.token].exp * 1000 && s.tokens[i.token].agent == p
              && p in s.agents && s.agents[p].status == Active && s.agents[p].depth < s.agents[p].maxDepth
              && exists x :: x in i.requested && x in s.agents[p].canDelegate
  {
    TokenInTimeExactly(s, i.token, i.checkedAt);
    if p in s.agents {
      var g := Granted(i.requested, s.agents[p].canDelegate);
      if g != [] { assert g[0] in g; }
    }
  }

  /** Which refusal a delegation meets. */
  lemma DelegateRefusalsInOrder(s: State, p: Id, i: DelegateInput)
    ensures var valid := i.requested != [] && "" !in i.requested && 60 <= i.ttlSeconds <= 2592000;
            var signed := valid && i.token in s.tokens && i.checkedAt < s.tokens[i.token].exp * 1000;
            var found := signed && s.tokens[i.token].agent == p && p in s.agents;
            var e := DelegateRefusal(s, p, i);
            && (e == Some(ValidationFailed) <==> !valid)
            && (e == Some(InvalidToken) <==> valid && !signed)
            && (e == Some(TokenMismatch) <==> signed && s.tokens[i.token].agent != p)
            && (e == Some(NotFound) <==> signed && s.tokens[i.token].agent == p && p !in s.agents)
            && (e == Some(NotActive) <==> found && s.agents[p].status != Active)
            && (e == Some(DepthExceeded) <==> found && s.agents[p].status == Active && s.agents[p].maxDepth <= s.agents[p].depth)
            && (e == Some(NothingDelegatable) <==>
                  && found && s.agents[p].status == Active && s.agents[p].depth < s.agents[p].maxDepth
                  && forall x <- i.requested :: x !in s.agents[p].canDelegate)
  {
    TokenInTimeExactly(s, i.token, i.checkedAt);
    if p in s.agents {
      var g := Granted(i.requested, s.agents[p].canDelegate);
      if g != [] { assert g[0] in g; }
    }
  }

  /** A delegation inserts one child: it holds and may delegate exactly what was requested and the parent may delegate, in
      the order and with the repetitions of the request, until the earlier of the parent's expiry and the time asked for. */
  lemma DelegateEffect(s: State, p: Id, id: Id, jti: Id, i: DelegateInput, now: int)
    requires Inv(s) && FreshAgent(s, id, jti) && DelegateRefusal(s, p, i).None?
    ensures var u := Step(s, Event.Delegate(p, id, jti, i, now));
            && u.agents.Keys == s.agents.Keys + {id} && (forall x <- s.agents :: u.agents[x] == s.agents[x])
            && u.tokens.Keys == s.tokens.Keys + {jti} && (forall j <- s.tokens :: u.tokens[j] == s.tokens[j])
            && p in s.agents
            && var r, parent := u.agents[id], s.agents[p];
               && r.parent == Some(p) && r.depth == parent.depth + 1 && r.maxDepth == parent.maxDepth
               && r.org == parent.org && r.human == parent.human && r.risk == parent.risk
               && (forall x :: x in r.scope <==> x in i.requested && x in parent.canDelegate)
               && (forall x :: x in r.canDelegate <==> x in i.requested && x in parent.canDelegate)
               && IsFilter(r.scope, i.requested, Elements(parent.canDelegate)) && r.canDelegate == r.scope
               && (forall x :: multiset(r.scope)[x] == if x in parent.canDelegate then multiset(i.requested)[x] else 0)
               && r.expiresAt <= parent.expiresAt && r.expiresAt <= now + i.ttlSeconds * 1000
               && r.expiresAt in {parent.expiresAt, now + i.ttlSeconds * 1000}
               && r.status == Active && r.jti == jti
               && r.revokedAt == None && r.lastSeenAt == None && r.deprovisionedAt == None
               && u.tokens[jti].agent == id
  {
    GrantedExactly(i.requested, s.agents[p].canDelegate);
    hide IsFilter, Inv;
  }

  // ---- Row updates: a changed row changes in these columns, and every other row stays as it was

  lemma RevokeEffect(s: State, a: Id, now: int, x: Id)
    requires Inv(s) && x in s.agents
    ensures var u, r := Step(s, Event.Revoke(a, now)), s.agents[x];
            && u.tokens == s.tokens && u.agents.Keys == s.agents.Keys
            && var hit := a in s.agents && s.agents[a].status != Revoked && Under(s.agents, a, x);
               && (hit ==> u.agents[x] == r.(status := Revoked, revokedAt := Some(now)))
               && (!hit ==> u.agents[x] == r)
  {
    hide Inv, Under;
  }

  /** Whatever its own status, an agent is revoked if some active agent of the subject is at or above it. */
  lemma ScimEffect(s: State, sub: string, now: int, x: Id)
    requires Inv(s) && x in s.agents
    ensures var u, r := Step(s, Event.Scim(sub, now)), s.agents[x];
            && u.tokens == s.tokens && u.agents.Keys == s.agents.Keys
            && var hit := exists y :: y in s.agents && s.agents[y].status == Active && s.agents[y].human.sub == sub
                                      && Under(s.agents, y, x);
               && (hit ==> u.agents[x] == r.(status := Revoked, revokedAt := Some(now)))
               && (!hit ==> u.agents[x] == r)
  {
    hide Inv, Under;
  }

  lemma AutoExpiryEffect(s: State, now: int, x: Id)
    requires Inv(s) && x in s.agents
    ensures var u, r := Step(s, Event.AutoExpiry(now)), s.agents[x];
            && u.tokens == s.tokens && u.agents.Keys == s.agents.Keys
            && (r.status == Active && r.expiresAt <= now ==> u.agents[x] == r.(status := Expired))
            && (r.status != Active || now < r.expiresAt ==> u.agents[x] == r)
  {
    hide Inv, Under;
  }

  /** Never seen counts as stale, and so does the cutoff itself. */
  lemma StaleSweepEffect(s: State, cutoff: int, now: int, x: Id)
    requires Inv(s) && x in s.agents
    ensures var u, r := Step(s, Event.StaleSweep(cutoff, now)), s.agents[x];
            && u.tokens == s.tokens && u.agents.Keys == s.agents.Keys
            && (r.status == Active && (r.lastSeenAt == None || r.lastSeenAt.value <= cutoff)
                ==> u.agents[x] == r.(status := Stale))
            && (r.status != Active || (r.lastSeenAt.Some? && cutoff < r.lastSeenAt.value) ==> u.agents[x] == r)
  {
    hide Inv, Under;
  }

  /** An earlier `revoked_at` is kept. */
  lemma DeprovisionAgentEffect(s: State, a: Id, now: int, x: Id)
    requires Inv(s) && x in s.agents
    ensures var u, r := Step(s, Event.DeprovisionAgent(a, now)), s.agents[x];
            && u.tokens == s.tokens && u.agents.Keys == s.agents.Keys
            && var hit := a in s.agents && s.agents[a].status != Deprovisioned && Under(s.agents, a, x);
               && (hit && r.revokedAt == None ==>
                     u.agents[x] == r.(status := Deprovisioned, deprovisionedAt := Some(now), revokedAt := Some(now)))
               && (hit && r.revokedAt != None ==>
                     u.agents[x] == r.(status := Deprovisioned, deprovisionedAt := Some(now)))
               && (!hit ==> u.agents[x] == r)
  {
    hide Inv, Under;
  }

  lemma DeprovisionHumanEffect(s: State, email: string, now: int, x: Id)
    requires Inv(s) && x in s.agents
    ensures var u, r := Step(s, Event.DeprovisionHuman(email, now)), s.agents[x];
            && u.tokens == s.tokens && u.agents.Keys == s.agents.Keys
            && var hit := r.human.email == email && r.status != Deprovisioned;
               && (hit && r.revokedAt == None ==>
                     u.agents[x] == r.(status := Deprovisioned, deprovisionedAt := Some(now), revokedAt := Some(now)))
               && (hit && r.revokedAt != None ==>
                     u.agents[x] == r.(status := Deprovisioned, deprovisionedAt := Some(now)))
               && (!hit ==> u.agents[x] == r)
  {
    hide Inv, Under;
  }

  /** The new token replaces the old one in the row, for the row's own lifetime; the old one is still signed but nobody's. */
  lemma RotateEffect(s: State, a: Id, jti: Id, now: int)
    requires Inv(s) && a in s.agents && jti !in s.tokens
    ensures var u := Step(s, Event.Rotate(a, jti, now));
            && (s.agents[a].status != Active ==> u == s)
            && (s.agents[a].status == Active ==>
                  && u.agents == s.agents[a := s.agents[a].(jti := jti)]
                  && u.tokens.Keys == s.tokens.Keys + {jti} && (forall j <- s.tokens :: u.tokens[j] == s.tokens[j])
                  && u.tokens[jti].agent == a
                  && u.tokens[jti].exp * 1000 <= s.agents[a].expiresAt < u.tokens[jti].exp * 1000 + 1000
                  && (forall x :: !Holds(u, s.agents[a].jti, x)))
  {
    var u := Step(s, Event.Rotate(a, jti, now));
    if s.agents[a].status == Active {
      var before := s.agents[a].jti;
      assert s.tokens[before].agent == a && before != jti;
      forall x ensures !Holds(u, before, x) {
        if x in s.agents && x != a { assert s.tokens[s.agents[x].jti].agent == x; }
      }
    }
  }

  lemma HeartbeatEffect(s: State, a: Id, now: int)
    requires Inv(s)
    ensures var u := Step(s, Event.Heartbeat(a, now));
            && u.tokens == s.tokens
            && u.agents == if a in s.agents then s.agents[a := s.agents[a].(lastSeenAt := Some(now))] else s.agents
  {
    hide Inv, Under;
  }

  // ---- /verify

  /** Each answer of `/verify`, on the token and the row that holds it. */
  lemma VerifyAnswers(s: State, jti: Id, tool: string, checked: int, now: int)
    requires Inv(s)
    ensures var v := Verify(s, jti, tool, checked, now);
            && (v == Verdict.Refused(EmptyTool) <==> tool == "")
            && (v == Verdict.Refused(TokenRejected) <==> tool != "" && (jti in s.tokens ==> s.tokens[jti].exp * 1000 <= checked))
            && (tool != "" && jti in s.tokens && checked < s.tokens[jti].exp * 1000 ==>
                  && s.tokens[jti].agent in s.agents
                  && var r := s.agents[s.tokens[jti].agent];
                     && (v == Verdict.Refused(UnknownToken) <==> r.jti != jti)
                     && (r.jti == jti ==>
                           && (v == Verdict.Refused(AgentRevoked) <==> r.status == Revoked)
                           && (v == Verdict.Refused(RowExpired) <==> r.status != Revoked && r.expiresAt < now)
                           && (v == Verdict.Refused(NotInScope) <==> r.status != Revoked && now <= r.expiresAt && tool !in r.scope)
                           && (v == Allowed(s.tokens[jti].agent, Chain(s.agents, s.tokens[jti].agent)) <==>
                               r.status != Revoked && now <= r.expiresAt && tool in r.scope)))
  {
    TokenInTimeExactly(s, jti, checked);
    forall x | Holds(s, jti, x) ensures jti in s.tokens && x == s.tokens[jti].agent { HolderIsUnique(s, jti, x); }
    hide Chain, Under, ExpiryClosed, TreeOk;
    if jti in s.tokens && s.tokens[jti].agent in s.agents && s.agents[s.tokens[jti].agent].jti == jti {
      assert Holds(s, jti, s.tokens[jti].agent);
    }
  }
}
