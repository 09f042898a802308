/** What holds after any sequence of registry steps. */
module RegistryRuns {
  import opened Prelude
  import opened Agents
  import opened RegistrySpec

  const EMPTY_REGISTRY := State(map[], map[])

  /** The state after a sequence of steps; the invariant survives every one of them. */
  ghost function Run(s: State, events: seq<Event>): (r: State)
    requires Inv(s)
    ensures Inv(r)
    decreases |events|
  {
    if events == [] then s else Run(Step(s, events[0]), events[1..])
  }

  ghost function Reached(events: seq<Event>): State {
    Run(EMPTY_REGISTRY, events)
  }

  // ---- Safety over whole runs

  /** An active agent has no revoked, deprovisioned or expired ancestor, and `revoked_at`
      marks exactly the revoked and deprovisioned rows, closed downwards over the tree. */
  lemma ActiveHasLiveAncestors(events: seq<Event>, a: Id, b: Id)
    requires b in Reached(events).agents && Under(Reached(events).agents, a, b)
    ensures var t := Reached(events).agents;
            && (t[b].status == Active ==> t[a].status in {Active, Stale})
            && (t[a].revokedAt.Some? <==> t[a].status in {Revoked, Deprovisioned})
            && (t[a].revokedAt.Some? ==> t[b].revokedAt.Some?)
  {
    var t := Reached(events).agents;
    AncestorFacts(t, a, b);
    assert RowOk(t[a]) && RowOk(t[b]);
  }

  /** One tree has one human, organisation, risk level and depth limit; depth counts edges up to
      that limit; a child never outlives an ancestor. */
  lemma TreeIsUniform(events: seq<Event>, a: Id, b: Id)
    requires b in Reached(events).agents && Under(Reached(events).agents, a, b)
    ensures var t := Reached(events).agents;
            && t[b].human == t[a].human && t[b].org == t[a].org
            && t[b].risk == t[a].risk && t[b].maxDepth == t[a].maxDepth
            && t[b].expiresAt <= t[a].expiresAt
            && |Chain(t, b)| == t[b].depth + 1 <= t[a].maxDepth + 1
            && (t[a].risk == High ==> t[b].depth <= 1)
  {
    var t := Reached(events).agents;
    AncestorFacts(t, a, b);
    ChainIsInverse(t, b);
    assert RowOk(t[b]) && RowOk(t[a]);
  }

  /** Status `active` is never regained, and no step moves a row in its tree or rewrites its scope. */
  lemma {:induction false} NeverActiveAgain(s: State, events: seq<Event>, x: Id)
    requires Inv(s) && x in s.agents
    ensures var t := Run(s, events).agents;
            x in t && SameIdentity(s.agents[x], t[x]) && (t[x].status == Active ==> s.agents[x].status == Active)
    decreases |events|
  {
    hide Step, TokensOk, ExpiryClosed, RowOk, EdgeOk, Under;
    if events != [] {
      StepUpdatesRow(s, events[0], x);
      NeverActiveAgain(Step(s, events[0]), events[1..], x);
    }
  }

  lemma StepUpdatesRow(s: State, e: Event, x: Id)
    requires Inv(s) && x in s.agents
    ensures x in Step(s, e).agents && SameIdentity(s.agents[x], Step(s, e).agents[x])
    ensures Step(s, e).agents[x].status == Active ==> s.agents[x].status == Active
  {
    hide TokensOk, EdgeOk, Under, ExpiryClosed, ScimHit, TokenLive, RegisterRefusal, DelegateRefusal, Granted;
    if !e.Register? && !e.Delegate? && !e.Rotate? {
      TableStepKeepsTree(s.agents, e);
      assert RowUpdate(s.agents[x], NextTable(s.agents, e)[x]);
    }
  }

  // ---- Delegation interleaved with other steps

  /** The delegate handler waits for the signature between checking the parent and inserting the child. If other
      steps run meanwhile, inserting the row computed from the earlier reading keeps the invariant exactly when the
      parent has not been revoked or deprovisioned and nothing at or above it has expired. */
  lemma InterleavedDelegateExactly(s: State, events: seq<Event>, p: Id, id: Id, jti: Id, i: DelegateInput, now: int)
    requires Inv(s) && DelegateRefusal(s, p, i).None? && FreshAgent(Run(s, events), id, jti)
    ensures var u := Run(s, events);
            && p in u.agents
            && (Inv(IssueAgent(u, id, ChildRow(s.agents[p], p, i, jti, now))) <==>
                u.agents[p].status !in {Revoked, Deprovisioned} && Unexpired(u.agents, p))
  {
    hide Run, Step, Granted, TokensOk;
    var u, row := Run(s, events), ChildRow(s.agents[p], p, i, jti, now);
    NeverActiveAgain(s, events, p);
    assert RowOk(s.agents[p]) && RowOk(u.agents[p]);
    if u.agents[p].status !in {Revoked, Deprovisioned} && Unexpired(u.agents, p) {
      IssueKeepsInv(u, id, row);
    } else if Inv(IssueAgent(u, id, row)) {
      ActiveLeafHasLiveParent(u, id, row, p);
    }
  }

  lemma ActiveLeafHasLiveParent(u: State, id: Id, row: Agent, p: Id)
    requires Inv(u) && id !in u.agents && p in u.agents && Inv(IssueAgent(u, id, row))
    requires row.parent == Some(p) && row.depth == u.agents[p].depth + 1 && row.status == Active && row.revokedAt.None?
    ensures u.agents[p].status !in {Revoked, Deprovisioned} && Unexpired(u.agents, p)
  {
    hide TokensOk;
    var v := IssueAgent(u, id, row).agents;
    InsertForest(u.agents, id, row);
    assert LinkOk(v, id) && RowOk(v[p]);
    forall a | Under(u.agents, a, p) ensures u.agents[a].status != Expired {
      assert Under(v, a, id);
    }
  }

  /** Such a run: the parent is revoked meanwhile. The cascade misses the child, which is then active below a
      revoked parent. */
  lemma RevocationDuringDelegate(s: State, p: Id, id: Id, jti: Id, i: DelegateInput, now: int, at: int)
    requires Inv(s) && DelegateRefusal(s, p, i).None? && FreshAgent(s, id, jti)
    ensures var u := IssueAgent(Run(s, [Event.Revoke(p, at)]), id, ChildRow(s.agents[p], p, i, jti, now));
            && p in u.agents && u.agents[p].status == Revoked
            && u.agents[id].status == Active && u.agents[id].parent == Some(p) && !Inv(u)
  {
    var e := Event.Revoke(p, at);
    assert [e][1..] == [];
    assert Run(s, [e]) == Step(s, e) == s.(agents := RevokeCascade(s.agents, p, at));
    InterleavedDelegateExactly(s, [e], p, id, jti, i, now);
  }

  // ---- Leaving humans

  /** Deprovisioning by email reaches all and only that human's agents, and the cascade it does not
      perform would have changed nothing more. */
  lemma DeprovisionHumanIsComplete(events: seq<Event>, email: string, now: int)
    ensures var t, u := Reached(events).agents, DeprovisionEmail(Reached(events).agents, email, now);
            && (forall x <- t :: t[x].human.email == email ==> u[x].status == Deprovisioned)
            && (forall x <- t :: t[x].human.email != email ==> u[x] == t[x])
            && (forall x, y :: y in t && Under(t, x, y) && t[x].human.email == email ==> u[y].status == Deprovisioned)
  {
    var t := Reached(events).agents;
    forall x, y | y in t && Under(t, x, y) && t[x].human.email == email ensures t[y].human.email == email {
      AncestorFacts(t, x, y);
    }
  }

  /** The SCIM cascade leaves no active agent with that subject and touches nobody else's. */
  lemma ScimIsComplete(events: seq<Event>, sub: string, now: int)
    ensures var t, u := Reached(events).agents, ScimRevoke(Reached(events).agents, sub, now);
            && (forall x <- t :: t[x].human.sub == sub ==> u[x].status != Active)
            && (forall x <- t :: t[x].human.sub != sub ==> u[x] == t[x])
  {
    var t := Reached(events).agents;
    forall x | x in t
      ensures t[x].human.sub == sub && t[x].status == Active ==> ScimHit(t, sub, x)
      ensures t[x].human.sub != sub ==> !ScimHit(t, sub, x)
    {
      ScimHitMeaning(t, sub, x);
    }
  }

  /** A human is a subject at an issuer, and the webhook looks at the subject alone. It leaves the departed human no
      active agent, and leaves every other human's agents alone exactly if no active agent with that subject belongs to
      another human. */
  lemma ScimSparesOthersExactly(events: seq<Event>, h: Human, now: int)
    ensures var t, u := Reached(events).agents, ScimRevoke(Reached(events).agents, h.sub, now);
            && (forall x <- t :: t[x].human == h ==> u[x].status != Active)
            && ((forall x <- t :: t[x].human != h ==> u[x] == t[x]) <==>
                (forall y <- t :: t[y].status == Active && t[y].human.sub == h.sub ==> t[y].human == h))
  {
    hide Run;
    var t, u := Reached(events).agents, ScimRevoke(Reached(events).agents, h.sub, now);
    ScimIsComplete(events, h.sub, now);
    forall y | y in t && t[y].status == Active && t[y].human.sub == h.sub ensures u[y].status == Revoked {
      ScimHitMeaning(t, h.sub, y);
    }
    forall x | x in t && t[x].human != h && u[x] != t[x]
      ensures exists y :: y in t && t[y].status == Active && t[y].human.sub == h.sub && t[y].human != h
    {
      var y :| y in t && t[y].human.sub == h.sub && t[y].status == Active && Under(t, y, x);
      AncestorFacts(t, y, x);
    }
  }

  /** Likewise for deprovisioning, which looks at the email address alone. */
  lemma DeprovisionSparesOthersExactly(events: seq<Event>, h: Human, now: int)
    ensures var t, u := Reached(events).agents, DeprovisionEmail(Reached(events).agents, h.email, now);
            && (forall x <- t :: t[x].human == h ==> u[x].status == Deprovisioned)
            && ((forall x <- t :: t[x].human != h ==> u[x] == t[x]) <==>
                (forall y <- t :: t[y].status != Deprovisioned && t[y].human.email == h.email ==> t[y].human == h))
  {
    hide Run;
    var t, u := Reached(events).agents, DeprovisionEmail(Reached(events).agents, h.email, now);
    forall y | y in t && t[y].status != Deprovisioned && t[y].human.email == h.email ensures u[y] != t[y] {
      assert u[y].status == Deprovisioned;
    }
  }

  lemma ScimHitMeaning(t: Table, sub: string, x: Id)
    requires TreeOk(t) && x in t
    ensures t[x].human.sub == sub && t[x].status == Active ==> ScimHit(t, sub, x)
    ensures ScimHit(t, sub, x) ==> t[x].human.sub == sub
  {
    if ScimHit(t, sub, x) {
      var y :| y in t && t[y].human.sub == sub && t[y].status == Active && Under(t, y, x);
      AncestorFacts(t, y, x);
    }
    if t[x].human.sub == sub && t[x].status == Active {
      assert Under(t, x, x);
    }
  }

  // ---- Verification of tool calls

  datatype Reason = EmptyTool | TokenRejected | UnknownToken | AgentRevoked | RowExpired | NotInScope

  datatype Verdict = Refused(reason: Reason) | Allowed(agent: Id, chain: seq<Id>)

  ghost predicate Holds(s: State, jti: Id, x: Id) {
    x in s.agents && s.agents[x].jti == jti
  }

  /** `/verify`, test by test: `checked` is the reading of the clock by the token's verification, `now` the later one
      by the handler's own test; the row is the one found after the wait between them. */
  ghost function Verify(s: State, jti: Id, tool: string, checked: int, now: int): Verdict
    requires Forest(s.agents)
  {
    if tool == "" then Refused(EmptyTool)
    else if !TokenLive(s, jti, checked) then Refused(TokenRejected)
    else if !exists x :: Holds(s, jti, x) then Refused(UnknownToken)
    else
      var x :| Holds(s, jti, x);
      if s.agents[x].status == Revoked then Refused(AgentRevoked)
      else if s.agents[x].expiresAt < now then Refused(RowExpired)
      else if tool !in s.agents[x].scope then Refused(NotInScope)
      else Allowed(x, Chain(s.agents, x))
  }

  /** Whatever runs during the wait, the token is worth what it was worth before. */
  lemma {:induction false} WaitKeepsToken(s: State, events: seq<Event>, jti: Id)
    requires Inv(s) && jti in s.tokens
    ensures jti in Run(s, events).tokens && Run(s, events).tokens[jti] == s.tokens[jti]
    decreases |events|
  {
    hide TokensOk, ExpiryClosed, RowOk, EdgeOk, Under, NextTable, RegisterRefusal, DelegateRefusal, TokenLive;
    if events != [] {
      WaitKeepsToken(Step(s, events[0]), events[1..], jti);
    }
  }

  lemma HolderIsUnique(s: State, jti: Id, x: Id)
    requires Inv(s) && Holds(s, jti, x)
    ensures jti in s.tokens && x == s.tokens[jti].agent
  {
  }

  /** When exactly a call is allowed, and when exactly the row's own expiry test decides: of the five statuses only
      `revoked` refuses, and the test only matters if the expiry falls between the two readings of the clock. */
  lemma VerifyExactly(s: State, jti: Id, tool: string, checked: int, now: int)
    requires Inv(s)
    ensures Verify(s, jti, tool, checked, now).Allowed? <==>
              && tool != "" && TokenLive(s, jti, checked)
              && Holds(s, jti, s.tokens[jti].agent)
              && s.agents[s.tokens[jti].agent].status != Revoked
              && now <= s.agents[s.tokens[jti].agent].expiresAt
              && tool in s.agents[s.tokens[jti].agent].scope
    ensures Verify(s, jti, tool, checked, now).Allowed? ==>
              Verify(s, jti, tool, checked, now) == Allowed(s.tokens[jti].agent, Chain(s.agents, s.tokens[jti].agent))
    ensures Verify(s, jti, tool, checked, now) == Refused(RowExpired) <==>
              && tool != "" && TokenLive(s, jti, checked)
              && Holds(s, jti, s.tokens[jti].agent)
              && s.agents[s.tokens[jti].agent].status != Revoked
              && s.agents[s.tokens[jti].agent].expiresAt < now
    ensures Verify(s, jti, tool, checked, now) == Refused(RowExpired) ==>
              checked < s.agents[s.tokens[jti].agent].expiresAt < now
  {
    if tool != "" && TokenLive(s, jti, checked) && exists x :: Holds(s, jti, x) {
      var x :| Holds(s, jti, x);
      HolderIsUnique(s, jti, x);
      assert forall y :: Holds(s, jti, y) ==> y == x by {
        forall y | Holds(s, jti, y) ensures y == x { HolderIsUnique(s, jti, y); }
      }
    }
  }

  ghost predicate TimedUpTo(events: seq<Event>, now: int) {
    && (forall i :: 0 <= i < |events| ==> events[i].at <= now)
    && (forall i, j :: 0 <= i <= j < |events| ==> events[i].at <= events[j].at)
  }

  ghost predicate ExpiredPast(t: Table, now: int) {
    forall x <- t :: t[x].status == Expired ==> t[x].expiresAt <= now
  }

  /** Only a sweep expires a row, and only one whose time has come. */
  lemma {:induction false} ExpiredIsPast(s: State, events: seq<Event>, now: int)
    requires Inv(s) && TimedUpTo(events, now) && ExpiredPast(s.agents, now)
    ensures ExpiredPast(Run(s, events).agents, now)
    decreases |events|
  {
    hide Step, TokensOk, ExpiryClosed, RowOk, EdgeOk, Under, ExpiredPast;
    if events != [] {
      StepExpiresPast(s, events[0], now);
      ExpiredIsPast(Step(s, events[0]), events[1..], now);
    }
  }

  lemma StepExpiresPast(s: State, e: Event, now: int)
    requires Inv(s) && e.at <= now && ExpiredPast(s.agents, now)
    ensures ExpiredPast(Step(s, e).agents, now)
  {
    hide TokensOk, RowOk, EdgeOk, Under, ExpiryClosed, ScimHit, TokenLive, RegisterRefusal, DelegateRefusal, Granted;
  }

  /** Along the chain of `x`: nobody has expired before `x`, and nobody delegated more than it held. */
  lemma ChainBounds(t: Table, x: Id, a: Id)
    requires TreeOk(t) && x in t && a in Chain(t, x)
    ensures a in t && t[x].expiresAt <= t[a].expiresAt
    ensures t[a].depth >= 1 ==> Subset(t[x].scope, t[a].scope)
    ensures a != x ==> Subset(t[x].scope, t[a].canDelegate)
    ensures Chain(t, x)[0] in t && t[Chain(t, x)[0]].parent.None?
  {
    ChainIsInverse(t, x);
    assert a == x || x in Descendants(t, a);
    AncestorFacts(t, a, x);
    assert Placed(t, a) && Placed(t, Chain(t, x)[0]);
  }

  /** What a caller may conclude from an allowed call. */
  lemma AllowedMeansInForce(events: seq<Event>, jti: Id, tool: string, checked: int, now: int)
    requires TimedUpTo(events, now) && Verify(Reached(events), jti, tool, checked, now).Allowed?
    ensures var t, v := Reached(events).agents, Verify(Reached(events), jti, tool, checked, now);
            && v.agent in t && v.chain == Chain(t, v.agent) && v.chain[0] in t && t[v.chain[0]].parent.None?
            && t[v.agent].status != Revoked
            && (t[v.agent].status == Expired ==> checked < now == t[v.agent].expiresAt)
            && (forall a <- v.chain :: a in t && checked < t[a].expiresAt && now <= t[a].expiresAt)
            && (forall a <- v.chain :: t[a].depth >= 1 ==> tool in t[a].scope)
            && (v.agent != v.chain[0] ==> tool in t[v.chain[0]].canDelegate)
  {
    var s := Reached(events);
    var t, x := s.agents, s.tokens[jti].agent;
    VerifyExactly(s, jti, tool, checked, now);
    assert ExpiredPast(t, now) by { ExpiredIsPast(EMPTY_REGISTRY, events, now); }
    hide Verify, Run, RowOk, LinkOk, Under, ExpiryClosed, Chain;
    assert checked < t[x].expiresAt;
    forall a | a in Chain(t, x)
      ensures a in t && checked < t[a].expiresAt && now <= t[a].expiresAt && (t[a].depth >= 1 ==> tool in t[a].scope)
      ensures a != x ==> tool in t[a].canDelegate
    {
      ChainBounds(t, x, a);
    }
    ChainBounds(t, x, Chain(t, x)[0]);
  }

  /** An expired agent with a token that was in time is allowed exactly at its instant of expiry: the sweep has run
      during the wait, and the row's own test still lets that instant pass. */
  lemma ExpiredIsAllowedExactly(events: seq<Event>, jti: Id, tool: string, checked: int, now: int)
    requires TimedUpTo(events, now)
    requires var s := Reached(events);
             && tool != "" && TokenLive(s, jti, checked) && Holds(s, jti, s.tokens[jti].agent)
             && s.agents[s.tokens[jti].agent].status == Expired && tool in s.agents[s.tokens[jti].agent].scope
    ensures var s := Reached(events);
            Verify(s, jti, tool, checked, now).Allowed? <==> now == s.agents[s.tokens[jti].agent].expiresAt
  {
    var s := Reached(events);
    VerifyExactly(s, jti, tool, checked, now);
    assert ExpiredPast(s.agents, now) by { ExpiredIsPast(EMPTY_REGISTRY, events, now); }
  }

  /** With roots that only delegate what they hold, every ancestor has the tool in scope. */
  lemma AllowedByEveryAncestor(events: seq<Event>, jti: Id, tool: string, checked: int, now: int, a: Id)
    requires TimedUpTo(events, now) && Verify(Reached(events), jti, tool, checked, now).Allowed?
    requires a in Verify(Reached(events), jti, tool, checked, now).chain
    requires var t := Reached(events).agents; forall r <- t :: t[r].parent.None? ==> Subset(t[r].canDelegate, t[r].scope)
    ensures a in Reached(events).agents && tool in Reached(events).agents[a].scope
  {
    AllowedMeansInForce(events, jti, tool, checked, now);
    var t, v := Reached(events).agents, Verify(Reached(events), jti, tool, checked, now);
    ChainIsInverse(t, v.agent);
    VerifyExactly(Reached(events), jti, tool, checked, now);
  }

  /** Revoking refuses the calls of the whole subtree. */
  lemma RevocationRefuses(s: State, a: Id, x: Id, jti: Id, tool: string, at: int, checked: int, now: int)
    requires Inv(s) && a in s.agents && s.agents[a].status != Revoked && x in s.agents && Under(s.agents, a, x)
    requires TokenLive(s, jti, checked) && Holds(s, jti, x) && tool != ""
    ensures Verify(Step(s, Event.Revoke(a, at)), jti, tool, checked, now) == Refused(AgentRevoked)
  {
    var r := Step(s, Event.Revoke(a, at));
    assert r == s.(agents := RevokeCascade(s.agents, a, at));
    assert Holds(r, jti, x) && r.agents[x].status == Revoked;
    forall y | Holds(r, jti, y) ensures y == x { HolderIsUnique(r, jti, y); HolderIsUnique(r, jti, x); }
  }

  /** Deprovisioning does not, whatever the status was before: even a revoked agent's calls pass again until its expiry. */
  lemma DeprovisioningAllows(s: State, a: Id, x: Id, jti: Id, tool: string, at: int, checked: int, now: int)
    requires Inv(s) && a in s.agents && s.agents[a].status != Deprovisioned && x in s.agents && Under(s.agents, a, x)
    requires TokenLive(s, jti, checked) && Holds(s, jti, x) && tool != "" && tool in s.agents[x].scope
    ensures Verify(Step(s, Event.DeprovisionAgent(a, at)), jti, tool, checked, now).Allowed? <==> now <= s.agents[x].expiresAt
  {
    var d := Step(s, Event.DeprovisionAgent(a, at));
    assert d == s.(agents := DeprovisionCascade(s.agents, a, at));
    assert d.agents[x] == DeprovisionRow(s.agents[x], at);
    HolderIsUnique(s, jti, x);
    hide Step, DeprovisionCascade, Verify, RowOk, EdgeOk, Under, ExpiryClosed;
    VerifyExactly(d, jti, tool, checked, now);
  }

  const SAMPLE_INPUT := RegisterInput(true, "default", true, Claimed(Human("u", "u@x.io", "https://x.io")), ["read"], 3, [], 60, Minimal)

  /** The registry after one registration: agent 1 with token 2, for one minute. */
  ghost function Sample(): (s: State)
    ensures Inv(s) && s.agents.Keys == {1} && Holds(s, 2, 1) && s.tokens == map[2 := Token(1, 60)]
    ensures s.agents[1].status == Active && s.agents[1].expiresAt == 60000 && s.agents[1].scope == ["read"]
  {
    assert RegisterRefusal(SAMPLE_INPUT).None?;
    Step(EMPTY_REGISTRY, Event.Register(1, 2, SAMPLE_INPUT, 0))
  }

  /** "Exists and is active" is what `/verify` announces and not what it tests: a registered and then
      deprovisioned agent is still allowed to call. */
  lemma DeprovisionedAgentIsAllowed()
    ensures var u := Step(Sample(), Event.DeprovisionAgent(1, 1));
            u.agents.Keys == {1} && u.agents[1].status == Deprovisioned && Verify(u, 2, "read", 2, 2).Allowed?
  {
    hide Sample;
    var s := Sample();
    assert Under(s.agents, 1, 1);
    DeprovisioningAllows(s, 1, 1, 2, "read", 1, 2, 2);
  }

  /** The expiry falls into the wait: with a sweep at that instant an expired agent is allowed; a moment later the row's
      own test refuses. */
  lemma ExpiryDuringTheWait()
    ensures var u := Step(Sample(), Event.AutoExpiry(60000));
            && TokenLive(Sample(), 2, 59999)
            && u.agents.Keys == {1} && u.agents[1].status == Expired
            && Verify(u, 2, "read", 59999, 60000).Allowed?
            && Verify(u, 2, "read", 59999, 60001) == Refused(RowExpired)
  {
    hide Sample;
    var s := Sample();
    var u := Step(s, Event.AutoExpiry(60000));
    assert u == s.(agents := ExpireDue(s.agents, 60000));
    hide Step, ExpireDue, Verify;
    VerifyExactly(u, 2, "read", 59999, 60000);
    VerifyExactly(u, 2, "read", 59999, 60001);
  }

  function Visitor(h: Human): RegisterInput {
    RegisterInput(true, "default", true, Claimed(h), ["read"], 3, [], 60, Minimal)
  }

  /** Two humans have registered one agent each. */
  ghost function TwoVisitors(g: Human, h: Human): seq<Event> {
    [Event.Register(1, 2, Visitor(g), 0), Event.Register(3, 4, Visitor(h), 0)]
  }

  lemma SecondVisitor(g: Human, h: Human)
    ensures var t := Reached(TwoVisitors(g, h)).agents; 3 in t && t[3].status == Active && t[3].human == h
  {
    hide Inv;
    var a, b := Event.Register(1, 2, Visitor(g), 0), Event.Register(3, 4, Visitor(h), 0);
    assert RegisterRefusal(Visitor(g)).None? && RegisterRefusal(Visitor(h)).None?;
    assert [a, b][1..] == [b] && [b][1..] == [];
    NothingRegistered();
    var s := Step(EMPTY_REGISTRY, a);
    assert s.agents.Keys == {1} && s.tokens.Keys == {2};
    var r := Step(s, b);
    assert r.agents[3] == RootRow(Visitor(h), 4, 0);
    assert Reached([a, b]) == Run(s, [b]) == Run(r, []) == r;
  }

  lemma NothingRegistered()
    ensures Inv(EMPTY_REGISTRY)
  {
  }

  /** Two humans of different issuers share a subject: one leaves, and the other's agent is revoked. */
  lemma SharedSubjectIsRevoked(g: Human, h: Human, now: int)
    requires g.sub == h.sub && g != h
    ensures var t := Reached(TwoVisitors(g, h)).agents;
            3 in t && t[3].human == h != g && ScimRevoke(t, g.sub, now)[3].status == Revoked
  {
    hide Run;
    SecondVisitor(g, h);
    ScimHitMeaning(Reached(TwoVisitors(g, h)).agents, g.sub, 3);
  }

  /** Two subjects share an address: one is deprovisioned, and so is the other's agent. */
  lemma SharedAddressIsDeprovisioned(g: Human, h: Human, now: int)
    requires g.email == h.email && g != h
    ensures var t := Reached(TwoVisitors(g, h)).agents;
            3 in t && t[3].human == h != g && DeprovisionEmail(t, g.email, now)[3].status == Deprovisioned
  {
    SecondVisitor(g, h);
  }

  // ---- The identifier `system`

  /** Identifiers are generated; none of them is the given one. */
  ghost predicate NeverIssued(events: seq<Event>, id: Id) {
    forall e <- events :: (e.Register? ==> e.id != id) && (e.Delegate? ==> e.id != id)
  }

  /** An identifier that no step issues belongs to no agent, ever. */
  lemma {:induction false} NotAnAgent(s: State, events: seq<Event>, id: Id)
    requires Inv(s) && id !in s.agents && NeverIssued(events, id)
    ensures id !in Run(s, events).agents
    decreases |events|
  {
    hide TokensOk, ExpiryClosed, RowOk, EdgeOk, Under, RegisterRefusal, DelegateRefusal, TokenLive;
    if events != [] {
      assert events[0] in events && forall e <- events[1..] :: e in events;
      NotAnAgent(Step(s, events[0]), events[1..], id);
    }
  }
}
