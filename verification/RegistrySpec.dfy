/**
 The registry as a state machine. Each handler of the server and each background job is one
 atomic step at one time, but for the delegate handler's token check, which has its own; `RegistryWaits`
 takes the waits inside handlers apart. `Apply` gives the state after a step, unchanged when the
 handler refuses. Signed tokens are the entries of `tokens`: a token verifies exactly when it
 was issued and its `exp` (whole seconds) is still ahead.
 */
module RegistrySpec {
  import opened Prelude
  import opened Agents

  datatype Token = Token(agent: Id, exp: int)

  datatype State = State(agents: Table, tokens: map<Id, Token>)

  datatype Error =
    | ValidationFailed | UnacceptableRisk | HighRiskUnverified | HighRiskTooDeep | HighRiskWildcard
    | InvalidToken | TokenMismatch | NotFound | NotActive | DepthExceeded | NothingDelegatable
    | AlreadyRevoked | AlreadyDeprovisioned | UnknownOrganisation
    | OidcNotConfigured | IdTokenRejected | HumanMissing

  /** Who asks: an ID token without a provider to verify it, one that is rejected, one that is accepted, or without a
      token the fields of the request, some of which may be missing. */
  datatype Identity = NoProvider | BadIdToken | IdToken(human: Human) | NoFields | Claimed(human: Human)

  /** `wellFormed`: the name and the human's fields, where given, pass the schema's format rules. */
  datatype RegisterInput = RegisterInput(
    wellFormed: bool, org: string, orgExists: bool, identity: Identity, scope: seq<string>, maxDepth: int,
    canDelegate: seq<string>, ttlSeconds: int, risk: Risk)

  /** `checkedAt` is the clock reading of the parent token's verification, before the parent is looked up. */
  datatype DelegateInput = DelegateInput(token: Id, requested: seq<string>, ttlSeconds: int, checkedAt: int)

  const MAX_TTL_SECONDS := 86400 * 30

  // ---- Guards

  predicate NonEmptyStrings(s: seq<string>) {
    s != [] && forall x <- s :: x != ""
  }

  function Seconds(ms: int): int {
    ms / 1000
  }

  predicate TokenLive(s: State, jti: Id, now: int) {
    jti in s.tokens && Seconds(now) < s.tokens[jti].exp
  }

  function RegisterRefusal(i: RegisterInput): Option<Error> {
    if !i.wellFormed || !NonEmptyStrings(i.scope) || !(0 <= i.maxDepth <= 10) || !(60 <= i.ttlSeconds <= MAX_TTL_SECONDS)
    then Some(ValidationFailed)
    else if i.identity.NoProvider? then Some(OidcNotConfigured)
    else if i.identity.BadIdToken? then Some(IdTokenRejected)
    else if i.identity.NoFields? then Some(HumanMissing)
    else if i.risk == Unacceptable then Some(UnacceptableRisk)
    else if i.risk == High && !i.identity.IdToken? then Some(HighRiskUnverified)
    else if i.risk == High && i.maxDepth > 1 then Some(HighRiskTooDeep)
    else if i.risk == High && ("*" in i.scope || "all" in i.scope) then Some(HighRiskWildcard)
    else if !i.orgExists then Some(UnknownOrganisation)
    else None
  }

  function RootRow(i: RegisterInput, jti: Id, now: int): Agent
    requires RegisterRefusal(i).None?
  {
    Agent(i.org, i.identity.human, i.scope, None, 0, i.maxDepth,
          if |i.canDelegate| > 0 then i.canDelegate else i.scope,
          jti, Active, i.risk, now + i.ttlSeconds * 1000, None, None, None)
  }

  /** The requested scopes the parent may hand on, in request order. */
  function Granted(requested: seq<string>, delegatable: seq<string>): (g: seq<string>)
    ensures forall x :: x in g <==> x in requested && x in delegatable
  {
    if requested == [] then []
    else if requested[0] in delegatable then [requested[0]] + Granted(requested[1..], delegatable)
    else Granted(requested[1..], delegatable)
  }

  lemma {:induction false} GrantedSnoc(requested: seq<string>, x: string, delegatable: seq<string>)
    ensures Granted(requested + [x], delegatable)
            == Granted(requested, delegatable) + if x in delegatable then [x] else []
  {
    if requested == [] {
      assert [x][1..] == [];
    } else {
      assert (requested + [x])[1..] == requested[1..] + [x];
      GrantedSnoc(requested[1..], x, delegatable);
    }
  }

  /** The grant is the request, in its order and with its repetitions, without what may not be handed on. */
  lemma {:induction false} GrantedExactly(requested: seq<string>, delegatable: seq<string>)
    ensures IsFilter(Granted(requested, delegatable), requested, Elements(delegatable))
    ensures forall x :: multiset(Granted(requested, delegatable))[x] == if x in delegatable then multiset(requested)[x] else 0
  {
    hide Granted, IsFilter;
    if requested == [] {
      FilterNothing(Elements(delegatable));
      NothingGranted(delegatable);
    } else {
      var init, x := requested[..|requested| - 1], requested[|requested| - 1];
      assert requested == init + [x];
      GrantedExactly(init, delegatable);
      GrantedSnoc(init, x, delegatable);
      FilterSnoc(Granted(init, delegatable), init, Elements(delegatable), x);
      assert Granted(init, delegatable) + [] == Granted(init, delegatable);
    }
  }

  lemma NothingGranted(delegatable: seq<string>)
    ensures Granted([], delegatable) == []
  {
  }

  function DelegateRefusal(s: State, parent: Id, i: DelegateInput): Option<Error> {
    if !NonEmptyStrings(i.requested) || !(60 <= i.ttlSeconds <= MAX_TTL_SECONDS) then Some(ValidationFailed)
    else if !TokenLive(s, i.token, i.checkedAt) then Some(InvalidToken)
    else if s.tokens[i.token].agent != parent then Some(TokenMismatch)
    else if parent !in s.agents then Some(NotFound)
    else if s.agents[parent].status != Active then Some(NotActive)
    else if s.agents[parent].depth >= s.agents[parent].maxDepth then Some(DepthExceeded)
    else if Granted(i.requested, s.agents[parent].canDelegate) == [] then Some(NothingDelegatable)
    else None
  }

  function Min(a: int, b: int): int {
    if a <= b then a else b
  }

  function ChildRow(p: Agent, parent: Id, i: DelegateInput, jti: Id, now: int): Agent {
    var granted := Granted(i.requested, p.canDelegate);
    Agent(p.org, p.human, granted, Some(parent), p.depth + 1, p.maxDepth, granted, jti, Active, p.risk,
          Min(p.expiresAt, now + i.ttlSeconds * 1000), None, None, None)
  }

  // ---- Table updates

  /** Set `revoked` on the whole subtree of `a`. */
  ghost function RevokeCascade(t: Table, a: Id, now: int): Table
    requires Forest(t)
  {
    map x | x in t :: if Under(t, a, x) then t[x].(status := Revoked, revokedAt := Some(now)) else t[x]
  }

  function DeprovisionRow(r: Agent, now: int): Agent {
    r.(status := Deprovisioned, deprovisionedAt := Some(now),
       revokedAt := if r.revokedAt.Some? then r.revokedAt else Some(now))
  }

  ghost function DeprovisionCascade(t: Table, a: Id, now: int): Table
    requires Forest(t)
  {
    map x | x in t :: if Under(t, a, x) then DeprovisionRow(t[x], now) else t[x]
  }

  /** No cascade here: rows are picked by email alone. */
  function DeprovisionEmail(t: Table, email: string, now: int): Table {
    map x | x in t ::
      if t[x].human.email == email && t[x].status != Deprovisioned then DeprovisionRow(t[x], now) else t[x]
  }

  predicate Expirable(r: Agent, now: int) {
    r.status == Active && r.expiresAt <= now
  }

  function ExpireDue(t: Table, now: int): Table {
    map x | x in t :: if Expirable(t[x], now) then t[x].(status := Expired) else t[x]
  }

  predicate LooksStale(r: Agent, cutoff: int) {
    r.status == Active && (r.lastSeenAt.None? || r.lastSeenAt.value <= cutoff)
  }

  function MarkStale(t: Table, cutoff: int): Table {
    map x | x in t :: if LooksStale(t[x], cutoff) then t[x].(status := Stale) else t[x]
  }

  /** `x` hangs under an active agent of the human with subject `sub`. */
  ghost predicate ScimHit(t: Table, sub: string, x: Id)
    requires Forest(t) && x in t
  {
    exists y :: y in t && t[y].human.sub == sub && t[y].status == Active && Under(t, y, x)
  }

  ghost function ScimRevoke(t: Table, sub: string, now: int): Table
    requires Forest(t)
  {
    map x | x in t :: if ScimHit(t, sub, x) then t[x].(status := Revoked, revokedAt := Some(now)) else t[x]
  }

  // ---- Steps

  datatype Event =
    | Register(id: Id, jti: Id, reg: RegisterInput, at: int)
    | Delegate(parent: Id, id: Id, jti: Id, del: DelegateInput, at: int)
    | Revoke(id: Id, at: int)
    | Scim(sub: string, at: int)
    | AutoExpiry(at: int)
    | StaleSweep(cutoff: int, at: int)
    | DeprovisionAgent(id: Id, at: int)
    | DeprovisionHuman(email: string, at: int)
    | Rotate(id: Id, jti: Id, at: int)
    | Heartbeat(id: Id, at: int)

  /** Generated identifiers are new; an event carrying a used one is no event. */
  predicate FreshAgent(s: State, id: Id, jti: Id) {
    id !in s.agents && jti !in s.tokens
  }

  function IssueAgent(s: State, id: Id, row: Agent): State {
    State(s.agents[id := row], s.tokens[row.jti := Token(id, Seconds(row.expiresAt))])
  }

  /** The steps that only update rows. */
  ghost function NextTable(t: Table, e: Event): Table
    requires Forest(t)
  {
    match e
    case Revoke(a, now) => if a in t && t[a].status != Revoked then RevokeCascade(t, a, now) else t
    case Scim(sub, now) => ScimRevoke(t, sub, now)
    case AutoExpiry(now) => ExpireDue(t, now)
    case StaleSweep(cutoff, _) => MarkStale(t, cutoff)
    case DeprovisionAgent(a, now) => if a in t && t[a].status != Deprovisioned then DeprovisionCascade(t, a, now) else t
    case DeprovisionHuman(email, now) => DeprovisionEmail(t, email, now)
    case Heartbeat(a, now) => if a in t then t[a := t[a].(lastSeenAt := Some(now))] else t
    case _ => t
  }

  ghost function Apply(s: State, e: Event): State
    requires Forest(s.agents)
  {
    match e
    case Register(id, jti, i, now) =>
      if FreshAgent(s, id, jti) && RegisterRefusal(i).None? then IssueAgent(s, id, RootRow(i, jti, now)) else s
    case Delegate(p, id, jti, i, now) =>
      if FreshAgent(s, id, jti) && DelegateRefusal(s, p, i).None?
      then IssueAgent(s, id, ChildRow(s.agents[p], p, i, jti, now)) else s
    case Rotate(a, jti, _) =>
      if a in s.agents && s.agents[a].status == Active && jti !in s.tokens
      then State(s.agents[a := s.agents[a].(jti := jti)],
                 s.tokens[jti := Token(a, Seconds(s.agents[a].expiresAt))])
      else s
    case _ => s.(agents := NextTable(s.agents, e))
  }

  // ---- The invariant

  /** What delegation and the cascades keep true of every parent `p` and child `c`. */
  ghost predicate EdgeOk(p: Agent, c: Agent) {
    && c.human == p.human && c.org == p.org && c.risk == p.risk && c.maxDepth == p.maxDepth
    && c.expiresAt <= p.expiresAt
    && c.canDelegate == c.scope
    && Subset(c.scope, p.canDelegate)
    && (p.revokedAt.Some? ==> c.revokedAt.Some?)
  }

  ghost predicate RowOk(r: Agent) {
    && r.depth <= r.maxDepth
    && (r.revokedAt.Some? <==> r.status in {Revoked, Deprovisioned})
    && (r.status == Deprovisioned ==> r.deprovisionedAt.Some?)
    && r.risk != Unacceptable
    && (r.risk == High ==> r.maxDepth <= 1)
  }

  ghost predicate LinkOk(t: Table, x: Id)
    requires Forest(t) && x in t
  {
    assert Placed(t, x);
    t[x].parent.Some? ==> EdgeOk(t[t[x].parent.value], t[x])
  }

  ghost predicate TreeOk(t: Table) {
    && Forest(t)
    && (forall x {:trigger RowOk(t[x])} | x in t :: RowOk(t[x]))
    && (forall x {:trigger LinkOk(t, x)} | x in t :: LinkOk(t, x))
  }

  /** Nothing below an expired agent is active. */
  ghost predicate ExpiryClosed(t: Table)
    requires Forest(t)
  {
    forall a, b :: b in t && Under(t, a, b) && t[a].status == Expired ==> t[b].status != Active
  }

  /** Every token belongs to a row and ends with it; every row's current token was issued for it. */
  ghost predicate TokensOk(s: State) {
    && (forall j <- s.tokens :: s.tokens[j].agent in s.agents
          && s.tokens[j].exp == Seconds(s.agents[s.tokens[j].agent].expiresAt))
    && (forall x <- s.agents :: s.agents[x].jti in s.tokens && s.tokens[s.agents[x].jti].agent == x)
  }

  ghost predicate Inv(s: State) {
    TreeOk(s.agents) && ExpiryClosed(s.agents) && TokensOk(s)
  }

  /** Everything an edge preserves, an ancestor path preserves. */
  lemma {:induction false} AncestorFacts(t: Table, a: Id, b: Id)
    requires TreeOk(t) && b in t && Under(t, a, b)
    ensures t[b].human == t[a].human && t[b].org == t[a].org && t[b].risk == t[a].risk
    ensures t[b].maxDepth == t[a].maxDepth && t[b].expiresAt <= t[a].expiresAt
    ensures t[a].revokedAt.Some? ==> t[b].revokedAt.Some?
    ensures a != b ==> Subset(t[b].scope, t[a].canDelegate) && Subset(t[b].canDelegate, t[a].canDelegate)
    ensures t[a].parent.Some? ==> Subset(t[b].scope, t[a].scope)
    decreases t[b].depth
  {
    assert Placed(t, b) && LinkOk(t, b);
    if a != b {
      AncestorFacts(t, a, t[b].parent.value);
      assert LinkOk(t, t[b].parent.value);
    }
  }

  // ---- Preservation

  /** The columns no update ever writes. */
  ghost predicate SameIdentity(r: Agent, r': Agent) {
    && r'.org == r.org && r'.human == r.human && r'.scope == r.scope && r'.parent == r.parent
    && r'.depth == r.depth && r'.maxDepth == r.maxDepth && r'.canDelegate == r.canDelegate
    && r'.risk == r.risk && r'.expiresAt == r.expiresAt
  }

  /** A row update: the identifying columns stay, and no status becomes `active`. */
  ghost predicate RowUpdate(r: Agent, r': Agent) {
    SameIdentity(r, r') && RowOk(r') && (r'.status == Active ==> r.status == Active)
  }

  ghost predicate StatusUpdate(t: Table, u: Table) {
    t.Keys == u.Keys && forall x {:trigger RowUpdate(t[x], u[x])} | x in t :: RowUpdate(t[x], u[x])
  }

  /** The child's `revoked_at` is set wherever the parent's is. */
  ghost predicate RevokedBelow(t: Table, x: Id)
    requires x in t
  {
    t[x].parent.Some? && t[x].parent.value in t && t[t[x].parent.value].revokedAt.Some? ==> t[x].revokedAt.Some?
  }

  ghost predicate RevocationClosed(t: Table) {
    forall x {:trigger RevokedBelow(t, x)} | x in t :: RevokedBelow(t, x)
  }

  lemma StatusUpdateTree(t: Table, u: Table)
    requires TreeOk(t) && StatusUpdate(t, u) && RevocationClosed(u)
    ensures TreeOk(u) && SameShape(t, u)
    ensures forall a, b :: b in t ==> Under(t, a, b) == Under(u, a, b)
  {
    forall x | x in t ensures SamePlace(t[x], u[x]) && RowOk(u[x]) {
      assert RowUpdate(t[x], u[x]);
    }
    SameShapeForest(t, u);
    forall x | x in u ensures LinkOk(u, x) {
      assert LinkOk(t, x) && Placed(t, x) && RowUpdate(t[x], u[x]) && RevokedBelow(u, x);
      if t[x].parent.Some? {
        var p := t[x].parent.value;
        assert RowUpdate(t[p], u[p]);
      }
    }
  }

  /** Rows that newly expire must be past their expiry together with everything below them. */
  lemma StatusUpdateExpiry(t: Table, u: Table)
    requires TreeOk(t) && TreeOk(u) && ExpiryClosed(t) && StatusUpdate(t, u)
    requires forall a, b :: b in t ==> Under(t, a, b) == Under(u, a, b)
    requires forall a, b :: b in t && Under(t, a, b) && u[a].status == Expired && t[a].status != Expired
               ==> u[b].status != Active
    ensures ExpiryClosed(u)
  {
    forall a, b | b in u && Under(u, a, b) && u[a].status == Expired ensures u[b].status != Active {
      assert Under(t, a, b);
      assert RowUpdate(t[b], u[b]);
    }
  }

  lemma RevokeKeepsInv(t: Table, a: Id, now: int)
    requires TreeOk(t) && ExpiryClosed(t)
    ensures var u := RevokeCascade(t, a, now); StatusUpdate(t, u) && TreeOk(u) && ExpiryClosed(u)
  {
    var u := RevokeCascade(t, a, now);
    forall x | x in t ensures RowUpdate(t[x], u[x]) && RevokedBelow(u, x) {
      assert RowOk(t[x]) && Placed(t, x) && LinkOk(t, x);
    }
    StatusUpdateTree(t, u);
    StatusUpdateExpiry(t, u);
  }

  lemma DeprovisionKeepsInv(t: Table, a: Id, now: int)
    requires TreeOk(t) && ExpiryClosed(t)
    ensures var u := DeprovisionCascade(t, a, now); StatusUpdate(t, u) && TreeOk(u) && ExpiryClosed(u)
  {
    var u := DeprovisionCascade(t, a, now);
    forall x | x in t ensures RowUpdate(t[x], u[x]) && RevokedBelow(u, x) {
      assert RowOk(t[x]) && Placed(t, x) && LinkOk(t, x);
    }
    StatusUpdateTree(t, u);
    StatusUpdateExpiry(t, u);
  }

  /** Closed downwards although nothing cascades: a tree has one human. */
  lemma DeprovisionEmailKeepsInv(t: Table, email: string, now: int)
    requires TreeOk(t) && ExpiryClosed(t)
    ensures var u := DeprovisionEmail(t, email, now); StatusUpdate(t, u) && TreeOk(u) && ExpiryClosed(u)
  {
    var u := DeprovisionEmail(t, email, now);
    forall x | x in t ensures RowUpdate(t[x], u[x]) && RevokedBelow(u, x) {
      assert RowOk(t[x]) && Placed(t, x) && LinkOk(t, x);
    }
    StatusUpdateTree(t, u);
    StatusUpdateExpiry(t, u);
  }

  lemma ScimHitDown(t: Table, sub: string, x: Id)
    requires Forest(t) && x in t && t[x].parent.Some? && t[x].parent.value in t
    requires ScimHit(t, sub, t[x].parent.value)
    ensures ScimHit(t, sub, x)
  {
    var p := t[x].parent.value;
    var y :| y in t && t[y].human.sub == sub && t[y].status == Active && Under(t, y, p);
    assert Under(t, y, x);
  }

  lemma ScimStatusUpdate(t: Table, sub: string, now: int)
    requires TreeOk(t)
    ensures StatusUpdate(t, ScimRevoke(t, sub, now))
  {
    var u := ScimRevoke(t, sub, now);
    forall x | x in t ensures RowUpdate(t[x], u[x]) {
      assert RowOk(t[x]);
    }
  }

  lemma ScimKeepsInv(t: Table, sub: string, now: int)
    requires TreeOk(t) && ExpiryClosed(t)
    ensures var u := ScimRevoke(t, sub, now); StatusUpdate(t, u) && TreeOk(u) && ExpiryClosed(u)
  {
    var u := ScimRevoke(t, sub, now);
    ScimStatusUpdate(t, sub, now);
    forall x | x in t ensures RevokedBelow(u, x) {
      assert RowOk(t[x]) && Placed(t, x) && LinkOk(t, x);
      if t[x].parent.Some? && ScimHit(t, sub, t[x].parent.value) { ScimHitDown(t, sub, x); }
    }
    StatusUpdateTree(t, u);
    StatusUpdateExpiry(t, u);
  }

  lemma ExpireKeepsInv(t: Table, now: int)
    requires TreeOk(t) && ExpiryClosed(t)
    ensures var u := ExpireDue(t, now); StatusUpdate(t, u) && TreeOk(u) && ExpiryClosed(u)
  {
    var u := ExpireDue(t, now);
    forall x | x in t ensures RowUpdate(t[x], u[x]) && RevokedBelow(u, x) {
      assert RowOk(t[x]) && Placed(t, x) && LinkOk(t, x);
    }
    StatusUpdateTree(t, u);
    forall a, b | b in t && Under(t, a, b) && u[a].status == Expired && t[a].status != Expired
      ensures u[b].status != Active
    {
      AncestorFacts(t, a, b);
    }
    StatusUpdateExpiry(t, u);
  }

  lemma PlainUpdateKeepsInv(t: Table, u: Table)
    requires TreeOk(t) && ExpiryClosed(t) && StatusUpdate(t, u)
    requires forall x <- t :: u[x].revokedAt == t[x].revokedAt && (u[x].status == Expired ==> t[x].status == Expired)
    ensures TreeOk(u) && ExpiryClosed(u)
  {
    forall x | x in t ensures RevokedBelow(u, x) {
      assert Placed(t, x) && LinkOk(t, x) && RowUpdate(t[x], u[x]);
      if t[x].parent.Some? { assert RowUpdate(t[t[x].parent.value], u[t[x].parent.value]); }
    }
    StatusUpdateTree(t, u);
    StatusUpdateExpiry(t, u);
  }

  lemma StaleKeepsInv(t: Table, cutoff: int)
    requires TreeOk(t) && ExpiryClosed(t)
    ensures var u := MarkStale(t, cutoff); StatusUpdate(t, u) && TreeOk(u) && ExpiryClosed(u)
  {
    var u := MarkStale(t, cutoff);
    forall x | x in t ensures RowUpdate(t[x], u[x]) {
      assert RowOk(t[x]);
    }
    PlainUpdateKeepsInv(t, u);
  }

  /** Neither `p` nor anything above it has expired. */
  ghost predicate Unexpired(t: Table, p: Id)
    requires Forest(t) && p in t
  {
    forall a :: Under(t, a, p) ==> t[a].status != Expired
  }

  lemma IssueKeepsInv(s: State, id: Id, row: Agent)
    requires Inv(s) && FreshAgent(s, id, row.jti)
    requires RowOk(row) && row.status == Active
    requires match row.parent
             case None => row.depth == 0
             case Some(p) => p in s.agents && row.depth == s.agents[p].depth + 1
                             && Unexpired(s.agents, p) && EdgeOk(s.agents[p], row)
    ensures Inv(IssueAgent(s, id, row))
  {
    var t, s' := s.agents, IssueAgent(s, id, row);
    var u := s'.agents;
    InsertForest(t, id, row);
    forall x | x in u ensures LinkOk(u, x) && RowOk(u[x]) {
      if x != id { assert Placed(t, x) && LinkOk(t, x) && RowOk(t[x]); }
    }
    forall a, b | b in u && Under(u, a, b) && u[a].status == Expired ensures u[b].status != Active {
      if b != id { assert Under(t, a, b); }
    }
  }

  /** A row update that leaves the tokens alone keeps the whole invariant. */
  lemma UpdateKeepsInv(s: State, u: Table)
    requires TokensOk(s) && StatusUpdate(s.agents, u) && TreeOk(u) && ExpiryClosed(u)
    requires forall x <- u :: u[x].jti == s.agents[x].jti
    ensures Inv(s.(agents := u))
  {
    assert forall x | x in u :: RowUpdate(s.agents[x], u[x]);
  }

  lemma RegisterKeepsInv(s: State, id: Id, jti: Id, i: RegisterInput, now: int)
    requires Inv(s) && FreshAgent(s, id, jti) && RegisterRefusal(i).None?
    ensures Inv(IssueAgent(s, id, RootRow(i, jti, now)))
  {
    IssueKeepsInv(s, id, RootRow(i, jti, now));
  }

  lemma DelegateKeepsInv(s: State, p: Id, id: Id, jti: Id, i: DelegateInput, now: int)
    requires Inv(s) && FreshAgent(s, id, jti) && DelegateRefusal(s, p, i).None?
    ensures Inv(IssueAgent(s, id, ChildRow(s.agents[p], p, i, jti, now)))
  {
    assert RowOk(s.agents[p]);
    assert Unexpired(s.agents, p);
    IssueKeepsInv(s, id, ChildRow(s.agents[p], p, i, jti, now));
  }

  /** Rotation and heartbeat touch one row and neither its status nor its place. */
  lemma RowUpdateKeepsTree(t: Table, a: Id, jti: Id, seen: Option<int>)
    requires TreeOk(t) && ExpiryClosed(t) && a in t
    ensures var u := t[a := t[a].(jti := jti, lastSeenAt := seen)];
            StatusUpdate(t, u) && TreeOk(u) && ExpiryClosed(u)
  {
    var u := t[a := t[a].(jti := jti, lastSeenAt := seen)];
    forall x | x in t ensures RowUpdate(t[x], u[x]) {
      assert RowOk(t[x]);
    }
    PlainUpdateKeepsInv(t, u);
  }

  lemma RotateKeepsInv(s: State, a: Id, jti: Id)
    requires Inv(s) && a in s.agents && jti !in s.tokens
    ensures Inv(State(s.agents[a := s.agents[a].(jti := jti)],
                      s.tokens[jti := Token(a, Seconds(s.agents[a].expiresAt))]))
  {
    var t := s.agents;
    var u := t[a := t[a].(jti := jti)];
    var r := State(u, s.tokens[jti := Token(a, Seconds(t[a].expiresAt))]);
    assert TreeOk(u) && ExpiryClosed(u) by {
      assert u[a] == t[a].(jti := jti, lastSeenAt := t[a].lastSeenAt);
      RowUpdateKeepsTree(t, a, jti, t[a].lastSeenAt);
    }
    assert TokensOk(r) by {
      assert TokensOk(s);
    }
  }

  /** Every step of the registry keeps the invariant. */
  lemma StepKeepsInv(s: State, e: Event)
    requires Inv(s)
    ensures Inv(Apply(s, e))
  {
    match e
    case Register(id, jti, i, now) =>
      if FreshAgent(s, id, jti) && RegisterRefusal(i).None? { RegisterKeepsInv(s, id, jti, i, now); }
    case Delegate(p, id, jti, i, now) =>
      if FreshAgent(s, id, jti) && DelegateRefusal(s, p, i).None? { DelegateKeepsInv(s, p, id, jti, i, now); }
    case Rotate(a, jti, _) =>
      if a in s.agents && s.agents[a].status == Active && jti !in s.tokens { RotateKeepsInv(s, a, jti); }
    case _ =>
      TableStepKeepsTree(s.agents, e);
      NextTableKeepsTokens(s.agents, e);
      UpdateKeepsInv(s, NextTable(s.agents, e));
  }

  lemma NextTableKeepsTokens(t: Table, e: Event)
    requires Forest(t)
    ensures NextTable(t, e).Keys == t.Keys && forall x <- t :: NextTable(t, e)[x].jti == t[x].jti
  {
  }

  lemma TableStepKeepsTree(t: Table, e: Event)
    requires TreeOk(t) && ExpiryClosed(t)
    ensures var u := NextTable(t, e);
            StatusUpdate(t, u) && TreeOk(u) && ExpiryClosed(u)
  {
    match e
    case Revoke(a, now) => RevokeKeepsInv(t, a, now);
    case Scim(sub, now) => ScimKeepsInv(t, sub, now);
    case AutoExpiry(now) => ExpireKeepsInv(t, now);
    case StaleSweep(cutoff, _) => StaleKeepsInv(t, cutoff);
    case DeprovisionAgent(a, now) => DeprovisionKeepsInv(t, a, now);
    case DeprovisionHuman(email, now) => DeprovisionEmailKeepsInv(t, email, now);
    case Heartbeat(a, now) =>
      if a in t {
        assert t[a].(lastSeenAt := Some(now)) == t[a].(jti := t[a].jti, lastSeenAt := Some(now));
        RowUpdateKeepsTree(t, a, t[a].jti, Some(now));
      }
    case _ =>
  }

  ghost function Step(s: State, e: Event): (r: State)
    requires Inv(s)
    ensures Inv(r)
  {
    StepKeepsInv(s, e);
    Apply(s, e)
  }
}
