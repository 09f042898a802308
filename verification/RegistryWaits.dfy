/**
 The registry with the waits inside its handlers taken apart: a delegation checks its parent and inserts the child
 later, a rotation checks its agent and writes the new token later, and any other steps may run in between. What the
 handlers keep true under every interleaving, and what they keep true only without one.
 */
module RegistryWaits {
  import opened Prelude
  import opened Agents
  import opened RegistrySpec
  import opened RegistryRuns

  /** A delegation waiting for its signature, with the row computed from the parent as it was. */
  datatype Pending = Pending(id: Id, jti: Id, row: Agent)

  datatype World = World(s: State, delegating: seq<Pending>, rotating: seq<Id>)

  const EMPTY_WORLD := World(EMPTY_REGISTRY, [], [])

  datatype Segment =
    | Whole(e: Event)
    | CheckDelegate(parent: Id, id: Id, jti: Id, del: DelegateInput, at: int)
    | InsertChild(k: nat)
    | CheckRotate(agent: Id)
    | WriteToken(k: nat, jti: Id)

  ghost function Advance(w: World, e: Segment): World
    requires Forest(w.s.agents)
  {
    match e
    case Whole(e) => if e.Delegate? || e.Rotate? then w else w.(s := Apply(w.s, e))
    case CheckDelegate(p, id, jti, i, now) =>
      if DelegateRefusal(w.s, p, i).Some? then w
      else w.(delegating := w.delegating + [Pending(id, jti, ChildRow(w.s.agents[p], p, i, jti, now))])
    case InsertChild(k) =>
      if k >= |w.delegating| || !FreshAgent(w.s, w.delegating[k].id, w.delegating[k].jti) then w
      else World(IssueAgent(w.s, w.delegating[k].id, w.delegating[k].row),
                 w.delegating[..k] + w.delegating[k + 1..], w.rotating)
    case CheckRotate(a) =>
      if a in w.s.agents && w.s.agents[a].status == Active then w.(rotating := w.rotating + [a]) else w
    case WriteToken(k, jti) =>
      if k >= |w.rotating| || w.rotating[k] !in w.s.agents || jti in w.s.tokens then w
      else
        var a := w.rotating[k];
        World(State(w.s.agents[a := w.s.agents[a].(jti := jti)],
                    w.s.tokens[jti := Token(a, Seconds(w.s.agents[a].expiresAt))]),
              w.delegating, w.rotating[..k] + w.rotating[k + 1..])
  }

  /** Without an interruption the parts of a handler are its step. */
  lemma UninterruptedIsAtomic(w: World, p: Id, id: Id, jti: Id, i: DelegateInput, a: Id, now: int)
    requires Forest(w.s.agents) && FreshAgent(w.s, id, jti)
    ensures DelegateRefusal(w.s, p, i).None? ==>
              Advance(Advance(w, CheckDelegate(p, id, jti, i, now)), InsertChild(|w.delegating|))
              == w.(s := Apply(w.s, Event.Delegate(p, id, jti, i, now)))
    ensures a in w.s.agents && w.s.agents[a].status == Active ==>
              Advance(Advance(w, CheckRotate(a)), WriteToken(|w.rotating|, jti)) == w.(s := Apply(w.s, Event.Rotate(a, jti, now)))
  {
    assert w.delegating + [] == w.delegating && w.rotating + [] == w.rotating;
  }

  // ---- What survives

  /** `EdgeOk` but for revocation: what a row computed from an earlier reading of its parent still agrees on. */
  ghost predicate Inherits(p: Agent, c: Agent) {
    && c.human == p.human && c.org == p.org && c.risk == p.risk && c.maxDepth == p.maxDepth
    && c.expiresAt <= p.expiresAt && c.canDelegate == c.scope && Subset(c.scope, p.canDelegate)
  }

  ghost predicate Placeable(t: Table, row: Agent) {
    row.parent.Some? ==>
      row.parent.value in t && row.depth == t[row.parent.value].depth + 1 && Inherits(t[row.parent.value], row)
  }

  ghost predicate Uniform(t: Table) {
    && Forest(t)
    && (forall x {:trigger Placeable(t, t[x])} | x in t :: Placeable(t, t[x]))
    && (forall x <- t :: RowOk(t[x]))
  }

  ghost predicate WaitingOk(t: Table, q: Pending) {
    q.row.parent.Some? && Placeable(t, q.row) && RowOk(q.row) && q.row.status == Active && q.row.jti == q.jti
  }

  ghost predicate Kept(w: World) {
    && Uniform(w.s.agents) && TokensOk(w.s)
    && (forall q <- w.delegating :: WaitingOk(w.s.agents, q))
  }

  /** Row updates that nothing in a waiting handler depends on. */
  lemma NextTableUpdatesRows(t: Table, e: Event)
    requires Forest(t) && forall x <- t :: RowOk(t[x])
    ensures StatusUpdate(t, NextTable(t, e))
  {
    hide Under, ScimHit, RowUpdate, RowOk;
    NextTableKeepsTokens(t, e);
    var u := NextTable(t, e);
    hide NextTable;
    forall x | x in t ensures RowUpdate(t[x], u[x]) {
      OneRowUpdate(t, e, x);
    }
  }

  lemma OneRowUpdate(t: Table, e: Event, x: Id)
    requires Forest(t) && x in t && RowOk(t[x])
    ensures NextTable(t, e).Keys == t.Keys && RowUpdate(t[x], NextTable(t, e)[x])
  {
    hide Under, ScimHit;
  }

  lemma UpdateKeepsUniform(t: Table, u: Table)
    requires Uniform(t) && StatusUpdate(t, u)
    ensures Uniform(u)
    ensures forall row :: Placeable(t, row) ==> Placeable(u, row)
  {
    hide Inherits;
    forall x | x in t ensures SamePlace(t[x], u[x]) && RowOk(u[x]) { assert RowUpdate(t[x], u[x]); }
    SameShapeForest(t, u);
    forall row | Placeable(t, row) ensures Placeable(u, row) {
      if row.parent.Some? {
        var p := row.parent.value;
        assert RowUpdate(t[p], u[p]);
        InheritsSame(t[p], u[p], row, row);
      }
    }
    forall x | x in u ensures Placeable(u, u[x]) {
      assert Placeable(t, t[x]) && RowUpdate(t[x], u[x]) && Placeable(u, t[x]);
      if t[x].parent.Some? { InheritsSame(u[t[x].parent.value], u[t[x].parent.value], t[x], u[x]); }
    }
  }

  lemma InheritsSame(p: Agent, p': Agent, c: Agent, c': Agent)
    requires Inherits(p, c) && SameIdentity(p, p') && SameIdentity(c, c')
    ensures Inherits(p', c')
  {
  }

  lemma InsertKeepsUniform(s: State, id: Id, row: Agent)
    requires Uniform(s.agents) && TokensOk(s) && FreshAgent(s, id, row.jti)
    requires Placeable(s.agents, row) && RowOk(row) && (row.parent.None? ==> row.depth == 0)
    ensures var v := IssueAgent(s, id, row);
            Uniform(v.agents) && TokensOk(v) && forall r :: Placeable(s.agents, r) ==> Placeable(v.agents, r)
  {
    hide Inherits, RowOk;
    var t, u := s.agents, IssueAgent(s, id, row).agents;
    InsertForest(t, id, row);
    forall r | Placeable(t, r) ensures Placeable(u, r) {
      if r.parent.Some? { assert u[r.parent.value] == t[r.parent.value]; }
    }
    forall x | x in u ensures Placeable(u, u[x]) && RowOk(u[x]) {
      assert x != id ==> Placeable(t, t[x]) && RowOk(t[x]);
    }
  }

  lemma WholeKeeps(w: World, e: Event)
    requires Kept(w) && !e.Delegate? && !e.Rotate?
    ensures Kept(w.(s := Apply(w.s, e)))
  {
    hide Placeable, RowUpdate, TokensOk, NextTable, RowOk;
    var t := w.s.agents;
    if e.Register? {
      if FreshAgent(w.s, e.id, e.jti) && RegisterRefusal(e.reg).None? {
        RootIsPlaceable(t, e.reg, e.jti, e.at);
        InsertKeepsUniform(w.s, e.id, RootRow(e.reg, e.jti, e.at));
      }
    } else {
      NextTableUpdatesRows(t, e);
      NextTableKeepsTokens(t, e);
      UpdateKeepsUniform(t, NextTable(t, e));
      UpdateKeepsTokens(w.s, NextTable(t, e));
    }
  }

  lemma RootIsPlaceable(t: Table, i: RegisterInput, jti: Id, now: int)
    requires RegisterRefusal(i).None?
    ensures var row := RootRow(i, jti, now);
            Placeable(t, row) && RowOk(row) && row.parent.None? && row.depth == 0 && row.jti == jti
  {
  }

  lemma UpdateKeepsTokens(s: State, u: Table)
    requires TokensOk(s) && StatusUpdate(s.agents, u) && forall x <- s.agents :: u[x].jti == s.agents[x].jti
    ensures TokensOk(s.(agents := u))
  {
    assert forall x | x in u :: RowUpdate(s.agents[x], u[x]);
  }

  lemma CheckedIsWaiting(s: State, p: Id, id: Id, jti: Id, i: DelegateInput, now: int)
    requires Uniform(s.agents) && DelegateRefusal(s, p, i).None?
    ensures WaitingOk(s.agents, Pending(id, jti, ChildRow(s.agents[p], p, i, jti, now)))
  {
    assert RowOk(s.agents[p]);
  }

  lemma WriteTokenKeeps(s: State, a: Id, jti: Id)
    requires Uniform(s.agents) && TokensOk(s) && a in s.agents && jti !in s.tokens
    ensures var u := s.agents[a := s.agents[a].(jti := jti)];
            && StatusUpdate(s.agents, u)
            && TokensOk(State(u, s.tokens[jti := Token(a, Seconds(s.agents[a].expiresAt))]))
  {
    var u := s.agents[a := s.agents[a].(jti := jti)];
    forall x | x in s.agents ensures RowUpdate(s.agents[x], u[x]) { assert RowOk(s.agents[x]); }
  }

  /** Every segment of every handler keeps it. */
  lemma AdvanceKeeps(w: World, e: Segment)
    requires Kept(w)
    ensures Kept(Advance(w, e))
  {
    hide TokensOk, Placeable, RowOk, DelegateRefusal, ChildRow, IssueAgent;
    match e
    case Whole(e) => if !e.Delegate? && !e.Rotate? { WholeKeeps(w, e); }
    case CheckDelegate(p, id, jti, i, now) =>
      if DelegateRefusal(w.s, p, i).None? { CheckedIsWaiting(w.s, p, id, jti, i, now); }
    case InsertChild(k) =>
      if k < |w.delegating| && FreshAgent(w.s, w.delegating[k].id, w.delegating[k].jti) {
        var q := w.delegating[k];
        assert q in w.delegating && WaitingOk(w.s.agents, q);
        InsertKeepsUniform(w.s, q.id, q.row);
        var v := Advance(w, e);
        assert v.s == IssueAgent(w.s, q.id, q.row);
        forall r | r in v.delegating ensures WaitingOk(v.s.agents, r) { assert r in w.delegating; }
      }
    case CheckRotate(a) =>
    case WriteToken(k, jti) =>
      if k < |w.rotating| && w.rotating[k] in w.s.agents && jti !in w.s.tokens {
        var a := w.rotating[k];
        WriteTokenKeeps(w.s, a, jti);
        UpdateKeepsUniform(w.s.agents, w.s.agents[a := w.s.agents[a].(jti := jti)]);
      }
  }

  /** The world after a sequence of segments. */
  ghost function RunSegments(w: World, events: seq<Segment>): (r: World)
    requires Kept(w)
    ensures Kept(r)
    decreases |events|
  {
    if events == [] then w
    else
      AdvanceKeeps(w, events[0]);
      RunSegments(Advance(w, events[0]), events[1..])
  }

  lemma NothingYet()
    ensures Kept(EMPTY_WORLD)
  {
  }

  ghost function Interleaved(events: seq<Segment>): (w: World)
    ensures Kept(w)
  {
    NothingYet();
    RunSegments(EMPTY_WORLD, events)
  }

  // ---- Facts of every interleaving

  lemma {:induction false} UniformAncestors(t: Table, a: Id, b: Id)
    requires Uniform(t) && b in t && Under(t, a, b)
    ensures t[b].human == t[a].human && t[b].org == t[a].org && t[b].risk == t[a].risk
    ensures t[b].maxDepth == t[a].maxDepth && t[b].expiresAt <= t[a].expiresAt
    ensures a != b ==> Subset(t[b].scope, t[a].canDelegate)
    ensures t[a].parent.Some? ==> Subset(t[b].scope, t[a].scope)
    decreases t[b].depth
  {
    assert Placed(t, b) && Placeable(t, t[b]);
    if a != b {
      var p := t[b].parent.value;
      UniformAncestors(t, a, p);
      assert Placeable(t, t[p]);
    }
  }

  /** However the handlers interleave, every tree has one human, organisation, risk level and depth limit; the two walks
      are inverse; depth counts edges up to the limit; expiry only shortens and scope only narrows, but for a root's own
      `can_delegate`. */
  lemma TreesStayUniform(events: seq<Segment>, a: Id, b: Id)
    requires b in Interleaved(events).s.agents && Under(Interleaved(events).s.agents, a, b)
    ensures var t := Interleaved(events).s.agents;
            && t[b].human == t[a].human && t[b].org == t[a].org
            && t[b].risk == t[a].risk && t[b].maxDepth == t[a].maxDepth
            && t[b].expiresAt <= t[a].expiresAt
            && |Chain(t, b)| == t[b].depth + 1 <= t[a].maxDepth + 1 && a in Chain(t, b)
            && (a != b ==> Subset(t[b].scope, t[a].canDelegate))
            && (t[a].parent.Some? ==> Subset(t[b].scope, t[a].scope))
            && (t[a].risk == High ==> t[b].depth <= 1)
  {
    hide Interleaved;
    var t := Interleaved(events).s.agents;
    UniformAncestors(t, a, b);
    ChainIsInverse(t, b);
    assert RowOk(t[b]) && RowOk(t[a]);
    assert a == b || b in Descendants(t, a);
  }

  /** No interleaving makes an agent active again, moves it or rewrites what it inherited. */
  lemma {:induction false} NeverActiveAgainEither(w: World, events: seq<Segment>, x: Id)
    requires Kept(w) && x in w.s.agents
    ensures var t := RunSegments(w, events).s.agents;
            x in t && SameIdentity(w.s.agents[x], t[x]) && (t[x].status == Active ==> w.s.agents[x].status == Active)
    decreases |events|
  {
    hide Advance, TokensOk, WaitingOk;
    if events != [] {
      AdvanceKeeps(w, events[0]);
      AdvanceUpdatesRow(w, events[0], x);
      NeverActiveAgainEither(Advance(w, events[0]), events[1..], x);
    }
  }

  lemma AdvanceUpdatesRow(w: World, e: Segment, x: Id)
    requires Kept(w) && x in w.s.agents
    ensures var t := Advance(w, e).s.agents;
            x in t && SameIdentity(w.s.agents[x], t[x]) && (t[x].status == Active ==> w.s.agents[x].status == Active)
  {
    hide TokensOk, WaitingOk, Placeable, RowOk, NextTable, RegisterRefusal, DelegateRefusal, ChildRow, RootRow;
    if e.Whole? && !e.e.Register? && !e.e.Delegate? && !e.e.Rotate? {
      NextTableUpdatesRows(w.s.agents, e.e);
      assert RowUpdate(w.s.agents[x], NextTable(w.s.agents, e.e)[x]);
    }
  }

  /** Nor does an interleaving widen what `/verify` allows: whoever is on an allowed caller's chain had not expired when
      the token was verified nor has since, and but for the root had the tool in scope. */
  lemma AllowedUnderWaits(events: seq<Segment>, jti: Id, tool: string, checked: int, now: int, a: Id)
    requires Verify(Interleaved(events).s, jti, tool, checked, now).Allowed?
    requires a in Verify(Interleaved(events).s, jti, tool, checked, now).chain
    ensures var t, x := Interleaved(events).s.agents, Verify(Interleaved(events).s, jti, tool, checked, now).agent;
            && a in t && checked < t[a].expiresAt && now <= t[a].expiresAt
            && (t[a].depth >= 1 ==> tool in t[a].scope) && (a != x ==> tool in t[a].canDelegate)
  {
    hide Interleaved;
    var s := Interleaved(events).s;
    var t, v := s.agents, Verify(s, jti, tool, checked, now);
    var x := v.agent;
    assert Holds(s, jti, x) && v.chain == Chain(t, x) && tool in t[x].scope;
    ChainIsInverse(t, x);
    assert a == x || x in Descendants(t, a);
    UniformAncestors(t, a, x);
    assert Placed(t, a);
  }

  // ---- And of those without one

  /** The parent of the waiting row has not been revoked or deprovisioned, and nothing at or above it has expired. */
  ghost predicate ParentLives(t: Table, q: Pending)
    requires Forest(t)
  {
    && q.row.parent.Some? && q.row.parent.value in t
    && t[q.row.parent.value].status !in {Revoked, Deprovisioned} && Unexpired(t, q.row.parent.value)
  }

  /** Of all segments only an insertion can break the rest of the invariant: that revocation is inherited and nothing
      active hangs below an expired row. It does so exactly if the parent has been revoked or deprovisioned, or anything
      at or above it has expired, since the check. */
  lemma SegmentKeepsInvExactly(w: World, e: Segment)
    requires Kept(w) && Inv(w.s)
    ensures Inv(Advance(w, e).s) <==>
            (e.InsertChild? && e.k < |w.delegating| && FreshAgent(w.s, w.delegating[e.k].id, w.delegating[e.k].jti) ==>
               ParentLives(w.s.agents, w.delegating[e.k]))
  {
    hide TokensOk, DelegateRefusal, ChildRow, RootRow, RegisterRefusal, Apply, ExpiryClosed;
    match e
    case Whole(e) => StepKeepsInv(w.s, e);
    case CheckDelegate(_, _, _, _, _) =>
    case CheckRotate(_) =>
    case WriteToken(k, jti) =>
      if k < |w.rotating| && w.rotating[k] in w.s.agents && jti !in w.s.tokens {
        RotateKeepsInv(w.s, w.rotating[k], jti);
      }
    case InsertChild(k) =>
      if k < |w.delegating| && FreshAgent(w.s, w.delegating[k].id, w.delegating[k].jti) {
        assert w.delegating[k] in w.delegating;
        InsertKeepsInvExactly(w.s, w.delegating[k]);
      }
  }

  lemma InsertKeepsInvExactly(s: State, q: Pending)
    requires Inv(s) && WaitingOk(s.agents, q) && FreshAgent(s, q.id, q.jti)
    ensures Inv(IssueAgent(s, q.id, q.row)) <==> ParentLives(s.agents, q)
  {
    hide TokensOk, ExpiryClosed;
    var p := q.row.parent.value;
    assert RowOk(s.agents[p]);
    if s.agents[p].status !in {Revoked, Deprovisioned} && Unexpired(s.agents, p) {
      IssueKeepsInv(s, q.id, q.row);
    } else if Inv(IssueAgent(s, q.id, q.row)) {
      ActiveLeafHasLiveParent(s, q.id, q.row, p);
    }
  }
}
