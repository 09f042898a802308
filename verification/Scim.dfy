/** The SCIM webhook: a departed human's agents are revoked, one cascade per active agent. */
module Scim {
  import opened Prelude
  import opened Agents
  import opened RegistrySpec
  import opened RegistryRuns
  import opened RegistryDb

  const DEPROVISION_EVENTS := ["user.deprovisioned", "user.suspended", "user.deleted", "user.removed"]

  /** `Failed`: the summary row is refused by the foreign key of the audit log, after everything else is committed. */
  datatype Outcome = Invalid | Ignored | Failed | Processed(agentsRevoked: nat, totalRevoked: nat, revokedIds: seq<Id>)

  function ActiveOf(t: Table, sub: string): set<Id> {
    set x | x in t && t[x].human.sub == sub && t[x].status == Active
  }

  function Members(ids: seq<Id>): set<Id> {
    set y | y in ids
  }

  /** The members of `S` that are `x` or an ancestor of it. */
  ghost function Above(t: Table, S: set<Id>, x: Id): set<Id>
    requires Forest(t) && x in t
  {
    set y | y in S && Under(t, y, x)
  }

  /** The table with everything at or below a member of `S` revoked. */
  ghost function RevokeSet(t: Table, S: set<Id>, now: int): Table
    requires Forest(t)
  {
    map x | x in t :: if Above(t, S, x) != {} then t[x].(status := Status.Revoked, revokedAt := Some(now)) else t[x]
  }

  function EmailRows(ids: seq<Id>, email: string, now: int): (rows: seq<AuditEvent>)
    ensures |rows| == |ids| && forall i :: 0 <= i < |ids| ==>
              rows[i].agent == ids[i] && rows[i].email == email && rows[i].action == RowRevoked && rows[i].at == now
  {
    seq(|ids|, i requires 0 <= i < |ids| => AuditEvent(ids[i], email, RowRevoked, now))
  }

  /** The rows of the human's active agents are revoked with everything below them and logged, whatever happens next: a
      summary row under the identifier `system`, which the audit log's foreign key accepts only if an agent has it.
      `wellFormed`: the payload's shape and its email address pass the schema. */
  method Webhook(r: Registry, system: Id, wellFormed: bool, eventType: string, sub: string, email: Option<string>, now: int)
    returns (o: Outcome, ghost ids: seq<Id>)
    requires r.Valid()
    modifies r
    ensures r.Valid()
    ensures o == Invalid <==> !wellFormed || eventType == "" || sub == ""
    ensures o == Ignored <==>
            && wellFormed && eventType != "" && sub != ""
            && eventType !in {"user.deprovisioned", "user.suspended", "user.deleted", "user.removed"}
    ensures o in {Invalid, Ignored} ==> r.Now() == old(r.Now()) && r.audit == old(r.audit)
    ensures o !in {Invalid, Ignored} ==>
              && r.Now() == Step(old(r.Now()), Event.Scim(sub, now))
              && Counted(old(r.agents), ActiveOf(old(r.agents), sub), ids)
              && (o.Processed? <==> system in old(r.agents))
              && (o.Processed? ==> o == Processed(|ActiveOf(old(r.agents), sub)|, |ids|, ids))
              && var human := if email.Some? then email.value else "unknown";
                 r.audit == old(r.audit) + EmailRows(ids, human, now)
                            + if o.Processed? then [AuditEvent(system, human, HumanDeparted, now)] else []
  {
    ids := [];
    if !wellFormed || eventType == "" || sub == "" { return Invalid, ids; }
    if eventType !in DEPROVISION_EVENTS { return Ignored, ids; }
    hide Inv, Forest, Step, LoopState, Counted;
    var humanEmail := if email.Some? then email.value else "unknown";
    ghost var t, log, tokens := r.agents, r.audit, r.tokens;
    SameAgents(r.Now(), sub, now);
    var rows: seq<Id> := Select<Id>(ActiveOf(r.agents, sub));
    EnumerationLength(rows, ActiveOf(t, sub));
    assert Members(rows) == ActiveOf(t, sub);
    var total, revoked := RevokeAll(r, rows, humanEmail, now);
    LoopResult(r, t, tokens, log, sub, revoked, humanEmail, now);
    ids := revoked;
    if system !in r.agents { return Failed, ids; }
    r.audit := r.audit + [AuditEvent(system, humanEmail, HumanDeparted, now)];
    return Processed(|rows|, total, revoked), ids;
  }

  lemma SameAgents(s: State, sub: string, now: int)
    requires Inv(s)
    ensures Step(s, Event.Scim(sub, now)).agents.Keys == s.agents.Keys
  {
  }

  /** The loop over the human's active agents. */
  method RevokeAll(r: Registry, rows: seq<Id>, email: string, now: int) returns (total: nat, ids: seq<Id>)
    requires r.Valid() && NoDup(rows) && forall a <- rows :: a in r.agents
    modifies r
    ensures LoopState(r, old(r.agents), old(r.tokens), old(r.audit), Members(rows), ids, email, now)
    ensures total == |ids|
  {
    hide Inv, Placed, Under, Counted, RevokeSet;
    ghost var t, log, tokens := r.agents, r.audit, r.tokens;
    InvGivesForest(r.Now());
    total, ids := 0, [];
    StartOfLoop(t, log, email, now);
    for i := 0 to |rows|
      invariant LoopState(r, t, tokens, log, Members(rows[..i]), ids, email, now) && total == |ids|
    {
      ghost var done := Members(rows[..i]);
      assert rows[i] in rows && rows[i] !in rows[..i];
      var revoked := RevokeOne(r, rows[i], t, tokens, log, done, ids, email, now);
      assert Members(rows[..i + 1]) == done + {rows[i]} by { assert rows[..i + 1] == rows[..i] + [rows[i]]; }
      total, ids := total + |revoked|, ids + revoked;
    }
    assert rows[..|rows|] == rows;
  }

  lemma LoopResult(r: Registry, t: Table, tokens: map<Id, Token>, log: seq<AuditEvent>, sub: string, ids: seq<Id>,
                   email: string, now: int)
    requires Inv(State(t, tokens)) && LoopState(r, t, tokens, log, ActiveOf(t, sub), ids, email, now)
    ensures r.Valid() && r.Now() == Step(State(t, tokens), Event.Scim(sub, now))
    ensures Counted(t, ActiveOf(t, sub), ids) && r.audit == log + EmailRows(ids, email, now)
  {
    RevokeSetIsScim(t, sub, now);
    hide Inv, Under, Counted, RevokeSet, Placed;
    ScimStep(State(t, tokens), sub, now);
  }

  /** The loop has revoked everything at or below the agents of `done`, listing it in `ids`. */
  ghost predicate LoopState(r: Registry, t: Table, tokens: map<Id, Token>, log: seq<AuditEvent>, done: set<Id>,
                            ids: seq<Id>, email: string, now: int)
    reads r
  {
    && Forest(t) && r.Valid() && r.tokens == tokens
    && r.agents == RevokeSet(t, done, now)
    && Counted(t, done, ids)
    && r.audit == log + EmailRows(ids, email, now)
  }

  /** One round: the cascade below `a`, then one audit row for each row it touched. */
  method RevokeOne(r: Registry, a: Id, ghost t: Table, ghost tokens: map<Id, Token>, ghost log: seq<AuditEvent>,
                   ghost done: set<Id>, ghost ids: seq<Id>, email: string, now: int) returns (revoked: seq<Id>)
    requires LoopState(r, t, tokens, log, done, ids, email, now) && a in t && a !in done
    modifies r
    ensures LoopState(r, t, tokens, log, done + {a}, ids + revoked, email, now)
  {
    hide Inv, Placed, Under, Counted, RevokeSet, RevokeCascade, Above;
    RevokeSetKeepsShape(t, done, now);
    RevokeSetKeepsSubtree(t, done, a, now);
    revoked := r.RevokeAgentCascade(a, now);
    RevokeSetStep(t, done, a, now);
    CountedStep(t, done, ids, a, revoked);
    LogRevoked(r, revoked, email, now);
    assert EmailRows(ids + revoked, email, now) == EmailRows(ids, email, now) + EmailRows(revoked, email, now);
  }

  lemma StartOfLoop(t: Table, log: seq<AuditEvent>, email: string, now: int)
    requires Forest(t)
    ensures RevokeSet(t, {}, now) == t && Counted(t, {}, []) && log == log + EmailRows([], email, now)
    ensures Members([]) == {}
  {
    assert EmailRows([], email, now) == [];
    var none: seq<Id> := [];
    forall x | x in t ensures multiset(none)[x] == |Above(t, {}, x)| {
      assert Above(t, {}, x) == {};
    }
  }

  lemma InvGivesForest(s: State)
    requires Inv(s)
    ensures Forest(s.agents)
  {
  }

  lemma RevokeSetKeepsSubtree(t: Table, S: set<Id>, a: Id, now: int)
    requires Forest(t)
    ensures var u := RevokeSet(t, S, now); u.Keys == t.Keys && Forest(u) && Subtree(u, a) == Subtree(t, a)
  {
    RevokeSetKeepsShape(t, S, now);
  }

  lemma ScimStep(s: State, sub: string, now: int)
    requires Inv(s)
    ensures Step(s, Event.Scim(sub, now)) == s.(agents := ScimRevoke(s.agents, sub, now))
  {
  }

  method LogRevoked(r: Registry, revoked: seq<Id>, email: string, now: int)
    modifies r`audit
    ensures r.audit == old(r.audit) + EmailRows(revoked, email, now)
  {
    ghost var was := r.audit;
    for k := 0 to |revoked|
      invariant r.audit == was + EmailRows(revoked[..k], email, now)
    {
      r.audit := r.audit + [AuditEvent(revoked[k], email, RowRevoked, now)];
      assert EmailRows(revoked[..k + 1], email, now)
          == EmailRows(revoked[..k], email, now) + [AuditEvent(revoked[k], email, RowRevoked, now)];
    }
    assert revoked[..|revoked|] == revoked;
  }

  /** Each agent occurs in the list once for every member of `S` at or above it. */
  ghost predicate Counted(t: Table, S: set<Id>, ids: seq<Id>)
    requires Forest(t)
  {
    && (forall x <- ids :: x in t)
    && (forall x {:trigger Above(t, S, x)} | x in t :: multiset(ids)[x] == |Above(t, S, x)|)
  }

  /** The audit rows name exactly the agents revoked, and they are as many exactly when no active agent of the human sits
      above another one; otherwise they are more. */
  lemma TotalCountsAgentsOnce(t: Table, sub: string, ids: seq<Id>, email: string, now: int)
    requires Forest(t) && Counted(t, ActiveOf(t, sub), ids)
    ensures var rows := EmailRows(ids, email, now);
            && (set r | r in rows :: r.agent) == HitSet(t, sub)
            && |rows| >= |HitSet(t, sub)|
            && (|rows| == |HitSet(t, sub)| <==> !Nested(t, ActiveOf(t, sub)))
  {
    hide Above, Under, ScimHit, Nested;
    forall x | x in t ensures x in ids <==> ScimHit(t, sub, x) {
      assert x in ids <==> multiset(ids)[x] > 0;
      AboveIsHit(t, sub, x);
    }
    SeqSetBound(ids);
    assert Members(ids) == HitSet(t, sub);
    NestedIsRepeated(t, ActiveOf(t, sub), ids);
    RowAgents(ids, email, now);
  }

  lemma RowAgents(ids: seq<Id>, email: string, now: int)
    ensures (set r | r in EmailRows(ids, email, now) :: r.agent) == Members(ids)
  {
    var rows := EmailRows(ids, email, now);
    forall x | x in ids ensures exists r :: r in rows && r.agent == x {
      var i :| 0 <= i < |ids| && ids[i] == x;
      assert rows[i] in rows && rows[i].agent == x;
    }
  }

  /** The agents the webhook revokes. */
  ghost function HitSet(t: Table, sub: string): set<Id>
    requires Forest(t)
  {
    set x | x in t && ScimHit(t, sub, x)
  }

  /** Some member of `S` hangs under another. */
  ghost predicate Nested(t: Table, S: set<Id>)
    requires Forest(t)
  {
    exists y, z :: y in S && z in S && y != z && z in t && Under(t, y, z)
  }

  lemma AboveIsHit(t: Table, sub: string, x: Id)
    requires Forest(t) && x in t
    ensures |Above(t, ActiveOf(t, sub), x)| > 0 <==> ScimHit(t, sub, x)
  {
    var S := ActiveOf(t, sub);
    if ScimHit(t, sub, x) {
      var y :| y in t && t[y].human.sub == sub && t[y].status == Active && Under(t, y, x);
      assert y in Above(t, S, x);
    }
    if |Above(t, S, x)| > 0 {
      var y :| y in Above(t, S, x);
      assert y in S && Under(t, y, x);
    }
  }

  lemma NestedIsRepeated(t: Table, S: set<Id>, ids: seq<Id>)
    requires Forest(t) && S <= t.Keys && Counted(t, S, ids)
    ensures Nested(t, S) <==> !NoDup(ids)
  {
    if Nested(t, S) {
      var y, z :| y in S && z in S && y != z && z in t && Under(t, y, z);
      assert {y, z} <= Above(t, S, z) by { assert Under(t, z, z); }
      SubsetSize({y, z}, Above(t, S, z));
      if NoDup(ids) { NoDupMultiset(ids, z); }
    }
    if !NoDup(ids) {
      var x := RepeatedElement(ids);
      TwoAbove(t, S, x);
    }
  }

  lemma TwoAbove(t: Table, S: set<Id>, x: Id)
    requires Forest(t) && x in t && |Above(t, S, x)| >= 2
    ensures Nested(t, S)
  {
    var y :| y in Above(t, S, x);
    assert |Above(t, S, x) - {y}| >= 1;
    var z :| z in Above(t, S, x) - {y};
    AncestorsComparable(t, y, z, x);
  }

  lemma SubsetSize(a: set<Id>, b: set<Id>)
    requires a <= b
    ensures |a| <= |b|
  {
    assert b == a + (b - a);
  }

  lemma {:induction false} RepeatedElement(s: seq<Id>) returns (x: Id)
    requires !NoDup(s)
    ensures x in s && multiset(s)[x] >= 2
  {
    var i, j :| 0 <= i < j < |s| && s[i] == s[j];
    x := s[i];
    assert s == s[..j] + s[j..];
    assert x in s[..j] && x in s[j..] by { assert s[..j][i] == x && s[j..][0] == x; }
    assert multiset(s) == multiset(s[..j]) + multiset(s[j..]);
  }

  /** A parent and its child, both active: three audit rows for two agents. */
  lemma ParentAndChildCountThree(root: Agent, child: Agent, ids: seq<Id>, email: string, now: int)
    requires root.parent == None && root.depth == 0 && root.status == Active
    requires child.parent == Some(1) && child.depth == 1 && child.status == Active && child.human == root.human
    requires var t := map[1 := root, 2 := child]; Forest(t) && Counted(t, ActiveOf(t, root.human.sub), ids)
    ensures |EmailRows(ids, email, now)| == 3
  {
    var t := map[1 := root, 2 := child];
    var S := ActiveOf(t, root.human.sub);
    assert S == {1, 2};
    assert Above(t, S, 1) == {1} by { assert Under(t, 1, 1) && !Under(t, 2, 1); }
    assert Above(t, S, 2) == {1, 2} by { assert Under(t, 2, 2) && Under(t, 1, 1) && Under(t, 1, 2); }
    forall x ensures multiset(ids)[x] == multiset{1, 2, 2}[x] {
      if x in t { assert multiset(ids)[x] == |Above(t, S, x)|; } else { assert x !in ids; }
    }
    assert multiset(ids) == multiset{1, 2, 2};
    assert |ids| == |multiset(ids)|;
  }

  // ---- Steps of the loop

  lemma RevokeSetKeepsShape(t: Table, S: set<Id>, now: int)
    requires Forest(t)
    ensures var u := RevokeSet(t, S, now); Forest(u) && forall b, a :: b in t ==> Under(t, a, b) == Under(u, a, b)
  {
    assert SameShape(t, RevokeSet(t, S, now));
    SameShapeForest(t, RevokeSet(t, S, now));
  }

  lemma RevokeSetStep(t: Table, S: set<Id>, a: Id, now: int)
    requires Forest(t) && Forest(RevokeSet(t, S, now))
    ensures RevokeCascade(RevokeSet(t, S, now), a, now) == RevokeSet(t, S + {a}, now)
  {
    RevokeSetKeepsShape(t, S, now);
    forall x | x in t ensures Above(t, S + {a}, x) != {} <==> Above(t, S, x) != {} || Under(t, a, x) {
      AboveStep(t, S, a, x);
    }
  }

  lemma AboveStep(t: Table, S: set<Id>, a: Id, x: Id)
    requires Forest(t) && x in t
    ensures Above(t, S + {a}, x) == Above(t, S, x) + if Under(t, a, x) then {a} else {}
  {
  }

  lemma CountedStep(t: Table, S: set<Id>, ids: seq<Id>, a: Id, revoked: seq<Id>)
    requires Forest(t) && a in t && a !in S && Counted(t, S, ids)
    requires Enumerates(revoked, Subtree(t, a))
    ensures Counted(t, S + {a}, ids + revoked)
  {
    forall x | x in t ensures multiset(ids + revoked)[x] == |Above(t, S + {a}, x)| {
      AboveStep(t, S, a, x);
      NoDupMultiset(revoked, x);
      assert x in revoked <==> Under(t, a, x);
      assert multiset(ids)[x] == |Above(t, S, x)|;
      assert multiset(ids + revoked) == multiset(ids) + multiset(revoked);
    }
  }

  lemma RevokeSetIsScim(t: Table, sub: string, now: int)
    requires Forest(t)
    ensures RevokeSet(t, ActiveOf(t, sub), now) == ScimRevoke(t, sub, now)
  {
    forall x | x in t ensures Above(t, ActiveOf(t, sub), x) != {} <==> ScimHit(t, sub, x) {
      AboveIsHit(t, sub, x);
    }
  }
}
