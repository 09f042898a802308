/**
 The agents table and the delegation forest its `parent_id` column spans.
 Identifiers are only ever compared for equality; times are integer milliseconds.
 */
module Agents {
  import opened Prelude

  type Id = nat

  datatype Status = Active | Stale | Expired | Revoked | Deprovisioned

  datatype Risk = Unacceptable | High | Limited | Minimal

  datatype Human = Human(sub: string, email: string, iss: string)

  datatype Agent = Agent(
    org: string,
    human: Human,
    scope: seq<string>,
    parent: Option<Id>,
    depth: nat,
    maxDepth: nat,
    canDelegate: seq<string>,
    jti: Id,
    status: Status,
    risk: Risk,
    expiresAt: int,
    revokedAt: Option<int>,
    lastSeenAt: Option<int>,
    deprovisionedAt: Option<int>)

  type Table = map<Id, Agent>

  ghost predicate Placed(t: Table, x: Id)
    requires x in t
  {
    match t[x].parent
    case None => t[x].depth == 0
    case Some(p) => p in t && t[x].depth == t[p].depth + 1
  }

  /** Every parent reference resolves, and depth rises by one along it: the table is a forest. */
  ghost predicate Forest(t: Table) {
    forall x {:trigger Placed(t, x)} | x in t :: Placed(t, x)
  }

  /** `a` is `b` or an ancestor of `b`. */
  ghost predicate Under(t: Table, a: Id, b: Id)
    requires Forest(t) && b in t
    ensures Under(t, a, b) ==> a in t && t[a].depth <= t[b].depth
    ensures Under(t, a, b) && a != b ==> t[a].depth < t[b].depth
    decreases t[b].depth
  {
    assert Placed(t, b);
    a == b || (t[b].parent.Some? && Under(t, a, t[b].parent.value))
  }

  ghost function Subtree(t: Table, a: Id): set<Id>
    requires Forest(t)
  {
    set b | b in t && Under(t, a, b)
  }

  ghost function Descendants(t: Table, a: Id): set<Id>
    requires Forest(t)
  {
    set b | b in t && b != a && Under(t, a, b)
  }

  ghost function Children(t: Table, a: Id): set<Id> {
    set b | b in t && t[b].parent == Some(a)
  }

  /** The delegation chain of `b`, root first, `b` last. */
  ghost function Chain(t: Table, b: Id): seq<Id>
    requires Forest(t) && b in t
    decreases t[b].depth
  {
    assert Placed(t, b);
    if t[b].parent.None? then [b] else Chain(t, t[b].parent.value) + [b]
  }

  // ---- The two walks are inverse to each other

  lemma {:induction false} UnderTransitive(t: Table, a: Id, b: Id, c: Id)
    requires Forest(t) && b in t && c in t && Under(t, a, b) && Under(t, b, c)
    ensures Under(t, a, c)
    decreases t[c].depth
  {
    assert Placed(t, c);
    if b != c {
      UnderTransitive(t, a, b, t[c].parent.value);
    }
  }

  /** Two ancestors of one agent lie on one path. */
  lemma {:induction false} AncestorsComparable(t: Table, a: Id, b: Id, c: Id)
    requires Forest(t) && c in t && Under(t, a, c) && Under(t, b, c)
    ensures a in t && b in t && (Under(t, a, b) || Under(t, b, a))
    decreases t[c].depth
  {
    assert Placed(t, c);
    if a != c && b != c {
      AncestorsComparable(t, a, b, t[c].parent.value);
    }
  }

  /** The ancestor walk from `b` meets `a` exactly when the descendant walk from `a` meets `b`;
      entry `i` of the chain is the ancestor at depth `i`, so nothing repeats. */
  lemma {:induction false} ChainIsInverse(t: Table, b: Id)
    requires Forest(t) && b in t
    ensures |Chain(t, b)| == t[b].depth + 1 && Chain(t, b)[t[b].depth] == b
    ensures forall i :: 0 <= i < |Chain(t, b)| ==> Chain(t, b)[i] in t && t[Chain(t, b)[i]].depth == i
    ensures forall i :: 0 < i < |Chain(t, b)| ==> t[Chain(t, b)[i]].parent == Some(Chain(t, b)[i - 1])
    ensures forall a :: a in Chain(t, b) <==> a == b || b in Descendants(t, a)
    decreases t[b].depth
  {
    assert Placed(t, b);
    match t[b].parent
    case None =>
    case Some(p) =>
      ChainIsInverse(t, p);
      assert Chain(t, b) == Chain(t, p) + [b];
      forall a ensures a in Chain(t, b) <==> a == b || b in Descendants(t, a) {
        assert a in Chain(t, b) <==> a in Chain(t, p) || a == b;
        if a != b {
          assert p in Descendants(t, a) <==> p != a && Under(t, a, p);
          assert a == p ==> Under(t, a, p);
        }
      }
  }

  // ---- What leaves the forest's shape alone

  /** Updates that touch no parent or depth column. */
  ghost predicate SamePlace(r: Agent, r': Agent) {
    r.parent == r'.parent && r.depth == r'.depth
  }

  ghost predicate SameShape(t: Table, u: Table) {
    t.Keys == u.Keys && forall x {:trigger SamePlace(t[x], u[x])} | x in t :: SamePlace(t[x], u[x])
  }

  lemma {:induction false} UnderSameShape(t: Table, u: Table, a: Id, b: Id)
    requires Forest(t) && Forest(u) && SameShape(t, u) && b in t
    ensures Under(t, a, b) == Under(u, a, b)
    decreases t[b].depth
  {
    assert Placed(t, b) && SamePlace(t[b], u[b]);
    if t[b].parent.Some? {
      UnderSameShape(t, u, a, t[b].parent.value);
    }
  }

  lemma SameShapeForest(t: Table, u: Table)
    requires Forest(t) && SameShape(t, u)
    ensures Forest(u)
    ensures forall a, b :: b in t ==> Under(t, a, b) == Under(u, a, b)
  {
    forall x | x in u ensures Placed(u, x) {
      assert Placed(t, x) && SamePlace(t[x], u[x]);
      if t[x].parent.Some? { assert SamePlace(t[t[x].parent.value], u[t[x].parent.value]); }
    }
    forall a, b | b in t ensures Under(t, a, b) == Under(u, a, b) {
      UnderSameShape(t, u, a, b);
    }
  }

  /** Inserting a fresh row under `row.parent` hangs one leaf into the forest. */
  lemma InsertForest(t: Table, c: Id, row: Agent)
    requires Forest(t) && c !in t
    requires match row.parent
             case None => row.depth == 0
             case Some(p) => p in t && row.depth == t[p].depth + 1
    ensures Forest(t[c := row])
    ensures forall a, b :: b in t ==> Under(t[c := row], a, b) == Under(t, a, b)
    ensures forall a :: Under(t[c := row], a, c) <==> a == c || (row.parent.Some? && Under(t, a, row.parent.value))
  {
    var u := t[c := row];
    forall x | x in u ensures Placed(u, x) {
      if x != c { assert Placed(t, x); }
    }
    forall a, b | b in t ensures Under(u, a, b) == Under(t, a, b) {
      UnderInsert(t, c, row, a, b);
    }
    forall a ensures Under(u, a, c) <==> a == c || (row.parent.Some? && Under(t, a, row.parent.value)) {
      assert row.parent.Some? ==> Under(u, a, row.parent.value) == Under(t, a, row.parent.value);
    }
  }

  lemma {:induction false} UnderInsert(t: Table, c: Id, row: Agent, a: Id, b: Id)
    requires Forest(t) && Forest(t[c := row]) && c !in t && b in t
    ensures Under(t[c := row], a, b) == Under(t, a, b)
    decreases t[b].depth
  {
    assert Placed(t, b);
    if t[b].parent.Some? {
      UnderInsert(t, c, row, a, t[b].parent.value);
    }
  }
}
