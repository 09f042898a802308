/** The compliance report's walk over the chosen agents of one delegation tree and its narrowing and depth checks. */
module Compliance {
  import opened Prelude
  import opened Agents
  import opened RegistrySpec

  datatype ChainAudit = ChainAudit(nodes: seq<Id>, narrowingValid: bool, depthViolation: bool)

  /** What a report over the chosen agents reaches from `root`: no agent on the way is left out of the choice. */
  ghost function Region(t: Table, chosen: set<Id>, root: Id): set<Id>
    requires Forest(t)
  {
    set x | x in t && Under(t, root, x) && Unbroken(t, chosen, root, x)
  }

  ghost predicate Unbroken(t: Table, chosen: set<Id>, root: Id, x: Id)
    requires Forest(t) && x in t
  {
    forall y :: y in t && Under(t, root, y) && Under(t, y, x) ==> y in chosen
  }

  /** Every agent reached below `root` holds no scope its parent lacks. */
  ghost predicate Narrowing(t: Table, chosen: set<Id>, root: Id)
    requires Forest(t)
  {
    forall x :: x in Region(t, chosen, root) && x != root ==> NarrowAt(t, x)
  }

  predicate NarrowAt(t: Table, x: Id)
    requires x in t
  {
    t[x].parent.Some? && t[x].parent.value in t ==> Subset(t[x].scope, t[t[x].parent.value].scope)
  }

  /** Visit `id`, then each of its chosen children in turn, skipping what was visited before. */
  method Walk(t: Table, chosen: set<Id>, id: Id, visited0: set<Id>, nodes0: seq<Id>)
    returns (visited: set<Id>, nodes: seq<Id>)
    requires TreeOk(t) && id in t && id in chosen && visited0 !! Region(t, chosen, id)
    ensures visited == visited0 + Region(t, chosen, id)
    ensures nodes0 <= nodes && Enumerates(nodes[|nodes0|..], Region(t, chosen, id))
    ensures |nodes| > |nodes0| && nodes[|nodes0|] == id
    decreases t[id].maxDepth - t[id].depth
  {
    hide Forest, Under, Region, Walked, Children, RowOk, LinkOk;
    RootOfRegion(t, chosen, id);
    if id in visited0 {
      assert false;
    }
    visited, nodes := visited0 + {id}, nodes0 + [id];
    WalkedFirst(t, chosen, id, visited0, nodes0);
    var children: seq<Id> := Select<Id>(set c | c in t && c in chosen && t[c].parent == Some(id));
    assert Enumerates(children, Children(t, id) * chosen) by { ChosenChildren(t, chosen, id); }
    for k := 0 to |children|
      invariant Walked(t, chosen, id, visited0, nodes0, children[..k], visited, nodes)
    {
      var c := children[k];
      ChildOf(t, chosen, id, children, k, visited0, nodes0, visited, nodes);
      ghost var visited1, nodes1 := visited, nodes;
      visited, nodes := Walk(t, chosen, c, visited, nodes);
      WalkedMore(t, chosen, id, visited0, nodes0, children, k, visited1, nodes1, visited, nodes);
    }
    assert children[..|children|] == children;
    WalkedAll(t, chosen, id, visited0, nodes0, children, visited, nodes);
  }

  /** The audit of the chosen agents from `root` on: it visits exactly what it can reach, each agent once, the root first. */
  method AnalyzeTree(t: Table, chosen: set<Id>, root: Id) returns (a: ChainAudit)
    requires TreeOk(t) && root in t && root in chosen && t[root].parent == None
    ensures |a.nodes| > 0 && a.nodes[0] == root && Enumerates(a.nodes, Region(t, chosen, root))
    ensures a.narrowingValid <==> Narrowing(t, chosen, root)
    ensures a.depthViolation <==> exists x :: x in Region(t, chosen, root) && x in t && t[x].depth > t[root].maxDepth
  {
    var _, nodes := Walk(t, chosen, root, {}, []);
    assert nodes[0..] == nodes;
    ReadBack(t, chosen, root, nodes);
    hide Under, Forest, RowOk, LinkOk, NarrowAt, Narrowing, Region;
    var narrowing, maxDepth := Inspect(t, nodes);
    return ChainAudit(nodes, narrowing, maxDepth > t[root].maxDepth);
  }

  /** The two loops over the visited agents. */
  method Inspect(t: Table, nodes: seq<Id>) returns (narrowing: bool, maxDepth: nat)
    requires forall j :: 0 <= j < |nodes| ==> nodes[j] in t
    ensures narrowing <==> forall j :: 0 <= j < |nodes| ==> t[nodes[j]].depth == 0 || NarrowAt(t, nodes[j])
    ensures forall j :: 0 <= j < |nodes| ==> t[nodes[j]].depth <= maxDepth
    ensures maxDepth == 0 || exists j :: 0 <= j < |nodes| && t[nodes[j]].depth == maxDepth
  {
    hide NarrowAt;
    narrowing, maxDepth := true, 0;
    for k := 0 to |nodes|
      invariant narrowing <==> forall j :: 0 <= j < k ==> t[nodes[j]].depth == 0 || NarrowAt(t, nodes[j])
      invariant forall j :: 0 <= j < k ==> t[nodes[j]].depth <= maxDepth
      invariant maxDepth == 0 || exists j :: 0 <= j < k && t[nodes[j]].depth == maxDepth
    {
      var x := nodes[k];
      if t[x].depth != 0 && !NarrowAt(t, x) { narrowing := false; }
      if t[x].depth > maxDepth { maxDepth := t[x].depth; }
    }
  }

  /** In a tree kept by the registry the depth check never fires, and only the root's own delegations
      can fail the narrowing check, whichever agents are chosen. */
  lemma AuditOutcome(t: Table, chosen: set<Id>, root: Id)
    requires TreeOk(t) && root in t && root in chosen && t[root].parent == None
    ensures !exists x :: x in Region(t, chosen, root) && x in t && t[x].depth > t[root].maxDepth
    ensures Narrowing(t, chosen, root) <==> forall c <- Children(t, root) * chosen :: Subset(t[c].scope, t[root].scope)
    ensures Subset(t[root].canDelegate, t[root].scope) ==> Narrowing(t, chosen, root)
  {
    forall x | x in t && Under(t, root, x)
      ensures t[x].depth <= t[root].maxDepth
      ensures x != root ==> t[x].parent.Some? && t[x].parent.value in t
      ensures x != root && x !in Children(t, root) ==> NarrowAt(t, x)
      ensures x in Children(t, root) ==> Subset(t[x].scope, t[root].canDelegate)
    {
      AncestorFacts(t, root, x);
      assert RowOk(t[x]) && Placed(t, x) && LinkOk(t, x);
      if x != root {
        assert Under(t, root, t[x].parent.value) && LinkOk(t, t[x].parent.value);
      }
    }
    forall c | c in Children(t, root) ensures c in Region(t, chosen, root) <==> c in chosen {
      ChildInRegion(t, chosen, root, c);
    }
    assert forall c <- Children(t, root) :: c != root && (NarrowAt(t, c) <==> Subset(t[c].scope, t[root].scope));
  }

  lemma ChildInRegion(t: Table, chosen: set<Id>, root: Id, c: Id)
    requires Forest(t) && root in t && root in chosen && c in Children(t, root)
    ensures c != root && Under(t, root, c) && (c in Region(t, chosen, root) <==> c in chosen)
  {
    assert Placed(t, c) && Under(t, root, root) && Under(t, c, c);
    forall y | y in t && Under(t, root, y) && Under(t, y, c) ensures y == c || y == root {
      if y != c { assert Under(t, y, root); }
    }
  }

  lemma RegionOfAll(t: Table, root: Id)
    requires Forest(t)
    ensures Region(t, t.Keys, root) == Subtree(t, root)
  {
  }

  /** A chosen agent is audited exactly if its whole delegation chain is chosen: below a gap nothing is looked at. */
  lemma AuditedExactly(t: Table, chosen: set<Id>, x: Id)
    requires Forest(t) && x in t
    ensures (exists root :: root in t && t[root].parent == None && root in chosen && x in Region(t, chosen, root)) <==>
            forall a <- Chain(t, x) :: a in chosen
  {
    ChainIsInverse(t, x);
    var top := Chain(t, x)[0];
    assert Placed(t, top) && top in Chain(t, x);
    forall a | a in t ensures a in Chain(t, x) <==> Under(t, a, x) {
      assert Under(t, x, x);
      assert a in Chain(t, x) <==> a == x || x in Descendants(t, a);
    }
    forall root | root in t && t[root].parent == None && Under(t, root, x) ensures root == top {
      AncestorsComparable(t, root, top, x);
    }
    forall y | y in t && Under(t, y, x) ensures Under(t, top, y) {
      AncestorsComparable(t, top, y, x);
    }
    if exists root :: root in t && t[root].parent == None && root in chosen && x in Region(t, chosen, root) {
      var root :| root in t && t[root].parent == None && root in chosen && x in Region(t, chosen, root);
      assert root == top;
    }
    if forall a <- Chain(t, x) :: a in chosen {
      assert x in Region(t, chosen, top);
    }
  }

  /** Choosing by human leaves no gap. */
  lemma HumanIsAudited(t: Table, email: string, x: Id)
    requires TreeOk(t) && x in t && t[x].human.email == email
    ensures var chosen := set y | y in t && t[y].human.email == email;
            exists root :: root in t && t[root].parent == None && root in chosen && x in Region(t, chosen, root)
  {
    var chosen := set y | y in t && t[y].human.email == email;
    ChainIsInverse(t, x);
    forall a | a in Chain(t, x) ensures a in chosen {
      assert a == x || x in Descendants(t, a);
      if a != x { AncestorFacts(t, a, x); }
    }
    AuditedExactly(t, chosen, x);
  }

  /** A root allowed to delegate what it does not hold is one delegation away from a reported violation. */
  lemma WideRootCanFailNarrowing(s: State, root: Id, id: Id, jti: Id, token: Id, scope: string, checked: int,
                                 now: int)
    requires Inv(s) && root in s.agents && FreshAgent(s, id, jti)
    requires s.agents[root].parent == None && s.agents[root].status == Active && 0 < s.agents[root].maxDepth
    requires TokenLive(s, token, checked) && s.tokens[token].agent == root
    requires scope != "" && scope in s.agents[root].canDelegate && scope !in s.agents[root].scope
    ensures var s' := Step(s, Event.Delegate(root, id, jti, DelegateInput(token, [scope], 60, checked), now));
            root in s'.agents && id in s'.agents && !Narrowing(s'.agents, s'.agents.Keys, root)
  {
    var i := DelegateInput(token, [scope], 60, checked);
    var p := s.agents[root];
    assert [scope][1..] == [];
    assert Granted([scope], p.canDelegate) == [scope];
    assert Placed(s.agents, root);
    assert DelegateRefusal(s, root, i).None?;
    var s' := Step(s, Event.Delegate(root, id, jti, i, now));
    assert s' == IssueAgent(s, id, ChildRow(p, root, i, jti, now));
    assert Under(s'.agents, root, root) && Under(s'.agents, root, id) && !NarrowAt(s'.agents, id);
    RegionOfAll(s'.agents, root);
    assert id in Region(s'.agents, s'.agents.Keys, root);
  }

  // ---- Steps of the walk

  /** What the walk has seen after the children in `done`. */
  ghost function Covered(t: Table, chosen: set<Id>, id: Id, done: seq<Id>): set<Id>
    requires Forest(t)
  {
    {id} + set x | x in t && exists c :: c in done && x in Region(t, chosen, c)
  }

  lemma RootOfRegion(t: Table, chosen: set<Id>, id: Id)
    requires Forest(t) && id in t && id in chosen
    ensures id in Region(t, chosen, id)
  {
    assert Under(t, id, id);
    assert forall y :: y in t && Under(t, id, y) && Under(t, y, id) ==> y == id;
  }

  /** From a child of `id` on, the region of `id` is the child's own. */
  lemma RegionBelow(t: Table, chosen: set<Id>, id: Id, c: Id, x: Id)
    requires Forest(t) && id in t && id in chosen && c in Children(t, id) && x in t && Under(t, c, x)
    ensures x in Region(t, chosen, id) <==> x in Region(t, chosen, c)
  {
    assert Placed(t, c) && Under(t, id, id) && Under(t, id, c);
    UnderTransitive(t, id, c, x);
    forall y | y in t && Under(t, y, x)
      ensures Under(t, c, y) ==> Under(t, id, y)
      ensures Under(t, id, y) ==> y == id || Under(t, c, y)
    {
      if Under(t, c, y) { UnderTransitive(t, id, c, y); }
      if Under(t, id, y) {
        AncestorsComparable(t, c, y, x);
        if y != c && Under(t, y, c) { assert Under(t, y, id); }
      }
    }
  }

  /** The walk below `id` has been through the children in `done`. */
  ghost predicate Walked(t: Table, chosen: set<Id>, id: Id, visited0: set<Id>, nodes0: seq<Id>, done: seq<Id>,
                         visited: set<Id>, nodes: seq<Id>)
    requires Forest(t)
  {
    && visited == visited0 + Covered(t, chosen, id, done)
    && nodes0 <= nodes && Enumerates(nodes[|nodes0|..], Covered(t, chosen, id, done))
    && |nodes| > |nodes0| && nodes[|nodes0|] == id
  }

  lemma WalkedFirst(t: Table, chosen: set<Id>, id: Id, visited0: set<Id>, nodes0: seq<Id>)
    requires Forest(t)
    ensures Walked(t, chosen, id, visited0, nodes0, [], visited0 + {id}, nodes0 + [id])
  {
    assert (nodes0 + [id])[|nodes0|..] == [id];
    assert Covered(t, chosen, id, []) == {id};
  }

  lemma ChosenChildren(t: Table, chosen: set<Id>, id: Id)
    ensures Children(t, id) * chosen == set c | c in t && c in chosen && t[c].parent == Some(id)
  {
  }

  lemma SiblingsApart(t: Table, id: Id, c: Id, d: Id, x: Id)
    requires Forest(t) && c in Children(t, id) && d in Children(t, id) && x in t && Under(t, c, x) && Under(t, d, x)
    ensures c == d
  {
    assert Placed(t, c) && Placed(t, d);
    AncestorsComparable(t, c, d, x);
  }

  lemma CoveredSnoc(t: Table, chosen: set<Id>, id: Id, done: seq<Id>, c: Id)
    requires Forest(t)
    ensures Covered(t, chosen, id, done + [c]) == Covered(t, chosen, id, done) + Region(t, chosen, c)
  {
    hide Region;
    assert forall x :: x in Region(t, chosen, c) ==> x in t by { InTable(t, chosen, c); }
    forall x | x in t ensures (exists d :: d in done + [c] && x in Region(t, chosen, d)) <==>
                              (exists d :: d in done && x in Region(t, chosen, d)) || x in Region(t, chosen, c) {
      assert c in done + [c];
      assert forall d :: d in done + [c] <==> d in done || d == c;
    }
  }

  lemma InTable(t: Table, chosen: set<Id>, c: Id)
    requires Forest(t)
    ensures forall x :: x in Region(t, chosen, c) ==> x in t && Under(t, c, x)
  {
  }

  /** A child's region is untouched by the walk so far, and inside the one being walked. */
  lemma ChildOf(t: Table, chosen: set<Id>, id: Id, children: seq<Id>, k: nat, visited0: set<Id>, nodes0: seq<Id>,
                visited: set<Id>, nodes: seq<Id>)
    requires TreeOk(t) && id in t && id in chosen && visited0 !! Region(t, chosen, id)
    requires Enumerates(children, Children(t, id) * chosen) && k < |children|
    requires Walked(t, chosen, id, visited0, nodes0, children[..k], visited, nodes)
    ensures var c := children[k];
            c in t && c in chosen && t[c].depth == t[id].depth + 1 <= t[c].maxDepth == t[id].maxDepth
    ensures visited !! Region(t, chosen, children[k])
  {
    var c, done := children[k], children[..k];
    assert c in children && Placed(t, c) && LinkOk(t, c) && RowOk(t[c]);
    assert Under(t, id, id) && Under(t, id, c);
    InTable(t, chosen, c);
    hide Region;
    forall x | x in Region(t, chosen, c) ensures x !in visited0 && x !in Covered(t, chosen, id, done) {
      RegionBelow(t, chosen, id, c, x);
      assert x != id;
      if d :| d in done && x in Region(t, chosen, d) {
        assert d in children && d != c;
        InTable(t, chosen, d);
        SiblingsApart(t, id, c, d, x);
      }
    }
  }

  lemma WalkedMore(t: Table, chosen: set<Id>, id: Id, visited0: set<Id>, nodes0: seq<Id>, children: seq<Id>, k: nat,
                   visited1: set<Id>, nodes1: seq<Id>, visited: set<Id>, nodes: seq<Id>)
    requires Forest(t) && k < |children|
    requires Walked(t, chosen, id, visited0, nodes0, children[..k], visited1, nodes1)
    requires visited1 !! Region(t, chosen, children[k])
    requires visited == visited1 + Region(t, chosen, children[k])
    requires nodes1 <= nodes && Enumerates(nodes[|nodes1|..], Region(t, chosen, children[k]))
    ensures Walked(t, chosen, id, visited0, nodes0, children[..k + 1], visited, nodes)
  {
    var c := children[k];
    assert children[..k + 1] == children[..k] + [c];
    CoveredSnoc(t, chosen, id, children[..k], c);
    hide Region, Covered;
    Joined(nodes1[|nodes0|..], nodes[|nodes1|..], Covered(t, chosen, id, children[..k]), Region(t, chosen, c));
    assert nodes[|nodes0|..] == nodes1[|nodes0|..] + nodes[|nodes1|..];
  }

  lemma WalkedAll(t: Table, chosen: set<Id>, id: Id, visited0: set<Id>, nodes0: seq<Id>, children: seq<Id>,
                  visited: set<Id>, nodes: seq<Id>)
    requires Forest(t) && id in t && id in chosen && Enumerates(children, Children(t, id) * chosen)
    requires Walked(t, chosen, id, visited0, nodes0, children, visited, nodes)
    ensures visited == visited0 + Region(t, chosen, id)
    ensures nodes0 <= nodes && Enumerates(nodes[|nodes0|..], Region(t, chosen, id))
    ensures |nodes| > |nodes0| && nodes[|nodes0|] == id
  {
    hide Region, Covered;
    CoversRegion(t, chosen, id, children);
  }

  lemma CoversRegion(t: Table, chosen: set<Id>, id: Id, children: seq<Id>)
    requires Forest(t) && id in t && id in chosen && Enumerates(children, Children(t, id) * chosen)
    ensures Covered(t, chosen, id, children) == Region(t, chosen, id)
  {
    RootOfRegion(t, chosen, id);
    forall x | x in Region(t, chosen, id) && x != id ensures exists c :: c in children && x in Region(t, chosen, c) {
      var c := ChildTowards(t, id, x);
      assert Placed(t, c) && Under(t, id, id) && Under(t, id, c);
      RegionBelow(t, chosen, id, c, x);
      assert c in Children(t, id) * chosen;
    }
    forall x, c | c in children && x in Region(t, chosen, c) ensures x in Region(t, chosen, id) {
      RegionBelow(t, chosen, id, c, x);
    }
  }

  lemma {:induction false} ChildTowards(t: Table, id: Id, x: Id) returns (c: Id)
    requires Forest(t) && x in t && id != x && Under(t, id, x)
    ensures c in Children(t, id) && Under(t, c, x)
    decreases t[x].depth
  {
    assert Placed(t, x) && Under(t, x, x);
    var p := t[x].parent.value;
    if p == id {
      c := x;
    } else {
      c := ChildTowards(t, id, p);
    }
  }

  lemma Joined(a: seq<Id>, b: seq<Id>, A: set<Id>, B: set<Id>)
    requires Enumerates(a, A) && Enumerates(b, B) && A !! B
    ensures Enumerates(a + b, A + B)
  {
    forall i, j | 0 <= i < j < |a + b| ensures (a + b)[i] != (a + b)[j] {
      if i < |a| <= j {
        assert a[i] in a && b[j - |a|] in b;
      }
    }
  }

  lemma ReadBack(t: Table, chosen: set<Id>, root: Id, nodes: seq<Id>)
    requires TreeOk(t) && root in t && t[root].parent == None && Enumerates(nodes, Region(t, chosen, root))
    ensures forall j :: 0 <= j < |nodes| ==> nodes[j] in t && nodes[j] in Region(t, chosen, root)
    ensures (forall j :: 0 <= j < |nodes| ==> t[nodes[j]].depth == 0 || NarrowAt(t, nodes[j])) <==> Narrowing(t, chosen, root)
    ensures forall x :: x in Region(t, chosen, root) ==> exists j :: 0 <= j < |nodes| && nodes[j] == x
    ensures t[root].depth == 0
  {
    assert Placed(t, root);
    forall x | x in Region(t, chosen, root)
      ensures x in t && (t[x].depth == 0 <==> x == root) && exists j :: 0 <= j < |nodes| && nodes[j] == x
    {
      assert x in nodes;
    }
    forall j | 0 <= j < |nodes| ensures nodes[j] in t && nodes[j] in Region(t, chosen, root) {
      assert nodes[j] in nodes;
    }
  }
}
