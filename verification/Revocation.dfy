/** The in-memory revocation store. */
module Revocation {
  import opened Prelude
  import opened CoreDelegation

  datatype Entry = Entry(expiresAt: int, revokedAt: int)

  type Entries = map<string, Entry>

  function Purge(e: Entries, now: int): Entries {
    map id | id in e && e[id].expiresAt > now :: e[id]
  }

  datatype Op = Revoke(id: string, expiresAt: int, at: int) | Cleanup(at: int)

  function Apply(e: Entries, op: Op): Entries {
    match op
    case Revoke(id, exp, at) => if id == "" then e else e[id := Entry(exp, at)]
    case Cleanup(at) => Purge(e, at)
  }

  function ApplyAll(e: Entries, ops: seq<Op>): Entries {
    if ops == [] then e else Apply(ApplyAll(e, ops[..|ops| - 1]), ops[|ops| - 1])
  }

  ghost function NonEmpty(ids: seq<string>): (s: set<string>)
    ensures forall x :: x in s <==> x in ids && x != ""
  {
    set x | x in ids && x != ""
  }

  class InMemoryRevocationStore {
    var entries: Entries

    constructor ()
      ensures entries == map[]
    {
      entries := map[];
    }

    /** Fails, changing nothing, on an empty identifier. */
    method Revoke(id: string, expiresAt: int, now: int) returns (ok: bool)
      modifies this
      ensures ok <==> id != ""
      ensures entries == Apply(old(entries), Op.Revoke(id, expiresAt, now))
      ensures entries == if ok then old(entries)[id := Entry(expiresAt, now)] else old(entries)
    {
      if id == "" { return false; }
      entries := entries[id := Entry(expiresAt, now)];
      return true;
    }

    method IsRevoked(id: string) returns (revoked: bool)
      ensures revoked <==> id in entries
    {
      return id in entries;
    }

    method RevokeWithCascade(id: string, expiresAt: int, children: seq<string>, now: int)
      returns (ok: bool, cascaded: seq<string>, total: nat)
      modifies this
      ensures ok <==> id != ""
      ensures !ok ==> entries == old(entries)
      ensures ok ==> entries == old(entries) + Cascade(id, expiresAt, children, now)
      ensures ok ==> forall x: string ::
                if x == id || (x in children && x != "") then x in entries && entries[x] == Entry(expiresAt, now)
                else (x in entries <==> x in old(entries)) && (x in entries ==> entries[x] == old(entries)[x])
      ensures ok ==> total == 1 + |cascaded| && forall c :: c in cascaded <==> c in children && c != ""
      ensures ok ==> IsFilter(cascaded, children, NonEmpty(children))
    {
      hide *;
      ghost var was, keep := entries, NonEmpty(children);
      cascaded, total := [], 0;
      ok := Revoke(id, expiresAt, now);
      if !ok { return; }
      CascadingStart(was, id, expiresAt, now, keep);
      for i := 0 to |children|
        invariant Cascading(entries, was, id, expiresAt, children[..i], now, cascaded, keep)
      {
        var child := children[i];
        CascadingStep(entries, was, id, expiresAt, children[..i], child, now, cascaded, keep);
        assert children[..i + 1] == children[..i] + [child];
        if child != "" {
          var _ := Revoke(child, expiresAt, now);
          cascaded := cascaded + [child];
        }
      }
      assert children[..|children|] == children;
      total := 1 + |cascaded|;
      CascadingEnd(entries, was, id, expiresAt, children, now, cascaded, keep);
    }

    method Cleanup(now: int) returns (removed: nat)
      modifies this
      ensures entries == Purge(old(entries), now)
      ensures removed == |old(entries)| - |entries|
      ensures forall id :: id in entries <==> id in old(entries) && now < old(entries)[id].expiresAt
      ensures forall id <- entries :: entries[id] == old(entries)[id]
    {
      removed := 0;
      ghost var was := entries;
      var ids := entries.Keys;
      while ids != {}
        invariant ids <= was.Keys && entries.Keys <= was.Keys && ids <= entries.Keys
        invariant forall id <- was :: id in entries <==> id in ids || was[id].expiresAt > now
        invariant forall id <- entries :: entries[id] == was[id]
        invariant removed == |was| - |entries|
      {
        var id :| id in ids;
        ids := ids - {id};
        if entries[id].expiresAt <= now {
          assert (entries - {id}).Keys == entries.Keys - {id};
          entries := entries - {id};
          removed := removed + 1;
        }
      }
      assert entries == Purge(was, now);
    }

    function Size(): nat
      reads this
    {
      |entries|
    }
  }

  function Cascade(id: string, expiresAt: int, children: seq<string>, now: int): Entries {
    map x | x in [id] + children && (x == id || x != "") :: Entry(expiresAt, now)
  }

  lemma CascadeOnto(e: Entries, id: string, expiresAt: int, children: seq<string>, now: int)
    requires id != ""
    ensures var u := e + Cascade(id, expiresAt, children, now);
            forall x: string ::
              if x == id || (x in children && x != "") then x in u && u[x] == Entry(expiresAt, now)
              else (x in u <==> x in e) && (x in u ==> u[x] == e[x])
  {
  }

  /** The children so far are revoked with the token, and the non-empty ones listed. */
  ghost predicate Cascading(e: Entries, was: Entries, id: string, expiresAt: int, children: seq<string>, now: int,
                            cascaded: seq<string>, keep: set<string>) {
    e == was + Cascade(id, expiresAt, children, now) && IsFilter(cascaded, children, keep)
  }

  lemma CascadingStart(was: Entries, id: string, expiresAt: int, now: int, keep: set<string>)
    ensures Cascading(was[id := Entry(expiresAt, now)], was, id, expiresAt, [], now, [], keep)
  {
    CascadeStart(id, expiresAt, now);
    FilterNothing(keep);
  }

  lemma CascadingStep(e: Entries, was: Entries, id: string, expiresAt: int, done: seq<string>, child: string, now: int,
                      cascaded: seq<string>, keep: set<string>)
    requires id != "" && Cascading(e, was, id, expiresAt, done, now, cascaded, keep) && (child in keep <==> child != "")
    ensures Cascading(if child == "" then e else e[child := Entry(expiresAt, now)], was, id, expiresAt, done + [child], now,
                      if child == "" then cascaded else cascaded + [child], keep)
  {
    hide IsFilter, Cascade;
    CascadeSnoc(id, expiresAt, done, child, now);
    FilterSnoc(cascaded, done, keep, child);
  }

  lemma CascadingEnd(e: Entries, was: Entries, id: string, expiresAt: int, children: seq<string>, now: int,
                     cascaded: seq<string>, keep: set<string>)
    requires id != "" && Cascading(e, was, id, expiresAt, children, now, cascaded, keep)
    ensures e == was + Cascade(id, expiresAt, children, now) && IsFilter(cascaded, children, keep)
    ensures forall c :: c in cascaded <==> c in children && c in keep
    ensures forall x: string ::
              if x == id || (x in children && x != "") then x in e && e[x] == Entry(expiresAt, now)
              else (x in e <==> x in was) && (x in e ==> e[x] == was[x])
  {
    CascadeOnto(was, id, expiresAt, children, now);
    FilterMembers(cascaded, children, keep);
  }

  lemma CascadeStart(id: string, expiresAt: int, now: int)
    ensures Cascade(id, expiresAt, [], now) == map[id := Entry(expiresAt, now)]
  {
  }

  lemma CascadeSnoc(id: string, expiresAt: int, children: seq<string>, child: string, now: int)
    requires id != ""
    ensures Cascade(id, expiresAt, children + [child], now)
            == if child == "" then Cascade(id, expiresAt, children, now)
               else Cascade(id, expiresAt, children, now)[child := Entry(expiresAt, now)]
  {
    assert [id] + (children + [child]) == ([id] + children) + [child];
  }

  predicate Touches(op: Op, id: string) {
    op.Revoke? && op.id == id
  }

  /** A revocation not repeated later is remembered exactly until a cleanup at or after its expiry. */
  lemma {:induction false} RememberedExactly(e: Entries, ops: seq<Op>, id: string)
    requires id in e && forall i :: 0 <= i < |ops| ==> !Touches(ops[i], id)
    ensures id in ApplyAll(e, ops) <==> forall i :: 0 <= i < |ops| && ops[i].Cleanup? ==> ops[i].at < e[id].expiresAt
    ensures id in ApplyAll(e, ops) ==> ApplyAll(e, ops)[id] == e[id]
  {
    if ops != [] {
      var n := |ops| - 1;
      RememberedExactly(e, ops[..n], id);
      NotRevivedByOthers(ApplyAll(e, ops[..n]), ops[n], id);
      assert forall i :: 0 <= i < n ==> ops[..n][i] == ops[i];
    }
  }

  lemma NotRevivedByOthers(e: Entries, op: Op, id: string)
    requires !Touches(op, id)
    ensures id in Apply(e, op) <==> id in e && (op.Cleanup? ==> op.at < e[id].expiresAt)
    ensures id in Apply(e, op) ==> Apply(e, op)[id] == e[id]
  {
  }

  /** Operations on other tokens, with every cleanup before `until`. */
  ghost predicate LeavesAlone(ops: seq<Op>, id: string, until: int) {
    forall i :: 0 <= i < |ops| ==> !Touches(ops[i], id) && (ops[i].Cleanup? ==> ops[i].at < until)
  }

  /** An entry outlives a given time, under everything that leaves its token alone, exactly when it is filed for as long. */
  lemma EntryCoversExactly(e: Entries, id: string, until: int)
    requires id in e
    ensures (forall ops :: LeavesAlone(ops, id, until) ==> id in ApplyAll(e, ops)) <==> until <= e[id].expiresAt
  {
    forall ops | LeavesAlone(ops, id, until) && until <= e[id].expiresAt ensures id in ApplyAll(e, ops) {
      RememberedExactly(e, ops, id);
    }
    if e[id].expiresAt < until {
      var ops := [Op.Cleanup(e[id].expiresAt)];
      assert LeavesAlone(ops, id, until);
      RememberedExactly(e, ops, id);
      assert ops[0].Cleanup? && id !in ApplyAll(e, ops);
    }
  }

  /** Cascade a revocation under the expiry of a token to a token delegated from it, over any number of hops, among any
      children and into any store. The descendant stays revoked for the rest of its own life, under every sequence of
      later operations on other tokens with every schedule of cleanups, exactly when it does not outlive the token at
      the top; if the hops leave no time between their two clock readings, it never does. */
  lemma CascadeCoversChildExactly(store: Entries, root: Token, hops: seq<Hop>, rootId: string, childId: string,
                                  children: seq<string>, at: int)
    requires WellFormedSub(root.sub) && ValidChain(root) && FreshHops(root, hops) && DelegateAll(root, hops).Ok?
    requires rootId != "" && childId != "" && childId in children
    ensures var c, e := DelegateAll(root, hops).value, store + Cascade(rootId, root.exp, children, at);
            (forall ops :: LeavesAlone(ops, childId, c.exp) ==> childId in ApplyAll(e, ops)) <==> c.exp <= root.exp
    ensures Gaps(hops) <= 0 ==> DelegateAll(root, hops).value.exp <= root.exp
  {
    hide WellFormedSub, ValidChain, FreshHops, DelegateAll, LeavesAlone, ApplyAll, Gaps;
    DelegationChainsKeepValidity(root, hops);
    assert childId in [rootId] + children;
    EntryCoversExactly(store + Cascade(rootId, root.exp, children, at), childId, DelegateAll(root, hops).value.exp);
  }
}
