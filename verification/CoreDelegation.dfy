/** Core tokens: delegation, chain validation and what survives any number of delegations. */
module CoreDelegation {
  import opened Prelude
  import opened Permissions

  datatype Token = Token(
    sub: string, iss: string, aud: string, exp: int, human: string, agent: string, scope: seq<string>,
    depth: nat, maxDepth: nat, chain: seq<string>, canDelegate: seq<string>)

  datatype Request = Request(childName: string, requested: seq<string>, ttlSeconds: Option<int>)

  datatype Error =
    | InvalidRequest | ParentInvalid | DepthLimit | NothingGranted | NoLifetimeLeft | InvalidClaims

  datatype Result<+T> = Ok(value: T) | Err(error: Error)

  const DEFAULT_CHILD_TTL_SECONDS := 1800
  const SPIFFE := "spiffe://"
  const AGENT := "/agent/"

  // ---- Subjects

  predicate AgentAt(s: string, i: nat) {
    i + |AGENT| <= |s| && s[i..i + |AGENT|] == AGENT
  }

  /** spiffe://<domain>/agent/<id>, with non-empty domain and id and no line terminator. */
  predicate WellFormedSub(s: string) {
    && StartsWith(s, SPIFFE)
    && (forall c <- s :: !LineTerminator(c))
    && exists i :: |SPIFFE| < i < |s| - |AGENT| && AgentAt(s, i)
  }

  /** Everything before the first `/agent/`, or the whole string. */
  function TrustDomain(s: string): (t: string)
    ensures |t| <= |s| && t == s[..|t|]
    ensures |t| < |s| ==> AgentAt(s, |t|)
    ensures forall i :: 0 <= i < |t| ==> !AgentAt(s, i)
  {
    FirstAgent(s, 0)
  }

  function FirstAgent(s: string, i: nat): (t: string)
    requires i <= |s| && forall k :: 0 <= k < i ==> !AgentAt(s, k)
    ensures |t| <= |s| && t == s[..|t|]
    ensures |t| < |s| ==> AgentAt(s, |t|)
    ensures forall k :: 0 <= k < |t| ==> !AgentAt(s, k)
    decreases |s| - i
  {
    if i == |s| then s[..i] else if AgentAt(s, i) then s[..i] else FirstAgent(s, i + 1)
  }

  /** A generated identifier: hexadecimal digits and dashes. */
  predicate Uuid(s: string) {
    s != "" && forall c <- s :: c != '/' && !LineTerminator(c)
  }

  function ChildSub(parentSub: string, uuid: string): string {
    TrustDomain(parentSub) + AGENT + uuid
  }

  // ---- Delegation

  function Lifetime(parent: Token, r: Request, now: int): int {
    var wanted := if r.ttlSeconds.Some? then r.ttlSeconds.value else DEFAULT_CHILD_TTL_SECONDS;
    var remaining := parent.exp - now;
    if wanted <= remaining then wanted else remaining
  }

  /** `checked`, `now` and `issued` are the three clock readings: the parent's verification, the lifetime
      computation, and the signing of the child. */
  function DelegateToken(parent: Token, r: Request, uuid: string, checked: int, now: int, issued: int): Result<Token> {
    if r.childName == "" || r.requested == [] || (r.ttlSeconds.Some? && r.ttlSeconds.value <= 0) then Err(InvalidRequest)
    else if parent.exp <= checked then Err(ParentInvalid)
    else if parent.depth >= parent.maxDepth then Err(DepthLimit)
    else
      var granted := Intersection(parent.scope, r.requested, parent.canDelegate);
      if granted == [] then Err(NothingGranted)
      else if Lifetime(parent, r, now) <= 0 then Err(NoLifetimeLeft)
      else if !WellFormedSub(ChildSub(parent.sub, uuid)) then Err(InvalidClaims)
      else Ok(Token(ChildSub(parent.sub, uuid), parent.iss, parent.aud, issued + Lifetime(parent, r, now), parent.human,
                    r.childName, granted, parent.depth + 1, parent.maxDepth, parent.chain + [parent.sub],
                    Intersection(parent.canDelegate, granted, parent.canDelegate)))
  }

  datatype Violation =
    | DepthMismatch | DepthExceeded | WideDelegation(scope: string) | BadEntry(entry: string) | Circular

  predicate ValidChain(t: Token) {
    && t.depth == |t.chain| && t.depth <= t.maxDepth
    && Subset(t.canDelegate, t.scope)
    && (forall e <- t.chain :: StartsWith(e, SPIFFE))
    && t.sub !in t.chain
  }

  lemma ValidChainExactly(t: Token)
    ensures ValidChain(t) <==>
            && |t.chain| == t.depth <= t.maxDepth && (forall x <- t.canDelegate :: x in t.scope)
            && (forall e <- t.chain :: "spiffe://" <= e) && t.sub !in t.chain
  {
  }

  lemma NoViolation(t: Token, violations: seq<Violation>)
    requires forall v :: v in violations <==>
               match v
               case DepthMismatch => t.depth != |t.chain|
               case DepthExceeded => t.depth > t.maxDepth
               case WideDelegation(s) => s in t.canDelegate && s !in t.scope
               case BadEntry(e) => e in t.chain && !StartsWith(e, SPIFFE)
               case Circular => t.sub in t.chain
    ensures violations == [] <==> ValidChain(t)
  {
    if violations == [] {
      forall s <- t.canDelegate ensures s in t.scope { assert WideDelegation(s) !in violations; }
      forall e <- t.chain ensures StartsWith(e, SPIFFE) { assert BadEntry(e) !in violations; }
      assert DepthMismatch !in violations && DepthExceeded !in violations && Circular !in violations;
    } else {
      assert violations[0] in violations;
    }
  }

  method ValidateDelegationChain(t: Token) returns (violations: seq<Violation>)
    ensures violations == [] <==> ValidChain(t)
    ensures DepthMismatch in violations <==> t.depth != |t.chain|
    ensures DepthExceeded in violations <==> t.depth > t.maxDepth
    ensures forall s :: WideDelegation(s) in violations <==> s in t.canDelegate && s !in t.scope
    ensures forall e :: BadEntry(e) in violations <==> e in t.chain && !StartsWith(e, SPIFFE)
    ensures Circular in violations <==> t.sub in t.chain
  {
    violations := [];
    if t.depth != |t.chain| { violations := violations + [DepthMismatch]; }
    if t.depth > t.maxDepth { violations := violations + [DepthExceeded]; }
    ghost var base := violations;
    for i := 0 to |t.canDelegate|
      invariant forall v :: v in violations <==>
                  v in base || (v.WideDelegation? && v.scope in t.canDelegate[..i] && v.scope !in t.scope)
    {
      assert t.canDelegate[..i + 1] == t.canDelegate[..i] + [t.canDelegate[i]];
      if t.canDelegate[i] !in t.scope { violations := violations + [WideDelegation(t.canDelegate[i])]; }
    }
    assert t.canDelegate[..|t.canDelegate|] == t.canDelegate;
    base := violations;
    for i := 0 to |t.chain|
      invariant forall v :: v in violations <==>
                  v in base || (v.BadEntry? && v.entry in t.chain[..i] && !StartsWith(v.entry, SPIFFE))
    {
      assert t.chain[..i + 1] == t.chain[..i] + [t.chain[i]];
      if !StartsWith(t.chain[i], SPIFFE) { violations := violations + [BadEntry(t.chain[i])]; }
    }
    assert t.chain[..|t.chain|] == t.chain;
    if t.sub in t.chain { violations := violations + [Circular]; }
    NoViolation(t, violations);
  }

  // ---- What one delegation keeps

  lemma SharedPrefixAgents(s: string, u: string, n: nat, i: nat)
    requires n <= |s| && n <= |u| && s[..n] == u[..n] && i + |AGENT| <= n
    ensures AgentAt(s, i) <==> AgentAt(u, i)
  {
    assert s[i..i + |AGENT|] == s[..n][i..i + |AGENT|];
    assert u[i..i + |AGENT|] == u[..n][i..i + |AGENT|];
  }

  /** The child lives in the parent's trust domain. */
  lemma SameTrustDomain(sub: string, uuid: string)
    requires WellFormedSub(sub)
    ensures TrustDomain(ChildSub(sub, uuid)) == TrustDomain(sub)
  {
    var t, child := TrustDomain(sub), ChildSub(sub, uuid);
    var i :| |SPIFFE| < i < |sub| - |AGENT| && AgentAt(sub, i);
    assert |t| <= i;
    var n := |t| + |AGENT|;
    assert sub[..n] == t + AGENT by {
      assert sub[..n] == sub[..|t|] + sub[|t|..n];
    }
    assert child[..n] == t + AGENT;
    assert AgentAt(child, |t|) by { SharedPrefixAgents(sub, child, n, |t|); }
    forall k | 0 <= k < |t| ensures !AgentAt(child, k) {
      if k + |AGENT| <= n { SharedPrefixAgents(sub, child, n, k); }
    }
    var u := TrustDomain(child);
    assert |u| == |t|;
    assert child[..|t|] == t;
  }

  /** A child can be issued exactly when the parent's trust domain is longer than the scheme. */
  lemma ChildIsWellFormedExactly(sub: string, uuid: string)
    requires WellFormedSub(sub) && Uuid(uuid)
    ensures WellFormedSub(ChildSub(sub, uuid)) <==> |TrustDomain(sub)| > |SPIFFE|
  {
    var t, child := TrustDomain(sub), ChildSub(sub, uuid);
    var j :| |SPIFFE| < j < |sub| - |AGENT| && AgentAt(sub, j);
    assert forall c <- t :: c in sub;
    if |t| > |SPIFFE| {
      assert child[..|SPIFFE|] == t[..|SPIFFE|] == sub[..|SPIFFE|];
      assert AgentAt(child, |t|) by { assert child[|t|..|t| + |AGENT|] == AGENT; }
    } else {
      forall i | |SPIFFE| < i < |child| - |AGENT| ensures !AgentAt(child, i) {
        var last := i + |AGENT| - 1;
        assert child[last] == uuid[last - |t| - |AGENT|] && child[last] in uuid;
        assert child[i..i + |AGENT|][|AGENT| - 1] == child[last];
      }
    }
  }

  /** Under a trust domain no longer than the scheme no request is ever granted. */
  lemma ShortTrustDomainCannotDelegate(p: Token, r: Request, uuid: string, checked: int, now: int, issued: int)
    requires WellFormedSub(p.sub) && |TrustDomain(p.sub)| <= |SPIFFE| && Uuid(uuid)
    ensures DelegateToken(p, r, uuid, checked, now, issued).Err?
  {
    ChildIsWellFormedExactly(p.sub, uuid);
  }

  lemma ShortDomain(s: string, at: nat, later: nat)
    requires StartsWith(s, SPIFFE) && (forall c <- s :: !LineTerminator(c))
    requires at <= |SPIFFE| < later < |s| - |AGENT| && AgentAt(s, at) && AgentAt(s, later)
    ensures WellFormedSub(s) && |TrustDomain(s)| <= |SPIFFE|
  {
  }

  /** There are such tokens: a domain that starts with `/agent/`, or is itself called `agent`. */
  lemma ShortTrustDomainsExist()
    ensures var s := SPIFFE + AGENT + "x" + AGENT + "y"; WellFormedSub(s) && |TrustDomain(s)| <= |SPIFFE|
    ensures var s := SPIFFE + "agent/x" + AGENT + "y"; WellFormedSub(s) && |TrustDomain(s)| <= |SPIFFE|
  {
    hide WellFormedSub, TrustDomain;
    var s, u := SPIFFE + AGENT + "x" + AGENT + "y", SPIFFE + "agent/x" + AGENT + "y";
    assert s[9..16] == AGENT && s[17..24] == AGENT;
    ShortDomain(s, 9, 17);
    assert u[8..15] == AGENT && u[16..23] == AGENT;
    ShortDomain(u, 8, 16);
  }

  /** A child of an accepted token is accepted, in the same trust domain and for the same human. */
  lemma DelegationKeepsValidity(p: Token, r: Request, uuid: string, checked: int, now: int, issued: int)
    requires WellFormedSub(p.sub) && ValidChain(p) && Uuid(uuid)
    requires DelegateToken(p, r, uuid, checked, now, issued).Ok?
    requires ChildSub(p.sub, uuid) !in p.chain + [p.sub]
    ensures var c := DelegateToken(p, r, uuid, checked, now, issued).value;
            && ValidChain(c) && WellFormedSub(c.sub) && TrustDomain(c.sub) == TrustDomain(p.sub)
            && c.human == p.human && c.iss == p.iss && c.aud == p.aud && c.maxDepth == p.maxDepth
            && Subset(c.scope, p.scope) && c.canDelegate == c.scope && p.chain < c.chain
            && c.exp <= p.exp + (issued - now)
  {
    hide WellFormedSub, TrustDomain, Intersection, Lifetime;
    SameTrustDomain(p.sub, uuid);
    SubIsSpiffe(p.sub);
    var granted := Intersection(p.scope, r.requested, p.canDelegate);
    FullIntersection(p.canDelegate, granted, p.canDelegate);
    LifetimeBound(p, r, now);
  }

  /** When a request is granted: it names an agent and some scopes, and a positive time if any; the parent is in time at both
      readings of the clock and above the depth limit; some requested scope is one it holds and may delegate; and its trust
      domain is longer than the scheme. */
  lemma GrantedRequestsExactly(p: Token, r: Request, uuid: string, checked: int, now: int, issued: int)
    requires WellFormedSub(p.sub) && Uuid(uuid)
    ensures DelegateToken(p, r, uuid, checked, now, issued).Ok? <==>
            && r.childName != "" && r.requested != [] && (r.ttlSeconds.Some? ==> 0 < r.ttlSeconds.value)
            && checked < p.exp && now < p.exp && p.depth < p.maxDepth
            && (exists x :: x in r.requested && x in p.scope && x in p.canDelegate)
            && |TrustDomain(p.sub)| > |SPIFFE|
  {
    hide WellFormedSub, TrustDomain;
    ChildIsWellFormedExactly(p.sub, uuid);
    var g := Intersection(p.scope, r.requested, p.canDelegate);
    if g != [] { assert g[0] in g; }
    hide Intersection;
  }

  /** Which refusal a request meets. */
  lemma RefusalsInOrder(p: Token, r: Request, uuid: string, checked: int, now: int, issued: int)
    requires WellFormedSub(p.sub) && Uuid(uuid)
    ensures var d := DelegateToken(p, r, uuid, checked, now, issued);
            var valid := r.childName != "" && r.requested != [] && (r.ttlSeconds.Some? ==> 0 < r.ttlSeconds.value);
            var open := valid && checked < p.exp && p.depth < p.maxDepth;
            var some := exists x :: x in r.requested && x in p.scope && x in p.canDelegate;
            && (d == Err(InvalidRequest) <==> !valid)
            && (d == Err(ParentInvalid) <==> valid && p.exp <= checked)
            && (d == Err(DepthLimit) <==> valid && checked < p.exp && p.maxDepth <= p.depth)
            && (d == Err(NothingGranted) <==> open && !some)
            && (d == Err(NoLifetimeLeft) <==> open && some && p.exp <= now)
            && (d == Err(InvalidClaims) <==> open && some && now < p.exp && |TrustDomain(p.sub)| <= |SPIFFE|)
  {
    hide WellFormedSub, TrustDomain;
    ChildIsWellFormedExactly(p.sub, uuid);
    var g := Intersection(p.scope, r.requested, p.canDelegate);
    if g != [] { assert g[0] in g; }
    hide Intersection;
  }

  /** What a granted request gets: of the requested scopes exactly those that the parent holds and may delegate, in the order
      and with the repetitions of the request, all of which it may delegate further; the time asked for, or half an hour, cut
      to what the parent had left; and the parent's place in the tree, one further down. */
  lemma DelegationGrantsExactly(p: Token, r: Request, uuid: string, checked: int, now: int, issued: int)
    requires DelegateToken(p, r, uuid, checked, now, issued).Ok?
    ensures var c := DelegateToken(p, r, uuid, checked, now, issued).value;
            var ttl := match r.ttlSeconds case None => 1800 case Some(t) => t;
            && (forall x :: x in c.scope <==> x in r.requested && x in p.scope && x in p.canDelegate)
            && IsFilter(c.scope, r.requested, Elements(p.scope) * Elements(p.canDelegate)) && c.canDelegate == c.scope
            && c.exp <= issued + ttl && c.exp - issued <= p.exp - now && c.exp - issued in {ttl, p.exp - now}
            && c.sub == TrustDomain(p.sub) + "/agent/" + uuid && c.chain == p.chain + [p.sub]
            && c.depth == p.depth + 1 && c.maxDepth == p.maxDepth && c.agent == r.childName
            && c.human == p.human && c.iss == p.iss && c.aud == p.aud
  {
    var g := Intersection(p.scope, r.requested, p.canDelegate);
    IntersectionExactly(p.scope, r.requested, p.canDelegate);
    FullIntersection(p.canDelegate, g, p.canDelegate);
    ChildFields(p, r, uuid, checked, now, issued);
    hide WellFormedSub, TrustDomain, Intersection, IsFilter, Elements, DelegateToken;
  }

  lemma ChildFields(p: Token, r: Request, uuid: string, checked: int, now: int, issued: int)
    requires DelegateToken(p, r, uuid, checked, now, issued).Ok?
    ensures var c, g := DelegateToken(p, r, uuid, checked, now, issued).value, Intersection(p.scope, r.requested, p.canDelegate);
            && c.scope == g && c.canDelegate == Intersection(p.canDelegate, g, p.canDelegate)
            && c.exp == issued + Lifetime(p, r, now)
            && c.sub == TrustDomain(p.sub) + AGENT + uuid && c.chain == p.chain + [p.sub]
            && c.depth == p.depth + 1 && c.maxDepth == p.maxDepth && c.agent == r.childName
            && c.human == p.human && c.iss == p.iss && c.aud == p.aud
  {
    hide WellFormedSub, TrustDomain, Intersection, Lifetime;
  }

  lemma SubIsSpiffe(sub: string)
    requires WellFormedSub(sub)
    ensures StartsWith(sub, SPIFFE)
  {
  }

  lemma LifetimeBound(p: Token, r: Request, now: int)
    ensures Lifetime(p, r, now) <= p.exp - now
  {
  }

  // ---- Any number of delegations

  datatype Hop = Hop(request: Request, uuid: string, checked: int, now: int, issued: int)

  function Gap(h: Hop): int {
    h.issued - h.now
  }

  function Gaps(hops: seq<Hop>): int {
    if hops == [] then 0 else Gaps(hops[..|hops| - 1]) + Gap(hops[|hops| - 1])
  }

  function DelegateAll(root: Token, hops: seq<Hop>): Result<Token> {
    if hops == [] then Ok(root)
    else
      var p := DelegateAll(root, hops[..|hops| - 1]);
      var h := hops[|hops| - 1];
      if p.Err? then p else DelegateToken(p.value, h.request, h.uuid, h.checked, h.now, h.issued)
  }

  /** Every identifier drawn along the way is new to the chain it extends. */
  predicate FreshHops(root: Token, hops: seq<Hop>) {
    hops == [] ||
    (var h := hops[|hops| - 1];
     var p := DelegateAll(root, hops[..|hops| - 1]);
     && FreshHops(root, hops[..|hops| - 1]) && Uuid(h.uuid)
     && (p.Ok? ==> ChildSub(p.value.sub, h.uuid) !in p.value.chain + [p.value.sub]))
  }

  /** Any number of delegations from an accepted token gives an accepted token: deeper by their number, within
      the same trust domain and limits, allowing nothing the root does not, and outliving it by at most the
      time between the two clock readings of each hop. */
  lemma {:induction false} DelegationChainsKeepValidity(root: Token, hops: seq<Hop>)
    requires WellFormedSub(root.sub) && ValidChain(root) && FreshHops(root, hops) && DelegateAll(root, hops).Ok?
    ensures var t := DelegateAll(root, hops).value;
            && ValidChain(t) && WellFormedSub(t.sub) && TrustDomain(t.sub) == TrustDomain(root.sub)
            && t.human == root.human && t.maxDepth == root.maxDepth && t.depth == root.depth + |hops|
            && Subset(t.scope, root.scope)
            && t.exp <= root.exp + Gaps(hops)
            && forall tool :: CoreAllows(t.scope, tool) ==> CoreAllows(root.scope, tool)
  {
    hide WellFormedSub, TrustDomain, CoreAllows, DelegateToken, ValidChain;
    if hops != [] {
      var h := hops[|hops| - 1];
      var p := DelegateAll(root, hops[..|hops| - 1]).value;
      DelegationChainsKeepValidity(root, hops[..|hops| - 1]);
      DelegationKeepsValidity(p, h.request, h.uuid, h.checked, h.now, h.issued);
      ChildDepth(p, h);
    }
    forall tool ensures CoreAllows(DelegateAll(root, hops).value.scope, tool) ==> CoreAllows(root.scope, tool) {
      NarrowingIsSemantic(DelegateAll(root, hops).value.scope, root.scope, tool);
    }
  }

  lemma ChildDepth(p: Token, h: Hop)
    requires DelegateToken(p, h.request, h.uuid, h.checked, h.now, h.issued).Ok?
    ensures DelegateToken(p, h.request, h.uuid, h.checked, h.now, h.issued).value.depth == p.depth + 1
  {
  }
}
