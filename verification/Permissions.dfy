/** Scope lists: intersection, wildcard matching and what each component takes a scope list to allow. */
module Permissions {
  import opened Prelude
  import RegistrySpec

  predicate StartsWith(s: string, prefix: string) {
    |prefix| <= |s| && s[..|prefix|] == prefix
  }

  predicate EndsWith(s: string, suffix: string) {
    |suffix| <= |s| && s[|s| - |suffix|..] == suffix
  }

  /** `*`, an exact match, or a prefix wildcard such as `db:*`. */
  predicate Covers(scope: string, tool: string) {
    || scope == "*"
    || scope == tool
    || (EndsWith(scope, ":*") && StartsWith(tool, scope[..|scope| - 1]))
  }

  predicate CoreAllows(scopes: seq<string>, tool: string) {
    tool != "" && exists s <- scopes :: Covers(s, tool)
  }

  predicate SidecarAllows(scopes: seq<string>, tool: string) {
    "*" in scopes || tool in scopes
  }

  predicate RegistryAllows(scopes: seq<string>, tool: string) {
    tool in scopes
  }

  lemma CoversExactly(s: string, tool: string)
    ensures Covers(s, tool) <==> s == "*" || s == tool || exists prefix: string :: s == prefix + ":*" && prefix + ":" <= tool
  {
    if EndsWith(s, ":*") {
      var prefix := s[..|s| - 2];
      assert s == prefix + ":*" && s[..|s| - 1] == prefix + ":";
    }
    if prefix: string :| s == prefix + ":*" && prefix + ":" <= tool {
      assert s[..|s| - 1] == prefix + ":" && s[|s| - 2..] == ":*";
    }
  }

  /** In the core a tool is allowed by the star, by its own name or by a prefix of it that ends in a colon, starred. */
  lemma CoreAllowsExactly(scopes: seq<string>, tool: string)
    ensures CoreAllows(scopes, tool) <==>
            tool != "" && (|| "*" in scopes || tool in scopes
                           || exists prefix: string :: prefix + ":*" in scopes && prefix + ":" <= tool)
  {
    hide Covers;
    forall s <- scopes
      ensures Covers(s, tool) <==> s == "*" || s == tool || exists prefix: string :: s == prefix + ":*" && prefix + ":" <= tool
    {
      CoversExactly(s, tool);
    }
  }

  method IsActionAllowed(scopes: seq<string>, tool: string) returns (allowed: bool)
    ensures allowed <==> CoreAllows(scopes, tool)
    ensures allowed <==> tool != "" && (|| "*" in scopes || tool in scopes
                                        || exists prefix: string :: prefix + ":*" in scopes && prefix + ":" <= tool)
  {
    CoreAllowsExactly(scopes, tool);
    if tool == "" { return false; }
    for i := 0 to |scopes|
      invariant forall k :: 0 <= k < i ==> !Covers(scopes[k], tool)
    {
      var scope := scopes[i];
      assert scope in scopes;
      if scope == "*" { return true; }
      if scope == tool { return true; }
      if EndsWith(scope, ":*") {
        var prefix := scope[..|scope| - 1];
        if StartsWith(tool, prefix) { return true; }
      }
    }
    return false;
  }

  /** The requested scopes held and delegatable, in request order. */
  function Intersection(held: seq<string>, requested: seq<string>, delegatable: seq<string>): (g: seq<string>)
    ensures forall x :: x in g <==> x in requested && x in held && x in delegatable
  {
    if requested == [] then []
    else
      var rest := Intersection(held, requested[..|requested| - 1], delegatable);
      var x := requested[|requested| - 1];
      if x in held && x in delegatable then rest + [x] else rest
  }

  /** Granted and denied together are the request, and nothing is in both. */
  method IntersectScopes(held: seq<string>, requested: seq<string>, delegatable: seq<string>)
    returns (granted: seq<string>, denied: seq<string>)
    ensures granted == Intersection(held, requested, delegatable)
    ensures forall x :: x in granted <==> x in requested && x in held && x in delegatable
    ensures IsFilter(granted, requested, Elements(held) * Elements(delegatable))
    ensures multiset(granted) + multiset(denied) == multiset(requested)
    ensures forall x <- denied :: x in requested && x !in granted
  {
    hide Intersection, IsFilter, Elements;
    IntersectionExactly(held, requested, delegatable);
    granted, denied := [], [];
    IntersectionNone(held, delegatable);
    for i := 0 to |requested|
      invariant granted == Intersection(held, requested[..i], delegatable)
      invariant multiset(granted) + multiset(denied) == multiset(requested[..i])
      invariant forall x <- denied :: x in requested && !(x in held && x in delegatable)
    {
      var scope := requested[i];
      assert requested[..i + 1] == requested[..i] + [scope];
      IntersectionSnoc(held, requested[..i], scope, delegatable);
      if scope in held && scope in delegatable {
        granted := granted + [scope];
      } else {
        denied := denied + [scope];
      }
    }
    assert requested[..|requested|] == requested;
  }

  /** The grant is the request, in its order and with its repetitions, without what is not held or may not be handed on. */
  lemma {:induction false} IntersectionExactly(held: seq<string>, requested: seq<string>, delegatable: seq<string>)
    ensures IsFilter(Intersection(held, requested, delegatable), requested, Elements(held) * Elements(delegatable))
  {
    hide Intersection, IsFilter;
    var keep := Elements(held) * Elements(delegatable);
    if requested == [] {
      IntersectionNone(held, delegatable);
      FilterNothing(keep);
    } else {
      var init, x := requested[..|requested| - 1], requested[|requested| - 1];
      assert requested == init + [x];
      IntersectionExactly(held, init, delegatable);
      IntersectionSnoc(held, init, x, delegatable);
      FilterSnoc(Intersection(held, init, delegatable), init, keep, x);
    }
  }

  lemma IntersectionNone(held: seq<string>, delegatable: seq<string>)
    ensures Intersection(held, [], delegatable) == []
  {
  }

  lemma IntersectionSnoc(held: seq<string>, requested: seq<string>, x: string, delegatable: seq<string>)
    ensures x in held && x in delegatable ==>
              Intersection(held, requested + [x], delegatable) == Intersection(held, requested, delegatable) + [x]
    ensures !(x in held && x in delegatable) ==>
              Intersection(held, requested + [x], delegatable) == Intersection(held, requested, delegatable)
  {
    var r := requested + [x];
    assert r[..|r| - 1] == requested && r[|r| - 1] == x;
  }

  method CanDelegate(scopes: seq<string>, canDelegate: seq<string>, depth: nat, maxDepth: nat, wanted: seq<string>)
    returns (can: bool)
    ensures can <==> depth < maxDepth && wanted != [] && Intersection(scopes, wanted, canDelegate) == wanted
    ensures can <==> depth < maxDepth && wanted != [] && forall x <- wanted :: x in scopes && x in canDelegate
  {
    if depth >= maxDepth { return false; }
    if wanted == [] { return false; }
    for i := 0 to |wanted|
      invariant forall k :: 0 <= k < i ==> wanted[k] in scopes && wanted[k] in canDelegate
    {
      if wanted[i] !in scopes || wanted[i] !in canDelegate {
        assert wanted[i] in wanted && wanted[i] !in Intersection(scopes, wanted, canDelegate);
        return false;
      }
    }
    FullIntersection(scopes, wanted, canDelegate);
    return true;
  }

  lemma {:induction false} FullIntersection(held: seq<string>, wanted: seq<string>, delegatable: seq<string>)
    requires forall x <- wanted :: x in held && x in delegatable
    ensures Intersection(held, wanted, delegatable) == wanted
  {
    if wanted != [] {
      assert wanted[|wanted| - 1] in wanted;
      FullIntersection(held, wanted[..|wanted| - 1], delegatable);
    }
  }

  /** Narrowing a scope list narrows what it allows, wildcards included. */
  lemma NarrowingIsSemantic(child: seq<string>, parent: seq<string>, tool: string)
    requires Subset(child, parent)
    ensures CoreAllows(child, tool) ==> CoreAllows(parent, tool)
    ensures SidecarAllows(child, tool) ==> SidecarAllows(parent, tool)
    ensures RegistryAllows(child, tool) ==> RegistryAllows(parent, tool)
  {
    if CoreAllows(child, tool) {
      var s :| s in child && Covers(s, tool);
      assert s in parent;
    }
  }

  /** Each component is at least as permissive as the one before it, and none of the three agrees with another. */
  lemma MatchersAreNested(scopes: seq<string>, tool: string)
    requires tool != ""
    ensures RegistryAllows(scopes, tool) ==> SidecarAllows(scopes, tool)
    ensures SidecarAllows(scopes, tool) ==> CoreAllows(scopes, tool)
  {
    if SidecarAllows(scopes, tool) {
      var s := if "*" in scopes then "*" else tool;
      assert s in scopes && Covers(s, tool);
    }
  }

  lemma MatchersDiffer()
    ensures SidecarAllows(["*"], "db:read") && !RegistryAllows(["*"], "db:read")
    ensures CoreAllows(["db:*"], "db:read") && !SidecarAllows(["db:*"], "db:read")
  {
    assert "db:*" in ["db:*"] && EndsWith("db:*", ":*") && StartsWith("db:read", "db:");
    assert Covers("db:*", "db:read");
  }

  /** The registry's filter, which looks at what the parent may delegate and not at what it holds, grants what the
      core's three-way intersection grants for every request exactly when the parent may delegate only what it holds. */
  lemma TwoWayIsThreeWayExactly(held: seq<string>, delegatable: seq<string>)
    ensures Subset(delegatable, held) <==>
            forall requested :: RegistrySpec.Granted(requested, delegatable) == Intersection(held, requested, delegatable)
  {
    if Subset(delegatable, held) {
      forall requested ensures RegistrySpec.Granted(requested, delegatable) == Intersection(held, requested, delegatable) {
        GrantedIsIntersection(held, requested, delegatable);
      }
    } else {
      var x :| x in delegatable && x !in held;
      assert x in RegistrySpec.Granted([x], delegatable) && x !in Intersection(held, [x], delegatable);
    }
  }

  lemma {:induction false} GrantedIsIntersection(held: seq<string>, requested: seq<string>, delegatable: seq<string>)
    requires Subset(delegatable, held)
    ensures RegistrySpec.Granted(requested, delegatable) == Intersection(held, requested, delegatable)
  {
    if requested != [] {
      var init, x := requested[..|requested| - 1], requested[|requested| - 1];
      GrantedIsIntersection(held, init, delegatable);
      RegistrySpec.GrantedSnoc(init, x, delegatable);
      assert requested == init + [x];
    }
  }
}
