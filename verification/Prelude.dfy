/** Small vocabulary shared by all modules: optional values, scope lists and duplicate-free lists. */
module Prelude {

  datatype Option<+T> = None | Some(value: T)

  ghost predicate NoDup<T>(s: seq<T>) {
    forall i, j :: 0 <= i < j < |s| ==> s[i] != s[j]
  }

  predicate Subset(a: seq<string>, b: seq<string>) {
    forall x <- a :: x in b
  }

  /** The characters a regular expression's `.` does not match. */
  predicate LineTerminator(c: char) {
    c == '\n' || c == '\r' || c == '\U{2028}' || c == '\U{2029}'
  }

  /** `s` lists the elements of `S`, each exactly once, in some order. */
  ghost predicate Enumerates<T>(s: seq<T>, S: set<T>) {
    && NoDup(s)
    && (forall x <- s :: x in S)
    && (forall x <- S :: x in s)
  }

  lemma {:induction false} NoDupBound<T>(s: seq<T>, S: set<T>)
    requires NoDup(s) && forall x <- s :: x in S
    ensures |s| <= |S|
    ensures |s| == |S| ==> forall x <- S :: x in s
  {
    if s != [] {
      var last := s[|s| - 1];
      var init := s[..|s| - 1];
      assert forall x <- init :: x in s && x != last;
      NoDupBound(init, S - {last});
    }
  }

  lemma EnumerationLength<T>(s: seq<T>, S: set<T>)
    requires Enumerates(s, S)
    ensures |s| == |S|
  {
    NoDupBound(s, S);
    assert S == set x | x in s;
    SeqSetBound(s);
  }

  lemma {:induction false} SeqSetBound<T>(s: seq<T>)
    ensures |set x | x in s| <= |s|
    ensures |set x | x in s| == |s| <==> NoDup(s)
  {
    if s != [] {
      var init, last := s[..|s| - 1], s[|s| - 1];
      SeqSetBound(init);
      assert s == init + [last];
      assert (set x | x in s) == (set x | x in init) + {last};
      if last in init {
        var i :| 0 <= i < |init| && init[i] == last;
        assert s[i] == s[|s| - 1];
        assert (set x | x in s) == (set x | x in init);
      } else if NoDup(init) {
        assert NoDup(s);
      } else {
        var i, j :| 0 <= i < j < |init| && init[i] == init[j];
        assert s[i] == s[j];
      }
    } else {
      assert (set x | x in s) == {};
    }
  }

  lemma {:induction false} NoDupMultiset<T>(s: seq<T>, x: T)
    requires NoDup(s)
    ensures multiset(s)[x] == if x in s then 1 else 0
  {
    if s != [] {
      var init, last := s[..|s| - 1], s[|s| - 1];
      NoDupMultiset(init, x);
      assert s == init + [last];
    }
  }

  function Elements<T>(s: seq<T>): set<T> {
    set x | x in s
  }

  /** `g` lists, in order, the entries of `from` at the positions `at`, which are those of the members of `keep`. */
  ghost predicate Picks<T>(g: seq<T>, from: seq<T>, keep: set<T>, at: seq<nat>) {
    && |at| == |g|
    && (forall j :: 0 <= j < |at| ==> at[j] < |from| && g[j] == from[at[j]])
    && (forall i, j :: 0 <= i < j < |at| ==> at[i] < at[j])
    && (forall k: nat {:trigger from[k]} :: k < |from| ==> (from[k] in keep <==> k in at))
  }

  /** `g` is `from` without what is not in `keep`: same order, every occurrence. */
  ghost predicate IsFilter<T>(g: seq<T>, from: seq<T>, keep: set<T>) {
    exists at :: Picks(g, from, keep, at)
  }

  lemma FilterNothing<T>(keep: set<T>)
    ensures IsFilter([], [], keep)
  {
    var none: seq<T> := [];
    assert Picks(none, none, keep, []);
  }

  lemma PicksKept<T>(g: seq<T>, from: seq<T>, keep: set<T>, x: T, at: seq<nat>)
    requires Picks(g, from, keep, at) && x in keep
    ensures Picks(g + [x], from + [x], keep, at + [|from|])
  {
    var more, longer := at + [|from|], from + [x];
    assert forall k :: k in more <==> k in at || k == |from|;
    forall j | 0 <= j < |more| ensures more[j] < |longer| && (g + [x])[j] == longer[more[j]] {
      if j < |at| { assert at[j] < |from| && g[j] == from[at[j]]; }
    }
    forall k: nat | k < |longer| ensures longer[k] in keep <==> k in more {
      if k < |from| { assert from[k] in keep <==> k in at; }
    }
  }

  lemma PicksDropped<T>(g: seq<T>, from: seq<T>, keep: set<T>, x: T, at: seq<nat>)
    requires Picks(g, from, keep, at) && x !in keep
    ensures Picks(g, from + [x], keep, at)
  {
    var longer := from + [x];
    forall j | 0 <= j < |at| ensures at[j] < |longer| && g[j] == longer[at[j]] {
      assert at[j] < |from| && g[j] == from[at[j]];
    }
    forall k | k in at ensures k < |from| {
      var j :| 0 <= j < |at| && at[j] == k;
    }
    forall k: nat | k < |longer| ensures longer[k] in keep <==> k in at {
      if k < |from| { assert from[k] in keep <==> k in at; }
    }
  }

  lemma FilterMembers<T>(g: seq<T>, from: seq<T>, keep: set<T>)
    requires IsFilter(g, from, keep)
    ensures forall x :: x in g <==> x in from && x in keep
  {
    var at :| Picks(g, from, keep, at);
    forall x | x in from && x in keep ensures x in g {
      var k :| 0 <= k < |from| && from[k] == x;
      var j :| 0 <= j < |at| && at[j] == k;
      assert g[j] == x;
    }
    forall x | x in g ensures x in from && x in keep {
      var j :| 0 <= j < |g| && g[j] == x;
      assert from[at[j]] == x && at[j] in at;
    }
  }

  lemma FilterSnoc<T>(g: seq<T>, from: seq<T>, keep: set<T>, x: T)
    requires IsFilter(g, from, keep)
    ensures IsFilter(if x in keep then g + [x] else g, from + [x], keep)
  {
    var at :| Picks(g, from, keep, at);
    hide Picks;
    if x in keep {
      PicksKept(g, from, keep, x, at);
    } else {
      PicksDropped(g, from, keep, x, at);
    }
  }

  /** What a query returns: the matching rows, each once, in an order nobody promises. */
  method Select<T(==)>(matching: set<T>) returns (rows: seq<T>)
    ensures Enumerates(rows, matching)
  {
    rows := [];
    var rest := matching;
    while rest != {}
      invariant rest <= matching && NoDup(rows)
      invariant forall x <- rows :: x in matching && x !in rest
      invariant forall x <- matching :: x in rest || x in rows
    {
      var x :| x in rest;
      rest, rows := rest - {x}, rows + [x];
    }
  }
}
