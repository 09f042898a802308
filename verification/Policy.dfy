/** Rule-based policies: which rule decides a tool call, and what the enforcement mode makes of it. */
module Policy {
  import opened Prelude
  import Glob
  import Permissions

  datatype Action = AllowRule | DenyRule | LogRule | ApprovalRule

  datatype Claims = Claims(sub: nat, agentName: string, email: string, depth: int, scope: seq<string>)

  datatype AgentMatch = AnyAgent | Unauthenticated | AgentPatterns(patterns: seq<string>)

  datatype DepthMatch = DepthMatch(gt: Option<int>, lt: Option<int>, eq: Option<int>)

  /** Times are minutes since midnight, -1 where the text did not parse; days are 0 (Sunday) to 6. */
  datatype TimeWindow = TimeWindow(after: Option<int>, before: Option<int>, days: Option<set<nat>>)

  /** The outcome of a test of the rule language: a pattern that is no regular expression throws. */
  datatype Test = Yes | No | Throws

  datatype Rule = Rule(
    name: string, tool: Option<seq<string>>, agent: AgentMatch, email: Option<seq<string>>,
    depth: Option<DepthMatch>, window: Option<TimeWindow>, arguments: Option<string -> Test>,
    action: Action, reason: Option<string>, priority: Option<int>)

  datatype Call = Call(tool: string, claims: Option<Claims>, arguments: Option<string>, minutes: nat, day: nat)

  /** `NoEvaluation`: an exception left `evaluate`. */
  datatype Evaluation = Evaluation(action: Action, rule: Option<string>) | NoEvaluation

  // ---- Matching

  function GlobTest(pattern: string, value: string): Test {
    match Glob.GlobMatch(pattern, value)
    case None => Throws
    case Some(matched) => if matched then Yes else No
  }

  /** The first pattern that matches or throws settles it. */
  function AnyGlob(patterns: seq<string>, value: string): (t: Test)
    ensures t != No ==> exists i :: SettlesAt(patterns, value, i) && GlobTest(patterns[i], value) == t
    ensures t == No ==> forall i :: 0 <= i < |patterns| ==> GlobTest(patterns[i], value) == No
  {
    if patterns == [] then No
    else
      var first := GlobTest(patterns[0], value);
      if first != No then assert SettlesAt(patterns, value, 0); first
      else
        var rest := AnyGlob(patterns[1..], value);
        assert rest != No ==> forall i :: SettlesAt(patterns[1..], value, i) ==> SettlesAt(patterns, value, i + 1);
        rest
  }

  predicate SettlesAt(patterns: seq<string>, value: string, i: int) {
    0 <= i < |patterns| && GlobTest(patterns[i], value) != No && forall j :: 0 <= j < i ==> GlobTest(patterns[j], value) == No
  }

  const MINUTES_A_DAY := 24 * 60

  predicate WindowMatches(w: TimeWindow, minutes: nat, day: nat) {
    && (w.days.Some? ==> day in w.days.value)
    && (if w.after.Some? && w.before.Some? then minutes < w.before.value || minutes >= w.after.value
        else if w.before.Some? then minutes < w.before.value
        else if w.after.Some? then minutes >= w.after.value
        else true)
  }

  predicate DepthMatches(d: DepthMatch, depth: int) {
    && (d.gt.Some? ==> depth > d.gt.value)
    && (d.lt.Some? ==> depth < d.lt.value)
    && (d.eq.Some? ==> depth == d.eq.value)
  }

  function Holds(b: bool): Test {
    if b then Yes else No
  }

  /** The later test is only made if the earlier one succeeds. */
  function AndThen(earlier: Test, later: Test): Test {
    if earlier == Yes then later else earlier
  }

  function AgentTest(r: Rule, c: Call): Test {
    match r.agent
    case AnyAgent => Yes
    case Unauthenticated => Holds(c.claims.None?)
    case AgentPatterns(ps) => if c.claims.None? then No else AnyGlob(ps, c.claims.value.agentName)
  }

  function RuleTest(r: Rule, c: Call): Test {
    AndThen(if r.tool.None? then Yes else AnyGlob(r.tool.value, c.tool),
    AndThen(AgentTest(r, c),
    AndThen(if r.email.None? then Yes else if c.claims.None? then No else AnyGlob(r.email.value, c.claims.value.email),
    AndThen(Holds(r.depth.Some? ==> c.claims.Some? && DepthMatches(r.depth.value, c.claims.value.depth)),
    AndThen(Holds(r.window.Some? ==> WindowMatches(r.window.value, c.minutes, c.day)),
            if r.arguments.None? then Yes else if c.arguments.None? then No else r.arguments.value(c.arguments.value))))))
  }

  // ---- What a match means, on the fields of rule and call. Nothing below the tests uses these.

  /** The single star means everything; any other pattern what it spells. */
  ghost predicate Means(pattern: string, value: string) {
    pattern == "*" || Glob.Spells(pattern, value)
  }

  /** A pattern matches, and neither it nor an earlier one has a misplaced question mark. */
  ghost predicate Hits(patterns: seq<string>, value: string) {
    exists i :: 0 <= i < |patterns| && Means(patterns[i], value) && forall j :: 0 <= j <= i ==> Glob.MarksOk(patterns[j])
  }

  /** A pattern has a misplaced question mark, and none before it matches. */
  ghost predicate Chokes(patterns: seq<string>, value: string) {
    exists i :: 0 <= i < |patterns| && !Glob.MarksOk(patterns[i])
                && forall j :: 0 <= j < i ==> Glob.MarksOk(patterns[j]) && !Means(patterns[j], value)
  }

  ghost predicate ToolMet(r: Rule, c: Call) {
    r.tool.Some? ==> Hits(r.tool.value, c.tool)
  }

  ghost predicate AgentMet(r: Rule, c: Call) {
    && (r.agent == Unauthenticated ==> c.claims == None)
    && (r.agent.AgentPatterns? ==> c.claims.Some? && Hits(r.agent.patterns, c.claims.value.agentName))
  }

  ghost predicate EmailMet(r: Rule, c: Call) {
    r.email.Some? ==> c.claims.Some? && Hits(r.email.value, c.claims.value.email)
  }

  ghost predicate DepthMet(r: Rule, c: Call) {
    r.depth.Some? ==>
      && c.claims.Some?
      && (r.depth.value.gt.Some? ==> r.depth.value.gt.value < c.claims.value.depth)
      && (r.depth.value.lt.Some? ==> c.claims.value.depth < r.depth.value.lt.value)
      && (r.depth.value.eq.Some? ==> c.claims.value.depth == r.depth.value.eq.value)
  }

  ghost predicate TimeMet(r: Rule, c: Call) {
    r.window.Some? ==>
      var w := r.window.value;
      && (w.days.Some? ==> c.day in w.days.value)
      && (|| (w.after == None && w.before == None)
          || (w.before.Some? && c.minutes < w.before.value)
          || (w.after.Some? && w.after.value <= c.minutes))
  }

  ghost predicate ArgumentsMet(r: Rule, c: Call) {
    r.arguments.Some? ==> c.arguments.Some? && r.arguments.value(c.arguments.value) == Yes
  }

  ghost predicate Meets(r: Rule, c: Call) {
    ToolMet(r, c) && AgentMet(r, c) && EmailMet(r, c) && DepthMet(r, c) && TimeMet(r, c) && ArgumentsMet(r, c)
  }

  /** A condition throws, and every condition before it holds. */
  ghost predicate Upsets(r: Rule, c: Call) {
    || (r.tool.Some? && Chokes(r.tool.value, c.tool))
    || (ToolMet(r, c) && r.agent.AgentPatterns? && c.claims.Some? && Chokes(r.agent.patterns, c.claims.value.agentName))
    || (ToolMet(r, c) && AgentMet(r, c) && r.email.Some? && c.claims.Some? && Chokes(r.email.value, c.claims.value.email))
    || (ToolMet(r, c) && AgentMet(r, c) && EmailMet(r, c) && DepthMet(r, c) && TimeMet(r, c)
        && r.arguments.Some? && c.arguments.Some? && r.arguments.value(c.arguments.value) == Throws)
  }

  lemma GlobTestMeans(pattern: string, value: string)
    ensures GlobTest(pattern, value) == Throws <==> !Glob.MarksOk(pattern)
    ensures GlobTest(pattern, value) == Yes <==> Glob.MarksOk(pattern) && Means(pattern, value)
  {
    Glob.GlobThrowsExactly(pattern, value);
    if Glob.MarksOk(pattern) { Glob.GlobMatchMeans(pattern, value); }
  }

  /** A list of patterns is tried from the left until one matches or throws. */
  lemma PatternsMatchExactly(patterns: seq<string>, value: string)
    ensures AnyGlob(patterns, value) == Yes <==> Hits(patterns, value)
    ensures AnyGlob(patterns, value) == Throws <==> Chokes(patterns, value)
  {
    hide Glob.MarksOk, Means, GlobTest;
    forall i | 0 <= i < |patterns|
      ensures GlobTest(patterns[i], value) == Throws <==> !Glob.MarksOk(patterns[i])
      ensures GlobTest(patterns[i], value) == Yes <==> Glob.MarksOk(patterns[i]) && Means(patterns[i], value)
    {
      GlobTestMeans(patterns[i], value);
    }
    var t := AnyGlob(patterns, value);
    if t != No {
      var k :| SettlesAt(patterns, value, k) && GlobTest(patterns[k], value) == t;
      forall j | 0 <= j < k ensures Glob.MarksOk(patterns[j]) && !Means(patterns[j], value) {
        assert GlobTest(patterns[j], value) == No;
      }
    }
  }

  /** A rule matches exactly when all its conditions hold, and testing it throws exactly when one of its pattern lists or the
      arguments' expression does with every condition before it holding. */
  lemma RuleTestMeans(r: Rule, c: Call)
    ensures RuleTest(r, c) == Yes <==> Meets(r, c)
    ensures RuleTest(r, c) == Throws <==> Upsets(r, c)
  {
    hide AnyGlob, Hits, Chokes;
    if r.tool.Some? { PatternsMatchExactly(r.tool.value, c.tool); }
    if r.agent.AgentPatterns? && c.claims.Some? { PatternsMatchExactly(r.agent.patterns, c.claims.value.agentName); }
    if r.email.Some? && c.claims.Some? { PatternsMatchExactly(r.email.value, c.claims.value.email); }
  }

  /** A rule matches a call exactly when each condition it has holds: some tool pattern means the tool; a null agent is no
      token, an agent or address some pattern for the token's; the depth, which is a token's, lies within the bounds; the day
      is listed and the time is before the one bound or not before the other; and there are arguments, which are
      accepted. */
  lemma RuleMatchesExactly(r: Rule, c: Call)
    ensures RuleTest(r, c) == Yes <==>
            && (r.tool.Some? ==> Hits(r.tool.value, c.tool))
            && (r.agent == Unauthenticated ==> c.claims.None?)
            && (r.agent.AgentPatterns? ==> c.claims.Some? && Hits(r.agent.patterns, c.claims.value.agentName))
            && (r.email.Some? ==> c.claims.Some? && Hits(r.email.value, c.claims.value.email))
            && (r.depth.Some? ==>
                  && c.claims.Some?
                  && (r.depth.value.gt.Some? ==> c.claims.value.depth > r.depth.value.gt.value)
                  && (r.depth.value.lt.Some? ==> c.claims.value.depth < r.depth.value.lt.value)
                  && (r.depth.value.eq.Some? ==> c.claims.value.depth == r.depth.value.eq.value))
            && (r.window.Some? ==>
                  && (r.window.value.days.Some? ==> c.day in r.window.value.days.value)
                  && (|| (r.window.value.after.None? && r.window.value.before.None?)
                      || (r.window.value.before.Some? && c.minutes < r.window.value.before.value)
                      || (r.window.value.after.Some? && c.minutes >= r.window.value.after.value)))
            && (r.arguments.Some? ==> c.arguments.Some? && r.arguments.value(c.arguments.value) == Yes)
  {
    hide RuleTest, Hits;
    RuleTestMeans(r, c);
  }

  /** The rule ends the search: it matches, or testing it throws. */
  predicate Stops(r: Rule, c: Call) {
    RuleTest(r, c) != No
  }

  /** Which times of an accepted day a window leaves out: with both bounds those from `before` up to and not including
      `after`, with one bound those on its far side, without bounds none. */
  lemma WindowLeavesOutExactly(w: TimeWindow, minutes: nat, day: nat)
    requires w.days.Some? ==> day in w.days.value
    ensures !WindowMatches(w, minutes, day) <==>
            && (w.before.Some? ==> w.before.value <= minutes)
            && (w.after.Some? ==> minutes < w.after.value)
            && (w.before.Some? || w.after.Some?)
  {
  }

  /** A window with bounds matches all day, and so restricts nothing, exactly if no minute of the day lies between them: with
      both bounds if `after` is not later than `before`; in particular if `after` did not parse. */
  lemma WindowIsIdleExactly(w: TimeWindow, day: nat)
    requires (w.days.Some? ==> day in w.days.value) && (w.before.Some? || w.after.Some?)
    ensures (forall minutes: nat :: minutes < MINUTES_A_DAY ==> WindowMatches(w, minutes, day)) <==>
            var from := if w.before.Some? && w.before.value > 0 then w.before.value else 0;
            var until := if w.after.Some? && w.after.value < MINUTES_A_DAY then w.after.value else MINUTES_A_DAY;
            until <= from
  {
    var from := if w.before.Some? && w.before.value > 0 then w.before.value else 0;
    var until := if w.after.Some? && w.after.value < MINUTES_A_DAY then w.after.value else MINUTES_A_DAY;
    if from < until {
      assert !WindowMatches(w, from, day);
    }
  }

  // ---- Order of rules

  function Priority(r: Rule): int {
    if r.priority.Some? then r.priority.value else 0
  }

  /** Insert behind every rule of the same or higher priority. */
  function Insert(r: Rule, sorted: seq<Rule>): (s: seq<Rule>)
    ensures |s| == |sorted| + 1
  {
    if sorted == [] then [r]
    else if Priority(sorted[0]) >= Priority(r) then [sorted[0]] + Insert(r, sorted[1..])
    else [r] + sorted
  }

  /** The stable sort by descending priority. */
  function SortRules(rules: seq<Rule>): seq<Rule> {
    if rules == [] then [] else Insert(rules[|rules| - 1], SortRules(rules[..|rules| - 1]))
  }

  function FirstMatch(sorted: seq<Rule>, c: Call): Option<Rule> {
    if sorted == [] then None else if Stops(sorted[0], c) then Some(sorted[0]) else FirstMatch(sorted[1..], c)
  }

  predicate Descending(s: seq<Rule>) {
    forall i, j :: 0 <= i <= j < |s| ==> Priority(s[i]) >= Priority(s[j])
  }

  lemma DescendingCons(r: Rule, s: seq<Rule>)
    requires Descending(s) && (s != [] ==> Priority(r) >= Priority(s[0]))
    ensures Descending([r] + s)
  {
    var t := [r] + s;
    forall i, j | 0 <= i <= j < |t| ensures Priority(t[i]) >= Priority(t[j]) {
      if j > 0 { assert Priority(s[0]) >= Priority(s[j - 1]); }
    }
  }

  lemma DescendingTail(s: seq<Rule>)
    requires Descending(s) && s != []
    ensures Descending(s[1..]) && (|s| > 1 ==> Priority(s[1]) <= Priority(s[0]))
  {
    var rest := s[1..];
    forall i, j | 0 <= i <= j < |rest| ensures Priority(rest[i]) >= Priority(rest[j]) {
      assert rest[i] == s[i + 1] && rest[j] == s[j + 1];
    }
  }

  lemma {:induction false} InsertSorts(r: Rule, s: seq<Rule>)
    requires Descending(s)
    ensures Descending(Insert(r, s)) && multiset(Insert(r, s)) == multiset(s) + multiset{r}
    ensures Insert(r, s)[0] == if s != [] && Priority(s[0]) >= Priority(r) then s[0] else r
  {
    hide Descending, Priority;
    if s != [] && Priority(s[0]) >= Priority(r) {
      var rest := s[1..];
      DescendingTail(s);
      InsertSorts(r, rest);
      assert s == [s[0]] + rest;
      DescendingCons(s[0], Insert(r, rest));
    } else {
      DescendingCons(r, s);
      assert s == [] ==> [r] + s == [r];
    }
  }

  /** Inserting a rule changes the first match only to that rule, and only past lower priorities. */
  lemma {:induction false} FirstMatchInsert(r: Rule, s: seq<Rule>, c: Call)
    requires Descending(s)
    ensures var f := FirstMatch(s, c);
            FirstMatch(Insert(r, s), c)
            == if Stops(r, c) && (f.None? || Priority(f.value) < Priority(r)) then Some(r) else f
  {
    if s != [] && Priority(s[0]) >= Priority(r) {
      FirstMatchInsert(r, s[1..], c);
      assert ([s[0]] + Insert(r, s[1..]))[1..] == Insert(r, s[1..]);
    } else {
      assert ([r] + s)[1..] == s;
      FirstMatchIsLow(s, c);
    }
  }

  lemma {:induction false} FirstMatchIsLow(s: seq<Rule>, c: Call)
    requires Descending(s)
    ensures FirstMatch(s, c).Some? ==> Priority(FirstMatch(s, c).value) <= Priority(s[0])
  {
    if s != [] && !Stops(s[0], c) {
      FirstMatchIsLow(s[1..], c);
    }
  }

  lemma NothingToSort()
    ensures Descending([])
  {
  }

  lemma {:induction false} SortRulesSorts(rules: seq<Rule>)
    ensures Descending(SortRules(rules)) && multiset(SortRules(rules)) == multiset(rules)
  {
    hide Insert, Descending;
    if rules == [] {
      NothingToSort();
    } else {
      SortRulesSorts(rules[..|rules| - 1]);
      InsertSorts(rules[|rules| - 1], SortRules(rules[..|rules| - 1]));
      assert rules == rules[..|rules| - 1] + [rules[|rules| - 1]];
    }
  }

  /** Rule `i` decides: it ends the search, nothing that would end it has higher priority, and nothing of its priority
      that would stands earlier in the file. */
  predicate Decides(rules: seq<Rule>, c: Call, i: int) {
    && 0 <= i < |rules| && Stops(rules[i], c)
    && forall j :: 0 <= j < |rules| && Stops(rules[j], c) ==>
         Priority(rules[j]) < Priority(rules[i]) || (Priority(rules[j]) == Priority(rules[i]) && i <= j)
  }

  lemma {:induction false} FirstMatchDecides(rules: seq<Rule>, c: Call)
    ensures FirstMatch(SortRules(rules), c).Some? ==>
              exists i :: Decides(rules, c, i) && FirstMatch(SortRules(rules), c) == Some(rules[i])
    ensures FirstMatch(SortRules(rules), c).None? ==> forall j :: 0 <= j < |rules| ==> !Stops(rules[j], c)
  {
    hide Stops, Insert, Descending;
    if rules != [] {
      var init, last := rules[..|rules| - 1], rules[|rules| - 1];
      FirstMatchDecides(init, c);
      SortRulesSorts(init);
      FirstMatchInsert(last, SortRules(init), c);
      var f := FirstMatch(SortRules(init), c);
      if f.Some? {
        var i :| Decides(init, c, i) && f == Some(init[i]);
        DecidesSnoc(init, last, c, i);
      } else {
        NoneSnoc(init, last, c);
      }
      assert rules == init + [last];
    }
  }

  /** A rule added at the end of the file decides only over strictly lower priorities. */
  lemma DecidesSnoc(init: seq<Rule>, last: Rule, c: Call, i: int)
    requires Decides(init, c, i)
    ensures Stops(last, c) && Priority(last) > Priority(init[i]) ==> Decides(init + [last], c, |init|)
    ensures !(Stops(last, c) && Priority(last) > Priority(init[i])) ==> Decides(init + [last], c, i)
    ensures (init + [last])[i] == init[i] && (init + [last])[|init|] == last
  {
    hide Stops;
  }

  lemma NoneSnoc(init: seq<Rule>, last: Rule, c: Call)
    requires forall j :: 0 <= j < |init| ==> !Stops(init[j], c)
    ensures Stops(last, c) ==> Decides(init + [last], c, |init|)
    ensures !Stops(last, c) ==> forall j :: 0 <= j < |init + [last]| ==> !Stops((init + [last])[j], c)
    ensures (init + [last])[|init|] == last
  {
    hide Stops;
  }

  lemma DeciderIsUnique(rules: seq<Rule>, c: Call, i: int, j: int)
    requires Decides(rules, c, i) && Decides(rules, c, j)
    ensures i == j
  {
    hide Stops;
  }

  datatype Config = Config(defaultAllows: bool, rules: seq<Rule>)

  function Decision(r: Rule, c: Call): Evaluation {
    if RuleTest(r, c) == Throws then NoEvaluation else Evaluation(r.action, Some(r.name))
  }

  function Evaluate(cfg: Config, c: Call): Evaluation {
    match FirstMatch(SortRules(cfg.rules), c)
    case Some(r) => Decision(r, c)
    case None => Evaluation(if cfg.defaultAllows then AllowRule else DenyRule, None)
  }

  /** Among the rules that match or throw the one with the highest priority, then earliest in the file, decides: by its
      action if it matches, by an exception if it throws; without such a rule the default does. */
  lemma EvaluationIsBestRule(cfg: Config, c: Call)
    ensures forall i :: Decides(cfg.rules, c, i) ==> Evaluate(cfg, c) == Decision(cfg.rules[i], c)
    ensures (forall j :: 0 <= j < |cfg.rules| ==> !Stops(cfg.rules[j], c)) <==> !exists i :: Decides(cfg.rules, c, i)
    ensures (!exists i :: Decides(cfg.rules, c, i)) ==>
              Evaluate(cfg, c) == Evaluation(if cfg.defaultAllows then AllowRule else DenyRule, None)
  {
    hide Stops, SortRules, Decision;
    FirstMatchDecides(cfg.rules, c);
    var f := FirstMatch(SortRules(cfg.rules), c);
    forall i | Decides(cfg.rules, c, i)
      ensures Evaluate(cfg, c) == Decision(cfg.rules[i], c)
    {
      if f.Some? {
        var k :| Decides(cfg.rules, c, k) && f == Some(cfg.rules[k]);
        DeciderIsUnique(cfg.rules, c, i, k);
      }
    }
  }

  /** Evaluation throws exactly when a rule whose test throws is reached no later than the first match. */
  lemma EvaluationThrowsExactly(cfg: Config, c: Call)
    ensures Evaluate(cfg, c) == NoEvaluation <==>
            exists i :: Decides(cfg.rules, c, i) && RuleTest(cfg.rules[i], c) == Throws
  {
    hide Evaluate, Stops, RuleTest, Decides;
    EvaluationIsBestRule(cfg, c);
    if exists i :: Decides(cfg.rules, c, i) {
      var i :| Decides(cfg.rules, c, i);
      forall j | Decides(cfg.rules, c, j) ensures j == i { DeciderIsUnique(cfg.rules, c, i, j); }
    }
  }

  // ---- The evaluation on the fields

  /** Rule `i` is reached before rule `j`: it has the higher priority, which is zero where none is given, or the same one and
      stands earlier in the file. */
  ghost predicate Before(rules: seq<Rule>, i: int, j: int)
    requires 0 <= i < |rules| && 0 <= j < |rules|
  {
    var p := match rules[i].priority case None => 0 case Some(n) => n;
    var q := match rules[j].priority case None => 0 case Some(n) => n;
    q < p || (q == p && i < j)
  }

  /** Of the rules that match the call or throw on it, rule `i` is reached first. */
  ghost predicate Best(rules: seq<Rule>, c: Call, i: int) {
    && 0 <= i < |rules| && (Meets(rules[i], c) || Upsets(rules[i], c))
    && forall j :: 0 <= j < |rules| && j != i && (Meets(rules[j], c) || Upsets(rules[j], c)) ==> Before(rules, i, j)
  }

  lemma BestDecides(rules: seq<Rule>, c: Call)
    ensures forall i :: Best(rules, c, i) <==> Decides(rules, c, i)
    ensures forall j :: 0 <= j < |rules| ==> (Stops(rules[j], c) <==> Meets(rules[j], c) || Upsets(rules[j], c))
  {
    hide RuleTest, Meets, Upsets;
    forall j | 0 <= j < |rules| ensures Stops(rules[j], c) <==> Meets(rules[j], c) || Upsets(rules[j], c) {
      RuleTestMeans(rules[j], c);
    }
  }

  lemma BestExactly(cfg: Config, c: Call)
    ensures forall i :: Best(cfg.rules, c, i) ==>
              && (Meets(cfg.rules[i], c) <==> RuleTest(cfg.rules[i], c) == Yes)
              && (Meets(cfg.rules[i], c) ==> Evaluate(cfg, c) == Evaluation(cfg.rules[i].action, Some(cfg.rules[i].name)))
              && (Upsets(cfg.rules[i], c) ==> Evaluate(cfg, c) == NoEvaluation)
  {
    hide Evaluate, RuleTest, Meets, Upsets, Best;
    BestDecides(cfg.rules, c);
    EvaluationIsBestRule(cfg, c);
    forall i | Best(cfg.rules, c, i)
      ensures Meets(cfg.rules[i], c) <==> RuleTest(cfg.rules[i], c) == Yes
      ensures Meets(cfg.rules[i], c) ==> Evaluate(cfg, c) == Evaluation(cfg.rules[i].action, Some(cfg.rules[i].name))
      ensures Upsets(cfg.rules[i], c) ==> Evaluate(cfg, c) == NoEvaluation
    {
      RuleTestMeans(cfg.rules[i], c);
    }
  }

  /** What a policy makes of a call, on the fields of its rules: the first reached of the rules that match or throw gives
      its action if it matches and leaves nothing if it throws, and without one the default is taken. */
  lemma EvaluationExactly(cfg: Config, c: Call)
    ensures forall i :: Best(cfg.rules, c, i) ==>
              Evaluate(cfg, c) == if Meets(cfg.rules[i], c) then Evaluation(cfg.rules[i].action, Some(cfg.rules[i].name))
                                  else NoEvaluation
    ensures (exists i :: Best(cfg.rules, c, i)) <==>
            exists j :: 0 <= j < |cfg.rules| && (Meets(cfg.rules[j], c) || Upsets(cfg.rules[j], c))
    ensures (!exists i :: Best(cfg.rules, c, i)) ==>
              && (cfg.defaultAllows ==> Evaluate(cfg, c) == Evaluation(AllowRule, None))
              && (!cfg.defaultAllows ==> Evaluate(cfg, c) == Evaluation(DenyRule, None))
  {
    hide Evaluate, RuleTest, Meets, Upsets, Best, Stops;
    BestDecides(cfg.rules, c);
    BestExactly(cfg, c);
    EvaluationIsBestRule(cfg, c);
    forall i | Best(cfg.rules, c, i) ensures Meets(cfg.rules[i], c) || Upsets(cfg.rules[i], c) {
      BestStops(cfg.rules, c, i);
    }
  }

  lemma BestStops(rules: seq<Rule>, c: Call, i: int)
    requires Best(rules, c, i)
    ensures 0 <= i < |rules| && (Meets(rules[i], c) || Upsets(rules[i], c))
  {
  }

  lemma SettledOnce(patterns: seq<string>, value: string, i: int, k: int)
    requires SettlesAt(patterns, value, i) && SettlesAt(patterns, value, k)
    ensures i == k
  {
  }

  /** A list of patterns throws exactly when a pattern with a misplaced question mark comes before any that matches. */
  lemma PatternsThrowExactly(patterns: seq<string>, value: string)
    ensures AnyGlob(patterns, value) == Throws <==>
            exists i :: SettlesAt(patterns, value, i) && !Glob.MarksOk(patterns[i])
  {
    forall i | 0 <= i < |patterns| ensures GlobTest(patterns[i], value) == Throws <==> !Glob.MarksOk(patterns[i]) {
      Glob.GlobThrowsExactly(patterns[i], value);
    }
    var t := AnyGlob(patterns, value);
    if t != No {
      var k :| SettlesAt(patterns, value, k) && GlobTest(patterns[k], value) == t;
      forall i | SettlesAt(patterns, value, i) ensures i == k { SettledOnce(patterns, value, i, k); }
    }
  }

  // ---- Enforcement modes

  datatype Mode = Enforce | Monitor | Permissive

  /** `NoVerdict`: an exception left the enforcer. */
  datatype Verdict = Allow | Deny | LogOnly | RequireApproval | NoVerdict

  /** `decideNoToken` and `decideDenied`. */
  function Refusal(m: Mode): Verdict {
    match m
    case Enforce => Deny
    case Monitor => LogOnly
    case Permissive => Allow
  }

  function Merge(m: Mode, base: Verdict, e: Evaluation): Verdict {
    match e
    case NoEvaluation => NoVerdict
    case Evaluation(action, _) =>
      match action
      case DenyRule => Refusal(m)
      case LogRule => base
      case ApprovalRule => if m == Enforce then RequireApproval else Refusal(m)
      case AllowRule => base
  }

  /** The enforcer's decision for a message in a mode, under an optional policy. */
  function Judge(m: Mode, policy: Option<Config>, method_: string, c: Call): Verdict {
    if method_ != "tools/call" then Allow
    else if c.claims.None? then
      if policy.Some? then Merge(m, Refusal(m), Evaluate(policy.value, c)) else Refusal(m)
    else if Permissions.SidecarAllows(c.claims.value.scope, c.tool) then
      if policy.Some? then Merge(m, Allow, Evaluate(policy.value, c)) else Allow
    else Refusal(m)
  }

  class PolicyEnforcer {
    const mode: Mode
    var policy: Option<Config>

    constructor (mode: Mode, policy: Option<Config>)
      ensures this.mode == mode && this.policy == policy
    {
      this.mode, this.policy := mode, policy;
    }

    method UpdatePolicy(cfg: Config)
      modifies this
      ensures policy == Some(cfg)
    {
      policy := Some(cfg);
    }

    method ClearPolicy()
      modifies this
      ensures policy == None
    {
      policy := None;
    }

    /** The scan over the sorted rules. */
    method EvaluatePolicy(cfg: Config, c: Call) returns (e: Evaluation)
      ensures e == Evaluate(cfg, c)
      ensures forall i :: Best(cfg.rules, c, i) ==>
                e == if Meets(cfg.rules[i], c) then Evaluation(cfg.rules[i].action, Some(cfg.rules[i].name)) else NoEvaluation
      ensures (forall i :: !Best(cfg.rules, c, i)) ==>
                e == Evaluation(if cfg.defaultAllows then AllowRule else DenyRule, None)
    {
      hide RuleTest, SortRules, Best, Meets;
      EvaluationExactly(cfg, c);
      var sorted := SortRules(cfg.rules);
      for i := 0 to |sorted|
        invariant FirstMatch(sorted, c) == FirstMatch(sorted[i..], c)
      {
        assert sorted[i..][1..] == sorted[i + 1..];
        match RuleTest(sorted[i], c) {
          case Yes => return Evaluation(sorted[i].action, Some(sorted[i].name));
          case Throws => return NoEvaluation;
          case No =>
        }
      }
      return Evaluation(if cfg.defaultAllows then AllowRule else DenyRule, None);
    }

    /** The enforcer's decision under the policy now in force. */
    method Decide(method_: string, c: Call) returns (v: Verdict)
      ensures v == Judge(mode, policy, method_, c)
      ensures method_ != "tools/call" ==> v == Allow
      ensures mode == Enforce && method_ == "tools/call" && c.claims.Some? ==>
                ("*" !in c.claims.value.scope && c.tool !in c.claims.value.scope ==> v == Deny)
      ensures mode == Enforce && method_ == "tools/call" && policy.None? ==>
                v == if c.claims.Some? && ("*" in c.claims.value.scope || c.tool in c.claims.value.scope) then Allow else Deny
    {
      hide Evaluate, Permissions.SidecarAllows;
      if mode == Enforce { VerdictExactly(policy, method_, c); }
      if method_ != "tools/call" { return Allow; }
      var base := Allow;
      if c.claims.None? {
        base := Refusal(mode);
      } else if !Permissions.SidecarAllows(c.claims.value.scope, c.tool) {
        return Refusal(mode);
      }
      if policy.None? { return base; }
      var e := EvaluatePolicy(policy.value, c);
      return Merge(mode, base, e);
    }
  }

  /** The verdict in enforce mode, on the token and the evaluation: anything but a tool call passes. A call with a token that
      does not cover the tool is denied. On any other a rule that denies, holds or throws has its way; else the token
      decides, a call without one being denied. */
  lemma VerdictExactly(policy: Option<Config>, method_: string, c: Call)
    ensures var v := Judge(Enforce, policy, method_, c);
            var covered := c.claims.Some? && ("*" in c.claims.value.scope || c.tool in c.claims.value.scope);
            var e := if policy.Some? then Evaluate(policy.value, c) else Evaluation(AllowRule, None);
            && (method_ != "tools/call" ==> v == Allow)
            && (method_ == "tools/call" && c.claims.Some? && !covered ==> v == Deny)
            && (method_ == "tools/call" && (c.claims.None? || covered) ==>
                  && (e == NoEvaluation ==> v == NoVerdict)
                  && (e.Evaluation? && e.action == DenyRule ==> v == Deny)
                  && (e.Evaluation? && e.action == ApprovalRule ==> v == RequireApproval)
                  && (e.Evaluation? && e.action in {AllowRule, LogRule} ==> v == if covered then Allow else Deny))
  {
    hide Evaluate;
  }

  /** Monitor mode logs exactly the calls enforce mode would stop and lets the same ones through in silence;
      permissive mode allows everything; an exception is one in all three. */
  lemma ModesAgree(policy: Option<Config>, method_: string, c: Call)
    ensures var e, m, p := Judge(Enforce, policy, method_, c), Judge(Monitor, policy, method_, c),
                           Judge(Permissive, policy, method_, c);
            && (m == LogOnly <==> e in {Deny, RequireApproval})
            && (m == Allow <==> e == Allow)
            && (m == NoVerdict <==> e == NoVerdict)
            && p == if e == NoVerdict then NoVerdict else Allow
  {
  }

  /** How much enforce mode does about a call; after an exception the message is forwarded. */
  function Severity(v: Verdict): int {
    match v
    case Allow => 0
    case LogOnly => 0
    case NoVerdict => 0
    case RequireApproval => 1
    case Deny => 2
  }

  /** Adding a policy never makes enforcement milder, except for a call without a token, which is held for approval
      instead of denied exactly when an approval rule decides it, and forwarded exactly when evaluation throws. */
  lemma PolicyEscalatesExactly(cfg: Config, method_: string, c: Call)
    ensures Severity(Judge(Enforce, Some(cfg), method_, c)) >= Severity(Judge(Enforce, None, method_, c)) <==>
            !(method_ == "tools/call" && c.claims.None?
              && (Evaluate(cfg, c) == NoEvaluation || Evaluate(cfg, c).action == ApprovalRule))
  {
  }

  /** What the decision comes down to in enforce mode: a call is allowed exactly when its token covers the tool
      and the deciding rule, if there is one, matches and neither denies nor asks for approval. */
  lemma EnforceAllowsExactly(cfg: Config, c: Call)
    ensures Judge(Enforce, Some(cfg), "tools/call", c) == Allow <==>
            && c.claims.Some? && Permissions.SidecarAllows(c.claims.value.scope, c.tool)
            && (forall i :: Decides(cfg.rules, c, i) ==>
                  RuleTest(cfg.rules[i], c) == Yes && cfg.rules[i].action in {AllowRule, LogRule})
            && ((forall j :: 0 <= j < |cfg.rules| ==> !Stops(cfg.rules[j], c)) ==> cfg.defaultAllows)
  {
    hide RuleTest, Evaluate;
    EvaluationIsBestRule(cfg, c);
    if exists i :: Decides(cfg.rules, c, i) {
      var i :| Decides(cfg.rules, c, i);
      forall j | Decides(cfg.rules, c, j) ensures j == i { DeciderIsUnique(cfg.rules, c, i, j); }
    }
  }
}
