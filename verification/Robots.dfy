/**
 The robots.txt policy checker: lines, groups, the most specific rule, and the finite check
 that decides for every crawler.
 */
module Robots {
  import opened Common
  import opened RobotsMatch
  import opened Strings
  import Sorting
  import Slugs

  datatype Rule = Rule(allow: bool, path: string)
  datatype Group = Group(agents: seq<string>, rules: seq<Rule>)

  datatype RobotsError =
    | InvalidDirective | EmptyAgent | RuleBeforeAgent | SiteWideBlock | NoDefaultGroup
    | PrivateAllowed(agent: string) | PublicBlocked(agent: string)

  // ----- Lines -----

  function Lines(text: string): (lines: seq<string>)
    ensures lines != []
    decreases |text|
  {
    var i := IndexOf(text, '\n');
    if i == |text| then [text]
    else [if i > 0 && text[i - 1] == '\r' then text[..i - 1] else text[..i]] + Lines(text[i + 1..])
  }

  datatype Line = Empty | Malformed | Agent(name: string) | Directive(rule: Rule) | Unknown

  function Classify(key: string, path: string): Line {
    if key == "user-agent" then Agent(path)
    else if key == "allow" then Directive(Rule(true, path))
    else if key == "disallow" then Directive(Rule(false, path))
    else Unknown
  }

  function Uncomment(raw: string): string {
    raw[..IndexOf(raw, '#')]
  }

  function ParseLine(raw: string): Line {
    var line := Trim(Uncomment(raw));
    if line == "" then Empty
    else
      var separator := IndexOf(line, ':');
      if separator == |line| then Malformed
      else Classify(Slugs.Lower(Trim(line[..separator])), Trim(line[separator + 1..]))
  }

  // ----- Groups -----

  const SITE_WIDE := {"/", "/*", "/$", "/*$"}

  function AddLine(groups: seq<Group>, line: Line): Result<seq<Group>, RobotsError> {
    match line
    case Empty => Ok(groups)
    case Unknown => Ok(groups)
    case Malformed => Err(InvalidDirective)
    case Agent(name) =>
      if name == "" then Err(EmptyAgent)
      else if groups == [] || groups[|groups| - 1].rules != [] then Ok(groups + [Group([Slugs.Lower(name)], [])])
      else
        var last := groups[|groups| - 1];
        Ok(groups[..|groups| - 1] + [last.(agents := last.agents + [Slugs.Lower(name)])])
    case Directive(rule) =>
      if groups == [] then Err(RuleBeforeAgent)
      else if !rule.allow && rule.path in SITE_WIDE then Err(SiteWideBlock)
      else if rule.path == "" then Ok(groups)
      else
        var last := groups[|groups| - 1];
        Ok(groups[..|groups| - 1] + [last.(rules := last.rules + [rule])])
  }

  function AddLines(groups: seq<Group>, lines: seq<Line>): Result<seq<Group>, RobotsError>
    decreases |lines|
  {
    if lines == [] then Ok(groups)
    else match AddLine(groups, lines[0])
         case Err(e) => Err(e)
         case Ok(next) => AddLines(next, lines[1..])
  }

  function ParseLines(raw: seq<string>): (lines: seq<Line>)
    ensures |lines| == |raw|
    ensures forall i | 0 <= i < |raw| :: lines[i] == ParseLine(raw[i])
  {
    seq(|raw|, i requires 0 <= i < |raw| => ParseLine(raw[i]))
  }

  function Parse(text: string): Result<seq<Group>, RobotsError> {
    AddLines([], ParseLines(Lines(text)))
  }

  // ----- Which rules an agent obeys -----

  function GroupsOf(groups: seq<Group>, agent: string): seq<Group> {
    if groups == [] then []
    else (if agent in groups[0].agents then [groups[0]] else []) + GroupsOf(groups[1..], agent)
  }

  function AllRules(groups: seq<Group>): seq<Rule> {
    if groups == [] then [] else groups[0].rules + AllRules(groups[1..])
  }

  function Effective(groups: seq<Group>, agent: string): seq<Rule> {
    var exact := GroupsOf(groups, agent);
    AllRules(if exact != [] then exact else GroupsOf(groups, "*"))
  }

  /** A rule that this agent has to obey, told from the groups alone (section 2.2.1 of RFC 9309). */
  ghost predicate Obeys(groups: seq<Group>, agent: string, r: Rule) {
    if exists i :: 0 <= i < |groups| && agent in groups[i].agents
    then exists i :: 0 <= i < |groups| && agent in groups[i].agents && r in groups[i].rules
    else exists i :: 0 <= i < |groups| && "*" in groups[i].agents && r in groups[i].rules
  }

  lemma {:induction false} GroupsOfAre(groups: seq<Group>, agent: string, g: Group)
    ensures g in GroupsOf(groups, agent) <==> exists i :: 0 <= i < |groups| && groups[i] == g && agent in g.agents
  {
    if groups != [] {
      GroupsOfAre(groups[1..], agent, g);
      assert groups == [groups[0]] + groups[1..];
      if i :| 0 <= i < |groups| && groups[i] == g && agent in g.agents {
        assert i > 0 ==> groups[1..][i - 1] == g;
      }
      if i :| 0 <= i < |groups[1..]| && groups[1..][i] == g && agent in g.agents {
        assert groups[i + 1] == g;
      }
    }
  }

  lemma {:induction false} AllRulesAre(groups: seq<Group>, r: Rule)
    ensures r in AllRules(groups) <==> exists g | g in groups :: r in g.rules
  {
    if groups != [] {
      AllRulesAre(groups[1..], r);
      assert groups == [groups[0]] + groups[1..];
    }
  }

  lemma RulesOfGroups(groups: seq<Group>, agent: string, r: Rule)
    ensures r in AllRules(GroupsOf(groups, agent))
            <==> exists i :: 0 <= i < |groups| && agent in groups[i].agents && r in groups[i].rules
  {
    AllRulesAre(GroupsOf(groups, agent), r);
    if g :| g in GroupsOf(groups, agent) && r in g.rules {
      GroupsOfAre(groups, agent, g);
    }
    if i :| 0 <= i < |groups| && agent in groups[i].agents && r in groups[i].rules {
      GroupsOfAre(groups, agent, groups[i]);
    }
  }

  /** An agent obeys the rules of all groups that name it, or else those of the default groups. */
  lemma EffectiveAre(groups: seq<Group>, agent: string, r: Rule)
    ensures r in Effective(groups, agent) <==> Obeys(groups, agent, r)
  {
    RulesOfGroups(groups, agent, r);
    RulesOfGroups(groups, "*", r);
    if i :| 0 <= i < |groups| && agent in groups[i].agents {
      GroupsOfAre(groups, agent, groups[i]);
    } else if GroupsOf(groups, agent) != [] {
      GroupsOfAre(groups, agent, GroupsOf(groups, agent)[0]);
    }
  }

  // ----- Which rule decides -----

  /** The length of a pattern without its special characters. */
  function Specificity(path: string): nat {
    if path == "" then 0 else (if path[0] == '*' || path[0] == '$' then 0 else 1) + Specificity(path[1..])
  }

  /** Where a pattern has ordinary characters, from an index on. */
  function Ordinary(path: string, from: nat): set<int> {
    set i | from <= i < |path| && path[i] != '*' && path[i] != '$'
  }

  lemma {:induction false} SpecificityCounts(path: string, from: nat)
    requires from <= |path|
    ensures Specificity(path[from..]) == |Ordinary(path, from)|
    decreases |path| - from
  {
    if from < |path| {
      assert path[from..][0] == path[from] && path[from..][1..] == path[from + 1..];
      SpecificityCounts(path, from + 1);
      var rest := Ordinary(path, from + 1);
      assert Ordinary(path, from) == if path[from] == '*' || path[from] == '$' then rest else rest + {from};
    }
  }

  /** One pattern has at least as many ordinary characters as another. */
  ghost predicate AtLeastAsSpecific(a: string, b: string) {
    |Ordinary(a, 0)| >= |Ordinary(b, 0)|
  }

  lemma SpecificityIs(a: string, b: string)
    ensures AtLeastAsSpecific(a, b) <==> Specificity(a) >= Specificity(b)
  {
    SpecificityCounts(a, 0);
    SpecificityCounts(b, 0);
    assert a[0..] == a && b[0..] == b;
  }

  predicate Precedes(a: Rule, b: Rule) {
    var sa, sb := Specificity(a.path), Specificity(b.path);
    sa > sb || (sa == sb && (a.allow || !b.allow))
  }

  function Matching(rules: seq<Rule>, url: string): (r: seq<Rule>)
    ensures forall x :: x in r <==> x in rules && Matches(x.path, url)
  {
    if rules == [] then []
    else
      assert rules == [rules[0]] + rules[1..];
      (if Matches(rules[0].path, url) then [rules[0]] else []) + Matching(rules[1..], url)
  }

  function Allowed(rules: seq<Rule>, url: string): bool {
    var matches := Sorting.Sort(Precedes, Matching(rules, url));
    if matches == [] then true else matches[0].allow
  }

  ghost predicate Applies(rules: seq<Rule>, rule: Rule, url: string) {
    rule in rules && Matches(rule.path, url)
  }

  /**
   A URL is allowed if and only if no rule matches it, or some matching Allow is at least as
   specific as every matching Disallow.
   */
  lemma AllowedIff(rules: seq<Rule>, url: string)
    ensures Allowed(rules, url) <==>
            || (forall r :: !Applies(rules, r, url))
            || (exists a :: Applies(rules, a, url) && a.allow
                  && forall d :: Applies(rules, d, url) && !d.allow ==> AtLeastAsSpecific(a.path, d.path))
  {
    var found := Matching(rules, url);
    var matches := Sorting.Sort(Precedes, found);
    assert Sorting.TotalPreorder(Precedes);
    Sorting.SortSorted(Precedes, found);
    Sorting.SameMembers(matches, found);
    assert forall r :: Applies(rules, r, url) <==> r in matches;
    forall a, b ensures AtLeastAsSpecific(a, b) <==> Specificity(a) >= Specificity(b) { SpecificityIs(a, b); }
    if matches != [] {
      assert Applies(rules, matches[0], url);
      forall r | r in matches ensures Precedes(matches[0], r) {
        var i :| 0 <= i < |matches| && matches[i] == r;
      }
    }
  }

  /** May this agent fetch this URL?  Told from the groups alone (section 2.2.2 of RFC 9309). */
  ghost predicate Permits(groups: seq<Group>, agent: string, url: string) {
    || (forall r | Obeys(groups, agent, r) :: !Matches(r.path, url))
    || (exists a | Obeys(groups, agent, a) && Matches(a.path, url) && a.allow ::
          forall d | Obeys(groups, agent, d) && Matches(d.path, url) && !d.allow :: AtLeastAsSpecific(a.path, d.path))
  }

  lemma PermitsIff(groups: seq<Group>, agent: string, url: string)
    ensures Allowed(Effective(groups, agent), url) <==> Permits(groups, agent, url)
  {
    var rules := Effective(groups, agent);
    forall r ensures Applies(rules, r, url) <==> Obeys(groups, agent, r) && Matches(r.path, url) {
      EffectiveAre(groups, agent, r);
    }
    AllowedIff(rules, url);
  }

  /** The order of the rules, and repeated rules, make no difference. */
  lemma OrderIrrelevant(rules: seq<Rule>, rules': seq<Rule>, url: string)
    requires forall r :: r in rules <==> r in rules'
    ensures Allowed(rules, url) == Allowed(rules', url)
  {
    assert forall r :: Applies(rules, r, url) <==> Applies(rules', r, url);
    AllowedIff(rules, url);
    AllowedIff(rules', url);
  }

  // ----- Groups that name the same agent -----

  lemma {:induction false} GroupsOfConcat(a: seq<Group>, b: seq<Group>, agent: string)
    ensures GroupsOf(a + b, agent) == GroupsOf(a, agent) + GroupsOf(b, agent)
    decreases |a|
  {
    if a == [] {
      assert a + b == b;
    } else {
      GroupsOfConcat(a[1..], b, agent);
      var head := if agent in a[0].agents then [a[0]] else [];
      assert (a + b)[1..] == a[1..] + b && (a + b)[0] == a[0];
      assert GroupsOf(a + b, agent) == head + GroupsOf(a[1..] + b, agent);
    }
  }

  lemma {:induction false} AllRulesConcat(a: seq<Group>, b: seq<Group>)
    ensures AllRules(a + b) == AllRules(a) + AllRules(b)
    decreases |a|
  {
    if a == [] {
      assert a + b == b;
    } else {
      assert (a + b)[1..] == a[1..] + b;
      AllRulesConcat(a[1..], b);
    }
  }

  /** Splitting the rules of a group over two groups for the same agents changes nothing for anybody. */
  lemma SplitGroupIrrelevant(before: seq<Group>, agents: seq<string>, r1: seq<Rule>, r2: seq<Rule>, after: seq<Group>,
                             agent: string)
    ensures Effective(before + [Group(agents, r1 + r2)] + after, agent)
            == Effective(before + [Group(agents, r1), Group(agents, r2)] + after, agent)
  {
    var one, two := [Group(agents, r1 + r2)], [Group(agents, r1), Group(agents, r2)];
    forall name
      ensures AllRules(GroupsOf(before + one + after, name)) == AllRules(GroupsOf(before + two + after, name))
      ensures GroupsOf(before + one + after, name) == [] <==> GroupsOf(before + two + after, name) == []
    {
      GroupsOfConcat(before + one, after, name);
      GroupsOfConcat(before, one, name);
      GroupsOfConcat(before + two, after, name);
      GroupsOfConcat(before, two, name);
      assert two[1..] == [Group(agents, r2)];
      assert GroupsOf(two[1..], name) == if name in agents then two[1..] else [];
      assert AllRules(two[1..]) == r2;
      assert GroupsOf(one, name) == if name in agents then one else [];
      assert GroupsOf(two, name) == if name in agents then two else [];
      AllRulesConcat(GroupsOf(before + one, name), GroupsOf(after, name));
      AllRulesConcat(GroupsOf(before, name), GroupsOf(one, name));
      AllRulesConcat(GroupsOf(before + two, name), GroupsOf(after, name));
      AllRulesConcat(GroupsOf(before, name), GroupsOf(two, name));
      assert AllRules(one) == r1 + r2 && AllRules(two) == r1 + r2;
    }
  }

  // ----- The policy -----

  const PRIVATE_PATHS := ["/admin", "/admin/login", "/api", "/api/seo-admin"]
  const PUBLIC_PATHS := ["/", "/projects", "/apartments-for-sale-in-coimbatore"]

  predicate OpensPrivate(rules: seq<Rule>) {
    exists i | 0 <= i < |PRIVATE_PATHS| :: Allowed(rules, PRIVATE_PATHS[i])
  }

  predicate HidesPublic(rules: seq<Rule>) {
    exists i | 0 <= i < |PUBLIC_PATHS| :: !Allowed(rules, PUBLIC_PATHS[i])
  }

  /** The private pages are blocked and the public pages allowed for this agent. */
  predicate Protects(groups: seq<Group>, agent: string) {
    !OpensPrivate(Effective(groups, agent)) && !HidesPublic(Effective(groups, agent))
  }

  predicate Named(groups: seq<Group>, agent: string) {
    exists i | 0 <= i < |groups| :: agent in groups[i].agents
  }

  function NamedAgents(groups: seq<Group>): (r: seq<string>)
    ensures forall agent :: agent in r <==> Named(groups, agent)
  {
    if groups == [] then []
    else
      assert forall agent :: Named(groups, agent) <==> agent in groups[0].agents || Named(groups[1..], agent) by {
        forall agent ensures Named(groups, agent) <==> agent in groups[0].agents || Named(groups[1..], agent) {
          NamedUnfold(groups, agent);
        }
      }
      groups[0].agents + NamedAgents(groups[1..])
  }

  lemma NamedUnfold(groups: seq<Group>, agent: string)
    requires groups != []
    ensures Named(groups, agent) <==> agent in groups[0].agents || Named(groups[1..], agent)
  {
    if i :| 0 <= i < |groups| && agent in groups[i].agents {
      if i > 0 { assert agent in groups[1..][i - 1].agents; }
    }
    if i :| 0 <= i < |groups[1..]| && agent in groups[1..][i].agents { assert agent in groups[i + 1].agents; }
  }

  function CheckedAgents(groups: seq<Group>): seq<string> {
    ["*", "googlebot", "bingbot"] + NamedAgents(groups)
  }

  method ParseRobots(text: string) returns (r: Result<seq<Group>, RobotsError>)
    ensures r == Parse(text)
  {
    var groups: seq<Group> := [];
    var lines := Lines(text);
    for i := 0 to |lines|
      invariant Parse(text) == AddLines(groups, ParseLines(lines)[i..])
    {
      assert ParseLines(lines)[i..][1..] == ParseLines(lines)[i + 1..];
      var next := AddLine(groups, ParseLine(lines[i]));
      if next.Err? {
        return Err(next.error);
      }
      groups := next.value;
    }
    return Ok(groups);
  }

  function Complaint(groups: seq<Group>, agent: string): (r: Option<RobotsError>)
    ensures r.None? <==> Protects(groups, agent)
  {
    var rules := Effective(groups, agent);
    if OpensPrivate(rules) then Some(PrivateAllowed(agent))
    else if HidesPublic(rules) then Some(PublicBlocked(agent))
    else None
  }

  // ----- What can be printed faithfully -----

  predicate Token(t: string) {
    t != "" && !Blank(t[0]) && !Blank(t[|t| - 1]) && forall i | 0 <= i < |t| :: t[i] != '#' && t[i] != '\n'
  }

  predicate CanonicalAgent(a: string) {
    Token(a) && Slugs.Lower(a) == a
  }

  predicate CanonicalRule(r: Rule) {
    Token(r.path) && (r.allow || r.path !in SITE_WIDE)
  }

  ghost predicate CanonicalGroup(g: Group) {
    && g.agents != []
    && (forall k | 0 <= k < |g.agents| :: CanonicalAgent(g.agents[k]))
    && (forall k | 0 <= k < |g.rules| :: CanonicalRule(g.rules[k]))
  }

  ghost predicate Canonical(groups: seq<Group>) {
    && (forall i | 0 <= i < |groups| :: CanonicalGroup(groups[i]))
    && (forall i | 0 <= i < |groups| - 1 :: groups[i].rules != [])
  }
}
