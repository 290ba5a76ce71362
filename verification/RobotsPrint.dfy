/**
 Writing a robots.txt back out: the parser reads every canonical list of groups exactly as it
 was printed.
 */
module RobotsPrint {
  import opened Common
  import opened RobotsMatch
  import opened Robots
  import opened Strings
  import Slugs

  // ----- Printing -----

  function AgentLine(name: string): string {
    "user-agent" + ":" + name
  }

  function RuleKey(r: Rule): string {
    if r.allow then "allow" else "disallow"
  }

  function RuleLine(r: Rule): string {
    RuleKey(r) + ":" + r.path
  }

  function AgentLines(agents: seq<string>): seq<string> {
    if agents == [] then [] else [AgentLine(agents[0])] + AgentLines(agents[1..])
  }

  function RuleLines(rules: seq<Rule>): seq<string> {
    if rules == [] then [] else [RuleLine(rules[0])] + RuleLines(rules[1..])
  }

  function GroupLines(groups: seq<Group>): seq<string> {
    if groups == [] then []
    else AgentLines(groups[0].agents) + RuleLines(groups[0].rules) + GroupLines(groups[1..])
  }

  function Join(lines: seq<string>): string {
    if lines == [] then "" else if |lines| == 1 then lines[0] else lines[0] + "\n" + Join(lines[1..])
  }

  function Print(groups: seq<Group>): string {
    Join(GroupLines(groups))
  }

  // ----- One line -----

  lemma TrimIdle(s: string)
    requires s == "" || (!Blank(s[0]) && !Blank(s[|s| - 1]))
    ensures Trim(s) == s
  {}

  /** A key that reads as itself: no blanks around it, nothing to lower, no separator inside. */
  predicate PlainKey(key: string) {
    key != "" && forall i | 0 <= i < |key| ::
      !Blank(key[i]) && key[i] != '#' && key[i] != ':' && Slugs.LowerChar(key[i]) == key[i]
  }

  lemma WholeLineKept(key: string, value: string)
    requires PlainKey(key) && Token(value)
    ensures var raw := key + ":" + value; Trim(Uncomment(raw)) == raw
  {
    var raw := key + ":" + value;
    assert forall i | 0 <= i < |raw| :: raw[i] != '#';
    assert raw[..|raw|] == raw;
    TrimIdle(raw);
  }

  lemma SplitAtSeparator(key: string, value: string)
    requires PlainKey(key)
    ensures var raw := key + ":" + value;
            IndexOf(raw, ':') == |key| < |raw| && raw[..|key|] == key && raw[|key| + 1..] == value
  {
    var raw := key + ":" + value;
    assert raw[|key|] == ':';
  }

  lemma ParseKeyed(key: string, value: string)
    requires PlainKey(key) && Token(value)
    ensures ParseLine(key + ":" + value) == Classify(key, value)
  {
    WholeLineKept(key, value);
    SplitAtSeparator(key, value);
    TrimIdle(key);
    TrimIdle(value);
    assert Slugs.Lower(key) == key;
  }

  lemma KeysArePlain()
    ensures PlainKey("user-agent") && PlainKey("allow") && PlainKey("disallow")
  {}

  lemma ParseAgentLine(name: string)
    requires Token(name)
    ensures ParseLine(AgentLine(name)) == Agent(name)
  {
    KeysArePlain();
    ParseKeyed("user-agent", name);
  }

  lemma ParseRuleLine(r: Rule)
    requires Token(r.path)
    ensures ParseLine(RuleLine(r)) == Directive(r)
  {
    KeysArePlain();
    ParseKeyed(RuleKey(r), r.path);
  }

  // ----- Groups of lines -----

  function ReadBack(groups: seq<Group>): seq<Line> {
    if groups == [] then []
    else ReadAgents(groups[0].agents) + ReadRules(groups[0].rules) + ReadBack(groups[1..])
  }

  function ReadAgents(agents: seq<string>): seq<Line> {
    if agents == [] then [] else [Agent(agents[0])] + ReadAgents(agents[1..])
  }

  function ReadRules(rules: seq<Rule>): seq<Line> {
    if rules == [] then [] else [Directive(rules[0])] + ReadRules(rules[1..])
  }

  lemma ParseLinesConcat(a: seq<string>, b: seq<string>)
    ensures ParseLines(a + b) == ParseLines(a) + ParseLines(b)
  {}

  /** Every printed line reads as the line that was meant. */
  lemma {:induction false} LinesReadBack(groups: seq<Group>)
    requires Canonical(groups)
    ensures ParseLines(GroupLines(groups)) == ReadBack(groups)
    decreases |groups|
  {
    if groups != [] {
      var g := groups[0];
      CanonicalTail(groups);
      AgentsReadBack(g.agents);
      RulesReadBack(g.rules);
      LinesReadBack(groups[1..]);
      ParseLinesConcat(AgentLines(g.agents), RuleLines(g.rules));
      ParseLinesConcat(AgentLines(g.agents) + RuleLines(g.rules), GroupLines(groups[1..]));
    }
  }

  lemma ParseLinesCons(line: string, lines: seq<string>)
    ensures ParseLines([line] + lines) == [ParseLine(line)] + ParseLines(lines)
  {}

  lemma {:induction false} AgentsReadBack(agents: seq<string>)
    requires forall k | 0 <= k < |agents| :: CanonicalAgent(agents[k])
    ensures ParseLines(AgentLines(agents)) == ReadAgents(agents)
    decreases |agents|
  {
    if agents != [] {
      assert CanonicalAgent(agents[0]);
      AgentsReadBack(agents[1..]);
      ParseAgentLine(agents[0]);
      ParseLinesCons(AgentLine(agents[0]), AgentLines(agents[1..]));
    }
  }

  lemma {:induction false} RulesReadBack(rules: seq<Rule>)
    requires forall k | 0 <= k < |rules| :: CanonicalRule(rules[k])
    ensures ParseLines(RuleLines(rules)) == ReadRules(rules)
    decreases |rules|
  {
    if rules != [] {
      assert CanonicalRule(rules[0]);
      RulesReadBack(rules[1..]);
      ParseRuleLine(rules[0]);
      ParseLinesCons(RuleLine(rules[0]), RuleLines(rules[1..]));
    }
  }

  lemma CanonicalTail(groups: seq<Group>)
    requires Canonical(groups) && groups != []
    ensures CanonicalGroup(groups[0]) && Canonical(groups[1..]) && (groups[1..] != [] ==> groups[0].rules != [])
  {}

  lemma AddOne(groups: seq<Group>, line: Line, next: seq<Group>, rest: seq<Line>)
    requires AddLine(groups, line) == Ok(next)
    ensures AddLines(groups, [line] + rest) == AddLines(next, rest)
  {
    assert ([line] + rest)[1..] == rest;
  }

  lemma AddAgent(done: seq<Group>, seen: seq<string>, name: string)
    requires CanonicalAgent(name)
    ensures AddLine(done + [Group(seen, [])], Agent(name)) == Ok(done + [Group(seen + [name], [])])
  {
    var groups := done + [Group(seen, [])];
    assert groups[..|groups| - 1] == done;
  }

  lemma AddRule(done: seq<Group>, agents: seq<string>, seen: seq<Rule>, rule: Rule)
    requires CanonicalRule(rule)
    ensures AddLine(done + [Group(agents, seen)], Directive(rule)) == Ok(done + [Group(agents, seen + [rule])])
  {
    var groups := done + [Group(agents, seen)];
    assert groups[..|groups| - 1] == done;
  }

  lemma HeadMoves<T>(a: seq<T>, b: seq<T>)
    requires b != []
    ensures (a + [b[0]]) + b[1..] == a + b
  {}

  lemma Reassociate<T>(a: seq<T>, b: seq<T>, c: seq<T>)
    ensures (a + b) + c == a + (b + c)
  {}

  lemma {:induction false} AddAgents(done: seq<Group>, seen: seq<string>, agents: seq<string>, rest: seq<Line>)
    requires forall k | 0 <= k < |agents| :: CanonicalAgent(agents[k])
    ensures AddLines(done + [Group(seen, [])], ReadAgents(agents) + rest)
            == AddLines(done + [Group(seen + agents, [])], rest)
    decreases |agents|
  {
    if agents == [] {
      assert [] + rest == rest && seen + agents == seen;
    } else {
      assert CanonicalAgent(agents[0]);
      var groups, next := done + [Group(seen, [])], done + [Group(seen + [agents[0]], [])];
      AddAgent(done, seen, agents[0]);
      Reassociate([Agent(agents[0])], ReadAgents(agents[1..]), rest);
      AddOne(groups, Agent(agents[0]), next, ReadAgents(agents[1..]) + rest);
      AddAgents(done, seen + [agents[0]], agents[1..], rest);
      HeadMoves(seen, agents);
    }
  }

  lemma {:induction false} AddRules(done: seq<Group>, agents: seq<string>, seen: seq<Rule>, rules: seq<Rule>, rest: seq<Line>)
    requires forall k | 0 <= k < |rules| :: CanonicalRule(rules[k])
    ensures AddLines(done + [Group(agents, seen)], ReadRules(rules) + rest)
            == AddLines(done + [Group(agents, seen + rules)], rest)
    decreases |rules|
  {
    if rules == [] {
      assert [] + rest == rest && seen + rules == seen;
    } else {
      assert CanonicalRule(rules[0]);
      var groups, next := done + [Group(agents, seen)], done + [Group(agents, seen + [rules[0]])];
      AddRule(done, agents, seen, rules[0]);
      Reassociate([Directive(rules[0])], ReadRules(rules[1..]), rest);
      AddOne(groups, Directive(rules[0]), next, ReadRules(rules[1..]) + rest);
      AddRules(done, agents, seen + [rules[0]], rules[1..], rest);
      HeadMoves(seen, rules);
    }
  }

  lemma OpenGroup(done: seq<Group>, name: string)
    requires (done == [] || done[|done| - 1].rules != []) && CanonicalAgent(name)
    ensures AddLine(done, Agent(name)) == Ok(done + [Group([name], [])])
  {}

  /** The first agent line after a group that has rules opens a new group. */
  lemma AddGroup(done: seq<Group>, g: Group, rest: seq<Line>)
    requires (done == [] || done[|done| - 1].rules != []) && CanonicalGroup(g)
    ensures AddLines(done, ReadAgents(g.agents) + ReadRules(g.rules) + rest) == AddLines(done + [g], rest)
  {
    var first, others, tail := g.agents[0], g.agents[1..], ReadRules(g.rules) + rest;
    assert CanonicalAgent(first);
    OpenGroup(done, first);
    Reassociate(ReadAgents(g.agents), ReadRules(g.rules), rest);
    Reassociate([Agent(first)], ReadAgents(others), tail);
    AddOne(done, Agent(first), done + [Group([first], [])], ReadAgents(others) + tail);
    AddAgents(done, [first], others, tail);
    assert [first] + others == g.agents;
    AddRules(done, g.agents, [], g.rules, rest);
    assert [] + g.rules == g.rules && g == Group(g.agents, g.rules);
  }

  lemma {:induction false} AddGroups(done: seq<Group>, groups: seq<Group>)
    requires Canonical(groups) && (groups != [] && done != [] ==> done[|done| - 1].rules != [])
    ensures AddLines(done, ReadBack(groups)) == Ok(done + groups)
    decreases |groups|
  {
    if groups == [] {
      assert done + groups == done;
    } else {
      CanonicalTail(groups);
      var next := done + [groups[0]];
      assert next[|next| - 1] == groups[0];
      AddGroup(done, groups[0], ReadBack(groups[1..]));
      assert AddLines(done, ReadBack(groups)) == AddLines(next, ReadBack(groups[1..]));
      AddGroups(next, groups[1..]);
      HeadMoves(done, groups);
    }
  }

  // ----- The text -----

  predicate PlainLine(line: string) {
    line != "" && line[|line| - 1] != '\r' && forall i | 0 <= i < |line| :: line[i] != '\n'
  }

  lemma FirstLine(line: string, rest: string)
    requires PlainLine(line)
    ensures Lines(line + "\n" + rest) == [line] + Lines(rest)
  {
    var text := line + "\n" + rest;
    var n := |line|;
    assert text[n] == '\n' && text[..n] == line && text[n + 1..] == rest;
    assert forall i | 0 <= i < n :: text[i] == line[i];
    assert IndexOf(text, '\n') == n;
    assert n > 0 && text[n - 1] == line[n - 1];
  }

  lemma {:induction false} LinesOfJoin(lines: seq<string>)
    requires lines != [] && forall i | 0 <= i < |lines| :: PlainLine(lines[i])
    ensures Lines(Join(lines)) == lines
    decreases |lines|
  {
    var text := Join(lines);
    if |lines| == 1 {
      assert IndexOf(text, '\n') == |text|;
    } else {
      forall i | 0 <= i < |lines[1..]| ensures PlainLine(lines[1..][i]) { assert lines[1..][i] == lines[i + 1]; }
      LinesOfJoin(lines[1..]);
      FirstLine(lines[0], Join(lines[1..]));
      assert lines == [lines[0]] + lines[1..];
    }
  }

  lemma {:induction false} GroupLinesPlain(groups: seq<Group>)
    requires Canonical(groups)
    ensures forall i | 0 <= i < |GroupLines(groups)| :: PlainLine(GroupLines(groups)[i])
    ensures groups != [] ==> GroupLines(groups) != []
    decreases |groups|
  {
    if groups != [] {
      AgentLinesPlain(groups[0].agents);
      RuleLinesPlain(groups[0].rules);
      assert CanonicalGroup(groups[0]);
      GroupLinesPlain(groups[1..]);
    }
  }

  lemma {:induction false} AgentLinesPlain(agents: seq<string>)
    requires forall k | 0 <= k < |agents| :: CanonicalAgent(agents[k])
    ensures forall i | 0 <= i < |AgentLines(agents)| :: PlainLine(AgentLines(agents)[i])
    ensures |AgentLines(agents)| == |agents|
    decreases |agents|
  {
    if agents != [] {
      assert CanonicalAgent(agents[0]);
      AgentLinesPlain(agents[1..]);
    }
  }

  lemma {:induction false} RuleLinesPlain(rules: seq<Rule>)
    requires forall k | 0 <= k < |rules| :: CanonicalRule(rules[k])
    ensures forall i | 0 <= i < |RuleLines(rules)| :: PlainLine(RuleLines(rules)[i])
    decreases |rules|
  {
    if rules != [] {
      assert CanonicalRule(rules[0]);
      RuleLinesPlain(rules[1..]);
    }
  }

  /** Reading undoes printing. */
  lemma ParsePrint(groups: seq<Group>)
    requires Canonical(groups)
    ensures Parse(Print(groups)) == Ok(groups)
  {
    if groups == [] {
      assert Lines("") == [""];
      assert ParseLines([""]) == [ParseLine("")] == [Empty];
    } else {
      GroupLinesPlain(groups);
      LinesOfJoin(GroupLines(groups));
      LinesReadBack(groups);
      AddGroups([], groups);
      assert [] + groups == groups;
    }
  }
}
