/**
 What the lines of a robots.txt say, told without the parser's state: which line is refused first,
 and which rules belong to which agents.
 */
module RobotsParse {
  import opened Common
  import opened RobotsMatch
  import opened Robots
  import opened Strings
  import Slugs

  predicate AddsRule(line: Line) {
    line.Directive? && line.rule.path != ""
  }

  predicate NamesAgent(line: Line, agent: string) {
    line.Agent? && Slugs.Lower(line.name) == agent
  }

  /** Line j still speaks at line n: no agent line behind a rule has closed its group. */
  ghost predicate Open(lines: seq<Line>, j: nat, n: nat)
    requires n <= |lines|
  {
    j < n && forall r: nat, a: nat | j < r < a < n && AddsRule(lines[r]) :: !lines[a].Agent?
  }

  /** Line k is this rule, in the group of line j, which names this agent. */
  ghost predicate SaysAt(lines: seq<Line>, agent: string, rule: Rule, j: nat, k: nat) {
    && k < |lines| && Open(lines, j, k) && NamesAgent(lines[j], agent)
    && lines[k] == Directive(rule) && rule.path != ""
  }

  /** The first n lines give the agent this rule. */
  ghost predicate Says(lines: seq<Line>, n: nat, agent: string, rule: Rule)
    requires n <= |lines|
  {
    exists j: nat, k: nat :: k < n && SaysAt(lines, agent, rule, j, k)
  }

  ghost predicate Mentions(lines: seq<Line>, n: nat, agent: string)
    requires n <= |lines|
  {
    exists j: nat :: j < n && NamesAgent(lines[j], agent)
  }

  ghost predicate InOneGroup(groups: seq<Group>, agent: string, rule: Rule) {
    exists i :: 0 <= i < |groups| && agent in groups[i].agents && rule in groups[i].rules
  }

  // ----- The parser's state after some lines -----

  ghost predicate NoAgentYet(lines: seq<Line>, n: nat)
    requires n <= |lines|
  {
    forall j: nat | j < n :: !lines[j].Agent?
  }

  ghost predicate NoRuleSince(lines: seq<Line>, j: nat, n: nat)
    requires n <= |lines|
  {
    j < n && lines[j].Agent? && forall k: nat | j < k < n :: !AddsRule(lines[k])
  }

  ghost predicate Speaking(lines: seq<Line>, n: nat, agent: string)
    requires n <= |lines|
  {
    exists j: nat :: Open(lines, j, n) && NamesAgent(lines[j], agent)
  }

  ghost predicate LastGroup(lines: seq<Line>, n: nat, groups: seq<Group>)
    requires n <= |lines|
  {
    && (groups == [] <==> NoAgentYet(lines, n))
    && (groups != [] ==>
          var last := groups[|groups| - 1];
          && (forall agent :: agent in last.agents <==> Speaking(lines, n, agent))
          && (last.rules == [] <==> exists j: nat :: NoRuleSince(lines, j, n)))
  }

  ghost predicate Grouped(lines: seq<Line>, n: nat, groups: seq<Group>)
    requires n <= |lines|
  {
    && LastGroup(lines, n, groups)
    && (forall agent :: Named(groups, agent) <==> Mentions(lines, n, agent))
    && (forall agent, rule :: InOneGroup(groups, agent, rule) <==> Says(lines, n, agent, rule))
  }

  // ----- One more line -----

  lemma OpenNext(lines: seq<Line>, j: nat, n: nat)
    requires n < |lines|
    ensures Open(lines, j, n + 1)
            <==> j == n || (Open(lines, j, n) && !(lines[n].Agent? && exists r: nat :: j < r < n && AddsRule(lines[r])))
  {
    if Open(lines, j, n + 1) && j < n && lines[n].Agent? {
      forall r: nat | j < r < n ensures !AddsRule(lines[r]) {}
    }
  }

  lemma SaysNext(lines: seq<Line>, n: nat, agent: string, rule: Rule)
    requires n < |lines|
    ensures Says(lines, n + 1, agent, rule)
            <==> Says(lines, n, agent, rule)
                 || (lines[n] == Directive(rule) && rule.path != "" && Speaking(lines, n, agent))
  {
    if lines[n] == Directive(rule) && rule.path != "" && Speaking(lines, n, agent) {
      var j: nat :| Open(lines, j, n) && NamesAgent(lines[j], agent);
      assert SaysAt(lines, agent, rule, j, n);
    }
  }

  lemma MentionsNext(lines: seq<Line>, n: nat, agent: string)
    requires n < |lines|
    ensures Mentions(lines, n + 1, agent) <==> Mentions(lines, n, agent) || NamesAgent(lines[n], agent)
  {}

  /** A line that names no agent leaves the last group open. */
  lemma SpeakingNext(lines: seq<Line>, n: nat, agent: string)
    requires n < |lines| && !lines[n].Agent?
    ensures Speaking(lines, n + 1, agent) <==> Speaking(lines, n, agent)
  {
    forall j: nat ensures Open(lines, j, n + 1) <==> j == n || Open(lines, j, n) { OpenNext(lines, j, n); }
    if j: nat :| Open(lines, j, n + 1) && NamesAgent(lines[j], agent) { assert Open(lines, j, n); }
    if j: nat :| Open(lines, j, n) && NamesAgent(lines[j], agent) { assert Open(lines, j, n + 1); }
  }

  /** A line that names no agent and adds no rule changes nothing. */
  lemma IdleLine(lines: seq<Line>, n: nat, groups: seq<Group>)
    requires n < |lines| && Grouped(lines, n, groups) && !lines[n].Agent? && !AddsRule(lines[n])
    ensures Grouped(lines, n + 1, groups)
  {
    IdleLast(lines, n, groups);
    forall agent ensures Mentions(lines, n + 1, agent) <==> Mentions(lines, n, agent) { MentionsNext(lines, n, agent); }
    forall agent, rule ensures Says(lines, n + 1, agent, rule) <==> Says(lines, n, agent, rule) {
      SaysNext(lines, n, agent, rule);
    }
  }

  lemma IdleLast(lines: seq<Line>, n: nat, groups: seq<Group>)
    requires n < |lines| && LastGroup(lines, n, groups) && !lines[n].Agent? && !AddsRule(lines[n])
    ensures LastGroup(lines, n + 1, groups)
  {
    forall agent ensures Speaking(lines, n + 1, agent) <==> Speaking(lines, n, agent) { SpeakingNext(lines, n, agent); }
    if j: nat :| NoRuleSince(lines, j, n) { assert NoRuleSince(lines, j, n + 1); }
    var m := n + 1;
    if j: nat :| NoRuleSince(lines, j, m) { assert NoRuleSince(lines, j, n); }
    assert NoAgentYet(lines, n + 1) <==> NoAgentYet(lines, n);
  }

  lemma RuleLineLast(lines: seq<Line>, n: nat, groups: seq<Group>, after: seq<Group>)
    requires n < |lines| && LastGroup(lines, n, groups) && groups != [] && AddsRule(lines[n])
    requires var last := groups[|groups| - 1];
             after == groups[..|groups| - 1] + [last.(rules := last.rules + [lines[n].rule])]
    ensures LastGroup(lines, n + 1, after)
  {
    forall agent ensures Speaking(lines, n + 1, agent) <==> Speaking(lines, n, agent) { SpeakingNext(lines, n, agent); }
    assert after[|after| - 1].rules != [];
    assert AddsRule(lines[n]);
    var j: nat :| j < n && lines[j].Agent?;
    assert !NoAgentYet(lines, n + 1);
  }

  lemma RuleLineSays(lines: seq<Line>, n: nat, groups: seq<Group>, after: seq<Group>)
    requires n < |lines| && Grouped(lines, n, groups) && groups != [] && AddsRule(lines[n])
    requires var last := groups[|groups| - 1];
             after == groups[..|groups| - 1] + [last.(rules := last.rules + [lines[n].rule])]
    ensures forall agent, rule :: InOneGroup(after, agent, rule) <==> Says(lines, n + 1, agent, rule)
    ensures forall agent :: Named(after, agent) <==> Mentions(lines, n + 1, agent)
  {
    var m := |groups| - 1;
    forall agent, rule ensures InOneGroup(after, agent, rule) <==> Says(lines, n + 1, agent, rule) {
      SaysNext(lines, n, agent, rule);
      RuleAdded(groups, lines[n].rule, after, agent, rule);
    }
    forall agent ensures Named(after, agent) <==> Mentions(lines, n + 1, agent) {
      MentionsNext(lines, n, agent);
      assert forall i | 0 <= i < |groups| :: after[i].agents == groups[i].agents;
    }
  }

  lemma RuleAdded(groups: seq<Group>, added: Rule, after: seq<Group>, agent: string, rule: Rule)
    requires groups != []
    requires var last := groups[|groups| - 1]; after == groups[..|groups| - 1] + [last.(rules := last.rules + [added])]
    ensures InOneGroup(after, agent, rule)
            <==> InOneGroup(groups, agent, rule) || (rule == added && agent in groups[|groups| - 1].agents)
  {
    var m := |groups| - 1;
    assert forall i | 0 <= i < m :: after[i] == groups[i];
    if rule == added && agent in groups[m].agents {
      assert agent in after[m].agents && rule in after[m].rules;
    }
    if i :| 0 <= i < |groups| && agent in groups[i].agents && rule in groups[i].rules {
      assert agent in after[i].agents && rule in after[i].rules;
    }
  }

  /** The groups after an agent line: a new one behind rules and at the beginning, else one more name. */
  function WithAgent(groups: seq<Group>, name: string): seq<Group> {
    if groups == [] || groups[|groups| - 1].rules != [] then groups + [Group([name], [])]
    else
      var last := groups[|groups| - 1];
      groups[..|groups| - 1] + [last.(agents := last.agents + [name])]
  }

  lemma AgentLineLast(lines: seq<Line>, n: nat, groups: seq<Group>)
    requires n < |lines| && LastGroup(lines, n, groups) && lines[n].Agent?
    ensures LastGroup(lines, n + 1, WithAgent(groups, Slugs.Lower(lines[n].name)))
  {
    var name := Slugs.Lower(lines[n].name);
    var after := WithAgent(groups, name);
    var last := after[|after| - 1];
    assert NoRuleSince(lines, n, n + 1) && last.rules == [];
    forall agent ensures agent in last.agents <==> Speaking(lines, n + 1, agent) {
      AgentLineSpeaks(lines, n, groups, agent);
    }
  }

  lemma AgentLineSpeaks(lines: seq<Line>, n: nat, groups: seq<Group>, agent: string)
    requires n < |lines| && LastGroup(lines, n, groups) && lines[n].Agent?
    ensures Speaking(lines, n + 1, agent)
            <==> agent == Slugs.Lower(lines[n].name)
                 || (groups != [] && groups[|groups| - 1].rules == [] && agent in groups[|groups| - 1].agents)
  {
    if agent == Slugs.Lower(lines[n].name) {
      assert Open(lines, n, n + 1) && NamesAgent(lines[n], agent);
    }
    if groups != [] && groups[|groups| - 1].rules == [] && agent in groups[|groups| - 1].agents {
      var j: nat :| Open(lines, j, n) && NamesAgent(lines[j], agent);
      var s: nat :| NoRuleSince(lines, s, n);
      StaysOpen(lines, n, j, s);
    }
    if j: nat :| Open(lines, j, n + 1) && NamesAgent(lines[j], agent) && j != n {
      OpenNext(lines, j, n);
      assert NoRuleSince(lines, j, n);
    }
  }

  /** Agent lines one behind the other share a group. */
  lemma StaysOpen(lines: seq<Line>, n: nat, j: nat, s: nat)
    requires n < |lines| && Open(lines, j, n) && NoRuleSince(lines, s, n)
    ensures Open(lines, j, n + 1)
  {
    assert lines[s].Agent? && s < n;
    forall r: nat | j < r < n ensures !AddsRule(lines[r]) {}
    OpenNext(lines, j, n);
  }

  lemma AgentLineSays(lines: seq<Line>, n: nat, groups: seq<Group>)
    requires n < |lines| && Grouped(lines, n, groups) && lines[n].Agent?
    ensures Grouped(lines, n + 1, WithAgent(groups, Slugs.Lower(lines[n].name)))
  {
    var name := Slugs.Lower(lines[n].name);
    var after := WithAgent(groups, name);
    AgentLineLast(lines, n, groups);
    forall agent ensures Named(after, agent) <==> Mentions(lines, n + 1, agent) {
      MentionsNext(lines, n, agent);
      AgentAdded(groups, name, agent);
    }
    forall agent, rule ensures InOneGroup(after, agent, rule) <==> Says(lines, n + 1, agent, rule) {
      SaysNext(lines, n, agent, rule);
      RulesUnchanged(groups, name, agent, rule);
    }
  }

  lemma AgentAdded(groups: seq<Group>, name: string, agent: string)
    ensures Named(WithAgent(groups, name), agent) <==> Named(groups, agent) || agent == name
  {
    var after := WithAgent(groups, name);
    assert name in after[|after| - 1].agents;
    forall i | 0 <= i < |groups| ensures agent in groups[i].agents ==> agent in after[i].agents {}
  }

  lemma RulesUnchanged(groups: seq<Group>, name: string, agent: string, rule: Rule)
    ensures InOneGroup(WithAgent(groups, name), agent, rule) <==> InOneGroup(groups, agent, rule)
  {
    var after := WithAgent(groups, name);
    if i :| 0 <= i < |groups| && agent in groups[i].agents && rule in groups[i].rules {
      assert agent in after[i].agents && rule in after[i].rules;
    }
    if i :| 0 <= i < |after| && agent in after[i].agents && rule in after[i].rules {
      assert i < |groups| && agent in groups[i].agents && rule in groups[i].rules;
    }
  }

  // ----- Which line is refused -----

  /** What is wrong with line k, by what stands before it. */
  ghost predicate Refused(lines: seq<Line>, k: nat, error: RobotsError)
    requires k < |lines|
  {
    match lines[k]
    case Malformed => error == InvalidDirective
    case Agent(name) => name == "" && error == EmptyAgent
    case Directive(rule) =>
      if NoAgentYet(lines, k) then error == RuleBeforeAgent
      else !rule.allow && rule.path in {"/", "/*", "/$", "/*$"} && error == SiteWideBlock
    case Empty => false
    case Unknown => false
  }

  ghost predicate Fine(lines: seq<Line>, k: nat)
    requires k < |lines|
  {
    forall error :: !Refused(lines, k, error)
  }

  /** The first refused line from line n on. */
  ghost predicate FirstRefused(lines: seq<Line>, n: nat, k: nat, error: RobotsError) {
    n <= k < |lines| && Refused(lines, k, error) && forall i: nat | n <= i < k :: Fine(lines, i)
  }

  lemma OneLine(lines: seq<Line>, n: nat, groups: seq<Group>)
    requires n < |lines| && Grouped(lines, n, groups)
    requires AddLine(groups, lines[n]).Ok?
    ensures Grouped(lines, n + 1, AddLine(groups, lines[n]).value)
  {
    var after := AddLine(groups, lines[n]).value;
    match lines[n]
    case Agent(name) => AgentLineSays(lines, n, groups);
    case Directive(rule) =>
      if AddsRule(lines[n]) {
        RuleLineLast(lines, n, groups, after);
        RuleLineSays(lines, n, groups, after);
      } else {
        IdleLine(lines, n, groups);
      }
    case _ => IdleLine(lines, n, groups);
  }

  lemma LineRefused(lines: seq<Line>, n: nat, groups: seq<Group>)
    requires n < |lines| && (groups == [] <==> NoAgentYet(lines, n))
    ensures match AddLine(groups, lines[n])
            case Err(error) => Refused(lines, n, error)
            case Ok(after) => Fine(lines, n) && (after == [] <==> NoAgentYet(lines, n + 1))
  {
    assert !lines[n].Agent? ==> (NoAgentYet(lines, n + 1) <==> NoAgentYet(lines, n));
  }

  lemma {:induction false} GroupedFrom(lines: seq<Line>, n: nat, groups: seq<Group>)
    requires n <= |lines| && Grouped(lines, n, groups) && AddLines(groups, lines[n..]).Ok?
    ensures Grouped(lines, |lines|, AddLines(groups, lines[n..]).value)
    decreases |lines| - n
  {
    if n < |lines| {
      OneLine(lines, n, groups);
      LineByLine(lines, n, groups);
      GroupedFrom(lines, n + 1, AddLine(groups, lines[n]).value);
    }
  }

  lemma {:induction false} RefusedFrom(lines: seq<Line>, n: nat, groups: seq<Group>)
    requires n <= |lines| && (groups == [] <==> NoAgentYet(lines, n))
    ensures match AddLines(groups, lines[n..])
            case Err(error) => exists k: nat :: FirstRefused(lines, n, k, error)
            case Ok(_) => forall i: nat | n <= i < |lines| :: Fine(lines, i)
    decreases |lines| - n
  {
    if n < |lines| {
      LineRefused(lines, n, groups);
      LineByLine(lines, n, groups);
      var r := AddLine(groups, lines[n]);
      if r.Err? {
        assert FirstRefused(lines, n, n, r.error);
      } else {
        RefusedFrom(lines, n + 1, r.value);
        var rest := AddLines(r.value, lines[n + 1..]);
        if rest.Err? {
          var k: nat :| FirstRefused(lines, n + 1, k, rest.error);
          RefusedEarlier(lines, n, k, rest.error);
        }
      }
    }
  }

  lemma LineByLine(lines: seq<Line>, n: nat, groups: seq<Group>)
    requires n < |lines|
    ensures AddLines(groups, lines[n..])
            == match AddLine(groups, lines[n]) case Err(e) => Err(e) case Ok(next) => AddLines(next, lines[n + 1..])
  {
    assert lines[n..][0] == lines[n] && lines[n..][1..] == lines[n + 1..];
  }

  lemma RefusedEarlier(lines: seq<Line>, n: nat, k: nat, error: RobotsError)
    requires n < |lines| && Fine(lines, n) && FirstRefused(lines, n + 1, k, error)
    ensures FirstRefused(lines, n, k, error)
  {}

  /** A file is refused for its first bad line; and otherwise its groups are the ones its lines make up. */
  lemma ParseMeans(text: string)
    ensures var lines := ParseLines(Lines(text));
            match Parse(text)
            case Err(error) => exists k: nat :: FirstRefused(lines, 0, k, error)
            case Ok(groups) => (forall i: nat | i < |lines| :: Fine(lines, i)) && Grouped(lines, |lines|, groups)
  {
    var lines := ParseLines(Lines(text));
    forall agent, rule ensures InOneGroup([], agent, rule) <==> Says(lines, 0, agent, rule) {}
    assert lines[0..] == lines;
    RefusedFrom(lines, 0, []);
    if Parse(text).Ok? { GroupedFrom(lines, 0, []); }
  }

  /** What an agent has to obey, told from the lines: the rules under its name, or else those under `*`. */
  lemma ObeysLines(text: string, agent: string, rule: Rule)
    requires Parse(text).Ok?
    ensures var lines := ParseLines(Lines(text)); var n := |lines|;
            Obeys(Parse(text).value, agent, rule)
            <==> Says(lines, n, if Mentions(lines, n, agent) then agent else "*", rule)
  {
    ParseMeans(text);
    var groups, lines := Parse(text).value, ParseLines(Lines(text));
    assert Named(groups, agent) <==> Mentions(lines, |lines|, agent);
    assert InOneGroup(groups, agent, rule) <==> Says(lines, |lines|, agent, rule);
    assert InOneGroup(groups, "*", rule) <==> Says(lines, |lines|, "*", rule);
  }

  // ----- What one line says -----

  predicate Without(s: string, c: char) {
    forall i | 0 <= i < |s| :: s[i] != c
  }

  lemma {:induction false} FoundBehind(s: string, c: char, rest: string)
    requires Without(s, c)
    ensures IndexOf(s + ([c] + rest), c) == |s|
  {
    assert (s + ([c] + rest))[|s|] == c;
  }

  /** A comment says nothing. */
  lemma CommentSaysNothing(code: string, comment: string)
    requires Without(code, '#')
    ensures ParseLine(code + ("#" + comment)) == ParseLine(code)
  {
    FoundBehind(code, '#', comment);
    assert Uncomment(code + ("#" + comment)) == code;
    assert Uncomment(code) == code;
  }

  lemma CodeKept(before: string, line: string, after: string)
    requires Blanks(before) && Blanks(after) && Trimmed(line) && Without(line, '#')
    ensures Trim(Uncomment(before + line + after)) == line
  {
    BlanksHaveNo(before);
    BlanksHaveNo(after);
    var raw := before + line + after;
    assert Without(raw, '#');
    assert Uncomment(raw) == raw;
    TrimAround(before, line, after);
  }

  lemma KeyAndValue(front: string, back: string)
    requires Without(front, ':')
    ensures var line := front + ":" + back;
            IndexOf(line, ':') == |front| < |line| && line[..|front|] == front && line[|front| + 1..] == back
  {
    FoundBehind(front, ':', back);
    assert front + ":" + back == front + ([':'] + back);
  }

  lemma ReadKeyed(raw: string, front: string, back: string)
    requires Trim(Uncomment(raw)) == front + ":" + back && Without(front, ':')
    ensures ParseLine(raw) == Classify(Slugs.Lower(Trim(front)), Trim(back))
  {
    KeyAndValue(front, back);
  }

  lemma ClassifyReads(key: string, value: string)
    ensures Classify(key, value) == Reads(key, value)
  {}

  lemma LineShape(key: string, b1: string, b2: string, value: string)
    requires Blanks(b1) && Blanks(b2)
    requires Trimmed(key) && key != "" && Without(key, '#')
    requires Trimmed(value) && value != "" && Without(value, '#')
    ensures var line := (key + b1) + ":" + (b2 + value); Trimmed(line) && Without(line, '#')
  {
    BlanksHaveNo(b1);
    BlanksHaveNo(b2);
    var line := (key + b1) + ":" + (b2 + value);
    assert line[0] == key[0] && line[|line| - 1] == value[|value| - 1];
  }

  /** Neither do blanks around a line, around its colon, or the case of its key. */
  lemma LineReads(before: string, key: string, b1: string, b2: string, value: string, after: string)
    requires Blanks(before) && Blanks(b1) && Blanks(b2) && Blanks(after)
    requires Trimmed(key) && key != "" && Without(key, ':') && Without(key, '#')
    requires Trimmed(value) && value != "" && Without(value, '#')
    ensures ParseLine(before + ((key + b1) + ":" + (b2 + value)) + after) == Reads(Slugs.Lower(key), value)
  {
    var front, back := key + b1, b2 + value;
    LineShape(key, b1, b2, value);
    CodeKept(before, front + ":" + back, after);
    BlanksHaveNo(b1);
    assert Without(front, ':');
    TrimSides(key, b1, b2, value);
    ReadKeyed(before + (front + ":" + back) + after, front, back);
    ClassifyReads(Slugs.Lower(key), value);
  }

  lemma TrimSides(key: string, b1: string, b2: string, value: string)
    requires Blanks(b1) && Blanks(b2) && Trimmed(key) && Trimmed(value)
    ensures Trim(key + b1) == key && Trim(b2 + value) == value
  {
    TrimAround("", key, b1);
    assert "" + key + b1 == key + b1;
    TrimAround(b2, value, "");
    assert b2 + value + "" == b2 + value;
  }

  lemma BlanksHaveNo(s: string)
    requires Blanks(s)
    ensures Without(s, '#') && Without(s, ':')
  {}

  function Reads(key: string, value: string): Line {
    match key
    case "user-agent" => Agent(value)
    case "allow" => Directive(Rule(true, value))
    case "disallow" => Directive(Rule(false, value))
    case _ => Unknown
  }

  /** A line of blanks is empty, and one without a colon is malformed. */
  lemma OtherLines(before: string, text: string, after: string)
    requires Blanks(before) && Blanks(after) && Trimmed(text) && Without(text, '#') && Without(text, ':')
    ensures ParseLine(before + text + after) == if text == "" then Empty else Malformed
  {
    CodeKept(before, text, after);
  }
}
