/**
 Accepting or refusing a robots.txt, and what acceptance means for every crawler.
 */
module RobotsPolicy {
  import opened Common
  import opened Robots

  /** What the checker accepts. */
  predicate Accepted(text: string) {
    && Parse(text).Ok?
    && var groups := Parse(text).value;
       Named(groups, "*") && forall i | 0 <= i < |CheckedAgents(groups)| :: Protects(groups, CheckedAgents(groups)[i])
  }

  lemma {:induction false} UnnamedHasNoGroup(groups: seq<Group>, agent: string)
    requires !Named(groups, agent)
    ensures GroupsOf(groups, agent) == []
    decreases |groups|
  {
    if groups != [] {
      NamedUnfold(groups, agent);
      UnnamedHasNoGroup(groups[1..], agent);
    }
  }

  /** The private pages are closed to this agent and the public ones open, told from the groups alone. */
  ghost predicate KeepsOut(groups: seq<Group>, agent: string) {
    && !Permits(groups, agent, "/admin") && !Permits(groups, agent, "/admin/login")
    && !Permits(groups, agent, "/api") && !Permits(groups, agent, "/api/seo-admin")
    && Permits(groups, agent, "/") && Permits(groups, agent, "/projects")
    && Permits(groups, agent, "/apartments-for-sale-in-coimbatore")
  }

  lemma PrivateIff(groups: seq<Group>, agent: string)
    ensures OpensPrivate(Effective(groups, agent))
            <==> || Permits(groups, agent, "/admin") || Permits(groups, agent, "/admin/login")
                 || Permits(groups, agent, "/api") || Permits(groups, agent, "/api/seo-admin")
  {
    PermitsIff(groups, agent, "/admin");
    PermitsIff(groups, agent, "/admin/login");
    PermitsIff(groups, agent, "/api");
    PermitsIff(groups, agent, "/api/seo-admin");
    SomePrivate(Effective(groups, agent));
  }

  lemma AnyOfFour(paths: seq<string>, p: string -> bool)
    requires |paths| == 4
    ensures (exists i | 0 <= i < |paths| :: p(paths[i])) <==> p(paths[0]) || p(paths[1]) || p(paths[2]) || p(paths[3])
  {}

  lemma SomePrivate(rules: seq<Rule>)
    ensures OpensPrivate(rules)
            <==> Allowed(rules, "/admin") || Allowed(rules, "/admin/login") || Allowed(rules, "/api")
                 || Allowed(rules, "/api/seo-admin")
  {
    AnyOfFour(PRIVATE_PATHS, url => Allowed(rules, url));
  }

  lemma PublicIff(groups: seq<Group>, agent: string)
    ensures HidesPublic(Effective(groups, agent))
            <==> !Permits(groups, agent, "/") || !Permits(groups, agent, "/projects")
                 || !Permits(groups, agent, "/apartments-for-sale-in-coimbatore")
  {
    PermitsIff(groups, agent, "/");
    PermitsIff(groups, agent, "/projects");
    PermitsIff(groups, agent, "/apartments-for-sale-in-coimbatore");
    SomePublic(Effective(groups, agent));
  }

  lemma SomePublic(rules: seq<Rule>)
    ensures HidesPublic(rules)
            <==> !Allowed(rules, "/") || !Allowed(rules, "/projects") || !Allowed(rules, "/apartments-for-sale-in-coimbatore")
  {
    assert PUBLIC_PATHS[0] == "/" && PUBLIC_PATHS[1] == "/projects"
        && PUBLIC_PATHS[2] == "/apartments-for-sale-in-coimbatore";
  }

  lemma ProtectsIff(groups: seq<Group>, agent: string)
    ensures Protects(groups, agent) <==> KeepsOut(groups, agent)
  {
    PrivateIff(groups, agent);
    PublicIff(groups, agent);
  }

  /** The finite check suffices: an accepted file keeps every crawler there is out of the private pages alone. */
  lemma AcceptedProtectsFromEveryone(text: string, agent: string)
    requires Accepted(text)
    ensures Protects(Parse(text).value, agent) && KeepsOut(Parse(text).value, agent)
  {
    var groups := Parse(text).value;
    var checked := CheckedAgents(groups);
    if Named(groups, agent) {
      var i :| 0 <= i < |NamedAgents(groups)| && NamedAgents(groups)[i] == agent;
      assert checked[3 + i] == agent;
    } else {
      UnnamedHasNoGroup(groups, agent);
      assert Effective(groups, agent) == Effective(groups, "*");
      assert checked[0] == "*";
    }
    ProtectsIff(groups, agent);
  }

  /** So what is accepted is what has a default group and keeps every crawler out. */
  lemma AcceptedIff(text: string)
    ensures Accepted(text)
            <==> && Parse(text).Ok?
                 && (exists i :: 0 <= i < |Parse(text).value| && "*" in Parse(text).value[i].agents)
                 && forall agent :: KeepsOut(Parse(text).value, agent)
  {
    if Accepted(text) {
      forall agent ensures KeepsOut(Parse(text).value, agent) {
        AcceptedProtectsFromEveryone(text, agent);
      }
    } else if Parse(text).Ok? && Named(Parse(text).value, "*") {
      var groups := Parse(text).value;
      var i :| 0 <= i < |CheckedAgents(groups)| && !Protects(groups, CheckedAgents(groups)[i]);
      ProtectsIff(groups, CheckedAgents(groups)[i]);
    }
  }

  /** The first complaint about any of the agents. */
  method FirstComplaint(agents: seq<string>, complaint: string -> Option<RobotsError>) returns (bad: Option<RobotsError>)
    ensures bad.None? <==> forall i | 0 <= i < |agents| :: complaint(agents[i]).None?
    ensures bad.Some? ==> exists i | 0 <= i < |agents| ::
              bad == complaint(agents[i]) && forall j | 0 <= j < i :: complaint(agents[j]).None?
  {
    for i := 0 to |agents|
      invariant forall j | 0 <= j < i :: complaint(agents[j]).None?
    {
      bad := complaint(agents[i]);
      if bad.Some? {
        return;
      }
    }
    return None;
  }

  method ValidateRobotsPolicy(text: string) returns (r: Result<(), RobotsError>)
    ensures r.Ok? <==> && Parse(text).Ok?
                       && (exists i :: 0 <= i < |Parse(text).value| && "*" in Parse(text).value[i].agents)
                       && forall agent :: KeepsOut(Parse(text).value, agent)
    ensures Parse(text).Err? ==> r == Err(Parse(text).error)
    ensures Parse(text).Ok? && !Named(Parse(text).value, "*") ==> r == Err(NoDefaultGroup)
    ensures Parse(text).Ok? && Named(Parse(text).value, "*") && r.Err? ==>
              var groups := Parse(text).value;
              match r.error
              case PrivateAllowed(agent) => !KeepsOut(groups, agent) && OpensPrivate(Effective(groups, agent))
              case PublicBlocked(agent) =>
                !KeepsOut(groups, agent) && HidesPublic(Effective(groups, agent)) && !OpensPrivate(Effective(groups, agent))
              case _ => false
  {
    AcceptedIff(text);
    var groups := ParseRobots(text);
    if groups.Err? {
      return Err(groups.error);
    }
    if !Named(groups.value, "*") {
      return Err(NoDefaultGroup);
    }
    var bad := FirstComplaint(CheckedAgents(groups.value), agent => Complaint(groups.value, agent));
    if bad.Some? {
      ProtectsIff(groups.value, bad.value.agent);
      return Err(bad.value);
    }
    return Ok(());
  }
}
