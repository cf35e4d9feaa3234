/** Picking an idle agent: a leftmost search over agents, their networks and the leases. */
module AgentSelection {
  import opened GoStrings
  import opened GoTime

  const AGENT_ONLINE := "online"

  datatype NetworkProfile = NetworkProfile(productID: string, orgID: string, poolID: string, disabled: bool)

  datatype Agent = Agent(id: string, orgID: string, poolID: string, status: string, networks: seq<NetworkProfile>)

  datatype Lease = Lease(workerID: string, expiresAt: Time)

  const NO_AGENT := Agent("", "", "", "", [])

  ghost predicate Serves(p: NetworkProfile, orgID: string, poolID: string) {
    !p.disabled && TrimSpace(p.orgID) == TrimSpace(orgID) && TrimSpace(p.poolID) == TrimSpace(poolID)
  }

  /** A profile without product that restates the agent's own network, enabled or not. */
  ghost predicate RestatesDefault(a: Agent, p: NetworkProfile) {
    && TrimSpace(p.productID) == ""
    && TrimSpace(p.orgID) == TrimSpace(a.orgID)
    && TrimSpace(p.poolID) == TrimSpace(a.poolID)
  }

  /** Some enabled profile serves the network, or the agent's own network does and no
    * profile restates (and so may disable) it. */
  ghost predicate MatchesNetwork(a: Agent, orgID: string, poolID: string) {
    || (exists p :: p in a.networks && Serves(p, orgID, poolID))
    || (&& (forall p :: p in a.networks ==> !RestatesDefault(a, p))
        && TrimSpace(a.orgID) == TrimSpace(orgID) && TrimSpace(a.poolID) == TrimSpace(poolID))
  }

  lemma ProfileMeaning(a: Agent, p: NetworkProfile, orgID: string, poolID: string)
    ensures RestatesDefault(a, p)
       <==> TrimSpace(p.productID) == "" && TrimSpace(p.orgID) == TrimSpace(a.orgID) && TrimSpace(p.poolID) == TrimSpace(a.poolID)
    ensures Serves(p, orgID, poolID)
       <==> !p.disabled && TrimSpace(p.orgID) == TrimSpace(orgID) && TrimSpace(p.poolID) == TrimSpace(poolID)
  {
    hide TrimSpace;
  }

  method AgentMatchesNetwork(agent: Agent, orgID: string, poolID: string) returns (matches: bool)
    ensures matches <==> MatchesNetwork(agent, orgID, poolID)
  {
    hide TrimSpace, Serves, RestatesDefault;
    var defaultOrgID, defaultPoolID := TrimSpace(agent.orgID), TrimSpace(agent.poolID);
    var org, pool := TrimSpace(orgID), TrimSpace(poolID);
    var hasExplicitDefault := false;
    for i := 0 to |agent.networks|
      invariant hasExplicitDefault <==> exists j :: 0 <= j < i && RestatesDefault(agent, agent.networks[j])
      invariant forall j :: 0 <= j < i ==> !Serves(agent.networks[j], orgID, poolID)
    {
      var profile := agent.networks[i];
      assert profile in agent.networks;
      ProfileMeaning(agent, profile, orgID, poolID);
      var profileOrgID, profilePoolID := TrimSpace(profile.orgID), TrimSpace(profile.poolID);
      if TrimSpace(profile.productID) == "" && profileOrgID == defaultOrgID && profilePoolID == defaultPoolID {
        hasExplicitDefault := true;
      }
      if !profile.disabled && profileOrgID == org && profilePoolID == pool {
        return true;
      }
    }
    return !hasExplicitDefault && defaultOrgID == org && defaultPoolID == pool;
  }

  ghost predicate Busy(id: string, leases: seq<Lease>, now: Time) {
    exists l :: l in leases && l.workerID == id && l.expiresAt > now
  }

  ghost predicate Eligible(a: Agent, leases: seq<Lease>, orgID: string, poolID: string, now: Time) {
    a.status == AGENT_ONLINE && MatchesNetwork(a, orgID, poolID) && !Busy(a.id, leases, now)
  }

  /** Position of the leftmost eligible agent, or the number of agents if none is. */
  ghost function Choice(agents: seq<Agent>, leases: seq<Lease>, orgID: string, poolID: string, now: Time): nat {
    if agents == [] || Eligible(agents[0], leases, orgID, poolID, now) then 0
    else 1 + Choice(agents[1..], leases, orgID, poolID, now)
  }

  /** Each call returns the leftmost eligible agent. */
  lemma {:induction false} ChoiceIsLeftmost(agents: seq<Agent>, leases: seq<Lease>, orgID: string, poolID: string, now: Time)
    ensures var i := Choice(agents, leases, orgID, poolID, now);
            && i <= |agents|
            && (i < |agents| ==> Eligible(agents[i], leases, orgID, poolID, now))
            && forall j :: 0 <= j < i ==> !Eligible(agents[j], leases, orgID, poolID, now)
  {
    hide Eligible;
    if agents != [] && !Eligible(agents[0], leases, orgID, poolID, now) {
      ChoiceIsLeftmost(agents[1..], leases, orgID, poolID, now);
    }
  }

  method SelectIdleAgent(agents: seq<Agent>, leases: seq<Lease>, orgID: string, poolID: string, now: Time)
      returns (agent: Agent, found: bool)
    ensures var i := Choice(agents, leases, orgID, poolID, now);
            (found <==> i < |agents|) && agent == if found then agents[i] else NO_AGENT
  {
    hide TrimSpace, MatchesNetwork;
    ChoiceIsLeftmost(agents, leases, orgID, poolID, now);
    ghost var first := Choice(agents, leases, orgID, poolID, now);
    for i := 0 to |agents|
      invariant i <= first
    {
      agent := agents[i];
      var matches := AgentMatchesNetwork(agent, orgID, poolID);
      if agent.status != AGENT_ONLINE || !matches {
        continue;
      }
      var busy := false;
      for k := 0 to |leases|
        invariant !Busy(agent.id, leases[..k], now)
      {
        if leases[k].workerID == agent.id && leases[k].expiresAt > now {
          busy := true;
          break;
        }
      }
      assert leases[..|leases|] == leases;
      if !busy {
        return agent, true;
      }
    }
    return NO_AGENT, false;
  }

  // ---------- Monotonicity ----------

  /** As time advances leases only expire: the choice never moves later. */
  lemma LaterNeverMovesLater(agents: seq<Agent>, leases: seq<Lease>, orgID: string, poolID: string, now: Time, later: Time)
    requires now <= later
    ensures Choice(agents, leases, orgID, poolID, later) <= Choice(agents, leases, orgID, poolID, now)
  {
  }

  /** More leases only make agents busy: the choice never moves earlier. */
  lemma MoreLeasesNeverMoveEarlier(agents: seq<Agent>, leases: seq<Lease>, more: seq<Lease>, orgID: string, poolID: string, now: Time)
    requires forall l :: l in leases ==> l in more
    ensures Choice(agents, leases, orgID, poolID, now) <= Choice(agents, more, orgID, poolID, now)
  {
  }

  // ---------- Allocation runs at a fixed instant ----------

  /** Each granted lease goes to the agent chosen at that moment and is still running. */
  ghost predicate AllocationRun(agents: seq<Agent>, leases: seq<Lease>, orgID: string, poolID: string, now: Time, granted: seq<Lease>)
    decreases |granted|
  {
    granted == [] ||
    var i := Choice(agents, leases, orgID, poolID, now);
    && i < |agents|
    && granted[0].workerID == agents[i].id && granted[0].expiresAt > now
    && AllocationRun(agents, leases + [granted[0]], orgID, poolID, now, granted[1..])
  }

  ghost function EligibleIDs(agents: seq<Agent>, leases: seq<Lease>, orgID: string, poolID: string, now: Time): set<string> {
    set i | 0 <= i < |agents| && Eligible(agents[i], leases, orgID, poolID, now) :: agents[i].id
  }

  /** A running lease takes exactly its worker out of the eligible identities. */
  lemma LeaseTakesOneID(agents: seq<Agent>, leases: seq<Lease>, orgID: string, poolID: string, now: Time, l: Lease)
    requires l.expiresAt > now
    ensures EligibleIDs(agents, leases + [l], orgID, poolID, now) == EligibleIDs(agents, leases, orgID, poolID, now) - {l.workerID}
  {
  }

  /** A run never grants the same identity twice, grants only initially eligible ones, and
    * the search fails after it exactly when every one of them has been granted. */
  lemma {:induction false} RunsExhaustTheEligible(agents: seq<Agent>, leases: seq<Lease>, orgID: string, poolID: string, now: Time, granted: seq<Lease>)
    requires AllocationRun(agents, leases, orgID, poolID, now, granted)
    ensures forall i, j :: 0 <= i < j < |granted| ==> granted[i].workerID != granted[j].workerID
    ensures forall i :: 0 <= i < |granted| ==> granted[i].workerID in EligibleIDs(agents, leases, orgID, poolID, now)
    ensures |granted| <= |EligibleIDs(agents, leases, orgID, poolID, now)|
    ensures Choice(agents, leases + granted, orgID, poolID, now) == |agents|
       <==> |granted| == |EligibleIDs(agents, leases, orgID, poolID, now)|
    decreases |granted|
  {
    hide Eligible, Choice;
    ChoiceIsLeftmost(agents, leases, orgID, poolID, now);
    var ids := EligibleIDs(agents, leases, orgID, poolID, now);
    if granted == [] {
      assert leases + granted == leases;
      var i := Choice(agents, leases, orgID, poolID, now);
      if i < |agents| {
        assert agents[i].id in ids;
      } else {
        assert ids == {};
      }
    } else {
      var l := granted[0];
      assert agents[Choice(agents, leases, orgID, poolID, now)].id in ids;
      LeaseTakesOneID(agents, leases, orgID, poolID, now, l);
      RunsExhaustTheEligible(agents, leases + [l], orgID, poolID, now, granted[1..]);
      assert leases + [l] + granted[1..] == leases + granted;
      assert granted == [l] + granted[1..];
    }
  }
}
