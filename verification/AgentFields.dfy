/** What the network profiles, the status and the leases of an agent mean for the selection. */
module AgentFields {
  import opened GoStrings
  import opened GoTime
  import opened AgentSelection

  /** The network the agent itself names. */
  ghost predicate OwnNetwork(a: Agent, orgID: string, poolID: string) {
    TrimSpace(a.orgID) == TrimSpace(orgID) && TrimSpace(a.poolID) == TrimSpace(poolID)
  }

  ghost predicate ForNetwork(p: NetworkProfile, orgID: string, poolID: string) {
    TrimSpace(p.orgID) == TrimSpace(orgID) && TrimSpace(p.poolID) == TrimSpace(poolID)
  }

  /** Eligibility from the fields alone. A lease that ends exactly now has ended. */
  lemma EligibleOnFields(a: Agent, leases: seq<Lease>, orgID: string, poolID: string, now: Time)
    ensures Eligible(a, leases, orgID, poolID, now)
       <==> && a.status == "online"
            && (forall l :: l in leases && l.workerID == a.id ==> l.expiresAt <= now)
            && (|| (exists p :: p in a.networks && !p.disabled && ForNetwork(p, orgID, poolID))
                || (OwnNetwork(a, orgID, poolID)
                    && forall p :: p in a.networks && ForNetwork(p, orgID, poolID) ==> TrimSpace(p.productID) != ""))
  {
    hide TrimSpace;
    forall p ensures Serves(p, orgID, poolID) <==> !p.disabled && ForNetwork(p, orgID, poolID) {}
    if OwnNetwork(a, orgID, poolID) {
      forall p ensures RestatesDefault(a, p) <==> TrimSpace(p.productID) == "" && ForNetwork(p, orgID, poolID) {}
    }
  }

  /** An agent whose own network is switched off, and which enables no profile for it, is never
    * chosen for it. */
  lemma SwitchedOffIsNeverChosen(agents: seq<Agent>, leases: seq<Lease>, orgID: string, poolID: string, now: Time, j: nat, d: NetworkProfile)
    requires j < |agents| && OwnNetwork(agents[j], orgID, poolID)
    requires d in agents[j].networks && d.disabled && TrimSpace(d.productID) == "" && ForNetwork(d, orgID, poolID)
    requires forall p :: p in agents[j].networks && ForNetwork(p, orgID, poolID) ==> p.disabled
    ensures Choice(agents, leases, orgID, poolID, now) != j
  {
    hide TrimSpace, Eligible, ForNetwork, OwnNetwork;
    ChoiceIsLeftmost(agents, leases, orgID, poolID, now);
    EligibleOnFields(agents[j], leases, orgID, poolID, now);
  }

  /** The same agent is back once that profile is enabled, or removed when no other profile
    * without product names the network: when online and idle it, or an agent before it, is chosen. */
  lemma SwitchedOnIsEligible(agents: seq<Agent>, leases: seq<Lease>, orgID: string, poolID: string, now: Time, j: nat,
                             before: seq<NetworkProfile>, d: NetworkProfile, after: seq<NetworkProfile>)
    requires j < |agents| && agents[j].networks == before + [d] + after
    requires OwnNetwork(agents[j], orgID, poolID) && ForNetwork(d, orgID, poolID)
    requires agents[j].status == "online" && forall l :: l in leases && l.workerID == agents[j].id ==> l.expiresAt <= now
    ensures var enabled := agents[j := agents[j].(networks := before + [d.(disabled := false)] + after)];
            Choice(enabled, leases, orgID, poolID, now) <= j
    ensures var removed := agents[j := agents[j].(networks := before + after)];
            (forall p :: p in before + after && ForNetwork(p, orgID, poolID) ==> TrimSpace(p.productID) != "")
            ==> Choice(removed, leases, orgID, poolID, now) <= j
  {
    hide TrimSpace, Eligible;
    var on := agents[j].(networks := before + [d.(disabled := false)] + after);
    var off := agents[j].(networks := before + after);
    assert on.networks[|before|] == d.(disabled := false) && d.(disabled := false) in on.networks;
    assert ForNetwork(d.(disabled := false), orgID, poolID) && OwnNetwork(off, orgID, poolID);
    assert agents[j := on][j] == on && agents[j := off][j] == off;
    hide ForNetwork, OwnNetwork, Choice;
    EligibleOnFields(on, leases, orgID, poolID, now);
    EligibleOnFields(off, leases, orgID, poolID, now);
    ChoiceIsLeftmost(agents[j := on], leases, orgID, poolID, now);
    ChoiceIsLeftmost(agents[j := off], leases, orgID, poolID, now);
  }

  /** A disabled profile that names a product or another network than the agent's own has no
    * effect at all. */
  lemma OtherDisabledProfilesIgnored(a: Agent, leases: seq<Lease>, orgID: string, poolID: string, now: Time,
                                     before: seq<NetworkProfile>, d: NetworkProfile, after: seq<NetworkProfile>)
    requires d.disabled && (TrimSpace(d.productID) != "" || !ForNetwork(d, a.orgID, a.poolID))
    ensures Eligible(a.(networks := before + [d] + after), leases, orgID, poolID, now)
       <==> Eligible(a.(networks := before + after), leases, orgID, poolID, now)
  {
    hide TrimSpace, Eligible;
    var long, short := a.(networks := before + [d] + after), a.(networks := before + after);
    EligibleOnFields(long, leases, orgID, poolID, now);
    EligibleOnFields(short, leases, orgID, poolID, now);
    assert forall p :: p in long.networks <==> p == d || p in short.networks;
  }

  /** The choice depends on which profiles and leases there are, not on their order, and not on
    * white space around the requested names. */
  lemma OrderAndPaddingIgnored(agents: seq<Agent>, agents': seq<Agent>, leases: seq<Lease>, leases': seq<Lease>,
                               orgID: string, poolID: string, orgID': string, poolID': string, now: Time)
    requires |agents| == |agents'|
    requires forall j :: 0 <= j < |agents| ==> agents'[j] == agents[j].(networks := agents'[j].networks)
    requires forall j, p :: 0 <= j < |agents| ==> (p in agents[j].networks <==> p in agents'[j].networks)
    requires forall l :: l in leases <==> l in leases'
    requires TrimSpace(orgID) == TrimSpace(orgID') && TrimSpace(poolID) == TrimSpace(poolID')
    ensures Choice(agents, leases, orgID, poolID, now) == Choice(agents', leases', orgID', poolID', now)
  {
    hide TrimSpace, Eligible, Choice;
    forall j | 0 <= j < |agents|
      ensures Eligible(agents[j], leases, orgID, poolID, now) <==> Eligible(agents'[j], leases', orgID', poolID', now)
    {
      SameFieldsSameVerdict(agents[j], agents'[j], leases, leases', orgID, poolID, orgID', poolID', now);
    }
    ChoiceIsLeftmost(agents, leases, orgID, poolID, now);
    ChoiceIsLeftmost(agents', leases', orgID', poolID', now);
  }

  lemma SameFieldsSameVerdict(a: Agent, b: Agent, leases: seq<Lease>, leases': seq<Lease>,
                              orgID: string, poolID: string, orgID': string, poolID': string, now: Time)
    requires b == a.(networks := b.networks) && forall p :: p in a.networks <==> p in b.networks
    requires forall l :: l in leases <==> l in leases'
    requires TrimSpace(orgID) == TrimSpace(orgID') && TrimSpace(poolID) == TrimSpace(poolID')
    ensures Eligible(a, leases, orgID, poolID, now) <==> Eligible(b, leases', orgID', poolID', now)
  {
    hide TrimSpace, Eligible;
    EligibleOnFields(a, leases, orgID, poolID, now);
    EligibleOnFields(b, leases', orgID', poolID', now);
  }

  /** From any state some run grants every eligible identity, and the search then fails. */
  lemma {:induction false} SomeRunGrantsAll(agents: seq<Agent>, leases: seq<Lease>, orgID: string, poolID: string, now: Time)
      returns (granted: seq<Lease>)
    ensures AllocationRun(agents, leases, orgID, poolID, now, granted)
    ensures Choice(agents, leases + granted, orgID, poolID, now) == |agents|
    ensures |granted| == |EligibleIDs(agents, leases, orgID, poolID, now)|
    decreases EligibleIDs(agents, leases, orgID, poolID, now)
  {
    hide Eligible, Choice;
    ChoiceIsLeftmost(agents, leases, orgID, poolID, now);
    var i := Choice(agents, leases, orgID, poolID, now);
    if i >= |agents| {
      granted := [];
      assert leases + granted == leases;
    } else {
      var l := Lease(agents[i].id, now + 1);
      assert agents[i].id in EligibleIDs(agents, leases, orgID, poolID, now);
      LeaseTakesOneID(agents, leases, orgID, poolID, now, l);
      var rest := SomeRunGrantsAll(agents, leases + [l], orgID, poolID, now);
      granted := [l] + rest;
      assert leases + [l] + rest == leases + granted && granted[1..] == rest;
    }
    RunsExhaustTheEligible(agents, leases, orgID, poolID, now, granted);
  }

  /** In a run every lease goes to the agent chosen after the leases before it. */
  lemma {:induction false} EveryGrantFollowsTheChoice(agents: seq<Agent>, leases: seq<Lease>, orgID: string, poolID: string, now: Time,
                                                      granted: seq<Lease>, k: nat)
    requires AllocationRun(agents, leases, orgID, poolID, now, granted) && k < |granted|
    ensures var i := Choice(agents, leases + granted[..k], orgID, poolID, now);
            i < |agents| && granted[k].workerID == agents[i].id && now < granted[k].expiresAt
    decreases |granted|
  {
    hide Choice;
    if k == 0 {
      assert leases + granted[..0] == leases;
    } else {
      EveryGrantFollowsTheChoice(agents, leases + [granted[0]], orgID, poolID, now, granted[1..], k - 1);
      assert leases + [granted[0]] + granted[1..][..k - 1] == leases + granted[..k];
    }
  }
}
