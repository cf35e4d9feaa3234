/** Recording upstream-client conformance evidence in a provider contract, in place. */
module ConformanceEvidence {
  import opened GoStrings
  import opened GoTime
  import opened Identifiers
  import opened Placement
  import opened RuntimeProfiles
  import ProfileIDs
  import RuntimeGrid

  datatype Evidence = Evidence(
    protocolVersion: string, id: string, pluginID: string, providerID: string, contractID: string, version: string,
    runtimeProfileID: string, conformanceProfile: string, upstreamClientName: string, upstreamClientVersion: string,
    evidenceRef: string, evidenceDigest: string, observedAt: Time)

  predicate ValidEvidence(e: Evidence) {
    && e.protocolVersion == VERSION
    && ValidIdentifier(e.id) && ValidIdentifier(e.pluginID) && ValidIdentifier(e.providerID)
    && ValidIdentifier(e.contractID) && ValidIdentifier(e.runtimeProfileID) && ValidIdentifier(e.conformanceProfile)
    && TrimSpace(e.version) != "" && !ContainsAny(e.version, "\t\r\n\0")
    && TrimSpace(e.upstreamClientName) != "" && TrimSpace(e.upstreamClientVersion) != ""
    && ValidEvidenceFields(e.evidenceRef, e.evidenceDigest)
    && !IsZero(e.observedAt)
  }

  /** The contract as a value. `otherFieldsValid` is the verdict of the checks that read only
    * fields outside the runtime contract. */
  datatype Contract = Contract(
    pluginID: string, providerID: string, contractID: string, version: string, profiles: seq<Profile>, otherFieldsValid: bool)

  predicate SameTuple(c: Contract, e: Evidence) {
    e.pluginID == c.pluginID && e.providerID == c.providerID && e.contractID == c.contractID && e.version == c.version
  }

  function FirstWithID(profiles: seq<Profile>, id: string): (i: nat)
    ensures i <= |profiles|
    ensures i < |profiles| ==> profiles[i].id == id
    ensures forall j :: 0 <= j < i ==> profiles[j].id != id
  {
    if profiles == [] || profiles[0].id == id then 0 else 1 + FirstWithID(profiles[1..], id)
  }

  function WithEvidence(p: Profile, e: Evidence): Profile {
    p.(upstreamClientConformance := REAL_CLIENT,
       upstreamClientEvidenceRef := e.evidenceRef,
       upstreamClientEvidenceDigest := e.evidenceDigest,
       conformanceProfiles := if e.conformanceProfile in p.conformanceProfiles then p.conformanceProfiles
                              else p.conformanceProfiles + [e.conformanceProfile])
  }

  /** The evidence is accepted and names a profile of this contract. */
  predicate Applies(c: Contract, e: Evidence) {
    ValidEvidence(e) && SameTuple(c, e) && FirstWithID(c.profiles, e.runtimeProfileID) < |c.profiles|
  }

  function Applied(c: Contract, e: Evidence): Contract {
    if Applies(c, e) then
      var i := FirstWithID(c.profiles, e.runtimeProfileID);
      c.(profiles := c.profiles[i := WithEvidence(c.profiles[i], e)])
    else c
  }

  class ProviderContract {
    var pluginID: string
    var providerID: string
    var contractID: string
    var version: string
    var profiles: array<Profile>
    var otherFieldsValid: bool

    ghost function Value(): Contract
      reads this, profiles
    {
      Contract(pluginID, providerID, contractID, version, profiles[..], otherFieldsValid)
    }

    constructor (pluginID: string, providerID: string, contractID: string, version: string, profiles: array<Profile>, otherFieldsValid: bool)
      ensures this.profiles == profiles
      ensures Value() == Contract(pluginID, providerID, contractID, version, profiles[..], otherFieldsValid)
    {
      this.pluginID, this.providerID, this.contractID, this.version := pluginID, providerID, contractID, version;
      this.profiles, this.otherFieldsValid := profiles, otherFieldsValid;
    }

    /** Writes through the shared profile array; false is the source's error return, a nil
      * receiver included. */
    static method ApplyProviderConformanceEvidence(c: ProviderContract?, evidence: Evidence) returns (ok: bool)
      modifies if c == null then {} else {c.profiles}
      ensures c == null ==> !ok
      ensures c != null ==> ok == Applies(old(c.Value()), evidence) && c.Value() == Applied(old(c.Value()), evidence)
    {
      hide ValidEvidence;
      if c == null {
        return false;
      }
      if !ValidEvidence(evidence) {
        return false;
      }
      if evidence.pluginID != c.pluginID || evidence.providerID != c.providerID
         || evidence.contractID != c.contractID || evidence.version != c.version {
        return false;
      }
      var profiles := c.profiles;
      ghost var first := FirstWithID(profiles[..], evidence.runtimeProfileID);
      for i := 0 to profiles.Length
        invariant i <= first && profiles[..] == old(profiles[..])
      {
        if profiles[i].id != evidence.runtimeProfileID {
          continue;
        }
        profiles[i] := profiles[i].(upstreamClientConformance := REAL_CLIENT);
        profiles[i] := profiles[i].(upstreamClientEvidenceRef := evidence.evidenceRef);
        profiles[i] := profiles[i].(upstreamClientEvidenceDigest := evidence.evidenceDigest);
        if evidence.conformanceProfile !in profiles[i].conformanceProfiles {
          profiles[i] := profiles[i].(conformanceProfiles := profiles[i].conformanceProfiles + [evidence.conformanceProfile]);
        }
        assert profiles[..] == old(profiles[..])[i := WithEvidence(old(profiles[i]), evidence)];
        return true;
      }
      return false;
    }
  }

  // ---------- One application ----------

  /** Only the first profile with the named id can differ, and no id, placement, tuple or
    * lookup changes. */
  lemma OnlyTheNamedProfileChanges(c: Contract, e: Evidence)
    ensures |Applied(c, e).profiles| == |c.profiles|
    ensures Applied(c, e).(profiles := c.profiles) == c
    ensures forall i :: 0 <= i < |c.profiles| && i != FirstWithID(c.profiles, e.runtimeProfileID)
              ==> Applied(c, e).profiles[i] == c.profiles[i]
    ensures forall i :: 0 <= i < |c.profiles| ==> Applied(c, e).profiles[i].id == c.profiles[i].id
    ensures forall req :: FirstMatch(Applied(c, e).profiles, req) == FirstMatch(c.profiles, req)
    ensures forall id :: FirstWithID(Applied(c, e).profiles, id) == FirstWithID(c.profiles, id)
  {
    hide ValidEvidence;
    var d := Applied(c, e);
    forall req ensures FirstMatch(d.profiles, req) == FirstMatch(c.profiles, req) {
      SameFirstMatch(c.profiles, d.profiles, req);
    }
    forall id ensures FirstWithID(d.profiles, id) == FirstWithID(c.profiles, id) {
      SameFirstWithID(c.profiles, d.profiles, id);
    }
  }

  lemma SameFirstMatch(a: seq<Profile>, b: seq<Profile>, req: Requirements)
    requires |a| == |b| && forall i :: 0 <= i < |a| ==> (Meets(a[i], req) <==> Meets(b[i], req))
    ensures FirstMatch(a, req) == FirstMatch(b, req)
  {
  }

  lemma SameFirstWithID(a: seq<Profile>, b: seq<Profile>, id: string)
    requires |a| == |b| && forall i :: 0 <= i < |a| ==> a[i].id == b[i].id
    ensures FirstWithID(a, id) == FirstWithID(b, id)
  {
  }

  /** Applying the same evidence again succeeds or fails as before and changes nothing more. */
  lemma ApplyingTwiceIsOnce(c: Contract, e: Evidence)
    ensures Applies(Applied(c, e), e) <==> Applies(c, e)
    ensures Applied(Applied(c, e), e) == Applied(c, e)
  {
    hide ValidEvidence;
    OnlyTheNamedProfileChanges(c, e);
    if Applies(c, e) {
      var i, d := FirstWithID(c.profiles, e.runtimeProfileID), Applied(c, e);
      assert WithEvidence(d.profiles[i], e) == d.profiles[i];
      assert d.profiles[i := d.profiles[i]] == d.profiles;
    }
  }

  /** Evidence about different profiles can be recorded in either order. */
  lemma DifferentProfilesCommute(c: Contract, e: Evidence, f: Evidence)
    requires e.runtimeProfileID != f.runtimeProfileID
    ensures Applied(Applied(c, e), f) == Applied(Applied(c, f), e)
  {
    hide ValidEvidence;
    OnlyTheNamedProfileChanges(c, e);
    OnlyTheNamedProfileChanges(c, f);
    var ef, fe := Applied(Applied(c, e), f), Applied(Applied(c, f), e);
    assert ef.profiles == fe.profiles;
  }

  ghost predicate ConformanceListsDistinct(c: Contract) {
    forall i :: 0 <= i < |c.profiles| ==> Distinct(c.profiles[i].conformanceProfiles)
  }

  lemma DistinctnessKept(c: Contract, e: Evidence)
    requires ConformanceListsDistinct(c)
    ensures ConformanceListsDistinct(Applied(c, e))
  {
  }

  // ---------- Validity ----------

  predicate RequiresUpstreamConformance(pluginID: string) {
    pluginID == "workflow-plugin-volunteer-science" || pluginID == "workflow-plugin-crypto"
  }

  /** What ProviderContract.Validate accepts. */
  ghost predicate Valid(c: Contract, componentOK: string -> bool) {
    && c.otherFieldsValid
    && ValidContract(c.profiles, componentOK)
    && (RequiresUpstreamConformance(c.pluginID) ==>
          forall i :: 0 <= i < |c.profiles| ==> c.profiles[i].upstreamClientConformance != "")
  }

  lemma ProfileStaysValid(p: Profile, e: Evidence, componentOK: string -> bool)
    requires ValidProfile(p, componentOK) && ValidEvidence(e)
    ensures ValidProfile(WithEvidence(p, e), componentOK)
       <==> e.conformanceProfile == UPSTREAM_CLIENT || UPSTREAM_CLIENT in p.conformanceProfiles
  {
    hide ValidIdentifier, ValidEvidenceFields, ValidResidue, WASMRules, ContainerRules, PermissionRules,
         ValidTier, ValidProof, ValidRuntimeProfile, ValidContainerPath, ValidCapability;
    var q := WithEvidence(p, e);
    assert UsesWASM(q) <==> UsesWASM(p);
    assert PlacementRules(q, componentOK) by {
      PlacementUnaffected(p, q, componentOK);
    }
    assert ConformanceRules(q);
  }

  lemma PlacementUnaffected(p: Profile, q: Profile, componentOK: string -> bool)
    requires PlacementRules(p, componentOK)
    requires q.(conformanceProfiles := p.conformanceProfiles, upstreamClientConformance := p.upstreamClientConformance,
                upstreamClientEvidenceRef := p.upstreamClientEvidenceRef,
                upstreamClientEvidenceDigest := p.upstreamClientEvidenceDigest) == p
    ensures PlacementRules(q, componentOK)
  {
  }

  /** A valid contract stays valid under applicable evidence exactly when the evidence names
    * the upstream-client profile or the named runtime profile already lists it. */
  lemma ValidityUnderEvidence(c: Contract, e: Evidence, componentOK: string -> bool)
    requires Valid(c, componentOK) && Applies(c, e)
    ensures Valid(Applied(c, e), componentOK)
       <==> || e.conformanceProfile == UPSTREAM_CLIENT
            || UPSTREAM_CLIENT in c.profiles[FirstWithID(c.profiles, e.runtimeProfileID)].conformanceProfiles
  {
    hide ValidEvidence, ValidProfile;
    var i, d := FirstWithID(c.profiles, e.runtimeProfileID), Applied(c, e);
    ProfileStaysValid(c.profiles[i], e, componentOK);
    assert d.profiles[i] == WithEvidence(c.profiles[i], e);
    assert forall j :: 0 <= j < |c.profiles| && j != i ==> d.profiles[j] == c.profiles[j];
    assert forall j :: 0 <= j < |c.profiles| ==> d.profiles[j].id == c.profiles[j].id;
  }

  // ---------- Runs ----------

  function AppliedAll(c: Contract, run: seq<Evidence>): Contract
    decreases |run|
  {
    if run == [] then c else AppliedAll(Applied(c, run[0]), run[1..])
  }

  /** Over any run of calls, failed ones included: identities, tuple, lookups and the
    * distinctness of conformance lists are kept. */
  lemma {:induction false} RunsKeepStructure(c: Contract, run: seq<Evidence>)
    ensures var d := AppliedAll(c, run);
            && |d.profiles| == |c.profiles| && d.(profiles := c.profiles) == c
            && (forall i :: 0 <= i < |c.profiles| ==> d.profiles[i].id == c.profiles[i].id)
            && (forall req :: FirstMatch(d.profiles, req) == FirstMatch(c.profiles, req))
            && (ConformanceListsDistinct(c) ==> ConformanceListsDistinct(d))
    ensures forall i :: 0 <= i < |c.profiles| && (forall k :: 0 <= k < |run| ==> FirstWithID(c.profiles, run[k].runtimeProfileID) != i)
              ==> AppliedAll(c, run).profiles[i] == c.profiles[i]
    decreases |run|
  {
    if run != [] {
      hide Applied, Applies;
      var c1 := Applied(c, run[0]);
      OnlyTheNamedProfileChanges(c, run[0]);
      if ConformanceListsDistinct(c) { DistinctnessKept(c, run[0]); }
      RunsKeepStructure(c1, run[1..]);
      var d := AppliedAll(c, run);
      forall i | 0 <= i < |c.profiles| && (forall k :: 0 <= k < |run| ==> FirstWithID(c.profiles, run[k].runtimeProfileID) != i)
        ensures d.profiles[i] == c.profiles[i]
      {
        assert FirstWithID(c.profiles, run[0].runtimeProfileID) != i;
        forall k | 0 <= k < |run[1..]| ensures FirstWithID(c1.profiles, run[1..][k].runtimeProfileID) != i {
          assert run[1..][k] == run[k + 1];
        }
      }
    }
  }

  /** Call `k` of the run records evidence in profile `i`. */
  ghost predicate Records(c: Contract, run: seq<Evidence>, i: int, k: int) {
    0 <= k < |run| && Applies(c, run[k]) && FirstWithID(c.profiles, run[k].runtimeProfileID) == i
  }

  /** Call `k` names upstream-client-v1 while recording evidence in profile `i`. */
  ghost predicate RecordsUpstream(c: Contract, run: seq<Evidence>, i: int, k: int) {
    Records(c, run, i, k) && run[k].conformanceProfile == UPSTREAM_CLIENT
  }

  /** Valid, except that a real-client profile may fail to list upstream-client-v1. */
  predicate NearlyValidProfile(p: Profile, componentOK: string -> bool) {
    && ValidIdentifier(p.id) && PlacementRules(p, componentOK) && ConformanceRules(p)
    && (|| p.upstreamClientConformance == "" || p.upstreamClientConformance == SHAPE_ONLY
        || (p.upstreamClientConformance == REAL_CLIENT
            && ValidEvidenceFields(p.upstreamClientEvidenceRef, p.upstreamClientEvidenceDigest)))
  }

  predicate RealClientListed(p: Profile) {
    p.upstreamClientConformance == REAL_CLIENT ==> UPSTREAM_CLIENT in p.conformanceProfiles
  }

  ghost predicate NearlyValid(c: Contract, componentOK: string -> bool) {
    && c.otherFieldsValid && c.profiles != []
    && (forall i :: 0 <= i < |c.profiles| ==> NearlyValidProfile(c.profiles[i], componentOK))
    && (forall i, j :: 0 <= i < j < |c.profiles| ==> c.profiles[i].id != c.profiles[j].id)
    && (RequiresUpstreamConformance(c.pluginID) ==>
          forall i :: 0 <= i < |c.profiles| ==> c.profiles[i].upstreamClientConformance != "")
  }

  lemma NearlyValidAndListed(p: Profile, componentOK: string -> bool)
    ensures ValidProfile(p, componentOK) <==> NearlyValidProfile(p, componentOK) && RealClientListed(p)
  {
    hide ValidIdentifier, PlacementRules, ConformanceRules, ValidEvidenceFields;
  }

  lemma ValidIsNearlyValidAndListed(c: Contract, componentOK: string -> bool)
    ensures Valid(c, componentOK)
       <==> NearlyValid(c, componentOK) && forall i :: 0 <= i < |c.profiles| ==> RealClientListed(c.profiles[i])
  {
    hide ValidProfile, NearlyValidProfile, RealClientListed;
    forall i | 0 <= i < |c.profiles|
      ensures ValidProfile(c.profiles[i], componentOK)
         <==> NearlyValidProfile(c.profiles[i], componentOK) && RealClientListed(c.profiles[i])
    {
      NearlyValidAndListed(c.profiles[i], componentOK);
    }
  }

  lemma ProfileStaysNearlyValid(p: Profile, e: Evidence, componentOK: string -> bool)
    requires NearlyValidProfile(p, componentOK) && ValidEvidence(e)
    ensures NearlyValidProfile(WithEvidence(p, e), componentOK)
  {
    hide ValidIdentifier, ValidEvidenceFields, PlacementRules;
    PlacementUnaffected(p, WithEvidence(p, e), componentOK);
  }

  lemma CallKeepsNearlyValid(c: Contract, e: Evidence, componentOK: string -> bool)
    requires NearlyValid(c, componentOK)
    ensures NearlyValid(Applied(c, e), componentOK)
  {
    hide ValidEvidence, NearlyValidProfile;
    if Applies(c, e) {
      ProfileStaysNearlyValid(c.profiles[FirstWithID(c.profiles, e.runtimeProfileID)], e, componentOK);
      OnlyTheNamedProfileChanges(c, e);
    }
  }

  lemma {:induction false} RunKeepsNearlyValid(c: Contract, run: seq<Evidence>, componentOK: string -> bool)
    requires NearlyValid(c, componentOK)
    ensures NearlyValid(AppliedAll(c, run), componentOK)
    decreases |run|
  {
    hide NearlyValid, Applied;
    if run != [] {
      CallKeepsNearlyValid(c, run[0], componentOK);
      RunKeepsNearlyValid(Applied(c, run[0]), run[1..], componentOK);
    }
  }

  lemma AppliesUnaffected(c: Contract, e: Evidence, f: Evidence)
    ensures Applies(Applied(c, e), f) <==> Applies(c, f)
    ensures FirstWithID(Applied(c, e).profiles, f.runtimeProfileID) == FirstWithID(c.profiles, f.runtimeProfileID)
  {
    hide ValidEvidence;
    OnlyTheNamedProfileChanges(c, e);
  }

  // What the first call leaves of the records of a run.
  lemma RecordsOfRest(c: Contract, run: seq<Evidence>, i: int)
    requires run != []
    ensures forall k :: Records(Applied(c, run[0]), run[1..], i, k) <==> k >= 0 && Records(c, run, i, k + 1)
  {
    hide Applied, Applies, FirstWithID;
    forall k | 0 <= k < |run[1..]|
      ensures Records(Applied(c, run[0]), run[1..], i, k) <==> Records(c, run, i, k + 1)
    {
      AppliesUnaffected(c, run[0], run[k + 1]);
    }
  }

  lemma FirstCallEffect(c: Contract, e: Evidence, i: int)
    requires 0 <= i < |c.profiles|
    ensures var p, q := c.profiles[i], Applied(c, e).profiles[i];
            var records := Applies(c, e) && FirstWithID(c.profiles, e.runtimeProfileID) == i;
            && (q.upstreamClientConformance == REAL_CLIENT <==> p.upstreamClientConformance == REAL_CLIENT || records)
            && (UPSTREAM_CLIENT in q.conformanceProfiles
                <==> UPSTREAM_CLIENT in p.conformanceProfiles || (records && e.conformanceProfile == UPSTREAM_CLIENT))
  {
    hide ValidEvidence;
  }

  /** What a run leaves in profile `i`: real-client exactly if it was or some call recorded
    * evidence there, and upstream-client-v1 listed exactly if it was or such a call named it. */
  lemma {:induction false} RunEffect(c: Contract, run: seq<Evidence>, i: int)
    requires 0 <= i < |c.profiles|
    ensures |AppliedAll(c, run).profiles| == |c.profiles|
    ensures var p, q := c.profiles[i], AppliedAll(c, run).profiles[i];
            && (q.upstreamClientConformance == REAL_CLIENT
                <==> p.upstreamClientConformance == REAL_CLIENT || exists k :: Records(c, run, i, k))
            && (UPSTREAM_CLIENT in q.conformanceProfiles
                <==> UPSTREAM_CLIENT in p.conformanceProfiles || exists k :: RecordsUpstream(c, run, i, k))
    decreases |run|
  {
    if run != [] {
      var d := Applied(c, run[0]);
      OnlyTheNamedProfileChanges(c, run[0]);
      FirstCallEffect(c, run[0], i);
      RecordsOfRest(c, run, i);
      RunEffect(d, run[1..], i);
      RecordsSplit(c, run, i);
    }
  }

  // A record of the run is the first call's or one of the rest.
  lemma RecordsSplit(c: Contract, run: seq<Evidence>, i: int)
    requires run != []
    ensures (exists k :: Records(c, run, i, k)) <==> Records(c, run, i, 0) || exists k :: Records(Applied(c, run[0]), run[1..], i, k)
    ensures (exists k :: RecordsUpstream(c, run, i, k))
       <==> RecordsUpstream(c, run, i, 0) || exists k :: RecordsUpstream(Applied(c, run[0]), run[1..], i, k)
  {
    hide Applied, Applies, FirstWithID;
    RecordsOfRest(c, run, i);
    var d := Applied(c, run[0]);
    forall k | Records(c, run, i, k) ensures k == 0 || Records(d, run[1..], i, k - 1) {
      assert k > 0 ==> Records(c, run, i, (k - 1) + 1);
    }
    forall k | RecordsUpstream(c, run, i, k) ensures k == 0 || RecordsUpstream(d, run[1..], i, k - 1) {
    }
    forall k | RecordsUpstream(d, run[1..], i, k) ensures RecordsUpstream(c, run, i, k + 1) {
    }
  }

  /** Exactly when a run leaves a valid contract valid, whatever happens in between: every
    * profile in which some call records evidence lists upstream-client-v1 beforehand, or one
    * of those calls names it. */
  lemma RunValidity(c: Contract, run: seq<Evidence>, componentOK: string -> bool)
    requires Valid(c, componentOK)
    ensures Valid(AppliedAll(c, run), componentOK)
       <==> forall i :: 0 <= i < |c.profiles| && (exists k :: Records(c, run, i, k)) ==>
              UPSTREAM_CLIENT in c.profiles[i].conformanceProfiles || exists k :: RecordsUpstream(c, run, i, k)
  {
    hide Valid, NearlyValid, Records, RecordsUpstream;
    var d := AppliedAll(c, run);
    ValidIsNearlyValidAndListed(c, componentOK);
    ValidIsNearlyValidAndListed(d, componentOK);
    RunKeepsNearlyValid(c, run, componentOK);
    RunsKeepStructure(c, run);
    forall i | 0 <= i < |c.profiles|
      ensures RealClientListed(d.profiles[i])
         <==> ((exists k :: Records(c, run, i, k)) ==>
                UPSTREAM_CLIENT in c.profiles[i].conformanceProfiles || exists k :: RecordsUpstream(c, run, i, k))
    {
      RunEffect(c, run, i);
      assert RealClientListed(c.profiles[i]);
    }
  }

  /** In particular, a valid contract stays valid over any run whose evidence names
    * upstream-client-v1. */
  lemma RunsKeepValidity(c: Contract, run: seq<Evidence>, componentOK: string -> bool)
    requires Valid(c, componentOK) && forall e :: e in run ==> e.conformanceProfile == UPSTREAM_CLIENT
    ensures Valid(AppliedAll(c, run), componentOK)
  {
    hide Valid, Applies;
    RunValidity(c, run, componentOK);
    forall i, k | Records(c, run, i, k) ensures RecordsUpstream(c, run, i, k) {
      assert run[k] in run;
    }
  }

  // ---------- Evidence that loses validity ----------

  lemma SampleFieldsAreValid(digest: string)
    requires digest == "sha256:" + seq(64, _ => '0')
    ensures ValidEvidenceFields(SAMPLE_REF, digest)
  {
    SampleRefIsScoped();
  }

  lemma SampleNamesAreValid()
    ensures ValidIdentifier("p") && ValidIdentifier("q") && ValidIdentifier("r") && ValidIdentifier("x") && ValidIdentifier("other")
    ensures TrimSpace("1") != "" && !ContainsAny("1", "\t\r\n\0")
  {
    hide ValidIdentifier;
    ProfileIDs.PlainIdentifier("p");
    ProfileIDs.PlainIdentifier("q");
    ProfileIDs.PlainIdentifier("r");
    ProfileIDs.PlainIdentifier("x");
    ProfileIDs.PlainIdentifier("other");
  }

  /** A valid contract, applicable evidence, an invalid result. */
  lemma EvidenceCanInvalidate(componentOK: string -> bool)
    ensures exists c: Contract, e: Evidence ::
              Valid(c, componentOK) && Applies(c, e) && !Valid(Applied(c, e), componentOK)
  {
    var o := RuntimeGrid.Options([], "", "", "");
    var p := RuntimeGrid.Cell("x", "microvm", "zk-replay", o);
    var digest := "sha256:" + seq(64, _ => '0');
    var c := Contract("p", "q", "r", "1", [p], true);
    var e := Evidence(VERSION, "x", "p", "q", "r", "1", p.id, "other", "1", "1", SAMPLE_REF, digest, UNIX_EPOCH);
    RuntimeGrid.CellPlacement("x", "microvm", "zk-replay", o);
    assert p.upstreamClientConformance == "" && UPSTREAM_CLIENT !in p.conformanceProfiles;
    hide RuntimeGrid.Cell, RuntimeGrid.ProfileID, ValidProfile, ValidIdentifier, ValidEvidenceFields, TrimSpace, ContainsAny;
    SampleNamesAreValid();
    SampleFieldsAreValid(digest);
    ProfileIDs.IDIsIdentifier("x", "microvm", "zk-replay");
    ProfileIDs.CellValidity("x", "microvm", "zk-replay", o, componentOK);
    assert Applies(c, e) && Valid(c, componentOK);
    ValidityUnderEvidence(c, e, componentOK);
  }

  /** Only the contracts of two plugins must state their upstream conformance. */
  lemma UpstreamStatementRequired(c: Contract, componentOK: string -> bool)
    ensures Valid(c, componentOK)
       <==> && c.otherFieldsValid && ValidContract(c.profiles, componentOK)
            && (c.pluginID in ["workflow-plugin-volunteer-science", "workflow-plugin-crypto"] ==>
                  forall p :: p in c.profiles ==> p.upstreamClientConformance in ["shape-only", "real-client"])
  {
    hide ValidIdentifier, PlacementRules, ConformanceRules;
    if ValidContract(c.profiles, componentOK) {
      forall p | p in c.profiles
        ensures p.upstreamClientConformance != "" <==> p.upstreamClientConformance in ["shape-only", "real-client"]
      {
        assert ValidProfile(p, componentOK);
      }
    }
  }
}
