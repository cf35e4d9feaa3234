/** Which evidence a run of calls leaves in a profile, on the fields. */
module EvidenceRuns {
  import opened RuntimeProfiles
  import opened ConformanceEvidence
  import opened Identifiers
  import opened GoStrings

  /** A call records evidence in profile `i` exactly when that is the first profile with the
    * named id, the contract tuple agrees and the evidence is well formed. */
  lemma RecordsOnFields(c: Contract, run: seq<Evidence>, i: int, k: int)
    requires 0 <= i < |c.profiles| && 0 <= k < |run|
    ensures Records(c, run, i, k)
       <==> var e := run[k];
            && c.profiles[i].id == e.runtimeProfileID && (forall j :: 0 <= j < i ==> c.profiles[j].id != e.runtimeProfileID)
            && c.pluginID == e.pluginID && c.providerID == e.providerID && c.contractID == e.contractID && c.version == e.version
            && e.protocolVersion == "compute.v1alpha1"
            && ValidIdentifier(e.id) && ValidIdentifier(e.pluginID) && ValidIdentifier(e.providerID) && ValidIdentifier(e.contractID)
            && ValidIdentifier(e.runtimeProfileID) && ValidIdentifier(e.conformanceProfile)
            && TrimSpace(e.version) != "" && '\t' !in e.version && '\r' !in e.version && '\n' !in e.version && '\0' !in e.version
            && TrimSpace(e.upstreamClientName) != "" && TrimSpace(e.upstreamClientVersion) != ""
            && "artifact://" < e.evidenceRef && !Contains(e.evidenceRef, "..") && ValidSHA256Ref(e.evidenceDigest)
            && e.observedAt != 0
  {
    hide ValidIdentifier, TrimSpace, Contains, ValidSHA256Ref;
    var e := run[k];
    assert ContainsAny(e.version, "\t\r\n\0") <==> '\t' in e.version || '\r' in e.version || '\n' in e.version || '\0' in e.version by {
      if '\t' in e.version || '\r' in e.version || '\n' in e.version || '\0' in e.version {
        var x :| 0 <= x < |e.version| && e.version[x] in "\t\r\n\0";
      }
    }
    assert "artifact://" < e.evidenceRef <==> "artifact://" <= e.evidenceRef && e.evidenceRef != "artifact://";
  }

  // ---------- Taking a run apart at its last call ----------

  lemma {:induction false} LastCallLast(c: Contract, run: seq<Evidence>)
    requires run != []
    ensures AppliedAll(c, run) == Applied(AppliedAll(c, run[..|run| - 1]), run[|run| - 1])
    decreases |run|
  {
    hide Applied;
    if |run| > 1 {
      LastCallLast(Applied(c, run[0]), run[1..]);
      assert run[1..][..|run| - 2] == run[..|run| - 1][1..];
    }
  }

  lemma {:induction false} RecordsAnywhere(c: Contract, run: seq<Evidence>, f: Evidence)
    ensures Applies(AppliedAll(c, run), f) <==> Applies(c, f)
    ensures FirstWithID(AppliedAll(c, run).profiles, f.runtimeProfileID) == FirstWithID(c.profiles, f.runtimeProfileID)
    decreases |run|
  {
    hide Applied, Applies, FirstWithID;
    if run != [] {
      AppliesUnaffected(c, run[0], f);
      RecordsAnywhere(Applied(c, run[0]), run[1..], f);
    }
  }

  /** What the last call of a run does to profile `i`. */
  lemma LastCallEffect(c: Contract, run: seq<Evidence>, i: int)
    requires run != [] && 0 <= i < |c.profiles|
    ensures |AppliedAll(c, run).profiles| == |AppliedAll(c, run[..|run| - 1]).profiles| == |c.profiles|
    ensures var n := |run| - 1;
            var p, q := AppliedAll(c, run[..n]).profiles[i], AppliedAll(c, run).profiles[i];
            q == if Records(c, run, i, n) then WithEvidence(p, run[n]) else p
  {
    hide AppliedAll, ValidEvidence;
    LastCallLast(c, run);
    RecordsAnywhere(c, run[..|run| - 1], run[|run| - 1]);
    RunsKeepStructure(c, run);
    RunsKeepStructure(c, run[..|run| - 1]);
  }

  lemma RecordsOfPrefix(c: Contract, run: seq<Evidence>, i: int, n: nat)
    requires n + 1 == |run|
    ensures forall k :: Records(c, run[..n], i, k) <==> k < n && Records(c, run, i, k)
  {
    hide Applies, FirstWithID;
  }

  // ---------- The last record wins ----------

  /** After a run the profile carries the reference and digest of the last call that recorded
    * evidence in it, is a real-client profile, and is otherwise as before but for its
    * conformance list. */
  lemma {:induction false} LastRecordWins(c: Contract, run: seq<Evidence>, i: int, k: int)
    requires 0 <= i < |c.profiles| && Records(c, run, i, k) && forall j :: Records(c, run, i, j) ==> j <= k
    ensures |AppliedAll(c, run).profiles| == |c.profiles|
    ensures var p, q := c.profiles[i], AppliedAll(c, run).profiles[i];
            && q.upstreamClientEvidenceRef == run[k].evidenceRef
            && q.upstreamClientEvidenceDigest == run[k].evidenceDigest
            && q.upstreamClientConformance == "real-client"
            && q == p.(upstreamClientEvidenceRef := q.upstreamClientEvidenceRef,
                       upstreamClientEvidenceDigest := q.upstreamClientEvidenceDigest,
                       upstreamClientConformance := q.upstreamClientConformance,
                       conformanceProfiles := q.conformanceProfiles)
    decreases |run|
  {
    hide Records, AppliedAll;
    InRun(c, run, i, k);
    var n := |run| - 1;
    LastCallEffect(c, run, i);
    RecordsOfPrefix(c, run, i, n);
    OthersKept(c, run[..n], i);
    if k < n { LastRecordWins(c, run[..n], i, k); }
  }

  lemma InRun(c: Contract, run: seq<Evidence>, i: int, k: int)
    requires Records(c, run, i, k)
    ensures 0 <= k < |run|
  {
  }

  lemma {:induction false} OthersKept(c: Contract, run: seq<Evidence>, i: int)
    requires 0 <= i < |c.profiles|
    ensures |AppliedAll(c, run).profiles| == |c.profiles|
    ensures var p, q := c.profiles[i], AppliedAll(c, run).profiles[i];
            q == p.(upstreamClientEvidenceRef := q.upstreamClientEvidenceRef,
                    upstreamClientEvidenceDigest := q.upstreamClientEvidenceDigest,
                    upstreamClientConformance := q.upstreamClientConformance,
                    conformanceProfiles := q.conformanceProfiles)
    decreases |run|
  {
    hide Records;
    if run != [] {
      LastCallEffect(c, run, i);
      OthersKept(c, run[..|run| - 1], i);
    }
  }

  /** A profile in which no call recorded evidence is unchanged. */
  lemma {:induction false} NoRecordNoChange(c: Contract, run: seq<Evidence>, i: int)
    requires 0 <= i < |c.profiles| && forall k :: !Records(c, run, i, k)
    ensures |AppliedAll(c, run).profiles| == |c.profiles|
    ensures AppliedAll(c, run).profiles[i] == c.profiles[i]
    decreases |run|
  {
    hide Records;
    if run != [] {
      var n := |run| - 1;
      LastCallEffect(c, run, i);
      RecordsOfPrefix(c, run, i, n);
      NoRecordNoChange(c, run[..n], i);
    }
  }

  // ---------- The conformance list ----------

  /** Call `k` records evidence in profile `i` and names conformance profile `x`. */
  ghost predicate Names(c: Contract, run: seq<Evidence>, i: int, k: int, x: string) {
    0 <= k < |run| && Records(c, run, i, k) && run[k].conformanceProfile == x
  }

  ghost predicate OldOrRecorded(before: seq<string>, after: seq<string>, c: Contract, run: seq<Evidence>, i: int) {
    forall x :: x in after <==> x in before || exists k :: Names(c, run, i, k, x)
  }

  /** The tail holds names missing from `before`, each once. */
  ghost predicate AppendsNew(before: seq<string>, after: seq<string>) {
    && before <= after
    && (forall a :: |before| <= a < |after| ==> after[a] !in before)
    && (forall a, b :: |before| <= a < b < |after| ==> after[a] != after[b])
  }

  ghost predicate NamedBefore(c: Contract, run: seq<Evidence>, i: int, k: int, x: string) {
    exists j :: j < k && Names(c, run, i, j, x)
  }

  /** Whatever stands earlier in the tail was recorded before every record of what stands later. */
  ghost predicate InRecordingOrder(start: nat, after: seq<string>, c: Contract, run: seq<Evidence>, i: int) {
    forall a, b, k :: start <= a < b < |after| && Names(c, run, i, k, after[b])
      ==> NamedBefore(c, run, i, k, after[a])
  }

  ghost predicate AppendedByRun(before: seq<string>, after: seq<string>, c: Contract, run: seq<Evidence>, i: int) {
    AppendsNew(before, after) && OldOrRecorded(before, after, c, run, i) && InRecordingOrder(|before|, after, c, run, i)
  }

  lemma NamesOfPrefix(c: Contract, run: seq<Evidence>, i: int, n: nat)
    requires n + 1 == |run|
    ensures forall k, x :: Names(c, run[..n], i, k, x) <==> k < n && Names(c, run, i, k, x)
  {
    hide Records;
    RecordsOfPrefix(c, run, i, n);
  }

  lemma OneMoreMember(before: seq<string>, middle: seq<string>, after: seq<string>, c: Contract, run: seq<Evidence>, i: int, n: nat)
    requires n + 1 == |run| && OldOrRecorded(before, middle, c, run[..n], i)
    requires forall x :: x in after <==> x in middle || Names(c, run, i, n, x)
    ensures OldOrRecorded(before, after, c, run, i)
  {
    hide Records;
    NamesOfPrefix(c, run, i, n);
    NamesInRun(c, run, i);
    forall x ensures x in after <==> x in before || exists k :: Names(c, run, i, k, x) {
      if k :| Names(c, run, i, k, x) {
        if k < n { assert Names(c, run[..n], i, k, x); }
      }
    }
  }

  lemma NamesInRun(c: Contract, run: seq<Evidence>, i: int)
    ensures forall k, x :: Names(c, run, i, k, x) ==> 0 <= k < |run| && x == run[k].conformanceProfile
  {
    hide Records;
  }

  lemma OrderKept(before: seq<string>, middle: seq<string>, c: Contract, run: seq<Evidence>, i: int, n: nat)
    requires n + 1 == |run| && AppendedByRun(before, middle, c, run[..n], i)
    ensures InRecordingOrder(|before|, middle, c, run, i)
  {
    hide Records;
    NamesOfPrefix(c, run, i, n);
    NamesInRun(c, run, i);
    forall a, b, k | |before| <= a < b < |middle| && Names(c, run, i, k, middle[b])
      ensures NamedBefore(c, run, i, k, middle[a])
    {
      var k' :| Names(c, run[..n], i, k', middle[b]);
      var first := if k < n then k else k';
      var j :| j < first && Names(c, run[..n], i, j, middle[a]);
    }
  }

  lemma OrderExtended(before: seq<string>, middle: seq<string>, x: string, c: Contract, run: seq<Evidence>, i: int, n: nat)
    requires n + 1 == |run| && AppendedByRun(before, middle, c, run[..n], i) && x !in middle
    ensures InRecordingOrder(|before|, middle + [x], c, run, i)
  {
    hide Records;
    OrderKept(before, middle, c, run, i, n);
    NamesOfPrefix(c, run, i, n);
    NamesInRun(c, run, i);
    var after := middle + [x];
    forall a, b, k | |before| <= a < b < |after| && Names(c, run, i, k, after[b])
      ensures NamedBefore(c, run, i, k, after[a])
    {
      assert after[a] == middle[a];
      if b < |middle| {
        assert after[b] == middle[b];
      } else {
        assert k == n;
        var j :| Names(c, run[..n], i, j, middle[a]);
      }
    }
  }

  lemma OneMoreName(before: seq<string>, middle: seq<string>, after: seq<string>, c: Contract, run: seq<Evidence>, i: int, n: nat)
    requires n + 1 == |run| && AppendedByRun(before, middle, c, run[..n], i)
    requires after == if Records(c, run, i, n) && run[n].conformanceProfile !in middle then middle + [run[n].conformanceProfile] else middle
    ensures AppendedByRun(before, after, c, run, i)
  {
    hide Records, InRecordingOrder, OldOrRecorded;
    OneMoreMember(before, middle, after, c, run, i, n);
    if after == middle {
      OrderKept(before, middle, c, run, i, n);
    } else {
      OrderExtended(before, middle, run[n].conformanceProfile, c, run, i, n);
      assert forall y :: y in before ==> y in middle;
    }
  }

  /** After a run the conformance list is the old one, then the recorded names it lacked in
    * the order of their first recording. */
  lemma {:induction false} NamesAreAppended(c: Contract, run: seq<Evidence>, i: int)
    requires 0 <= i < |c.profiles|
    ensures |AppliedAll(c, run).profiles| == |c.profiles|
    ensures AppendedByRun(c.profiles[i].conformanceProfiles, AppliedAll(c, run).profiles[i].conformanceProfiles, c, run, i)
    decreases |run|
  {
    hide Records;
    if run == [] {
      assert forall k, x :: !Names(c, run, i, k, x);
    } else {
      var n := |run| - 1;
      LastCallEffect(c, run, i);
      NamesAreAppended(c, run[..n], i);
      hide AppendedByRun;
      OneMoreName(c.profiles[i].conformanceProfiles, AppliedAll(c, run[..n]).profiles[i].conformanceProfiles,
                  AppliedAll(c, run).profiles[i].conformanceProfiles, c, run, i, n);
    }
  }
}
