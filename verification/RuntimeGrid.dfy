/** The default runtime contract: every executor with every tier with every proof. */
module RuntimeGrid {
  import opened Placement
  import opened RuntimeProfiles

  datatype Options = Options(
    conformanceProfiles: seq<string>, upstreamClientConformance: string,
    upstreamClientEvidenceRef: string, upstreamClientEvidenceDigest: string)

  const BUILD := "sandboxed-container-build"
  const SERVICE := "service-sandboxed-container"
  const NODE_SERVICE := "node-service-sandboxed-container"
  const WASM := "wasm-component"

  function ProfileID(executor: string, tier: string, proof: string): string {
    executor + "-" + tier + "-" + proof + "-runtime"
  }

  function DefaultProfile(executor: string, tier: string, proof: string): Profile {
    var base := Profile(
      ProfileID(executor, tier, proof), SANDBOXED_OCI, executor, tier, proof, ["podman", "docker", "nerdctl"], true, true,
      ["workspace"], ["/tmp"], FORBIDDEN, FORBIDDEN, FORBIDDEN, FORBIDDEN, FORBIDDEN, FORBIDDEN, [], ["sandboxed-oci-v1"],
      "", "", "", true, NO_RESIDUE, NO_WASM);
    if executor == BUILD then
      base.(runtimeProfile := CONTAINER_BUILD, writableRootFS := EXPLICIT, allowedCapabilities := ["CHOWN", "FOWNER"],
            conformanceProfiles := ["container-build-v1"], writablePaths := ["/tmp", "/wfcompute-build"])
    else if executor == SERVICE then
      base.(runtimeProfile := SERVICE_OCI, conformanceProfiles := ["service-oci-v1"])
    else if executor == NODE_SERVICE then
      base.(runtimeProfile := SERVICE_OCI, conformanceProfiles := ["service-oci-v1"], allowedMountRefs := ["workspace", "node-data"])
    else if executor == WASM then
      base.(runtimeProfile := WASM_COMPONENT, conformanceProfiles := ["wasm-component-v1"], allowedMountRefs := [], writablePaths := [],
            allowedRuntimeTools := [], imageDigestRequired := false, rootFSDigestRequired := false, hostWorkspaceSupported := false)
    else base
  }

  function Cell(executor: string, tier: string, proof: string, o: Options): Profile {
    var p := DefaultProfile(executor, tier, proof);
    p.(conformanceProfiles := p.conformanceProfiles + o.conformanceProfiles,
       upstreamClientConformance := if o.upstreamClientConformance != "" then o.upstreamClientConformance else p.upstreamClientConformance,
       upstreamClientEvidenceRef := o.upstreamClientEvidenceRef,
       upstreamClientEvidenceDigest := o.upstreamClientEvidenceDigest)
  }

  lemma CellPlacement(executor: string, tier: string, proof: string, o: Options)
    ensures var c := Cell(executor, tier, proof, o);
            c.executorProvider == executor && c.executionSecurityTier == tier && c.proofTier == proof
            && c.id == ProfileID(executor, tier, proof)
  {
  }

  // ---------- The grid, in the order the nested loops append it ----------

  ghost function Row(e: string, t: string, proofs: seq<string>, o: Options): (r: seq<Profile>)
    ensures |r| == |proofs| && forall k :: 0 <= k < |proofs| ==> r[k] == Cell(e, t, proofs[k], o)
  {
    seq(|proofs|, k requires 0 <= k < |proofs| => Cell(e, t, proofs[k], o))
  }

  ghost function Plane(e: string, tiers: seq<string>, proofs: seq<string>, o: Options): seq<Profile> {
    if tiers == [] then []
    else Plane(e, tiers[..|tiers| - 1], proofs, o) + Row(e, tiers[|tiers| - 1], proofs, o)
  }

  ghost function Grid(executors: seq<string>, tiers: seq<string>, proofs: seq<string>, o: Options): seq<Profile> {
    if executors == [] then []
    else Grid(executors[..|executors| - 1], tiers, proofs, o) + Plane(executors[|executors| - 1], tiers, proofs, o)
  }

  // The innermost loop.
  method AppendRow(profiles: seq<Profile>, e: string, t: string, proofs: seq<string>, o: Options) returns (extended: seq<Profile>)
    ensures extended == profiles + Row(e, t, proofs, o)
  {
    hide Cell;
    extended := profiles;
    for k := 0 to |proofs|
      invariant extended == profiles + Row(e, t, proofs, o)[..k]
    {
      var profile := Cell(e, t, proofs[k], o);
      extended := extended + [profile];
    }
  }

  lemma PlaneStep(e: string, tiers: seq<string>, proofs: seq<string>, o: Options, j: nat)
    requires j < |tiers|
    ensures Plane(e, tiers[..j + 1], proofs, o) == Plane(e, tiers[..j], proofs, o) + Row(e, tiers[j], proofs, o)
  {
    assert tiers[..j + 1][..j] == tiers[..j];
  }

  lemma AppendAssociates<T>(a: seq<T>, b: seq<T>, c: seq<T>)
    ensures a + b + c == a + (b + c)
  {
  }

  // The middle loop.
  method AppendPlane(profiles: seq<Profile>, e: string, tiers: seq<string>, proofs: seq<string>, o: Options) returns (extended: seq<Profile>)
    ensures extended == profiles + Plane(e, tiers, proofs, o)
  {
    extended := profiles;
    assert profiles + Plane(e, tiers[..0], proofs, o) == profiles;
    hide Row, Plane;
    for j := 0 to |tiers|
      invariant extended == profiles + Plane(e, tiers[..j], proofs, o)
    {
      extended := AppendRow(extended, e, tiers[j], proofs, o);
      PlaneStep(e, tiers, proofs, o, j);
      AppendAssociates(profiles, Plane(e, tiers[..j], proofs, o), Row(e, tiers[j], proofs, o));
    }
    assert tiers[..|tiers|] == tiers;
  }

  method DefaultProviderRuntimeContract(executors: seq<string>, tiers: seq<string>, proofs: seq<string>, options: Options)
      returns (profiles: seq<Profile>)
    ensures profiles == Grid(executors, tiers, proofs, options)
  {
    hide Plane;
    profiles := [];
    for i := 0 to |executors|
      invariant profiles == Grid(executors[..i], tiers, proofs, options)
    {
      profiles := AppendPlane(profiles, executors[i], tiers, proofs, options);
      assert executors[..i + 1][..i] == executors[..i];
    }
    assert executors[..|executors|] == executors;
  }

  // Products are kept behind a name and unfolded one step at a time.
  ghost function Times(n: nat, size: nat): nat {
    n * size
  }

  lemma TimesStep(n: nat, size: nat)
    ensures Times(0, size) == 0 && Times(n + 1, size) == Times(n, size) + size
  {
  }

  lemma TimesBelow(i: nat, n: nat, size: nat)
    requires i < n
    ensures Times(i, size) + size <= Times(n, size)
  {
    assert (n - i - 1) * size >= 0;
  }

  lemma {:induction false} PlaneSize(e: string, tiers: seq<string>, proofs: seq<string>, o: Options)
    ensures |Plane(e, tiers, proofs, o)| == Times(|tiers|, |proofs|)
  {
    hide Times;
    TimesStep(if tiers == [] then 0 else |tiers| - 1, |proofs|);
    if tiers != [] { PlaneSize(e, tiers[..|tiers| - 1], proofs, o); }
  }

  lemma {:induction false} PlaneAt(e: string, tiers: seq<string>, proofs: seq<string>, o: Options, j: nat, k: nat)
    requires j < |tiers| && k < |proofs|
    ensures Times(j, |proofs|) + k < Times(|tiers|, |proofs|) == |Plane(e, tiers, proofs, o)|
    ensures Plane(e, tiers, proofs, o)[Times(j, |proofs|) + k] == Cell(e, tiers[j], proofs[k], o)
    decreases |tiers|
  {
    hide Cell, Times;
    var n := |tiers| - 1;
    PlaneSize(e, tiers, proofs, o);
    PlaneSize(e, tiers[..n], proofs, o);
    TimesBelow(j, |tiers|, |proofs|);
    if j < n { PlaneAt(e, tiers[..n], proofs, o, j, k); }
  }

  lemma {:induction false} GridSize(executors: seq<string>, tiers: seq<string>, proofs: seq<string>, o: Options)
    ensures |Grid(executors, tiers, proofs, o)| == Times(|executors|, Times(|tiers|, |proofs|))
  {
    hide Times;
    TimesStep(if executors == [] then 0 else |executors| - 1, Times(|tiers|, |proofs|));
    if executors != [] {
      var n := |executors| - 1;
      GridSize(executors[..n], tiers, proofs, o);
      PlaneSize(executors[n], tiers, proofs, o);
    }
  }

  lemma {:induction false} GridCell(executors: seq<string>, tiers: seq<string>, proofs: seq<string>, o: Options, i: nat, j: nat, k: nat)
    requires i < |executors| && j < |tiers| && k < |proofs|
    ensures var at := Times(i, Times(|tiers|, |proofs|)) + (Times(j, |proofs|) + k);
            && at < |Grid(executors, tiers, proofs, o)|
            && Grid(executors, tiers, proofs, o)[at] == Cell(executors[i], tiers[j], proofs[k], o)
    decreases |executors|
  {
    hide Cell, Times, Plane;
    var n, size := |executors| - 1, Times(|tiers|, |proofs|);
    GridSize(executors, tiers, proofs, o);
    GridSize(executors[..n], tiers, proofs, o);
    TimesBelow(i, |executors|, size);
    PlaneAt(executors[n], tiers, proofs, o, j, k);
    if i < n { GridCell(executors[..n], tiers, proofs, o, i, j, k); }
  }

  /** The profile of executor i, tier j and proof k sits at i*|T|*|P| + j*|P| + k. */
  lemma GridAt(executors: seq<string>, tiers: seq<string>, proofs: seq<string>, o: Options, i: nat, j: nat, k: nat)
    requires i < |executors| && j < |tiers| && k < |proofs|
    ensures var at := i * (|tiers| * |proofs|) + j * |proofs| + k;
            && 0 <= at < |Grid(executors, tiers, proofs, o)| == |executors| * (|tiers| * |proofs|)
            && Grid(executors, tiers, proofs, o)[at] == Cell(executors[i], tiers[j], proofs[k], o)
  {
    hide Cell;
    GridSize(executors, tiers, proofs, o);
    GridCell(executors, tiers, proofs, o, i, j, k);
  }

  lemma {:induction false} PlaneIndex(e: string, tiers: seq<string>, proofs: seq<string>, o: Options, n: nat)
      returns (j: nat, k: nat)
    requires n < |Plane(e, tiers, proofs, o)|
    ensures j < |tiers| && k < |proofs| && n == Times(j, |proofs|) + k
    ensures Plane(e, tiers, proofs, o)[n] == Cell(e, tiers[j], proofs[k], o)
    decreases |tiers|
  {
    hide Cell, Times;
    var last := |tiers| - 1;
    var before := Plane(e, tiers[..last], proofs, o);
    PlaneSize(e, tiers[..last], proofs, o);
    if n < |before| {
      j, k := PlaneIndex(e, tiers[..last], proofs, o, n);
    } else {
      j, k := last, n - |before|;
    }
  }

  /** Conversely every position of the grid belongs to some executor, tier and proof. */
  lemma {:induction false} GridIndex(executors: seq<string>, tiers: seq<string>, proofs: seq<string>, o: Options, n: nat)
      returns (i: nat, j: nat, k: nat)
    requires n < |Grid(executors, tiers, proofs, o)|
    ensures i < |executors| && j < |tiers| && k < |proofs|
    ensures n == i * (|tiers| * |proofs|) + j * |proofs| + k
    ensures Grid(executors, tiers, proofs, o)[n] == Cell(executors[i], tiers[j], proofs[k], o)
    decreases |executors|
  {
    hide Cell, Plane;
    var last := |executors| - 1;
    var before := Grid(executors[..last], tiers, proofs, o);
    GridSize(executors[..last], tiers, proofs, o);
    if n < |before| {
      i, j, k := GridIndex(executors[..last], tiers, proofs, o, n);
    } else {
      i := last;
      j, k := PlaneIndex(executors[last], tiers, proofs, o, n - |before|);
    }
  }

  // ---------- Lookup ----------

  /** Position of the first occurrence, or the length. */
  ghost function FirstIn(list: seq<string>, x: string): (i: nat)
    ensures i <= |list| && (i < |list| <==> x in list)
    ensures i < |list| ==> list[i] == x
    ensures forall j :: 0 <= j < i ==> list[j] != x
  {
    if list == [] || list[0] == x then 0 else 1 + FirstIn(list[1..], x)
  }

  lemma FirstMatchAppend(a: seq<Profile>, b: seq<Profile>, req: Requirements)
    ensures FirstMatch(a + b, req) == if FirstMatch(a, req) < |a| then FirstMatch(a, req) else |a| + FirstMatch(b, req)
  {
    var i, j, k := FirstMatch(a, req), FirstMatch(b, req), FirstMatch(a + b, req);
    assert forall n :: 0 <= n < |a| ==> (a + b)[n] == a[n];
    assert forall n :: 0 <= n < |b| ==> (a + b)[|a| + n] == b[n];
    if i < |a| {
      assert Meets((a + b)[i], req);
    } else if j < |b| {
      assert Meets((a + b)[|a| + j], req);
    }
  }

  lemma FirstInPrefix(list: seq<string>, n: nat, x: string)
    requires n + 1 == |list|
    ensures FirstIn(list, x) == if x in list[..n] then FirstIn(list[..n], x) else if list[n] == x then n else |list|
  {
  }

  lemma RowMatch(e: string, t: string, proofs: seq<string>, o: Options, req: Requirements)
    ensures FirstMatch(Row(e, t, proofs, o), req)
         == if e == req.executorProvider && t == req.executionSecurityTier then FirstIn(proofs, req.proofTier) else |proofs|
  {
    hide Cell, FirstMatch, FirstIn;
    var row, i := Row(e, t, proofs, o), FirstMatch(Row(e, t, proofs, o), req);
    forall k | 0 <= k < |proofs|
      ensures Meets(row[k], req) <==> e == req.executorProvider && t == req.executionSecurityTier && proofs[k] == req.proofTier
    {
      CellPlacement(e, t, proofs[k], o);
    }
  }

  lemma {:induction false} PlaneMatch(e: string, tiers: seq<string>, proofs: seq<string>, o: Options, req: Requirements)
    ensures FirstMatch(Plane(e, tiers, proofs, o), req)
         == if e == req.executorProvider && req.executionSecurityTier in tiers && req.proofTier in proofs
            then Times(FirstIn(tiers, req.executionSecurityTier), |proofs|) + FirstIn(proofs, req.proofTier)
            else Times(|tiers|, |proofs|)
    decreases |tiers|
  {
    hide FirstMatch, Row, FirstIn, Times;
    TimesStep(if tiers == [] then 0 else |tiers| - 1, |proofs|);
    if tiers != [] {
      var n := |tiers| - 1;
      PlaneMatch(e, tiers[..n], proofs, o, req);
      RowMatch(e, tiers[n], proofs, o, req);
      PlaneSize(e, tiers[..n], proofs, o);
      FirstMatchAppend(Plane(e, tiers[..n], proofs, o), Row(e, tiers[n], proofs, o), req);
      FirstInPrefix(tiers, n, req.executionSecurityTier);
      if req.executionSecurityTier in tiers[..n] {
        TimesBelow(FirstIn(tiers[..n], req.executionSecurityTier), n, |proofs|);
      }
    }
  }

  lemma {:induction false} GridMatch(executors: seq<string>, tiers: seq<string>, proofs: seq<string>, o: Options, req: Requirements)
    ensures FirstMatch(Grid(executors, tiers, proofs, o), req)
         == if req.executorProvider in executors && req.executionSecurityTier in tiers && req.proofTier in proofs
            then Times(FirstIn(executors, req.executorProvider), Times(|tiers|, |proofs|))
                 + (Times(FirstIn(tiers, req.executionSecurityTier), |proofs|) + FirstIn(proofs, req.proofTier))
            else Times(|executors|, Times(|tiers|, |proofs|))
    decreases |executors|
  {
    hide FirstMatch, Plane, FirstIn, Times;
    var size := Times(|tiers|, |proofs|);
    TimesStep(if executors == [] then 0 else |executors| - 1, size);
    if executors != [] {
      var n := |executors| - 1;
      GridMatch(executors[..n], tiers, proofs, o, req);
      PlaneMatch(executors[n], tiers, proofs, o, req);
      GridSize(executors[..n], tiers, proofs, o);
      FirstMatchAppend(Grid(executors[..n], tiers, proofs, o), Plane(executors[n], tiers, proofs, o), req);
      FirstInPrefix(executors, n, req.executorProvider);
      if req.executorProvider in executors[..n] {
        TimesBelow(FirstIn(executors[..n], req.executorProvider), n, size);
      }
      if req.executionSecurityTier in tiers {
        TimesBelow(FirstIn(tiers, req.executionSecurityTier), |tiers|, |proofs|);
      }
    }
  }

  /** The lookup finds a profile exactly when all three values occur in their lists, and it is
    * the one at the index made of their first occurrences. */
  lemma LookupInGrid(executors: seq<string>, tiers: seq<string>, proofs: seq<string>, o: Options, req: Requirements)
    ensures var grid, at := Grid(executors, tiers, proofs, o), FirstMatch(Grid(executors, tiers, proofs, o), req);
            if req.executorProvider in executors && req.executionSecurityTier in tiers && req.proofTier in proofs then
              && at == FirstIn(executors, req.executorProvider) * (|tiers| * |proofs|)
                       + FirstIn(tiers, req.executionSecurityTier) * |proofs| + FirstIn(proofs, req.proofTier)
              && at < |grid| && grid[at] == Cell(req.executorProvider, req.executionSecurityTier, req.proofTier, o)
            else at == |grid|
  {
    hide FirstMatch, FirstIn, Cell;
    GridMatch(executors, tiers, proofs, o, req);
    GridSize(executors, tiers, proofs, o);
    if req.executorProvider in executors && req.executionSecurityTier in tiers && req.proofTier in proofs {
      GridAt(executors, tiers, proofs, o, FirstIn(executors, req.executorProvider),
             FirstIn(tiers, req.executionSecurityTier), FirstIn(proofs, req.proofTier));
    }
  }
}
