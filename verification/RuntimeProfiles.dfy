/** Provider runtime profiles: the data and the rules their validators enforce. */
module RuntimeProfiles {
  import opened GoStrings
  import opened Identifiers
  import opened Placement

  const TRUSTED_NATIVE := "trusted-native"
  const WASM_CAPABILITY := "wasm-capability"
  const RECEIPT_ONLY := "receipt-only"
  const SANDBOXED_OCI := "sandboxed-oci-v1"
  const CONTAINER_BUILD := "container-build-v1"
  const SERVICE_OCI := "service-oci-v1"
  const WASM_COMPONENT := "wasm-component-v1"
  const BROWSER_WORKER := "browser-worker-wasm-v1"
  const FORBIDDEN := "forbidden"
  const EXPLICIT := "explicit"
  const SHAPE_ONLY := "shape-only"
  const REAL_CLIENT := "real-client"
  const UPSTREAM_CLIENT := "upstream-client-v1"
  const SESSION_BOUND := "session-bound"

  datatype ResiduePolicy = ResiduePolicy(
    mode: string, allowedModes: seq<string>, sessionKey: string, policyHash: string, maxAgeSeconds: int, maxReuseCount: int,
    wipeOnFailure: bool, explicitWorkerBound: bool)

  datatype WASMContract = WASMContract(
    abi: string, componentRef: string, componentDigest: string, maxMemoryBytes: int, maxRuntimeSeconds: int,
    filesystem: string, network: string, nativeHostUpdates: string, browserWorker: bool)

  datatype Profile = Profile(
    id: string, runtimeProfile: string, executorProvider: string, executionSecurityTier: string, proofTier: string,
    allowedRuntimeTools: seq<string>, imageDigestRequired: bool, rootFSDigestRequired: bool,
    allowedMountRefs: seq<string>, writablePaths: seq<string>, writableRootFS: string, privileged: string,
    hostNamespaces: string, hostSocket: string, seccompDisable: string, noNewPrivilegesDisable: string,
    allowedCapabilities: seq<string>, conformanceProfiles: seq<string>, upstreamClientConformance: string,
    upstreamClientEvidenceRef: string, upstreamClientEvidenceDigest: string, hostWorkspaceSupported: bool,
    residuePolicy: ResiduePolicy, wasm: WASMContract)

  const NO_RESIDUE := ResiduePolicy("", [], "", "", 0, 0, false, false)
  const NO_WASM := WASMContract("", "", "", 0, 0, "", "", "", false)

  predicate Distinct(s: seq<string>) {
    forall i, j :: 0 <= i < j < |s| ==> s[i] != s[j]
  }

  predicate ValidTier(t: string) {
    || t == TRUSTED_NATIVE || t == "hardened-container" || t == "sandboxed-container" || t == "microvm"
    || t == "confidential-cpu" || t == "confidential-gpu" || t == WASM_CAPABILITY
  }

  predicate ValidProof(p: string) {
    || p == RECEIPT_ONLY || p == "artifact-hash" || p == "replicated-quorum" || p == "attested-receipt"
    || p == "attested-quorum" || p == "zk-replay" || p == "stream-segment-manifest"
  }

  predicate ValidRuntimeProfile(p: string) {
    p == SANDBOXED_OCI || p == CONTAINER_BUILD || p == SERVICE_OCI || p == WASM_COMPONENT || p == BROWSER_WORKER
  }

  predicate ValidPermission(p: string) {
    p == FORBIDDEN || p == EXPLICIT || p == "allowed"
  }

  predicate ValidTool(t: string) {
    t == "podman" || t == "docker" || t == "nerdctl" || t == "apple-container"
  }

  predicate ValidResidueMode(m: string) {
    m == "isolated" || m == "none" || m == "provider-bound" || m == "worker-bound" || m == SESSION_BOUND
  }

  predicate ReusableMode(m: string) {
    m == "provider-bound" || m == "worker-bound" || m == SESSION_BOUND
  }

  predicate ValidResidue(p: ResiduePolicy, noWorkspaceAllowed: bool) {
    && (p.mode == "" || ValidResidueMode(p.mode))
    && (forall i :: 0 <= i < |p.allowedModes| ==> ValidResidueMode(p.allowedModes[i]))
    && Distinct(p.allowedModes)
    && (p.mode != "" && p.allowedModes != [] ==> p.mode in p.allowedModes)
    && !(noWorkspaceAllowed && ReusableMode(p.mode))
    && (if p.mode == SESSION_BOUND
        then TrimSpace(p.sessionKey) != "" && TrimSpace(p.sessionKey) == p.sessionKey && !ContainsAny(p.sessionKey, "\0\r\n\t")
        else p.sessionKey == "")
    && (p.policyHash != "" ==> ValidSHA256Ref(p.policyHash))
    && p.maxAgeSeconds >= 0 && p.maxReuseCount >= 0
  }

  /** `componentOK`: the component reference parser accepts the reference. */
  predicate ValidWASM(w: WASMContract, runtimeProfile: string, componentOK: string -> bool) {
    && TrimSpace(w.abi) != "" && componentOK(w.componentRef) && ValidSHA256Ref(w.componentDigest)
    && w.maxMemoryBytes > 0 && w.maxRuntimeSeconds > 0
    && ValidPermission(w.filesystem) && ValidPermission(w.network)
    && (w.nativeHostUpdates != "" ==> ValidPermission(w.nativeHostUpdates))
    && (runtimeProfile == BROWSER_WORKER ==>
          w.browserWorker && w.filesystem == FORBIDDEN && (w.nativeHostUpdates == "" || w.nativeHostUpdates == FORBIDDEN))
  }

  /** Absolute, free of NUL and "..", and left alone by path.Clean: no empty, trailing or
    * "." element. */
  predicate ValidContainerPath(path: string) {
    && HasPrefix(path, "/") && '\0' !in path && !Contains(path, "..")
    && (path == "/" || forall s :: s in Split(path[1..], '/') ==> s != "" && s != ".")
  }

  predicate ValidCapability(c: string) {
    c != "" && (forall i :: 0 <= i < |c| ==> !('a' <= c[i] <= 'z')) && !ContainsAny(c, " \t\r\n\0")
  }

  predicate UsesWASM(p: Profile) {
    p.runtimeProfile == WASM_COMPONENT || p.runtimeProfile == BROWSER_WORKER
  }

  predicate WASMRules(p: Profile, componentOK: string -> bool) {
    && !p.hostWorkspaceSupported && p.executionSecurityTier == WASM_CAPABILITY
    && !p.imageDigestRequired && !p.rootFSDigestRequired
    && p.allowedRuntimeTools == [] && p.allowedMountRefs == [] && p.writablePaths == []
    && ValidWASM(p.wasm, p.runtimeProfile, componentOK)
  }

  predicate ContainerRules(p: Profile) {
    && p.executionSecurityTier != WASM_CAPABILITY
    && p.allowedRuntimeTools != [] && (forall t :: t in p.allowedRuntimeTools ==> ValidTool(t))
    && p.imageDigestRequired && p.rootFSDigestRequired
    && p.allowedMountRefs != [] && (forall r :: r in p.allowedMountRefs ==> ValidIdentifier(r))
  }

  predicate PermissionRules(p: Profile) {
    && ValidPermission(p.writableRootFS)
    && p.privileged == FORBIDDEN && p.hostNamespaces == FORBIDDEN && p.hostSocket == FORBIDDEN
    && p.seccompDisable == FORBIDDEN && p.noNewPrivilegesDisable == FORBIDDEN
  }

  predicate ValidEvidenceFields(ref: string, digest: string) {
    ValidScopedRef(ref, "artifact://") && ValidSHA256Ref(digest)
  }

  predicate UpstreamRules(p: Profile) {
    || p.upstreamClientConformance == "" || p.upstreamClientConformance == SHAPE_ONLY
    || (&& p.upstreamClientConformance == REAL_CLIENT && UPSTREAM_CLIENT in p.conformanceProfiles
        && ValidEvidenceFields(p.upstreamClientEvidenceRef, p.upstreamClientEvidenceDigest))
  }

  predicate ConformanceRules(p: Profile) {
    p.conformanceProfiles != [] && forall c :: c in p.conformanceProfiles ==> ValidIdentifier(c)
  }

  /** The checks of ProviderRuntimeProfile.Validate that neither conformance evidence nor the
    * profile id takes part in. */
  predicate PlacementRules(p: Profile, componentOK: string -> bool) {
    && ValidRuntimeProfile(p.runtimeProfile)
    && ValidIdentifier(p.executorProvider)
    && ValidTier(p.executionSecurityTier) && p.executionSecurityTier != TRUSTED_NATIVE
    && ValidProof(p.proofTier) && p.proofTier != RECEIPT_ONLY
    && ValidResidue(p.residuePolicy, !p.hostWorkspaceSupported)
    && (if UsesWASM(p) then WASMRules(p, componentOK) else ContainerRules(p))
    && (forall w :: w in p.writablePaths ==> ValidContainerPath(w))
    && PermissionRules(p)
    && (forall c :: c in p.allowedCapabilities ==> ValidCapability(c))
  }

  predicate ValidProfile(p: Profile, componentOK: string -> bool) {
    ValidIdentifier(p.id) && PlacementRules(p, componentOK) && ConformanceRules(p) && UpstreamRules(p)
  }

  /** What ProviderRuntimeContract.Validate accepts. */
  ghost predicate ValidContract(profiles: seq<Profile>, componentOK: string -> bool) {
    && profiles != []
    && (forall i :: 0 <= i < |profiles| ==> ValidProfile(profiles[i], componentOK))
    && (forall i, j :: 0 <= i < j < |profiles| ==> profiles[i].id != profiles[j].id)
  }

  /** The number of errors joined into the verdict. */
  method ValidateContract(profiles: seq<Profile>, componentOK: string -> bool) returns (errs: nat)
    ensures errs == 0 <==> ValidContract(profiles, componentOK)
  {
    hide PlacementRules, ConformanceRules, UpstreamRules, ValidIdentifier;
    errs := if |profiles| == 0 then 1 else 0;
    var seen: set<string> := {};
    for n := 0 to |profiles|
      invariant forall x :: x in seen <==> x != "" && exists i :: 0 <= i < n && profiles[i].id == x
      invariant errs == 0 ==> profiles != []
      invariant errs == 0 ==> forall i :: 0 <= i < n ==> ValidProfile(profiles[i], componentOK)
      invariant errs == 0 ==> forall i, j :: 0 <= i < j < n ==> profiles[i].id != profiles[j].id
      invariant errs != 0 ==> !ValidContract(profiles, componentOK)
    {
      if !ValidProfile(profiles[n], componentOK) {
        errs := errs + 1;
      }
      if profiles[n].id != "" {
        if profiles[n].id in seen {
          errs := errs + 1;
        }
        seen := seen + {profiles[n].id};
      } else {
        EmptyIsNoIdentifier();
      }
    }
  }

  lemma EmptyIsNoIdentifier()
    ensures !ValidIdentifier("")
  {
  }

  // ---------- Lookup ----------

  predicate Meets(p: Profile, req: Requirements) {
    && p.executorProvider == req.executorProvider
    && p.executionSecurityTier == req.executionSecurityTier
    && p.proofTier == req.proofTier
  }

  /** Position of the first profile that meets the requirements, or the length. */
  function FirstMatch(profiles: seq<Profile>, req: Requirements): (i: nat)
    ensures i <= |profiles|
    ensures i < |profiles| ==> Meets(profiles[i], req)
    ensures forall j :: 0 <= j < i ==> !Meets(profiles[j], req)
  {
    if profiles == [] || Meets(profiles[0], req) then 0 else 1 + FirstMatch(profiles[1..], req)
  }

  const NO_PROFILE := Profile("", "", "", "", "", [], false, false, [], [], "", "", "", "", "", "", [], [], "", "", "", false, NO_RESIDUE, NO_WASM)

  method RuntimeProfileForRequirements(profiles: seq<Profile>, req: Requirements) returns (profile: Profile, found: bool)
    ensures var i := FirstMatch(profiles, req);
            (found <==> i < |profiles|) && profile == if found then profiles[i] else NO_PROFILE
  {
    for i := 0 to |profiles|
      invariant i <= FirstMatch(profiles, req)
    {
      if Meets(profiles[i], req) {
        return profiles[i], true;
      }
    }
    return NO_PROFILE, false;
  }
}
