/** What generated and valid runtime profiles hold, field by field. */
module RuntimeContents {
  import opened GoStrings
  import opened Identifiers
  import opened RuntimeProfiles
  import opened RuntimeGrid

  /** The executor alone decides the kind of runtime and what it is granted; the tier and proof
    * enter its id, and the options the conformance and evidence fields. */
  ghost predicate AsGenerated(p: Profile, o: Options) {
    var e := p.executorProvider;
    && p.id == e + "-" + p.executionSecurityTier + "-" + p.proofTier + "-runtime"
    // the build executor
    && (p.runtimeProfile == "container-build-v1" <==> e == "sandboxed-container-build")
    && (p.writableRootFS == "explicit" <==> e == "sandboxed-container-build")
    && (p.writableRootFS == "forbidden" <==> e != "sandboxed-container-build")
    && (p.allowedCapabilities == ["CHOWN", "FOWNER"] <==> e == "sandboxed-container-build")
    && (p.allowedCapabilities == [] <==> e != "sandboxed-container-build")
    && (p.writablePaths == ["/tmp", "/wfcompute-build"] <==> e == "sandboxed-container-build")
    // the service executors
    && (p.runtimeProfile == "service-oci-v1" <==> e in ["service-sandboxed-container", "node-service-sandboxed-container"])
    && (p.allowedMountRefs == ["workspace", "node-data"] <==> e == "node-service-sandboxed-container")
    // the component executor
    && (p.runtimeProfile == "wasm-component-v1" <==> e == "wasm-component")
    && (p.allowedMountRefs == [] <==> e == "wasm-component") && (p.writablePaths == [] <==> e == "wasm-component")
    && (p.allowedRuntimeTools == [] <==> e == "wasm-component")
    && (p.allowedRuntimeTools == ["podman", "docker", "nerdctl"] <==> e != "wasm-component")
    && (p.imageDigestRequired <==> e != "wasm-component") && (p.rootFSDigestRequired <==> e != "wasm-component")
    && (p.hostWorkspaceSupported <==> e != "wasm-component")
    // the others
    && (p.runtimeProfile == "sandboxed-oci-v1"
        <==> e !in ["sandboxed-container-build", "service-sandboxed-container", "node-service-sandboxed-container", "wasm-component"])
    && (p.allowedMountRefs == ["workspace"] <==> e !in ["node-service-sandboxed-container", "wasm-component"])
    && (p.writablePaths == ["/tmp"] <==> e !in ["sandboxed-container-build", "wasm-component"])
    // every executor
    && p.privileged == p.hostNamespaces == p.hostSocket == p.seccompDisable == p.noNewPrivilegesDisable == "forbidden"
    && p.conformanceProfiles == [p.runtimeProfile] + o.conformanceProfiles
    && p.upstreamClientConformance == o.upstreamClientConformance
    && p.upstreamClientEvidenceRef == o.upstreamClientEvidenceRef && p.upstreamClientEvidenceDigest == o.upstreamClientEvidenceDigest
    && p.residuePolicy == ResiduePolicy("", [], "", "", 0, 0, false, false)
    && p.wasm == WASMContract("", "", "", 0, 0, "", "", "", false)
  }

  lemma ListsDiffer()
    ensures "workspace" != "node-data" && "/tmp" != "/wfcompute-build"
    ensures ["workspace"] != ["workspace", "node-data"] && ["/tmp"] != ["/tmp", "/wfcompute-build"]
  {
    assert |["workspace"]| != |["workspace", "node-data"]| && |["/tmp"]| != |["/tmp", "/wfcompute-build"]|;
  }

  lemma CellContents(executor: string, tier: string, proof: string, o: Options)
    ensures AsGenerated(Cell(executor, tier, proof, o), o)
  {
    ListsDiffer();
  }

  /** Every position of the generated grid. */
  lemma GridContents(executors: seq<string>, tiers: seq<string>, proofs: seq<string>, o: Options, n: nat)
    requires n < |Grid(executors, tiers, proofs, o)|
    ensures var p := Grid(executors, tiers, proofs, o)[n];
            && p.executorProvider in executors && p.executionSecurityTier in tiers && p.proofTier in proofs
            && AsGenerated(p, o)
  {
    hide Grid, Cell, AsGenerated;
    var i, j, k := GridIndex(executors, tiers, proofs, o, n);
    CellPlacement(executors[i], tiers[j], proofs[k], o);
    CellContents(executors[i], tiers[j], proofs[k], o);
  }

  /** The fields of a profile that runs components, or containers. */
  ghost predicate ComponentFields(p: Profile, componentOK: string -> bool) {
    && p.executionSecurityTier == "wasm-capability"
    && !p.imageDigestRequired && !p.rootFSDigestRequired && !p.hostWorkspaceSupported
    && p.allowedRuntimeTools == [] && p.allowedMountRefs == [] && p.writablePaths == []
    && TrimSpace(p.wasm.abi) != "" && componentOK(p.wasm.componentRef) && ValidSHA256Ref(p.wasm.componentDigest)
    && p.wasm.maxMemoryBytes > 0 && p.wasm.maxRuntimeSeconds > 0
    && p.wasm.filesystem in ["forbidden", "explicit", "allowed"] && p.wasm.network in ["forbidden", "explicit", "allowed"]
    && p.wasm.nativeHostUpdates in ["", "forbidden", "explicit", "allowed"]
    && (p.runtimeProfile == "browser-worker-wasm-v1"
        ==> p.wasm.browserWorker && p.wasm.filesystem == "forbidden" && p.wasm.nativeHostUpdates in ["", "forbidden"])
  }

  ghost predicate ContainerFields(p: Profile) {
    && p.executionSecurityTier in ["hardened-container", "sandboxed-container", "microvm", "confidential-cpu", "confidential-gpu"]
    && p.imageDigestRequired && p.rootFSDigestRequired && p.allowedRuntimeTools != [] && p.allowedMountRefs != []
    && (forall t :: t in p.allowedRuntimeTools ==> t in ["podman", "docker", "nerdctl", "apple-container"])
    && (forall r :: r in p.allowedMountRefs ==> ValidIdentifier(r))
  }

  lemma ComponentRules(p: Profile, componentOK: string -> bool)
    ensures WASMRules(p, componentOK) <==> ComponentFields(p, componentOK)
  {
    hide ValidSHA256Ref, TrimSpace;
  }

  lemma ContainerTier(p: Profile)
    ensures ContainerRules(p) && ValidTier(p.executionSecurityTier) && p.executionSecurityTier != TRUSTED_NATIVE <==> ContainerFields(p)
  {
    hide ValidIdentifier;
  }

  lemma UpstreamOnFields(p: Profile)
    ensures UpstreamRules(p)
       <==> || p.upstreamClientConformance in ["", "shape-only"]
            || (&& p.upstreamClientConformance == "real-client" && "upstream-client-v1" in p.conformanceProfiles
                && "artifact://" < p.upstreamClientEvidenceRef && !Contains(p.upstreamClientEvidenceRef, "..")
                && ValidSHA256Ref(p.upstreamClientEvidenceDigest))
  {
    hide ValidSHA256Ref, Contains;
    assert HasPrefix(p.upstreamClientEvidenceRef, "artifact://") && p.upstreamClientEvidenceRef != "artifact://"
      <==> "artifact://" < p.upstreamClientEvidenceRef;
  }

  lemma ProofAndRuntimeNames(p: Profile)
    ensures ValidProof(p.proofTier) && p.proofTier != RECEIPT_ONLY
       <==> p.proofTier in ["artifact-hash", "replicated-quorum", "attested-receipt", "attested-quorum", "zk-replay", "stream-segment-manifest"]
    ensures ValidRuntimeProfile(p.runtimeProfile)
       <==> p.runtimeProfile in ["wasm-component-v1", "browser-worker-wasm-v1"]
            || p.runtimeProfile in ["sandboxed-oci-v1", "container-build-v1", "service-oci-v1"]
    ensures UsesWASM(p) <==> p.runtimeProfile in ["wasm-component-v1", "browser-worker-wasm-v1"]
    ensures UsesWASM(p) ==> p.runtimeProfile !in ["sandboxed-oci-v1", "container-build-v1", "service-oci-v1"]
    ensures ValidPermission(p.writableRootFS) <==> p.writableRootFS in ["forbidden", "explicit", "allowed"]
    ensures ValidTier(WASM_CAPABILITY) && WASM_CAPABILITY != TRUSTED_NATIVE
  {
  }

  /** Which profiles are valid. */
  lemma ValidProfileOnFields(p: Profile, componentOK: string -> bool)
    ensures ValidProfile(p, componentOK)
       <==> && ValidIdentifier(p.id) && ValidIdentifier(p.executorProvider)
            && (|| (p.runtimeProfile in ["wasm-component-v1", "browser-worker-wasm-v1"] && ComponentFields(p, componentOK))
                || (p.runtimeProfile in ["sandboxed-oci-v1", "container-build-v1", "service-oci-v1"] && ContainerFields(p)))
            && p.proofTier in ["artifact-hash", "replicated-quorum", "attested-receipt", "attested-quorum", "zk-replay", "stream-segment-manifest"]
            && p.privileged == p.hostNamespaces == p.hostSocket == p.seccompDisable == p.noNewPrivilegesDisable == "forbidden"
            && p.writableRootFS in ["forbidden", "explicit", "allowed"]
            && (forall w :: w in p.writablePaths ==> ValidContainerPath(w))
            && (forall c :: c in p.allowedCapabilities ==> ValidCapability(c))
            && ValidResidue(p.residuePolicy, !p.hostWorkspaceSupported)
            && p.conformanceProfiles != [] && (forall c :: c in p.conformanceProfiles ==> ValidIdentifier(c))
            && (|| p.upstreamClientConformance in ["", "shape-only"]
                || (&& p.upstreamClientConformance == "real-client" && "upstream-client-v1" in p.conformanceProfiles
                    && "artifact://" < p.upstreamClientEvidenceRef && !Contains(p.upstreamClientEvidenceRef, "..")
                    && ValidSHA256Ref(p.upstreamClientEvidenceDigest)))
  {
    ComponentRules(p, componentOK);
    ContainerTier(p);
    UpstreamOnFields(p);
    ProofAndRuntimeNames(p);
    ComponentTier(p, componentOK);
    hide ValidIdentifier, ValidSHA256Ref, Contains, ValidResidue, ValidContainerPath, ValidCapability, WASMRules, ContainerRules,
         ComponentFields, ContainerFields, ValidTier, ValidProof, ValidRuntimeProfile, ValidPermission, UsesWASM, UpstreamRules;
  }

  lemma ComponentTier(p: Profile, componentOK: string -> bool)
    ensures WASMRules(p, componentOK) ==> p.executionSecurityTier == WASM_CAPABILITY
  {
  }

  /** Which residue policies are valid; a place without workspace cannot reuse one. */
  lemma ValidResidueOnFields(p: ResiduePolicy, noWorkspaceAllowed: bool)
    ensures ValidResidue(p, noWorkspaceAllowed)
       <==> && p.mode in ["", "isolated", "none", "provider-bound", "worker-bound", "session-bound"]
            && (noWorkspaceAllowed ==> p.mode in ["", "isolated", "none"])
            && (forall m :: m in p.allowedModes ==> m in ["isolated", "none", "provider-bound", "worker-bound", "session-bound"])
            && (forall i, j :: 0 <= i < j < |p.allowedModes| ==> p.allowedModes[i] != p.allowedModes[j])
            && (p.mode == "" || p.allowedModes == [] || p.mode in p.allowedModes)
            && (p.mode != "session-bound" ==> p.sessionKey == "")
            && (p.mode == "session-bound" ==>
                  && p.sessionKey != "" && TrimSpace(p.sessionKey) == p.sessionKey
                  && '\0' !in p.sessionKey && '\r' !in p.sessionKey && '\n' !in p.sessionKey && '\t' !in p.sessionKey)
            && (p.policyHash == "" || ValidSHA256Ref(p.policyHash))
            && p.maxAgeSeconds >= 0 && p.maxReuseCount >= 0
  {
    hide ValidSHA256Ref, TrimSpace;
    assert TrimSpace(p.sessionKey) == p.sessionKey ==> (TrimSpace(p.sessionKey) != "" <==> p.sessionKey != "");
    assert forall m: string :: ValidResidueMode(m) <==> m in ["isolated", "none", "provider-bound", "worker-bound", "session-bound"];
    assert (forall m :: m in p.allowedModes ==> ValidResidueMode(m))
      <==> forall i :: 0 <= i < |p.allowedModes| ==> ValidResidueMode(p.allowedModes[i]);
    assert ReusableMode(p.mode) <==> p.mode in ["provider-bound", "worker-bound", "session-bound"];
    assert forall c :: c in "\0\r\n\t" <==> c == '\0' || c == '\r' || c == '\n' || c == '\t';
    assert ContainsAny(p.sessionKey, "\0\r\n\t") <==> exists c :: c in p.sessionKey && c in "\0\r\n\t";
  }
}
