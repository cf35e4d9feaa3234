/** Why generated profile ids never collide, and when a generated contract is valid. */
module ProfileIDs {
  import opened GoStrings
  import opened Identifiers
  import opened RuntimeProfiles
  import opened RuntimeGrid

  // ---------- Unambiguous ids ----------

  /** A word without a dash among its first two characters. */
  ghost predicate Word(x: string) {
    |x| > 2 && x[0] != '-' && x[1] != '-'
  }

  /** Words that end alike differ in length by at most two, so that neither can be the tail
    * of the other behind a dash. */
  ghost predicate Distinguishable(x: string, y: string) {
    && Word(x) && Word(y)
    && (x[|x| - 1] == y[|y| - 1] && x[|x| - 2] == y[|y| - 2] ==> -2 <= |x| - |y| <= 2)
  }

  lemma CutLastWord(a: string, x: string, b: string, y: string)
    requires a + "-" + x == b + "-" + y && Distinguishable(x, y)
    ensures a == b && x == y
  {
    var s, t := a + "-" + x, b + "-" + y;
    assert s[|s| - 1] == x[|x| - 1] && s[|s| - 2] == x[|x| - 2];
    assert t[|t| - 1] == y[|y| - 1] && t[|t| - 2] == y[|y| - 2];
    assert s[|a|] == '-' && t[|b|] == '-';
    assert |a| == |b|;
    assert a == s[..|a|] && b == t[..|b|] && x == s[|a| + 1..] && y == t[|b| + 1..];
  }

  lemma TierShape(x: string)
    requires ValidTier(x)
    ensures Word(x)
    ensures var last := x[|x| - 1];
            || (last == 'e' && |x| == 14) || (last == 'r' && 18 <= |x| <= 19) || (last == 'm' && |x| == 7)
            || (last == 'u' && |x| == 16) || (last == 'y' && |x| == 15)
  {
  }

  lemma ProofShape(x: string)
    requires ValidProof(x)
    ensures Word(x)
    ensures var last, before := x[|x| - 1], x[|x| - 2];
            || (last == 'y' && ((before == 'l' && |x| == 12) || (before == 'a' && |x| == 9)))
            || (last == 'h' && |x| == 13)
            || (last == 'm' && 15 <= |x| <= 17)
            || (last == 't' && ((before == 'p' && |x| == 16) || (before == 's' && |x| == 23)))
  {
  }

  /** For recognised tiers and proofs the id determines all three parts, whatever dashes the
    * executor name holds. */
  lemma IDsAreUnambiguous(e: string, t: string, p: string, e': string, t': string, p': string)
    requires ValidTier(t) && ValidProof(p) && ValidTier(t') && ValidProof(p')
    requires ProfileID(e, t, p) == ProfileID(e', t', p')
    ensures e == e' && t == t' && p == p'
  {
    hide ValidTier, ValidProof;
    var a, b := e + "-" + t + "-" + p, e' + "-" + t' + "-" + p';
    var id, id' := ProfileID(e, t, p), ProfileID(e', t', p');
    assert id[..|id| - 8] == a && id'[..|id'| - 8] == b;
    ProofShape(p);
    ProofShape(p');
    CutLastWord(e + "-" + t, p, e' + "-" + t', p');
    TierShape(t);
    TierShape(t');
    CutLastWord(e, t, e', t');
  }

  // ---------- Identifiers made of plain characters ----------

  predicate Plain(c: char) {
    'a' <= c <= 'z' || '0' <= c <= '9' || c == '-'
  }

  predicate AllPlain(s: string) {
    s != "" && forall i :: 0 <= i < |s| ==> Plain(s[i])
  }

  lemma PlainIsNotReserved(c: char)
    requires Plain(c)
    ensures c !in " \t\r\n/:?&#" && !IsSpace1(c) && c as int < 0x80
  {
  }

  lemma PlainIdentifier(s: string)
    requires AllPlain(s)
    ensures ValidIdentifier(s)
  {
    forall i | 0 <= i < |s| ensures s[i] !in " \t\r\n/:?&#" && !IsSpace1(s[i]) && s[i] as int < 0x80 {
      PlainIsNotReserved(s[i]);
    }
  }

  /** Appending plain text to an identifier gives an identifier. */
  lemma IdentifierPlusPlain(e: string, tail: string)
    requires ValidIdentifier(e) && AllPlain(tail)
    ensures ValidIdentifier(e + tail)
  {
    var s := e + tail;
    assert e != "" && LeadingSpace(e) == 0;
    forall i | 0 <= i < |tail| ensures tail[i] !in " \t\r\n/:?&#" && !IsSpace1(tail[i]) && tail[i] as int < 0x80 {
      PlainIsNotReserved(tail[i]);
    }
    assert forall i :: 0 <= i < |s| ==> s[i] == if i < |e| then e[i] else tail[i - |e|];
    assert LeadingSpace(s) == 0;
    assert TrailingSpace(s) == 0;
    assert !ContainsAny(s, " \t\r\n/:?&#");
  }

  // ---------- Validity of generated profiles ----------

  predicate GoodExecutor(e: string) {
    ValidIdentifier(e) && e != "wasm-component"
  }

  predicate GoodTier(t: string) {
    t in ["hardened-container", "sandboxed-container", "microvm", "confidential-cpu", "confidential-gpu"]
  }

  predicate GoodProof(p: string) {
    p in ["artifact-hash", "replicated-quorum", "attested-receipt", "attested-quorum", "zk-replay", "stream-segment-manifest"]
  }

  lemma GoodAmongValid(t: string, p: string)
    ensures GoodTier(t) <==> ValidTier(t) && t != TRUSTED_NATIVE && t != WASM_CAPABILITY
    ensures GoodProof(p) <==> ValidProof(p) && p != RECEIPT_ONLY
  {
  }

  predicate GoodOptions(o: Options) {
    && (forall c :: c in o.conformanceProfiles ==> ValidIdentifier(c))
    && (|| o.upstreamClientConformance == "" || o.upstreamClientConformance == "shape-only"
        || (&& o.upstreamClientConformance == "real-client" && "upstream-client-v1" in o.conformanceProfiles
            && ValidEvidenceFields(o.upstreamClientEvidenceRef, o.upstreamClientEvidenceDigest)))
  }

  lemma TierIsPlain(t: string)
    requires ValidTier(t)
    ensures AllPlain(t)
  {
  }

  lemma ProofIsPlain(p: string)
    requires ValidProof(p)
    ensures AllPlain(p)
  {
  }

  lemma IDIsIdentifier(e: string, t: string, p: string)
    requires ValidIdentifier(e) && ValidTier(t) && ValidProof(p)
    ensures ValidIdentifier(ProfileID(e, t, p))
  {
    hide ValidIdentifier, ValidTier, ValidProof;
    TierIsPlain(t);
    ProofIsPlain(p);
    var tail := "-" + t + "-" + p + "-runtime";
    IdentifierPlusPlain(e, tail);
    assert ProfileID(e, t, p) == e + tail;
  }

  lemma DefaultNamesAreIdentifiers()
    ensures ValidIdentifier("workspace") && ValidIdentifier("node-data")
    ensures ValidIdentifier(SANDBOXED_OCI) && ValidIdentifier(CONTAINER_BUILD) && ValidIdentifier(SERVICE_OCI)
  {
    hide ValidIdentifier;
    PlainIdentifier("workspace");
    PlainIdentifier("node-data");
    PlainIdentifier(SANDBOXED_OCI);
    PlainIdentifier(CONTAINER_BUILD);
    PlainIdentifier(SERVICE_OCI);
  }

  lemma DefaultPathsAreValid()
    ensures ValidContainerPath("/tmp") && ValidContainerPath("/wfcompute-build")
  {
    OneElementPath("tmp");
    OneElementPath("wfcompute-build");
    assert "/" + "tmp" == "/tmp" && "/" + "wfcompute-build" == "/wfcompute-build";
  }

  lemma OneElementPath(name: string)
    requires AllPlain(name)
    ensures ValidContainerPath("/" + name)
  {
    var path := "/" + name;
    assert name[0] != '.';
    assert path[1..] == name && '/' !in name;
    assert Split(name, '/') == [name];
    assert '.' !in path;
    if Contains(path, "..") { ParentHasDot(path); }
  }

  lemma DefaultCapabilitiesAreValid()
    ensures ValidCapability("CHOWN") && ValidCapability("FOWNER")
  {
  }

  /** The parts of a default profile that depend on the executor alone. */
  lemma ExecutorPartsValid(e: string, t: string, p: string)
    requires e != WASM
    ensures var d := DefaultProfile(e, t, p);
            && !UsesWASM(d) && ValidRuntimeProfile(d.runtimeProfile) && PermissionRules(d)
            && (forall c :: c in d.conformanceProfiles ==> ValidIdentifier(c) && c != UPSTREAM_CLIENT) && d.conformanceProfiles != []
            && (forall w :: w in d.writablePaths ==> ValidContainerPath(w))
            && (forall c :: c in d.allowedCapabilities ==> ValidCapability(c))
            && (t != WASM_CAPABILITY <==> ContainerRules(d))
  {
    hide ValidIdentifier, ValidContainerPath, ValidCapability, ProfileID;
    DefaultNamesAreIdentifiers();
    DefaultPathsAreValid();
    DefaultCapabilitiesAreValid();
  }

  lemma WASMDefaultIsInvalid(t: string, p: string, o: Options, componentOK: string -> bool)
    ensures !ValidProfile(Cell(WASM, t, p, o), componentOK)
  {
  }

  /** A generated profile is valid exactly when each of its ingredients is. */
  lemma CellValidity(e: string, t: string, p: string, o: Options, componentOK: string -> bool)
    ensures ValidProfile(Cell(e, t, p, o), componentOK)
       <==> GoodExecutor(e) && GoodTier(t) && GoodProof(p) && GoodOptions(o)
  {
    hide ValidIdentifier, ValidContainerPath, ValidCapability, ValidTier, ValidProof, ValidEvidenceFields, ProfileID,
         ValidRuntimeProfile, PermissionRules, WASMRules;
    if e == WASM {
      WASMDefaultIsInvalid(t, p, o, componentOK);
    } else {
      var d, c := DefaultProfile(e, t, p), Cell(e, t, p, o);
      ExecutorPartsValid(e, t, p);
      CellPlacement(e, t, p, o);
      if ValidIdentifier(e) && ValidTier(t) && ValidProof(p) {
        IDIsIdentifier(e, t, p);
      }
      CellRules(e, t, p, o);
      GoodAmongValid(t, p);
    }
  }

  /** What the options add to the default profile, rule by rule. */
  lemma CellRules(e: string, t: string, p: string, o: Options)
    requires e != WASM
    ensures var c := Cell(e, t, p, o);
            && !UsesWASM(c) && ValidRuntimeProfile(c.runtimeProfile) && PermissionRules(c)
            && ValidResidue(c.residuePolicy, !c.hostWorkspaceSupported)
            && (forall w :: w in c.writablePaths ==> ValidContainerPath(w))
            && (forall a :: a in c.allowedCapabilities ==> ValidCapability(a))
            && (ContainerRules(c) <==> t != WASM_CAPABILITY)
            && (ConformanceRules(c) && UpstreamRules(c) <==> GoodOptions(o))
  {
    hide ValidIdentifier, ValidContainerPath, ValidCapability, ValidEvidenceFields, ProfileID, ValidRuntimeProfile;
    ExecutorPartsValid(e, t, p);
    var d, c := DefaultProfile(e, t, p), Cell(e, t, p, o);
    assert forall x :: x in c.conformanceProfiles <==> x in d.conformanceProfiles || x in o.conformanceProfiles;
  }

  // ---------- Validity of generated contracts ----------

  ghost predicate GoodInputs(executors: seq<string>, tiers: seq<string>, proofs: seq<string>, o: Options) {
    && executors != [] && tiers != [] && proofs != []
    && Distinct(executors) && Distinct(tiers) && Distinct(proofs)
    && (forall i :: 0 <= i < |executors| ==> GoodExecutor(executors[i]))
    && (forall j :: 0 <= j < |tiers| ==> GoodTier(tiers[j]))
    && (forall k :: 0 <= k < |proofs| ==> GoodProof(proofs[k]))
    && GoodOptions(o)
  }

  /** Two cells of the grid with one id are the same cell when the lists have no repetition. */
  lemma PositionsByID(executors: seq<string>, tiers: seq<string>, proofs: seq<string>, o: Options, m: nat, n: nat)
    requires GoodInputs(executors, tiers, proofs, o)
    requires m < |Grid(executors, tiers, proofs, o)| && n < |Grid(executors, tiers, proofs, o)|
    requires Grid(executors, tiers, proofs, o)[m].id == Grid(executors, tiers, proofs, o)[n].id
    ensures m == n
  {
    hide Cell, Grid, ValidIdentifier, ValidTier, ValidProof, GoodOptions, ProfileID;
    var i, j, k := GridIndex(executors, tiers, proofs, o, m);
    var i', j', k' := GridIndex(executors, tiers, proofs, o, n);
    CellPlacement(executors[i], tiers[j], proofs[k], o);
    CellPlacement(executors[i'], tiers[j'], proofs[k'], o);
    assert GoodTier(tiers[j]) && GoodTier(tiers[j']) && GoodProof(proofs[k]) && GoodProof(proofs[k']);
    GoodAmongValid(tiers[j], proofs[k]);
    GoodAmongValid(tiers[j'], proofs[k']);
    IDsAreUnambiguous(executors[i], tiers[j], proofs[k], executors[i'], tiers[j'], proofs[k']);
    assert i == i' && j == j' && k == k';
  }

  lemma GoodInputsGiveValidContract(executors: seq<string>, tiers: seq<string>, proofs: seq<string>, o: Options, componentOK: string -> bool)
    requires GoodInputs(executors, tiers, proofs, o)
    ensures ValidContract(Grid(executors, tiers, proofs, o), componentOK)
  {
    hide Cell, Grid, ValidProfile, GoodExecutor, GoodTier, GoodProof, GoodOptions;
    var grid := Grid(executors, tiers, proofs, o);
    GridAt(executors, tiers, proofs, o, 0, 0, 0);
    forall n | 0 <= n < |grid| ensures ValidProfile(grid[n], componentOK) {
      var i, j, k := GridIndex(executors, tiers, proofs, o, n);
      CellValidity(executors[i], tiers[j], proofs[k], o, componentOK);
    }
    forall m, n | 0 <= m < n < |grid| ensures grid[m].id != grid[n].id {
      if grid[m].id == grid[n].id { PositionsByID(executors, tiers, proofs, o, m, n); }
    }
  }

  // A valid contract has a valid cell wherever it is looked at, and no two cells share parts.
  lemma CellOfValidContract(executors: seq<string>, tiers: seq<string>, proofs: seq<string>, o: Options, componentOK: string -> bool,
                            i: nat, j: nat, k: nat)
    requires ValidContract(Grid(executors, tiers, proofs, o), componentOK)
    requires i < |executors| && j < |tiers| && k < |proofs|
    ensures GoodExecutor(executors[i]) && GoodTier(tiers[j]) && GoodProof(proofs[k]) && GoodOptions(o)
  {
    hide Cell, Grid, ValidProfile, GoodExecutor, GoodTier, GoodProof, GoodOptions;
    GridAt(executors, tiers, proofs, o, i, j, k);
    CellValidity(executors[i], tiers[j], proofs[k], o, componentOK);
  }

  lemma NoRepeatedCell(executors: seq<string>, tiers: seq<string>, proofs: seq<string>, o: Options, componentOK: string -> bool,
                       i: nat, j: nat, k: nat, i': nat, j': nat, k': nat)
    requires ValidContract(Grid(executors, tiers, proofs, o), componentOK)
    requires i < |executors| && j < |tiers| && k < |proofs| && i' < |executors| && j' < |tiers| && k' < |proofs|
    requires i * (|tiers| * |proofs|) + j * |proofs| + k < i' * (|tiers| * |proofs|) + j' * |proofs| + k'
    ensures !(executors[i] == executors[i'] && tiers[j] == tiers[j'] && proofs[k] == proofs[k'])
  {
    hide Cell, Grid, ValidProfile;
    GridAt(executors, tiers, proofs, o, i, j, k);
    GridAt(executors, tiers, proofs, o, i', j', k');
  }

  lemma DistinctInputs(executors: seq<string>, tiers: seq<string>, proofs: seq<string>, o: Options, componentOK: string -> bool)
    requires ValidContract(Grid(executors, tiers, proofs, o), componentOK)
    requires executors != [] && tiers != [] && proofs != []
    ensures Distinct(executors) && Distinct(tiers) && Distinct(proofs)
  {
    hide Grid, ValidContract;
    var size := |tiers| * |proofs|;
    assert size > 0;
    forall i, i' | 0 <= i < i' < |executors| ensures executors[i] != executors[i'] {
      TimesBelow(i, i', size);
      NoRepeatedCell(executors, tiers, proofs, o, componentOK, i, 0, 0, i', 0, 0);
    }
    forall j, j' | 0 <= j < j' < |tiers| ensures tiers[j] != tiers[j'] {
      TimesBelow(j, j', |proofs|);
      NoRepeatedCell(executors, tiers, proofs, o, componentOK, 0, j, 0, 0, j', 0);
    }
    forall k, k' | 0 <= k < k' < |proofs| ensures proofs[k] != proofs[k'] {
      NoRepeatedCell(executors, tiers, proofs, o, componentOK, 0, 0, k, 0, 0, k');
    }
  }

  /** The generated contract passes validation exactly when the three lists are non-empty,
    * free of repetitions and of unsupported values, and the options are consistent. */
  lemma GeneratedContractValidity(executors: seq<string>, tiers: seq<string>, proofs: seq<string>, o: Options, componentOK: string -> bool)
    ensures ValidContract(Grid(executors, tiers, proofs, o), componentOK) <==> GoodInputs(executors, tiers, proofs, o)
  {
    hide Grid, GoodExecutor, GoodTier, GoodProof, GoodOptions, ValidProfile;
    if GoodInputs(executors, tiers, proofs, o) {
      GoodInputsGiveValidContract(executors, tiers, proofs, o, componentOK);
    } else if ValidContract(Grid(executors, tiers, proofs, o), componentOK) {
      GridSize(executors, tiers, proofs, o);
      assert executors != [] && tiers != [] && proofs != [];
      DistinctInputs(executors, tiers, proofs, o, componentOK);
      CellOfValidContract(executors, tiers, proofs, o, componentOK, 0, 0, 0);
      forall i | 0 <= i < |executors| ensures GoodExecutor(executors[i]) {
        CellOfValidContract(executors, tiers, proofs, o, componentOK, i, 0, 0);
      }
      forall j | 0 <= j < |tiers| ensures GoodTier(tiers[j]) {
        CellOfValidContract(executors, tiers, proofs, o, componentOK, 0, j, 0);
      }
      forall k | 0 <= k < |proofs| ensures GoodProof(proofs[k]) {
        CellOfValidContract(executors, tiers, proofs, o, componentOK, 0, 0, k);
      }
    }
  }
}
