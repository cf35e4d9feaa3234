/** Agent setup install receipts: the timestamp gate and the payload that is signed. */
module InstallReceipt {
  import opened GoInt
  import opened GoTime
  import opened Identifiers

  const SCHEMA := "agent-setup-install-receipt.v1"

  type uint64 = x: int | 0 <= x < TWO64

  datatype Signature = Signature(algorithm: string, keyID: string, value: string, verified: bool)

  datatype Receipt = Receipt(
    protocolVersion: string, receiptID: string, challenge: string, inviteID: string, installSessionID: string,
    workerID: string, packageID: string, packageVersion: string, packageDigest: string, manifestDigest: string,
    bootstrapEpoch: uint64, packageEpoch: uint64, keysetEpoch: uint64,
    launcherDigest: string, slotID: string, slotDigest: string, serviceUnitDigest: string, serviceMode: string,
    startedPID: int64, heartbeatID: string, heartbeatAt: Time, cloudFinalUnit: string, scrubUnit: string,
    wrapperHash: string, scanHitCount: uint64, codeDigest: string, completedAt: Time, expiresAt: Time,
    signature: Signature)

  datatype Payload = Payload(
    domain: string, protocol_version: string, receipt_id: string, challenge: string, invite_id: string,
    install_session_id: string, worker_id: string, package_id: string, package_version: string, package_digest: string,
    manifest_digest: string, bootstrap_epoch: uint64, package_epoch: uint64, keyset_epoch: uint64,
    launcher_digest: string, slot_id: string, slot_digest: string, service_unit_digest: string, service_mode: string,
    started_pid: int64, heartbeat_id: string, heartbeat_at_unix_nano: int64, cloud_final_unit: string, scrub_unit: string,
    wrapper_hash: string, scan_hit_count: uint64, code_digest: string, completed_at_unix_nano: int64, expires_at_unix_nano: int64)

  function SigningPayload(r: Receipt): Payload {
    Payload(
      SCHEMA, r.protocolVersion, r.receiptID, r.challenge, r.inviteID,
      r.installSessionID, r.workerID, r.packageID, r.packageVersion, r.packageDigest,
      r.manifestDigest, r.bootstrapEpoch, r.packageEpoch, r.keysetEpoch,
      r.launcherDigest, r.slotID, r.slotDigest, r.serviceUnitDigest, r.serviceMode,
      r.startedPID, r.heartbeatID, UnixNanoOrZero(r.heartbeatAt), r.cloudFinalUnit, r.scrubUnit,
      r.wrapperHash, r.scanHitCount, r.codeDigest, UnixNanoOrZero(r.completedAt), UnixNanoOrZero(r.expiresAt))
  }

  // ---------- Validity ----------

  function IdentifierFields(r: Receipt): seq<string> {
    [r.receiptID, r.inviteID, r.installSessionID, r.workerID, r.packageID, r.packageVersion, r.serviceMode,
     r.heartbeatID, r.cloudFinalUnit, r.scrubUnit]
  }

  function DigestFields(r: Receipt): seq<string> {
    [r.packageDigest, r.manifestDigest, r.launcherDigest, r.slotDigest, r.serviceUnitDigest, r.wrapperHash, r.codeDigest]
  }

  function TimeFields(r: Receipt): seq<Time> {
    [r.heartbeatAt, r.completedAt, r.expiresAt]
  }

  /** Exactly representable and not the epoch, on unbounded integers. */
  predicate NanosecondTimestamp(t: Time) {
    ExactUnixNano(t) != 0 && Fits64(ExactUnixNano(t))
  }

  /** The gate as the source computes it: non-zero, and unchanged by a trip through the
    * wrapping UnixNano and the reader that turns 0 into the zero time. */
  predicate PassesGate(t: Time) {
    !IsZero(t) && TimeFromUnixNano(UnixNanoOrZero(t)) == t
  }

  /** The gate admits exactly the representable non-epoch instants. */
  lemma GateIsExact(t: Time)
    ensures PassesGate(t) <==> NanosecondTimestamp(t)
  {
  }

  /** `challengeOK`: the base64 decoder accepts the challenge and yields 32 bytes. */
  ghost predicate Valid(r: Receipt, challengeOK: string -> bool) {
    && r.protocolVersion == VERSION
    && (forall i :: 0 <= i < |IdentifierFields(r)| ==> ValidIdentifier(IdentifierFields(r)[i]))
    && challengeOK(r.challenge)
    && (forall i :: 0 <= i < |DigestFields(r)| ==> ValidSHA256Digest(DigestFields(r)[i]))
    && r.bootstrapEpoch > 0 && r.packageEpoch > 0 && r.keysetEpoch > 0
    && (r.slotID == "A" || r.slotID == "B")
    && r.startedPID > 0 && r.scanHitCount == 0
    && (forall i :: 0 <= i < |TimeFields(r)| ==> NanosecondTimestamp(TimeFields(r)[i]))
    && r.heartbeatAt <= r.completedAt < r.expiresAt
  }

  method CountBadIdentifiers(fields: seq<string>) returns (errs: nat)
    ensures errs == 0 <==> forall i :: 0 <= i < |fields| ==> ValidIdentifier(fields[i])
  {
    hide ValidIdentifier;
    errs := 0;
    for n := 0 to |fields|
      invariant errs == 0 <==> forall i :: 0 <= i < n ==> ValidIdentifier(fields[i])
    {
      if !ValidIdentifier(fields[n]) {
        errs := errs + 1;
      }
    }
  }

  method CountBadDigests(fields: seq<string>) returns (errs: nat)
    ensures errs == 0 <==> forall i :: 0 <= i < |fields| ==> ValidSHA256Digest(fields[i])
  {
    hide ValidSHA256Digest;
    errs := 0;
    for n := 0 to |fields|
      invariant errs == 0 <==> forall i :: 0 <= i < n ==> ValidSHA256Digest(fields[i])
    {
      if !ValidSHA256Digest(fields[n]) {
        errs := errs + 1;
      }
    }
  }

  method CountBadTimestamps(fields: seq<Time>) returns (errs: nat)
    ensures errs == 0 <==> forall i :: 0 <= i < |fields| ==> NanosecondTimestamp(fields[i])
  {
    errs := 0;
    for n := 0 to |fields|
      invariant errs == 0 <==> forall i :: 0 <= i < n ==> NanosecondTimestamp(fields[i])
    {
      var value := fields[n];
      GateIsExact(value);
      if IsZero(value) || TimeFromUnixNano(UnixNanoOrZero(value)) != value {
        errs := errs + 1;
      }
    }
  }

  /** The number of errors joined into the verdict. */
  method Validate(r: Receipt, challengeOK: string -> bool) returns (errs: nat)
    ensures errs == 0 <==> Valid(r, challengeOK)
  {
    hide ValidIdentifier, ValidSHA256Digest, NanosecondTimestamp;
    errs := if r.protocolVersion != VERSION then 1 else 0;
    var identifiers := CountBadIdentifiers(IdentifierFields(r));
    errs := errs + identifiers;
    if !challengeOK(r.challenge) {
      errs := errs + 1;
    }
    var digests := CountBadDigests(DigestFields(r));
    errs := errs + digests;
    if r.bootstrapEpoch == 0 || r.packageEpoch == 0 || r.keysetEpoch == 0 {
      errs := errs + 1;
    }
    if r.slotID != "A" && r.slotID != "B" {
      errs := errs + 1;
    }
    if r.startedPID <= 0 || r.scanHitCount != 0 {
      errs := errs + 1;
    }
    var timestamps := CountBadTimestamps(TimeFields(r));
    errs := errs + timestamps;
    if r.heartbeatAt > r.completedAt || !(r.completedAt < r.expiresAt) {
      errs := errs + 1;
    }
  }

  // ---------- What a signature binds ----------

  lemma CountDeterminesTimestamp(t: Time, u: Time)
    requires NanosecondTimestamp(t) && NanosecondTimestamp(u)
    ensures UnixNanoOrZero(t) == UnixNanoOrZero(u) <==> t == u
  {
  }

  /** Signed payloads lose nothing: two valid receipts have the same payload exactly when
    * they agree on every field but the signature. */
  lemma PayloadDeterminesReceipt(a: Receipt, b: Receipt, challengeOK: string -> bool)
    requires Valid(a, challengeOK) && Valid(b, challengeOK)
    ensures SigningPayload(a) == SigningPayload(b) <==> a.(signature := b.signature) == b
  {
    hide ValidIdentifier, ValidSHA256Digest;
    forall i | 0 <= i < 3 ensures UnixNanoOrZero(TimeFields(a)[i]) == UnixNanoOrZero(TimeFields(b)[i]) <==> TimeFields(a)[i] == TimeFields(b)[i] {
      CountDeterminesTimestamp(TimeFields(a)[i], TimeFields(b)[i]);
    }
    assert TimeFields(a)[0] == a.heartbeatAt && TimeFields(a)[1] == a.completedAt && TimeFields(a)[2] == a.expiresAt;
    assert TimeFields(b)[0] == b.heartbeatAt && TimeFields(b)[1] == b.completedAt && TimeFields(b)[2] == b.expiresAt;
  }

  lemma CountsCollide(t: Time)
    requires !IsZero(t) && !IsZero(t + TWO64)
    ensures UnixNanoOrZero(t + TWO64) == UnixNanoOrZero(t)
    ensures !(NanosecondTimestamp(t) && NanosecondTimestamp(t + TWO64))
  {
    WrapIsPeriodic(ExactUnixNano(t));
    assert ExactUnixNano(t + TWO64) == ExactUnixNano(t) + TWO64;
    hide Wrap64;
  }

  /** Without the gate payloads do collide: moving any of the three timestamps by 2^64 ns
    * keeps the payload, and at most one of the two receipts is valid. */
  lemma GateBreaksCollisions(r: Receipt, moved: Receipt, challengeOK: string -> bool)
    requires || (moved == r.(heartbeatAt := r.heartbeatAt + TWO64) && !IsZero(r.heartbeatAt) && !IsZero(r.heartbeatAt + TWO64))
             || (moved == r.(completedAt := r.completedAt + TWO64) && !IsZero(r.completedAt) && !IsZero(r.completedAt + TWO64))
             || (moved == r.(expiresAt := r.expiresAt + TWO64) && !IsZero(r.expiresAt) && !IsZero(r.expiresAt + TWO64))
    ensures SigningPayload(moved) == SigningPayload(r) && moved != r
    ensures !(Valid(r, challengeOK) && Valid(moved, challengeOK))
  {
    hide ValidIdentifier, ValidSHA256Digest, UnixNanoOrZero, NanosecondTimestamp;
    var i := if moved.heartbeatAt != r.heartbeatAt then 0 else if moved.completedAt != r.completedAt then 1 else 2;
    CountsCollide(TimeFields(r)[i]);
    assert TimeFields(moved)[i] == TimeFields(r)[i] + TWO64;
  }

  // ---------- Every field by name ----------

  /** Which field is held to which rule. */
  lemma ValidOnFields(r: Receipt, challengeOK: string -> bool)
    ensures Valid(r, challengeOK)
       <==> && r.protocolVersion == "compute.v1alpha1"
            && ValidIdentifier(r.receiptID) && ValidIdentifier(r.inviteID) && ValidIdentifier(r.installSessionID)
            && ValidIdentifier(r.workerID) && ValidIdentifier(r.packageID) && ValidIdentifier(r.packageVersion)
            && ValidIdentifier(r.serviceMode) && ValidIdentifier(r.heartbeatID) && ValidIdentifier(r.cloudFinalUnit)
            && ValidIdentifier(r.scrubUnit)
            && challengeOK(r.challenge)
            && ValidSHA256Digest(r.packageDigest) && ValidSHA256Digest(r.manifestDigest) && ValidSHA256Digest(r.launcherDigest)
            && ValidSHA256Digest(r.slotDigest) && ValidSHA256Digest(r.serviceUnitDigest) && ValidSHA256Digest(r.wrapperHash)
            && ValidSHA256Digest(r.codeDigest)
            && r.bootstrapEpoch > 0 && r.packageEpoch > 0 && r.keysetEpoch > 0
            && r.slotID in ["A", "B"] && r.startedPID > 0 && r.scanHitCount == 0
            && NanosecondTimestamp(r.heartbeatAt) && NanosecondTimestamp(r.completedAt) && NanosecondTimestamp(r.expiresAt)
            && r.heartbeatAt <= r.completedAt && r.completedAt < r.expiresAt
  {
    hide ValidIdentifier, ValidSHA256Digest, NanosecondTimestamp;
    var ids, digests, times := IdentifierFields(r), DigestFields(r), TimeFields(r);
    assert |ids| == 10 && |digests| == 7 && |times| == 3;
    assert ids[0] == r.receiptID && ids[1] == r.inviteID && ids[2] == r.installSessionID && ids[3] == r.workerID && ids[4] == r.packageID;
    assert ids[5] == r.packageVersion && ids[6] == r.serviceMode && ids[7] == r.heartbeatID && ids[8] == r.cloudFinalUnit && ids[9] == r.scrubUnit;
    assert digests[0] == r.packageDigest && digests[1] == r.manifestDigest && digests[2] == r.launcherDigest && digests[3] == r.slotDigest;
    assert digests[4] == r.serviceUnitDigest && digests[5] == r.wrapperHash && digests[6] == r.codeDigest;
    assert times[0] == r.heartbeatAt && times[1] == r.completedAt && times[2] == r.expiresAt;
  }

  /** Every receipt field is signed under its own name; of a valid receipt the three instants
    * are signed as their exact nanoseconds since the epoch. */
  lemma PayloadOnFields(r: Receipt, challengeOK: string -> bool)
    ensures var p := SigningPayload(r);
            && p.domain == "agent-setup-install-receipt.v1" && p.protocol_version == r.protocolVersion
            && p.receipt_id == r.receiptID && p.challenge == r.challenge && p.invite_id == r.inviteID
            && p.install_session_id == r.installSessionID && p.worker_id == r.workerID
            && p.package_id == r.packageID && p.package_version == r.packageVersion && p.package_digest == r.packageDigest
            && p.manifest_digest == r.manifestDigest
            && p.bootstrap_epoch == r.bootstrapEpoch && p.package_epoch == r.packageEpoch && p.keyset_epoch == r.keysetEpoch
            && p.launcher_digest == r.launcherDigest && p.slot_id == r.slotID && p.slot_digest == r.slotDigest
            && p.service_unit_digest == r.serviceUnitDigest && p.service_mode == r.serviceMode
            && p.started_pid == r.startedPID && p.heartbeat_id == r.heartbeatID
            && p.cloud_final_unit == r.cloudFinalUnit && p.scrub_unit == r.scrubUnit && p.wrapper_hash == r.wrapperHash
            && p.scan_hit_count == r.scanHitCount && p.code_digest == r.codeDigest
    ensures var p := SigningPayload(r);
            Valid(r, challengeOK) ==>
              && p.heartbeat_at_unix_nano + 62_135_596_800 * 1_000_000_000 == r.heartbeatAt
              && p.completed_at_unix_nano + 62_135_596_800 * 1_000_000_000 == r.completedAt
              && p.expires_at_unix_nano + 62_135_596_800 * 1_000_000_000 == r.expiresAt
  {
    if Valid(r, challengeOK) {
      hide Valid;
      ValidOnFields(r, challengeOK);
      forall t | NanosecondTimestamp(t) ensures UnixNanoOrZero(t) == t - UNIX_EPOCH {}
    }
  }
}
