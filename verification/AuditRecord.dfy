/** Network audit records and their protobuf form. */
module AuditRecord {
  import opened GoInt
  import opened GoStrings
  import opened GoTime
  import opened Identifiers
  import opened Results

  const MAX_LABELS := 32

  /** A Go map of strings: nil and empty are different values of the same content. */
  datatype StringMap = NilMap | MapOf(entries: map<string, string>)
  {
    function Entries(): map<string, string> {
      if NilMap? then map[] else entries
    }
  }

  datatype ProviderEvidence = ProviderEvidence(
    providerID: string, pluginName: string, pluginVersion: string,
    contractID: string, contractVersion: string, descriptorDigest: string)

  datatype Destination = Destination(kind: string, value: string)

  datatype ResourceUsage = ResourceUsage(
    cpuMillis: int64, gpuMillis: int64, maxMemoryBytes: int64, networkRxBytes: int64, networkTxBytes: int64,
    workspaceBytes: int64, outputBytes: int64, limitHit: string)

  datatype Record = Record(
    protocolVersion: string, recordID: string, taskID: string, leaseID: string, workerID: string,
    provider: ProviderEvidence, destination: Destination, resourceUsage: ResourceUsage, labels: StringMap,
    startedAt: Time, finishedAt: Time, observedAt: Time)

  // The generated message types, field by field.
  datatype ProviderMessage = ProviderMessage(
    provider_id: string, plugin_name: string, plugin_version: string,
    contract_id: string, contract_version: string, descriptor_digest: string)

  datatype DestinationMessage = DestinationMessage(kind: string, value: string)

  datatype UsageMessage = UsageMessage(
    cpu_millis: int64, gpu_millis: int64, max_memory_bytes: int64, network_rx_bytes: int64, network_tx_bytes: int64,
    workspace_bytes: int64, output_bytes: int64, limit_hit: string)

  datatype RecordMessage = RecordMessage(
    protocol_version: string, record_id: string, task_id: string, lease_id: string, worker_id: string,
    provider: Option<ProviderMessage>, destination: Option<DestinationMessage>, resource_usage: Option<UsageMessage>,
    labels: StringMap, started_at_unix_nano: int64, finished_at_unix_nano: int64, observed_at_unix_nano: int64)

  // ---------- Validation ----------

  /** The verdicts that url.Parse decides, on endpoint and on lifecycle destinations. */
  datatype URLRules = URLRules(endpoint: string -> bool, lifecycle: string -> bool)

  predicate OptionalIdentifier(id: string) {
    id != "" ==> ValidIdentifier(id)
  }

  predicate ValidProvider(p: ProviderEvidence) {
    && OptionalIdentifier(p.providerID) && OptionalIdentifier(p.pluginName) && OptionalIdentifier(p.pluginVersion)
    && OptionalIdentifier(p.contractID) && OptionalIdentifier(p.contractVersion)
    && (p.descriptorDigest != "" ==> ValidSHA256Digest(p.descriptorDigest))
  }

  predicate ValidDestination(d: Destination, urls: URLRules) {
    && d.value != "" && TrimSpace(d.value) == d.value && !ContainsAny(d.value, " \t\r\n\0")
    && match d.kind {
         case "endpoint" => urls.endpoint(d.value)
         case "sha256" => ValidSHA256Ref(d.value)
         case "artifact" => ValidScopedRef(d.value, "artifact://")
         case "network-lifecycle" => urls.lifecycle(d.value)
         case _ => false
       }
  }

  predicate ValidUsage(u: ResourceUsage) {
    && u.cpuMillis >= 0 && u.gpuMillis >= 0 && u.maxMemoryBytes >= 0 && u.networkRxBytes >= 0 && u.networkTxBytes >= 0
    && u.workspaceBytes >= 0 && u.outputBytes >= 0
    && (u.limitHit != "" ==> TrimSpace(u.limitHit) == u.limitHit && !ContainsAny(u.limitHit, " \t\r\n/:?&#\0"))
  }

  predicate ValidLabels(labels: map<string, string>) {
    && |labels| <= MAX_LABELS
    && forall k :: k in labels ==> ValidIdentifier(k) && labels[k] != "" && TrimSpace(labels[k]) == labels[k]
                                   && !ContainsAny(labels[k], "\t\r\n\0")
  }

  predicate ValidRecord(r: Record, urls: URLRules) {
    && r.protocolVersion == VERSION
    && ValidIdentifier(r.recordID)
    && OptionalIdentifier(r.taskID) && OptionalIdentifier(r.leaseID) && OptionalIdentifier(r.workerID)
    && ValidProvider(r.provider) && ValidDestination(r.destination, urls) && ValidUsage(r.resourceUsage)
    && ValidLabels(r.labels.Entries())
    && !(!IsZero(r.startedAt) && !IsZero(r.finishedAt) && r.finishedAt < r.startedAt)
    && !(!IsZero(r.finishedAt) && !IsZero(r.observedAt) && r.observedAt < r.finishedAt)
  }

  // ---------- Conversions ----------

  /** An empty map becomes nil, any other map a copy of itself. */
  function CopyOf(input: StringMap): StringMap {
    if input.Entries() == map[] then NilMap else input
  }

  method CopyStringMap(input: StringMap) returns (output: StringMap)
    ensures output == CopyOf(input)
  {
    var entries := input.Entries();
    if |entries| == 0 {
      return NilMap;
    }
    var copied: map<string, string> := map[];
    var pending := entries.Keys;
    while pending != {}
      invariant pending <= entries.Keys && copied.Keys == entries.Keys - pending
      invariant forall k :: k in copied ==> copied[k] == entries[k]
      decreases |pending|
    {
      var key :| key in pending;
      pending := pending - {key};
      copied := copied[key := entries[key]];
    }
    assert copied == entries;
    return MapOf(copied);
  }

  function ProviderToProto(p: ProviderEvidence): ProviderMessage {
    ProviderMessage(p.providerID, p.pluginName, p.pluginVersion, p.contractID, p.contractVersion, p.descriptorDigest)
  }

  function ProviderFromProto(message: Option<ProviderMessage>): ProviderEvidence {
    match message
    case None => ProviderEvidence("", "", "", "", "", "")
    case Some(m) => ProviderEvidence(m.provider_id, m.plugin_name, m.plugin_version, m.contract_id, m.contract_version, m.descriptor_digest)
  }

  function DestinationToProto(d: Destination): DestinationMessage {
    DestinationMessage(d.kind, d.value)
  }

  function DestinationFromProto(message: Option<DestinationMessage>): Destination {
    match message
    case None => Destination("", "")
    case Some(m) => Destination(m.kind, m.value)
  }

  function UsageToProto(u: ResourceUsage): UsageMessage {
    UsageMessage(u.cpuMillis, u.gpuMillis, u.maxMemoryBytes, u.networkRxBytes, u.networkTxBytes, u.workspaceBytes, u.outputBytes, u.limitHit)
  }

  function UsageFromProto(message: Option<UsageMessage>): ResourceUsage {
    match message
    case None => ResourceUsage(0, 0, 0, 0, 0, 0, 0, "")
    case Some(m) =>
      ResourceUsage(m.cpu_millis, m.gpu_millis, m.max_memory_bytes, m.network_rx_bytes, m.network_tx_bytes,
                    m.workspace_bytes, m.output_bytes, m.limit_hit)
  }

  function ToProto(r: Record): RecordMessage {
    RecordMessage(
      r.protocolVersion, r.recordID, r.taskID, r.leaseID, r.workerID,
      Some(ProviderToProto(r.provider)), Some(DestinationToProto(r.destination)), Some(UsageToProto(r.resourceUsage)),
      CopyOf(r.labels), UnixNanoOrZero(r.startedAt), UnixNanoOrZero(r.finishedAt), UnixNanoOrZero(r.observedAt))
  }

  /** The record of a message before validation. */
  function RecordOf(m: RecordMessage): Record {
    Record(
      m.protocol_version, m.record_id, m.task_id, m.lease_id, m.worker_id,
      ProviderFromProto(m.provider), DestinationFromProto(m.destination), UsageFromProto(m.resource_usage),
      CopyOf(m.labels), TimeFromUnixNano(m.started_at_unix_nano), TimeFromUnixNano(m.finished_at_unix_nano),
      TimeFromUnixNano(m.observed_at_unix_nano))
  }

  function FromProto(message: Option<RecordMessage>, urls: URLRules): Option<Record> {
    match message
    case None => None
    case Some(m) =>
      if m.started_at_unix_nano < 0 || m.finished_at_unix_nano < 0 || m.observed_at_unix_nano < 0 then None
      else
        var record := RecordOf(m);
        if ValidRecord(record, urls) then Some(record) else None
  }

  // ---------- Round trips ----------

  /** Instants that survive: the zero time, and those strictly after the Unix epoch whose
    * nanosecond count fits int64. */
  predicate Storable(t: Time) {
    IsZero(t) || 0 < ExactUnixNano(t) <= MAX64
  }

  lemma StorableTime(t: Time)
    ensures Storable(t) <==> UnixNanoOrZero(t) >= 0 && TimeFromUnixNano(UnixNanoOrZero(t)) == t
  {
  }

  ghost function Normalised(r: Record): Record {
    r.(labels := CopyOf(r.labels))
  }

  /** A valid record comes back from its message, labels normalised, exactly when its three
    * timestamps are storable. */
  lemma RecordRoundTrip(r: Record, urls: URLRules)
    requires ValidRecord(r, urls)
    ensures FromProto(Some(ToProto(r)), urls) == Some(Normalised(r))
       <==> Storable(r.startedAt) && Storable(r.finishedAt) && Storable(r.observedAt)
  {
    hide ValidProvider, ValidDestination, ValidUsage, ValidLabels, ValidIdentifier;
    StorableTime(r.startedAt);
    StorableTime(r.finishedAt);
    StorableTime(r.observedAt);
    assert CopyOf(r.labels).Entries() == r.labels.Entries();
  }

  lemma SampleRefIsTrimmed()
    ensures TrimSpace(SAMPLE_REF) == SAMPLE_REF && !ContainsAny(SAMPLE_REF, " \t\r\n\0")
  {
  }

  lemma SampleDestinationIsValid(urls: URLRules)
    ensures ValidDestination(Destination("artifact", SAMPLE_REF), urls)
  {
    hide TrimSpace, ContainsAny, ValidScopedRef;
    SampleRefIsScoped();
    SampleRefIsTrimmed();
  }

  /** A valid record that started at the Unix epoch is not returned by its own message. */
  lemma EpochIsLost(urls: URLRules)
    ensures exists r: Record :: ValidRecord(r, urls) && r.startedAt == UNIX_EPOCH
              && FromProto(Some(ToProto(r)), urls) != Some(Normalised(r))
  {
    var r := Record(
      VERSION, "r", "", "", "", ProviderEvidence("", "", "", "", "", ""), Destination("artifact", SAMPLE_REF),
      ResourceUsage(0, 0, 0, 0, 0, 0, 0, ""), NilMap, UNIX_EPOCH, ZERO_TIME, ZERO_TIME);
    assert ValidIdentifier("r");
    hide ValidIdentifier, ValidDestination, FromProto, ToProto, Normalised;
    SampleDestinationIsValid(urls);
    assert ValidRecord(r, urls);
    RecordRoundTrip(r, urls);
  }

  /** The message with absent sub-messages replaced by empty ones and labels normalised. */
  ghost function Completed(m: RecordMessage): RecordMessage {
    m.(provider := Some(if m.provider.Some? then m.provider.value else ProviderMessage("", "", "", "", "", "")),
       destination := Some(if m.destination.Some? then m.destination.value else DestinationMessage("", "")),
       resource_usage := Some(if m.resource_usage.Some? then m.resource_usage.value else UsageMessage(0, 0, 0, 0, 0, 0, 0, "")),
       labels := CopyOf(m.labels))
  }

  /** An accepted message is reproduced by converting its record back; the destination of an
    * accepted message is never absent. */
  lemma MessageRoundTrip(m: RecordMessage, urls: URLRules)
    requires FromProto(Some(m), urls).Some?
    ensures ToProto(FromProto(Some(m), urls).value) == Completed(m)
    ensures m.destination.Some?
  {
    hide ValidProvider, ValidUsage, ValidLabels, ValidIdentifier;
    CountRoundTrip(m.started_at_unix_nano);
    CountRoundTrip(m.finished_at_unix_nano);
    CountRoundTrip(m.observed_at_unix_nano);
  }

  // ---------- Every field by name ----------

  /** Each record field is written under its own name. */
  lemma MessageOnFields(r: Record)
    ensures var m := ToProto(r);
            && m.protocol_version == r.protocolVersion && m.record_id == r.recordID && m.task_id == r.taskID
            && m.lease_id == r.leaseID && m.worker_id == r.workerID && m.labels.Entries() == r.labels.Entries()
            && (m.labels.NilMap? <==> r.labels.Entries() == map[])
    ensures var m := ToProto(r).provider;
            && m.Some? && m.value.provider_id == r.provider.providerID && m.value.plugin_name == r.provider.pluginName
            && m.value.plugin_version == r.provider.pluginVersion && m.value.contract_id == r.provider.contractID
            && m.value.contract_version == r.provider.contractVersion && m.value.descriptor_digest == r.provider.descriptorDigest
    ensures var m := ToProto(r).destination;
            m.Some? && m.value.kind == r.destination.kind && m.value.value == r.destination.value
    ensures var m := ToProto(r).resource_usage;
            && m.Some? && m.value.cpu_millis == r.resourceUsage.cpuMillis && m.value.gpu_millis == r.resourceUsage.gpuMillis
            && m.value.max_memory_bytes == r.resourceUsage.maxMemoryBytes
            && m.value.network_rx_bytes == r.resourceUsage.networkRxBytes && m.value.network_tx_bytes == r.resourceUsage.networkTxBytes
            && m.value.workspace_bytes == r.resourceUsage.workspaceBytes && m.value.output_bytes == r.resourceUsage.outputBytes
            && m.value.limit_hit == r.resourceUsage.limitHit
    ensures Storable(r.startedAt) ==> Count(ToProto(r).started_at_unix_nano, r.startedAt)
    ensures Storable(r.finishedAt) ==> Count(ToProto(r).finished_at_unix_nano, r.finishedAt)
    ensures Storable(r.observedAt) ==> Count(ToProto(r).observed_at_unix_nano, r.observedAt)
  {
  }

  /** The stored number is 0 for the zero Time, else the exact nanoseconds since the epoch. */
  ghost predicate Count(stored: int64, t: Time) {
    if t == 0 then stored == 0 else t == stored + 62_135_596_800 * 1_000_000_000
  }

  /** What an accepted message guarantees, whichever fields it leaves out. */
  lemma AcceptedMessageOnFields(m: RecordMessage, urls: URLRules)
    requires FromProto(Some(m), urls).Some?
    ensures m.protocol_version == "compute.v1alpha1" && ValidIdentifier(m.record_id)
    ensures forall id :: id in [m.task_id, m.lease_id, m.worker_id] ==> id == "" || ValidIdentifier(id)
    ensures m.provider.Some? ==>
              var p := m.provider.value;
              forall id :: id in [p.provider_id, p.plugin_name, p.plugin_version, p.contract_id, p.contract_version] ==> id == "" || ValidIdentifier(id)
    ensures m.provider.Some? && m.provider.value.descriptor_digest != "" ==> ValidSHA256Digest(m.provider.value.descriptor_digest)
    ensures m.resource_usage.Some? ==>
              var u := m.resource_usage.value;
              && u.cpu_millis >= 0 && u.gpu_millis >= 0 && u.max_memory_bytes >= 0 && u.network_rx_bytes >= 0 && u.network_tx_bytes >= 0
              && u.workspace_bytes >= 0 && u.output_bytes >= 0
    ensures |m.labels.Entries()| <= 32 && forall k :: k in m.labels.Entries() ==> ValidIdentifier(k) && m.labels.Entries()[k] != ""
    ensures m.started_at_unix_nano >= 0 && m.finished_at_unix_nano >= 0 && m.observed_at_unix_nano >= 0
    ensures m.started_at_unix_nano > 0 && m.finished_at_unix_nano > 0 ==> m.started_at_unix_nano <= m.finished_at_unix_nano
    ensures m.finished_at_unix_nano > 0 && m.observed_at_unix_nano > 0 ==> m.finished_at_unix_nano <= m.observed_at_unix_nano
    ensures m.destination.Some? && m.destination.value.kind in ["endpoint", "sha256", "artifact", "network-lifecycle"]
    ensures m.destination.value.kind == "endpoint" ==> urls.endpoint(m.destination.value.value)
    ensures m.destination.value.kind == "sha256" ==> ValidSHA256Ref(m.destination.value.value)
    ensures m.destination.value.kind == "artifact" ==> "artifact://" < m.destination.value.value
    ensures m.destination.value.kind == "network-lifecycle" ==> urls.lifecycle(m.destination.value.value)
  {
    hide ValidIdentifier, TrimSpace, ContainsAny, ValidSHA256Ref, ValidSHA256Digest, Contains;
  }
}
