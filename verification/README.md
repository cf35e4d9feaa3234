# Verification of the compute protocol contracts

A Dafny model of the parts of `workflow-plugin-compute-core` that compute something: stream
manifest verification and billing, the runtime profile grid and the evidence recorded in it,
idle agent selection, capability derivation, the encodings that must undo each other, and the
strict decoder. `dafny verify dfyconfig.toml` checks the project.

## How the source is represented

- A Go string is a sequence of bytes, one `char` per byte. `strings.TrimSpace`, `Split`, `Join`
  and `Cut` are written out on bytes in `GoStrings.dfy`.
- `int` and `int64` are the integers of `GoInt.int64`; every operation that can leave the range
  goes through `Wrap64`. `time.Duration` is such an int64. A `time.Time` is its exact number of
  nanoseconds since the zero Time; `Sub` saturates and `UnixNano` wraps, as in Go.
- A joined error is the number of errors appended (`errs`); the source returns nil at zero. A
  value with an error or an `ok` result is an `Option` or a pair.
- Loops over slices and maps are methods with loops. `VerifyManifest` calls one method per
  numbered pass of the source. Places where Go leaves an order open (map iteration, `Range` over
  message fields) pick an arbitrary element.
- Library verdicts that the source only consumes are function parameters: `url.Parse` (`URLRules`),
  base64 (`challengeOK`), the component reference parser (`componentOK`), SHA-256 (`digest`), and
  `RuntimeBackendReport.ValidateAt` (`Validity`). Where the source reads the clock, `now` is a
  parameter.

## Findings about the code

Four promises hold only under a condition. Each has a lemma at an input where it fails and a
lemma with the exact condition.

- Reflection window (protocol/stream_proof.go:270-279): a nonce issued 2^63 ns or more after its
  reflection passes every window, because int64 negation of -2^63 is itself, and a difference
  above int64 saturates and passes the widest. Input: `LateNoncePasses`. Condition:
  `MachineAcceptanceIsExact`.
- Joining windows and cutting a manifest (protocol/stream_proof.go:239-245, 270-279): the prefix
  sums wrap, so neither always preserves acceptance. Inputs: `LowOverflowBreaksAJoin`,
  `HighOverflowBreaksACut`. Conditions: `WindowsComposeExactly`, `WindowSplitsExactly`, for every
  window and every nonce. `FittingDurationsNeverOverflow` shows that non-negative durations with a
  total in int64 are always safe.
- Evidence and validity (protocol/types.go:5796-5806, 4918-4937): evidence that names a
  conformance profile other than upstream-client-v1 can make a valid contract invalid. Input:
  `EvidenceCanInvalidate`. Conditions: `ValidityUnderEvidence` for one call, `RunValidity` for runs.
- Audit timestamps (protocol/types.go:1973-1985): a timestamp equal to the Unix epoch is stored as
  0 and read back as the zero Time. Input: `EpochIsLost`. Condition: `RecordRoundTrip`.

## Model

| member | source | states |
|---|---|---|
| StreamManifest.VerifyManifest | protocol/stream_proof.go:208-304 | The number of errors is one per item that fails its declarative condition, and it is zero exactly when `Accepts` holds: non-empty, strictly increasing indexes, every jump consecutive or bracketed by a marker, every nonce issued (last duplicate wins) and reflected by an existing segment within the window, every receipt single-segment with the segment's hash. No map or array appears in the condition. |
| StreamManifest.NoProblemsIffAccepted | protocol/stream_proof.go:211-303 | The count of failing items is zero exactly for acceptable manifests; in particular the wrapping test `cur == prev+1` can only misjudge a pair that the order check already reports. |
| StreamManifest.IndexPositions | protocol/stream_proof.go:246-250 | The position map holds exactly the occurring indexes, each with its last position. |
| StreamManifest.IndexIssued | protocol/stream_proof.go:252-256 | The registry map holds exactly the issued nonces, each with its last entry. |
| StreamManifest.CumulativeDurations | protocol/stream_proof.go:239-245 | Entry i, accumulated with wrapping steps, is the int64 wrap of the exact sum of the first i+1 durations. |
| StreamManifest.GapCovered | protocol/stream_proof.go:309-316 | True exactly when some marker brackets this jump. |
| StreamFields.MissingIndexIsBracketed | protocol/stream_proof.go:226-237 | Every index missing from an accepted manifest lies strictly between prev_seq and resume_seq of a marker, and these are the indexes of two neighbouring segments in this order. |
| StreamFields.BracketingMarkersSuffice | protocol/stream_proof.go:226-237 | A manifest sound apart from its jumps is accepted with one marker per neighbouring pair that runs from the left index to the right one. |
| StreamFields.AcceptanceOnFields | protocol/stream_proof.go:208-304 | For manifests whose prefix sums fit int64: acceptance, stated on the fields with milliseconds times 10^6, neighbours and hashes, without any map, array, wrap or saturation. |
| StreamFields.NewestRegistrationDecides | protocol/stream_proof.go:252-256 | Registering a nonce again replaces its earlier registration and affects no other nonce. |
| StreamManifest.VerifiedDeliveredBytes | protocol/stream_proof.go:131-154 | The figure is the int64 wrap of the exact sum of the credits of all receipts, each credit being the bytes of the host-verified segment named and matched. |
| StreamFields.CreditOfOneSegment | protocol/stream_proof.go:136-151 | A receipt earns the bytes of a segment exactly when it covers that one index, the hashes agree and the provenance is "host-verified"; otherwise nothing. |
| StreamFields.LastSegmentPays | protocol/stream_proof.go:132-135 | Among segments with one index the last one pays, accepted manifest or not. |
| StreamFields.OnlyHostVerifiedBytesPay | protocol/stream_proof.go:131-154 | In an accepted manifest d more bytes on a "host-verified" segment add d times the receipts naming it; on an "attested" segment they add nothing. |
| StreamFields.UnverifiedBytesNeverPay | protocol/stream_proof.go:145-147 | In any manifest the bytes of a segment that is not "host-verified" never change the figure. |
| StreamTime.WindowVerdictExactness | protocol/stream_proof.go:269-279 | The machine verdict equals the exact abs(x) <= w if and only if x > -2^63 and, when x exceeds int64, w < 2^63-1. |
| StreamTime.LowerLimitIsTight | protocol/stream_proof.go:271-275 | At and below -2^63 every window accepts; one nanosecond above only the widest does. |
| StreamTime.PrefixArrayExact | protocol/stream_proof.go:239-245 | With non-negative durations whose total fits int64 the prefix array is exact and non-decreasing. |
| StreamTime.MachineAcceptanceIsExact | protocol/stream_proof.go:239-280 | When every prefix sum fits int64, acceptance on unbounded integers is machine acceptance together with every reflected difference being above -2^63 and, under the widest window, within int64. |
| StreamTime.FittingDurationsFitPrefixes | protocol/stream_proof.go:239-245 | Non-negative durations with a total in int64 make every prefix sum fit. |
| StreamTime.LateNoncePasses | protocol/stream_proof.go:270-279 | A manifest accepted under window 0 that exact arithmetic refuses. |
| StreamGaps.SpanIsSegmentsPlusMarkedGaps | protocol/stream_proof.go:216-237 | In an accepted manifest last - first + 1 is the number of segments plus the total width of the marked gaps. |
| StreamGaps.EveryIndexAccountedFor | protocol/stream_proof.go:216-237 | Every index in the span is a segment index or lies in exactly one gap between neighbours, never both, and that gap is marked. |
| StreamGaps.UnmarkedIndexesAreContiguous | protocol/stream_proof.go:226-250 | Without markers the indexes are first, first+1, ..., and the position of an index is its offset from the first. |
| StreamBilling.BillIsBytesTimesReceipts | protocol/stream_proof.go:131-154 | For accepted manifests the sum over receipts equals the sum over host-verified segments of bytes times the number of receipts naming them. |
| StreamBilling.FigureDependsOnClaimsOnly | protocol/stream_proof.go:131-154 | The figure ignores receipt order, receipt byte claims, consumers, kinds and the worker-reported total. |
| StreamBilling.FigureWithinBound | protocol/stream_proof.go:131-154 | With segment sizes in [0, B] and B times the receipts within int64 the figure is exact and lies in [0, B times receipts]. |
| StreamWindows.WindowsCompose | protocol/stream_proof.go:208-304 | Two accepted consecutive windows join into an accepted manifest exactly when the seam is increasing and consecutive or marked, provided no joined duration sum at a reflected segment falls below int64. |
| StreamWindows.WindowsComposeExactly | protocol/stream_proof.go:208-304 | For any two accepted consecutive windows and any window width: the join is accepted exactly when the seam holds and every nonce of the second window whose joined sum falls below int64 is forgiven, a condition on its difference and the window alone. |
| StreamWindows.WindowsComposeInRange | protocol/stream_proof.go:239-280 | Below the widest window, with no nonce issued 2^63 ns too late, forgiven means no low overflow at all. |
| StreamWindows.WindowSplits | protocol/stream_proof.go:208-304 | Cutting an accepted manifest with nonces and receipts sorted by index gives two accepted manifests, provided no joined duration sum at a reflected segment rises above int64. |
| StreamWindows.WindowSplitsExactly | protocol/stream_proof.go:208-304 | For any accepted manifest, any cut and any window width: the first half is accepted, and the second exactly when every nonce of it whose joined sum rises above int64 is forgiven. |
| StreamWindows.WindowSplitsInRange | protocol/stream_proof.go:239-280 | Below the widest window, with no nonce issued 2^63 ns too late, forgiven means no high overflow at all. |
| StreamWindows.VerdictUnderShift | protocol/stream_proof.go:270-279 | Moving a reflection 2^64 ns earlier never loses an acceptance; moving it later keeps exactly the forgiven ones. |
| StreamWindows.CutAccepted | protocol/stream_proof.go:208-304 | For any manifest and any cut position: accepted exactly when both halves are accepted and the seam holds, if no sum overflows at a reflected segment. |
| StreamWindows.CutBillsBoth | protocol/stream_proof.go:131-154 | The exact figure of any increasing manifest is the sum of the figures of its two halves. |
| StreamWindows.ConcatBillsBoth | protocol/stream_proof.go:131-154 | The figure of the concatenation of two accepted windows is the (wrapping) sum of both. |
| StreamWindows.FittingDurationsNeverOverflow | protocol/stream_proof.go:239-245 | Non-negative durations with a total in int64 meet both overflow conditions wherever they are cut. |
| StreamWindows.LowOverflowBreaksAJoin | protocol/stream_proof.go:239-279 | Two accepted windows with a sound seam whose join is refused. |
| StreamWindows.HighOverflowBreaksACut | protocol/stream_proof.go:239-279 | An accepted manifest whose second half is refused. |
| StreamChain.ChainAccepted | protocol/stream_proof.go:131-304 | Any number of accepted windows, each following the one before, form one accepted manifest that bills the sum of its windows, when the durations are non-negative with a total in int64. |
| RuntimeGrid.DefaultProviderRuntimeContract | protocol/types.go:5116-5133 | The nested loops build the grid of executors, tiers and proofs. |
| RuntimeContents.GridContents | protocol/types.go:5053-5133 | At every position of the grid: which executor gets which runtime profile, root file system, capabilities, paths, mounts, tools and digests, by name and in both directions; the default conformance name first, then the options; everything else forbidden. |
| RuntimeGrid.GridAt | protocol/types.go:5116-5133 | The profile of executor i, tier j and proof k sits at i\*T\*P + j\*P + k, and there are E\*T\*P profiles. |
| RuntimeGrid.GridIndex | protocol/types.go:5116-5133 | Every position of the grid arises from one such triple. |
| RuntimeGrid.LookupInGrid | protocol/types.go:4768-4777 | The lookup succeeds exactly when all three values occur in their lists and returns the profile at the index made of their first occurrences. |
| RuntimeProfiles.RuntimeProfileForRequirements | protocol/types.go:4768-4777 | Returns the first profile that agrees on executor, tier and proof, or the empty profile and false. |
| RuntimeProfiles.ValidateContract | protocol/types.go:4743-4761 | No error exactly when there is a profile, all are valid and ids are pairwise distinct. |
| RuntimeContents.ValidProfileOnFields | protocol/types.go:4819-4939 | The valid profiles by literal values: component runtimes with the wasm tier, container runtimes with the five container tiers, six proofs, five forbidden permissions, and real-client only with upstream-client-v1 and evidence. |
| RuntimeContents.ValidResidueOnFields | protocol/types.go:4978-5031 | The valid residue policies by literal values; a place without workspace cannot reuse one. |
| ProfileIDs.IDsAreUnambiguous | protocol/types.go:5086-5087 | For recognised tiers and proofs equal ids mean equal executor, tier and proof, although every part may hold dashes. |
| ProfileIDs.CellValidity | protocol/types.go:4819-4939 | A generated profile passes validation exactly when the executor is an identifier other than wasm-component, the tier and proof are supported, and the options are consistent. |
| ProfileIDs.GeneratedContractValidity | protocol/types.go:4743-4761 | The generated contract passes validation exactly when the three lists are non-empty, repetition-free and of supported values, and the options are consistent. |
| ConformanceEvidence.ProviderContract.ApplyProviderConformanceEvidence | protocol/types.go:5783-5809 | Writes the shared profile array in place; on failure (a nil receiver included) nothing changes, on success exactly the first profile with the named id is updated. |
| EvidenceRuns.RecordsOnFields | protocol/types.go:5742-5800 | Which calls record evidence in profile i, on the fields of contract and evidence. |
| EvidenceRuns.LastRecordWins | protocol/types.go:5796-5805 | After any run the profile carries the reference and digest of the last call that recorded evidence in it and is "real-client"; nothing but these fields and the conformance list changed. |
| EvidenceRuns.NoRecordNoChange | protocol/types.go:5783-5809 | A profile in which no call of a run recorded evidence is unchanged. |
| EvidenceRuns.NamesAreAppended | protocol/types.go:5803-5805 | After any run the conformance list is the old one followed by the recorded names it lacked, each once, in order of first recording. |
| ConformanceEvidence.OnlyTheNamedProfileChanges | protocol/types.go:5796-5807 | All other profiles, all ids, the contract tuple and every lookup by requirements or by id are unchanged. |
| ConformanceEvidence.ApplyingTwiceIsOnce | protocol/types.go:5796-5807 | Applying the same evidence again has the same outcome and changes nothing more. |
| ConformanceEvidence.DifferentProfilesCommute | protocol/types.go:5796-5807 | Evidence about different profiles can be applied in either order. |
| ConformanceEvidence.ValidityUnderEvidence | protocol/types.go:4254-4377 | A valid contract stays valid under applicable evidence exactly when the evidence names upstream-client-v1 or the named profile already lists it. |
| ConformanceEvidence.RunsKeepStructure | protocol/types.go:5783-5809 | Any run of calls keeps ids, tuple, lookups, distinctness of conformance lists, and every profile no call names. |
| ConformanceEvidence.RunValidity | protocol/types.go:4254-4377 | A run leaves a valid contract valid exactly when every profile in which some call records evidence listed upstream-client-v1 before or has it named by one of those calls. |
| ConformanceEvidence.UpstreamStatementRequired | protocol/types.go:4368-4375 | Exactly the contracts of two named plugins need "shape-only" or "real-client" in every profile. |
| ConformanceEvidence.RunsKeepValidity | protocol/types.go:4918-4937 | A valid contract stays valid over any run whose evidence names upstream-client-v1. |
| ConformanceEvidence.EvidenceCanInvalidate | protocol/types.go:4918-4937 | A valid contract and applicable evidence whose result is invalid. |
| AgentSelection.AgentMatchesNetwork | protocol/types.go:4095-4112 | True exactly when an enabled profile serves the network, or the agent's own network does and no profile restates it. |
| AgentSelection.SelectIdleAgent | protocol/types.go:4076-4093 | Returns the agent at the leftmost eligible position, or the zero agent and false when there is none. |
| AgentFields.EligibleOnFields | protocol/types.go:4076-4112 | Eligibility on the fields: "online", no lease ending after now, and an enabled profile for the network or the agent's own network without a product-less profile for it. |
| AgentFields.SwitchedOffIsNeverChosen | protocol/types.go:4095-4112 | An agent with a disabled product-less profile for its own network and no enabled profile for it is never chosen for it. |
| AgentFields.SwitchedOnIsEligible | protocol/types.go:4095-4112 | With that profile enabled, or removed when no other product-less one names the network, the agent or an earlier one is chosen. |
| AgentFields.OtherDisabledProfilesIgnored | protocol/types.go:4101-4110 | A disabled profile that names a product, or another network than the agent's own, has no effect. |
| AgentFields.OrderAndPaddingIgnored | protocol/types.go:4076-4112 | The choice depends neither on the order of profiles and leases nor on white space around the requested names. |
| AgentSelection.ChoiceIsLeftmost | protocol/types.go:4076-4093 | The chosen position is eligible and no earlier one is. |
| AgentSelection.LaterNeverMovesLater | protocol/types.go:4082-4087 | Advancing the clock never moves the choice later. |
| AgentSelection.MoreLeasesNeverMoveEarlier | protocol/types.go:4082-4087 | Adding leases never moves the choice earlier. |
| AgentSelection.RunsExhaustTheEligible | protocol/types.go:4076-4093 | A run of grants at one instant never repeats an identity, grants only initially eligible ones, and the search fails after it exactly when all of them have been granted. |
| AgentFields.SomeRunGrantsAll | protocol/types.go:4076-4093 | From any state some run grants every eligible identity, after which the search fails. |
| AgentFields.EveryGrantFollowsTheChoice | protocol/types.go:4076-4093 | Every lease of a run goes to the agent chosen after the leases before it. |
| NetworkAuditID.ProjectNetworkAuditID | protocol/types.go:1480-1494 | An error for no components or an invalid one, otherwise the id of the framed stream of all components. |
| NetworkAuditID.ComponentOnBytes | protocol/types.go:1486-1488 | A component is refused exactly when it is blank or holds a NUL, CR, LF or TAB byte. |
| NetworkAuditID.FrameText | protocol/types.go:1489-1491 | Each further component appends its length, a colon, its bytes and a NUL to the stream. |
| NetworkAuditID.DecimalDigits | protocol/types.go:1489 | The length is decimal, most significant digit first, without leading zeros. |
| NetworkAuditID.UnframeFrame | protocol/types.go:1489-1491 | Whatever follows a frame, reading it back gives the component and the rest. |
| NetworkAuditID.FramesDecode | protocol/types.go:1485-1492 | A decoder recovers every list of components from its stream. |
| NetworkAuditID.IDsDistinguishLists | protocol/types.go:1480-1494 | Unless the hash collides on the two streams, equal ids mean equal component lists. |
| ArtifactRef.TaskArtifactRefParts | protocol/client.go:336-351 | Accepts exactly the references printed from safe parts, and returns parts that print back to the input. |
| RefText.AcceptedText | protocol/client.go:336-351 | Exactly which texts are accepted: the scheme, the fixed words in their places, a name, no empty, "." or ".." segment anywhere, and none of eight bytes. |
| ArtifactRef.RefUnique | protocol/client.go:336-351 | No reference has two readings. |
| ArtifactRef.EscapedPath | protocol/client.go:328-334 | The path is a slash and the escaped segments joined by slashes. |
| RefText.EscapedOnBytes | protocol/client.go:328-334 | Letters, digits and -_.~$&+=:@ stay; every other byte becomes a percent sign and two upper-case hexadecimal digits. |
| ArtifactRef.PathDecodes | protocol/client.go:328-334 | Splitting and percent-decoding (section 2.1 of RFC 3986) a path returns its segments, whatever bytes they hold. |
| ArtifactRef.DownloadTaskArtifactPath | protocol/client.go:197-203 | A refused reference has no path; an accepted one has the path of its task, proof and name. |
| RefText.PathText | protocol/client.go:197-203 | The path is /v1/tasks/T/proofs/P/artifacts/N with every part escaped. |
| ArtifactRef.DownloadPathIdentifies | protocol/client.go:197-203 | Two references share a download path exactly when task, proof and name agree. |
| RunLogPolicy.ValidateAuthorityIdentifier | protocol/types.go:4003-4022 | True exactly for 1 to 256 bytes of the identifier alphabet starting with a letter or digit. |
| RunLogPolicy.IdentifierOnBytes | protocol/types.go:4003-4022 | The identifier syntax by literal bytes and lengths. |
| RunLogPolicy.ValidatePolicyRef | protocol/types.go:3970-4001 | True exactly when the reference has at most 512 bytes and prints some well-formed global, client, customer or provider policy. |
| RunLogPolicy.ReferenceText | protocol/types.go:3977-3999 | The well-formed references as text: "global", or client:, customer: and provider: with their identifiers. |
| RunLogPolicy.DecompositionUnique | protocol/types.go:3977-3999 | A reference has at most one decomposition. |
| RunLogPolicy.CapExcludesLongProvidersOnly | protocol/types.go:3971-3973 | The cap refuses exactly the provider references whose identifiers total more than 502 bytes; the other forms never exceed 265 bytes. |
| Identifiers.IdentifierOnASCII | protocol/types.go:7068-7080 | An ASCII identifier is accepted exactly when it is not empty, holds no reserved character, and has no vertical tab or form feed at an end. |
| AuditRecord.CopyStringMap | protocol/types.go:1987-1996 | Copies the entries in any order; an empty map becomes nil. |
| AuditRecord.RecordRoundTrip | protocol/types.go:1799-1845 | A valid record comes back from its message, labels normalised, exactly when each timestamp is zero or strictly after the epoch and within int64 nanoseconds. |
| AuditRecord.MessageOnFields | protocol/types.go:1799-1814 | Every record field is written under its own name, instants as exact nanoseconds since 1970. |
| AuditRecord.EpochIsLost | protocol/types.go:1973-1985 | A valid record that started at the Unix epoch is not returned by its own message. |
| AuditRecord.MessageRoundTrip | protocol/types.go:1816-1845 | Converting the record of an accepted message back gives the message with absent sub-messages as empty ones; its destination cannot have been absent. |
| AuditRecord.AcceptedMessageOnFields | protocol/types.go:1613-1845 | What an accepted message guarantees field by field: identifiers, digests, amounts, at most 32 labels, the order of its times, and the destination rule of its kind. |
| GoTime.TimeRoundTrip | protocol/types.go:1973-1985 | An instant survives its stored count exactly when it is the zero Time or a non-epoch instant within int64 nanoseconds. |
| InstallReceipt.Validate | protocol/bootstrap.go:206-249 | No error exactly for the declared validity, with the timestamp gate stated on unbounded integers. |
| InstallReceipt.ValidOnFields | protocol/bootstrap.go:206-249 | Which rule each of the named fields is held to. |
| InstallReceipt.GateIsExact | protocol/bootstrap.go:236-245 | The computed gate admits exactly the instants whose exact nanosecond count is non-zero and fits int64. |
| InstallReceipt.PayloadDeterminesReceipt | protocol/bootstrap.go:259-268 | Two valid receipts have equal signing payloads exactly when they agree on every field but the signature. |
| InstallReceipt.PayloadOnFields | protocol/bootstrap.go:259-268 | Every field is signed under its own name in its own domain; the instants of a valid receipt as exact nanoseconds since 1970. |
| InstallReceipt.GateBreaksCollisions | protocol/bootstrap.go:236-268 | Receipts that differ by 2^64 ns in any one of the three timestamps share a payload, and at most one of them is valid. |
| UnknownFields.RejectUnknownProtoFields | protocol/types.go:1858-1900 | Rejects exactly when some message of the tree carries unknown bytes, terminates, and gives this verdict for every visiting order. |
| UnknownFields.CleanOnPaths | protocol/types.go:1858-1900 | A tree is clean exactly when no path through lists, maps and message fields leads to unknown bytes. |
| Capabilities.SupportedExecutors | protocol/types.go:1083-1093 | Returns, in order, exactly the executors of usable reports. |
| Capabilities.ProviderCapabilityReports | protocol/types.go:1095-1125 | Returns the first mentions of all providers of usable reports, as supported. |
| Capabilities.CapabilitiesAreFirstMentions | protocol/types.go:1095-1125 | Each mentioned provider is listed exactly once, in order of first mention, and nothing else is. |
| Capabilities.OneReportContributes | protocol/types.go:1083-1125 | A report adds its executors, and its provider names followed by theirs, exactly when it is "supported" and valid. |
| Capabilities.ReportForProvider | protocol/types.go:1262-1272 | Finds the first report naming the provider; the empty name has none. |
| Capabilities.HaveSupportedMatch | protocol/types.go:1250-1260 | True exactly when some matching executor's provider has no report or a first report that is supported. |
| Capabilities.MatchOnFields | protocol/types.go:1250-1260 | A match needs an executor that agrees with every non-empty requirement and whose named provider's first report, if any, is "supported". |
| Capabilities.DegradedProviderIsOut | protocol/types.go:1250-1272 | A report of another status in front takes exactly the executors of its provider out. |
| Capabilities.DerivedMatchAgreesWithSource | protocol/types.go:1083-1260 | Fed with both derivations at one instant, the match succeeds exactly when some executor of a usable report meets the requirements. |

## Left out

- ValidProfile: `ProviderRuntimeProfile.Validate`, `ResiduePolicy.Validate` and `WASMRuntimeContract.Validate` are the predicates their error lists decide, not the loops that append; `strings.ToUpper` is modelled on ASCII capability names only.
- ValidContainerPath: `path.Clean` is represented by its fixed points among absolute paths without "..".
- Valid: the checks of `ProviderContract.Validate` on fields outside the runtime contract are one boolean, since evidence never writes those fields.
- ApplyProviderConformanceEvidence: the aliasing of a profile's conformance list with spare capacity of another slice; the sharing of the profile array is modelled. The default contract gives every profile a list of its own.
- ValidRecord, ValidEvidence, Payload, Record: validators and converters are field-by-field expressions; protobuf encoding, unknown bytes of these two messages and JSON are not modelled.
- Time: locations, monotonic clock readings, and the wrap of time.Time's own 64-bit second counter about 292 billion years away.
- ProjectNetworkAuditID: SHA-256 itself; results are about the hashed stream.
- Manifest: sampled frames, pushed-byte maps, dropped frames and signatures, which neither algorithm reads.
- Agent, Lease, BackendReport, ExecutorRef: fields the modelled functions do not read.
- HTTP transport, base URL joining, body limits and JSON decoding in protocol/client.go: input and output.
- Signatures, HMAC and base64: library code.
- The other field validators of protocol/types.go (tasks, leases, network products, marketplace, settlement, reputation, media): they would only add branch-by-branch members.
- Error texts and their order.
