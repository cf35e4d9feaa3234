/** The evidence payload of a streaming task receipt, what it means for a manifest to be
  * acceptable, and the two algorithms that read it: content verification and the billing
  * figure. */
module StreamManifest {
  import opened GoInt
  import opened GoTime

  const PROVENANCE_HOST_VERIFIED := "host-verified"

  datatype Segment = Segment(index: int64, durationMS: int64, bytes: int64, sha256: string, provenance: string)

  datatype LivenessNonce = LivenessNonce(nonce: string, issuedAt: Time, reflectedInSeq: int64)

  datatype DeliveryReceipt = DeliveryReceipt(
    consumerID: string, kind: string, seqStart: int64, seqEnd: int64, bytes: int64, sha256: string)

  datatype Discontinuity = Discontinuity(at: Time, reason: string, prevSeq: int64, resumeSeq: int64)

  datatype Manifest = Manifest(
    streamID: string,
    startedAt: Time,
    livenessNonces: seq<LivenessNonce>,
    segments: seq<Segment>,
    deliveryReceipts: seq<DeliveryReceipt>,
    workerReportedDeliveredBytes: int64,
    discontinuities: seq<Discontinuity>)

  // ---------- Acceptance, stated without maps or arrays ----------

  ghost predicate StrictlyIncreasing(s: seq<Segment>) {
    forall i, j :: 0 <= i < j < |s| ==> s[i].index < s[j].index
  }

  ghost predicate Marked(prev: int64, cur: int64, marks: seq<Discontinuity>) {
    exists d :: d in marks && d.prevSeq == prev && d.resumeSeq == cur
  }

  /** `cur` follows `prev` directly, or a marker brackets exactly this jump. */
  ghost predicate Continues(prev: int64, cur: int64, marks: seq<Discontinuity>) {
    cur == prev + 1 || Marked(prev, cur, marks)
  }

  ghost predicate GapsMarked(s: seq<Segment>, marks: seq<Discontinuity>) {
    forall i :: 0 < i < |s| ==> Continues(s[i - 1].index, s[i].index, marks)
  }

  /** Position `p` holds the segment with this index; if several do, the last one. */
  ghost predicate LastAt(s: seq<Segment>, index: int, p: int) {
    0 <= p < |s| && s[p].index == index && forall q :: p < q < |s| ==> s[q].index != index
  }

  /** Entry `k` is the one registered under this nonce; the last duplicate wins. */
  ghost predicate LastIssued(issued: seq<LivenessNonce>, nonce: string, k: int) {
    0 <= k < |issued| && issued[k].nonce == nonce && forall j :: k < j < |issued| ==> issued[j].nonce != nonce
  }

  /** Exact nanoseconds of the first `n` segments. */
  ghost function ExactNanos(s: seq<Segment>, n: nat): int
    requires n <= |s|
  {
    if n == 0 then 0 else ExactNanos(s, n - 1) + s[n - 1].durationMS * MILLISECOND
  }

  /** The int64 the source holds for the same sum. */
  ghost function Elapsed(s: seq<Segment>, n: nat): Duration
    requires n <= |s|
  {
    Wrap64(ExactNanos(s, n))
  }

  /** The verdict on one reflection, in machine arithmetic: saturating difference,
    * wrapping negation. */
  predicate WithinWindow(reflectedAt: Time, issuedAt: Time, window: Duration) {
    var diff := Sub(reflectedAt, issuedAt);
    var magnitude := if diff < 0 then Negate64(diff) else diff;
    magnitude <= window
  }

  ghost predicate ReflectionAccepted(m: Manifest, issued: seq<LivenessNonce>, window: Duration, n: LivenessNonce, k: int, p: int) {
    && LastIssued(issued, n.nonce, k)
    && LastAt(m.segments, n.reflectedInSeq, p)
    && WithinWindow(Add(m.startedAt, Elapsed(m.segments, p + 1)), issued[k].issuedAt, window)
  }

  ghost predicate NonceAccepted(m: Manifest, issued: seq<LivenessNonce>, window: Duration, n: LivenessNonce) {
    exists k, p :: ReflectionAccepted(m, issued, window, n, k, p)
  }

  ghost predicate ReceiptAccepted(s: seq<Segment>, r: DeliveryReceipt) {
    r.seqStart == r.seqEnd && exists p :: LastAt(s, r.seqStart, p) && s[p].sha256 == r.sha256
  }

  ghost predicate Accepts(m: Manifest, issued: seq<LivenessNonce>, window: Duration) {
    && m.segments != []
    && StrictlyIncreasing(m.segments)
    && GapsMarked(m.segments, m.discontinuities)
    && (forall n :: n in m.livenessNonces ==> NonceAccepted(m, issued, window, n))
    && (forall r :: r in m.deliveryReceipts ==> ReceiptAccepted(m.segments, r))
  }

  // ---------- The number of problems reported, one per failing item ----------

  ghost function OrderProblems(s: seq<Segment>, n: nat): nat
    requires n <= |s|
  {
    if n <= 1 then 0
    else OrderProblems(s, n - 1) + if s[n - 1].index <= s[n - 2].index then 1 else 0
  }

  ghost function GapProblems(s: seq<Segment>, marks: seq<Discontinuity>, n: nat): nat
    requires n <= |s|
  {
    if n <= 1 then 0
    else GapProblems(s, marks, n - 1)
         + if s[n - 1].index == Wrap64(s[n - 2].index + 1) || Marked(s[n - 2].index, s[n - 1].index, marks) then 0 else 1
  }

  ghost function NonceProblems(m: Manifest, issued: seq<LivenessNonce>, window: Duration, n: nat): nat
    requires n <= |m.livenessNonces|
  {
    if n == 0 then 0
    else NonceProblems(m, issued, window, n - 1) + if NonceAccepted(m, issued, window, m.livenessNonces[n - 1]) then 0 else 1
  }

  ghost function ReceiptProblems(s: seq<Segment>, receipts: seq<DeliveryReceipt>, n: nat): nat
    requires n <= |receipts|
  {
    if n == 0 then 0
    else ReceiptProblems(s, receipts, n - 1) + if ReceiptAccepted(s, receipts[n - 1]) then 0 else 1
  }

  ghost function ProblemCount(m: Manifest, issued: seq<LivenessNonce>, window: Duration): nat {
    if m.segments == [] then 1
    else OrderProblems(m.segments, |m.segments|)
         + GapProblems(m.segments, m.discontinuities, |m.segments|)
         + NonceProblems(m, issued, window, |m.livenessNonces|)
         + ReceiptProblems(m.segments, m.deliveryReceipts, |m.deliveryReceipts|)
  }

  lemma {:induction false} NoOrderProblems(s: seq<Segment>, n: nat)
    requires n <= |s|
    ensures OrderProblems(s, n) == 0 <==> StrictlyIncreasing(s[..n])
  {
    if n > 1 {
      NoOrderProblems(s, n - 1);
      var t, u := s[..n - 1], s[..n];
      if StrictlyIncreasing(t) && s[n - 2].index < s[n - 1].index {
        forall i, j | 0 <= i < j < n ensures u[i].index < u[j].index {
          assert t[n - 2] == s[n - 2];
          if j < n - 1 { assert t[i].index < t[j].index; }
          else if i < n - 2 { assert t[i].index < t[n - 2].index; }
        }
      } else if StrictlyIncreasing(u) {
        assert u[n - 2].index < u[n - 1].index;
        forall i, j | 0 <= i < j < n - 1 ensures t[i].index < t[j].index {
          assert u[i].index < u[j].index;
        }
      }
    }
  }

  // The machine test `cur == prev+1` wraps, but only a decreasing pair can tell.
  lemma {:induction false} NoGapProblems(s: seq<Segment>, marks: seq<Discontinuity>, n: nat)
    requires n <= |s| && StrictlyIncreasing(s)
    ensures GapProblems(s, marks, n) == 0 <==> forall i :: 0 < i < n ==> Continues(s[i - 1].index, s[i].index, marks)
  {
    if n > 1 {
      NoGapProblems(s, marks, n - 1);
      assert s[n - 2].index < s[n - 1].index;
    }
  }

  lemma {:induction false} NoNonceProblems(m: Manifest, issued: seq<LivenessNonce>, window: Duration, n: nat)
    requires n <= |m.livenessNonces|
    ensures NonceProblems(m, issued, window, n) == 0
       <==> forall x :: x in m.livenessNonces[..n] ==> NonceAccepted(m, issued, window, x)
  {
    if n > 0 {
      NoNonceProblems(m, issued, window, n - 1);
      assert m.livenessNonces[..n] == m.livenessNonces[..n - 1] + [m.livenessNonces[n - 1]];
    }
  }

  lemma {:induction false} NoReceiptProblems(s: seq<Segment>, receipts: seq<DeliveryReceipt>, n: nat)
    requires n <= |receipts|
    ensures ReceiptProblems(s, receipts, n) == 0 <==> forall r :: r in receipts[..n] ==> ReceiptAccepted(s, r)
  {
    if n > 0 {
      NoReceiptProblems(s, receipts, n - 1);
      assert receipts[..n] == receipts[..n - 1] + [receipts[n - 1]];
    }
  }

  /** No problem is reported exactly when the manifest is acceptable. */
  lemma NoProblemsIffAccepted(m: Manifest, issued: seq<LivenessNonce>, window: Duration)
    ensures ProblemCount(m, issued, window) == 0 <==> Accepts(m, issued, window)
  {
    var s := m.segments;
    if s != [] {
      NoOrderProblems(s, |s|);
      assert s[..|s|] == s;
      if StrictlyIncreasing(s) { NoGapProblems(s, m.discontinuities, |s|); }
      NoNonceProblems(m, issued, window, |m.livenessNonces|);
      assert m.livenessNonces[..|m.livenessNonces|] == m.livenessNonces;
      NoReceiptProblems(s, m.deliveryReceipts, |m.deliveryReceipts|);
      assert m.deliveryReceipts[..|m.deliveryReceipts|] == m.deliveryReceipts;
    }
  }

  // ---------- The hash indexes the source builds ----------

  /** Segment index to the last position carrying it. */
  ghost predicate IndexesPositions(positions: map<int64, int>, s: seq<Segment>) {
    && (forall i :: 0 <= i < |s| ==> s[i].index in positions)
    && (forall x :: x in positions ==> LastAt(s, x, positions[x]))
  }

  ghost predicate IndexesSegments(byIndex: map<int64, Segment>, s: seq<Segment>) {
    && (forall i :: 0 <= i < |s| ==> s[i].index in byIndex)
    && (forall x :: x in byIndex ==> exists p :: LastAt(s, x, p) && s[p] == byIndex[x])
  }

  ghost predicate IndexesIssued(byNonce: map<string, LivenessNonce>, issued: seq<LivenessNonce>) {
    && (forall i :: 0 <= i < |issued| ==> issued[i].nonce in byNonce)
    && (forall x :: x in byNonce ==> exists k :: LastIssued(issued, x, k) && issued[k] == byNonce[x])
  }

  method IndexSegments(s: seq<Segment>) returns (byIndex: map<int64, Segment>)
    ensures IndexesSegments(byIndex, s)
  {
    byIndex := map[];
    ghost var positions: map<int64, int> := map[];
    for i := 0 to |s|
      invariant IndexesPositions(positions, s[..i])
      invariant byIndex.Keys == positions.Keys
      invariant forall x :: x in byIndex ==> byIndex[x] == s[positions[x]]
    {
      byIndex := byIndex[s[i].index := s[i]];
      positions := positions[s[i].index := i];
    }
    assert s[..|s|] == s;
  }

  method IndexPositions(s: seq<Segment>) returns (positions: map<int64, int>)
    ensures IndexesPositions(positions, s)
  {
    positions := map[];
    for i := 0 to |s|
      invariant IndexesPositions(positions, s[..i])
    {
      positions := positions[s[i].index := i];
    }
    assert s[..|s|] == s;
  }

  method IndexIssued(issued: seq<LivenessNonce>) returns (byNonce: map<string, LivenessNonce>)
    ensures IndexesIssued(byNonce, issued)
  {
    byNonce := map[];
    ghost var entries: map<string, int> := map[];
    for i := 0 to |issued|
      invariant forall j :: 0 <= j < i ==> issued[j].nonce in entries
      invariant forall x :: x in entries ==> LastIssued(issued[..i], x, entries[x])
      invariant byNonce.Keys == entries.Keys
      invariant forall x :: x in byNonce ==> byNonce[x] == issued[entries[x]]
    {
      byNonce := byNonce[issued[i].nonce := issued[i]];
      entries := entries[issued[i].nonce := i];
    }
    assert issued[..|issued|] == issued;
  }

  /** The prefix-sum array, each entry accumulated with wrapping additions. */
  method CumulativeDurations(s: seq<Segment>) returns (cum: array<int64>)
    requires s != []
    ensures fresh(cum) && cum.Length == |s|
    ensures forall i :: 0 <= i < |s| ==> cum[i] == Elapsed(s, i + 1)
  {
    cum := new int64[|s|];
    cum[0] := Wrap64(s[0].durationMS * MILLISECOND);
    assert ExactNanos(s, 1) == ExactNanos(s, 0) + s[0].durationMS * MILLISECOND;
    for i := 1 to |s|
      invariant forall j :: 0 <= j < i ==> cum[j] == Elapsed(s, j + 1)
    {
      cum[i] := Wrap64(cum[i - 1] + Wrap64(s[i].durationMS * MILLISECOND));
      WrapAddBoth(ExactNanos(s, i), s[i].durationMS * MILLISECOND);
    }
  }

  method GapCovered(prevIdx: int64, curIdx: int64, marks: seq<Discontinuity>) returns (covered: bool)
    ensures covered <==> Marked(prevIdx, curIdx, marks)
  {
    for i := 0 to |marks|
      invariant !Marked(prevIdx, curIdx, marks[..i])
    {
      if marks[i].prevSeq == prevIdx && marks[i].resumeSeq == curIdx {
        return true;
      }
    }
    assert marks[..|marks|] == marks;
    return false;
  }

  // ---------- The two algorithms ----------

  // Pass 1: strictly increasing indexes.
  method CheckOrder(s: seq<Segment>) returns (errs: nat)
    ensures errs == OrderProblems(s, |s|)
  {
    errs := 0;
    for i := 0 to |s|
      invariant errs == OrderProblems(s, i)
    {
      if i > 0 && s[i].index <= s[i - 1].index {
        errs := errs + 1;
      }
    }
  }

  // Pass 4 (run second): index continuity.
  method CheckContinuity(s: seq<Segment>, marks: seq<Discontinuity>) returns (errs: nat)
    requires s != []
    ensures errs == GapProblems(s, marks, |s|)
  {
    errs := 0;
    for i := 1 to |s|
      invariant errs == GapProblems(s, marks, i)
    {
      var prev: int := s[i - 1].index;
      var cur := s[i].index;
      if cur == Wrap64(prev + 1) {
        continue;
      }
      var covered := GapCovered(prev, cur, marks);
      if !covered {
        errs := errs + 1;
      }
    }
  }

  /** The registered nonce and the named position are unique, so one pair settles the verdict. */
  lemma TheReflectionDecides(m: Manifest, issued: seq<LivenessNonce>, window: Duration, n: LivenessNonce, k: int, p: int)
    requires LastIssued(issued, n.nonce, k) && LastAt(m.segments, n.reflectedInSeq, p)
    ensures NonceAccepted(m, issued, window, n)
       <==> WithinWindow(Add(m.startedAt, Elapsed(m.segments, p + 1)), issued[k].issuedAt, window)
  {
    if WithinWindow(Add(m.startedAt, Elapsed(m.segments, p + 1)), issued[k].issuedAt, window) {
      assert ReflectionAccepted(m, issued, window, n, k, p);
    }
  }

  // Pass 2: every reflected nonce was issued and came back in time.
  method CheckReflections(m: Manifest, issuedNonces: seq<LivenessNonce>, reflectWindow: Duration) returns (errs: nat)
    requires m.segments != []
    ensures errs == NonceProblems(m, issuedNonces, reflectWindow, |m.livenessNonces|)
  {
    errs := 0;
    var cumDuration := CumulativeDurations(m.segments);
    var segPosition := IndexPositions(m.segments);
    var issuedByNonce := IndexIssued(issuedNonces);
    for i := 0 to |m.livenessNonces|
      invariant errs == NonceProblems(m, issuedNonces, reflectWindow, i)
      invariant forall j :: 0 <= j < |m.segments| ==> cumDuration[j] == Elapsed(m.segments, j + 1)
    {
      var n := m.livenessNonces[i];
      if n.nonce !in issuedByNonce {
        assert !NonceAccepted(m, issuedNonces, reflectWindow, n);
        errs := errs + 1;
        continue;
      }
      var issued := issuedByNonce[n.nonce];
      if n.reflectedInSeq !in segPosition {
        assert !NonceAccepted(m, issuedNonces, reflectWindow, n);
        errs := errs + 1;
        continue;
      }
      var pos := segPosition[n.reflectedInSeq];
      ghost var k :| LastIssued(issuedNonces, n.nonce, k) && issuedNonces[k] == issued;
      TheReflectionDecides(m, issuedNonces, reflectWindow, n, k, pos);
      var diff := Sub(Add(m.startedAt, cumDuration[pos]), issued.issuedAt);
      if diff < 0 {
        diff := Negate64(diff);
      }
      assert diff <= reflectWindow <==> NonceAccepted(m, issuedNonces, reflectWindow, n);
      if diff > reflectWindow {
        errs := errs + 1;
      }
    }
  }

  // Pass 3: every receipt covers one segment and carries its hash.
  method CheckReceipts(s: seq<Segment>, receipts: seq<DeliveryReceipt>) returns (errs: nat)
    ensures errs == ReceiptProblems(s, receipts, |receipts|)
  {
    errs := 0;
    var segByIndex := IndexSegments(s);
    for i := 0 to |receipts|
      invariant errs == ReceiptProblems(s, receipts, i)
    {
      var r := receipts[i];
      if r.seqStart != r.seqEnd {
        errs := errs + 1;
        continue;
      }
      if r.seqStart !in segByIndex {
        errs := errs + 1;
        continue;
      }
      var seg := segByIndex[r.seqStart];
      if seg.sha256 != r.sha256 {
        errs := errs + 1;
      }
    }
  }

  /** The number of errors joined into the verdict; the source returns nil when it is zero. */
  method VerifyManifest(m: Manifest, issuedNonces: seq<LivenessNonce>, reflectWindow: Duration) returns (errs: nat)
    ensures errs == ProblemCount(m, issuedNonces, reflectWindow)
    ensures errs == 0 <==> Accepts(m, issuedNonces, reflectWindow)
  {
    NoProblemsIffAccepted(m, issuedNonces, reflectWindow);
    if |m.segments| == 0 {
      return 1;
    }
    var order := CheckOrder(m.segments);
    var gaps := CheckContinuity(m.segments, m.discontinuities);
    var reflections := CheckReflections(m, issuedNonces, reflectWindow);
    var receipts := CheckReceipts(m.segments, m.deliveryReceipts);
    errs := order + gaps + reflections + receipts;
  }

  /** What one receipt earns: the bytes of the host-verified segment it names and matches. */
  ghost function Credit(s: seq<Segment>, r: DeliveryReceipt): int {
    if r.seqStart == r.seqEnd && exists p :: LastAt(s, r.seqStart, p) then
      var p :| LastAt(s, r.seqStart, p);
      if s[p].provenance == PROVENANCE_HOST_VERIFIED && s[p].sha256 == r.sha256 then s[p].bytes else 0
    else 0
  }

  lemma CreditAt(s: seq<Segment>, r: DeliveryReceipt, p: int)
    requires r.seqStart == r.seqEnd && LastAt(s, r.seqStart, p)
    ensures Credit(s, r) == if s[p].provenance == PROVENANCE_HOST_VERIFIED && s[p].sha256 == r.sha256 then s[p].bytes else 0
  {
  }

  /** The hash index decides the credit. */
  lemma CreditByIndex(idx: map<int64, Segment>, s: seq<Segment>, r: DeliveryReceipt)
    requires IndexesSegments(idx, s)
    ensures Credit(s, r) == if r.seqStart == r.seqEnd && r.seqStart in idx
                               && idx[r.seqStart].provenance == PROVENANCE_HOST_VERIFIED && idx[r.seqStart].sha256 == r.sha256
                            then idx[r.seqStart].bytes else 0
  {
  }

  ghost function ExactBytes(s: seq<Segment>, receipts: seq<DeliveryReceipt>): int {
    if receipts == [] then 0
    else ExactBytes(s, receipts[..|receipts| - 1]) + Credit(s, receipts[|receipts| - 1])
  }

  method VerifiedDeliveredBytes(m: Manifest) returns (total: int64)
    ensures total == Wrap64(ExactBytes(m.segments, m.deliveryReceipts))
  {
    hide Credit, IndexesSegments;
    var idx := IndexSegments(m.segments);
    total := 0;
    for i := 0 to |m.deliveryReceipts|
      invariant total == Wrap64(ExactBytes(m.segments, m.deliveryReceipts[..i]))
    {
      var r := m.deliveryReceipts[i];
      assert m.deliveryReceipts[..i + 1][..i] == m.deliveryReceipts[..i];
      CreditByIndex(idx, m.segments, r);
      if r.seqStart != r.seqEnd {
        continue;
      }
      if r.seqStart !in idx {
        continue;
      }
      var seg := idx[r.seqStart];
      if seg.provenance != PROVENANCE_HOST_VERIFIED {
        continue;
      }
      if seg.sha256 != r.sha256 {
        continue;
      }
      WrapAdd(ExactBytes(m.segments, m.deliveryReceipts[..i]), seg.bytes);
      total := Wrap64(total + seg.bytes);
    }
    assert m.deliveryReceipts[..|m.deliveryReceipts|] == m.deliveryReceipts;
  }
}
