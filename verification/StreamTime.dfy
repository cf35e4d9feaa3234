/** When the int64 arithmetic of content verification agrees with exact arithmetic. */
module StreamTime {
  import opened GoInt
  import opened GoTime
  import opened StreamManifest

  function Abs(x: int): int {
    if x < 0 then -x else x
  }

  /** The verdict is the exact |x| <= w except on two families: differences at or below
    * -2^63, whose negation stays negative, and differences that saturate high against
    * the widest window. */
  lemma WindowVerdictExactness(reflectedAt: Time, issuedAt: Time, window: Duration)
    ensures (WithinWindow(reflectedAt, issuedAt, window) <==> Abs(reflectedAt - issuedAt) <= window)
       <==> (reflectedAt - issuedAt > MIN64 && (reflectedAt - issuedAt <= MAX64 || window < MAX64))
  {
  }

  /** The lower limit is tight: a nonce issued 2^63 ns or more after its reflection passes
    * every window, and one nanosecond less passes only the widest. */
  lemma LowerLimitIsTight(reflectedAt: Time, issuedAt: Time, window: Duration)
    ensures reflectedAt - issuedAt <= MIN64 ==> WithinWindow(reflectedAt, issuedAt, window)
    ensures reflectedAt - issuedAt == MIN64 + 1 ==> (WithinWindow(reflectedAt, issuedAt, window) <==> window == MAX64)
  {
  }

  ghost predicate DurationsFit(s: seq<Segment>) {
    (forall i :: 0 <= i < |s| ==> s[i].durationMS >= 0) && ExactNanos(s, |s|) <= MAX64
  }

  lemma {:induction false} NanosGrow(s: seq<Segment>, i: nat, j: nat)
    requires i <= j <= |s| && forall k :: 0 <= k < |s| ==> s[k].durationMS >= 0
    ensures 0 <= ExactNanos(s, i) <= ExactNanos(s, j)
    decreases i + j
  {
    if i < j {
      NanosGrow(s, i, j - 1);
    } else if i > 0 {
      NanosGrow(s, i - 1, i - 1);
    }
  }

  /** The prefix array holds the exact sums, which never decrease. */
  lemma PrefixArrayExact(s: seq<Segment>, i: nat, j: nat)
    requires i <= j <= |s| && DurationsFit(s)
    ensures Elapsed(s, i) == ExactNanos(s, i) && Elapsed(s, j) == ExactNanos(s, j)
    ensures 0 <= Elapsed(s, i) <= Elapsed(s, j)
  {
    NanosGrow(s, i, j);
    NanosGrow(s, j, |s|);
  }

  ghost function ExactDifference(m: Manifest, issued: seq<LivenessNonce>, k: int, p: int): int
    requires 0 <= k < |issued| && 0 <= p < |m.segments|
  {
    m.startedAt + ExactNanos(m.segments, p + 1) - issued[k].issuedAt
  }

  /** Nonce acceptance with unbounded integers throughout. */
  ghost predicate NonceExactlyAccepted(m: Manifest, issued: seq<LivenessNonce>, window: Duration, n: LivenessNonce) {
    exists k, p :: LastIssued(issued, n.nonce, k) && LastAt(m.segments, n.reflectedInSeq, p)
      && Abs(ExactDifference(m, issued, k, p)) <= window
  }

  ghost predicate ExactlyAccepts(m: Manifest, issued: seq<LivenessNonce>, window: Duration) {
    && Accepts(m.(livenessNonces := []), issued, window)
    && (forall n :: n in m.livenessNonces ==> NonceExactlyAccepted(m, issued, window, n))
  }

  /** Every prefix sum fits int64. */
  ghost predicate PrefixesFit(s: seq<Segment>) {
    forall n :: 0 <= n <= |s| ==> Fits64(ExactNanos(s, n))
  }

  lemma FittingDurationsFitPrefixes(s: seq<Segment>)
    requires DurationsFit(s)
    ensures PrefixesFit(s)
  {
    forall n | 0 <= n <= |s| ensures Fits64(ExactNanos(s, n)) {
      PrefixArrayExact(s, n, n);
    }
  }

  /** The differences on which the machine verdict is the exact one: more than -2^63, and
    * within int64 unless the window is below the widest. */
  predicate Faithful(x: int, window: Duration) {
    x > MIN64 && (x <= MAX64 || window < MAX64)
  }

  ghost predicate ReflectionsFaithful(m: Manifest, issued: seq<LivenessNonce>, window: Duration) {
    forall n, k, p :: n in m.livenessNonces && LastIssued(issued, n.nonce, k) && LastAt(m.segments, n.reflectedInSeq, p)
      ==> Faithful(ExactDifference(m, issued, k, p), window)
  }

  lemma NonceExactness(m: Manifest, issued: seq<LivenessNonce>, window: Duration, n: LivenessNonce)
    requires PrefixesFit(m.segments)
    ensures NonceExactlyAccepted(m, issued, window, n)
       <==> NonceAccepted(m, issued, window, n)
            && forall k, p :: LastIssued(issued, n.nonce, k) && LastAt(m.segments, n.reflectedInSeq, p)
                 ==> Faithful(ExactDifference(m, issued, k, p), window)
  {
    if k, p :| LastIssued(issued, n.nonce, k) && LastAt(m.segments, n.reflectedInSeq, p) {
      assert Elapsed(m.segments, p + 1) == ExactNanos(m.segments, p + 1);
      WindowVerdictExactness(Add(m.startedAt, Elapsed(m.segments, p + 1)), issued[k].issuedAt, window);
      TheReflectionDecides(m, issued, window, n, k, p);
      assert forall k', p' :: LastIssued(issued, n.nonce, k') && LastAt(m.segments, n.reflectedInSeq, p') ==> k' == k && p' == p;
      assert NonceExactlyAccepted(m, issued, window, n) <==> Abs(ExactDifference(m, issued, k, p)) <= window;
    } else {
      forall k, p ensures !ReflectionAccepted(m, issued, window, n, k, p) {}
    }
  }

  /** Whole-manifest form, for any window: exact acceptance is machine acceptance minus the
    * two families of differences on which the verdicts part. */
  lemma MachineAcceptanceIsExact(m: Manifest, issued: seq<LivenessNonce>, window: Duration)
    requires PrefixesFit(m.segments)
    ensures ExactlyAccepts(m, issued, window) <==> Accepts(m, issued, window) && ReflectionsFaithful(m, issued, window)
  {
    forall n | n in m.livenessNonces
      ensures NonceExactlyAccepted(m, issued, window, n)
         <==> NonceAccepted(m, issued, window, n)
              && forall k, p :: LastIssued(issued, n.nonce, k) && LastAt(m.segments, n.reflectedInSeq, p)
                   ==> Faithful(ExactDifference(m, issued, k, p), window)
    {
      NonceExactness(m, issued, window, n);
    }
  }

  /** A manifest of one segment without receipts or markers. */
  ghost function OneSegment(startedAt: Time, index: int64, durationMS: int64, nonces: seq<LivenessNonce>): Manifest {
    Manifest("s", startedAt, nonces, [Segment(index, durationMS, 0, "", "")], [], 0, [])
  }

  /** A nonce issued 2^63 ns after its reflection passes the narrowest window. */
  lemma LateNoncePasses()
    ensures exists m: Manifest, issued :: PrefixesFit(m.segments) && Accepts(m, issued, 0) && !ExactlyAccepts(m, issued, 0)
  {
    var n := LivenessNonce("n", UNIX_EPOCH - MIN64, 0);
    var m, issued := OneSegment(UNIX_EPOCH, 0, 0, [n]), [n];
    assert ExactNanos(m.segments, 1) == ExactNanos(m.segments, 0);
    assert LastIssued(issued, "n", 0) && LastAt(m.segments, 0, 0);
    assert ReflectionAccepted(m, issued, 0, n, 0, 0);
    MachineAcceptanceIsExact(m, issued, 0);
    assert !Faithful(ExactDifference(m, issued, 0, 0), 0);
  }
}
