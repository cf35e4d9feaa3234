/** Joining consecutive manifest windows and cutting one in two. */
module StreamWindows {
  import opened GoInt
  import opened GoTime
  import opened StreamManifest
  import opened StreamBilling
  import StreamTime

  /** `m` is window `a` followed by window `b`, which starts when `a` has played out. */
  ghost predicate Joined(m: Manifest, a: Manifest, b: Manifest) {
    && a.segments != [] && b.segments != []
    && m.segments == a.segments + b.segments
    && m.startedAt == a.startedAt
    && b.startedAt == Add(a.startedAt, Elapsed(a.segments, |a.segments|))
    && (forall n :: n in m.livenessNonces <==> n in a.livenessNonces || n in b.livenessNonces)
    && (forall r :: r in m.deliveryReceipts <==> r in a.deliveryReceipts || r in b.deliveryReceipts)
    && (forall d :: d in a.discontinuities || d in b.discontinuities ==> d in m.discontinuities)
  }

  /** `b` picks up where `a` stopped, directly or across a marked gap. */
  ghost predicate SeamContinues(m: Manifest, a: Manifest, b: Manifest)
    requires a.segments != [] && b.segments != []
  {
    var last, first := a.segments[|a.segments| - 1].index, b.segments[0].index;
    last < first && Continues(last, first, m.discontinuities)
  }

  /** The exact sum behind the joined prefix entry at position `p` of `b`. */
  ghost function JoinedNanos(a: Manifest, b: Manifest, p: int): int
    requires 0 <= p < |b.segments|
  {
    Elapsed(a.segments, |a.segments|) + Elapsed(b.segments, p + 1)
  }

  ghost predicate NoLowOverflow(a: Manifest, b: Manifest) {
    forall n, p :: n in b.livenessNonces && LastAt(b.segments, n.reflectedInSeq, p) ==> JoinedNanos(a, b, p) >= MIN64
  }

  ghost predicate NoHighOverflow(a: Manifest, b: Manifest) {
    forall n, p :: n in b.livenessNonces && LastAt(b.segments, n.reflectedInSeq, p) ==> JoinedNanos(a, b, p) <= MAX64
  }

  ghost function ReflectedAt(m: Manifest, p: int): Time
    requires 0 <= p < |m.segments|
  {
    Add(m.startedAt, Elapsed(m.segments, p + 1))
  }

  /** If the joined sum behind the reflection of `n` falls below int64, the nonce is forgiven
    * as `b` sees it. */
  ghost predicate LowForgiven(a: Manifest, b: Manifest, issued: seq<LivenessNonce>, window: Duration, n: LivenessNonce) {
    forall k, p :: LastIssued(issued, n.nonce, k) && LastAt(b.segments, n.reflectedInSeq, p)
      ==> JoinedNanos(a, b, p) >= MIN64 || Forgiven(ReflectedAt(b, p) - issued[k].issuedAt, window)
  }

  /** If it rises above int64, the nonce is forgiven as `m` sees it. */
  ghost predicate HighForgiven(m: Manifest, a: Manifest, b: Manifest, issued: seq<LivenessNonce>, window: Duration, n: LivenessNonce)
    requires |m.segments| == |a.segments| + |b.segments|
  {
    forall k, p :: LastIssued(issued, n.nonce, k) && LastAt(b.segments, n.reflectedInSeq, p)
      ==> JoinedNanos(a, b, p) <= MAX64 || Forgiven(ReflectedAt(m, |a.segments| + p) - issued[k].issuedAt, window)
  }

  /** No nonce of `m` was issued 2^63 ns or more after its reflection. */
  ghost predicate ReflectionsInRange(m: Manifest, issued: seq<LivenessNonce>) {
    forall n, k, p :: n in m.livenessNonces && LastIssued(issued, n.nonce, k) && LastAt(m.segments, n.reflectedInSeq, p)
      ==> ReflectedAt(m, p) - issued[k].issuedAt > MIN64
  }

  // ---------- Reflection times across the seam ----------

  lemma {:induction false} NanosAppend(s: seq<Segment>, t: seq<Segment>, n: nat)
    requires n <= |t|
    ensures ExactNanos(s + t, |s| + n) == ExactNanos(s, |s|) + ExactNanos(t, n)
  {
    if n > 0 {
      NanosAppend(s, t, n - 1);
    } else {
      NanosOfPrefix(s, t, |s|);
    }
  }

  lemma {:induction false} NanosOfPrefix(s: seq<Segment>, t: seq<Segment>, n: nat)
    requires n <= |s|
    ensures ExactNanos(s + t, n) == ExactNanos(s, n)
  {
    if n > 0 { NanosOfPrefix(s, t, n - 1); }
  }

  lemma ElapsedAcrossSeam(m: Manifest, a: Manifest, b: Manifest, p: int)
    requires Joined(m, a, b) && 0 <= p < |b.segments|
    ensures Elapsed(m.segments, |a.segments| + p + 1) == Wrap64(JoinedNanos(a, b, p))
  {
    NanosAppend(a.segments, b.segments, p + 1);
    WrapAddBoth(ExactNanos(a.segments, |a.segments|), ExactNanos(b.segments, p + 1));
  }

  /** The accepted differences that stay accepted 2^64 ns later: under the widest window all,
    * otherwise those out of range that stay out of range or land inside the window. */
  predicate Forgiven(x: int, window: Duration) {
    || window == MAX64
    || (x <= MIN64 && (x + TWO64 <= MIN64 || (x + TWO64 <= MAX64 && StreamTime.Abs(x + TWO64) <= window)))
  }

  /** What a shift by 2^64 ns does to an acceptance: moving the reflection earlier never
    * loses it, moving it later keeps exactly the forgiven ones. */
  lemma VerdictUnderShift(reflectedAt: Time, issuedAt: Time, window: Duration)
    requires WithinWindow(reflectedAt, issuedAt, window)
    ensures WithinWindow(reflectedAt - TWO64, issuedAt, window)
    ensures WithinWindow(reflectedAt + TWO64, issuedAt, window) <==> Forgiven(reflectedAt - issuedAt, window)
  {
  }

  lemma WrapOfSum(x: int64, y: int64)
    ensures var s: int := x + y; Wrap64(s) == if s < MIN64 then s + TWO64 else if s > MAX64 then s - TWO64 else s
  {
  }

  lemma IncreasingHalves(s: seq<Segment>, t: seq<Segment>)
    requires s != [] && t != []
    ensures StrictlyIncreasing(s + t)
       <==> StrictlyIncreasing(s) && StrictlyIncreasing(t) && s[|s| - 1].index < t[0].index
  {
    var u := s + t;
    if StrictlyIncreasing(u) {
      assert forall i :: 0 <= i < |t| ==> t[i] == u[|s| + i];
      assert forall i :: 0 <= i < |s| ==> s[i] == u[i];
      assert u[|s| - 1].index < u[|s|].index;
    }
    if StrictlyIncreasing(s) && StrictlyIncreasing(t) && s[|s| - 1].index < t[0].index {
      forall i, j | 0 <= i < j < |u| ensures u[i].index < u[j].index {
        assert i < |s| - 1 ==> s[i].index < s[|s| - 1].index;
        assert j > |s| ==> t[0].index < t[j - |s|].index;
      }
    }
  }

  /** In an increasing run a position is the only one with its index, in a half or in the whole. */
  lemma LastAtHalves(s: seq<Segment>, t: seq<Segment>, x: int)
    requires s != [] && t != [] && StrictlyIncreasing(s + t)
    ensures forall p :: LastAt(s + t, x, p) && p < |s| ==> LastAt(s, x, p)
    ensures forall p :: LastAt(s + t, x, p) && p >= |s| ==> LastAt(t, x, p - |s|)
    ensures forall p :: LastAt(s, x, p) ==> LastAt(s + t, x, p) && x < t[0].index
    ensures forall p :: LastAt(t, x, p) ==> LastAt(s + t, x, |s| + p) && x >= t[0].index
    ensures forall p :: LastAt(s + t, x, p) ==> (p < |s| <==> x < t[0].index)
  {
    var u := s + t;
    IncreasingHalves(s, t);
    assert u[|s|] == t[0];
    forall p | LastAt(s, x, p) ensures LastAt(u, x, p) && x < t[0].index {
      assert u[p] == s[p] && u[p].index < u[|s|].index;
    }
    forall p | LastAt(t, x, p) ensures LastAt(u, x, |s| + p) && x >= t[0].index {
      assert u[|s| + p] == t[p];
    }
    forall p | LastAt(u, x, p) && p >= |s| ensures LastAt(t, x, p - |s|) {
      assert forall q :: p - |s| < q < |t| ==> t[q] == u[|s| + q];
    }
    forall p | LastAt(u, x, p) ensures p < |s| <==> x < t[0].index {
      assert p < |s| ==> u[p].index < u[|s|].index;
      assert p > |s| ==> u[|s|].index < u[p].index;
    }
  }

  // ---------- Structure: gaps, receipts ----------

  lemma GapsAcrossSeam(m: Manifest, a: Manifest, b: Manifest)
    requires Joined(m, a, b) && GapsMarked(a.segments, a.discontinuities) && GapsMarked(b.segments, b.discontinuities)
    requires SeamContinues(m, a, b)
    ensures GapsMarked(m.segments, m.discontinuities)
  {
  }

  lemma ReceiptsAcrossSeam(m: Manifest, a: Manifest, b: Manifest, r: DeliveryReceipt)
    requires Joined(m, a, b) && StrictlyIncreasing(m.segments)
    ensures ReceiptAccepted(m.segments, r)
       <==> ReceiptAccepted(a.segments, r) || ReceiptAccepted(b.segments, r)
    ensures ReceiptAccepted(a.segments, r) ==> r.seqStart < b.segments[0].index
    ensures ReceiptAccepted(b.segments, r) ==> r.seqStart >= b.segments[0].index
  {
    var s, t := a.segments, b.segments;
    LastAtHalves(s, t, r.seqStart);
    if ReceiptAccepted(s, r) {
      var p :| LastAt(s, r.seqStart, p) && s[p].sha256 == r.sha256;
      assert LastAt(s + t, r.seqStart, p) && (s + t)[p] == s[p];
    }
    if ReceiptAccepted(t, r) {
      var p :| LastAt(t, r.seqStart, p) && t[p].sha256 == r.sha256;
      assert LastAt(s + t, r.seqStart, |s| + p) && (s + t)[|s| + p] == t[p];
    }
    if ReceiptAccepted(s + t, r) {
      var p :| LastAt(s + t, r.seqStart, p) && (s + t)[p].sha256 == r.sha256;
      assert if p < |s| then LastAt(s, r.seqStart, p) && s[p] == (s + t)[p]
             else LastAt(t, r.seqStart, p - |s|) && t[p - |s|] == (s + t)[p];
    }
  }

  // ---------- Nonces ----------

  lemma NonceOfFirst(m: Manifest, a: Manifest, b: Manifest, issued: seq<LivenessNonce>, window: Duration, n: LivenessNonce)
    requires Joined(m, a, b) && StrictlyIncreasing(m.segments)
    requires n.reflectedInSeq < b.segments[0].index
    ensures NonceAccepted(m, issued, window, n) <==> NonceAccepted(a, issued, window, n)
    ensures NonceAccepted(a, issued, window, n) ==> exists p :: LastAt(a.segments, n.reflectedInSeq, p)
  {
    LastAtHalves(a.segments, b.segments, n.reflectedInSeq);
    if k, p :| LastIssued(issued, n.nonce, k) && LastAt(m.segments, n.reflectedInSeq, p) {
      NanosOfPrefix(a.segments, b.segments, p + 1);
      TheReflectionDecides(m, issued, window, n, k, p);
      TheReflectionDecides(a, issued, window, n, k, p);
    }
  }

  /** A nonce of the second window seen from the joined manifest: the reflection time moves
    * by 2^64 ns exactly when the joined sum leaves int64. */
  lemma NonceOfSecond(m: Manifest, a: Manifest, b: Manifest, issued: seq<LivenessNonce>, window: Duration,
                      n: LivenessNonce, k: int, p: int)
    requires Joined(m, a, b) && StrictlyIncreasing(m.segments)
    requires LastIssued(issued, n.nonce, k) && LastAt(b.segments, n.reflectedInSeq, p)
    ensures var inM, inB := ReflectedAt(m, |a.segments| + p), ReflectedAt(b, p);
            && (NonceAccepted(b, issued, window, n) <==> WithinWindow(inB, issued[k].issuedAt, window))
            && (NonceAccepted(m, issued, window, n) <==> WithinWindow(inM, issued[k].issuedAt, window))
            && inM == inB + if JoinedNanos(a, b, p) < MIN64 then TWO64 else if JoinedNanos(a, b, p) > MAX64 then -TWO64 else 0
    ensures LastAt(m.segments, n.reflectedInSeq, |a.segments| + p)
  {
    LastAtHalves(a.segments, b.segments, n.reflectedInSeq);
    TheReflectionDecides(b, issued, window, n, k, p);
    TheReflectionDecides(m, issued, window, n, k, |a.segments| + p);
    ElapsedAcrossSeam(m, a, b, p);
    WrapOfSum(Elapsed(a.segments, |a.segments|), Elapsed(b.segments, p + 1));
  }

  // ---------- Composition ----------

  lemma AcceptedSeam(m: Manifest, a: Manifest, b: Manifest, issued: seq<LivenessNonce>, window: Duration)
    requires Joined(m, a, b) && Accepts(m, issued, window)
    ensures SeamContinues(m, a, b)
  {
    var k := |a.segments|;
    assert m.segments[k - 1].index < m.segments[k].index;
    assert Continues(m.segments[k - 1].index, m.segments[k].index, m.discontinuities);
  }

  lemma LowForgivenAt(a: Manifest, b: Manifest, issued: seq<LivenessNonce>, window: Duration, n: LivenessNonce, k: int, p: int)
    requires LastIssued(issued, n.nonce, k) && LastAt(b.segments, n.reflectedInSeq, p)
    ensures LowForgiven(a, b, issued, window, n)
       <==> JoinedNanos(a, b, p) >= MIN64 || Forgiven(ReflectedAt(b, p) - issued[k].issuedAt, window)
  {
    hide Forgiven, JoinedNanos, ReflectedAt;
  }

  /** Whether an accepted nonce of the second window is still accepted in the join. */
  lemma SecondNonceInJoin(m: Manifest, a: Manifest, b: Manifest, issued: seq<LivenessNonce>, window: Duration, n: LivenessNonce)
    requires Joined(m, a, b) && StrictlyIncreasing(m.segments) && NonceAccepted(b, issued, window, n)
    ensures NonceAccepted(m, issued, window, n) <==> LowForgiven(a, b, issued, window, n)
  {
    hide Joined, LowForgiven, Forgiven, WithinWindow, JoinedNanos, StrictlyIncreasing;
    var k, p :| ReflectionAccepted(b, issued, window, n, k, p);
    NonceOfSecond(m, a, b, issued, window, n, k, p);
    LowForgivenAt(a, b, issued, window, n, k, p);
    VerdictUnderShift(ReflectedAt(b, p), issued[k].issuedAt, window);
  }

  /** Everything about a sound join but the nonces of the second window. */
  lemma JoinKeepsRest(m: Manifest, a: Manifest, b: Manifest, issued: seq<LivenessNonce>, window: Duration)
    requires Joined(m, a, b) && Accepts(a, issued, window) && Accepts(b, issued, window) && SeamContinues(m, a, b)
    ensures StrictlyIncreasing(m.segments)
    ensures Accepts(m, issued, window) <==> forall n :: n in b.livenessNonces ==> NonceAccepted(m, issued, window, n)
  {
    IncreasingHalves(a.segments, b.segments);
    GapsAcrossSeam(m, a, b);
    forall r | r in m.deliveryReceipts ensures ReceiptAccepted(m.segments, r) {
      ReceiptsAcrossSeam(m, a, b, r);
    }
    forall n | n in a.livenessNonces ensures NonceAccepted(m, issued, window, n) {
      assert NonceAccepted(a, issued, window, n);
      LastAtHalves(a.segments, b.segments, n.reflectedInSeq);
      NonceOfFirst(m, a, b, issued, window, n);
    }
  }

  /** Exactly when two accepted windows join into an accepted manifest: the seam must hold,
    * and every reflection whose sum of durations falls below int64 must be forgiven. */
  lemma WindowsComposeExactly(m: Manifest, a: Manifest, b: Manifest, issued: seq<LivenessNonce>, window: Duration)
    requires Joined(m, a, b) && Accepts(a, issued, window) && Accepts(b, issued, window)
    ensures Accepts(m, issued, window)
       <==> SeamContinues(m, a, b) && forall n :: n in b.livenessNonces ==> LowForgiven(a, b, issued, window, n)
  {
    hide LowForgiven, NonceAccepted, ReceiptAccepted;
    if SeamContinues(m, a, b) {
      JoinKeepsRest(m, a, b, issued, window);
      forall n | n in b.livenessNonces
        ensures NonceAccepted(m, issued, window, n) <==> LowForgiven(a, b, issued, window, n)
      {
        SecondNonceInJoin(m, a, b, issued, window, n);
      }
    } else if Accepts(m, issued, window) {
      AcceptedSeam(m, a, b, issued, window);
    }
  }

  /** Without a low overflow at a reflected segment only the seam matters. */
  lemma WindowsCompose(m: Manifest, a: Manifest, b: Manifest, issued: seq<LivenessNonce>, window: Duration)
    requires Joined(m, a, b) && Accepts(a, issued, window) && Accepts(b, issued, window)
    requires NoLowOverflow(a, b)
    ensures Accepts(m, issued, window) <==> SeamContinues(m, a, b)
  {
    hide Accepts, JoinedNanos, Forgiven;
    WindowsComposeExactly(m, a, b, issued, window);
  }

  /** Below the widest window, with every nonce of `b` in range, no overflow is forgiven. */
  lemma WindowsComposeInRange(m: Manifest, a: Manifest, b: Manifest, issued: seq<LivenessNonce>, window: Duration)
    requires Joined(m, a, b) && Accepts(a, issued, window) && Accepts(b, issued, window)
    requires window < MAX64 && ReflectionsInRange(b, issued)
    ensures Accepts(m, issued, window) <==> SeamContinues(m, a, b) && NoLowOverflow(a, b)
  {
    hide LowForgiven, JoinedNanos, SeamContinues, StrictlyIncreasing, GapsMarked, ReceiptAccepted;
    WindowsComposeExactly(m, a, b, issued, window);
    forall n | n in b.livenessNonces
      ensures LowForgiven(a, b, issued, window, n)
         <==> forall p :: LastAt(b.segments, n.reflectedInSeq, p) ==> JoinedNanos(a, b, p) >= MIN64
    {
      assert NonceAccepted(b, issued, window, n);
      var k, p :| ReflectionAccepted(b, issued, window, n, k, p);
      LowForgivenAt(a, b, issued, window, n, k, p);
    }
  }

  // ---------- Cutting ----------

  /** Every nonce and receipt sits in the half whose segments it names, and each half keeps
    * all markers. */
  ghost predicate SortedByIndex(m: Manifest, a: Manifest, b: Manifest)
    requires b.segments != []
  {
    var pivot := b.segments[0].index;
    && (forall n :: n in a.livenessNonces ==> n.reflectedInSeq < pivot)
    && (forall n :: n in b.livenessNonces ==> n.reflectedInSeq >= pivot)
    && (forall r :: r in a.deliveryReceipts ==> r.seqStart < pivot)
    && (forall r :: r in b.deliveryReceipts ==> r.seqStart >= pivot)
    && a.discontinuities == m.discontinuities && b.discontinuities == m.discontinuities
  }

  lemma HalvesKeepStructure(m: Manifest, a: Manifest, b: Manifest, issued: seq<LivenessNonce>, window: Duration)
    requires Joined(m, a, b) && SortedByIndex(m, a, b) && Accepts(m, issued, window)
    ensures StrictlyIncreasing(a.segments) && GapsMarked(a.segments, a.discontinuities)
    ensures StrictlyIncreasing(b.segments) && GapsMarked(b.segments, b.discontinuities)
    ensures forall r :: r in a.deliveryReceipts ==> ReceiptAccepted(a.segments, r)
    ensures forall r :: r in b.deliveryReceipts ==> ReceiptAccepted(b.segments, r)
  {
    var s, k := m.segments, |a.segments|;
    IncreasingHalves(a.segments, b.segments);
    forall i | 0 < i < k ensures Continues(a.segments[i - 1].index, a.segments[i].index, a.discontinuities) {
      assert Continues(s[i - 1].index, s[i].index, m.discontinuities);
    }
    forall i | 0 < i < |b.segments| ensures Continues(b.segments[i - 1].index, b.segments[i].index, b.discontinuities) {
      assert Continues(s[k + i - 1].index, s[k + i].index, m.discontinuities);
    }
    forall r | r in m.deliveryReceipts
      ensures r in a.deliveryReceipts ==> ReceiptAccepted(a.segments, r)
      ensures r in b.deliveryReceipts ==> ReceiptAccepted(b.segments, r)
    {
      ReceiptsAcrossSeam(m, a, b, r);
    }
  }

  lemma NonceOfSecondHasPosition(m: Manifest, a: Manifest, b: Manifest, issued: seq<LivenessNonce>, window: Duration, n: LivenessNonce)
      returns (k: int, p: int)
    requires Joined(m, a, b) && StrictlyIncreasing(m.segments)
    requires NonceAccepted(m, issued, window, n) && n.reflectedInSeq >= b.segments[0].index
    ensures LastIssued(issued, n.nonce, k) && LastAt(b.segments, n.reflectedInSeq, p)
  {
    var q;
    k, q :| ReflectionAccepted(m, issued, window, n, k, q);
    LastAtHalves(a.segments, b.segments, n.reflectedInSeq);
    p := q - |a.segments|;
  }

  lemma HighForgivenAt(m: Manifest, a: Manifest, b: Manifest, issued: seq<LivenessNonce>, window: Duration, n: LivenessNonce,
                       k: int, p: int)
    requires |m.segments| == |a.segments| + |b.segments|
    requires LastIssued(issued, n.nonce, k) && LastAt(b.segments, n.reflectedInSeq, p)
    ensures HighForgiven(m, a, b, issued, window, n)
       <==> JoinedNanos(a, b, p) <= MAX64 || Forgiven(ReflectedAt(m, |a.segments| + p) - issued[k].issuedAt, window)
  {
    hide Forgiven, JoinedNanos, ReflectedAt;
  }

  /** Whether an accepted nonce of the second half is still accepted after the cut. */
  lemma SecondNonceInCut(m: Manifest, a: Manifest, b: Manifest, issued: seq<LivenessNonce>, window: Duration, n: LivenessNonce)
    requires Joined(m, a, b) && StrictlyIncreasing(m.segments)
    requires NonceAccepted(m, issued, window, n) && n.reflectedInSeq >= b.segments[0].index
    ensures NonceAccepted(b, issued, window, n) <==> HighForgiven(m, a, b, issued, window, n)
  {
    assert |m.segments| == |a.segments| + |b.segments|;
    hide Joined, HighForgiven, Forgiven, WithinWindow, JoinedNanos, StrictlyIncreasing;
    var k, p := NonceOfSecondHasPosition(m, a, b, issued, window, n);
    NonceOfSecond(m, a, b, issued, window, n, k, p);
    HighForgivenAt(m, a, b, issued, window, n, k, p);
    VerdictUnderShift(ReflectedAt(m, |a.segments| + p), issued[k].issuedAt, window);
  }

  /** Everything about a cut but the nonces of the second half. */
  lemma CutKeepsRest(m: Manifest, a: Manifest, b: Manifest, issued: seq<LivenessNonce>, window: Duration)
    requires Joined(m, a, b) && SortedByIndex(m, a, b) && Accepts(m, issued, window)
    ensures Accepts(a, issued, window)
    ensures Accepts(b, issued, window) <==> forall n :: n in b.livenessNonces ==> NonceAccepted(b, issued, window, n)
  {
    HalvesKeepStructure(m, a, b, issued, window);
    forall n | n in a.livenessNonces ensures NonceAccepted(a, issued, window, n) {
      NonceOfFirst(m, a, b, issued, window, n);
    }
  }

  /** Exactly when cutting an accepted manifest gives two accepted ones: every reflection
    * whose sum of durations rises above int64 must be forgiven. */
  lemma WindowSplitsExactly(m: Manifest, a: Manifest, b: Manifest, issued: seq<LivenessNonce>, window: Duration)
    requires Joined(m, a, b) && SortedByIndex(m, a, b) && Accepts(m, issued, window)
    ensures Accepts(a, issued, window)
    ensures Accepts(b, issued, window) <==> forall n :: n in b.livenessNonces ==> HighForgiven(m, a, b, issued, window, n)
  {
    hide HighForgiven, NonceAccepted, ReceiptAccepted;
    CutKeepsRest(m, a, b, issued, window);
    forall n | n in b.livenessNonces
      ensures NonceAccepted(b, issued, window, n) <==> HighForgiven(m, a, b, issued, window, n)
    {
      assert NonceAccepted(m, issued, window, n);
      SecondNonceInCut(m, a, b, issued, window, n);
    }
  }

  /** Without a high overflow at a reflected segment both halves are accepted. */
  lemma WindowSplits(m: Manifest, a: Manifest, b: Manifest, issued: seq<LivenessNonce>, window: Duration)
    requires Joined(m, a, b) && SortedByIndex(m, a, b) && Accepts(m, issued, window)
    requires NoHighOverflow(a, b)
    ensures Accepts(a, issued, window) && Accepts(b, issued, window)
  {
    hide Accepts, JoinedNanos, Forgiven;
    WindowSplitsExactly(m, a, b, issued, window);
  }

  /** Below the widest window, with every nonce of `m` in range, no overflow is forgiven. */
  lemma WindowSplitsInRange(m: Manifest, a: Manifest, b: Manifest, issued: seq<LivenessNonce>, window: Duration)
    requires Joined(m, a, b) && SortedByIndex(m, a, b) && Accepts(m, issued, window)
    requires window < MAX64 && ReflectionsInRange(m, issued)
    ensures Accepts(a, issued, window) && Accepts(b, issued, window) <==> NoHighOverflow(a, b)
  {
    hide HighForgiven, JoinedNanos, StrictlyIncreasing, GapsMarked, ReceiptAccepted;
    WindowSplitsExactly(m, a, b, issued, window);
    forall n | n in b.livenessNonces
      ensures HighForgiven(m, a, b, issued, window, n)
         <==> forall p :: LastAt(b.segments, n.reflectedInSeq, p) ==> JoinedNanos(a, b, p) <= MAX64
    {
      assert NonceAccepted(m, issued, window, n);
      var k, p := NonceOfSecondHasPosition(m, a, b, issued, window, n);
      NonceOfSecond(m, a, b, issued, window, n, k, p);
      HighForgivenAt(m, a, b, issued, window, n, k, p);
    }
  }

  // ---------- The concrete operations ----------

  ghost function Concat(a: Manifest, b: Manifest): Manifest {
    a.(segments := a.segments + b.segments,
       livenessNonces := a.livenessNonces + b.livenessNonces,
       deliveryReceipts := a.deliveryReceipts + b.deliveryReceipts,
       discontinuities := a.discontinuities + b.discontinuities)
  }

  ghost function NoncesBelow(ns: seq<LivenessNonce>, pivot: int, below: bool): (kept: seq<LivenessNonce>)
    ensures forall n :: n in kept <==> n in ns && (n.reflectedInSeq < pivot <==> below)
  {
    if ns == [] then []
    else NoncesBelow(ns[..|ns| - 1], pivot, below)
         + if (ns[|ns| - 1].reflectedInSeq < pivot) == below then [ns[|ns| - 1]] else []
  }

  ghost function ReceiptsBelow(rs: seq<DeliveryReceipt>, pivot: int, below: bool): (kept: seq<DeliveryReceipt>)
    ensures forall r :: r in kept <==> r in rs && (r.seqStart < pivot <==> below)
  {
    if rs == [] then []
    else ReceiptsBelow(rs[..|rs| - 1], pivot, below)
         + if (rs[|rs| - 1].seqStart < pivot) == below then [rs[|rs| - 1]] else []
  }

  ghost function CutBefore(m: Manifest, k: nat): Manifest
    requires 0 < k < |m.segments|
  {
    m.(segments := m.segments[..k],
       livenessNonces := NoncesBelow(m.livenessNonces, m.segments[k].index, true),
       deliveryReceipts := ReceiptsBelow(m.deliveryReceipts, m.segments[k].index, true))
  }

  ghost function CutAfter(m: Manifest, k: nat): Manifest
    requires 0 < k < |m.segments|
  {
    m.(segments := m.segments[k..],
       startedAt := Add(m.startedAt, Elapsed(m.segments[..k], k)),
       livenessNonces := NoncesBelow(m.livenessNonces, m.segments[k].index, false),
       deliveryReceipts := ReceiptsBelow(m.deliveryReceipts, m.segments[k].index, false))
  }

  lemma CutIsJoined(m: Manifest, k: nat)
    requires 0 < k < |m.segments|
    ensures Joined(m, CutBefore(m, k), CutAfter(m, k))
    ensures SortedByIndex(m, CutBefore(m, k), CutAfter(m, k))
  {
  }

  lemma ConcatIsJoined(a: Manifest, b: Manifest)
    requires a.segments != [] && b.segments != []
    requires b.startedAt == Add(a.startedAt, Elapsed(a.segments, |a.segments|))
    ensures Joined(Concat(a, b), a, b)
  {
  }

  lemma CreditOfHalf(s: seq<Segment>, t: seq<Segment>, r: DeliveryReceipt)
    requires s != [] && t != [] && StrictlyIncreasing(s + t)
    ensures r.seqStart < t[0].index ==> Credit(s + t, r) == Credit(s, r)
    ensures r.seqStart >= t[0].index ==> Credit(s + t, r) == Credit(t, r)
  {
    LastAtHalves(s, t, r.seqStart);
    if r.seqStart == r.seqEnd {
      if p :| LastAt(s + t, r.seqStart, p) {
        CreditAt(s + t, r, p);
        if p < |s| { CreditAt(s, r, p); } else { CreditAt(t, r, p - |s|); }
      }
    }
  }

  lemma {:induction false} BytesOfHalf(s: seq<Segment>, t: seq<Segment>, receipts: seq<DeliveryReceipt>, below: bool)
    requires s != [] && t != [] && StrictlyIncreasing(s + t)
    requires forall r :: r in receipts ==> (r.seqStart < t[0].index <==> below)
    ensures ExactBytes(s + t, receipts) == ExactBytes(if below then s else t, receipts)
  {
    if receipts != [] {
      BytesOfHalf(s, t, receipts[..|receipts| - 1], below);
      CreditOfHalf(s, t, receipts[|receipts| - 1]);
    }
  }

  lemma {:induction false} BytesPartition(s: seq<Segment>, receipts: seq<DeliveryReceipt>, pivot: int)
    ensures ExactBytes(s, receipts)
         == ExactBytes(s, ReceiptsBelow(receipts, pivot, true)) + ExactBytes(s, ReceiptsBelow(receipts, pivot, false))
  {
    if receipts != [] {
      var rest, r := receipts[..|receipts| - 1], receipts[|receipts| - 1];
      BytesPartition(s, rest, pivot);
      var kept := ReceiptsBelow(rest, pivot, r.seqStart < pivot);
      assert (kept + [r])[..|kept|] == kept;
      assert ReceiptsBelow(rest, pivot, r.seqStart >= pivot) + [] == ReceiptsBelow(rest, pivot, r.seqStart >= pivot);
    }
  }

  lemma AcceptedReceiptsSeparate(s: seq<Segment>, t: seq<Segment>, r: DeliveryReceipt)
    requires s != [] && t != [] && StrictlyIncreasing(s + t)
    ensures ReceiptAccepted(s, r) ==> r.seqStart < t[0].index
    ensures ReceiptAccepted(t, r) ==> r.seqStart >= t[0].index
  {
    LastAtHalves(s, t, r.seqStart);
  }

  /** Billing across a join: the figure of the concatenation is the (wrapping) sum of both. */
  lemma ConcatBillsBoth(a: Manifest, b: Manifest, issued: seq<LivenessNonce>, window: Duration)
    requires Accepts(a, issued, window) && Accepts(b, issued, window)
    requires a.segments[|a.segments| - 1].index < b.segments[0].index
    ensures ExactBytes(Concat(a, b).segments, Concat(a, b).deliveryReceipts)
         == ExactBytes(a.segments, a.deliveryReceipts) + ExactBytes(b.segments, b.deliveryReceipts)
    ensures Wrap64(ExactBytes(Concat(a, b).segments, Concat(a, b).deliveryReceipts))
         == Wrap64(Wrap64(ExactBytes(a.segments, a.deliveryReceipts)) + Wrap64(ExactBytes(b.segments, b.deliveryReceipts)))
  {
    hide StrictlyIncreasing, GapsMarked, NonceAccepted, ReceiptAccepted, ExactBytes, Wrap64;
    var s, t := a.segments, b.segments;
    IncreasingHalves(s, t);
    forall r: DeliveryReceipt
      ensures r in a.deliveryReceipts ==> r.seqStart < t[0].index
      ensures r in b.deliveryReceipts ==> r.seqStart >= t[0].index
    {
      AcceptedReceiptsSeparate(s, t, r);
    }
    BytesOfHalf(s, t, a.deliveryReceipts, true);
    BytesOfHalf(s, t, b.deliveryReceipts, false);
    ExactBytesAppend(s + t, a.deliveryReceipts, b.deliveryReceipts);
    WrapAddBoth(ExactBytes(s, a.deliveryReceipts), ExactBytes(t, b.deliveryReceipts));
  }

  /** Billing across a cut: no byte is lost or counted twice, accepted or not. */
  lemma CutBillsBoth(m: Manifest, k: nat)
    requires 0 < k < |m.segments| && StrictlyIncreasing(m.segments)
    ensures ExactBytes(m.segments, m.deliveryReceipts)
         == ExactBytes(CutBefore(m, k).segments, CutBefore(m, k).deliveryReceipts)
            + ExactBytes(CutAfter(m, k).segments, CutAfter(m, k).deliveryReceipts)
  {
    var s, t, pivot := m.segments[..k], m.segments[k..], m.segments[k].index;
    assert m.segments == s + t;
    BytesPartition(m.segments, m.deliveryReceipts, pivot);
    BytesOfHalf(s, t, ReceiptsBelow(m.deliveryReceipts, pivot, true), true);
    BytesOfHalf(s, t, ReceiptsBelow(m.deliveryReceipts, pivot, false), false);
  }

  /** Concatenation of consecutive accepted windows, stated on the manifests themselves. */
  lemma ConcatAccepted(a: Manifest, b: Manifest, issued: seq<LivenessNonce>, window: Duration)
    requires Accepts(a, issued, window) && Accepts(b, issued, window)
    requires b.startedAt == Add(a.startedAt, Elapsed(a.segments, |a.segments|)) && NoLowOverflow(a, b)
    ensures Accepts(Concat(a, b), issued, window) <==> SeamContinues(Concat(a, b), a, b)
  {
    ConcatIsJoined(a, b);
    WindowsCompose(Concat(a, b), a, b, issued, window);
  }

  /** Cutting anywhere and joining again: a manifest is accepted exactly when both halves
    * are and the seam holds, as long as no sum overflows at a reflected segment. */
  lemma CutAccepted(m: Manifest, k: nat, issued: seq<LivenessNonce>, window: Duration)
    requires 0 < k < |m.segments|
    requires NoLowOverflow(CutBefore(m, k), CutAfter(m, k)) && NoHighOverflow(CutBefore(m, k), CutAfter(m, k))
    ensures Accepts(m, issued, window)
       <==> && Accepts(CutBefore(m, k), issued, window)
            && Accepts(CutAfter(m, k), issued, window)
            && SeamContinues(m, CutBefore(m, k), CutAfter(m, k))
  {
    var a, b := CutBefore(m, k), CutAfter(m, k);
    CutIsJoined(m, k);
    if Accepts(m, issued, window) {
      WindowSplits(m, a, b, issued, window);
      AcceptedSeam(m, a, b, issued, window);
    } else if Accepts(a, issued, window) && Accepts(b, issued, window) {
      WindowsCompose(m, a, b, issued, window);
    }
  }

  // ---------- The overflow conditions in practice ----------

  /** Non-negative durations whose total fits int64 never overflow, wherever they are cut. */
  lemma FittingDurationsNeverOverflow(m: Manifest, a: Manifest, b: Manifest)
    requires Joined(m, a, b) && StreamTime.DurationsFit(m.segments)
    ensures NoLowOverflow(a, b) && NoHighOverflow(a, b)
  {
    var s, t := a.segments, b.segments;
    forall i | 0 <= i < |s| ensures s[i].durationMS >= 0 { assert s[i] == (s + t)[i]; }
    forall i | 0 <= i < |t| ensures t[i].durationMS >= 0 { assert t[i] == (s + t)[|s| + i]; }
    NanosAppend(s, t, |t|);
    StreamTime.NanosGrow(s, |s|, |s|);
    StreamTime.NanosGrow(t, 0, |t|);
    forall p | 0 <= p < |t| ensures MIN64 <= JoinedNanos(a, b, p) <= MAX64 {
      StreamTime.NanosGrow(t, p + 1, |t|);
    }
  }

  const LONG_MS: int64 := 9_000_000_000_000

  /** Durations reported as negative: two accepted windows, a sound seam, a refused join. */
  lemma LowOverflowBreaksAJoin()
    ensures exists a: Manifest, b: Manifest, issued ::
              && Accepts(a, issued, 0) && Accepts(b, issued, 0) && Joined(Concat(a, b), a, b)
              && SeamContinues(Concat(a, b), a, b) && !Accepts(Concat(a, b), issued, 0)
  {
    var step := LONG_MS * MILLISECOND;
    var n := LivenessNonce("n", UNIX_EPOCH - step - step, 1);
    var a, b := StreamTime.OneSegment(UNIX_EPOCH, 0, -LONG_MS, []), StreamTime.OneSegment(UNIX_EPOCH - step, 1, -LONG_MS, [n]);
    var issued := [n];
    assert ExactNanos(a.segments, 1) == ExactNanos(a.segments, 0) - step;
    assert ExactNanos(b.segments, 1) == ExactNanos(b.segments, 0) - step;
    assert LastAt(b.segments, 1, 0) && LastIssued(issued, "n", 0);
    assert ReflectionAccepted(b, issued, 0, n, 0, 0);
    ConcatIsJoined(a, b);
    assert JoinedNanos(a, b, 0) < MIN64;
    WindowsComposeInRange(Concat(a, b), a, b, issued, 0);
  }

  /** Two long segments: the manifest is accepted because its prefix sum wrapped, and its
    * second half is refused. */
  lemma HighOverflowBreaksACut()
    ensures exists m: Manifest, issued ::
              && |m.segments| == 2 && Accepts(m, issued, 0) && !Accepts(CutAfter(m, 1), issued, 0)
  {
    var step := LONG_MS * MILLISECOND;
    var n := LivenessNonce("n", UNIX_EPOCH + step + step - TWO64, 1);
    var s := [Segment(0, LONG_MS, 0, "", ""), Segment(1, LONG_MS, 0, "", "")];
    var m, issued := Manifest("s", UNIX_EPOCH, [n], s, [], 0, []), [n];
    assert ExactNanos(s, 1) == ExactNanos(s, 0) + step;
    assert ExactNanos(s, 2) == ExactNanos(s, 1) + step;
    WrapIsUnique(step + step, step + step - TWO64, 1);
    assert LastAt(s, 1, 1) && LastIssued(issued, "n", 0);
    assert ReflectionAccepted(m, issued, 0, n, 0, 1);
    var a, b := CutBefore(m, 1), CutAfter(m, 1);
    CutIsJoined(m, 1);
    assert a.segments == [s[0]] && b.segments == [s[1]];
    assert ExactNanos(a.segments, 1) == ExactNanos(a.segments, 0) + step;
    assert ExactNanos(b.segments, 1) == ExactNanos(b.segments, 0) + step;
    assert LastAt(b.segments, 1, 0) && n in b.livenessNonces && JoinedNanos(a, b, 0) > MAX64;
    assert Accepts(m, issued, 0);
    WindowSplitsInRange(m, a, b, issued, 0);
  }
}
