/** Acceptance and billing stated on the fields of manifests alone, and what single fields
  * change. */
module StreamFields {
  import opened GoInt
  import opened GoTime
  import opened StreamManifest
  import opened StreamTime
  import opened StreamGaps
  import opened StreamBilling

  // ---------- Markers ----------

  /** Every index missing from the span of an accepted manifest lies strictly between the
    * ends of a marker, and those ends are two neighbouring segments. */
  lemma MissingIndexIsBracketed(m: Manifest, issued: seq<LivenessNonce>, window: Duration, x: int) returns (d: Discontinuity, i: int)
    requires Accepts(m, issued, window)
    requires m.segments[0].index <= x <= m.segments[|m.segments| - 1].index
    requires forall p :: 0 <= p < |m.segments| ==> m.segments[p].index != x
    ensures d in m.discontinuities && d.prevSeq < x < d.resumeSeq
    ensures 0 < i < |m.segments| && d.prevSeq == m.segments[i - 1].index && d.resumeSeq == m.segments[i].index
  {
    EveryIndexAccountedFor(m, issued, window, x);
    i :| InsideGap(m.segments, x, i);
    d :| d in m.discontinuities && d.prevSeq == m.segments[i - 1].index && d.resumeSeq == m.segments[i].index;
  }

  /** One marker per neighbouring pair, from the left index to the right one. */
  ghost function BracketingMarkers(s: seq<Segment>, at: Time, reason: string): (marks: seq<Discontinuity>)
    ensures s != [] ==> |marks| == |s| - 1
    ensures forall i :: 0 < i < |s| ==> marks[i - 1] == Discontinuity(at, reason, s[i - 1].index, s[i].index)
  {
    if |s| <= 1 then []
    else seq(|s| - 1, i requires 0 <= i < |s| - 1 => Discontinuity(at, reason, s[i].index, s[i + 1].index))
  }

  /** A manifest that is sound apart from its jumps is accepted once each neighbouring pair
    * has such a marker. */
  lemma BracketingMarkersSuffice(m: Manifest, issued: seq<LivenessNonce>, window: Duration, at: Time, reason: string)
    requires m.segments != [] && StrictlyIncreasing(m.segments)
    requires forall n :: n in m.livenessNonces ==> NonceAccepted(m, issued, window, n)
    requires forall r :: r in m.deliveryReceipts ==> ReceiptAccepted(m.segments, r)
    ensures Accepts(m.(discontinuities := BracketingMarkers(m.segments, at, reason)), issued, window)
  {
    var marks := BracketingMarkers(m.segments, at, reason);
    var marked := m.(discontinuities := marks);
    forall i | 0 < i < |m.segments| ensures Continues(m.segments[i - 1].index, m.segments[i].index, marks) {
      assert marks[i - 1] in marks;
    }
    forall n | n in m.livenessNonces ensures NonceAccepted(marked, issued, window, n) {
      var k, p :| ReflectionAccepted(m, issued, window, n, k, p);
      assert ReflectionAccepted(marked, issued, window, n, k, p);
    }
  }

  // ---------- Acceptance on the fields ----------

  ghost function TotalMS(s: seq<Segment>, n: nat): int
    requires n <= |s|
  {
    if n == 0 then 0 else TotalMS(s, n - 1) + s[n - 1].durationMS
  }

  lemma {:induction false} NanosAreMillionths(s: seq<Segment>, n: nat)
    requires n <= |s|
    ensures ExactNanos(s, n) == 1_000_000 * TotalMS(s, n)
  {
    if n > 0 { NanosAreMillionths(s, n - 1); }
  }

  lemma {:induction false} NeighboursDecideOrder(s: seq<Segment>, n: nat)
    requires n <= |s| && forall i :: 0 < i < |s| ==> s[i - 1].index < s[i].index
    ensures forall i, j :: 0 <= i < j < n ==> s[i].index < s[j].index
  {
    if n > 1 {
      NeighboursDecideOrder(s, n - 1);
      assert s[n - 2].index < s[n - 1].index;
    }
  }

  /** The right segment comes later, and a marker runs from the left one to it if indexes
    * are missing in between. */
  ghost predicate Follows(left: Segment, right: Segment, marks: seq<Discontinuity>) {
    && left.index < right.index
    && (right.index - left.index > 1 ==> exists d :: d in marks && d.prevSeq == left.index && d.resumeSeq == right.index)
  }

  lemma NeighboursDecide(m: Manifest)
    ensures StrictlyIncreasing(m.segments) && GapsMarked(m.segments, m.discontinuities)
       <==> forall i :: 0 < i < |m.segments| ==> Follows(m.segments[i - 1], m.segments[i], m.discontinuities)
  {
    var s := m.segments;
    if forall i :: 0 < i < |s| ==> Follows(s[i - 1], s[i], m.discontinuities) {
      NeighboursDecideOrder(s, |s|);
      forall i | 0 < i < |s| ensures Continues(s[i - 1].index, s[i].index, m.discontinuities) {
        assert Follows(s[i - 1], s[i], m.discontinuities);
      }
    }
    if StrictlyIncreasing(s) && GapsMarked(s, m.discontinuities) {
      forall i | 0 < i < |s| ensures Follows(s[i - 1], s[i], m.discontinuities) {
        assert Continues(s[i - 1].index, s[i].index, m.discontinuities);
      }
    }
  }

  /** Registration `k` is the newest one of the nonce, segment `p` has the reflected index,
    * and its exact end lies within the window around the issue. */
  ghost predicate Reflected(m: Manifest, issued: seq<LivenessNonce>, window: Duration, n: LivenessNonce, k: int, p: int) {
    && 0 <= k < |issued| && issued[k].nonce == n.nonce && (forall j :: k < j < |issued| ==> issued[j].nonce != n.nonce)
    && 0 <= p < |m.segments| && m.segments[p].index == n.reflectedInSeq
    && issued[k].issuedAt - window <= m.startedAt + 1_000_000 * TotalMS(m.segments, p + 1) <= issued[k].issuedAt + window
  }

  ghost predicate Delivered(s: seq<Segment>, r: DeliveryReceipt, p: int) {
    0 <= p < |s| && s[p].index == r.seqStart && s[p].sha256 == r.sha256
  }

  lemma ReceiptOnFields(s: seq<Segment>, r: DeliveryReceipt)
    requires StrictlyIncreasing(s)
    ensures ReceiptAccepted(s, r) <==> r.seqStart == r.seqEnd && exists p :: Delivered(s, r, p)
  {
    if p :| Delivered(s, r, p) { assert LastAt(s, r.seqStart, p); }
    if p :| LastAt(s, r.seqStart, p) && s[p].sha256 == r.sha256 { assert Delivered(s, r, p); }
  }

  lemma ReflectionOnFields(m: Manifest, issued: seq<LivenessNonce>, window: Duration, n: LivenessNonce, k: int, p: int)
    requires StrictlyIncreasing(m.segments)
    ensures Reflected(m, issued, window, n, k, p)
       <==> LastIssued(issued, n.nonce, k) && LastAt(m.segments, n.reflectedInSeq, p) && Abs(ExactDifference(m, issued, k, p)) <= window
  {
    if 0 <= p < |m.segments| { NanosAreMillionths(m.segments, p + 1); }
  }

  lemma NonceOnFields(m: Manifest, issued: seq<LivenessNonce>, window: Duration, n: LivenessNonce)
    requires StrictlyIncreasing(m.segments)
    ensures NonceExactlyAccepted(m, issued, window, n) <==> exists k, p :: Reflected(m, issued, window, n, k, p)
  {
    forall k, p
      ensures Reflected(m, issued, window, n, k, p)
         <==> LastIssued(issued, n.nonce, k) && LastAt(m.segments, n.reflectedInSeq, p) && Abs(ExactDifference(m, issued, k, p)) <= window
    {
      ReflectionOnFields(m, issued, window, n, k, p);
    }
  }

  /** The whole of acceptance on the fields, without index, array or machine arithmetic, for
    * manifests whose prefix sums fit int64. */
  lemma AcceptanceOnFields(m: Manifest, issued: seq<LivenessNonce>, window: Duration)
    requires PrefixesFit(m.segments)
    ensures Accepts(m, issued, window) && ReflectionsFaithful(m, issued, window)
       <==> && m.segments != []
            && (forall i :: 0 < i < |m.segments| ==> Follows(m.segments[i - 1], m.segments[i], m.discontinuities))
            && (forall n :: n in m.livenessNonces ==> exists k, p :: Reflected(m, issued, window, n, k, p))
            && (forall r :: r in m.deliveryReceipts ==> r.seqStart == r.seqEnd && exists p :: Delivered(m.segments, r, p))
  {
    hide PrefixesFit, ReflectionsFaithful, NonceAccepted, NonceExactlyAccepted, ReceiptAccepted, Reflected, Delivered, Follows, GapsMarked;
    MachineAcceptanceIsExact(m, issued, window);
    NeighboursDecide(m);
    if StrictlyIncreasing(m.segments) {
      hide StrictlyIncreasing;
      forall n | n in m.livenessNonces
        ensures NonceExactlyAccepted(m, issued, window, n) <==> exists k, p :: Reflected(m, issued, window, n, k, p)
      {
        NonceOnFields(m, issued, window, n);
      }
      forall r | r in m.deliveryReceipts
        ensures ReceiptAccepted(m.segments, r) <==> r.seqStart == r.seqEnd && exists p :: Delivered(m.segments, r, p)
      {
        ReceiptOnFields(m.segments, r);
      }
    }
  }

  /** Registering a nonce again replaces its earlier registration and touches no other. */
  lemma NewestRegistrationDecides(m: Manifest, issued: seq<LivenessNonce>, e: LivenessNonce, window: Duration, n: LivenessNonce)
    ensures NonceAccepted(m, issued + [e], window, n)
       <==> NonceAccepted(m, if n.nonce == e.nonce then [e] else issued, window, n)
  {
    var more := issued + [e];
    if n.nonce == e.nonce {
      assert LastIssued(more, n.nonce, |issued|) && LastIssued([e], n.nonce, 0);
      if p :| LastAt(m.segments, n.reflectedInSeq, p) {
        TheReflectionDecides(m, more, window, n, |issued|, p);
        TheReflectionDecides(m, [e], window, n, 0, p);
      }
    } else if k, p :| LastIssued(issued, n.nonce, k) && LastAt(m.segments, n.reflectedInSeq, p) {
      assert LastIssued(more, n.nonce, k);
      TheReflectionDecides(m, more, window, n, k, p);
      TheReflectionDecides(m, issued, window, n, k, p);
    } else {
      forall k | LastIssued(more, n.nonce, k) ensures LastIssued(issued, n.nonce, k) {
        assert forall j :: k < j < |issued| ==> issued[j] == more[j];
      }
    }
  }

  // ---------- What single fields are worth ----------

  /** What one segment pays for one receipt. */
  lemma CreditOfOneSegment(g: Segment, r: DeliveryReceipt)
    ensures Credit([g], r)
         == if r.seqStart == g.index && r.seqEnd == g.index && g.provenance == "host-verified" && g.sha256 == r.sha256 then g.bytes else 0
  {
    if r.seqStart == g.index {
      assert LastAt([g], r.seqStart, 0);
      if r.seqStart == r.seqEnd { CreditAt([g], r, 0); }
    }
  }

  /** Among segments with one index the last pays, accepted manifest or not. */
  lemma LastSegmentPays(s: seq<Segment>, g: Segment, r: DeliveryReceipt)
    ensures Credit(s + [g], r) == Credit(if r.seqStart == g.index then [g] else s, r)
  {
    var t := s + [g];
    if r.seqStart == r.seqEnd {
      if r.seqStart == g.index {
        assert LastAt(t, g.index, |s|) && LastAt([g], g.index, 0);
        CreditAt(t, r, |s|);
        CreditAt([g], r, 0);
      } else if p :| LastAt(s, r.seqStart, p) {
        assert LastAt(t, r.seqStart, p);
        CreditAt(t, r, p);
        CreditAt(s, r, p);
      } else {
        forall p ensures !LastAt(t, r.seqStart, p) {
          if LastAt(t, r.seqStart, p) {
            assert forall q :: 0 <= q < |s| ==> s[q] == t[q];
            assert LastAt(s, r.seqStart, p);
          }
        }
      }
    }
  }

  // The credit of one receipt after the bytes of segment p changed.
  lemma CreditAfterChange(s: seq<Segment>, r: DeliveryReceipt, p: nat, bytes: int64)
    requires p < |s|
    ensures var t := s[p := s[p].(bytes := bytes)];
            Credit(t, r) == Credit(s, r)
              + if LastAt(s, r.seqStart, p) && r.seqStart == r.seqEnd && s[p].provenance == "host-verified" && s[p].sha256 == r.sha256
                then bytes - s[p].bytes else 0
  {
    var t := s[p := s[p].(bytes := bytes)];
    forall q ensures LastAt(s, r.seqStart, q) <==> LastAt(t, r.seqStart, q) {
      assert forall x :: 0 <= x < |s| ==> t[x].index == s[x].index;
      assert forall x :: 0 <= x < |s| ==> s[x].index == t[x].index;
    }
    if q :| LastAt(s, r.seqStart, q) {
      if r.seqStart == r.seqEnd {
        CreditAt(s, r, q);
        CreditAt(t, r, q);
      }
    }
  }

  /** No byte count of a segment that the host did not verify ever reaches the figure. */
  lemma {:induction false} UnverifiedBytesNeverPay(s: seq<Segment>, receipts: seq<DeliveryReceipt>, p: nat, bytes: int64)
    requires p < |s| && s[p].provenance != "host-verified"
    ensures ExactBytes(s[p := s[p].(bytes := bytes)], receipts) == ExactBytes(s, receipts)
  {
    if receipts != [] {
      UnverifiedBytesNeverPay(s, receipts[..|receipts| - 1], p, bytes);
      CreditAfterChange(s, receipts[|receipts| - 1], p, bytes);
    }
  }

  lemma MatchingReceipt(s: seq<Segment>, r: DeliveryReceipt, p: nat)
    requires p < |s| && StrictlyIncreasing(s) && ReceiptAccepted(s, r)
    ensures r.seqStart == s[p].index <==> LastAt(s, r.seqStart, p) && r.seqStart == r.seqEnd && s[p].sha256 == r.sha256
  {
  }

  lemma OncePerReceipt(gain: int, c: nat)
    ensures gain * (c + 1) == gain * c + gain && gain * 0 == 0
  {
  }

  lemma {:induction false} VerifiedBytesPayPerReceipt(s: seq<Segment>, receipts: seq<DeliveryReceipt>, p: nat, bytes: int64)
    requires p < |s| && s[p].provenance == "host-verified"
    requires StrictlyIncreasing(s) && forall r :: r in receipts ==> ReceiptAccepted(s, r)
    ensures ExactBytes(s[p := s[p].(bytes := bytes)], receipts)
         == ExactBytes(s, receipts) + (bytes - s[p].bytes) * ReceiptsNaming(receipts, s[p].index)
  {
    hide Credit, LastAt, StrictlyIncreasing, ReceiptAccepted;
    if receipts != [] {
      var rest, r := receipts[..|receipts| - 1], receipts[|receipts| - 1];
      VerifiedBytesPayPerReceipt(s, rest, p, bytes);
      CreditAfterChange(s, r, p, bytes);
      MatchingReceipt(s, r, p);
      var c := ReceiptsNaming(rest, s[p].index);
      assert ReceiptsNaming(receipts, s[p].index) == c + if r.seqStart == s[p].index then 1 else 0;
      OncePerReceipt(bytes - s[p].bytes, c);
    }
  }

  /** Raising the bytes of a host-verified segment of an accepted manifest raises the exact
    * figure by as much for every receipt naming it; an attested segment never pays. */
  lemma OnlyHostVerifiedBytesPay(m: Manifest, issued: seq<LivenessNonce>, window: Duration, p: nat, bytes: int64)
    requires Accepts(m, issued, window) && p < |m.segments|
    ensures var changed := m.segments[p := m.segments[p].(bytes := bytes)];
            var gain := ExactBytes(changed, m.deliveryReceipts) - ExactBytes(m.segments, m.deliveryReceipts);
            && (m.segments[p].provenance == "host-verified" ==>
                  gain == (bytes - m.segments[p].bytes) * ReceiptsNaming(m.deliveryReceipts, m.segments[p].index))
            && (m.segments[p].provenance == "attested" ==> gain == 0)
  {
    if m.segments[p].provenance == "host-verified" {
      VerifiedBytesPayPerReceipt(m.segments, m.deliveryReceipts, p, bytes);
    } else {
      UnverifiedBytesNeverPay(m.segments, m.deliveryReceipts, p, bytes);
    }
  }
}
