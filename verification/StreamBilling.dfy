/** What the billing figure of a manifest is. */
module StreamBilling {
  import opened GoInt
  import opened GoTime
  import opened StreamManifest

  lemma {:induction false} ExactBytesAppend(s: seq<Segment>, a: seq<DeliveryReceipt>, b: seq<DeliveryReceipt>)
    ensures ExactBytes(s, a + b) == ExactBytes(s, a) + ExactBytes(s, b)
  {
    if b == [] {
      assert a + b == a;
    } else {
      var n := |b| - 1;
      ExactBytesAppend(s, a, b[..n]);
      assert (a + b)[..|a + b| - 1] == a + b[..n];
    }
  }

  ghost function ReceiptsNaming(receipts: seq<DeliveryReceipt>, index: int): nat {
    if receipts == [] then 0
    else ReceiptsNaming(receipts[..|receipts| - 1], index) + if receipts[|receipts| - 1].seqStart == index then 1 else 0
  }

  /** The same money counted segment by segment: bytes times the receipts naming the segment. */
  ghost function BilledBySegment(s: seq<Segment>, receipts: seq<DeliveryReceipt>, n: nat): int
    requires n <= |s|
  {
    if n == 0 then 0
    else BilledBySegment(s, receipts, n - 1)
         + if s[n - 1].provenance == PROVENANCE_HOST_VERIFIED then s[n - 1].bytes * ReceiptsNaming(receipts, s[n - 1].index) else 0
  }

  lemma {:induction false} NoReceiptsNoBill(s: seq<Segment>, n: nat)
    requires n <= |s|
    ensures BilledBySegment(s, [], n) == 0
  {
    if n > 0 { NoReceiptsNoBill(s, n - 1); }
  }

  // One more receipt, naming position p, adds that segment's bytes once.
  lemma {:induction false} OneMoreReceipt(s: seq<Segment>, receipts: seq<DeliveryReceipt>, r: DeliveryReceipt, p: nat, n: nat)
    requires n <= |s| && p < |s| && StrictlyIncreasing(s) && s[p].index == r.seqStart
    ensures BilledBySegment(s, receipts + [r], n)
         == BilledBySegment(s, receipts, n) + if p < n && s[p].provenance == PROVENANCE_HOST_VERIFIED then s[p].bytes else 0
  {
    if n > 0 {
      OneMoreReceipt(s, receipts, r, p, n - 1);
      assert (receipts + [r])[..|receipts|] == receipts;
      var i := s[n - 1].index;
      assert ReceiptsNaming(receipts + [r], i) == ReceiptsNaming(receipts, i) + if p == n - 1 then 1 else 0 by {
        if p < n - 1 { assert s[p].index < i; }
        if n - 1 < p { assert i < s[p].index; }
      }
      var c := ReceiptsNaming(receipts, i);
      assert s[n - 1].bytes * (c + 1) == s[n - 1].bytes * c + s[n - 1].bytes;
    }
  }

  lemma {:induction false} SumsSwap(s: seq<Segment>, receipts: seq<DeliveryReceipt>)
    requires StrictlyIncreasing(s) && forall r :: r in receipts ==> ReceiptAccepted(s, r)
    ensures ExactBytes(s, receipts) == BilledBySegment(s, receipts, |s|)
  {
    if receipts == [] {
      NoReceiptsNoBill(s, |s|);
    } else {
      var rest, r := receipts[..|receipts| - 1], receipts[|receipts| - 1];
      SumsSwap(s, rest);
      assert rest + [r] == receipts;
      assert ReceiptAccepted(s, r);
      var p :| LastAt(s, r.seqStart, p) && s[p].sha256 == r.sha256;
      CreditAt(s, r, p);
      OneMoreReceipt(s, rest, r, p, |s|);
    }
  }

  /** Double counting: for an accepted manifest, the sum over receipts is the sum over
    * host-verified segments of bytes times the number of receipts naming them. */
  lemma BillIsBytesTimesReceipts(m: Manifest, issued: seq<LivenessNonce>, window: Duration)
    requires Accepts(m, issued, window)
    ensures ExactBytes(m.segments, m.deliveryReceipts) == BilledBySegment(m.segments, m.deliveryReceipts, |m.segments|)
  {
    SumsSwap(m.segments, m.deliveryReceipts);
  }

  /** Only the range and hash a receipt states can matter; its own byte claim, consumer and
    * kind cannot, nor can the order of receipts. */
  ghost predicate SameClaim(a: DeliveryReceipt, b: DeliveryReceipt) {
    a.seqStart == b.seqStart && a.seqEnd == b.seqEnd && a.sha256 == b.sha256
  }

  lemma {:induction false} ByteClaimsIgnored(s: seq<Segment>, a: seq<DeliveryReceipt>, b: seq<DeliveryReceipt>)
    requires |a| == |b| && forall i :: 0 <= i < |a| ==> SameClaim(a[i], b[i])
    ensures ExactBytes(s, a) == ExactBytes(s, b)
  {
    if a != [] {
      var n := |a| - 1;
      ByteClaimsIgnored(s, a[..n], b[..n]);
      assert SameClaim(a[n], b[n]);
      if p :| LastAt(s, a[n].seqStart, p) {
        if a[n].seqStart == a[n].seqEnd {
          CreditAt(s, a[n], p);
          CreditAt(s, b[n], p);
        }
      }
    }
  }

  lemma ExactBytesRemove(s: seq<Segment>, b: seq<DeliveryReceipt>, j: nat)
    requires j < |b|
    ensures ExactBytes(s, b) == ExactBytes(s, b[..j] + b[j + 1..]) + Credit(s, b[j])
  {
    var upTo := b[..j + 1];
    assert upTo[..j] == b[..j];
    assert b == upTo + b[j + 1..];
    ExactBytesAppend(s, upTo, b[j + 1..]);
    ExactBytesAppend(s, b[..j], b[j + 1..]);
  }

  lemma RemovalOfOne<T>(b: seq<T>, j: nat)
    requires j < |b|
    ensures multiset(b[..j] + b[j + 1..]) == multiset(b) - multiset{b[j]}
  {
    assert b == b[..j] + [b[j]] + b[j + 1..];
  }

  lemma {:induction false} OrderIgnored(s: seq<Segment>, a: seq<DeliveryReceipt>, b: seq<DeliveryReceipt>)
    requires multiset(a) == multiset(b)
    ensures ExactBytes(s, a) == ExactBytes(s, b)
  {
    if a == [] {
      assert |b| == |multiset(b)| == 0;
    } else {
      var n := |a| - 1;
      assert a == a[..n] + [a[n]];
      assert a[n] in multiset(b);
      var j :| 0 <= j < |b| && b[j] == a[n];
      var rest := b[..j] + b[j + 1..];
      RemovalOfOne(a, n);
      RemovalOfOne(b, j);
      assert a[..n] + a[n + 1..] == a[..n];
      OrderIgnored(s, a[..n], rest);
      ExactBytesRemove(s, b, j);
    }
  }

  /** The returned figure of two manifests with the same segments is the same whenever the
    * receipts make the same claims in some order, whatever the worker reports. */
  lemma FigureDependsOnClaimsOnly(m: Manifest, m': Manifest, reordered: seq<DeliveryReceipt>)
    requires m.segments == m'.segments
    requires multiset(reordered) == multiset(m.deliveryReceipts)
    requires |reordered| == |m'.deliveryReceipts|
    requires forall i :: 0 <= i < |reordered| ==> SameClaim(reordered[i], m'.deliveryReceipts[i])
    ensures Wrap64(ExactBytes(m.segments, m.deliveryReceipts)) == Wrap64(ExactBytes(m'.segments, m'.deliveryReceipts))
  {
    OrderIgnored(m.segments, reordered, m.deliveryReceipts);
    ByteClaimsIgnored(m.segments, reordered, m'.deliveryReceipts);
  }

  lemma {:induction false} ExactBytesBounded(s: seq<Segment>, receipts: seq<DeliveryReceipt>, bound: nat)
    requires forall i :: 0 <= i < |s| ==> 0 <= s[i].bytes <= bound
    ensures 0 <= ExactBytes(s, receipts) <= bound * |receipts|
  {
    if receipts != [] {
      var n := |receipts| - 1;
      ExactBytesBounded(s, receipts[..n], bound);
      assert 0 <= Credit(s, receipts[n]) <= bound;
      assert bound * (n + 1) == bound * n + bound;
    }
  }

  /** With segment sizes in [0, bound] and bound * receipts within int64, the returned
    * figure is exact and within the bound. */
  lemma FigureWithinBound(m: Manifest, bound: nat)
    requires forall i :: 0 <= i < |m.segments| ==> 0 <= m.segments[i].bytes <= bound
    requires bound * |m.deliveryReceipts| <= MAX64
    ensures Wrap64(ExactBytes(m.segments, m.deliveryReceipts)) == ExactBytes(m.segments, m.deliveryReceipts)
    ensures 0 <= Wrap64(ExactBytes(m.segments, m.deliveryReceipts)) <= bound * |m.deliveryReceipts|
  {
    ExactBytesBounded(m.segments, m.deliveryReceipts, bound);
  }
}
