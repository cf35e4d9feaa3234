/** What an accepted manifest says about the indexes it spans. */
module StreamGaps {
  import opened GoTime
  import opened StreamManifest

  /** Total width of the jumps that a marker brackets, among the first `n` segments. */
  ghost function MarkedGapTotal(s: seq<Segment>, marks: seq<Discontinuity>, n: nat): int
    requires n <= |s|
  {
    if n <= 1 then 0
    else MarkedGapTotal(s, marks, n - 1)
         + if Marked(s[n - 2].index, s[n - 1].index, marks) then s[n - 1].index - s[n - 2].index - 1 else 0
  }

  lemma {:induction false} SpanOfPrefix(s: seq<Segment>, marks: seq<Discontinuity>, n: nat)
    requires 0 < n <= |s| && GapsMarked(s, marks)
    ensures s[n - 1].index - s[0].index + 1 == n + MarkedGapTotal(s, marks, n)
  {
    if n > 1 {
      SpanOfPrefix(s, marks, n - 1);
      assert Continues(s[n - 2].index, s[n - 1].index, marks);
    }
  }

  /** Conservation: the span is the delivered segments plus exactly the marked gaps. */
  lemma SpanIsSegmentsPlusMarkedGaps(m: Manifest, issued: seq<LivenessNonce>, window: Duration)
    requires Accepts(m, issued, window)
    ensures m.segments[|m.segments| - 1].index - m.segments[0].index + 1
         == |m.segments| + MarkedGapTotal(m.segments, m.discontinuities, |m.segments|)
  {
    SpanOfPrefix(m.segments, m.discontinuities, |m.segments|);
  }

  /** `x` lies strictly inside the jump that ends at position `i`. */
  ghost predicate InsideGap(s: seq<Segment>, x: int, i: int) {
    0 < i < |s| && s[i - 1].index < x < s[i].index
  }

  lemma {:induction false} Locate(s: seq<Segment>, x: int, n: nat)
    requires 0 < n <= |s| && StrictlyIncreasing(s) && s[0].index <= x <= s[n - 1].index
    ensures (exists p :: LastAt(s, x, p)) || (exists i :: InsideGap(s, x, i))
  {
    if x == s[n - 1].index {
      assert LastAt(s, x, n - 1);
    } else if x > s[n - 2].index {
      assert InsideGap(s, x, n - 1);
    } else {
      Locate(s, x, n - 1);
    }
  }

  lemma GapHoldsNoSegment(s: seq<Segment>, x: int, i: int, p: int)
    requires StrictlyIncreasing(s) && InsideGap(s, x, i) && 0 <= p < |s|
    ensures s[p].index != x
  {
  }

  lemma GapsAreDisjoint(s: seq<Segment>, x: int, i: int, j: int)
    requires StrictlyIncreasing(s) && InsideGap(s, x, i) && InsideGap(s, x, j)
    ensures i == j
  {
  }

  /** Every index in the span is either a segment or inside exactly one gap, which is marked. */
  lemma EveryIndexAccountedFor(m: Manifest, issued: seq<LivenessNonce>, window: Duration, x: int)
    requires Accepts(m, issued, window)
    requires m.segments[0].index <= x <= m.segments[|m.segments| - 1].index
    ensures (exists p :: LastAt(m.segments, x, p)) <==> !(exists i :: InsideGap(m.segments, x, i))
    ensures forall i :: InsideGap(m.segments, x, i) ==> Marked(m.segments[i - 1].index, m.segments[i].index, m.discontinuities)
    ensures forall i, j :: InsideGap(m.segments, x, i) && InsideGap(m.segments, x, j) ==> i == j
  {
    var s := m.segments;
    Locate(s, x, |s|);
    if i :| InsideGap(s, x, i) {
      forall p | 0 <= p < |s| ensures s[p].index != x { GapHoldsNoSegment(s, x, i, p); }
      forall j | InsideGap(s, x, j) ensures j == i { GapsAreDisjoint(s, x, i, j); }
      assert Continues(s[i - 1].index, s[i].index, m.discontinuities);
    }
  }

  lemma {:induction false} ContiguousPrefix(s: seq<Segment>, n: nat)
    requires n < |s| && GapsMarked(s, [])
    ensures s[n].index == s[0].index + n
  {
    if n > 0 {
      ContiguousPrefix(s, n - 1);
      assert Continues(s[n - 1].index, s[n].index, []);
    }
  }

  /** Without markers the indexes are an unbroken run, and positions are offsets from the first. */
  lemma UnmarkedIndexesAreContiguous(m: Manifest, issued: seq<LivenessNonce>, window: Duration, x: int)
    requires Accepts(m, issued, window) && m.discontinuities == []
    ensures forall n :: 0 <= n < |m.segments| ==> m.segments[n].index == m.segments[0].index + n
    ensures forall p :: LastAt(m.segments, x, p) <==> 0 <= p < |m.segments| && p == x - m.segments[0].index
  {
    forall n | 0 <= n < |m.segments| ensures m.segments[n].index == m.segments[0].index + n {
      ContiguousPrefix(m.segments, n);
    }
  }
}
