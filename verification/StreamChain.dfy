/** A whole stream: any number of consecutive manifest windows. */
module StreamChain {
  import opened GoTime
  import opened StreamManifest
  import opened StreamTime
  import opened StreamWindows

  /** Window `b` directly follows window `a`: it starts when `a` has played out, and its first
    * index continues the last one of `a`, or a marker of either window covers the jump. */
  ghost predicate Follows(a: Manifest, b: Manifest) {
    && a.segments != [] && b.segments != []
    && b.startedAt == Add(a.startedAt, Elapsed(a.segments, |a.segments|))
    && SeamContinues(Concat(a, b), a, b)
  }

  ghost predicate Chain(ws: seq<Manifest>, issued: seq<LivenessNonce>, window: Duration) {
    && (forall i :: 0 <= i < |ws| ==> Accepts(ws[i], issued, window))
    && (forall i :: 0 < i < |ws| ==> Follows(ws[i - 1], ws[i]))
  }

  /** The stream as one manifest. */
  ghost function Whole(ws: seq<Manifest>): Manifest
    requires ws != []
  {
    if |ws| == 1 then ws[0] else Concat(Whole(ws[..|ws| - 1]), ws[|ws| - 1])
  }

  ghost function TotalBytes(ws: seq<Manifest>): int {
    if ws == [] then 0
    else TotalBytes(ws[..|ws| - 1]) + ExactBytes(ws[|ws| - 1].segments, ws[|ws| - 1].deliveryReceipts)
  }

  lemma FitPrefix(s: seq<Segment>, t: seq<Segment>)
    requires DurationsFit(s + t)
    ensures DurationsFit(s) && ExactNanos(s + t, |s + t|) == ExactNanos(s, |s|) + ExactNanos(t, |t|)
    ensures Elapsed(s, |s|) == ExactNanos(s, |s|)
  {
    forall i | 0 <= i < |s| ensures s[i].durationMS >= 0 { assert s[i] == (s + t)[i]; }
    forall i | 0 <= i < |t| ensures t[i].durationMS >= 0 { assert t[i] == (s + t)[|s| + i]; }
    NanosAppend(s, t, |t|);
    NanosGrow(s, 0, |s|);
    NanosGrow(t, 0, |t|);
  }

  // What the whole shares with its last window.
  lemma {:induction false} WholeEndsWithLast(ws: seq<Manifest>)
    requires ws != [] && DurationsFit(Whole(ws).segments)
    requires forall i :: 0 <= i < |ws| ==> ws[i].segments != []
    requires forall i :: 0 < i < |ws| ==> Follows(ws[i - 1], ws[i])
    ensures var m, last := Whole(ws), ws[|ws| - 1];
            && |m.segments| >= |last.segments|
            && m.segments[|m.segments| - |last.segments|..] == last.segments
            && m.startedAt + ExactNanos(m.segments, |m.segments|) == last.startedAt + Elapsed(last.segments, |last.segments|)
            && (forall d :: d in last.discontinuities ==> d in m.discontinuities)
    decreases |ws|
  {
    var n := |ws| - 1;
    if n > 0 {
      var before, m, last := Whole(ws[..n]), Whole(ws), ws[n];
      FitPrefix(before.segments, last.segments);
      FitSuffix(before.segments, last.segments);
      WholeEndsWithLast(ws[..n]);
      assert Follows(ws[n - 1], last);
      assert m.segments == before.segments + last.segments;
      assert m.segments[|m.segments| - |last.segments|..] == last.segments;
    } else {
      NanosGrow(ws[0].segments, 0, |ws[0].segments|);
    }
  }

  lemma FitSuffix(s: seq<Segment>, t: seq<Segment>)
    requires DurationsFit(s + t)
    ensures DurationsFit(t) && Elapsed(t, |t|) == ExactNanos(t, |t|)
  {
    FitPrefix(s, t);
    forall i | 0 <= i < |t| ensures t[i].durationMS >= 0 { assert t[i] == (s + t)[|s| + i]; }
    NanosGrow(s, 0, |s|);
    NanosGrow(t, 0, |t|);
  }

  lemma SeamOfWhole(before: Manifest, prev: Manifest, next: Manifest)
    requires Follows(prev, next) && |before.segments| >= |prev.segments|
    requires before.segments[|before.segments| - |prev.segments|..] == prev.segments
    requires forall d :: d in prev.discontinuities ==> d in before.discontinuities
    ensures SeamContinues(Concat(before, next), before, next)
  {
  }

  lemma WholeStep(ws: seq<Manifest>)
    requires |ws| > 1
    ensures var n := |ws| - 1;
            Whole(ws) == Concat(Whole(ws[..n]), ws[n]) && Whole(ws).segments == Whole(ws[..n]).segments + ws[n].segments
  {
  }

  lemma AcceptedHasSegments(ws: seq<Manifest>, issued: seq<LivenessNonce>, window: Duration)
    requires Chain(ws, issued, window)
    ensures forall i :: 0 <= i < |ws| ==> ws[i].segments != []
  {
  }

  lemma JoinNext(before: Manifest, next: Manifest, prev: Manifest, issued: seq<LivenessNonce>, window: Duration)
    requires Accepts(before, issued, window) && Accepts(next, issued, window)
    requires SeamContinues(Concat(before, next), before, next)
    requires DurationsFit(before.segments + next.segments)
    requires Follows(prev, next)
    requires before.startedAt + ExactNanos(before.segments, |before.segments|)
          == prev.startedAt + Elapsed(prev.segments, |prev.segments|)
    ensures Accepts(Concat(before, next), issued, window)
    ensures ExactBytes(Concat(before, next).segments, Concat(before, next).deliveryReceipts)
         == ExactBytes(before.segments, before.deliveryReceipts) + ExactBytes(next.segments, next.deliveryReceipts)
  {
    FitPrefix(before.segments, next.segments);
    ConcatIsJoined(before, next);
    FittingDurationsNeverOverflow(Concat(before, next), before, next);
    ConcatAccepted(before, next, issued, window);
    ConcatBillsBoth(before, next, issued, window);
  }

  lemma ChainPrefix(ws: seq<Manifest>, issued: seq<LivenessNonce>, window: Duration)
    requires |ws| > 1 && Chain(ws, issued, window)
    ensures var n := |ws| - 1;
            Chain(ws[..n], issued, window) && Accepts(ws[n], issued, window) && Follows(ws[n - 1], ws[n])
  {
  }

  // The induction step: the whole of the earlier windows takes in one more.
  lemma ChainStep(ws: seq<Manifest>, issued: seq<LivenessNonce>, window: Duration)
    requires |ws| > 1 && Chain(ws, issued, window) && DurationsFit(Whole(ws).segments)
    requires var before := Whole(ws[..|ws| - 1]); Accepts(before, issued, window) && DurationsFit(before.segments)
    ensures Accepts(Whole(ws), issued, window)
    ensures var before, next := Whole(ws[..|ws| - 1]), ws[|ws| - 1];
            ExactBytes(Whole(ws).segments, Whole(ws).deliveryReceipts)
            == ExactBytes(before.segments, before.deliveryReceipts) + ExactBytes(next.segments, next.deliveryReceipts)
  {
    hide Accepts, Follows, SeamContinues, DurationsFit, ExactBytes, Concat;
    var n := |ws| - 1;
    var before, next := Whole(ws[..n]), ws[n];
    ChainPrefix(ws, issued, window);
    WholeStep(ws);
    AcceptedHasSegments(ws[..n], issued, window);
    WholeEndsWithLast(ws[..n]);
    SeamOfWhole(before, ws[n - 1], next);
    JoinNext(before, next, ws[n - 1], issued, window);
  }

  /** Windows chain without limit: if each is accepted, follows the one before, and the
    * durations of the stream are non-negative with a total within int64, the whole stream
    * is accepted as one manifest and bills the sum of its windows. */
  lemma {:induction false} ChainAccepted(ws: seq<Manifest>, issued: seq<LivenessNonce>, window: Duration)
    requires ws != [] && Chain(ws, issued, window) && DurationsFit(Whole(ws).segments)
    ensures Accepts(Whole(ws), issued, window)
    ensures ExactBytes(Whole(ws).segments, Whole(ws).deliveryReceipts) == TotalBytes(ws)
    decreases |ws|
  {
    hide Accepts, Follows, DurationsFit, ExactBytes;
    var n := |ws| - 1;
    if n == 0 {
      assert TotalBytes(ws[..0]) == 0;
    } else {
      ChainPrefix(ws, issued, window);
      WholeStep(ws);
      FitPrefix(Whole(ws[..n]).segments, ws[n].segments);
      ChainAccepted(ws[..n], issued, window);
      ChainStep(ws, issued, window);
    }
  }
}
