/** Capabilities derived from runtime backend reports, and matching against them. */
module Capabilities {
  import opened GoTime
  import opened Placement

  const SUPPORTED := "supported"

  datatype ExecutorRef = ExecutorRef(provider: string, executionSecurityTier: string, proofTier: string)

  /** `details` stands for the fields that only the report's own validation reads. */
  datatype BackendReport = BackendReport(
    status: string, executorProviders: seq<string>, executors: seq<ExecutorRef>, details: string)

  datatype CapabilityReport = CapabilityReport(provider: string, status: string)

  // The validity of a report at an instant is a parameter of everything below.
  type Validity = (BackendReport, Time) -> bool

  predicate Usable(r: BackendReport, valid: Validity, now: Time) {
    r.status == SUPPORTED && valid(r, now)
  }

  // ---------- Executors ----------

  ghost predicate DerivedExecutor(e: ExecutorRef, reports: seq<BackendReport>, valid: Validity, now: Time) {
    exists r :: r in reports && Usable(r, valid, now) && e in r.executors
  }

  method SupportedExecutors(reports: seq<BackendReport>, valid: Validity, now: Time) returns (executors: seq<ExecutorRef>)
    ensures forall e :: e in executors <==> DerivedExecutor(e, reports, valid, now)
    ensures executors == ExecutorsOf(reports, valid, now)
  {
    executors := [];
    for i := 0 to |reports|
      invariant executors + ExecutorsOf(reports[i..], valid, now) == ExecutorsOf(reports, valid, now)
    {
      assert reports[i..][1..] == reports[i + 1..];
      if !Usable(reports[i], valid, now) {
        continue;
      }
      executors := executors + reports[i].executors;
    }
    ExecutorsOfMembers(reports, valid, now);
  }

  ghost function ExecutorsOf(reports: seq<BackendReport>, valid: Validity, now: Time): seq<ExecutorRef> {
    if reports == [] then []
    else (if Usable(reports[0], valid, now) then reports[0].executors else []) + ExecutorsOf(reports[1..], valid, now)
  }

  lemma {:induction false} ExecutorsOfMembers(reports: seq<BackendReport>, valid: Validity, now: Time)
    ensures forall e :: e in ExecutorsOf(reports, valid, now) <==> DerivedExecutor(e, reports, valid, now)
  {
    if reports != [] {
      ExecutorsOfMembers(reports[1..], valid, now);
      assert forall r :: r in reports <==> r == reports[0] || r in reports[1..];
    }
  }

  // ---------- Capability reports ----------

  ghost function ProvidersOf(executors: seq<ExecutorRef>): (providers: seq<string>)
    ensures |providers| == |executors| && forall i :: 0 <= i < |executors| ==> providers[i] == executors[i].provider
  {
    seq(|executors|, i requires 0 <= i < |executors| => executors[i].provider)
  }

  /** Every provider name in usable reports, in reading order, with repetitions. */
  ghost function Mentions(reports: seq<BackendReport>, valid: Validity, now: Time): seq<string> {
    if reports == [] then []
    else
      var last := reports[|reports| - 1];
      Mentions(reports[..|reports| - 1], valid, now) + if Usable(last, valid, now) then NamesIn(last) else []
  }

  ghost function NamesIn(r: BackendReport): seq<string> {
    r.executorProviders + ProvidersOf(r.executors)
  }

  ghost function FirstOccurrences(names: seq<string>): (kept: seq<string>)
    ensures forall p :: p in kept <==> p in names
  {
    if names == [] then []
    else
      var kept := FirstOccurrences(names[..|names| - 1]);
      var last := names[|names| - 1];
      if last in kept then kept else kept + [last]
  }

  ghost predicate FirstAt(names: seq<string>, p: string, i: int) {
    0 <= i < |names| && names[i] == p && p !in names[..i]
  }

  /** Deduplication keeps each name once, ordered by where it was first mentioned. */
  lemma {:induction false} FirstOccurrencesOrdered(names: seq<string>)
    ensures forall i, j :: 0 <= i < j < |FirstOccurrences(names)| ==>
              FirstOccurrences(names)[i] != FirstOccurrences(names)[j]
    ensures forall i, j, x, y :: (
              && 0 <= i < j < |FirstOccurrences(names)|
              && FirstAt(names, FirstOccurrences(names)[i], x)
              && FirstAt(names, FirstOccurrences(names)[j], y)) ==> x < y
  {
    if names != [] {
      var n := |names| - 1;
      var rest, kept := FirstOccurrences(names[..n]), FirstOccurrences(names);
      FirstOccurrencesOrdered(names[..n]);
      forall i, j, x, y | 0 <= i < j < |kept| && FirstAt(names, kept[i], x) && FirstAt(names, kept[j], y)
        ensures x < y
      {
        assert kept[i] == rest[i] && rest[i] in names[..n];
        FirstAtPrefix(names, n, kept[i], x);
        if j < |rest| {
          assert rest[j] in names[..n];
          FirstAtPrefix(names, n, kept[j], y);
        } else {
          assert kept[j] == names[n] && kept[j] !in names[..n];
        }
      }
    }
  }

  lemma FirstAtPrefix(names: seq<string>, n: nat, p: string, x: int)
    requires n <= |names| && FirstAt(names, p, x) && p in names[..n]
    ensures x < n && FirstAt(names[..n], p, x)
  {
  }

  ghost function AsSupported(providers: seq<string>): (caps: seq<CapabilityReport>)
    ensures |caps| == |providers|
    ensures forall i :: 0 <= i < |caps| ==> caps[i] == CapabilityReport(providers[i], SUPPORTED)
  {
    seq(|providers|, i requires 0 <= i < |providers| => CapabilityReport(providers[i], SUPPORTED))
  }

  // The inner loops: append each name not seen before.
  method AppendUnseen(names: seq<string>, ghost mentioned: seq<string>, seen: set<string>, capabilities: seq<CapabilityReport>)
      returns (seen': set<string>, capabilities': seq<CapabilityReport>)
    requires (forall p :: p in seen <==> p in mentioned) && capabilities == AsSupported(FirstOccurrences(mentioned))
    ensures (forall p :: p in seen' <==> p in mentioned + names) && capabilities' == AsSupported(FirstOccurrences(mentioned + names))
  {
    seen', capabilities' := seen, capabilities;
    assert mentioned + names[..0] == mentioned;
    for i := 0 to |names|
      invariant forall p :: p in seen' <==> p in mentioned + names[..i]
      invariant capabilities' == AsSupported(FirstOccurrences(mentioned + names[..i]))
    {
      ghost var before := mentioned + names[..i];
      assert mentioned + names[..i + 1] == before + [names[i]];
      assert (before + [names[i]])[..|before|] == before;
      if names[i] in seen' {
        continue;
      }
      seen' := seen' + {names[i]};
      capabilities' := capabilities' + [CapabilityReport(names[i], SUPPORTED)];
    }
    assert names[..|names|] == names;
  }

  method AppendReport(report: BackendReport, ghost mentioned: seq<string>, seen: set<string>, capabilities: seq<CapabilityReport>)
      returns (seen': set<string>, capabilities': seq<CapabilityReport>)
    requires (forall p :: p in seen <==> p in mentioned) && capabilities == AsSupported(FirstOccurrences(mentioned))
    ensures forall p :: p in seen' <==> p in mentioned + NamesIn(report)
    ensures capabilities' == AsSupported(FirstOccurrences(mentioned + NamesIn(report)))
  {
    hide FirstOccurrences, AsSupported;
    seen', capabilities' := AppendUnseen(report.executorProviders, mentioned, seen, capabilities);
    var providers := [];
    for k := 0 to |report.executors|
      invariant providers == ProvidersOf(report.executors)[..k]
    {
      providers := providers + [report.executors[k].provider];
    }
    seen', capabilities' := AppendUnseen(providers, mentioned + report.executorProviders, seen', capabilities');
    assert mentioned + report.executorProviders + providers == mentioned + NamesIn(report);
  }

  method ProviderCapabilityReports(reports: seq<BackendReport>, valid: Validity, now: Time) returns (capabilities: seq<CapabilityReport>)
    ensures capabilities == AsSupported(FirstOccurrences(Mentions(reports, valid, now)))
  {
    capabilities := [];
    var seen: set<string> := {};
    assert AsSupported(FirstOccurrences(Mentions([], valid, now))) == [];
    hide FirstOccurrences, AsSupported, NamesIn;
    for n := 0 to |reports|
      invariant forall p :: p in seen <==> p in Mentions(reports[..n], valid, now)
      invariant capabilities == AsSupported(FirstOccurrences(Mentions(reports[..n], valid, now)))
    {
      assert reports[..n + 1][..n] == reports[..n];
      ghost var before := Mentions(reports[..n], valid, now);
      if !Usable(reports[n], valid, now) {
        assert before + [] == before;
        continue;
      }
      seen, capabilities := AppendReport(reports[n], before, seen, capabilities);
    }
    assert reports[..|reports|] == reports;
  }

  ghost predicate Mentioned(p: string, reports: seq<BackendReport>, valid: Validity, now: Time) {
    exists r :: r in reports && Usable(r, valid, now)
      && (p in r.executorProviders || exists e :: e in r.executors && e.provider == p)
  }

  lemma {:induction false} MentionsMembers(reports: seq<BackendReport>, valid: Validity, now: Time, p: string)
    ensures p in Mentions(reports, valid, now) <==> Mentioned(p, reports, valid, now)
  {
    if reports != [] {
      var n := |reports| - 1;
      var rest, last := reports[..n], reports[n];
      MentionsMembers(rest, valid, now, p);
      assert forall r :: r in reports <==> r in rest || r == last;
      assert p in ProvidersOf(last.executors) <==> exists e :: e in last.executors && e.provider == p;
    }
  }

  /** Each provider of a usable report is listed exactly once, as supported, in the order of
    * first mention, and nothing else is listed. */
  lemma CapabilitiesAreFirstMentions(reports: seq<BackendReport>, valid: Validity, now: Time)
    ensures var caps := AsSupported(FirstOccurrences(Mentions(reports, valid, now)));
            && (forall p :: Mentioned(p, reports, valid, now) <==> CapabilityReport(p, SUPPORTED) in caps)
            && (forall c :: c in caps ==> c.status == SUPPORTED)
            && (forall i, j :: 0 <= i < j < |caps| ==> caps[i].provider != caps[j].provider)
            && (forall i, j, x, y :: (
                  && 0 <= i < j < |caps|
                  && FirstAt(Mentions(reports, valid, now), caps[i].provider, x)
                  && FirstAt(Mentions(reports, valid, now), caps[j].provider, y)) ==> x < y)
  {
    var names := Mentions(reports, valid, now);
    var kept := FirstOccurrences(names);
    var caps := AsSupported(kept);
    FirstOccurrencesOrdered(names);
    forall p ensures Mentioned(p, reports, valid, now) <==> CapabilityReport(p, SUPPORTED) in caps {
      MentionsMembers(reports, valid, now, p);
      if p in kept {
        var i :| 0 <= i < |kept| && kept[i] == p;
        assert caps[i] == CapabilityReport(p, SUPPORTED);
      }
    }
  }

  // ---------- Matching ----------

  predicate Matches(e: ExecutorRef, req: Requirements) {
    && (req.executorProvider != "" ==> e.provider == req.executorProvider)
    && (req.executionSecurityTier != "" ==> e.executionSecurityTier == req.executionSecurityTier)
    && (req.proofTier != "" ==> e.proofTier == req.proofTier)
  }

  /** The first report naming the provider, if any; the empty name has none. */
  method ReportForProvider(reports: seq<CapabilityReport>, provider: string) returns (report: CapabilityReport, found: bool)
    ensures found <==> provider != "" && exists c :: c in reports && c.provider == provider
    ensures found ==> exists i :: 0 <= i < |reports| && reports[i] == report && report.provider == provider
                        && forall j :: 0 <= j < i ==> reports[j].provider != provider
  {
    report := CapabilityReport("", "");
    if provider == "" {
      return report, false;
    }
    for i := 0 to |reports|
      invariant forall j :: 0 <= j < i ==> reports[j].provider != provider
    {
      if reports[i].provider == provider {
        return reports[i], true;
      }
    }
    return report, false;
  }

  /** The executor's provider is not contradicted by the first report about it. */
  ghost predicate NotContradicted(provider: string, reports: seq<CapabilityReport>) {
    || provider == ""
    || (forall c :: c in reports ==> c.provider != provider)
    || (exists i :: 0 <= i < |reports| && reports[i] == CapabilityReport(provider, SUPPORTED)
                    && forall j :: 0 <= j < i ==> reports[j].provider != provider)
  }

  ghost predicate SupportedMatch(req: Requirements, executors: seq<ExecutorRef>, reports: seq<CapabilityReport>) {
    exists e :: e in executors && Matches(e, req) && NotContradicted(e.provider, reports)
  }

  method HaveSupportedMatch(req: Requirements, executors: seq<ExecutorRef>, reports: seq<CapabilityReport>) returns (ok: bool)
    ensures ok <==> SupportedMatch(req, executors, reports)
  {
    for i := 0 to |executors|
      invariant forall k :: 0 <= k < i ==> !(Matches(executors[k], req) && NotContradicted(executors[k].provider, reports))
    {
      var executor := executors[i];
      if Matches(executor, req) {
        var report, found := ReportForProvider(reports, executor.provider);
        if !found || report.status == SUPPORTED {
          return true;
        }
      }
    }
    return false;
  }

  /** Fed with what both derivations return at one instant, the match succeeds exactly when
    * some executor of a usable report meets the requirements. */
  lemma DerivedMatchAgreesWithSource(reports: seq<BackendReport>, valid: Validity, now: Time, req: Requirements)
    ensures SupportedMatch(req, ExecutorsOf(reports, valid, now), AsSupported(FirstOccurrences(Mentions(reports, valid, now))))
       <==> exists e :: DerivedExecutor(e, reports, valid, now) && Matches(e, req)
  {
    var caps := AsSupported(FirstOccurrences(Mentions(reports, valid, now)));
    ExecutorsOfMembers(reports, valid, now);
    CapabilitiesAreFirstMentions(reports, valid, now);
    forall p ensures NotContradicted(p, caps) {
      if c :| c in caps && c.provider == p {
        var i :| 0 <= i < |caps| && caps[i] == c;
      }
    }
  }

  // ---------- What decides a match ----------

  /** A match needs an executor that agrees with every stated requirement (an empty one states
    * nothing) and whose provider, if it is named and reported on, is reported as supported first. */
  lemma MatchOnFields(req: Requirements, executors: seq<ExecutorRef>, reports: seq<CapabilityReport>)
    ensures SupportedMatch(req, executors, reports)
       <==> exists e :: (
              && e in executors
              && (req.executorProvider == "" || req.executorProvider == e.provider)
              && (req.executionSecurityTier == "" || req.executionSecurityTier == e.executionSecurityTier)
              && (req.proofTier == "" || req.proofTier == e.proofTier)
              && (e.provider == "" || forall i :: FirstReport(reports, e.provider, i) ==> reports[i].status == "supported"))
  {
    forall e: ExecutorRef
      ensures NotContradicted(e.provider, reports)
         <==> e.provider == "" || forall i :: FirstReport(reports, e.provider, i) ==> reports[i].status == "supported"
    {
      FirstReportDecides(reports, e.provider);
    }
  }

  ghost predicate FirstReport(reports: seq<CapabilityReport>, provider: string, i: int) {
    0 <= i < |reports| && reports[i].provider == provider && forall j :: 0 <= j < i ==> reports[j].provider != provider
  }

  lemma {:induction false} FirstReportExists(reports: seq<CapabilityReport>, provider: string, n: nat)
    requires n < |reports| && reports[n].provider == provider
    ensures exists i :: FirstReport(reports, provider, i)
    decreases n
  {
    if m :| 0 <= m < n && reports[m].provider == provider {
      FirstReportExists(reports, provider, m);
    } else {
      assert FirstReport(reports, provider, n);
    }
  }

  lemma FirstReportDecides(reports: seq<CapabilityReport>, provider: string)
    ensures NotContradicted(provider, reports)
       <==> provider == "" || forall i :: FirstReport(reports, provider, i) ==> reports[i].status == "supported"
  {
    if c :| c in reports && c.provider == provider {
      var n :| 0 <= n < |reports| && reports[n] == c;
      FirstReportExists(reports, provider, n);
      var i :| FirstReport(reports, provider, i);
      assert reports[i] == CapabilityReport(provider, reports[i].status);
    }
  }

  /** Putting a degraded report in front takes exactly the executors of its provider out. */
  lemma DegradedProviderIsOut(req: Requirements, executors: seq<ExecutorRef>, reports: seq<CapabilityReport>, provider: string, status: string)
    requires provider != "" && status != "supported"
    ensures SupportedMatch(req, executors, [CapabilityReport(provider, status)] + reports)
       <==> exists e :: e in executors && e.provider != provider && Matches(e, req) && NotContradicted(e.provider, reports)
  {
    var more := [CapabilityReport(provider, status)] + reports;
    forall e: ExecutorRef ensures NotContradicted(e.provider, more) <==> e.provider != provider && NotContradicted(e.provider, reports) {
      PrependedReport(reports, CapabilityReport(provider, status), e.provider);
    }
  }

  lemma PrependedReport(reports: seq<CapabilityReport>, c: CapabilityReport, provider: string)
    requires c.provider != "" && c.status != "supported"
    ensures NotContradicted(provider, [c] + reports) <==> provider != c.provider && NotContradicted(provider, reports)
  {
    var more := [c] + reports;
    FirstReportDecides(more, provider);
    FirstReportDecides(reports, provider);
    assert forall i :: 0 <= i < |reports| ==> more[i + 1] == reports[i];
    if provider == c.provider {
      assert FirstReport(more, provider, 0);
    } else {
      forall i | FirstReport(more, provider, i) ensures FirstReport(reports, provider, i - 1) {
        assert forall j :: 0 <= j < i - 1 ==> reports[j] == more[j + 1];
      }
      forall i | FirstReport(reports, provider, i) ensures FirstReport(more, provider, i + 1) {}
    }
  }

  lemma {:induction false} ExecutorsOfConcat(a: seq<BackendReport>, b: seq<BackendReport>, valid: Validity, now: Time)
    ensures ExecutorsOf(a + b, valid, now) == ExecutorsOf(a, valid, now) + ExecutorsOf(b, valid, now)
  {
    if a == [] {
      assert a + b == b;
    } else {
      hide Usable;
      ExecutorsOfConcat(a[1..], b, valid, now);
      assert (a + b)[1..] == a[1..] + b && (a + b)[0] == a[0];
      var first := if Usable(a[0], valid, now) then a[0].executors else [];
      assert first + (ExecutorsOf(a[1..], valid, now) + ExecutorsOf(b, valid, now)) == ExecutorsOf(a, valid, now) + ExecutorsOf(b, valid, now);
    }
  }

  lemma {:induction false} MentionsConcat(a: seq<BackendReport>, b: seq<BackendReport>, valid: Validity, now: Time)
    ensures Mentions(a + b, valid, now) == Mentions(a, valid, now) + Mentions(b, valid, now)
  {
    if b == [] {
      assert a + b == a;
    } else {
      MentionsConcat(a, b[..|b| - 1], valid, now);
      assert (a + b)[..|a + b| - 1] == a + b[..|b| - 1];
    }
  }

  /** What one backend report contributes to both derivations: its executors, and its provider
    * names followed by theirs, if it is "supported" and valid at that instant; else nothing. */
  lemma OneReportContributes(a: seq<BackendReport>, r: BackendReport, b: seq<BackendReport>, valid: Validity, now: Time)
    ensures var counts := r.status == "supported" && valid(r, now);
            && ExecutorsOf(a + [r] + b, valid, now)
               == ExecutorsOf(a, valid, now) + (if counts then r.executors else []) + ExecutorsOf(b, valid, now)
            && Mentions(a + [r] + b, valid, now)
               == Mentions(a, valid, now) + (if counts then r.executorProviders + ProvidersOf(r.executors) else []) + Mentions(b, valid, now)
  {
    hide ExecutorsOf, Mentions;
    ExecutorsOfConcat(a + [r], b, valid, now);
    ExecutorsOfConcat(a, [r], valid, now);
    MentionsConcat(a + [r], b, valid, now);
    MentionsConcat(a, [r], valid, now);
    OneReportAlone(r, valid, now);
  }

  lemma OneReportAlone(r: BackendReport, valid: Validity, now: Time)
    ensures ExecutorsOf([r], valid, now) == if r.status == "supported" && valid(r, now) then r.executors else []
    ensures Mentions([r], valid, now) == if r.status == "supported" && valid(r, now) then r.executorProviders + ProvidersOf(r.executors) else []
  {
    assert [r][1..] == [] && [r][..0] == [];
  }
}
