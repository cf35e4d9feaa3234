/** The grammar of run-log policy references. */
module RunLogPolicy {
  import opened GoStrings

  const MAX_REF := 512
  const MAX_IDENTIFIER := 256

  datatype PolicyRef =
    | Global
    | Client(id: string)
    | Customer(id: string)
    | Provider(pluginID: string, providerID: string)
  {
    function Print(): string {
      match this
      case Global => "global"
      case Client(id) => "client:" + id
      case Customer(id) => "customer:" + id
      case Provider(plugin, provider) => "provider:" + plugin + "/" + provider
    }

    predicate WellFormed() {
      match this
      case Global => true
      case Client(id) => BoundedIdentifier(id)
      case Customer(id) => BoundedIdentifier(id)
      case Provider(plugin, provider) => BoundedIdentifier(plugin) && BoundedIdentifier(provider)
    }
  }

  predicate AlphaNumeric(ch: char) {
    'a' <= ch <= 'z' || 'A' <= ch <= 'Z' || '0' <= ch <= '9'
  }

  predicate Punctuation(ch: char) {
    ch == '-' || ch == '_' || ch == '.' || ch == '@' || ch == '+'
  }

  predicate BoundedIdentifier(s: string) {
    && 0 < |s| <= MAX_IDENTIFIER
    && AlphaNumeric(s[0])
    && forall i :: 0 <= i < |s| ==> AlphaNumeric(s[i]) || Punctuation(s[i])
  }

  method ValidateAuthorityIdentifier(value: string) returns (ok: bool)
    ensures ok <==> BoundedIdentifier(value)
  {
    if value == "" {
      return false;
    }
    if |value| > MAX_IDENTIFIER {
      return false;
    }
    for i := 0 to |value|
      invariant forall j :: 0 <= j < i ==> AlphaNumeric(value[j]) || (j > 0 && Punctuation(value[j]))
    {
      var ch := value[i];
      if AlphaNumeric(ch) {
        continue;
      }
      if i > 0 && Punctuation(ch) {
        continue;
      }
      return false;
    }
    return true;
  }

  /** strings.Cut around the first occurrence of a one-byte separator. */
  function Cut(s: string, sep: char): (r: (string, string, bool))
    ensures r.2 ==> s == r.0 + [sep] + r.1 && sep !in r.0
    ensures !r.2 ==> sep !in s
  {
    var i := FirstIndex(s, sep);
    if i < |s| then (s[..i], s[i + 1..], true) else (s, "", false)
  }

  lemma CutIs(before: string, after: string, sep: char)
    requires sep !in before
    ensures Cut(before + [sep] + after, sep) == (before, after, true)
  {
    var s := before + [sep] + after;
    FirstIndexIs(before, after, sep);
    assert s[..|before|] == before && s[|before| + 1..] == after;
  }

  /** The decomposition of a reference, when it has one. */
  ghost predicate Denotes(ref: string, p: PolicyRef) {
    p.WellFormed() && p.Print() == ref
  }

  function Authority(p: PolicyRef): string {
    match p
    case Global => "global"
    case Client(_) => "client"
    case Customer(_) => "customer"
    case Provider(_, _) => "provider"
  }

  function Subject(p: PolicyRef): string {
    match p
    case Global => ""
    case Client(id) => id
    case Customer(id) => id
    case Provider(plugin, provider) => plugin + ['/'] + provider
  }

  lemma PrintedAuthority(p: PolicyRef)
    ensures p.Global? ==> ':' !in p.Print()
    ensures !p.Global? ==> Cut(p.Print(), ':') == (Authority(p), Subject(p), true)
  {
    if !p.Global? {
      assert p.Print() == Authority(p) + [':'] + Subject(p);
      CutIs(Authority(p), Subject(p), ':');
    }
  }

  lemma IdentifierIsPlain(id: string)
    requires BoundedIdentifier(id)
    ensures ':' !in id && '/' !in id
  {
  }

  lemma PrintedProvider(p: PolicyRef)
    requires p.Provider? && p.WellFormed()
    ensures Cut(Subject(p), '/') == (p.pluginID, p.providerID, true) && '/' !in p.providerID
  {
    IdentifierIsPlain(p.pluginID);
    IdentifierIsPlain(p.providerID);
    CutIs(p.pluginID, p.providerID, '/');
  }

  lemma DenotesByAuthority(ref: string, authority: string, subject: string)
    requires Cut(ref, ':') == (authority, subject, true)
    ensures (exists p :: Denotes(ref, p))
       <==> || ((authority == "client" || authority == "customer") && BoundedIdentifier(subject))
            || (authority == "provider" && IsProviderSubject(subject))
  {
    hide BoundedIdentifier, Cut;
    if p :| Denotes(ref, p) {
      hide Denotes;
      AuthorityOfDenoted(ref, authority, subject, p);
    } else if authority == "client" && BoundedIdentifier(subject) {
      assert Denotes(ref, Client(subject));
    } else if authority == "customer" && BoundedIdentifier(subject) {
      assert Denotes(ref, Customer(subject));
    } else if authority == "provider" && IsProviderSubject(subject) {
      var halves := Cut(subject, '/');
      ProviderDenoted(ref, subject, halves.0, halves.1);
    }
  }

  lemma AuthorityOfDenoted(ref: string, authority: string, subject: string, p: PolicyRef)
    requires Cut(ref, ':') == (authority, subject, true) && Denotes(ref, p)
    ensures || ((authority == "client" || authority == "customer") && BoundedIdentifier(subject))
            || (authority == "provider" && IsProviderSubject(subject))
  {
    PrintedAuthority(p);
    if p.Provider? { PrintedProvider(p); }
  }

  lemma ProviderDenoted(ref: string, subject: string, pluginID: string, providerID: string)
    requires ref == "provider" + [':'] + subject && subject == pluginID + ['/'] + providerID
    requires BoundedIdentifier(pluginID) && BoundedIdentifier(providerID)
    ensures Denotes(ref, Provider(pluginID, providerID))
  {
  }

  predicate IsProviderSubject(subject: string) {
    var halves := Cut(subject, '/');
    halves.2 && BoundedIdentifier(halves.0) && BoundedIdentifier(halves.1)
  }

  method ValidatePolicyRef(ref: string) returns (ok: bool)
    ensures ok <==> |ref| <= 512 && exists p :: Denotes(ref, p)
  {
    if |ref| > MAX_REF {
      return false;
    }
    if ref == "global" {
      assert Denotes(ref, Global);
      return true;
    }
    var (authority, subject, found) := Cut(ref, ':');
    if !found {
      forall p ensures !Denotes(ref, p) { PrintedAuthority(p); }
      return false;
    }
    DenotesByAuthority(ref, authority, subject);
    hide Denotes, BoundedIdentifier, Cut;
    if authority == "client" || authority == "customer" {
      ok := ValidateAuthorityIdentifier(subject);
    } else if authority == "provider" {
      ok := ValidateProviderSubject(subject);
    } else {
      ok := false;
    }
  }

  method ValidateProviderSubject(subject: string) returns (ok: bool)
    ensures ok <==> IsProviderSubject(subject)
  {
    var (pluginID, providerID, found) := Cut(subject, '/');
    if !found || '/' in providerID {
      if BoundedIdentifier(providerID) { IdentifierIsPlain(providerID); }
      return false;
    }
    var pluginOK := ValidateAuthorityIdentifier(pluginID);
    if !pluginOK {
      return false;
    }
    ok := ValidateAuthorityIdentifier(providerID);
  }

  /** The grammar is unambiguous: a reference has at most one decomposition. */
  lemma DecompositionUnique(p: PolicyRef, q: PolicyRef)
    requires p.WellFormed() && q.WellFormed() && p.Print() == q.Print()
    ensures p == q
  {
    PrintedAuthority(p);
    PrintedAuthority(q);
    if !p.Global? {
      assert Authority(p) == Authority(q) && Subject(p) == Subject(q);
      if p.Provider? {
        PrintedProvider(p);
        PrintedProvider(q);
      }
    }
  }

  /** The byte cap can only refuse provider references whose two identifiers total more than
    * 502 bytes; every other well-formed reference is at most 265 bytes long. */
  lemma CapExcludesLongProvidersOnly(p: PolicyRef)
    requires p.WellFormed()
    ensures |p.Print()| > MAX_REF <==> p.Provider? && |p.pluginID| + |p.providerID| > 502
    ensures !p.Provider? ==> |p.Print()| <= 265
  {
  }

  /** Both limits are met: a 265-byte customer reference, and a refused provider reference. */
  lemma CapIsReached()
    ensures exists p: PolicyRef :: p.WellFormed() && p.Customer? && |p.Print()| == 265
    ensures exists p: PolicyRef :: p.WellFormed() && p.Provider? && |p.Print()| > MAX_REF
  {
    var long := seq(MAX_IDENTIFIER, i => 'a');
    assert BoundedIdentifier(long);
    var c, p := Customer(long), Provider(long, long);
    assert c.WellFormed() && |c.Print()| == 265;
    assert p.WellFormed() && |p.Print()| > MAX_REF;
  }

  // ---------- The accepted references as text ----------

  lemma IdentifierOnBytes(s: string)
    ensures BoundedIdentifier(s)
       <==> && 1 <= |s| <= 256 && ('a' <= s[0] <= 'z' || 'A' <= s[0] <= 'Z' || '0' <= s[0] <= '9')
            && forall ch :: ch in s ==> 'a' <= ch <= 'z' || 'A' <= ch <= 'Z' || '0' <= ch <= '9' || ch in "-_.@+"
  {
    forall ch ensures Punctuation(ch) <==> ch in "-_.@+" {}
    hide Punctuation;
  }

  /** A reference denotes a policy exactly when it is "global", or one of the three scheme words
    * and a colon followed by an identifier, or by two with a slash between them. */
  lemma ReferenceText(ref: string)
    ensures (exists p :: Denotes(ref, p))
       <==> || ref == "global"
            || (exists id :: BoundedIdentifier(id) && ref == "client:" + id)
            || (exists id :: BoundedIdentifier(id) && ref == "customer:" + id)
            || (exists plugin, provider :: BoundedIdentifier(plugin) && BoundedIdentifier(provider)
                                           && ref == "provider:" + plugin + "/" + provider)
  {
    hide BoundedIdentifier;
    if ref == "global" { assert Denotes(ref, Global); }
    if id :| BoundedIdentifier(id) && ref == "client:" + id { assert Denotes(ref, Client(id)); }
    if id :| BoundedIdentifier(id) && ref == "customer:" + id { assert Denotes(ref, Customer(id)); }
    if plugin, provider :| BoundedIdentifier(plugin) && BoundedIdentifier(provider) && ref == "provider:" + plugin + "/" + provider {
      assert Denotes(ref, Provider(plugin, provider));
    }
  }
}
