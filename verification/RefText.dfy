/** What the text of an artifact reference, and of the path built from it, looks like. */
module RefText {
  import opened GoStrings
  import opened ArtifactRef

  ghost predicate UnsafeByte(c: char) {
    c == '\\' || c == '\0' || c == '\r' || c == '\n' || c == '\t' || c == ' ' || c == '?' || c == '#'
  }

  /** Split at slashes, text below the scheme has the fixed words in their places, at least one
    * name, no empty or relative segment and no unsafe byte. */
  ghost predicate CleanBody(body: string) {
    var parts := Split(body, '/');
    && |parts| >= 6 && parts[1] == "tasks" && parts[3] == "proofs"
    && (forall s :: s in parts ==> s != "" && s != "." && s != "..")
    && (forall c :: c in body ==> !UnsafeByte(c))
  }

  lemma SafeOnBytes(s: string)
    ensures SafeSegment(s) <==> s != "" && s != "." && s != ".." && forall c :: c in s ==> !UnsafeByte(c)
  {
    assert forall c :: c in "\\\0\r\n\t ?#" <==> UnsafeByte(c);
    hide UnsafeByte;
    assert ContainsAny(s, "\\\0\r\n\t ?#") <==> exists c :: c in s && c in "\\\0\r\n\t ?#";
  }

  lemma {:induction false} JoinedBytes(parts: seq<string>, sep: char, c: char)
    requires c != sep
    ensures c in Join(parts, sep) <==> exists s :: s in parts && c in s
  {
    if |parts| > 1 {
      JoinedBytes(parts[1..], sep, c);
      assert forall s :: s in parts <==> s == parts[0] || s in parts[1..];
    }
  }

  lemma CleanMeansSafe(body: string)
    requires var parts := Split(body, '/'); |parts| >= 6 && parts[1] == "tasks" && parts[3] == "proofs"
    ensures CleanBody(body) <==> forall s :: s in Split(body, '/') ==> SafeSegment(s)
  {
    hide SafeSegment, Split, Join, UnsafeByte;
    var parts := Split(body, '/');
    forall s ensures SafeSegment(s) <==> s != "" && s != "." && s != ".." && forall c :: c in s ==> !UnsafeByte(c) {
      SafeOnBytes(s);
    }
    forall c | c != '/' ensures c in body <==> exists s :: s in parts && c in s {
      JoinedBytes(parts, '/', c);
    }
    SlashIsSafe();
  }

  lemma SlashIsSafe()
    ensures !UnsafeByte('/') && SafeSegment("tasks") && SafeSegment("proofs")
  {
  }

  /** Exactly which texts are accepted. In particular no accepted reference climbs: neither ".."
    * nor "." nor an empty segment occurs anywhere in it. */
  lemma AcceptedText(ref: string)
    ensures (exists r :: ValidRef(r) && Print(r) == ref) <==> "artifact://" <= ref && CleanBody(ref[11..])
  {
    hide SafeSegment, Split, Join, CleanBody, Body;
    SlashIsSafe();
    if r :| ValidRef(r) && Print(r) == ref {
      var parts := Split(Body(r), '/');
      assert ref[11..] == Body(r);
      PartsOfBody(r, Body(r), parts);
      BodySplits(r);
      CleanMeansSafe(Body(r));
    }
    if "artifact://" <= ref && CleanBody(ref[11..]) {
      var body := ref[11..];
      var parts := Split(body, '/');
      CleanShape(body);
      CleanMeansSafe(body);
      var r := Ref(parts[0], parts[2], parts[4], Join(parts[5..], '/'));
      PartsDecide(body, parts, r);
      assert ValidRef(r) && Print(r) == ref;
    }
  }

  lemma CleanShape(body: string)
    requires CleanBody(body)
    ensures var parts := Split(body, '/'); |parts| >= 6 && parts[1] == "tasks" && parts[3] == "proofs"
  {
  }

  // ---------- Escaped bytes ----------

  /** The bytes left alone are the letters, digits and "-_.~$&+=:@"; any other byte becomes a
    * percent sign and two upper-case hexadecimal digits. */
  lemma EscapedOnBytes(c: char)
    requires c as int < 256
    ensures EscapeByte(c) == if 'a' <= c <= 'z' || 'A' <= c <= 'Z' || '0' <= c <= '9' || c in "-_.~$&+=:@" then [c]
                             else ['%', "0123456789ABCDEF"[c as int / 16], "0123456789ABCDEF"[c as int % 16]]
  {
    HexDigitIs(c as int / 16);
    HexDigitIs(c as int % 16);
  }

  lemma HexDigitIs(n: nat)
    requires n < 16
    ensures HexDigit(n) == "0123456789ABCDEF"[n]
  {
  }

  /** The download path of a reference, spelled out. */
  lemma PathText(r: Ref)
    ensures DownloadPath(r)
         == "/v1/tasks/" + PathEscape(r.taskID) + "/proofs/" + PathEscape(r.proofID) + "/artifacts/" + Join(EscapeAll(Split(r.name, '/')), '/')
  {
    hide PathEscape, Join, Split;
    var names := EscapeAll(Split(r.name, '/'));
    var t, p := PathEscape(r.taskID), PathEscape(r.proofID);
    FixedWordsEscape();
    assert EscapeAll(DownloadSegments(r)) == ["v1", "tasks", t, "proofs", p, "artifacts"] + names;
    JoinSix(t, p, names);
  }

  lemma JoinSix(t: string, p: string, names: seq<string>)
    requires names != []
    ensures "/" + Join(["v1", "tasks", t, "proofs", p, "artifacts"] + names, '/')
         == "/v1/tasks/" + t + "/proofs/" + p + "/artifacts/" + Join(names, '/')
  {
    hide Join;
    var tail := ["artifacts"] + names;
    JoinHead("artifacts", names);
    JoinHead(p, tail);
    JoinHead("proofs", [p] + tail);
    var rest := ["proofs"] + ([p] + tail);
    assert Join(rest, '/') == "proofs/" + p + "/artifacts/" + Join(names, '/');
    JoinHead(t, rest);
    JoinHead("tasks", [t] + rest);
    JoinHead("v1", ["tasks"] + ([t] + rest));
    assert ["v1", "tasks", t, "proofs", p, "artifacts"] + names == ["v1"] + (["tasks"] + ([t] + rest));
  }

  lemma {:induction false} LiteralsStay(s: string)
    requires forall c :: c in s ==> Literal(c)
    ensures PathEscape(s) == s
  {
    if s != "" {
      LiteralsStay(s[1..]);
      assert [s[0]] + s[1..] == s;
    }
  }

  lemma FixedWordsEscape()
    ensures PathEscape("v1") == "v1" && PathEscape("tasks") == "tasks"
    ensures PathEscape("proofs") == "proofs" && PathEscape("artifacts") == "artifacts"
  {
    hide PathEscape;
    LiteralsStay("v1");
    LiteralsStay("tasks");
    LiteralsStay("proofs");
    LiteralsStay("artifacts");
  }
}
