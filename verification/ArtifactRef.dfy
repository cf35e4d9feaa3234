/** Artifact references and the download paths built from them. */
module ArtifactRef {
  import opened GoStrings
  import opened Results

  const SCHEME := "artifact://"

  datatype Ref = Ref(poolID: string, taskID: string, proofID: string, name: string)

  predicate SafeSegment(s: string) {
    s != "" && s != "." && s != ".." && !ContainsAny(s, "\\\0\r\n\t ?#")
  }

  predicate SafePart(s: string) {
    SafeSegment(s) && '/' !in s
  }

  /** What a reference may denote: safe single segments, and a name of safe segments. */
  predicate ValidRef(r: Ref) {
    && SafePart(r.poolID) && SafePart(r.taskID) && SafePart(r.proofID)
    && forall s :: s in Split(r.name, '/') ==> SafeSegment(s)
  }

  function Body(r: Ref): string {
    r.poolID + "/" + "tasks" + "/" + r.taskID + "/" + "proofs" + "/" + r.proofID + "/" + r.name
  }

  function Print(r: Ref): string {
    SCHEME + Body(r)
  }

  function BodyParts(r: Ref): seq<string> {
    [r.poolID, "tasks", r.taskID, "proofs", r.proofID] + Split(r.name, '/')
  }

  lemma JoinHead(head: string, tail: seq<string>)
    requires tail != []
    ensures Join([head] + tail, '/') == head + "/" + Join(tail, '/')
  {
  }

  lemma BodyIsJoin(r: Ref)
    ensures Join(BodyParts(r), '/') == Body(r)
  {
    var names := Split(r.name, '/');
    JoinHead(r.proofID, names);
    JoinHead("proofs", [r.proofID] + names);
    JoinHead(r.taskID, ["proofs"] + ([r.proofID] + names));
    JoinHead("tasks", [r.taskID] + (["proofs"] + ([r.proofID] + names)));
    JoinHead(r.poolID, ["tasks"] + ([r.taskID] + (["proofs"] + ([r.proofID] + names))));
    assert BodyParts(r) == [r.poolID] + (["tasks"] + ([r.taskID] + (["proofs"] + ([r.proofID] + names))));
  }

  lemma BodySplits(r: Ref)
    requires '/' !in r.poolID && '/' !in r.taskID && '/' !in r.proofID
    ensures Split(Body(r), '/') == BodyParts(r)
  {
    BodyIsJoin(r);
    SplitJoin(BodyParts(r), '/');
  }

  /** A reference splits into its parts exactly when it is printed from them. */
  lemma PartsDecide(body: string, parts: seq<string>, r: Ref)
    requires parts == Split(body, '/') && |parts| >= 6 && parts[1] == "tasks" && parts[3] == "proofs"
    requires r == Ref(parts[0], parts[2], parts[4], Join(parts[5..], '/'))
    ensures Body(r) == body && Split(r.name, '/') == parts[5..]
    ensures forall q :: ValidRef(q) && Body(q) == body ==> q == r
  {
    hide SafeSegment, Body, Split, Join;
    SplitJoin(parts[5..], '/');
    assert BodyParts(r) == parts;
    BodyIsJoin(r);
    forall q | ValidRef(q) && Body(q) == body ensures q == r {
      BodySplits(q);
      assert BodyParts(q)[5..] == Split(q.name, '/');
    }
  }

  method SegmentsSafe(segments: seq<string>) returns (safe: bool)
    ensures safe <==> forall s :: s in segments ==> SafeSegment(s)
  {
    for i := 0 to |segments|
      invariant forall j :: 0 <= j < i ==> SafeSegment(segments[j])
    {
      if !SafeSegment(segments[i]) {
        return false;
      }
    }
    return true;
  }

  method TaskArtifactRefParts(ref: string) returns (parsed: Option<Ref>)
    ensures parsed.Some? ==> ValidRef(parsed.value) && Print(parsed.value) == ref
    ensures parsed.None? ==> forall r :: ValidRef(r) ==> Print(r) != ref
  {
    hide SafeSegment, Body, BodyParts, Split, Join;
    if !HasPrefix(ref, SCHEME) {
      return None;
    }
    var body := ref[|SCHEME|..];
    assert forall r :: Print(r) == ref ==> Body(r) == body;
    var parts := Split(body, '/');
    if |parts| < 6 || parts[1] != "tasks" || parts[3] != "proofs" {
      forall r | ValidRef(r) ensures Body(r) != body { PartsOfBody(r, body, parts); }
      return None;
    }
    var r := Ref(parts[0], parts[2], parts[4], Join(parts[5..], '/'));
    PartsDecide(body, parts, r);
    var dataSegments := [parts[0], parts[2], parts[4]] + parts[5..];
    var safe := SegmentsSafe(dataSegments);
    assert safe <==> ValidRef(r) by {
      assert forall s :: s in dataSegments <==> s == parts[0] || s == parts[2] || s == parts[4] || s in parts[5..];
    }
    return if safe then Some(r) else None;
  }

  lemma PartsOfBody(r: Ref, body: string, parts: seq<string>)
    requires ValidRef(r) && parts == Split(body, '/')
    ensures Body(r) == body ==> |parts| >= 6 && parts[1] == "tasks" && parts[3] == "proofs"
  {
    hide SafeSegment, Body, Split, Join;
    if Body(r) == body { BodySplits(r); }
  }

  /** No reference denotes two different things. */
  lemma RefUnique(p: Ref, q: Ref)
    requires ValidRef(p) && ValidRef(q) && Print(p) == Print(q)
    ensures p == q
  {
    assert Print(p)[|SCHEME|..] == Body(p) && Print(q)[|SCHEME|..] == Body(q);
    PartsOfBody(p, Body(p), Split(Body(p), '/'));
    var parts := Split(Body(p), '/');
    PartsDecide(Body(p), parts, Ref(parts[0], parts[2], parts[4], Join(parts[5..], '/')));
  }

  // ---------- Percent-encoding of path segments ----------

  ghost predicate IsBytes(s: string) {
    forall i :: 0 <= i < |s| ==> s[i] as int < 256
  }

  /** url.PathEscape leaves unreserved characters and `$ & + = : @` as they are. */
  predicate Literal(c: char) {
    || 'a' <= c <= 'z' || 'A' <= c <= 'Z' || '0' <= c <= '9'
    || c == '-' || c == '_' || c == '.' || c == '~'
    || c == '$' || c == '&' || c == '+' || c == '=' || c == ':' || c == '@'
  }

  function HexDigit(n: int): (c: char)
    requires 0 <= n < 16
    ensures HexValue(c) == n && c != '/'
  {
    if n < 10 then '0' + n as char else 'A' + (n - 10) as char
  }

  /** The value of a hexadecimal digit of either case, -1 for any other character. */
  function HexValue(c: char): (n: int)
    ensures -1 <= n < 16
  {
    if '0' <= c <= '9' then c as int - '0' as int
    else if 'A' <= c <= 'F' then c as int - 'A' as int + 10
    else if 'a' <= c <= 'f' then c as int - 'a' as int + 10
    else -1
  }

  function EscapeByte(c: char): string {
    if Literal(c) then [c] else ['%', HexDigit(c as int / 16 % 16), HexDigit(c as int % 16)]
  }

  function PathEscape(s: string): string {
    if s == "" then "" else EscapeByte(s[0]) + PathEscape(s[1..])
  }

  /** Percent-decoding, section 2.1 of RFC 3986. */
  function Unescape(s: string): Option<string> {
    if s == "" then Some("")
    else if s[0] != '%' then
      match Unescape(s[1..])
      case None => None
      case Some(rest) => Some([s[0]] + rest)
    else if |s| < 3 || HexValue(s[1]) < 0 || HexValue(s[2]) < 0 then None
    else
      match Unescape(s[3..])
      case None => None
      case Some(rest) => Some([(16 * HexValue(s[1]) + HexValue(s[2])) as char] + rest)
  }

  lemma {:induction false} UnescapeEscape(s: string)
    requires IsBytes(s)
    ensures Unescape(PathEscape(s)) == Some(s)
  {
    if s != "" {
      var c := s[0];
      UnescapeEscape(s[1..]);
      UnescapeByte(c, PathEscape(s[1..]));
      assert [c] + s[1..] == s;
    }
  }

  lemma UnescapeByte(c: char, rest: string)
    requires c as int < 256 && Unescape(rest).Some?
    ensures Unescape(EscapeByte(c) + rest) == Some([c] + Unescape(rest).value)
  {
    hide HexDigit, HexValue, Literal;
    if Literal(c) {
      LiteralIsNotPercent(c);
      assert ([c] + rest)[1..] == rest;
    } else {
      var hi, lo := HexDigit(c as int / 16 % 16), HexDigit(c as int % 16);
      var t := ['%', hi, lo] + rest;
      assert t[3..] == rest;
      assert 16 * HexValue(hi) + HexValue(lo) == c as int;
    }
  }

  lemma LiteralIsNotPercent(c: char)
    requires Literal(c)
    ensures c != '%'
  {
  }

  lemma {:induction false} EscapeHidesSlash(s: string)
    ensures '/' !in PathEscape(s)
  {
    if s != "" { EscapeHidesSlash(s[1..]); }
  }

  function EscapeAll(segments: seq<string>): (escaped: seq<string>)
    ensures |escaped| == |segments| && forall i :: 0 <= i < |segments| ==> escaped[i] == PathEscape(segments[i])
  {
    seq(|segments|, i requires 0 <= i < |segments| => PathEscape(segments[i]))
  }

  method EscapedPath(segments: seq<string>) returns (path: string)
    ensures path == "/" + Join(EscapeAll(segments), '/')
  {
    var escaped := new string[|segments|];
    for i := 0 to |segments|
      invariant forall j :: 0 <= j < i ==> escaped[j] == PathEscape(segments[j])
    {
      escaped[i] := PathEscape(segments[i]);
    }
    assert escaped[..] == EscapeAll(segments);
    return "/" + Join(escaped[..], '/');
  }

  function UnescapeAll(parts: seq<string>): Option<seq<string>> {
    if parts == [] then Some([])
    else
      match (Unescape(parts[0]), UnescapeAll(parts[1..]))
      case (Some(first), Some(rest)) => Some([first] + rest)
      case _ => None
  }

  function DecodePath(path: string): Option<seq<string>> {
    if path == "" || path[0] != '/' then None else UnescapeAll(Split(path[1..], '/'))
  }

  lemma {:induction false} UnescapeAllEscapeAll(segments: seq<string>)
    requires forall s :: s in segments ==> IsBytes(s)
    ensures UnescapeAll(EscapeAll(segments)) == Some(segments)
  {
    if segments != [] {
      hide Unescape, PathEscape;
      UnescapeEscape(segments[0]);
      UnescapeAllEscapeAll(segments[1..]);
      assert EscapeAll(segments)[1..] == EscapeAll(segments[1..]);
      assert [segments[0]] + segments[1..] == segments;
    }
  }

  /** Every path splits and decodes back to the segments it was built from, whatever bytes
    * (slashes and percent signs included) they hold. */
  lemma PathDecodes(segments: seq<string>)
    requires segments != [] && forall s :: s in segments ==> IsBytes(s)
    ensures DecodePath("/" + Join(EscapeAll(segments), '/')) == Some(segments)
  {
    var escaped := EscapeAll(segments);
    forall e | e in escaped ensures '/' !in e {
      var i :| 0 <= i < |escaped| && escaped[i] == e;
      EscapeHidesSlash(segments[i]);
    }
    SplitJoin(escaped, '/');
    var path := "/" + Join(escaped, '/');
    assert path[1..] == Join(escaped, '/');
    UnescapeAllEscapeAll(segments);
  }

  // ---------- The download path ----------

  function DownloadSegments(r: Ref): seq<string> {
    ["v1", "tasks", r.taskID, "proofs", r.proofID, "artifacts"] + Split(r.name, '/')
  }

  function DownloadPath(r: Ref): string {
    "/" + Join(EscapeAll(DownloadSegments(r)), '/')
  }

  /** The request path of a download, or None when the reference is refused. */
  method DownloadTaskArtifactPath(ref: string) returns (path: Option<string>)
    ensures path.None? ==> forall r :: ValidRef(r) ==> Print(r) != ref
    ensures path.Some? ==> exists r :: ValidRef(r) && Print(r) == ref && path.value == DownloadPath(r)
  {
    var parsed := TaskArtifactRefParts(ref);
    if parsed.None? {
      return None;
    }
    var r := parsed.value;
    var segments := ["v1", "tasks", r.taskID, "proofs", r.proofID, "artifacts"];
    segments := segments + Split(r.name, '/');
    var built := EscapedPath(segments);
    return Some(built);
  }

  lemma SplitKeepsBytes(s: string)
    requires IsBytes(s)
    ensures forall p :: p in Split(s, '/') ==> IsBytes(p)
    decreases |s|
  {
  }

  lemma SegmentsAreBytes(r: Ref)
    requires IsBytes(r.taskID) && IsBytes(r.proofID) && IsBytes(r.name)
    ensures forall s :: s in DownloadSegments(r) ==> IsBytes(s)
  {
    SplitKeepsBytes(r.name);
  }

  /** Task, proof and name can be read back from the path: different artifacts of any two
    * references never share a download path. */
  lemma DownloadPathIdentifies(p: Ref, q: Ref)
    requires IsBytes(p.taskID) && IsBytes(p.proofID) && IsBytes(p.name)
    requires IsBytes(q.taskID) && IsBytes(q.proofID) && IsBytes(q.name)
    ensures DownloadPath(p) == DownloadPath(q) <==> p.taskID == q.taskID && p.proofID == q.proofID && p.name == q.name
  {
    if DownloadPath(p) == DownloadPath(q) {
      hide Split, Join, EscapeAll, DecodePath;
      var a, b := DownloadSegments(p), DownloadSegments(q);
      SegmentsAreBytes(p);
      SegmentsAreBytes(q);
      PathDecodes(a);
      PathDecodes(b);
      assert a[2] == b[2] && a[4] == b[4] && a[6..] == b[6..];
    }
  }
}
