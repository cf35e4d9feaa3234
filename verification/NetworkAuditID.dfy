/** The byte stream that a network audit id hashes: each component framed as its decimal
  * length, a colon, its bytes and a NUL. */
module NetworkAuditID {
  import opened GoStrings
  import opened Results

  const NUL := '\0'
  const ID_PREFIX := "network-audit-sha256-"

  function Decimal(n: nat): (s: string)
    ensures |s| > 0 && forall i :: 0 <= i < |s| ==> IsDigit(s[i])
  {
    if n < 10 then ['0' + n as char] else Decimal(n / 10) + ['0' + (n % 10) as char]
  }

  predicate IsDigit(c: char) {
    '0' <= c <= '9'
  }

  function DigitValue(c: char): nat
    requires IsDigit(c)
  {
    c as int - '0' as int
  }

  function ParseDecimal(s: string): nat
    requires forall i :: 0 <= i < |s| ==> IsDigit(s[i])
  {
    if s == "" then 0 else ParseDecimal(s[..|s| - 1]) * 10 + DigitValue(s[|s| - 1])
  }

  lemma {:induction false} DecimalRoundTrip(n: nat)
    ensures ParseDecimal(Decimal(n)) == n
  {
    if n < 10 {
      assert Decimal(n)[..0] == "";
    } else {
      DecimalRoundTrip(n / 10);
      assert Decimal(n)[..|Decimal(n)| - 1] == Decimal(n / 10);
    }
  }

  function Frame(component: string): string {
    Decimal(|component|) + ":" + component + [NUL]
  }

  function Frames(components: seq<string>): string {
    if components == [] then "" else Frame(components[0]) + Frames(components[1..])
  }

  /** Reads one frame: the component and what follows it. */
  function Unframe(s: string): (r: Option<(string, string)>)
    ensures r.Some? ==> |r.value.1| < |s|
  {
    var i := FirstIndex(s, ':');
    if i == |s| || exists j :: 0 <= j < i && !IsDigit(s[j]) then None
    else
      TakeBody(ParseDecimal(s[..i]), s[i + 1..])
  }

  /** The `n` bytes of a component, its NUL terminator, and the rest. */
  function TakeBody(n: nat, s: string): (r: Option<(string, string)>)
    ensures r.Some? ==> |r.value.1| < |s|
  {
    if n < |s| && s[n] == NUL then Some((s[..n], s[n + 1..])) else None
  }

  function UnframeAll(s: string): Option<seq<string>>
    decreases |s|
  {
    if s == "" then Some([])
    else
      match Unframe(s)
      case None => None
      case Some((component, rest)) =>
        match UnframeAll(rest)
        case None => None
        case Some(components) => Some([component] + components)
  }

  lemma TakeBodyExact(component: string, rest: string)
    ensures TakeBody(|component|, component + ([NUL] + rest)) == Some((component, rest))
  {
    var s := component + ([NUL] + rest);
    assert s[..|component|] == component && s[|component| + 1..] == rest;
  }

  lemma UnframeParts(d: string, component: string, rest: string)
    requires (forall i :: 0 <= i < |d| ==> IsDigit(d[i])) && ParseDecimal(d) == |component|
    ensures Unframe(d + [':'] + (component + ([NUL] + rest))) == Some((component, rest))
  {
    hide TakeBody, ParseDecimal, FirstIndex;
    var tail := component + ([NUL] + rest);
    var s := d + [':'] + tail;
    FirstIndexIs(d, tail, ':');
    TakeBodyExact(component, rest);
    assert s[..|d|] == d && s[|d| + 1..] == tail;
  }

  /** Whatever follows a frame, reading it back returns the component and the rest: no
    * component, however it is spelled, can shift a frame boundary. */
  lemma UnframeFrame(component: string, rest: string)
    ensures Unframe(Frame(component) + rest) == Some((component, rest))
  {
    hide Unframe, Decimal, ParseDecimal;
    var d := Decimal(|component|);
    DecimalRoundTrip(|component|);
    UnframeParts(d, component, rest);
    assert Frame(component) + rest == d + [':'] + (component + ([NUL] + rest));
  }

  /** The decoder recovers every list of components from its stream. */
  lemma {:induction false} FramesDecode(components: seq<string>)
    ensures UnframeAll(Frames(components)) == Some(components)
  {
    if components != [] {
      hide Unframe, Frame;
      UnframeFrame(components[0], Frames(components[1..]));
      FramesDecode(components[1..]);
      assert Frames(components) != "" && [components[0]] + components[1..] == components;
    }
  }

  /** Equal preimages mean equal component lists. */
  lemma FramesInjective(a: seq<string>, b: seq<string>)
    requires Frames(a) == Frames(b)
    ensures a == b
  {
    FramesDecode(a);
    FramesDecode(b);
  }

  predicate ValidComponent(c: string) {
    TrimSpace(c) != "" && !ContainsAny(c, "\0\r\n\t")
  }

  /** The id, or None for the source's error. `digest` is the hex SHA-256 of the stream. */
  method ProjectNetworkAuditID(components: seq<string>, digest: string -> string) returns (id: Option<string>)
    ensures id == if components != [] && forall c :: c in components ==> ValidComponent(c)
                  then Some("network-audit-sha256-" + digest(Frames(components))) else None
  {
    hide ValidComponent;
    if |components| == 0 {
      return None;
    }
    var hashed := "";
    for i := 0 to |components|
      invariant forall j :: 0 <= j < i ==> ValidComponent(components[j])
      invariant hashed + Frames(components[i..]) == Frames(components)
    {
      var component := components[i];
      if !ValidComponent(component) {
        return None;
      }
      assert components[i..][1..] == components[i + 1..];
      hashed := hashed + Decimal(|component|) + ":";
      hashed := hashed + component;
      hashed := hashed + [NUL];
    }
    assert hashed == Frames(components);
    return Some(ID_PREFIX + digest(hashed));
  }

  /** Where the digest has no collision between the two streams, equal ids mean equal lists. */
  lemma IDsDistinguishLists(a: seq<string>, b: seq<string>, digest: string -> string)
    requires digest(Frames(a)) == digest(Frames(b)) ==> Frames(a) == Frames(b)
    ensures "network-audit-sha256-" + digest(Frames(a)) == "network-audit-sha256-" + digest(Frames(b)) <==> a == b
  {
    var x, y := ID_PREFIX + digest(Frames(a)), ID_PREFIX + digest(Frames(b));
    if x == y {
      assert x[|ID_PREFIX|..] == digest(Frames(a)) && y[|ID_PREFIX|..] == digest(Frames(b));
      FramesInjective(a, b);
    }
  }

  // ---------- The stream byte by byte ----------

  /** A component is refused exactly when only white space would be left of it, or when it holds
    * a NUL, a line break or a tab. */
  lemma ComponentOnBytes(c: string)
    ensures ValidComponent(c) <==> TrimSpace(c) != "" && forall b :: b in c ==> b != '\0' && b != '\r' && b != '\n' && b != '\t'
  {
    hide TrimSpace;
    assert forall b :: b in "\0\r\n\t" <==> b == '\0' || b == '\r' || b == '\n' || b == '\t';
    assert ContainsAny(c, "\0\r\n\t") <==> exists b :: b in c && b in "\0\r\n\t";
  }

  /** White space alone is refused, however much of it. */
  lemma BlankIsRefused(c: string)
    requires AllSpace(c)
    ensures !ValidComponent(c)
  {
    PaddingIgnored(c, "", "");
    assert c + "" + "" == c;
  }

  /** Lengths are written in decimal, most significant digit first and without leading zeros. */
  lemma {:induction false} DecimalDigits(n: nat)
    ensures n > 0 ==> Decimal(n)[0] != '0'
    ensures n < 10 ==> Decimal(n) == ["0123456789"[n]]
    ensures n >= 10 ==> Decimal(n) == Decimal(n / 10) + ["0123456789"[n % 10]]
  {
    if n >= 10 { DecimalDigits(n / 10); }
  }

  /** What each further component contributes to the stream. */
  lemma {:induction false} FrameText(components: seq<string>, last: string)
    ensures Frames(components + [last]) == Frames(components) + Decimal(|last|) + ":" + last + "\0"
  {
    hide Decimal;
    if components == [] {
      assert Frames([last]) == Frame(last) + "";
    } else {
      FrameText(components[1..], last);
      assert (components + [last])[1..] == components[1..] + [last];
    }
  }
}
