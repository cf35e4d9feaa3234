/** The parts of Go's `strings` package the model needs. A Go string is a sequence of
  * bytes, here a sequence of chars that each stand for one byte. */
module GoStrings {

  /** Width in bytes of the white-space rune that opens `s`, 0 if there is none. */
  function LeadingSpace(s: string): (n: nat)
    ensures n <= |s|
  {
    if |s| >= 1 && IsSpace1(s[0]) then 1
    else if |s| >= 2 && IsSpace2(s[0], s[1]) then 2
    else if |s| >= 3 && IsSpace3(s[0], s[1], s[2]) then 3
    else 0
  }

  /** Width in bytes of the white-space rune that closes `s`, 0 if there is none. */
  function TrailingSpace(s: string): (n: nat)
    ensures n <= |s|
  {
    var k := |s|;
    if k >= 1 && IsSpace1(s[k - 1]) then 1
    else if k >= 2 && IsSpace2(s[k - 2], s[k - 1]) then 2
    else if k >= 3 && IsSpace3(s[k - 3], s[k - 2], s[k - 1]) then 3
    else 0
  }

  // UTF-8 encodings of the Unicode White_Space runes, by width.
  predicate IsSpace1(a: char) {
    '\t' <= a <= '\r' || a == ' '
  }

  predicate IsSpace2(a: char, b: char) {
    a == '\U{C2}' && (b == '\U{85}' || b == '\U{A0}')
  }

  predicate IsSpace3(a: char, b: char, c: char) {
    || (a == '\U{E1}' && b == '\U{9A}' && c == '\U{80}')
    || (a == '\U{E2}' && b == '\U{80}'
        && ('\U{80}' <= c <= '\U{8A}' || c == '\U{A8}' || c == '\U{A9}' || c == '\U{AF}'))
    || (a == '\U{E2}' && b == '\U{81}' && c == '\U{9F}')
    || (a == '\U{E3}' && b == '\U{80}' && c == '\U{80}')
  }

  /** strings.TrimSpace: white space is removed from the front, then from the back. */
  function TrimSpace(s: string): (t: string)
    ensures t == s <==> LeadingSpace(s) == 0 && TrailingSpace(s) == 0
    ensures |t| <= |s|
    decreases |s|
  {
    var front, back := LeadingSpace(s), TrailingSpace(s);
    if front > 0 then TrimSpace(s[front..])
    else if back > 0 then TrimSpace(s[..|s| - back])
    else s
  }

  predicate ContainsAny(s: string, chars: string) {
    exists i :: 0 <= i < |s| && s[i] in chars
  }

  predicate HasPrefix(s: string, prefix: string) {
    prefix <= s
  }

  predicate Contains(s: string, sub: string) {
    exists i :: 0 <= i <= |s| && sub <= s[i..]
  }

  lemma ParentHasDot(s: string)
    requires Contains(s, "..")
    ensures '.' in s
  {
    var i :| 0 <= i <= |s| && ".." <= s[i..];
    assert s[i..][0] == '.';
  }

  /** First position of `c`, or the length when it does not occur. */
  function FirstIndex(s: string, c: char): (i: nat)
    ensures i <= |s| && c !in s[..i] && (i < |s| ==> s[i] == c)
    ensures i < |s| <==> c in s
  {
    if s == [] then 0
    else if s[0] == c then 0
    else
      var rest := FirstIndex(s[1..], c);
      assert s[..1 + rest] == [s[0]] + s[1..][..rest];
      1 + rest
  }

  lemma FirstIndexIs(s: string, t: string, c: char)
    requires c !in s
    ensures FirstIndex(s + [c] + t, c) == |s|
  {
    var u := s + [c] + t;
    var i := FirstIndex(u, c);
    assert u[|s|] == c && c !in u[..|s|];
  }

  /** strings.Split for a one-byte separator. */
  function Split(s: string, sep: char): (parts: seq<string>)
    ensures |parts| >= 1
    ensures forall p :: p in parts ==> sep !in p
    ensures Join(parts, sep) == s
    decreases |s|
  {
    var i := FirstIndex(s, sep);
    if i == |s| then [s]
    else
      assert s == s[..i] + [sep] + s[i + 1..];
      [s[..i]] + Split(s[i + 1..], sep)
  }

  function Join(parts: seq<string>, sep: char): string {
    if |parts| == 0 then ""
    else if |parts| == 1 then parts[0]
    else parts[0] + [sep] + Join(parts[1..], sep)
  }

  /** Splitting undoes joining, for parts free of the separator. */
  lemma {:induction false} SplitJoin(parts: seq<string>, sep: char)
    requires |parts| >= 1 && forall p :: p in parts ==> sep !in p
    ensures Split(Join(parts, sep), sep) == parts
  {
    var s := Join(parts, sep);
    if |parts| > 1 {
      var rest := Join(parts[1..], sep);
      FirstIndexIs(parts[0], rest, sep);
      assert s[..|parts[0]|] == parts[0] && s[|parts[0]| + 1..] == rest;
      SplitJoin(parts[1..], sep);
    }
  }

  // ---------- White space around text ----------

  /** The one-byte white-space characters. */
  const ASCII_SPACE := "\t\n\U{0B}\U{0C}\r "

  ghost predicate AllSpace(pad: string) {
    forall c :: c in pad ==> c in ASCII_SPACE
  }

  lemma SpaceBytes(c: char)
    ensures IsSpace1(c) <==> c in ASCII_SPACE
  {
  }

  // One step of trimming at either end.
  lemma TrimFront(s: string)
    requires LeadingSpace(s) > 0
    ensures TrimSpace(s) == TrimSpace(s[LeadingSpace(s)..])
  {
  }

  lemma TrimBack(s: string)
    requires LeadingSpace(s) == 0 && TrailingSpace(s) > 0
    ensures TrimSpace(s) == TrimSpace(s[..|s| - TrailingSpace(s)])
  {
  }

  lemma SpacesAround(s: string, c: char)
    requires c in ASCII_SPACE
    ensures LeadingSpace([c] + s) == TrailingSpace(s + [c]) == 1
    ensures LeadingSpace(s + [c]) == if s == "" then 1 else LeadingSpace(s)
  {
    SpaceBytes(c);
  }

  lemma {:induction false} PaddingByteIgnored(s: string, c: char)
    requires c in ASCII_SPACE
    ensures TrimSpace([c] + s) == TrimSpace(s + [c]) == TrimSpace(s)
    decreases |s|
  {
    hide TrimSpace, LeadingSpace, TrailingSpace;
    var t := s + [c];
    SpacesAround(s, c);
    assert ([c] + s)[1..] == s && t[..|s|] == s;
    TrimFront([c] + s);
    if s == "" {
      assert t == [c] + s;
    } else if LeadingSpace(s) == 0 {
      TrimBack(t);
    } else {
      var front := LeadingSpace(s);
      assert t[front..] == s[front..] + [c];
      TrimFront(t);
      TrimFront(s);
      PaddingByteIgnored(s[front..], c);
    }
  }

  lemma {:induction false} PaddingIgnored(left: string, s: string, right: string)
    requires AllSpace(left) && AllSpace(right)
    ensures TrimSpace(left + s + right) == TrimSpace(s)
    decreases |left| + |right|
  {
    hide TrimSpace;
    if left != "" {
      assert left + s + right == [left[0]] + (left[1..] + s + right);
      PaddingByteIgnored(left[1..] + s + right, left[0]);
      PaddingIgnored(left[1..], s, right);
    } else if right != "" {
      var n := |right| - 1;
      assert left + s + right == left + s + right[..n] + [right[n]];
      PaddingByteIgnored(left + s + right[..n], right[n]);
      PaddingIgnored(left, s, right[..n]);
    } else {
      assert left + s + right == s;
    }
  }

  lemma PlainEnds(text: string)
    requires text != "" && text[0] as int < 0x80 && text[|text| - 1] as int < 0x80
    ensures TrimSpace(text) == text <==> text[0] !in ASCII_SPACE && text[|text| - 1] !in ASCII_SPACE
  {
    hide TrimSpace;
    SpaceBytes(text[0]);
    SpaceBytes(text[|text| - 1]);
    TrimmedMeans(text);
  }

  lemma TrimmedMeans(s: string)
    ensures TrimSpace(s) == s <==> LeadingSpace(s) == 0 && TrailingSpace(s) == 0
  {
  }

  /** What is left of padded text that begins and ends with plain ASCII characters, or of
    * padding alone, is exactly the text. */
  lemma TrimSpaceOnASCII(left: string, text: string, right: string)
    requires AllSpace(left) && AllSpace(right)
    requires text != "" ==> text[0] as int < 0x80 && text[|text| - 1] as int < 0x80
    requires text != "" ==> text[0] !in ASCII_SPACE && text[|text| - 1] !in ASCII_SPACE
    ensures TrimSpace(left + text + right) == text
  {
    hide TrimSpace;
    PaddingIgnored(left, text, right);
    if text == "" { TrimmedMeans(text); } else { PlainEnds(text); }
  }
}
