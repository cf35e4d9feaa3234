/** The field syntaxes shared by the contract validators. */
module Identifiers {
  import opened GoStrings

  const VERSION := "compute.v1alpha1"

  predicate ValidIdentifier(id: string) {
    TrimSpace(id) != "" && TrimSpace(id) == id && !ContainsAny(id, " \t\r\n/:?&#")
  }

  predicate ValidScopedRef(value: string, scheme: string) {
    HasPrefix(value, scheme) && !Contains(value, "..") && value != scheme
  }

  predicate LowerHex(c: char) {
    '0' <= c <= '9' || 'a' <= c <= 'f'
  }

  predicate Hex(c: char) {
    LowerHex(c) || 'A' <= c <= 'F'
  }

  /** sha256: and 64 hexadecimal digits of either case. */
  predicate ValidSHA256Ref(value: string) {
    HasPrefix(value, "sha256:") && |value| == 71 && forall i :: 7 <= i < 71 ==> Hex(value[i])
  }

  /** The lower-case form only. */
  predicate ValidSHA256Digest(value: string) {
    HasPrefix(value, "sha256:") && |value| == 71 && forall i :: 7 <= i < 71 ==> LowerHex(value[i])
  }

  /** An artifact reference for the examples. */
  const SAMPLE_REF := "artifact://a"

  lemma SampleRefIsScoped()
    ensures ValidScopedRef(SAMPLE_REF, "artifact://")
  {
    assert '.' !in SAMPLE_REF;
    if Contains(SAMPLE_REF, "..") { ParentHasDot(SAMPLE_REF); }
  }

  /** Identifiers of ASCII text: not empty, no reserved character, and no vertical tab or form
    * feed at either end. */
  lemma IdentifierOnASCII(id: string)
    requires forall c :: c in id ==> c as int < 0x80
    ensures ValidIdentifier(id)
       <==> && id != "" && (forall c :: c in id ==> c !in " \t\r\n/:?&#")
            && id[0] !in "\U{0B}\U{0C}" && id[|id| - 1] !in "\U{0B}\U{0C}"
  {
    if id != "" {
      hide TrimSpace;
      assert id[0] in id && id[|id| - 1] in id;
      PlainEnds(id);
      assert ContainsAny(id, " \t\r\n/:?&#") <==> exists c :: c in id && c in " \t\r\n/:?&#";
    }
  }

  /** The two digest syntaxes differ in the case of the digits alone. */
  lemma DigestText(value: string)
    ensures ValidSHA256Digest(value)
       <==> |value| == 71 && value[..7] == "sha256:" && forall i :: 7 <= i < 71 ==> '0' <= value[i] <= '9' || 'a' <= value[i] <= 'f'
    ensures ValidSHA256Ref(value)
       <==> |value| == 71 && value[..7] == "sha256:"
            && forall i :: 7 <= i < 71 ==> '0' <= value[i] <= '9' || 'a' <= value[i] <= 'f' || 'A' <= value[i] <= 'F'
  {
    assert HasPrefix(value, "sha256:") <==> |value| >= 7 && value[..7] == "sha256:";
  }
}
