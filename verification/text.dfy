/** Whitespace trimming as the URL list reader applies it to every line:
    Go's strings.TrimSpace, which removes the characters unicode.IsSpace
    accepts from both ends of a string. */
module Text {

  /** unicode.IsSpace: '\t', '\n', '\v', '\f', '\r', ' ', U+0085 (NEL),
      U+00A0 (NBSP), and the other code points with the White_Space
      property. */
  predicate IsSpace(c: char) {
    || ('\t' <= c <= '\r')
    || c == ' '
    || c == '\U{0085}'
    || c == '\U{00A0}'
    || c == '\U{1680}'
    || ('\U{2000}' <= c <= '\U{200A}')
    || c == '\U{2028}'
    || c == '\U{2029}'
    || c == '\U{202F}'
    || c == '\U{205F}'
    || c == '\U{3000}'
  }

  predicate AllSpace(s: string) {
    forall k :: 0 <= k < |s| ==> IsSpace(s[k])
  }

  /** The length of the run of white space that starts the string. */
  function LeadingSpaces(s: string): (n: nat)
    ensures n <= |s|
  {
    if s == [] || !IsSpace(s[0]) then 0 else 1 + LeadingSpaces(s[1..])
  }

  /** The length of the run of white space that ends the string. */
  function TrailingSpaces(s: string): (n: nat)
    ensures n <= |s|
  {
    if s == [] || !IsSpace(s[|s| - 1]) then 0 else 1 + TrailingSpaces(s[..|s| - 1])
  }

  /** The leading run is all white space and is followed by a non-space
      character or by the end of the string. */
  lemma {:induction false} LeadingSpacesSpec(s: string)
    ensures forall k :: 0 <= k < LeadingSpaces(s) ==> IsSpace(s[k])
    ensures LeadingSpaces(s) < |s| ==> !IsSpace(s[LeadingSpaces(s)])
  {
    if s != [] && IsSpace(s[0]) {
      LeadingSpacesSpec(s[1..]);
    }
  }

  /** The trailing run is all white space and is preceded by a non-space
      character or by the start of the string. */
  lemma {:induction false} TrailingSpacesSpec(s: string)
    ensures forall k :: |s| - TrailingSpaces(s) <= k < |s| ==> IsSpace(s[k])
    ensures TrailingSpaces(s) < |s| ==> !IsSpace(s[|s| - 1 - TrailingSpaces(s)])
  {
    if s != [] && IsSpace(s[|s| - 1]) {
      TrailingSpacesSpec(s[..|s| - 1]);
    }
  }

  /** strings.TrimSpace: drops the leading and the trailing white space. */
  function TrimSpace(s: string): string {
    var i := LeadingSpaces(s);
    var rest := s[i..];
    rest[..|rest| - TrailingSpaces(rest)]
  }

  /** The trimmed string is the piece of `s` that starts at its first
      non-space character; everything after the piece is white space, and
      the piece neither starts nor ends with white space. */
  lemma {:induction false} TrimSpaceTrims(s: string)
    ensures LeadingSpaces(s) + |TrimSpace(s)| <= |s|
    ensures TrimSpace(s) == s[LeadingSpaces(s)..LeadingSpaces(s) + |TrimSpace(s)|]
    ensures forall k :: LeadingSpaces(s) + |TrimSpace(s)| <= k < |s| ==> IsSpace(s[k])
    ensures TrimSpace(s) == [] <==> AllSpace(s)
    ensures TrimSpace(s) != [] ==> !IsSpace(TrimSpace(s)[0]) && !IsSpace(TrimSpace(s)[|TrimSpace(s)| - 1])
  {
    var i := LeadingSpaces(s);
    var rest := s[i..];
    var t := TrimSpace(s);
    LeadingSpacesSpec(s);
    TrailingSpacesSpec(rest);
    assert t == rest[..|t|];
    if t != [] {
      assert t[0] == s[i];
      assert t[|t| - 1] == rest[|rest| - 1 - TrailingSpaces(rest)];
    }
  }
}
