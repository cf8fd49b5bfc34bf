/** The response header map and its lookup, as net/http's Header.Get does
    it: the queried name is put into canonical form (net/textproto's
    CanonicalMIMEHeaderKey) and the first value stored under that key is
    returned, or "" when there is none. */
module Headers {

  /** Response headers as the HTTP client stores them: canonical name to
      the list of received values. */
  type Header = map<string, seq<string>>

  /** A byte allowed in a header field name (an RFC 7230 token character). */
  predicate IsTokenChar(c: char) {
    || ('0' <= c <= '9')
    || ('a' <= c <= 'z')
    || ('A' <= c <= 'Z')
    || c in "!#$%&'*+-.^_`|~"
  }

  predicate IsToken(s: string) {
    forall k :: 0 <= k < |s| ==> IsTokenChar(s[k])
  }

  function ToUpper(c: char): char {
    if 'a' <= c <= 'z' then (c as int - 32) as char else c
  }

  function ToLower(c: char): char {
    if 'A' <= c <= 'Z' then (c as int + 32) as char else c
  }

  /** Changing the case of a letter keeps its lower-case form and never
      produces or removes a '-'. */
  lemma CaseFacts(c: char)
    ensures ToLower(ToUpper(c)) == ToLower(c) && ToLower(ToLower(c)) == ToLower(c)
    ensures ToUpper(ToUpper(c)) == ToUpper(c) && ToUpper(ToLower(c)) == ToUpper(c)
    ensures ToUpper(c) == '-' <==> c == '-'
    ensures ToLower(c) == '-' <==> c == '-'
  {
  }

  /** Equal up to ASCII letter case. */
  predicate SameIgnoringCase(a: string, b: string) {
    |a| == |b| && forall k :: 0 <= k < |a| ==> ToLower(a[k]) == ToLower(b[k])
  }

  /** The canonical spelling: a letter is upper case at the start of the
      name and after each '-', lower case everywhere else. */
  predicate IsCanonical(s: string) {
    forall k :: 0 <= k < |s| ==>
      s[k] == if k == 0 || s[k - 1] == '-' then ToUpper(s[k]) else ToLower(s[k])
  }

  /** The rewriting loop of canonicalMIMEHeaderKey; `upper` says whether
      the previous character was a '-' (or there was none). */
  function Capitalize(s: string, upper: bool): (r: string)
    ensures |r| == |s|
  {
    if s == [] then []
    else [if upper then ToUpper(s[0]) else ToLower(s[0])] + Capitalize(s[1..], s[0] == '-')
  }

  /** The character at `k` is upper-cased at the start (when `upper`) and
      after a '-', and lower-cased everywhere else. */
  lemma {:induction false} CapitalizeAt(s: string, upper: bool, k: nat)
    requires k < |s|
    ensures Capitalize(s, upper)[k] ==
      if (k == 0 && upper) || (k > 0 && s[k - 1] == '-') then ToUpper(s[k]) else ToLower(s[k])
  {
    if k > 0 {
      var tail := s[1..];
      CapitalizeAt(tail, s[0] == '-', k - 1);
      assert Capitalize(s, upper)[k] == Capitalize(tail, s[0] == '-')[k - 1];
      assert s[k] == tail[k - 1];
      assert k - 1 > 0 ==> s[k - 1] == tail[k - 2];
    }
  }

  /** CanonicalMIMEHeaderKey: a name made only of token characters is
      capitalised; any other name is returned unchanged. */
  function CanonicalKey(name: string): string {
    if IsToken(name) then Capitalize(name, true) else name
  }

  /** Canonicalising changes letter case only, keeps a token a token, and
      gives a token its canonical spelling. */
  lemma {:induction false} CanonicalKeySpec(name: string)
    ensures SameIgnoringCase(CanonicalKey(name), name)
    ensures IsToken(CanonicalKey(name)) == IsToken(name)
    ensures IsToken(name) ==> IsCanonical(CanonicalKey(name))
    ensures !IsToken(name) ==> CanonicalKey(name) == name
  {
    if IsToken(name) {
      CapitalizeChangesOnlyCase(name, true);
      CapitalizeIsCanonical(name);
      var key := CanonicalKey(name);
      forall k | 0 <= k < |key| ensures IsTokenChar(key[k]) {
        assert IsTokenChar(name[k]);
        CapitalizeAt(name, true, k);
      }
    }
  }

  /** Capitalising changes letter case only. */
  lemma {:induction false} CapitalizeChangesOnlyCase(s: string, upper: bool)
    ensures SameIgnoringCase(Capitalize(s, upper), s)
    ensures forall k :: 0 <= k < |s| ==> (Capitalize(s, upper)[k] == '-' <==> s[k] == '-')
  {
    var r := Capitalize(s, upper);
    forall k | 0 <= k < |s|
      ensures ToLower(r[k]) == ToLower(s[k])
      ensures r[k] == '-' <==> s[k] == '-'
    {
      CapitalizeAt(s, upper, k);
      CaseFacts(s[k]);
    }
  }

  /** Capitalising from the start of a name gives the canonical spelling. */
  lemma {:induction false} CapitalizeIsCanonical(s: string)
    ensures IsCanonical(Capitalize(s, true))
  {
    var r := Capitalize(s, true);
    CapitalizeChangesOnlyCase(s, true);
    forall k | 0 <= k < |r|
      ensures r[k] == if k == 0 || r[k - 1] == '-' then ToUpper(r[k]) else ToLower(r[k])
    {
      CapitalizeAt(s, true, k);
      CaseFacts(s[k]);
      if k > 0 {
        assert r[k - 1] == '-' <==> s[k - 1] == '-';
      }
    }
    assert IsCanonical(r);
  }

  /** Header.Get: the first value under the canonical key, "" if absent. */
  function Get(h: Header, name: string): string {
    var key := CanonicalKey(name);
    if key in h && |h[key]| > 0 then h[key][0] else ""
  }

  /** Two canonical names that differ only in letter case are equal. */
  lemma {:induction false} CanonicalUnique(a: string, b: string)
    requires IsCanonical(a) && IsCanonical(b)
    requires SameIgnoringCase(a, b)
    ensures a == b
  {
    forall k | 0 <= k < |a|
      ensures a[k] == b[k]
    {
      assert ToUpper(a[k]) == ToUpper(b[k]);
      if k > 0 {
        assert a[k - 1] == '-' <==> b[k - 1] == '-';
      }
    }
  }

  /** Canonicalising twice is canonicalising once. */
  lemma {:induction false} CanonicalKeyIdempotent(name: string)
    ensures CanonicalKey(CanonicalKey(name)) == CanonicalKey(name)
  {
    var key := CanonicalKey(name);
    CanonicalKeySpec(name);
    CanonicalKeySpec(key);
    if IsToken(name) {
      CanonicalUnique(CanonicalKey(key), key);
    }
  }

  /** Header names are matched without regard to letter case: two token
      names that differ only in case look up the same value. */
  lemma {:induction false} GetIgnoresCase(h: Header, a: string, b: string)
    requires IsToken(a)
    requires SameIgnoringCase(a, b)
    ensures Get(h, a) == Get(h, b)
  {
    assert IsToken(b) by {
      forall k | 0 <= k < |b| ensures IsTokenChar(b[k]) {
        assert IsTokenChar(a[k]);
        assert ToLower(a[k]) == ToLower(b[k]);
      }
    }
    var ka, kb := CanonicalKey(a), CanonicalKey(b);
    CanonicalKeySpec(a);
    CanonicalKeySpec(b);
    assert SameIgnoringCase(ka, kb) by {
      forall k | 0 <= k < |ka| ensures ToLower(ka[k]) == ToLower(kb[k]) {
        assert ToLower(ka[k]) == ToLower(a[k]) == ToLower(b[k]) == ToLower(kb[k]);
      }
    }
    CanonicalUnique(ka, kb);
  }
}
