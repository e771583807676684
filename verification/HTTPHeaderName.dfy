/**
 * `HTTPHeaderName` (Sources/Protocols/HTTP/Models/HTTPHeader.swift): a header
 * field name that keeps its spelling for output and compares, and hashes, by its
 * lowercase form only (header field names are case-insensitive, section 3.2 of
 * RFC 7230).
 *
 * Lowercasing is ASCII lowercasing: header names are tokens (section 3.2.6 of
 * RFC 7230), so only 'A'..'Z' change.
 */
module HTTPHeaderNames {
  import opened Ascii

  function LowerChar(c: char): (r: char)
    ensures !IsUpper(r)
    ensures IsUpper(c) ==> r as int == c as int + 32
    ensures !IsUpper(c) ==> r == c
  {
    if IsUpper(c) then (c as int + 32) as char else c
  }

  /** ASCII lowercasing of a whole string, character by character. */
  function Lower(s: string): (r: string)
    ensures |r| == |s|
    ensures forall i :: 0 <= i < |s| ==> r[i] == LowerChar(s[i])
  {
    if s == [] then [] else [LowerChar(s[0])] + Lower(s[1..])
  }

  /** Two characters are the same letter in different case, or the same character. */
  predicate SameIgnoringCase(x: char, y: char) {
    x == y || (IsLetter(x) && IsLetter(y) && (x as int - y as int == 32 || y as int - x as int == 32))
  }

  /** Two strings that differ at most in the case of their letters. */
  predicate CaseVariants(a: string, b: string) {
    |a| == |b| && forall i :: 0 <= i < |a| ==> SameIgnoringCase(a[i], b[i])
  }

  datatype HeaderName = HeaderName(name: string) {
    /** Computed once, when the name is created (`init`). */
    const nameInLowercase: string := Lower(name)

    /**
     * Swift's `==` on header names: equal lowercase forms, which is to say
     * spellings that differ at most in letter case.
     */
    predicate Equals(other: HeaderName)
      ensures Equals(other) <==> CaseVariants(name, other.name)
    {
      LowerEqualIff(name, other.name);
      nameInLowercase == other.nameInLowercase
    }

    /**
     * What `hash(into:)` feeds into the hasher: the lowercase form, nothing else.
     * It has no upper-case letter, and changing the case of any letter of the
     * name leaves it as it is.
     */
    function HashInput(): (h: string)
      ensures |h| == |name|
      ensures forall i :: 0 <= i < |h| ==> !IsUpper(h[i])
      ensures forall n :: CaseVariants(name, n) ==> h == Lower(n)
    {
      LowerVariants(name);
      nameInLowercase
    }

    /** `description`: the name as supplied. */
    function Description(): (s: string)
      ensures s == name
    {
      name
    }
  }

  lemma LowerCharMatch(x: char, y: char)
    ensures LowerChar(x) == LowerChar(y) <==> SameIgnoringCase(x, y)
  {
  }

  /** Two strings lowercase alike exactly when they differ at most in letter case. */
  lemma LowerEqualIff(a: string, b: string)
    ensures Lower(a) == Lower(b) <==> CaseVariants(a, b)
  {
    var la, lb := Lower(a), Lower(b);
    if la == lb {
      forall i | 0 <= i < |a| ensures SameIgnoringCase(a[i], b[i]) {
        assert la[i] == lb[i];
        LowerCharMatch(a[i], b[i]);
      }
    }
    if CaseVariants(a, b) {
      forall i | 0 <= i < |a| ensures la[i] == lb[i] {
        LowerCharMatch(a[i], b[i]);
      }
      assert la == lb;
    }
  }

  lemma LowerVariants(a: string)
    ensures forall n :: CaseVariants(a, n) ==> Lower(a) == Lower(n)
  {
    forall n | CaseVariants(a, n) ensures Lower(a) == Lower(n) {
      LowerEqualIff(a, n);
    }
  }

  lemma LowerIdempotent(s: string)
    ensures Lower(Lower(s)) == Lower(s)
  {
  }

  /**
   * Two names are equal exactly when their spellings differ only in letter case;
   * equal names hash alike, and `description` gives back the spelling supplied.
   */
  lemma NameEquality(a: string, b: string)
    ensures HeaderName(a).Equals(HeaderName(b)) <==> CaseVariants(a, b)
    ensures HeaderName(a).Equals(HeaderName(b)) <==> HeaderName(a).HashInput() == HeaderName(b).HashInput()
    ensures HeaderName(a).Description() == a
  {
  }

  /** `==` is an equivalence relation, as `Hashable` demands. */
  lemma EqualsIsEquivalence(a: HeaderName, b: HeaderName, c: HeaderName)
    ensures a.Equals(a)
    ensures a.Equals(b) ==> b.Equals(a)
    ensures a.Equals(b) && b.Equals(c) ==> a.Equals(c)
  {
  }
}
