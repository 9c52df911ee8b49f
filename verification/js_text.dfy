/**
 * The optional value and the three ECMAScript string built-ins that the
 * dashboard's control logic leans on: `toLowerCase`, `includes` and `trim`.
 * Strings are sequences of characters; only the parts of the built-ins that
 * the callers can observe are modelled (see README, "Left out").
 */
module JsText {

  /** A value that may be absent: JavaScript's `undefined` is `None`. */
  datatype Option<+T> = None | Some(value: T)

  // ---------------------------------------------------------------------------
  // toLowerCase
  // ---------------------------------------------------------------------------

  /** Lower-cases one ASCII capital letter and leaves every other character alone. */
  function LowerChar(c: char): char {
    if 'A' <= c <= 'Z' then (c as int + 32) as char else c
  }

  /** Two strings that differ at most in the case of their ASCII letters. */
  predicate SameIgnoringCase(s: string, t: string) {
    |s| == |t| && forall i :: 0 <= i < |s| ==> LowerChar(s[i]) == LowerChar(t[i])
  }

  /** No character of `s` is an ASCII capital letter. */
  predicate NoCapitals(s: string) {
    forall i :: 0 <= i < |s| ==> !('A' <= s[i] <= 'Z')
  }

  /** `s.toLowerCase()`: the same letters as `s` up to case, and no capital left. */
  function ToLower(s: string): (r: string)
    ensures SameIgnoringCase(s, r)
    ensures NoCapitals(r)
  {
    seq(|s|, i requires 0 <= i < |s| => LowerChar(s[i]))
  }

  /** Those two facts determine the result: the only capital-free string equal to `s` up to case is `ToLower(s)`. */
  lemma ToLowerUnique(s: string, t: string)
    requires SameIgnoringCase(s, t) && NoCapitals(t)
    ensures t == ToLower(s)
  {
    forall i | 0 <= i < |t| ensures t[i] == ToLower(s)[i] {
      assert LowerChar(t[i]) == t[i];
    }
  }

  /** Lower-casing cannot tell apart strings that differ only in case, and is idempotent. */
  lemma ToLowerIgnoresCase(s: string, t: string)
    requires SameIgnoringCase(s, t)
    ensures ToLower(s) == ToLower(t)
    ensures ToLower(ToLower(s)) == ToLower(s)
  {
    assert forall i :: 0 <= i < |s| ==> ToLower(s)[i] == ToLower(t)[i];
  }

  // ---------------------------------------------------------------------------
  // includes
  // ---------------------------------------------------------------------------

  /** `s.startsWith(prefix)`, comparing character by character. */
  function StartsWith(s: string, prefix: string): (r: bool)
  {
    if prefix == [] then true
    else s != [] && s[0] == prefix[0] && StartsWith(s[1..], prefix[1..])
  }

  /** The comparison succeeds exactly when `prefix` is a prefix of `s`. */
  lemma {:induction false} StartsWithIffPrefix(s: string, prefix: string)
    ensures StartsWith(s, prefix) <==> |prefix| <= |s| && s[..|prefix|] == prefix
  {
    if prefix != [] && s != [] {
      StartsWithIffPrefix(s[1..], prefix[1..]);
      if |prefix| <= |s| && s[..|prefix|] == prefix {
        assert s[1..][..|prefix| - 1] == s[..|prefix|][1..];
      }
      if StartsWith(s, prefix) {
        assert s[..|prefix|] == [s[0]] + s[1..][..|prefix| - 1];
      }
    }
  }

  /** `s.includes(sub)`, trying the candidate start positions from the left. */
  function Includes(s: string, sub: string): (r: bool)
    decreases |s|
  {
    if StartsWith(s, sub) then true
    else if s == [] then false
    else Includes(s[1..], sub)
  }

  /** `sub` occurs in `s` starting at index `i`. */
  predicate OccursAt(s: string, sub: string, i: int) {
    0 <= i && i + |sub| <= |s| && s[i..i + |sub|] == sub
  }

  /** The scan finds `sub` exactly when `sub` occurs somewhere in `s`. */
  lemma {:induction false} IncludesIffOccurs(s: string, sub: string)
    ensures Includes(s, sub) <==> exists i :: OccursAt(s, sub, i)
    decreases |s|
  {
    StartsWithIffPrefix(s, sub);
    if StartsWith(s, sub) {
      assert OccursAt(s, sub, 0);
    } else if s == [] {
      assert forall i :: !OccursAt(s, sub, i);
    } else {
      IncludesIffOccurs(s[1..], sub);
      if exists i :: OccursAt(s[1..], sub, i) {
        var i :| OccursAt(s[1..], sub, i);
        OccursInTail(s, sub, i);
      }
      if exists i :: OccursAt(s, sub, i) {
        var i :| OccursAt(s, sub, i);
        assert i != 0;
        OccursInTail(s, sub, i - 1);
      }
    }
  }

  /** An occurrence in the tail of `s` is an occurrence in `s` one position further on. */
  lemma OccursInTail(s: string, sub: string, i: nat)
    requires s != []
    ensures OccursAt(s[1..], sub, i) <==> OccursAt(s, sub, i + 1)
  {
    if i + |sub| <= |s[1..]| {
      assert s[1..][i..i + |sub|] == s[i + 1..i + 1 + |sub|];
    }
  }

  /** A non-empty needle never occurs in the empty string. */
  lemma EmptyIncludesNothing(sub: string)
    requires sub != []
    ensures !Includes("", sub)
  {
  }

  /** An occurrence survives lower-casing of both sides: `includes` after `toLowerCase` ignores case. */
  lemma {:induction false} IncludesLowered(s: string, sub: string)
    requires Includes(s, sub)
    ensures Includes(ToLower(s), ToLower(sub))
  {
    IncludesIffOccurs(s, sub);
    var i :| OccursAt(s, sub, i);
    assert ToLower(s)[i..i + |sub|] == ToLower(sub) by {
      forall j | 0 <= j < |sub|
        ensures ToLower(s)[i..i + |sub|][j] == ToLower(sub)[j]
      {
        assert s[i..i + |sub|][j] == sub[j];
      }
    }
    assert OccursAt(ToLower(s), ToLower(sub), i);
    IncludesIffOccurs(ToLower(s), ToLower(sub));
  }

  // ---------------------------------------------------------------------------
  // trim
  // ---------------------------------------------------------------------------

  /**
   * The characters `trim` removes: ECMAScript's WhiteSpace (tab, vertical
   * tab, form feed, space, no-break space, byte order mark and the other
   * space separators) and LineTerminator (line feed, carriage return, line
   * and paragraph separators).
   */
  predicate IsWhiteSpace(c: char) {
    || c == '\t' || c == '\U{000B}' || c == '\U{000C}' || c == ' '
    || c == '\U{00A0}' || c == '\U{FEFF}' || c == '\U{1680}'
    || ('\U{2000}' <= c <= '\U{200A}')
    || c == '\U{202F}' || c == '\U{205F}' || c == '\U{3000}'
    || c == '\n' || c == '\r' || c == '\U{2028}' || c == '\U{2029}'
  }

  /** Every character of `s` is white space (so `s.trim()` is empty). */
  predicate Blank(s: string) {
    forall i :: 0 <= i < |s| ==> IsWhiteSpace(s[i])
  }

  /** Drops the leading white space: what is left is a suffix of `s` that starts with a visible character. */
  function TrimStart(s: string): (r: string)
    ensures |r| <= |s| && r == s[|s| - |r|..]
    ensures Blank(s[..|s| - |r|])
    ensures r == [] || !IsWhiteSpace(r[0])
  {
    if s != [] && IsWhiteSpace(s[0]) then TrimStart(s[1..]) else s
  }

  /** Drops the trailing white space: what is left is a prefix of `s` that ends with a visible character. */
  function TrimEnd(s: string): (r: string)
    ensures |r| <= |s| && r == s[..|r|]
    ensures Blank(s[|r|..])
    ensures r == [] || !IsWhiteSpace(r[|r| - 1])
  {
    if s != [] && IsWhiteSpace(s[|s| - 1]) then TrimEnd(s[..|s| - 1]) else s
  }

  /** `s.trim()`: white space dropped from the start, then from the end. */
  function Trim(s: string): (r: string)
    ensures |r| <= |s|
  {
    TrimEnd(TrimStart(s))
  }

  /** How many white-space characters `s` starts with. */
  function LeadingBlanks(s: string): (n: nat)
    ensures n <= |s| && s[n..] == TrimStart(s)
  {
    |s| - |TrimStart(s)|
  }

  /** Cutting a blank tail off a blank-headed suffix leaves an infix with blank margins. */
  lemma InfixBetweenBlanks(s: string, lo: nat, t: string, r: string)
    requires lo <= |s| && t == s[lo..] && Blank(s[..lo])
    requires t == [] || !IsWhiteSpace(t[0])
    requires |r| <= |t| && r == t[..|r|] && Blank(t[|r|..])
    ensures r == [] || !IsWhiteSpace(r[0])
    ensures lo + |r| <= |s| && r == s[lo..lo + |r|]
    ensures Blank(s[lo + |r|..])
  {
    if r != [] {
      assert r[0] == t[0];
    }
    assert s[lo + |r|..] == t[|r|..];
  }

  /**
   * `s.trim()` is the infix of `s` left once its white-space margins are cut
   * off: it is empty or starts and ends with a visible character, and what
   * lies before and after it in `s` is all white space.
   */
  lemma TrimShape(s: string)
    ensures Trim(s) == [] || (!IsWhiteSpace(Trim(s)[0]) && !IsWhiteSpace(Trim(s)[|Trim(s)| - 1]))
    ensures LeadingBlanks(s) + |Trim(s)| <= |s|
    ensures Trim(s) == s[LeadingBlanks(s)..LeadingBlanks(s) + |Trim(s)|]
    ensures Blank(s[..LeadingBlanks(s)]) && Blank(s[LeadingBlanks(s) + |Trim(s)|..])
  {
    InfixBetweenBlanks(s, LeadingBlanks(s), TrimStart(s), Trim(s));
  }

  /** `s.trim()` is empty exactly when `s` holds nothing but white space. */
  lemma TrimEmptyIffBlank(s: string)
    ensures Trim(s) == [] <==> Blank(s)
  {
    TrimShape(s);
    var r := Trim(s);
    var lo := LeadingBlanks(s);
    if r == [] {
      assert lo == |s|;
      forall i | 0 <= i < |s| ensures IsWhiteSpace(s[i]) {
        assert s[..lo][i] == s[i];
      }
    } else {
      assert s[lo] == r[0];
    }
  }

  /** Trimming twice trims nothing more. */
  lemma TrimIdempotent(s: string)
    ensures Trim(Trim(s)) == Trim(s)
  {
    TrimShape(s);
    var r := Trim(s);
    assert TrimStart(r) == r;
    assert TrimEnd(r) == r;
  }
}
