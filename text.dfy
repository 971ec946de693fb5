/** The JavaScript string builtins the redirector relies on, pinned to explicit
    definitions so that the exact lookup and the search fold case and trim
    whitespace in one and the same way. */
module Text {

  // ---------------------------------------------------------------------------
  // Case folding (String.prototype.toLowerCase, restricted to ASCII letters)
  // ---------------------------------------------------------------------------

  predicate IsUpper(c: char) { 'A' <= c <= 'Z' }

  predicate IsLower(c: char) { 'a' <= c <= 'z' }

  function LowerChar(c: char): (r: char)
  {
    if IsUpper(c) then (c as int + 32) as char else c
  }

  function UpperChar(c: char): (r: char)
  {
    if IsLower(c) then (c as int - 32) as char else c
  }

  /** The string with every upper-case letter replaced by its lower-case form:
      no upper-case letter remains, and each character equals the input's
      up to case. */
  function Lower(s: string): (r: string)
    ensures |r| == |s|
    ensures forall i :: 0 <= i < |s| ==> !IsUpper(r[i]) && UpperChar(r[i]) == UpperChar(s[i])
  {
    seq(|s|, i requires 0 <= i < |s| => LowerChar(s[i]))
  }

  /** The string with every lower-case letter replaced by its upper-case form. */
  function Upper(s: string): (r: string)
    ensures |r| == |s|
    ensures forall i :: 0 <= i < |s| ==> r[i] == UpperChar(s[i])
  {
    seq(|s|, i requires 0 <= i < |s| => UpperChar(s[i]))
  }

  /** The contract of `Lower` pins its result: any string of the same length
      with no upper-case letter that agrees with `s` up to case is `Lower(s)`. */
  lemma LowerUnique(s: string, r: string)
    requires |r| == |s|
    requires forall i :: 0 <= i < |s| ==> !IsUpper(r[i]) && UpperChar(r[i]) == UpperChar(s[i])
    ensures r == Lower(s)
  {
    forall i | 0 <= i < |s|
      ensures r[i] == Lower(s)[i]
    {
      assert UpperChar(r[i]) == UpperChar(Lower(s)[i]);
    }
  }

  /** A string without upper-case letters lowers to itself. */
  lemma LowerFixesLowercase(s: string)
    requires forall i :: 0 <= i < |s| ==> !IsUpper(s[i])
    ensures Lower(s) == s
  {
    assert forall i :: 0 <= i < |s| ==> Lower(s)[i] == s[i];
  }

  /** Lowering is a fold: applying it twice changes nothing more, and it
      erases any upper-casing that was applied before it. */
  lemma LowerFolds(s: string)
    ensures Lower(Lower(s)) == Lower(s)
    ensures Lower(Upper(s)) == Lower(s)
    ensures forall i :: 0 <= i < |s| ==> !IsUpper(Lower(s)[i])
  {
    assert Lower(Lower(s)) == Lower(s);
    assert Lower(Upper(s)) == Lower(s);
  }

  // ---------------------------------------------------------------------------
  // Whitespace and trimming (String.prototype.trim)
  // ---------------------------------------------------------------------------

  /** ECMAScript's WhiteSpace and LineTerminator code points: TAB, VT, FF,
      SPACE, NBSP, ZWNBSP, the Zs space separators, LF, CR, LS and PS. */
  predicate IsWhitespace(c: char)
  {
    || c == '\t' || c == '\U{000B}' || c == '\U{000C}' || c == ' '
    || c == '\U{00A0}' || c == '\U{FEFF}'
    || c == '\n' || c == '\r' || c == '\U{2028}' || c == '\U{2029}'
    || c == '\U{1680}' || ('\U{2000}' <= c <= '\U{200A}')
    || c == '\U{202F}' || c == '\U{205F}' || c == '\U{3000}'
  }

  predicate AllWhitespace(s: string)
  {
    forall i :: 0 <= i < |s| ==> IsWhitespace(s[i])
  }

  /** How many whitespace characters `s` starts with. */
  function LeadingWhitespace(s: string): (n: nat)
    ensures n <= |s|
    ensures AllWhitespace(s[..n])
    ensures n < |s| ==> !IsWhitespace(s[n])
  {
    if |s| > 0 && IsWhitespace(s[0]) then
      var n := LeadingWhitespace(s[1..]);
      assert s[..n + 1] == [s[0]] + s[1..][..n];
      n + 1
    else 0
  }

  /** Where the trailing whitespace of `s` begins. */
  function TrailingWhitespaceStart(s: string): (n: nat)
    ensures n <= |s|
    ensures AllWhitespace(s[n..])
    ensures n > 0 ==> !IsWhitespace(s[n - 1])
  {
    if |s| > 0 && IsWhitespace(s[|s| - 1]) then
      var n := TrailingWhitespaceStart(s[..|s| - 1]);
      assert s[n..] == s[..|s| - 1][n..] + [s[|s| - 1]];
      n
    else |s|
  }

  /** Both ends trimmed of whitespace. */
  function Trim(s: string): (r: string)
    ensures |r| <= |s|
  {
    var t := s[LeadingWhitespace(s)..];
    t[..TrailingWhitespaceStart(t)]
  }

  /** The trimmed string is empty exactly when the whole string is whitespace;
      otherwise it neither starts nor ends with whitespace. */
  lemma TrimEmptyIffBlank(s: string)
    ensures Trim(s) == "" <==> AllWhitespace(s)
    ensures Trim(s) != "" ==> !IsWhitespace(Trim(s)[0]) && !IsWhitespace(Trim(s)[|Trim(s)| - 1])
  {
    var k := LeadingWhitespace(s);
    var t := s[k..];
    var m := TrailingWhitespaceStart(t);
    if k == |s| {
      assert s[..k] == s;
    } else {
      assert t[0] == s[k];
      assert m > 0;
      assert t[..m][0] == s[k];
    }
  }

  /** Trimming cuts out a middle stretch of the string: what it drops at
      either end is whitespace. */
  lemma TrimDropsOnlyWhitespace(s: string)
    ensures exists a: nat, b: nat ::
              a <= b <= |s| && Trim(s) == s[a..b] && AllWhitespace(s[..a]) && AllWhitespace(s[b..])
  {
    var k := LeadingWhitespace(s);
    var t := s[k..];
    var m := TrailingWhitespaceStart(t);
    assert Trim(s) == s[k..k + m];
    assert s[k + m..] == t[m..];
  }

  /** Folding the case never turns a character into whitespace or back. */
  lemma LowerKeepsBlank(s: string)
    ensures AllWhitespace(Lower(s)) <==> AllWhitespace(s)
  {
    if AllWhitespace(Lower(s)) {
      forall i | 0 <= i < |s| ensures IsWhitespace(s[i]) {
        assert IsWhitespace(Lower(s)[i]);
      }
    }
  }

  // ---------------------------------------------------------------------------
  // Substring containment (String.prototype.includes)
  // ---------------------------------------------------------------------------

  /** `t` occurs in `s` starting at index `i`. */
  predicate OccursAt(s: string, t: string, i: int)
  {
    0 <= i && i + |t| <= |s| && s[i..i + |t|] == t
  }

  /** Whether `t` occurs anywhere in `s`, trying the start positions from left to right. */
  function Includes(s: string, t: string): (r: bool)
    ensures r ==> |t| <= |s|
    decreases |s|
  {
    |t| <= |s| && (s[..|t|] == t || Includes(s[1..], t))
  }

  /** `Includes` finds an occurrence exactly when one exists. */
  lemma {:induction false} IncludesIffOccurs(s: string, t: string)
    ensures Includes(s, t) <==> exists i :: OccursAt(s, t, i)
    decreases |s|
  {
    if |t| <= |s| {
      if s[..|t|] == t {
        assert OccursAt(s, t, 0);
      } else {
        IncludesIffOccurs(s[1..], t);
        if Includes(s[1..], t) {
          var i :| OccursAt(s[1..], t, i);
          assert s[1..][i..i + |t|] == s[i + 1..i + 1 + |t|];
          assert OccursAt(s, t, i + 1);
        }
        if exists i :: OccursAt(s, t, i) {
          var i :| OccursAt(s, t, i);
          assert i != 0;
          assert s[1..][i - 1..i - 1 + |t|] == s[i..i + |t|];
          assert OccursAt(s[1..], t, i - 1);
        }
      }
    }
  }

  /** A pattern holding a character that `s` lacks is not included in `s`. */
  lemma NotIncludedWithout(s: string, t: string, c: char)
    requires c in t && c !in s
    ensures !Includes(s, t)
  {
    IncludesIffOccurs(s, t);
  }

  /** A lower-case letter absent from `s` in both its cases is absent from
      the lowered `s`. */
  lemma AbsentAfterLower(s: string, c: char)
    requires IsLower(c) && c !in s && UpperChar(c) !in s
    ensures c !in Lower(s)
  {
    forall i | 0 <= i < |s|
      ensures Lower(s)[i] != c
    {
      assert s[i] != c && s[i] != UpperChar(c);
    }
  }
}
