/** The pieces of JavaScript text semantics the page script relies on: the
    regular-expression classes `\d` and `\s` (without the `u` flag),
    `String.prototype.trim`, truthiness of strings and arguments that may be
    omitted. */
module Js {

  /** `\d`: the ASCII decimal digits and nothing else. */
  predicate IsDigit(c: char) {
    '0' <= c <= '9'
  }

  /** `\s`: the ECMAScript WhiteSpace and LineTerminator code points. The same
      set is what `trim` strips from both ends of a string. */
  predicate IsWhitespace(c: char) {
    || c == '\t' || c == '\n' || c == '\U{000B}' || c == '\U{000C}' || c == '\r'
    || c == ' ' || c == '\U{00A0}' || c == '\U{1680}'
    || ('\U{2000}' <= c <= '\U{200A}')
    || c == '\U{2028}' || c == '\U{2029}' || c == '\U{202F}' || c == '\U{205F}'
    || c == '\U{3000}' || c == '\U{FEFF}'
  }

  predicate AllWhitespace(s: string) {
    forall k | 0 <= k < |s| :: IsWhitespace(s[k])
  }

  /** A string is truthy exactly when it is not empty. */
  predicate Truthy(s: string) {
    s != []
  }

  /** A string argument a caller may omit (`undefined` when omitted). */
  datatype Arg = Undefined | Given(value: string) {
    predicate IsTruthy() {
      Given? && Truthy(value)
    }
  }

  /** The length of the whitespace run at the front of `s`. */
  function LeadingSpace(s: string): (n: nat)
    ensures n <= |s|
    ensures forall k | 0 <= k < n :: IsWhitespace(s[k])
    ensures n == |s| || !IsWhitespace(s[n])
  {
    if s != [] && IsWhitespace(s[0]) then
      var n := 1 + LeadingSpace(s[1..]);
      assert forall k | 1 <= k < n :: s[k] == s[1..][k - 1];
      n
    else 0
  }

  /** The length of the whitespace run at the back of `s`. */
  function TrailingSpace(s: string): (n: nat)
    ensures n <= |s|
    ensures forall k | |s| - n <= k < |s| :: IsWhitespace(s[k])
    ensures n == |s| || !IsWhitespace(s[|s| - n - 1])
  {
    if s != [] && IsWhitespace(s[|s| - 1]) then
      var n := 1 + TrailingSpace(s[..|s| - 1]);
      assert forall k | |s| - n <= k < |s| - 1 :: s[k] == s[..|s| - 1][k];
      n
    else 0
  }

  /** `r` is `s[i..i + |r|]`, and everything of `s` around it is whitespace. */
  predicate TrimmedAt(s: string, r: string, i: nat) {
    && i + |r| <= |s|
    && r == s[i..i + |r|]
    && (forall k | 0 <= k < i :: IsWhitespace(s[k]))
    && (forall k | i + |r| <= k < |s| :: IsWhitespace(s[k]))
  }

  /** `trim`: `s` with whitespace removed only from its two ends, starting and
      ending with a non-whitespace character unless it is empty; it is empty
      exactly when `s` is all whitespace. */
  function Trim(s: string): (r: string)
    ensures exists i :: TrimmedAt(s, r, i)
    ensures r == [] || (!IsWhitespace(r[0]) && !IsWhitespace(r[|r| - 1]))
    ensures r == [] <==> AllWhitespace(s)
  {
    var a := LeadingSpace(s);
    if a == |s| then
      assert TrimmedAt(s, [], 0);
      []
    else
      var b := TrailingSpace(s);
      assert a < |s| - b;
      var r := s[a..|s| - b];
      assert TrimmedAt(s, r, a);
      r
  }

  /** `r` is `s` with whitespace removed from its two ends and from nowhere
      else, as far as no whitespace is left at either end of `r`. */
  predicate IsTrimOf(s: string, r: string) {
    && (exists i: nat | i <= |s| :: TrimmedAt(s, r, i))
    && (r == [] || (!IsWhitespace(r[0]) && !IsWhitespace(r[|r| - 1])))
  }

  /** `Trim`'s contract leaves no choice: the only string that is `s` with
      its end runs of whitespace removed is `Trim(s)`. */
  lemma TrimUnique(s: string, r: string)
    requires IsTrimOf(s, r)
    ensures r == Trim(s)
  {
    var i: nat :| i <= |s| && TrimmedAt(s, r, i);
    if r == [] {
      assert forall k | 0 <= k < |s| :: IsWhitespace(s[k]) by {
        forall k | 0 <= k < |s| ensures IsWhitespace(s[k]) {
          if k < i { } else { assert i + |r| <= k; }
        }
      }
    } else {
      var a := LeadingSpace(s);
      var b := TrailingSpace(s);
      assert s[i] == r[0] && s[i + |r| - 1] == r[|r| - 1];
      assert a == i;
      assert |s| - b == i + |r|;
    }
  }

  /** Trimming a trimmed string changes nothing. */
  lemma TrimIdempotent(s: string)
    ensures Trim(Trim(s)) == Trim(s)
  {
  }
}
