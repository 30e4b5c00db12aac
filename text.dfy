/**
 * Python's `str.strip()` with no argument, as applied to every piece of task
 * text the user types: leading and trailing whitespace is removed, inner
 * whitespace is kept.
 */
module Text {

  /** The code points for which Python's `str.isspace()` holds. */
  predicate IsWhitespace(c: char)
  {
    var n := c as int;
    n == 0x20 || 0x09 <= n <= 0x0D || 0x1C <= n <= 0x1F || n == 0x85 || n == 0xA0
    || n == 0x1680 || 0x2000 <= n <= 0x200A || n == 0x2028 || n == 0x2029
    || n == 0x202F || n == 0x205F || n == 0x3000
  }

  predicate AllWhitespace(s: string)
  {
    forall k :: 0 <= k < |s| ==> IsWhitespace(s[k])
  }

  /** `s` neither starts nor ends with whitespace. */
  predicate IsTrimmed(s: string)
  {
    s == [] || (!IsWhitespace(s[0]) && !IsWhitespace(s[|s| - 1]))
  }

  /** Everything of `s` before position `i` and from position `j` on is whitespace. */
  predicate WhitespaceOutside(s: string, i: nat, j: nat)
  {
    && i <= j <= |s|
    && (forall k :: 0 <= k < i ==> IsWhitespace(s[k]))
    && (forall k :: j <= k < |s| ==> IsWhitespace(s[k]))
  }

  /** How many whitespace characters `s` starts with. */
  function LeadingWhitespace(s: string): (n: nat)
    ensures n <= |s|
    ensures forall k :: 0 <= k < n ==> IsWhitespace(s[k])
    ensures n < |s| ==> !IsWhitespace(s[n])
  {
    if s == [] || !IsWhitespace(s[0]) then 0 else 1 + LeadingWhitespace(s[1..])
  }

  /** How many whitespace characters `s` ends with. */
  function TrailingWhitespace(s: string): (n: nat)
    ensures n <= |s|
    ensures forall k :: |s| - n <= k < |s| ==> IsWhitespace(s[k])
    ensures n < |s| ==> !IsWhitespace(s[|s| - 1 - n])
  {
    if s == [] || !IsWhitespace(s[|s| - 1]) then 0 else 1 + TrailingWhitespace(s[..|s| - 1])
  }

  /** Python's `s.strip()`. */
  function Strip(s: string): (r: string)
    ensures |r| <= |s|
    ensures IsTrimmed(r)
  {
    var i := LeadingWhitespace(s);
    if i == |s| then []
    else
      var j := |s| - TrailingWhitespace(s);
      assert i < j by {
        assert !IsWhitespace(s[i]);
      }
      s[i..j]
  }

  /** What Strip keeps is one contiguous slice of `s` with only whitespace on either side of it. */
  lemma StripSlice(s: string)
    ensures exists i: nat, j: nat :: WhitespaceOutside(s, i, j) && Strip(s) == s[i..j]
  {
    var i := LeadingWhitespace(s);
    if i == |s| {
      assert WhitespaceOutside(s, i, i) && Strip(s) == s[i..i];
    } else {
      var j := |s| - TrailingWhitespace(s);
      assert Strip(s) == s[i..j];
      assert WhitespaceOutside(s, i, j);
    }
  }

  /**
   * Strip is determined by its contract: any trimmed slice of `s` with only
   * whitespace before and after it is what Strip returns.
   */
  lemma StripUnique(s: string, i: nat, j: nat)
    requires WhitespaceOutside(s, i, j) && IsTrimmed(s[i..j])
    ensures Strip(s) == s[i..j]
  {
    var n := LeadingWhitespace(s);
    if i == j {
      assert forall k :: 0 <= k < |s| ==> IsWhitespace(s[k]) by {
        forall k | 0 <= k < |s| ensures IsWhitespace(s[k]) {
          if k >= i {
            assert j <= k;
          }
        }
      }
      assert n == |s|;
    } else {
      assert !IsWhitespace(s[i]) by {
        assert s[i] == s[i..j][0];
      }
      assert !IsWhitespace(s[j - 1]) by {
        assert s[j - 1] == s[i..j][j - i - 1];
      }
      assert n == i;
      assert TrailingWhitespace(s) == |s| - j;
    }
  }

  /** Stripping yields nothing exactly when the text is whitespace only (or empty). */
  lemma StripEmptyIff(s: string)
    ensures Strip(s) == [] <==> AllWhitespace(s)
  {
    var n := LeadingWhitespace(s);
    if AllWhitespace(s) {
      assert n == |s|;
    }
  }

  /** Strip leaves a string alone exactly when it has no outer whitespace. */
  lemma StripFixedIff(s: string)
    ensures Strip(s) == s <==> IsTrimmed(s)
  {
    if IsTrimmed(s) && s != [] {
      assert LeadingWhitespace(s) == 0;
      assert TrailingWhitespace(s) == 0;
      assert s[0..|s|] == s;
    }
  }

  /** Stripping twice is stripping once. */
  lemma StripIdempotent(s: string)
    ensures Strip(Strip(s)) == Strip(s)
  {
    StripFixedIff(Strip(s));
  }
}
