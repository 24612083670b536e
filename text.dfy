/**
  The two string operations the terminal applies to what the visitor types:
  JavaScript's `String.prototype.trim` and `String.prototype.toLowerCase`,
  and the prefix test of `String.prototype.startsWith` (Dafny's `<=` on sequences).
*/
module Text {

  /** ECMAScript WhiteSpace or LineTerminator: the characters `trim` removes. */
  predicate IsSpace(c: char) {
    // Line terminators
    c == '\n' || c == '\r' || c == '\U{2028}' || c == '\U{2029}' ||
    // Tab, vertical tab, form feed, byte order mark
    c == '\t' || c == '\U{000B}' || c == '\U{000C}' || c == '\U{FEFF}' ||
    // Unicode category Zs
    c == ' ' || c == '\U{00A0}' || c == '\U{1680}' ||
    ('\U{2000}' <= c <= '\U{200A}') ||
    c == '\U{202F}' || c == '\U{205F}' || c == '\U{3000}'
  }

  predicate AllSpace(s: string) {
    forall k :: 0 <= k < |s| ==> IsSpace(s[k])
  }

  /** No whitespace at either end: what `trim` produces. */
  predicate IsTrimmed(s: string) {
    s == [] || (!IsSpace(s[0]) && !IsSpace(s[|s| - 1]))
  }

  /** The number of whitespace characters at the start of `s`. */
  function LeadingSpaces(s: string): (n: nat)
    ensures n <= |s|
    ensures forall k :: 0 <= k < n ==> IsSpace(s[k])
    ensures n < |s| ==> !IsSpace(s[n])
  {
    if s == [] || !IsSpace(s[0]) then 0 else 1 + LeadingSpaces(s[1..])
  }

  /** The number of whitespace characters at the end of `s`. */
  function TrailingSpaces(s: string): (n: nat)
    ensures n <= |s|
    ensures forall k :: |s| - n <= k < |s| ==> IsSpace(s[k])
    ensures n < |s| ==> !IsSpace(s[|s| - 1 - n])
  {
    if s == [] || !IsSpace(s[|s| - 1]) then 0 else 1 + TrailingSpaces(s[..|s| - 1])
  }

  /** `s.trim()`: `s` without its leading and trailing whitespace. */
  function Trim(s: string): (r: string)
    ensures IsTrimmed(r)
    ensures r == [] <==> AllSpace(s)
    ensures exists i :: 0 <= i <= |s| - |r| && s[i..i + |r|] == r && AllSpace(s[..i]) && AllSpace(s[i + |r|..])
  {
    var lead := LeadingSpaces(s);
    var t := s[lead..];
    var trail := TrailingSpaces(t);
    var r := t[..|t| - trail];
    assert s[lead..lead + |r|] == r;
    assert AllSpace(s[lead + |r|..]) by {
      assert s[lead + |r|..] == t[|t| - trail..];
    }
    assert AllSpace(s) ==> lead == |s|;
    assert 0 <= lead <= |s| - |r| && s[lead..lead + |r|] == r && AllSpace(s[..lead]) && AllSpace(s[lead + |r|..]);
    r
  }

  /** Whitespace around a word that has none at its ends is exactly what `trim` removes. */
  lemma TrimPadded(pre: string, word: string, post: string)
    requires AllSpace(pre) && AllSpace(post) && IsTrimmed(word)
    ensures Trim(pre + word + post) == word
  {
    var s := pre + word + post;
    if word == [] {
      assert AllSpace(s) by {
        forall k | 0 <= k < |s| ensures IsSpace(s[k]) {
          if k < |pre| { assert s[k] == pre[k]; } else { assert s[k] == post[k - |pre|]; }
        }
      }
    } else {
      var lead := LeadingSpaces(s);
      assert s[|pre|] == word[0];
      assert lead == |pre|;
      var t := s[lead..];
      assert t == word + post;
      var trail := TrailingSpaces(t);
      assert t[|word| - 1] == word[|word| - 1];
      assert trail == |post|;
      assert t[..|t| - trail] == word;
    }
  }

  /** A trimmed string is its own trim. */
  lemma TrimTrimmed(s: string)
    requires IsTrimmed(s)
    ensures Trim(s) == s
  {
    TrimPadded([], s, []);
    assert [] + s + [] == s;
  }

  /**
    `toLowerCase` on one character. Besides A-Z, the Kelvin sign U+212A is the one
    character outside ASCII whose lower case is an ASCII letter ('k').
  */
  function LowerChar(c: char): (r: char)
    ensures IsSpace(r) <==> IsSpace(c)
    ensures !('A' <= r <= 'Z') && r != '\U{212A}'
    ensures 'A' <= c <= 'Z' ==> r as int == c as int - 'A' as int + 'a' as int
    ensures c == '\U{212A}' ==> r == 'k'
    ensures !('A' <= c <= 'Z') && c != '\U{212A}' ==> r == c
  {
    if 'A' <= c <= 'Z' then (c as int - 'A' as int + 'a' as int) as char
    else if c == '\U{212A}' then 'k'
    else c
  }

  /** `s.toLowerCase()`, character by character. */
  function Lower(s: string): (r: string)
    ensures |r| == |s|
    ensures forall k :: 0 <= k < |s| ==> r[k] == LowerChar(s[k])
  {
    seq(|s|, k requires 0 <= k < |s| => LowerChar(s[k]))
  }

  /** Lower-casing twice is lower-casing once. */
  lemma LowerIdempotent(s: string)
    ensures Lower(Lower(s)) == Lower(s)
  {
    var l := Lower(s);
    forall k | 0 <= k < |s| ensures Lower(l)[k] == l[k] {
      var c := s[k];
      assert l[k] == LowerChar(c);
    }
  }

  /** Lower-casing keeps whitespace where it was, so it keeps a trimmed string trimmed. */
  lemma LowerKeepsTrimmed(s: string)
    requires IsTrimmed(s)
    ensures IsTrimmed(Lower(s))
  {
  }

  /** A string already in lower case is left as it is. */
  lemma LowerOfLower(s: string)
    requires forall k :: 0 <= k < |s| ==> 'a' <= s[k] <= 'z'
    ensures Lower(s) == s
  {
  }
}
