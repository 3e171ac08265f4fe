/**
  `String.prototype.trim`, which the editor applies to the topic before
  testing it and before storing it.
*/
module Text {

  /** The code points ECMAScript's `trim` strips: WhiteSpace (tab, vertical
      tab, form feed, the byte-order mark and every space separator) and
      LineTerminator (line feed, carriage return, U+2028, U+2029). */
  predicate IsSpace(c: char)
  {
    c in SpaceChars || '\U{2000}' <= c <= '\U{200A}'
  }

  /** The white-space code points outside the range U+2000..U+200A. */
  const SpaceChars: set<char> := {
    '\t', '\U{000B}', '\U{000C}', '\U{FEFF}',
    ' ', '\U{00A0}', '\U{1680}', '\U{202F}', '\U{205F}', '\U{3000}',
    '\n', '\r', '\U{2028}', '\U{2029}'
  }

  /** Every character of `s` is white space (vacuously so for ""). */
  predicate AllSpace(s: string)
  {
    forall i :: 0 <= i < |s| ==> IsSpace(s[i])
  }

  /** The first position at or after `k` that does not hold white space,
      or `|s|`. */
  function SkipSpace(s: string, k: nat): (n: nat)
    requires k <= |s|
    ensures k <= n <= |s|
    ensures forall m :: k <= m < n ==> IsSpace(s[m])
    ensures n < |s| ==> !IsSpace(s[n])
    decreases |s| - k
  {
    if k < |s| && IsSpace(s[k]) then SkipSpace(s, k + 1) else k
  }

  /** The least position `n` in `k..j` such that `s[n..j]` is all white
      space. */
  function BackSpace(s: string, k: nat, j: nat): (n: nat)
    requires k <= j <= |s|
    ensures k <= n <= j
    ensures forall m :: n <= m < j ==> IsSpace(s[m])
    ensures n > k ==> !IsSpace(s[n - 1])
  {
    if j > k && IsSpace(s[j - 1]) then BackSpace(s, k, j - 1) else j
  }

  /** `s.trim()`: the slice of `s` between its leading and trailing white
      space. It is empty exactly when `s` is all white space, and otherwise
      neither starts nor ends with white space. */
  function Trim(s: string): (r: string)
    ensures exists i, j :: 0 <= i <= j <= |s| && r == s[i..j] && AllSpace(s[..i]) && AllSpace(s[j..])
    ensures r == "" <==> AllSpace(s)
    ensures |r| > 0 ==> !IsSpace(r[0]) && !IsSpace(r[|r| - 1])
  {
    var i := SkipSpace(s, 0);
    var j := BackSpace(s, i, |s|);
    assert AllSpace(s[..i]) && AllSpace(s[j..]);
    assert j == i ==> AllSpace(s) by {
      if j == i {
        assert forall m :: 0 <= m < |s| ==> IsSpace(s[m]);
      }
    }
    s[i..j]
  }

  /** Trimming is idempotent. */
  lemma TrimIdempotent(s: string)
    ensures Trim(Trim(s)) == Trim(s)
  {
  }
}
