/**
 * The string primitives the pages use: `trim`, `toLowerCase` and `includes`.
 *
 * Trimming removes exactly the characters ECMA-262 classes as WhiteSpace or
 * LineTerminator. Lower-casing maps only the ASCII letters A-Z; the full
 * Unicode case mapping of `toLowerCase` is not modelled.
 */
module Text {

  /** The characters `String.prototype.trim` strips from either end. */
  predicate IsSpace(c: char) {
    || c == ' ' || c == '\t' || c == '\n' || c == '\r'
    || c == '\U{000B}' || c == '\U{000C}' || c == '\U{00A0}' || c == '\U{FEFF}'
    || c == '\U{1680}' || ('\U{2000}' <= c <= '\U{200A}')
    || c == '\U{2028}' || c == '\U{2029}' || c == '\U{202F}' || c == '\U{205F}'
    || c == '\U{3000}'
  }

  predicate IsUpper(c: char) {
    'A' <= c <= 'Z'
  }

  /** The first index at or after `i` that does not hold a space. */
  function SkipSpaces(s: string, i: nat): (j: nat)
    requires i <= |s|
    ensures i <= j <= |s|
    ensures forall k :: i <= k < j ==> IsSpace(s[k])
    ensures j == |s| || !IsSpace(s[j])
    decreases |s| - i
  {
    if i == |s| || !IsSpace(s[i]) then i else SkipSpaces(s, i + 1)
  }

  /** The smallest index `k` in `lo..j` such that `s[k..j]` holds only spaces. */
  function SkipSpacesBack(s: string, lo: nat, j: nat): (k: nat)
    requires lo <= j <= |s|
    ensures lo <= k <= j
    ensures forall m :: k <= m < j ==> IsSpace(s[m])
    ensures k == lo || !IsSpace(s[k - 1])
  {
    if j == lo || !IsSpace(s[j - 1]) then j else SkipSpacesBack(s, lo, j - 1)
  }

  /** `s.trim()`: `s` without its leading and trailing spaces. */
  function Trim(s: string): (r: string)
    ensures |r| <= |s|
    ensures r != [] ==> !IsSpace(r[0]) && !IsSpace(r[|r| - 1])
    ensures r == [] <==> forall k :: 0 <= k < |s| ==> IsSpace(s[k])
    ensures exists lo, hi :: 0 <= lo <= hi <= |s| && r == s[lo..hi]
                             && (forall k :: 0 <= k < lo ==> IsSpace(s[k]))
                             && (forall k :: hi <= k < |s| ==> IsSpace(s[k]))
  {
    var lo := SkipSpaces(s, 0);
    var hi := SkipSpacesBack(s, lo, |s|);
    assert (forall k :: 0 <= k < lo ==> IsSpace(s[k])) && (forall k :: hi <= k < |s| ==> IsSpace(s[k]));
    s[lo..hi]
  }

  /** A string that neither starts nor ends with a space trims to itself. */
  lemma TrimUnpadded(s: string)
    requires s != [] && !IsSpace(s[0]) && !IsSpace(s[|s| - 1])
    ensures Trim(s) == s
  {
  }

  /** `toLowerCase` on one character, restricted to ASCII letters. */
  function LowerChar(c: char): (d: char)
    ensures !IsUpper(d)
    ensures IsUpper(c) ==> d as int == c as int + 32
    ensures !IsUpper(c) ==> d == c
    ensures IsSpace(d) <==> IsSpace(c)
  {
    if IsUpper(c) then (c as int + 32) as char else c
  }

  /** `s.toLowerCase()`, character by character. */
  function Lower(s: string): (r: string)
    ensures |r| == |s|
    ensures forall i :: 0 <= i < |s| ==> r[i] == LowerChar(s[i])
    ensures forall i :: 0 <= i < |r| ==> !IsUpper(r[i])
  {
    seq(|s|, i requires 0 <= i < |s| => LowerChar(s[i]))
  }

  lemma LowerIdempotent(s: string)
    ensures Lower(Lower(s)) == Lower(s)
  {
  }

  /** `"Sci-Fi".toLowerCase()` is `"sci-fi"`. */
  lemma LowerSciFi()
    ensures Lower("Sci-Fi") == "sci-fi"
  {
  }

  /** Lower-casing never changes whether a string trims to nothing. */
  lemma LowerKeepsBlankness(s: string)
    ensures Trim(Lower(s)) == [] <==> Trim(s) == []
  {
    assert forall k :: 0 <= k < |s| ==> (IsSpace(Lower(s)[k]) <==> IsSpace(s[k]));
  }

  /** Two strings that lower-case alike are both blank or both not. */
  lemma SameLowerSameBlankness(s: string, t: string)
    requires Lower(s) == Lower(t)
    ensures Trim(s) == [] <==> Trim(t) == []
  {
    LowerKeepsBlankness(s);
    LowerKeepsBlankness(t);
  }

  /** `needle` occurs in `hay` starting at index `i`. */
  ghost predicate OccursAt(hay: string, needle: string, i: int) {
    0 <= i && i + |needle| <= |hay| && hay[i..i + |needle|] == needle
  }

  /** `hay.includes(needle)`: the empty needle occurs everywhere. */
  predicate Contains(hay: string, needle: string)
    decreases |hay|
  {
    needle <= hay || (|hay| > 0 && Contains(hay[1..], needle))
  }

  /** `Contains` agrees with the index-based definition of a substring. */
  lemma {:induction false} ContainsIff(hay: string, needle: string)
    ensures Contains(hay, needle) <==> exists i :: OccursAt(hay, needle, i)
    decreases |hay|
  {
    if needle <= hay {
      assert hay[0..|needle|] == needle;
      assert OccursAt(hay, needle, 0);
    }
    if |hay| > 0 {
      ContainsIff(hay[1..], needle);
      if Contains(hay[1..], needle) {
        var i :| OccursAt(hay[1..], needle, i);
        assert hay[1..][i..i + |needle|] == hay[i + 1..i + 1 + |needle|];
        assert OccursAt(hay, needle, i + 1);
      }
    }
    if exists i :: OccursAt(hay, needle, i) {
      var i :| OccursAt(hay, needle, i);
      if i == 0 {
        assert needle <= hay;
      } else {
        assert hay[1..][i - 1..i - 1 + |needle|] == hay[i..i + |needle|];
        assert OccursAt(hay[1..], needle, i - 1);
      }
    }
  }
}
