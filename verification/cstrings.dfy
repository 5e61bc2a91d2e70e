/**
  The C string routines the request handler relies on (`strstr`, `index`,
  `strcasecmp`), stated over Dafny strings. A C string is modelled by the
  characters before its terminator.
 */
module CStrings {

  datatype Option<+T> = None | Some(value: T)

  /** `pat` occurs in `s` starting at position `i`. */
  predicate OccursAt(s: string, pat: string, i: int)
  {
    0 <= i && i + |pat| <= |s| && s[i..i + |pat|] == pat
  }

  /** The declarative substring relation: some position of `s` starts `pat`. */
  ghost predicate HasSubstring(s: string, pat: string)
  {
    exists i :: OccursAt(s, pat, i)
  }

  /** `strstr(s, pat) != NULL`: try each start position from the left. */
  function Contains(s: string, pat: string): bool
    decreases |s|
  {
    if |pat| <= |s| && s[..|pat|] == pat then true
    else if |s| == 0 then false
    else Contains(s[1..], pat)
  }

  /** The left-to-right scan finds `pat` exactly when it occurs somewhere. */
  lemma {:induction false} ContainsIsSubstring(s: string, pat: string)
    ensures Contains(s, pat) <==> HasSubstring(s, pat)
    decreases |s|
  {
    if |pat| <= |s| && s[..|pat|] == pat {
      assert OccursAt(s, pat, 0);
    } else if |s| == 0 {
    } else {
      ContainsIsSubstring(s[1..], pat);
      if HasSubstring(s, pat) {
        var i :| OccursAt(s, pat, i);
        assert s[1..][i - 1..i - 1 + |pat|] == s[i..i + |pat|];
        assert OccursAt(s[1..], pat, i - 1);
      }
      if HasSubstring(s[1..], pat) {
        var j :| OccursAt(s[1..], pat, j);
        assert s[j + 1..j + 1 + |pat|] == s[1..][j..j + |pat|];
        assert OccursAt(s, pat, j + 1);
      }
    }
  }

  /** A piece glued between two strings occurs in the result. */
  lemma OccursInMiddle(a: string, p: string, b: string)
    ensures OccursAt(a + p + b, p, |a|)
    ensures HasSubstring(a + p + b, p)
  {
    assert (a + p + b)[|a|..|a| + |p|] == p;
    assert OccursAt(a + p + b, p, |a|);
  }

  lemma SubstringItself(p: string)
    ensures HasSubstring(p, p)
  {
    assert OccursAt(p, p, 0);
  }

  /** An occurrence in `s` is still one after appending `t`. */
  lemma SubstringOfLeft(s: string, t: string, p: string)
    requires HasSubstring(s, p)
    ensures HasSubstring(s + t, p)
  {
    var i :| OccursAt(s, p, i);
    assert (s + t)[i..i + |p|] == s[i..i + |p|];
    assert OccursAt(s + t, p, i);
  }

  /** An occurrence in `t` is still one after prepending `s`. */
  lemma SubstringOfRight(s: string, t: string, p: string)
    requires HasSubstring(t, p)
    ensures HasSubstring(s + t, p)
  {
    var i :| OccursAt(t, p, i);
    assert (s + t)[|s| + i..|s| + i + |p|] == t[i..i + |p|];
    assert OccursAt(s + t, p, |s| + i);
  }

  /** A string without the first character of `pat` cannot contain `pat`. */
  lemma NoFirstCharNoSubstring(s: string, pat: string)
    requires |pat| > 0 && pat[0] !in s
    ensures !HasSubstring(s, pat)
  {
  }

  /** `index(s, c)`: the position of the first `c` in `s`, if there is one. */
  function IndexOf(s: string, c: char): (r: Option<nat>)
    ensures r.None? <==> c !in s
    ensures r.Some? ==> r.value < |s| && s[r.value] == c && c !in s[..r.value]
  {
    if |s| == 0 then None
    else if s[0] == c then Some(0)
    else match IndexOf(s[1..], c)
      case None => None
      case Some(k) =>
        assert s[..k + 1] == [s[0]] + s[1..][..k];
        Some(k + 1)
  }

  /** A position holding `c` with no `c` before it is what `index` returns. */
  lemma IndexOfFirst(s: string, c: char, k: nat)
    requires k < |s| && s[k] == c && c !in s[..k]
    ensures IndexOf(s, c) == Some(k)
  {
  }

  /** `tolower` in the C locale: only the ASCII capitals change. */
  function ToLower(c: char): char
  {
    if 'A' <= c <= 'Z' then (c as int - 'A' as int + 'a' as int) as char else c
  }

  /** `strcasecmp(a, b) == 0`: equal lengths and equal after `tolower`. */
  predicate EqualsIgnoreCase(a: string, b: string)
  {
    |a| == |b| && forall i :: 0 <= i < |a| ==> ToLower(a[i]) == ToLower(b[i])
  }

  /** The characters that lower-case to a given lower-case ASCII letter. */
  lemma ToLowerLetter(c: char, l: char)
    requires 'a' <= l <= 'z'
    ensures ToLower(c) == l <==> c == l || c as int == l as int - 'a' as int + 'A' as int
  {
  }
}
