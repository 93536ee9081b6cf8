/**
 * The few `java.lang.String` operations the parser relies on, over `seq<char>`:
 * `contains`, `equalsIgnoreCase`, `trim` and `indexOf(char)`.
 */
module JavaText {

  /** `prefix` is a prefix of `s`. */
  predicate IsPrefix(prefix: string, s: string)
  {
    |prefix| <= |s| && s[..|prefix|] == prefix
  }

  /** `s.contains(t)`: `t` occurs in `s` as a contiguous substring (the empty string occurs everywhere). */
  predicate Contains(s: string, t: string)
    decreases |s|
  {
    IsPrefix(t, s) || (|s| > 0 && Contains(s[1..], t))
  }

  /** `t` occurs in `s` starting at position `i`. */
  predicate OccursAt(s: string, t: string, i: int)
  {
    0 <= i && i + |t| <= |s| && s[i..i + |t|] == t
  }

  /** `Contains` agrees with the textbook definition "`t` occurs at some position of `s`", in both directions. */
  lemma {:induction false} ContainsIffOccurs(s: string, t: string)
    ensures Contains(s, t) <==> exists i :: OccursAt(s, t, i)
    decreases |s|
  {
    // An occurrence is either at the front or an occurrence in the tail, shifted by one.
    forall i | 0 <= i && i + |t| <= |s|
      ensures OccursAt(s, t, i) <==> (i == 0 && IsPrefix(t, s)) || (i > 0 && OccursAt(s[1..], t, i - 1))
    {
      if i == 0 {
        assert s[..|t|] == s[i..i + |t|];
      } else {
        assert s[1..][i - 1..i - 1 + |t|] == s[i..i + |t|];
      }
    }
    if IsPrefix(t, s) {
      assert OccursAt(s, t, 0);
    } else if |s| > 0 {
      ContainsIffOccurs(s[1..], t);
      if Contains(s[1..], t) {
        var j :| OccursAt(s[1..], t, j);
        assert OccursAt(s, t, j + 1);
      }
    }
  }

  /** A string never contains a longer one. */
  lemma NotContainsLonger(s: string, t: string)
    requires |s| < |t|
    ensures !Contains(s, t)
  {
    ContainsIffOccurs(s, t);
  }

  /** A string does not contain `t` when the first character of `t` does not occur in it. */
  lemma NotContainsFirstChar(s: string, t: string)
    requires t != [] && t[0] !in s
    ensures !Contains(s, t)
  {
    ContainsIffOccurs(s, t);
    forall i | 0 <= i && i + |t| <= |s|
      ensures s[i..i + |t|][0] == s[i] != t[0]
    {
      assert s[i] in s;
    }
  }

  /** `Character.toUpperCase` restricted to ASCII letters. */
  function UpperAscii(c: char): (u: char)
  {
    if 'a' <= c <= 'z' then (c as int - 32) as char else c
  }

  /** `a.equalsIgnoreCase(b)`: same length and the same letters up to ASCII case. */
  predicate EqualsIgnoreCase(a: string, b: string)
  {
    |a| == |b| && forall i | 0 <= i < |a| :: UpperAscii(a[i]) == UpperAscii(b[i])
  }

  /** The characters `String.trim` removes: every code point up to and including the space. */
  predicate IsTrimmable(c: char)
  {
    c <= ' '
  }

  function TrimStart(s: string): (r: string)
    ensures |r| <= |s| && r == s[|s| - |r|..]
    ensures r != [] ==> !IsTrimmable(r[0])
    ensures forall i | 0 <= i < |s| - |r| :: IsTrimmable(s[i])
  {
    if |s| > 0 && IsTrimmable(s[0]) then TrimStart(s[1..]) else s
  }

  function TrimEnd(s: string): (r: string)
    ensures |r| <= |s| && r == s[..|r|]
    ensures r != [] ==> !IsTrimmable(r[|r| - 1])
    ensures forall i | |r| <= i < |s| :: IsTrimmable(s[i])
  {
    if |s| > 0 && IsTrimmable(s[|s| - 1]) then TrimEnd(s[..|s| - 1]) else s
  }

  /**
   * `s.trim()`: the slice of `s` left once the characters up to the space are
   * removed from both ends, and only there: everything before and after the
   * slice is such a character, and the slice neither starts nor ends with one.
   * It is empty exactly when every character of `s` is such a character, and it
   * is `s` itself when `s` has no such character at either end.
   */
  function Trim(s: string): (r: string)
    ensures exists lo :: OccursAt(s, r, lo) && (forall i | 0 <= i < lo :: IsTrimmable(s[i]))
                         && (forall i | lo + |r| <= i < |s| :: IsTrimmable(s[i]))
    ensures r != [] ==> !IsTrimmable(r[0]) && !IsTrimmable(r[|r| - 1])
    ensures r == [] <==> forall i | 0 <= i < |s| :: IsTrimmable(s[i])
    ensures |s| > 0 && !IsTrimmable(s[0]) && !IsTrimmable(s[|s| - 1]) ==> r == s
  {
    var t := TrimStart(s);
    var r := TrimEnd(t);
    TrimmedSlice(s, t, r);
    r
  }

  /** A tail `t` of `s` cut down to a head `r`: `r` sits in `s` at `|s| - |t|`, with only trimmable characters around it. */
  lemma TrimmedSlice(s: string, t: string, r: string)
    requires |t| <= |s| && t == s[|s| - |t|..] && forall i | 0 <= i < |s| - |t| :: IsTrimmable(s[i])
    requires |r| <= |t| && r == t[..|r|] && forall i | |r| <= i < |t| :: IsTrimmable(t[i])
    ensures var lo := |s| - |t|;
            OccursAt(s, r, lo) && (forall i | 0 <= i < lo :: IsTrimmable(s[i]))
            && (forall i | lo + |r| <= i < |s| :: IsTrimmable(s[i]))
  {
    var lo := |s| - |t|;
    assert s[lo..lo + |r|] == r by {
      forall i | 0 <= i < |r| ensures s[lo..lo + |r|][i] == r[i] {
        assert s[lo + i] == t[i];
      }
    }
    forall i | lo + |r| <= i < |s| ensures IsTrimmable(s[i]) {
      assert s[i] == t[i - lo];
    }
  }

  /** `s.indexOf(c)`: the position of the first `c` in `s`, or -1. */
  function IndexOf(s: string, c: char): (r: int)
    ensures -1 <= r < |s|
    ensures r == -1 <==> c !in s
    ensures r >= 0 ==> s[r] == c && c !in s[..r]
  {
    if |s| == 0 then -1
    else if s[0] == c then 0
    else
      var k := IndexOf(s[1..], c);
      assert s[1..] == s[1..][..];
      if k == -1 then -1
      else
        assert s[..k + 1] == [s[0]] + s[1..][..k];
        k + 1
  }
}
