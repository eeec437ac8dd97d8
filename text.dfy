/**
  The string operations the contact store relies on: lower-casing (Java's
  String.toLowerCase, restricted to ASCII letters), substring search
  (String.contains) and the ordinal comparison String.compareTo that
  Comparator.comparing uses for the sort.
*/
module Text {

  /** Maps 'A'..'Z' to 'a'..'z' and leaves every other character alone. */
  function ToLowerChar(ch: char): char {
    if 'A' <= ch <= 'Z' then (ch as int - 'A' as int + 'a' as int) as char else ch
  }

  /** Lower-cases every character of s. */
  function ToLower(s: string): (r: string)
    ensures |r| == |s|
  {
    seq(|s|, i requires 0 <= i < |s| => ToLowerChar(s[i]))
  }

  /** Lower-casing an already lower-cased string changes nothing. */
  lemma ToLowerIdempotent(s: string)
    ensures ToLower(ToLower(s)) == ToLower(s)
  {
  }

  /** pat occurs in s at some position (a proper specification of String.contains). */
  ghost predicate IsSubstring(pat: string, s: string) {
    exists i :: 0 <= i <= |s| && pat <= s[i..]
  }

  /** Scans s for an occurrence of pat, trying every start position from the left. */
  function Contains(s: string, pat: string): (r: bool)
    ensures r <==> IsSubstring(pat, s)
    decreases |s|
  {
    assert s[0..] == s;
    if pat <= s then true
    else if s == [] then false
    else
      assert forall i :: 1 <= i <= |s| ==> s[1..][i - 1..] == s[i..];
      assert IsSubstring(pat, s[1..]) ==> (exists i :: 1 <= i <= |s| && pat <= s[i..]) by {
        if IsSubstring(pat, s[1..]) {
          var i :| 0 <= i <= |s[1..]| && pat <= s[1..][i..];
          assert pat <= s[i + 1..];
        }
      }
      Contains(s[1..], pat)
  }

  /** A pattern whose first character does not occur in s is not a substring of s. */
  lemma FirstCharAbsent(pat: string, s: string)
    requires pat != [] && pat[0] !in s
    ensures !IsSubstring(pat, s)
  {
  }

  /**
    Java's String.compareTo on UTF-16 code units: the difference of the first
    pair of characters that differ, or else the difference of the lengths.
  */
  function CompareTo(s: string, t: string): int {
    if s == [] || t == [] then |s| - |t|
    else if s[0] != t[0] then s[0] as int - t[0] as int
    else CompareTo(s[1..], t[1..])
  }

  /** s sorts no later than t under String.compareTo. */
  predicate LessEq(s: string, t: string) {
    CompareTo(s, t) <= 0
  }

  lemma {:induction false} CompareToZeroIffEqual(s: string, t: string)
    ensures CompareTo(s, t) == 0 <==> s == t
  {
    if s != [] && t != [] && s[0] == t[0] {
      CompareToZeroIffEqual(s[1..], t[1..]);
      assert s == [s[0]] + s[1..] && t == [t[0]] + t[1..];
    }
  }

  lemma {:induction false} CompareToAntisymmetric(s: string, t: string)
    ensures CompareTo(t, s) == -CompareTo(s, t)
  {
    if s != [] && t != [] && s[0] == t[0] {
      CompareToAntisymmetric(s[1..], t[1..]);
    }
  }

  /** Any two strings are comparable. */
  lemma LessEqTotal(s: string, t: string)
    ensures LessEq(s, t) || LessEq(t, s)
  {
    CompareToAntisymmetric(s, t);
  }

  lemma {:induction false} LessEqTransitive(a: string, b: string, c: string)
    requires LessEq(a, b) && LessEq(b, c)
    ensures LessEq(a, c)
  {
    if a != [] && b != [] && c != [] && a[0] == b[0] && b[0] == c[0] {
      LessEqTransitive(a[1..], b[1..], c[1..]);
    }
  }

  /** A proper prefix sorts strictly before the longer string. */
  lemma {:induction false} ProperPrefixSortsFirst(s: string, t: string)
    requires s <= t && |s| < |t|
    ensures CompareTo(s, t) < 0
  {
    if s != [] {
      assert s[0] == t[0];
      assert s[1..] <= t[1..];
      ProperPrefixSortsFirst(s[1..], t[1..]);
    }
  }

  /** Upper-case letters sort before lower-case ones, as the ordinal comparison is case-sensitive. */
  lemma CapitalSortsFirst()
    ensures CompareTo("Bob", "alice") < 0
    ensures CompareTo("alice", "Bob") > 0
  {
  }

  /**
    The first position of ch in s, or |s| when ch does not occur.
  */
  function IndexOfChar(s: string, ch: char): (k: nat)
    ensures k <= |s|
    ensures k < |s| ==> s[k] == ch
    ensures forall i :: 0 <= i < k ==> s[i] != ch
  {
    if s == [] then 0
    else if s[0] == ch then 0
    else 1 + IndexOfChar(s[1..], ch)
  }

  /** A search for ch skips a prefix that does not contain it. */
  lemma {:induction false} IndexOfCharSkips(a: string, b: string, ch: char)
    requires ch !in a
    ensures IndexOfChar(a + b, ch) == |a| + IndexOfChar(b, ch)
  {
    if a == [] {
      assert a + b == b;
    } else {
      assert (a + b)[0] == a[0] && (a + b)[1..] == a[1..] + b;
      IndexOfCharSkips(a[1..], b, ch);
    }
  }
}
