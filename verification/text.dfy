/** Strings as the C++ code sees them: `std::string` ordering (`operator<`)
    and the ASCII character classes behind `isalpha` / `tolower`. */
module Text {

  /** `a < b` on `std::string`: lexicographic over character codes, where a
      proper prefix is smaller than any of its extensions. */
  predicate Less(a: string, b: string)
  {
    if |a| == 0 then |b| > 0
    else if |b| == 0 then false
    else if a[0] != b[0] then a[0] < b[0]
    else Less(a[1..], b[1..])
  }

  lemma {:induction false} LessIrreflexive(a: string)
    ensures !Less(a, a)
  {
    if |a| > 0 {
      LessIrreflexive(a[1..]);
    }
  }

  lemma {:induction false} LessAsymmetric(a: string, b: string)
    requires Less(a, b)
    ensures !Less(b, a)
  {
    if |a| > 0 && |b| > 0 && a[0] == b[0] {
      LessAsymmetric(a[1..], b[1..]);
    }
  }

  lemma {:induction false} LessTransitive(a: string, b: string, c: string)
    requires Less(a, b) && Less(b, c)
    ensures Less(a, c)
  {
    if |a| > 0 && a[0] == b[0] && b[0] == c[0] {
      LessTransitive(a[1..], b[1..], c[1..]);
    }
  }

  /** Any two distinct strings are ordered one way or the other. */
  lemma {:induction false} LessTotal(a: string, b: string)
    ensures a == b || Less(a, b) || Less(b, a)
  {
    if |a| > 0 && |b| > 0 && a[0] == b[0] {
      LessTotal(a[1..], b[1..]);
      if a[1..] == b[1..] {
        assert a == [a[0]] + a[1..] && b == [b[0]] + b[1..];
      }
    }
  }

  /** A string is smaller than every proper extension of it. */
  lemma {:induction false} LessProperPrefix(p: string, x: string)
    requires |x| > 0
    ensures Less(p, p + x)
  {
    if |p| > 0 {
      assert (p + x)[1..] == p[1..] + x;
      LessProperPrefix(p[1..], x);
    }
  }

  /** Two strings that share a prefix and then differ are ordered by the
      first differing character. */
  lemma {:induction false} LessAtBranch(p: string, a: char, b: char, x: string, y: string)
    requires a < b
    ensures Less(p + [a] + x, p + [b] + y)
  {
    if |p| > 0 {
      assert (p + [a] + x)[1..] == p[1..] + [a] + x;
      assert (p + [b] + y)[1..] == p[1..] + [b] + y;
      LessAtBranch(p[1..], a, b, x, y);
    }
  }

  /** Every element is smaller than every later one: sorted, no duplicates. */
  ghost predicate StrictlySorted(s: seq<string>)
  {
    forall i, j :: 0 <= i < j < |s| ==> Less(s[i], s[j])
  }

  /** `isalpha` in the "C" locale. */
  predicate IsAlpha(c: char)
  {
    ('a' <= c <= 'z') || ('A' <= c <= 'Z')
  }

  /** `tolower` in the "C" locale: only 'A'..'Z' change. */
  function LowerChar(c: char): (r: char)
    ensures 'A' <= c <= 'Z' ==> 'a' <= r <= 'z' && r as int - c as int == 32
    ensures !('A' <= c <= 'Z') ==> r == c
  {
    if 'A' <= c <= 'Z' then (c as int + 32) as char else c
  }

  /** Folding is idempotent, keeps letters letters, leaves no upper-case
      letter behind, and identifies two characters exactly when they are
      equal or one is the upper-case form of the other. */
  lemma LowerCharFacts(c: char, d: char)
    ensures LowerChar(LowerChar(c)) == LowerChar(c)
    ensures IsAlpha(LowerChar(c)) <==> IsAlpha(c)
    ensures IsAlpha(c) ==> 'a' <= LowerChar(c) <= 'z'
    ensures !('A' <= LowerChar(c) <= 'Z')
    ensures LowerChar(c) == LowerChar(d) <==>
              || c == d
              || ('A' <= c <= 'Z' && d as int == c as int + 32)
              || ('A' <= d <= 'Z' && c as int == d as int + 32)
  {
  }

  /** `toLower` is idempotent on whole strings. */
  lemma {:induction false} LowerIdempotent(s: string)
    ensures Lower(Lower(s)) == Lower(s)
  {
    forall i | 0 <= i < |s|
      ensures Lower(Lower(s))[i] == Lower(s)[i]
    {
      LowerCharFacts(s[i], s[i]);
    }
  }

  /** `toLower` (NavigateX.cpp:27-30): `tolower` applied to every character. */
  function Lower(s: string): (r: string)
    ensures |r| == |s|
    ensures forall i :: 0 <= i < |s| ==> r[i] == LowerChar(s[i])
  {
    if |s| == 0 then [] else [LowerChar(s[0])] + Lower(s[1..])
  }
}
