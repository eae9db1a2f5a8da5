/**
 * String helpers shared by the dashboard, the autofill scripts and the routes:
 * JavaScript truthiness of an optional string, prefix and substring tests, ASCII
 * lower-casing, and a code-point lexicographic comparison.
 */
module Text {
  import opened Wrappers

  /** `!x` is false for a JavaScript string exactly when it is present and non-empty. */
  predicate Truthy(s: Option<string>) {
    s.Some? && |s.value| > 0
  }

  predicate StartsWith(s: string, prefix: string) {
    |prefix| <= |s| && s[..|prefix|] == prefix
  }

  /** `String.prototype.includes`, which CSS `[attr*=v]` also uses (an empty needle never matches there). */
  predicate Contains(hay: string, needle: string)
    decreases |hay|
  {
    StartsWith(hay, needle) || (|hay| > 0 && Contains(hay[1..], needle))
  }

  function LowerChar(c: char): char {
    if 'A' <= c <= 'Z' then (c as int + 32) as char else c
  }

  /** ASCII lower-casing, as the URL host parser applies to domain labels. */
  function ToLower(s: string): (r: string)
    ensures |r| == |s|
    ensures forall i :: 0 <= i < |s| ==> r[i] == LowerChar(s[i])
  {
    seq(|s|, i requires 0 <= i < |s| => LowerChar(s[i]))
  }

  /** The prefix of `s` before the first character in `stops` (all of `s` if there is none). */
  function Before(s: string, stops: set<char>): (r: string)
    ensures StartsWith(s, r)
    ensures forall i :: 0 <= i < |r| ==> r[i] !in stops
    ensures |r| < |s| ==> s[|r|] in stops
  {
    if |s| == 0 then ""
    else if s[0] in stops then ""
    else [s[0]] + Before(s[1..], stops)
  }

  /** The suffix of `s` after the last occurrence of `c` (all of `s` if there is none). */
  function AfterLast(s: string, c: char): (r: string)
    ensures |r| <= |s| && r == s[|s| - |r|..]
    ensures forall i :: 0 <= i < |r| ==> r[i] != c
    ensures |r| < |s| ==> s[|s| - |r| - 1] == c
  {
    if |s| == 0 then ""
    else if s[|s| - 1] == c then ""
    else AfterLast(s[..|s| - 1], c) + [s[|s| - 1]]
  }

  /** `Before` of a text whose first part has no stop character and is followed by one. */
  lemma {:induction false} BeforeConcat(a: string, b: string, stops: set<char>)
    requires forall i :: 0 <= i < |a| ==> a[i] !in stops
    requires |b| == 0 || b[0] in stops
    ensures Before(a + b, stops) == a
    decreases |a|
  {
    if |a| > 0 {
      assert (a + b)[1..] == a[1..] + b;
      BeforeConcat(a[1..], b, stops);
      assert a == [a[0]] + a[1..];
    } else {
      assert a + b == b;
    }
  }

  /** Without the character, `AfterLast` is the whole text. */
  lemma {:induction false} AfterLastAbsent(s: string, c: char)
    requires forall i :: 0 <= i < |s| ==> s[i] != c
    ensures AfterLast(s, c) == s
    decreases |s|
  {
    if |s| > 0 {
      AfterLastAbsent(s[..|s| - 1], c);
      assert s == s[..|s| - 1] + [s[|s| - 1]];
    }
  }

  /** Text that contains a needle contains each of its characters. */
  lemma {:induction false} ContainsNeedsChar(hay: string, needle: string, i: nat)
    requires i < |needle| && Contains(hay, needle)
    ensures needle[i] in hay
    decreases |hay|
  {
    if StartsWith(hay, needle) {
      assert hay[..|needle|][i] == needle[i];
    } else {
      ContainsNeedsChar(hay[1..], needle, i);
    }
  }

  /** Text without upper-case letters is its own lower case. */
  lemma ToLowerKeepsLower(s: string)
    requires forall i :: 0 <= i < |s| ==> !('A' <= s[i] <= 'Z')
    ensures ToLower(s) == s
  {
  }

  /**
   * Three-way comparison by code point, the model of `localeCompare`:
   * negative, zero or positive as `a` sorts before, equal to, or after `b`.
   */
  function Compare(a: string, b: string): (c: int)
    ensures -1 <= c <= 1
    ensures c == 0 <==> a == b
  {
    if |a| == 0 && |b| == 0 then 0
    else if |a| == 0 then -1
    else if |b| == 0 then 1
    else if a[0] < b[0] then -1
    else if a[0] > b[0] then 1
    else
      var c := Compare(a[1..], b[1..]);
      assert a == [a[0]] + a[1..] && b == [b[0]] + b[1..];
      c
  }

  lemma {:induction false} CompareAntisymmetric(a: string, b: string)
    ensures Compare(a, b) == -Compare(b, a)
    decreases |a|
  {
    if |a| > 0 && |b| > 0 && a[0] == b[0] {
      CompareAntisymmetric(a[1..], b[1..]);
    }
  }

  lemma {:induction false} CompareTransitive(a: string, b: string, c: string)
    requires Compare(a, b) <= 0 && Compare(b, c) <= 0
    ensures Compare(a, c) <= 0
    decreases |a|
  {
    if |a| > 0 && |b| > 0 && |c| > 0 && a[0] == b[0] && b[0] == c[0] {
      CompareTransitive(a[1..], b[1..], c[1..]);
    }
  }
}
