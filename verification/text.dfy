/**
 * The two string operations the upload script relies on: PHP's `stripos`
 * (case-insensitive substring search, used to count the parts of a file) and
 * the decimal rendering of an integer (used to build the `.part<i>` names the
 * assembly loop reads).
 */
module Text {
  import opened Common

  /** ASCII lower-casing of one character, as `stripos` folds case. */
  function LowerChar(c: char): (r: char)
    ensures 'A' <= c <= 'Z' ==> r as int == c as int + 32
    ensures !('A' <= c <= 'Z') ==> r == c
  {
    if 'A' <= c <= 'Z' then (c as int + 32) as char else c
  }

  /** The needle occurs in the haystack at offset `i`, ignoring ASCII case. */
  predicate MatchesAt(haystack: string, needle: string, i: nat) {
    i + |needle| <= |haystack| &&
    forall j :: 0 <= j < |needle| ==> LowerChar(haystack[i + j]) == LowerChar(needle[j])
  }

  /**
   * `stripos($haystack, $needle)`: the first offset at which the needle
   * occurs, ignoring ASCII case, or `None` where PHP returns `false`.
   * An empty needle occurs at offset 0.
   */
  function Stripos(haystack: string, needle: string): (r: Option<nat>)
    ensures r.Some? ==> MatchesAt(haystack, needle, r.value)
    ensures r.Some? ==> forall j: nat :: j < r.value ==> !MatchesAt(haystack, needle, j)
    ensures r.None? <==> forall j: nat :: !MatchesAt(haystack, needle, j)
  {
    StriposFrom(haystack, needle, 0)
  }

  /** The first match at offset `k` or later. */
  function StriposFrom(haystack: string, needle: string, k: nat): (r: Option<nat>)
    ensures r.Some? ==> k <= r.value && MatchesAt(haystack, needle, r.value)
    ensures r.Some? ==> forall j: nat :: k <= j < r.value ==> !MatchesAt(haystack, needle, j)
    ensures r.None? <==> forall j: nat :: k <= j ==> !MatchesAt(haystack, needle, j)
    decreases |haystack| - k
  {
    if k + |needle| > |haystack| then None
    else if MatchesAt(haystack, needle, k) then Some(k)
    else StriposFrom(haystack, needle, k + 1)
  }

  /** A string contains itself followed by anything: every part name contains its file name. */
  lemma StriposOfExtension(name: string, suffix: string)
    ensures Stripos(name + suffix, name) == Some(0)
  {
    assert MatchesAt(name + suffix, name, 0);
  }

  /** The decimal digit character for `d`. */
  function DigitChar(d: nat): (c: char)
    requires d < 10
    ensures '0' <= c <= '9' && c as int - '0' as int == d
  {
    ('0' as int + d) as char
  }

  /** PHP's rendering of a non-negative integer as a string, as in `'.part'.$i`. */
  function Decimal(n: nat): (s: string)
    ensures |s| >= 1
    ensures forall i :: 0 <= i < |s| ==> '0' <= s[i] <= '9'
    ensures n < 10 <==> |s| == 1
  {
    if n < 10 then [DigitChar(n)] else Decimal(n / 10) + [DigitChar(n % 10)]
  }

  /** The value a string of decimal digits denotes (the partner of `Decimal`). */
  function DecimalValue(s: string): nat
  {
    if s == [] then 0
    else
      var d := s[|s| - 1] as int - '0' as int;
      DecimalValue(s[..|s| - 1]) * 10 + (if 0 <= d then d else 0)
  }

  /** Reading back the rendering of `n` gives `n`. */
  lemma {:induction false} DecimalRoundTrip(n: nat)
    ensures DecimalValue(Decimal(n)) == n
  {
    if n >= 10 {
      var s := Decimal(n);
      assert s[..|s| - 1] == Decimal(n / 10);
      DecimalRoundTrip(n / 10);
    }
  }

  /** Distinct numbers have distinct renderings, so distinct part indices name distinct files. */
  lemma DecimalInjective(a: nat, b: nat)
    requires Decimal(a) == Decimal(b)
    ensures a == b
  {
    DecimalRoundTrip(a);
    DecimalRoundTrip(b);
  }
}
