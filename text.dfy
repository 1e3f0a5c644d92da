// Decimal rendering of non-negative numbers, as a JavaScript template
// literal `${n}` prints them; the store builds identifiers with it.

module Text {

  function DigitChar(d: nat): (c: char)
    requires d < 10
    ensures '0' <= c <= '9'
  {
    ('0' as int + d) as char
  }

  /** The decimal digits of `n`, most significant first, without leading zeros. */
  function NatToString(n: nat): (s: string)
    ensures 1 <= |s|
    ensures n >= 10 ==> 2 <= |s|
    ensures forall i :: 0 <= i < |s| ==> '0' <= s[i] <= '9'
    decreases n
  {
    if n < 10 then [DigitChar(n)] else NatToString(n / 10) + [DigitChar(n % 10)]
  }

  /** Different numbers print differently, so counters give distinct identifiers. */
  lemma {:induction false} NatToStringInjective(a: nat, b: nat)
    requires NatToString(a) == NatToString(b)
    ensures a == b
    decreases a
  {
    var sa, sb := NatToString(a), NatToString(b);
    if a < 10 && b < 10 {
      assert sa[0] == DigitChar(a) && sb[0] == DigitChar(b);
    } else if a >= 10 && b >= 10 {
      var pa, pb := NatToString(a / 10), NatToString(b / 10);
      assert sa == pa + [DigitChar(a % 10)] && sb == pb + [DigitChar(b % 10)];
      assert sa[|sa| - 1] == DigitChar(a % 10) && sb[|sb| - 1] == DigitChar(b % 10);
      assert pa == sa[..|sa| - 1] && pb == sb[..|sb| - 1];
      NatToStringInjective(a / 10, b / 10);
    }
  }

  /** Two identifiers `prefix + NatToString(a)` and `prefix + NatToString(b)` differ when `a != b`. */
  lemma SuffixedDistinct(prefix: string, a: nat, b: nat)
    requires a != b
    ensures prefix + NatToString(a) != prefix + NatToString(b)
  {
    if prefix + NatToString(a) == prefix + NatToString(b) {
      assert (prefix + NatToString(a))[|prefix|..] == NatToString(a);
      assert (prefix + NatToString(b))[|prefix|..] == NatToString(b);
      NatToStringInjective(a, b);
    }
  }
}
