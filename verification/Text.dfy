/** What several modules share: an option type, distinctness, and the decimal notation of
    the timestamp, the key paths and the shell export. */
module Prelude {
  datatype Option<+T> = None | Some(value: T)

  // No element occurs twice.
  ghost predicate Distinct<T>(s: seq<T>) {
    forall i, j :: 0 <= i < j < |s| ==> s[i] != s[j]
  }

  lemma LastBack<T>(s: seq<T>)
    requires s != []
    ensures s[..|s| - 1] + [s[|s| - 1]] == s
  {
  }
}

module Text {
  import opened Prelude

  predicate IsDigit(c: char) { '0' <= c <= '9' }

  predicate AllDigits(s: string) {
    forall i :: 0 <= i < |s| ==> IsDigit(s[i])
  }

  function DigitValue(c: char): (d: nat)
    requires IsDigit(c)
    ensures d < 10
  {
    c as int - 48
  }

  function DigitChar(d: nat): (c: char)
    requires d < 10
    ensures IsDigit(c) && DigitValue(c) == d
  {
    (48 + d) as char
  }

  // Decimal notation without leading zeros.
  function Decimal(n: nat): (s: string)
    ensures |s| >= 1 && AllDigits(s)
  {
    if n < 10 then [DigitChar(n)] else Decimal(n / 10) + [DigitChar(n % 10)]
  }

  // The number a string of digits denotes; leading zeros are allowed.
  function NumberOf(s: string): nat
    requires AllDigits(s)
  {
    if s == "" then 0 else 10 * NumberOf(s[..|s| - 1]) + DigitValue(s[|s| - 1])
  }

  lemma {:induction false} NumberOfDecimal(n: nat)
    ensures NumberOf(Decimal(n)) == n
  {
    if n < 10 {
      assert Decimal(n)[..0] == "";
    } else {
      NumberOfDecimal(n / 10);
      assert Decimal(n)[..|Decimal(n)| - 1] == Decimal(n / 10);
    }
  }

  lemma DecimalInjective(m: nat, n: nat)
    requires Decimal(m) == Decimal(n)
    ensures m == n
  {
    NumberOfDecimal(m);
    NumberOfDecimal(n);
  }

  function Pow10(w: nat): (p: nat)
    ensures p >= 1
  {
    if w == 0 then 1 else 10 * Pow10(w - 1)
  }

  // The last w decimal digits of n.
  function Fixed(n: nat, w: nat): (s: string)
    ensures |s| == w && AllDigits(s)
  {
    if w == 0 then "" else Fixed(n / 10, w - 1) + [DigitChar(n % 10)]
  }

  // Rust's `{:0w}`: at least w digits, more when the number needs them.
  function Padded(n: nat, w: nat): string {
    if n < Pow10(w) then Fixed(n, w) else Decimal(n)
  }

  lemma NumberOfLast(s: string, c: char)
    requires AllDigits(s) && IsDigit(c)
    ensures NumberOf(s + [c]) == 10 * NumberOf(s) + DigitValue(c)
  {
    assert (s + [c])[..|s|] == s;
  }

  lemma {:induction false} NumberOfFixed(n: nat, w: nat)
    requires n < Pow10(w)
    ensures NumberOf(Fixed(n, w)) == n
  {
    if w > 0 {
      NumberOfFixed(n / 10, w - 1);
      NumberOfLast(Fixed(n / 10, w - 1), DigitChar(n % 10));
    }
  }

  // Character-code order on strings.
  predicate LexLess(s: string, t: string) {
    if t == "" then false
    else if s == "" then true
    else s[0] < t[0] || (s[0] == t[0] && LexLess(s[1..], t[1..]))
  }

  lemma {:induction false} LexCommonPrefix(p: string, s: string, t: string)
    ensures LexLess(p + s, p + t) <==> LexLess(s, t)
  {
    if p == "" {
      assert p + s == s && p + t == t;
    } else {
      LexCommonPrefix(p[1..], s, t);
      assert (p + s)[1..] == p[1..] + s && (p + t)[1..] == p[1..] + t;
    }
  }

  // Numbers of one width compare as their digits do.
  lemma {:induction false} LexFixed(m: nat, n: nat, w: nat, s: string, t: string)
    requires m < Pow10(w) && n < Pow10(w)
    ensures LexLess(Fixed(m, w) + s, Fixed(n, w) + t) <==> m < n || (m == n && LexLess(s, t))
  {
    if w == 0 {
      assert Fixed(m, w) + s == s && Fixed(n, w) + t == t;
    } else {
      var cm, cn := DigitChar(m % 10), DigitChar(n % 10);
      assert Fixed(m, w) + s == Fixed(m / 10, w - 1) + ([cm] + s);
      assert Fixed(n, w) + t == Fixed(n / 10, w - 1) + ([cn] + t);
      LexFixed(m / 10, n / 10, w - 1, [cm] + s, [cn] + t);
      assert ([cm] + s)[1..] == s && ([cn] + t)[1..] == t;
    }
  }
}
