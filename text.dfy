/** Character-level helpers: the allele alphabet, upper-casing, the "chr" deletion
    of `str.replace`, decimal rendering of integers and Python's string order. */
module Text {

  predicate IsBase(c: char) {
    c == 'A' || c == 'C' || c == 'G' || c == 'T'
  }

  /** One or more letters, each of A, C, G, T. */
  predicate IsAlleleText(s: string) {
    |s| > 0 && forall i :: 0 <= i < |s| ==> IsBase(s[i])
  }

  function UpperChar(c: char): char {
    if 'a' <= c <= 'z' then (c as int - 32) as char else c
  }

  /** `str.upper()` on ASCII letters; every other character is kept. */
  function Upper(s: string): string {
    seq(|s|, i requires 0 <= i < |s| => UpperChar(s[i]))
  }

  /** `s.replace("chr", "")`: non-overlapping occurrences, scanned left to right. */
  function DeleteChr(s: string): (r: string)
    ensures |r| <= |s|
    decreases |s|
  {
    if |s| >= 3 && s[..3] == "chr" then DeleteChr(s[3..])
    else if s == [] then []
    else [s[0]] + DeleteChr(s[1..])
  }

  function DigitChar(d: int): char
    requires 0 <= d < 10
  {
    ('0' as int + d) as char
  }

  predicate IsDigit(c: char) {
    '0' <= c <= '9'
  }

  /** Decimal digits of a natural number, most significant first, no leading zero. */
  function NatToString(n: nat): (r: string)
    ensures |r| > 0 && forall i :: 0 <= i < |r| ==> IsDigit(r[i])
    ensures n > 0 ==> r[0] != '0'
  {
    if n < 10 then [DigitChar(n)] else NatToString(n / 10) + [DigitChar(n % 10)]
  }

  /** Python's `str(i)` for an integer. */
  function IntToString(i: int): (r: string)
    ensures i >= 0 ==> '-' !in r
  {
    if i < 0 then "-" + NatToString(-i) else NatToString(i)
  }

  /** Two naturals with the same decimal text are equal. */
  lemma {:induction false} NatToStringInjective(m: nat, n: nat)
    requires NatToString(m) == NatToString(n)
    ensures m == n
  {
    var a, b := NatToString(m), NatToString(n);
    if m >= 10 && n >= 10 {
      assert NatToString(m / 10) == a[..|a| - 1] == b[..|b| - 1] == NatToString(n / 10);
      NatToStringInjective(m / 10, n / 10);
      assert DigitChar(m % 10) == a[|a| - 1] == b[|b| - 1] == DigitChar(n % 10);
    }
  }

  /** Python's `<=` on strings: code point by code point, a proper prefix first. */
  predicate LexLe(a: string, b: string) {
    |a| == 0 || (|b| > 0 && (a[0] < b[0] || (a[0] == b[0] && LexLe(a[1..], b[1..]))))
  }

  lemma {:induction false} LexLeTotal(a: string, b: string)
    ensures LexLe(a, b) || LexLe(b, a)
  {
    if |a| > 0 && |b| > 0 && a[0] == b[0] {
      LexLeTotal(a[1..], b[1..]);
    }
  }

  lemma {:induction false} LexLeAntisymmetric(a: string, b: string)
    requires LexLe(a, b) && LexLe(b, a)
    ensures a == b
  {
    if |a| > 0 && |b| > 0 {
      LexLeAntisymmetric(a[1..], b[1..]);
      assert a == [a[0]] + a[1..] && b == [b[0]] + b[1..];
    }
  }

  lemma {:induction false} LexLeTransitive(a: string, b: string, c: string)
    requires LexLe(a, b) && LexLe(b, c)
    ensures LexLe(a, c)
  {
    if |a| > 0 && |b| > 0 && |c| > 0 && a[0] == b[0] && b[0] == c[0] {
      LexLeTransitive(a[1..], b[1..], c[1..]);
    }
  }

  /** The smaller and the larger of two strings, as numpy's row sort leaves them. */
  function MinText(a: string, b: string): string {
    if LexLe(a, b) then a else b
  }

  function MaxText(a: string, b: string): string {
    if LexLe(a, b) then b else a
  }

  /** Sorting a pair does not depend on the order the pair is given in. */
  lemma MinMaxSymmetric(a: string, b: string)
    ensures MinText(a, b) == MinText(b, a) && MaxText(a, b) == MaxText(b, a)
    ensures {MinText(a, b), MaxText(a, b)} == {a, b}
  {
    LexLeTotal(a, b);
    if LexLe(a, b) && LexLe(b, a) {
      LexLeAntisymmetric(a, b);
    }
  }

  /** `a-b` splits uniquely at its first dash when `a` holds none. */
  lemma {:induction false} SplitAtDash(a: string, b: string, c: string, d: string)
    requires '-' !in a && '-' !in c
    requires a + "-" + b == c + "-" + d
    ensures a == c && b == d
  {
    var x, y := a + "-" + b, c + "-" + d;
    if |a| == 0 || |c| == 0 {
      assert (x[0] == '-') == (|a| == 0);
      assert (y[0] == '-') == (|c| == 0);
      assert x[1..] == b && y[1..] == d;
    } else {
      assert x[0] == a[0] == c[0] == y[0];
      assert x[1..] == a[1..] + "-" + b;
      assert y[1..] == c[1..] + "-" + d;
      assert '-' !in a[1..] by { forall k | 0 <= k < |a[1..]| ensures a[1..][k] != '-' { assert a[1..][k] == a[k + 1]; } }
      assert '-' !in c[1..] by { forall k | 0 <= k < |c[1..]| ensures c[1..][k] != '-' { assert c[1..][k] == c[k + 1]; } }
      SplitAtDash(a[1..], b, c[1..], d);
      assert a == [a[0]] + a[1..] && c == [c[0]] + c[1..];
    }
  }

  /** The number `sort -n` reads from the front of a field: its leading decimal digits. */
  function LeadingNumber(s: string): nat {
    LeadingNumberFrom(s, 0)
  }

  function LeadingNumberFrom(s: string, acc: nat): nat
    decreases |s|
  {
    if s != [] && IsDigit(s[0]) then LeadingNumberFrom(s[1..], acc * 10 + (s[0] as int - '0' as int))
    else acc
  }
}
