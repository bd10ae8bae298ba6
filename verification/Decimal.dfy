/** Decimal text of natural numbers, and where it can be read back from a longer text. */
module Decimal {

  function DigitChar(d: nat): char
    requires d < 10
  {
    ('0' as int + d) as char
  }

  function Text(n: nat): (s: string)
    ensures |s| > 0 && forall c <- s :: '0' <= c <= '9'
  {
    if n < 10 then [DigitChar(n)] else Text(n / 10) + [DigitChar(n % 10)]
  }

  function Value(s: string): int {
    if s == [] then 0 else 10 * Value(s[..|s| - 1]) + (s[|s| - 1] as int - '0' as int)
  }

  lemma {:induction false} ValueOfText(n: nat)
    ensures Value(Text(n)) == n
  {
    var s := Text(n);
    if n < 10 {
      assert s[..0] == [];
    } else {
      ValueOfText(n / 10);
      assert s[..|s| - 1] == Text(n / 10);
    }
  }

  /** Different numbers have different texts. */
  lemma TextInjective(m: nat, n: nat)
    requires Text(m) == Text(n)
    ensures m == n
  {
    ValueOfText(m);
    ValueOfText(n);
  }

  /** A separator that occurs in neither tail tells where the tails begin. */
  lemma TailsAgree(a: string, x: string, b: string, y: string, sep: char)
    requires sep !in x && sep !in y
    requires a + ([sep] + x) == b + ([sep] + y)
    ensures a == b && x == y
  {
    var s, t := a + ([sep] + x), b + ([sep] + y);
    assert s[|a|] == sep && t[|b|] == sep;
    assert forall i | |a| < i < |s| :: s[i] == x[i - |a| - 1] && x[i - |a| - 1] in x;
    assert forall i | |b| < i < |t| :: t[i] == y[i - |b| - 1] && y[i - |b| - 1] in y;
    assert |a| == |b|;
    assert a == s[..|a|] && b == t[..|b|];
    assert x == s[|a| + 1..] && y == t[|b| + 1..];
  }
}
