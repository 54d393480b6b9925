/** Decimal text of natural numbers, as `str` and format specifications write it. */
module Text {
  predicate IsDigit(c: char) {
    '0' <= c <= '9'
  }

  function DigitChar(d: nat): (c: char)
    requires d < 10
    ensures IsDigit(c)
  {
    ('0' as int + d) as char
  }

  function DigitValue(c: char): nat {
    if IsDigit(c) then c as int - '0' as int else 0
  }

  function Decimal(n: nat): (s: string)
    ensures s != [] && forall c | c in s :: IsDigit(c)
  {
    if n < 10 then [DigitChar(n)] else Decimal(n / 10) + [DigitChar(n % 10)]
  }

  /** The number a digit string denotes. */
  function NumberIn(s: string): nat {
    if s == [] then 0 else 10 * NumberIn(s[..|s| - 1]) + DigitValue(s[|s| - 1])
  }

  lemma {:induction false} DecimalReads(n: nat)
    ensures NumberIn(Decimal(n)) == n
  {
    if n >= 10 {
      DecimalReads(n / 10);
      assert Decimal(n)[..|Decimal(n)| - 1] == Decimal(n / 10);
    } else {
      assert Decimal(n)[..0] == [];
      assert NumberIn([]) == 0;
    }
  }

  lemma DecimalInjective(m: nat, n: nat)
    requires Decimal(m) == Decimal(n)
    ensures m == n
  {
    DecimalReads(m);
    DecimalReads(n);
  }

  function Zeros(n: nat): string {
    seq(n, _ => '0')
  }

  /** Zero padding on the left, as `:04d` writes it. */
  function Padded(n: nat, width: nat): string {
    var digits := Decimal(n);
    Zeros(if |digits| < width then width - |digits| else 0) + digits
  }

  lemma {:induction false} PaddingKeepsNumber(k: nat, s: string)
    ensures NumberIn(Zeros(k) + s) == NumberIn(s)
    decreases |s|, k
  {
    if s == [] {
      if k > 0 {
        assert (Zeros(k) + s)[..k - 1] == Zeros(k - 1) + [];
        PaddingKeepsNumber(k - 1, []);
      }
    } else {
      assert (Zeros(k) + s)[..|Zeros(k) + s| - 1] == Zeros(k) + s[..|s| - 1];
      PaddingKeepsNumber(k, s[..|s| - 1]);
    }
  }

  lemma PaddedInjective(m: nat, n: nat, width: nat)
    requires Padded(m, width) == Padded(n, width)
    ensures m == n
  {
    var a, b := Decimal(m), Decimal(n);
    PaddingKeepsNumber(if |a| < width then width - |a| else 0, a);
    PaddingKeepsNumber(if |b| < width then width - |b| else 0, b);
    DecimalReads(m);
    DecimalReads(n);
  }

  lemma CancelPrefix(head: string, s: string, t: string)
    requires head + s == head + t
    ensures s == t
  {
    assert s == (head + s)[|head|..] && t == (head + t)[|head|..];
  }

  lemma CancelSuffix(s: string, t: string, tail: string)
    requires s + tail == t + tail
    ensures s == t
  {
    assert |s| == |t|;
    assert s == (s + tail)[..|s|] && t == (t + tail)[..|t|];
  }
}
