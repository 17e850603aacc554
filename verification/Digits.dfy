/** Positional numerals in bases 2 to 36: the part that std::to_chars, std::from_chars and the
    hand-written digit loops of the library share. A numeral is the one lower-case digit string
    without a leading zero that denotes its number. */
module Digits {

  /** The digit a character stands for, upper or lower case; 36 when it stands for none. */
  function DigitOf(c: char): (d: nat)
    ensures d <= 36
  {
    if '0' <= c <= '9' then c as int - '0' as int
    else if 'a' <= c <= 'z' then c as int - 'a' as int + 10
    else if 'A' <= c <= 'Z' then c as int - 'A' as int + 10
    else 36
  }

  const LOWER_DIGITS := "0123456789abcdefghijklmnopqrstuvwxyz"
  const UPPER_DIGITS := "0123456789ABCDEFGHIJKLMNOPQRSTUVWXYZ"

  lemma LowerCodes(d: nat)
    requires d < 36
    ensures LOWER_DIGITS[d] as int == if d < 10 then 48 + d else 87 + d
  {
  }

  lemma UpperCodes(d: nat)
    requires d < 36
    ensures UPPER_DIGITS[d] as int == if d < 10 then 48 + d else 55 + d
  {
  }

  /** The digits in order, in both cases. */
  lemma DigitsAreTheAlphabet(c: char, d: nat)
    requires d < 36
    ensures |LOWER_DIGITS| == |UPPER_DIGITS| == 36
    ensures DigitOf(c) == d <==> c == LOWER_DIGITS[d] || c == UPPER_DIGITS[d]
  {
    LowerCodes(d);
    UpperCodes(d);
    hide LOWER_DIGITS, UPPER_DIGITS;
  }

  /** The lower-case character of a digit. */
  function DigitChar(d: nat): (c: char)
    requires d < 36
    ensures DigitOf(c) == d
    ensures '0' <= c <= '9' || 'a' <= c <= 'z'
  {
    if d < 10 then ('0' as int + d) as char else ('a' as int + (d - 10)) as char
  }

  predicate AllDigits(s: string, base: nat) {
    forall i | 0 <= i < |s| :: DigitOf(s[i]) < base
  }

  /** The number a digit string denotes, most significant digit first. */
  function ValueOf(s: string, base: nat): (n: nat)
    requires AllDigits(s, base)
  {
    if s == [] then 0 else ValueOf(s[..|s| - 1], base) * base + DigitOf(s[|s| - 1])
  }

  lemma ValueOfSnoc(s: string, c: char, base: nat)
    requires AllDigits(s, base) && DigitOf(c) < base
    ensures AllDigits(s + [c], base)
    ensures ValueOf(s + [c], base) == ValueOf(s, base) * base + DigitOf(c)
  {
    assert (s + [c])[..|s|] == s;
  }

  lemma QuotientShrinks(n: nat, base: nat)
    requires 2 <= base <= n
    ensures 0 < n / base < n
  {
  }

  /** The numeral of a number: what std::to_chars writes for a non-negative value. */
  function Numeral(n: nat, base: nat): (s: string)
    requires 2 <= base <= 36
    ensures s != [] && AllDigits(s, base)
    decreases n
  {
    if n < base then [DigitChar(n)]
    else
      QuotientShrinks(n, base);
      Numeral(n / base, base) + [DigitChar(n % base)]
  }

  lemma NumeralUnfold(n: nat, base: nat) returns (q: nat, r: nat)
    requires 2 <= base <= 36 && base <= n
    ensures r < base && q < n && n == q * base + r
    ensures Numeral(n, base) == Numeral(q, base) + [DigitChar(r)]
  {
    QuotientShrinks(n, base);
    q, r := n / base, n % base;
  }

  /** Reading a numeral gives the number back. */
  lemma {:induction false} NumeralRoundTrip(n: nat, base: nat)
    requires 2 <= base <= 36
    ensures ValueOf(Numeral(n, base), base) == n
    decreases n
  {
    if n < base {
      assert Numeral(n, base)[..0] == [];
    } else {
      var q, r := NumeralUnfold(n, base);
      NumeralRoundTrip(q, base);
      ValueOfSnoc(Numeral(q, base), DigitChar(r), base);
    }
  }

  /** A numeral has no leading zero and no upper-case letter. */
  lemma {:induction false} NumeralCanonical(n: nat, base: nat)
    requires 2 <= base <= 36
    ensures Numeral(n, base)[0] == '0' ==> n == 0 && Numeral(n, base) == "0"
    ensures forall i | 0 <= i < |Numeral(n, base)| ::
              '0' <= Numeral(n, base)[i] <= '9' || 'a' <= Numeral(n, base)[i] <= 'z'
    decreases n
  {
    if n >= base {
      QuotientShrinks(n, base);
      NumeralCanonical(n / base, base);
    }
  }

  function Power(base: nat, k: nat): (p: nat)
    ensures base > 0 ==> p > 0
  {
    if k == 0 then 1 else base * Power(base, k - 1)
  }

  lemma QuotientBelow(n: nat, base: nat, bound: nat)
    requires base > 0 && n < base * bound
    ensures n / base < bound
  {
    var q := n / base;
    assert base * (q - bound) == base * q - base * bound;
    if q > bound { MultipleAtLeast(q - bound, base); }
  }

  /** A number below base^k has at most k digits. */
  lemma {:induction false} NumeralFits(n: nat, base: nat, k: nat)
    requires 2 <= base <= 36 && 1 <= k && n < Power(base, k)
    ensures |Numeral(n, base)| <= k
    decreases n
  {
    if n >= base {
      QuotientShrinks(n, base);
      assert k > 1;
      QuotientBelow(n, base, Power(base, k - 1));
      NumeralFits(n / base, base, k - 1);
    }
  }

  predicate LowerCase(s: string) {
    forall i | 0 <= i < |s| :: '0' <= s[i] <= '9' || 'a' <= s[i] <= 'z'
  }

  lemma DigitCharOf(c: char, base: nat)
    requires base <= 36 && DigitOf(c) < base && LowerCase([c])
    ensures DigitChar(DigitOf(c)) == c
  {
    assert [c][0] == c;
  }

  lemma MultipleAtLeast(k: nat, base: nat)
    requires k >= 1
    ensures k * base >= base
  {
    if k > 1 { assert k * base == (k - 1) * base + base; }
  }

  lemma DivideStep(q: nat, base: nat, r: nat)
    requires r < base
    ensures (q * base + r) / base == q && (q * base + r) % base == r
  {
    var n := q * base + r;
    var d, m := n / base, n % base;
    assert (d - q) * base == d * base - q * base;
    assert (q - d) * base == q * base - d * base;
    if d > q { MultipleAtLeast(d - q, base); }
    if d < q { MultipleAtLeast(q - d, base); }
  }

  lemma NumeralSnoc(q: nat, r: nat, base: nat)
    requires 2 <= base <= 36 && q > 0 && r < base
    ensures Numeral(q * base + r, base) == Numeral(q, base) + [DigitChar(r)]
  {
    MultipleAtLeast(q, base);
    DivideStep(q, base, r);
  }

  lemma {:induction false} ValuePositive(s: string, base: nat)
    requires 2 <= base <= 36 && AllDigits(s, base) && s != [] && s[0] != '0' && LowerCase(s)
    ensures ValueOf(s, base) > 0
  {
    var front := s[..|s| - 1];
    if |s| == 1 {
      assert front == [];
    } else {
      ValuePositive(front, base);
      MultipleAtLeast(ValueOf(front, base), base);
    }
  }

  lemma OneDigit(c: char, base: nat)
    requires 2 <= base <= 36 && DigitOf(c) < base && LowerCase([c])
    ensures ValueOf([c], base) == DigitOf(c) && Numeral(DigitOf(c), base) == [c]
  {
    assert [c][..0] == [];
    DigitCharOf(c, base);
  }

  /** The numeral is the only lower-case digit string without a leading zero for its number. */
  lemma {:induction false} NumeralUnique(s: string, base: nat)
    requires 2 <= base <= 36 && AllDigits(s, base) && s != [] && LowerCase(s)
    requires |s| > 1 ==> s[0] != '0'
    ensures s == Numeral(ValueOf(s, base), base)
  {
    hide DigitOf, DigitChar, Numeral;
    var front, c := s[..|s| - 1], s[|s| - 1];
    assert s == front + [c];
    assert LowerCase([c]);
    if |s| == 1 {
      OneDigit(c, base);
    } else {
      DigitCharOf(c, base);
      NumeralUnique(front, base);
      ValuePositive(front, base);
      NumeralSnoc(ValueOf(front, base), DigitOf(c), base);
    }
  }
}
