/** Integers as text in bases 2 to 36: formatting into a fixed buffer, and the two parsers with their
    overflow tests. The unsigned parser tests before it multiplies; the signed one multiplies
    modulo 2^64 and tests afterwards, which lets some texts through. */
module StrConv {
  import opened Wrappers
  import opened Digits

  const TWO63: int := 0x8000_0000_0000_0000
  const TWO64: int := 0x1_0000_0000_0000_0000

  // ---------- formatting ----------

  const BUFFER := 65

  /** std::to_chars: the numeral, with a sign when negative, or an error when it does not fit. */
  function ToChars(value: int, base: nat, room: nat): (r: Option<string>)
    requires 2 <= base <= 36
  {
    var text := if value < 0 then "-" + Numeral(-value, base) else Numeral(value, base);
    if |text| <= room then Some(text) else None
  }

  /** FormatInt and FormatUint, which differ in the range of the value only. */
  function Format(value: int, base: int): (text: string) {
    if base < 2 || base > 36 then "" else
      match ToChars(value, base, BUFFER)
      case Some(t) => t
      case None => ""
  }

  lemma {:induction false} PowerGrows(base: nat, k: nat)
    requires base >= 2
    ensures Power(base, k) >= Power(2, k)
  {
    if k > 0 {
      PowerGrows(base, k - 1);
      Product(base, Power(base, k - 1));
    }
  }

  lemma Product(base: nat, p: nat)
    requires base >= 2
    ensures base * p >= 2 * p
  {
    assert (base - 2) * p >= 0;
  }

  lemma Power64()
    ensures Power(2, 64) == TWO64
  {
    Power8();
    hide Power;
    PowerAdd(8, 8);
    PowerAdd(16, 16);
    PowerAdd(32, 32);
  }

  lemma Power8()
    ensures Power(2, 8) == 0x100
  {
    assert Power(2, 4) == 16;
  }

  lemma {:induction false} PowerAdd(j: nat, k: nat)
    ensures Power(2, j + k) == Power(2, j) * Power(2, k)
  {
    if j > 0 {
      PowerAdd(j - 1, k);
      assert j - 1 + k == j + k - 1;
    }
  }

  /** The 65-byte buffer always suffices: every 64-bit value, signed or not, is written out. */
  lemma {:induction false} BufferSuffices(value: int, base: int)
    requires 2 <= base <= 36 && -TWO63 <= value < TWO64
    ensures Format(value, base) == if value < 0 then "-" + Numeral(-value, base) else Numeral(value, base)
  {
    hide Numeral, Power;
    Power64();
    PowerGrows(base, 64);
    NumeralFits(if value < 0 then -value else value, base, 64);
  }

  // ---------- what a text denotes ----------

  /** The digits after an optional sign. */
  function Unsigned(s: string): (t: string) {
    if s != "" && (s[0] == '+' || s[0] == '-') then s[1..] else s
  }

  predicate Negative(s: string) {
    s != "" && s[0] == '-'
  }

  /** The base in use and the digits to read: base 0 takes them from a prefix. */
  function Resolve(t: string, base: int): (r: (int, string)) {
    if base != 0 then (base, t)
    else if |t| > 1 && t[0] == '0' && (t[1] == 'x' || t[1] == 'X') then (16, t[2..])
    else if |t| > 1 && t[0] == '0' && (t[1] == 'b' || t[1] == 'B') then (2, t[2..])
    else if |t| > 1 && t[0] == '0' && (t[1] == 'o' || t[1] == 'O') then (8, t[2..])
    else if |t| > 0 && t[0] == '0' then (8, t[1..])
    else (10, t)
  }

  /** The magnitude a text denotes, if it is well formed. */
  function Magnitude(s: string, base: int): (r: Option<nat>) {
    var (used, digits) := Resolve(Unsigned(s), base);
    if 2 <= used <= 36 && digits != "" && AllDigits(digits, used) then Some(ValueOf(digits, used)) else None
  }

  /** Outside the bases 2 to 36 nothing is written, and nothing is read, base 0 apart. */
  lemma BadBasesRefused(value: int, s: string, base: int)
    requires !(2 <= base <= 36)
    ensures Format(value, base) == "" && (base != 0 ==> Magnitude(s, base) == None)
  {
  }

  // ---------- the digit loops ----------

  lemma {:induction false} PrefixBelow(t: string, base: nat, i: nat)
    requires i <= |t| && base >= 1 && AllDigits(t, base)
    ensures AllDigits(t[..i], base) && ValueOf(t[..i], base) <= ValueOf(t, base)
    decreases |t|
  {
    hide DigitOf;
    if i == |t| {
      assert t[..i] == t;
    } else {
      var front := t[..|t| - 1];
      PrefixBelow(front, base, i);
      assert front[..i] == t[..i];
      AtLeast(ValueOf(front, base), base);
    }
  }

  lemma AtLeast(n: nat, base: nat)
    requires base >= 1
    ensures n * base >= n
  {
    assert n * (base - 1) >= 0;
  }

  lemma {:induction false} NextPrefix(t: string, base: nat, i: nat)
    requires i < |t| && AllDigits(t[..i], base) && DigitOf(t[i]) < base
    ensures AllDigits(t[..i + 1], base)
    ensures ValueOf(t[..i + 1], base) == ValueOf(t[..i], base) * base + DigitOf(t[i])
  {
    hide DigitOf, ValueOf;
    ValueOfSnoc(t[..i], t[i], base);
    assert t[..i + 1] == t[..i] + [t[i]];
  }

  lemma EmptyPrefix(t: string, base: nat)
    ensures AllDigits(t[..0], base) && ValueOf(t[..0], base) == 0
  {
  }

  lemma {:induction false} BadDigit(t: string, base: nat, i: nat)
    requires i < |t| && DigitOf(t[i]) >= base
    ensures !AllDigits(t, base)
  {
  }

  lemma ProductBound(value: nat, base: nat, digit: nat, max: nat)
    requires 0 < base && digit <= max
    ensures value > (max - digit) / base <==> value * base + digit > max
  {
    var q := (max - digit) / base;
    var r := (max - digit) % base;
    assert max - digit == q * base + r;
    assert value * base - q * base == (value - q) * base;
    if value > q { MultipleAtLeast(value - q, base); } else { Multiple(q - value, base); }
  }

  lemma Multiple(k: nat, base: nat)
    ensures k * base >= 0 && (0 - k) * base == -(k * base)
  {
  }

  /** What an unsigned parser promises: the denoted number when it fits. */
  function UintOf(s: string, base: int, bitSize: int): (r: Option<nat>) {
    match Magnitude(s, base)
    case Some(n) =>
      if !Negative(s) && n < TWO64 && (bitSize == 32 ==> n < 0x1_0000_0000) then Some(n) else None
    case None => None
  }

  /** The unsigned parser: exactly the denoted number below 2^64, with no step wrapping. */
  method ParseUint(s: string, base: int, bitSize: int) returns (r: Option<nat>)
    ensures r == UintOf(s, base, bitSize)
  {
    hide DigitOf, ValueOf;
    if s == "" || s[0] == '-' { return None; }
    var (used, t) := Resolve(Unsigned(s), base);
    if used < 2 || used > 36 { return None; }
    if t == "" { return None; }
    var value := 0;
    EmptyPrefix(t, used);
    for i := 0 to |t|
      invariant AllDigits(t[..i], used) && value == ValueOf(t[..i], used) < TWO64
    {
      var digit := DigitOf(t[i]);
      if digit >= used {
        BadDigit(t, used, i);
        return None;
      }
      NextPrefix(t, used, i);
      ProductBound(value, used, digit, TWO64 - 1);
      if value > (TWO64 - 1 - digit) / used {
        if AllDigits(t, used) { PrefixBelow(t, used, i + 1); }
        return None;
      }
      value := value * used + digit;
    }
    assert t[..|t|] == t;
    if bitSize == 0 || bitSize == 64 { return Some(value); }
    if bitSize == 32 && value > 0xFFFF_FFFF { return None; }
    return Some(value);
  }

  // ---------- the signed parser ----------

  /** The largest magnitude the loop lets through. */
  function Limit(s: string): (n: nat)
    ensures n == TWO63 - 1 || n == TWO63
  {
    if Negative(s) then TWO63 else TWO63 - 1
  }

  /** Every prefix, reduced modulo 2^64, stays within the limit: the test the loop really makes. */
  predicate WithinModulo(t: string, base: nat, limit: nat)
    requires AllDigits(t, base)
  {
    forall i | 0 <= i <= |t| :: ReducedPrefix(t, base, i) <= limit
  }

  function ReducedPrefix(t: string, base: nat, i: nat): (n: nat)
    requires i <= |t| && AllDigits(t, base)
    ensures n < TWO64
  {
    ValueOf(t[..i], base) % TWO64
  }

  function InBits(value: int, bitSize: int): (r: Option<int>) {
    if bitSize == 32 && !(-0x8000_0000 <= value < 0x8000_0000) then None else Some(value)
  }

  function Sign(s: string, n: int): (v: int) {
    if Negative(s) then -n else n
  }

  /** What a 64-bit parser promises: the denoted number when it fits. */
  function Ideal(s: string, base: int, bitSize: int): (r: Option<int>) {
    match Magnitude(s, base)
    case Some(n) => if n <= Limit(s) then InBits(Sign(s, n), bitSize) else None
    case None => None
  }

  /** A number and each of its quotients by the base, reduced modulo 2^64, stay within the limit. */
  predicate Slips(n: nat, base: nat, limit: nat)
    requires base >= 2
    decreases n
  {
    n % TWO64 <= limit && (n < base || (QuotientShrinks(n, base); Slips(n / base, base, limit)))
  }

  /** What the parser computes. */
  function Computed(s: string, base: int, bitSize: int): (r: Option<int>) {
    match Magnitude(s, base)
    case Some(n) =>
      if Slips(n, Resolve(Unsigned(s), base).0, Limit(s)) then InBits(Sign(s, n % TWO64), bitSize) else None
    case None => None
  }

  lemma ReduceStep(v: nat, base: nat, digit: nat)
    ensures ((v % TWO64) * base + digit) % TWO64 == (v * base + digit) % TWO64
  {
    var q, r := v / TWO64, v % TWO64;
    assert v == q * TWO64 + r;
    assert v * base + digit == (q * base) * TWO64 + (r * base + digit);
    ModuloMultiple(q * base, r * base + digit);
  }

  lemma ModuloMultiple(k: nat, n: nat)
    ensures (k * TWO64 + n) % TWO64 == n % TWO64
  {
    var q, r := n / TWO64, n % TWO64;
    assert n == q * TWO64 + r;
    assert k * TWO64 + n == (k + q) * TWO64 + r;
    DivideStep(k + q, TWO64, r);
  }

  lemma {:induction false} PrefixReduced(t: string, base: nat, i: nat, limit: nat, value: nat)
    requires i < |t| && AllDigits(t, base) && value == ValueOf(t[..i + 1], base) % TWO64 && value > limit
    ensures !WithinModulo(t, base, limit)
  {
    assert ReducedPrefix(t, base, i + 1) > limit;
  }

  /** The signed parser, whose product is taken modulo 2^64 before it is tested. */
  method ParseInt(s: string, base: int, bitSize: int) returns (r: Option<int>)
    ensures r == Computed(s, base, bitSize)
  {
    hide DigitOf, ValueOf, WithinModulo;
    if s == "" { return None; }
    var negative := s[0] == '-';
    var (used, t) := Resolve(Unsigned(s), base);
    if used < 2 || used > 36 { return None; }
    if t == "" { return None; }
    var value := 0;
    EmptyPrefix(t, used);
    for i := 0 to |t|
      invariant AllDigits(t[..i], used) && value == ValueOf(t[..i], used) % TWO64 <= Limit(s)
      invariant forall k | 0 <= k <= i :: AllDigits(t[..k], used) && ValueOf(t[..k], used) % TWO64 <= Limit(s)
    {
      var digit := DigitOf(t[i]);
      if digit >= used {
        BadDigit(t, used, i);
        return None;
      }
      NextPrefix(t, used, i);
      ReduceStep(ValueOf(t[..i], used), used, digit);
      var next := (value * used + digit) % TWO64;
      if next > (if negative then TWO63 else TWO63 - 1) {
        if AllDigits(t, used) {
          PrefixReduced(t, used, i, Limit(s), next);
          WithinIsSlips(t, used, Limit(s));
        }
        return None;
      }
      value := next;
    }
    assert t[..|t|] == t;
    AllWithin(t, used, Limit(s));
    WithinIsSlips(t, used, Limit(s));
    if negative { value := -value; }
    if bitSize == 0 || bitSize == 64 { return Some(value); }
    if bitSize == 32 {
      if value < -0x8000_0000 || value > 0x7FFF_FFFF { return None; }
    }
    return Some(value);
  }

  lemma {:induction false} AllWithin(t: string, base: nat, limit: nat)
    requires AllDigits(t, base)
    requires forall k | 0 <= k <= |t| :: AllDigits(t[..k], base) && ValueOf(t[..k], base) % TWO64 <= limit
    ensures WithinModulo(t, base, limit)
  {
    hide ValueOf, DigitOf;
  }

  lemma {:induction false} SmallSlips(n: nat, base: nat, limit: nat)
    requires base >= 2 && n <= limit < TWO64
    ensures Slips(n, base, limit)
    decreases n
  {
    if n >= base {
      QuotientShrinks(n, base);
      SmallSlips(n / base, base, limit);
    }
  }

  /** The prefixes of a numeral are the quotients of its number. */
  lemma {:induction false} WithinIsSlips(t: string, base: nat, limit: nat)
    requires 2 <= base && AllDigits(t, base) && limit < TWO64
    ensures WithinModulo(t, base, limit) <==> Slips(ValueOf(t, base), base, limit)
    decreases |t|
  {
    hide DigitOf;
    if t == "" {
      assert t[..0] == t;
      assert WithinModulo(t, base, limit);
    } else {
      var front, c := t[..|t| - 1], t[|t| - 1];
      var q, n := ValueOf(front, base), ValueOf(t, base);
      WithinIsSlips(front, base, limit);
      WithinSplit(t, base, limit);
      DivideStep(q, base, DigitOf(c));
      hide WithinModulo, ValueOf;
      if n < base {
        QuotientOfSmall(n, base);
        SmallSlips(0, base, limit);
      }
    }
  }

  lemma QuotientOfSmall(n: nat, base: nat)
    requires n < base
    ensures n / base == 0
  {
    DivideStep(0, base, n);
  }

  lemma {:induction false} WithinSplit(t: string, base: nat, limit: nat)
    requires t != "" && AllDigits(t, base)
    ensures var front := t[..|t| - 1];
            WithinModulo(t, base, limit) <==> WithinModulo(front, base, limit) && ValueOf(t, base) % TWO64 <= limit
  {
    hide ValueOf, DigitOf;
    var front := t[..|t| - 1];
    assert t[..|t|] == t;
    forall i | 0 <= i <= |front| ensures ReducedPrefix(t, base, i) == ReducedPrefix(front, base, i) {
      assert t[..i] == front[..i];
    }
    assert ReducedPrefix(t, base, |t|) == ValueOf(t, base) % TWO64;
  }

  // ---------- when the signed parser keeps its promise ----------

  /** The numbers that get past the tests by wrapping: too large, yet they and all their quotients reduce to
      within the limit. */
  predicate Escapes(n: nat, base: nat, negative: bool, bitSize: int)
    requires base >= 2
  {
    var limit := if negative then TWO63 else TWO63 - 1;
    var reduced := if negative then -(n % TWO64) else n % TWO64;
    n > limit && Slips(n, base, limit) && (bitSize == 32 ==> -0x8000_0000 <= reduced < 0x8000_0000)
  }

  /** On a well-formed text the parser keeps its promise exactly when the number does not escape; other texts
      it refuses, as it should. */
  lemma {:induction false} ParseIntExact(s: string, base: int, bitSize: int)
    ensures match Magnitude(s, base)
            case Some(n) =>
              Computed(s, base, bitSize) == Ideal(s, base, bitSize)
              <==> !Escapes(n, Resolve(Unsigned(s), base).0, Negative(s), bitSize)
            case None => Computed(s, base, bitSize) == Ideal(s, base, bitSize) == None
  {
    hide Slips, ValueOf, AllDigits;
    match Magnitude(s, base)
    case None =>
    case Some(n) => if n <= Limit(s) { SmallSlips(n, Resolve(Unsigned(s), base).0, Limit(s)); }
  }

  /** No number below 2^64 escapes. */
  lemma {:induction false} NoEscapeBelow64(n: nat, base: nat, negative: bool, bitSize: int)
    requires base >= 2 && n < TWO64
    ensures !Escapes(n, base, negative, bitSize)
  {
  }

  /** In base 2 no non-negative number escapes: the first quotient that is too large still has 64 bits. */
  lemma {:induction false} BinaryNeverEscapes(n: nat, bitSize: int)
    ensures !Escapes(n, 2, false, bitSize)
  {
    if Slips(n, 2, TWO63 - 1) { BinarySlips(n); }
  }

  lemma {:induction false} BinarySlips(n: nat)
    requires Slips(n, 2, TWO63 - 1)
    ensures n < TWO63
    decreases n
  {
    if n >= 2 { BinarySlips(n / 2); }
  }

  /** In every other base 2^64 + k escapes, for every k below 2^63, and is taken for k:
      "18446744073709551620" reads as 4. */
  lemma {:induction false} WrappedNumeral(k: nat, base: nat)
    requires 3 <= base <= 36 && k < TWO63
    ensures var s := Numeral(TWO64 + k, base); Ideal(s, base, 64) == None && Computed(s, base, 64) == Some(k)
  {
    hide Numeral, ValueOf, DigitOf, AllDigits;
    var n := TWO64 + k;
    NumeralMagnitude(n, base);
    QuotientBound(n, base);
    SmallSlips(n / base, base, TWO63 - 1);
    assert n % TWO64 == k;
    assert Slips(n, base, TWO63 - 1);
  }

  lemma QuotientBound(n: nat, base: nat)
    requires 3 <= base <= 36 && n < TWO64 + TWO63
    ensures n / base < TWO63
  {
    var q := n / base;
    assert (base - 3) * q >= 0;
    assert q * base + n % base == n;
  }

  // ---------- formatting and parsing ----------

  lemma SignIsNoDigit(t: string, base: nat)
    requires base <= 36 && t != "" && AllDigits(t, base)
    ensures Unsigned(t) == t && !Negative(t)
  {
    assert DigitOf('+') == 36 && DigitOf('-') == 36;
  }

  lemma {:induction false} NumeralMagnitude(n: nat, base: nat)
    requires 2 <= base <= 36
    ensures var t := Numeral(n, base); Unsigned(t) == t && !Negative(t) && Magnitude(t, base) == Some(n)
  {
    hide Numeral, ValueOf, DigitOf;
    SignIsNoDigit(Numeral(n, base), base);
    NumeralRoundTrip(n, base);
  }

  /** A number written with a sign when negative. */
  function SignedNumeral(v: int, base: nat): (s: string)
    requires 2 <= base <= 36
  {
    if v < 0 then "-" + Numeral(-v, base) else Numeral(v, base)
  }

  lemma {:induction false} SignedMagnitude(v: int, base: nat)
    requires 2 <= base <= 36
    ensures var s := SignedNumeral(v, base);
            Magnitude(s, base) == Some(if v < 0 then -v else v) && (Negative(s) <==> v < 0)
  {
    hide Numeral, ValueOf, DigitOf;
    var digits := Numeral(if v < 0 then -v else v, base);
    NumeralMagnitude(if v < 0 then -v else v, base);
    if v < 0 { assert Unsigned("-" + digits) == digits; }
  }

  /** What the parsers promise, of every integer, written in any base: it is returned if it is in the range
      of the type asked for, and refused otherwise. */
  lemma {:induction false} PromisedRange(v: int, base: int, bitSize: int)
    requires 2 <= base <= 36
    ensures var s := SignedNumeral(v, base);
            Ideal(s, base, bitSize)
            == if bitSize == 32 && -2147483648 <= v <= 2147483647 then Some(v)
               else if bitSize != 32 && -9223372036854775808 <= v <= 9223372036854775807 then Some(v) else None
    ensures var s := SignedNumeral(v, base);
            UintOf(s, base, bitSize)
            == if bitSize == 32 && 0 <= v <= 4294967295 then Some(v)
               else if bitSize != 32 && 0 <= v <= 18446744073709551615 then Some(v) else None
  {
    hide Magnitude, SignedNumeral;
    SignedMagnitude(v, base);
  }

  /** Parsing what was formatted gives every unsigned 64-bit value back, if it fits the size asked for. */
  lemma {:induction false} UintRoundTrip(value: nat, base: int, bitSize: int)
    requires 2 <= base <= 36 && value < TWO64
    ensures UintOf(Format(value, base), base, bitSize) == if bitSize == 32 && value > 4294967295 then None else Some(value)
  {
    hide Numeral, UintOf;
    BufferSuffices(value, base);
    PromisedRange(value, base, bitSize);
  }

  /** Parsing what was formatted gives every signed 64-bit value back, if it fits the size asked for. */
  lemma {:induction false} IntRoundTrip(value: int, base: int, bitSize: int)
    requires 2 <= base <= 36 && -TWO63 <= value < TWO63
    ensures Computed(Format(value, base), base, bitSize)
            == if bitSize == 32 && !(-2147483648 <= value <= 2147483647) then None else Some(value)
  {
    hide Numeral, Magnitude, Ideal, Computed, Escapes;
    BufferSuffices(value, base);
    PromisedRange(value, base, bitSize);
    SignedMagnitude(value, base);
    ParseIntExact(Format(value, base), base, bitSize);
    NoEscapeBelow64(if value < 0 then -value else value, Resolve(Unsigned(Format(value, base)), base).0, value < 0, bitSize);
  }

  /** Formatting what was parsed gives back every text without sign, capital or leading zero. */
  lemma {:induction false} CanonicalTextReturns(s: string, base: int)
    requires 2 <= base <= 36 && UintOf(s, base, 64).Some? && Unsigned(s) == s
    requires LowerCase(s) && (|s| > 1 ==> s[0] != '0')
    ensures Format(UintOf(s, base, 64).value, base) == s
  {
    hide Numeral, ValueOf, DigitOf;
    NumeralUnique(s, base);
    BufferSuffices(UintOf(s, base, 64).value, base);
  }

  lemma {:induction false} LeadingZero(t: string, base: nat)
    requires t != "" && t[0] == '0' && AllDigits(t, base)
    ensures AllDigits(t[1..], base) && ValueOf(t[1..], base) == ValueOf(t, base)
    decreases |t|
  {
    var front := t[..|t| - 1];
    if |t| == 1 {
      assert front == "" && t[1..] == "";
    } else {
      LeadingZero(front, base);
      assert t[1..][..|t| - 2] == front[1..];
    }
  }

  /** With base 0, octal digits after a leading zero are read as the octal number, except "0" itself, which
      is refused because taking the prefix off leaves no digit. */
  lemma {:induction false} OctalByPrefix(s: string)
    requires var t := Unsigned(s); t != "" && t[0] == '0' && AllDigits(t, 8)
    ensures var t := Unsigned(s); Magnitude(s, 0) == if t == "0" then None else Some(ValueOf(t, 8))
  {
    var t := Unsigned(s);
    if |t| > 1 { assert DigitOf(t[1]) < 8; }
    LeadingZero(t, 8);
    hide ValueOf;
    assert Resolve(t, 0) == (8, t[1..]);
    assert t[1..] == "" <==> t == "0";
  }

  /** The prefixes that choose the base when none is given. */
  const PREFIXES: seq<(string, nat)> := [("0x", 16), ("0X", 16), ("0b", 2), ("0B", 2), ("0o", 8), ("0O", 8), ("0", 8)]

  lemma {:induction false} PrefixResolves(k: nat, digits: string)
    requires k < |PREFIXES| && digits != "" && DigitOf(digits[0]) < PREFIXES[k].1
    ensures Resolve(PREFIXES[k].0 + digits, 0) == (PREFIXES[k].1, digits)
  {
    var t := PREFIXES[k].0 + digits;
    assert |t| > 1 && t[0] == '0';
    if k < 6 {
      assert t[1] == PREFIXES[k].0[1] && t[2..] == digits;
    } else {
      assert t[1] == digits[0] && t[1..] == digits;
    }
  }

  lemma {:induction false} SignTaken(sign: string, t: string)
    requires sign in ["", "+", "-"] && t != "" && t[0] != '+' && t[0] != '-'
    ensures Unsigned(sign + t) == t && (Negative(sign + t) <==> sign == "-")
  {
    assert sign + t == if sign == "" then t else [sign[0]] + t;
  }

  lemma GivenBase(t: string, base: int)
    requires base != 0
    ensures Resolve(t, base) == (base, t)
  {
  }

  lemma {:induction false} NumeralStart(n: nat, base: nat)
    requires 2 <= base <= 36
    ensures Numeral(n, base)[0] != '+' && Numeral(n, base)[0] != '-' && (n > 0 ==> Numeral(n, base)[0] != '0')
  {
    hide Numeral;
    NumeralCanonical(n, base);
    var t := Numeral(n, base);
    assert '0' <= t[0] <= '9' || 'a' <= t[0] <= 'z';
  }

  lemma {:induction false} DecimalWithoutPrefix(sign: string, n: nat)
    requires sign in ["", "+", "-"] && n > 0
    ensures Magnitude(sign + Numeral(n, 10), 0) == Some(n)
  {
    hide Numeral, ValueOf, DigitOf;
    NumeralRoundTrip(n, 10);
    NumeralStart(n, 10);
    SignTaken(sign, Numeral(n, 10));
  }

  lemma PrefixBases(k: nat)
    requires k < |PREFIXES|
    ensures 2 <= PREFIXES[k].1 <= 36 && PREFIXES[k].0 != "" && PREFIXES[k].0[0] == '0'
  {
  }

  /** With base 0, after any sign: each prefix makes the number that follows be read in its base, and
      without a leading zero the base is ten. With another base there is no prefix. */
  lemma {:induction false} PrefixChoosesBase(k: nat, sign: string, n: nat, base: nat)
    requires k < |PREFIXES| && sign in ["", "+", "-"] && 2 <= base <= 36
    requires 2 <= PREFIXES[k].1 <= 36
    ensures var s := sign + (PREFIXES[k].0 + Numeral(n, PREFIXES[k].1));
            Magnitude(s, 0) == Some(n) && (Negative(s) <==> sign == "-")
    ensures n > 0 ==> Magnitude(sign + Numeral(n, 10), 0) == Some(n)
    ensures var s := sign + Numeral(n, base); Magnitude(s, base) == Some(n) && (Negative(s) <==> sign == "-")
  {
    hide Numeral, ValueOf, DigitOf, Resolve, PREFIXES, Unsigned, Negative;
    PrefixBases(k);
    var d, t := Numeral(n, PREFIXES[k].1), Numeral(n, base);
    NumeralRoundTrip(n, PREFIXES[k].1);
    PrefixResolves(k, d);
    assert (PREFIXES[k].0 + d)[0] == '0';
    SignTaken(sign, PREFIXES[k].0 + d);
    NumeralRoundTrip(n, base);
    NumeralStart(n, base);
    SignTaken(sign, t);
    GivenBase(t, base);
    if n > 0 { DecimalWithoutPrefix(sign, n); }
  }
}
