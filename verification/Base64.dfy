/** Base64 (section 4 of RFC 4648): the encoder, the strict decoder and the validator, scalar and
    sixteen characters at a time. Shifts and masks are written as division and remainder. */
module Base64 {

  import opened Wrappers

  // ---------- the alphabet ----------

  const UPPER := "ABCDEFGHIJKLMNOPQRSTUVWXYZ"
  const LOWER := "abcdefghijklmnopqrstuvwxyz"
  const OTHERS := "0123456789+/"
  const ALPHABET := UPPER + LOWER + OTHERS
  const INVALID := 255

  /** The decode table. */
  function DecodeValue(c: char): (v: nat)
    ensures v < 64 || v == INVALID
  {
    if 'A' <= c <= 'Z' then c as int - 'A' as int
    else if 'a' <= c <= 'z' then c as int - 'a' as int + 26
    else if '0' <= c <= '9' then c as int - '0' as int + 52
    else if c == '+' then 62
    else if c == '/' then 63
    else INVALID
  }

  predicate IsBase64Char(c: char) {
    DecodeValue(c) != INVALID
  }

  function Digit(v: nat): (c: char)
    requires v < 64
    ensures DecodeValue(c) == v && c != '='
  {
    if v < 26 then ('A' as int + v) as char
    else if v < 52 then ('a' as int + (v - 26)) as char
    else if v < 62 then ('0' as int + (v - 52)) as char
    else if v == 62 then '+' else '/'
  }

  /** The digits are the characters of the alphabet string. */
  lemma AlphabetIsDigits(v: nat)
    requires v < 64
    ensures |ALPHABET| == 64 && ALPHABET[v] == Digit(v)
  {
    hide Digit;
    assert |UPPER| == 26 && |LOWER| == 26 && |OTHERS| == 12;
  }

  lemma DecodeRoundTrip(c: char)
    requires IsBase64Char(c)
    ensures DecodeValue(c) < 64 && Digit(DecodeValue(c)) == c
  {
  }

  // ---------- groups of 24 bits ----------

  /** Three bytes as one 24-bit number. */
  function Join3(a: byte, b: byte, c: byte): (n: nat)
    ensures n < 0x100_0000
  {
    var x: int, y: int, z: int := a, b, c;
    x * 0x1_0000 + y * 0x100 + z
  }

  /** Byte i of a 24-bit number, the high one first. */
  function Octet(n: nat, i: nat): (b: byte)
    requires n < 0x100_0000 && i < 3
  {
    if i == 0 then n / 0x1_0000 else if i == 1 then n / 0x100 % 0x100 else n % 0x100
  }

  /** Six bits of a 24-bit number, the high ones first. */
  function Sextet(n: nat, i: nat): (v: nat)
    requires n < 0x100_0000 && i < 4
    ensures v < 64
  {
    if i == 0 then n / 0x4_0000 else if i == 1 then n / 0x1000 % 0x40 else if i == 2 then n / 0x40 % 0x40 else n % 0x40
  }

  /** Four times six bits as one 24-bit number. */
  function Join4(a: nat, b: nat, c: nat, d: nat): (n: nat)
    requires a < 64 && b < 64 && c < 64 && d < 64
    ensures n < 0x100_0000
  {
    a * 0x4_0000 + b * 0x1000 + c * 0x40 + d
  }

  function Split3(n: nat): (b: seq<byte>)
    requires n < 0x100_0000
    ensures |b| == 3
  {
    [Octet(n, 0), Octet(n, 1), Octet(n, 2)]
  }

  /** The four digits of a 24-bit number. */
  function Digits4(n: nat): (t: string)
    requires n < 0x100_0000
    ensures |t| == 4
  {
    [Digit(Sextet(n, 0)), Digit(Sextet(n, 1)), Digit(Sextet(n, 2)), Digit(Sextet(n, 3))]
  }

  lemma JoinOctets(n: nat)
    requires n < 0x100_0000
    ensures Join3(Octet(n, 0), Octet(n, 1), Octet(n, 2)) == n
  {
  }

  lemma OctetsOfJoin(a: byte, b: byte, c: byte)
    ensures Split3(Join3(a, b, c)) == [a, b, c]
  {
    var x: int, y: int, z: int := a, b, c;
    var n := Join3(a, b, c);
    assert n / 0x100 == x * 0x100 + y;
  }

  lemma SextetsOfJoin(a: nat, b: nat, c: nat, d: nat)
    requires a < 64 && b < 64 && c < 64 && d < 64
    ensures var n := Join4(a, b, c, d); Sextet(n, 0) == a && Sextet(n, 1) == b && Sextet(n, 2) == c && Sextet(n, 3) == d
  {
    var n := Join4(a, b, c, d);
    assert n / 0x40 == a * 0x1000 + b * 0x40 + c;
    assert n / 0x1000 == a * 0x40 + b;
  }

  lemma JoinSextets(n: nat)
    requires n < 0x100_0000
    ensures Join4(Sextet(n, 0), Sextet(n, 1), Sextet(n, 2), Sextet(n, 3)) == n
  {
    var m := n / 0x40;
    var k := m / 0x40;
    assert n == 0x40 * m + n % 0x40 && m == 0x40 * k + m % 0x40 && k == 0x40 * (k / 0x40) + k % 0x40;
    assert n / 0x1000 == k && n / 0x4_0000 == k / 0x40;
  }

  /** One byte leaves the low twelve bits, and so the last two digits, zero. */
  lemma SextetsOfOne(a: byte)
    ensures var n := Join3(a, 0, 0); Sextet(n, 1) % 16 == 0 && Sextet(n, 2) == 0 && Sextet(n, 3) == 0
  {
    var x: int := a;
    var n := Join3(a, 0, 0);
    assert n / 0x1000 == x * 16;
    assert n / 0x40 == x * 0x400;
  }

  lemma Mod64(k: nat, r: nat)
    requires r < 0x40
    ensures (0x40 * k + r) / 0x40 == k && (0x40 * k + r) % 0x40 == r
  {
  }

  lemma SextetsOfTwo(a: byte, b: byte)
    ensures var n := Join3(a, b, 0); Sextet(n, 2) % 4 == 0 && Sextet(n, 3) == 0
  {
    var x: int, y: int := a, b;
    var n := Join3(a, b, 0);
    var m := x * 0x100 + y;
    var k, r := m / 16, m % 16;
    assert n == 0x40 * (4 * m) + 0;
    Mod64(4 * m, 0);
    assert 4 * m == 0x40 * k + 4 * r;
    Mod64(k, 4 * r);
    assert Sextet(n, 2) == 4 * r;
  }

  lemma OctetsOfThreeDigits(a: nat, b: nat, c: nat)
    requires a < 64 && b < 64 && c < 64 && c % 4 == 0
    ensures Octet(Join4(a, b, c, 0), 2) == 0
  {
    var n := Join4(a, b, c, 0);
    assert n == 0x100 * (a * 0x400 + b * 0x10 + c / 4);
  }

  lemma OctetsOfTwoDigits(a: nat, b: nat)
    requires a < 64 && b < 64 && b % 16 == 0
    ensures var n := Join4(a, b, 0, 0); Octet(n, 1) == 0 && Octet(n, 2) == 0
  {
    var n := Join4(a, b, 0, 0);
    assert n == 0x1_0000 * (a * 4 + b / 16);
  }

  // ---------- encoding ----------

  function Encode(b: seq<byte>): (t: string) {
    if b == [] then ""
    else if |b| == 1 then Digits4(Join3(b[0], 0, 0))[..2] + "=="
    else if |b| == 2 then Digits4(Join3(b[0], b[1], 0))[..3] + "="
    else Digits4(Join3(b[0], b[1], b[2])) + Encode(b[3..])
  }

  lemma {:induction false} EncodeLength(b: seq<byte>)
    ensures |Encode(b)| == Encoded(|b|)
  {
    hide Digits4, Join3;
    if |b| >= 3 { EncodeLength(b[3..]); }
  }

  lemma {:induction false} EncodeStep(input: seq<byte>, i: nat, done: string)
    requires i + 3 <= |input|
    ensures var group := Digits4(Join3(input[i], input[i + 1], input[i + 2]));
            done + Encode(input[i..]) == done + group + Encode(input[i + 3..])
  {
    hide Digits4, Join3;
    assert input[i..][3..] == input[i + 3..];
  }

  /** The padded last group, as the program writes it out. */
  function LastGroup(input: seq<byte>, i: nat): (t: string)
    requires i < |input| < i + 3
    ensures t == Encode(input[i..])
  {
    hide Join3, Sextet, Digit;
    var two := i + 1 < |input|;
    var digits := Digits4(Join3(input[i], if two then input[i + 1] else 0, 0));
    [digits[0], digits[1], if two then digits[2] else '=', '=']
  }

  /** The encoder's loop: whole groups of three into a text sized beforehand, then the rest padded. */
  method EncodeFromArray(input: seq<byte>) returns (result: array<char>)
    ensures fresh(result) && result[..] == Encode(input)
  {
    hide Digits4, Join3, Encode, Encoded;
    var size := |input|;
    EncodeLength(input);
    result := new char[Encoded(size)];
    var source, target := 0, 0;
    assert input[0..] == input;
    while source + 3 <= size
      invariant source <= size && target + Encoded(size - source) == result.Length
      invariant result[..target] + Encode(input[source..]) == Encode(input)
    {
      var value := Join3(input[source], input[source + 1], input[source + 2]);
      EncodeStep(input, source, result[..target]);
      GroupLength(size - source);
      Put(result, target, Digits4(value));
      source := source + 3;
      target := target + 4;
    }
    EncodeLength(input[source..]);
    assert Encoded(0) == 0 by { NothingEncoded(); }
    if source < size { Put(result, target, LastGroup(input, source)); }
    assert result[..] == result[..|Encode(input)|];
  }

  /** The length of the encoding of n bytes. */
  function Encoded(n: nat): (len: nat) {
    (n + 2) / 3 * 4
  }

  lemma NothingEncoded()
    ensures Encoded(0) == 0
  {
  }

  lemma GroupLength(n: nat)
    requires n >= 3
    ensures Encoded(n) == Encoded(n - 3) + 4
  {
  }

  /** Writes of successive elements. */
  method Put<T>(a: array<T>, at: nat, what: seq<T>)
    requires at + |what| <= a.Length
    modifies a
    ensures a[..at + |what|] == old(a[..at]) + what
  {
    for k := 0 to |what|
      invariant a[..at + k] == old(a[..at]) + what[..k]
    {
      a[at + k] := what[k];
    }
    assert what[..|what|] == what;
  }

  // ---------- the encoding as a number ----------

  /** A number from its digits, the most significant one first. */
  function Big(digits: seq<nat>, base: nat): (n: nat) {
    if digits == [] then 0 else Big(digits[..|digits| - 1], base) * base + digits[|digits| - 1]
  }

  function Power(base: nat, k: nat): (p: nat) {
    if k == 0 then 1 else Power(base, k - 1) * base
  }

  lemma {:induction false} BigConcat(a: seq<nat>, b: seq<nat>, base: nat)
    ensures Big(a + b, base) == Big(a, base) * Power(base, |b|) + Big(b, base)
  {
    if b == [] {
      assert a + b == a;
    } else {
      var front, last := b[..|b| - 1], b[|b| - 1];
      BigConcat(a, front, base);
      assert (a + b)[..|a + b| - 1] == a + front;
      Distribute(Big(a, base), Power(base, |front|), Big(front, base), base);
    }
  }

  lemma Distribute(x: nat, y: nat, z: nat, base: nat)
    ensures (x * y + z) * base == x * (y * base) + z * base
  {
  }

  /** The bytes as numbers. */
  function Values(b: seq<byte>): (v: seq<nat>)
    ensures |v| == |b|
  {
    seq(|b|, i requires 0 <= i < |b| => b[i])
  }

  lemma BigOfFour(a: nat, b: nat, c: nat, d: nat)
    ensures Big([a], 64) == a && Big([a, b], 64) == a * 64 + b && Big([a, b, c], 64) == (a * 64 + b) * 64 + c
    ensures Big([a, b, c, d], 64) == a * 0x4_0000 + b * 0x1000 + c * 0x40 + d
    ensures Big([a], 256) == a && Big([a, b], 256) == a * 256 + b && Big([a, b, c], 256) == a * 0x1_0000 + b * 0x100 + c
  {
    assert [a, b, c, d][..3] == [a, b, c] && [a, b, c][..2] == [a, b] && [a, b][..1] == [a] && [a][..0] == [];
  }

  /** The number of padding characters, and what the missing bits multiply the number by. */
  function Pads(n: nat): nat {
    if n % 3 == 0 then 0 else 3 - n % 3
  }

  function Shift(n: nat): nat {
    if n % 3 == 0 then 1 else if n % 3 == 1 then 16 else 4
  }

  lemma {:induction false} SamePower(n: nat)
    ensures Power(64, Encoded(n) - Pads(n)) == Power(256, n) * Shift(n)
  {
    if n < 3 {
      assert Power(64, 1) == 64 && Power(64, 2) == 4096 && Power(64, 3) == 262144;
      assert Power(256, 1) == 256 && Power(256, 2) == 65536;
    } else {
      SamePower(n - 3);
      GroupLength(n);
      FourMore(64, Encoded(n - 3) - Pads(n - 3));
      ThreeMore(256, n - 3);
    }
  }

  lemma {:induction false} FourMore(base: nat, k: nat)
    ensures Power(base, k + 4) == Power(base, k) * base * base * base * base
  {
    assert Power(base, k + 1) == Power(base, k) * base;
    assert Power(base, k + 2) == Power(base, k + 1) * base;
    assert Power(base, k + 3) == Power(base, k + 2) * base;
    assert Power(base, k + 4) == Power(base, k + 3) * base;
    hide Power;
  }

  lemma {:induction false} ThreeMore(base: nat, k: nat)
    ensures Power(base, k + 3) == Power(base, k) * base * base * base
  {
    assert Power(base, k + 1) == Power(base, k) * base;
    assert Power(base, k + 2) == Power(base, k + 1) * base;
    assert Power(base, k + 3) == Power(base, k + 2) * base;
    hide Power;
  }

  lemma {:induction false} GroupNumber(v: seq<nat>)
    requires |v| == 3 && v[0] < 256 && v[1] < 256 && v[2] < 256
    ensures var n := v[0] * 0x1_0000 + v[1] * 0x100 + v[2];
            n < 0x100_0000 && Big(v, 256) == n && Big([Sextet(n, 0), Sextet(n, 1), Sextet(n, 2), Sextet(n, 3)], 64) == n
  {
    hide Sextet;
    var n := v[0] * 0x1_0000 + v[1] * 0x100 + v[2];
    assert v == [v[0], v[1], v[2]];
    BigOfFour(v[0], v[1], v[2], 0);
    JoinSextets(n);
    BigOfFour(Sextet(n, 0), Sextet(n, 1), Sextet(n, 2), Sextet(n, 3));
  }

  lemma {:induction false} OneByteNumber(b: seq<byte>) returns (digits: seq<nat>)
    requires |b| == 1
    ensures |digits| == 2 && digits[0] < 64 && digits[1] < 64 && Big(digits, 64) == Big(Values(b), 256) * 16
    ensures Encode(b) == [Digit(digits[0]), Digit(digits[1]), '=', '=']
  {
    hide Sextet, Digit, Big, Join3;
    var x: nat := b[0];
    var n := Join3(x, 0, 0);
    assert n == x * 0x1_0000 by { JoinIs(x, 0); }
    assert Values(b) == [x];
    BigOfFour(x, 0, 0, 0);
    JoinSextets(n);
    SextetsOfOne(x);
    digits := [Sextet(n, 0), Sextet(n, 1)];
    BigOfFour(digits[0], digits[1], 0, 0);
  }

  lemma {:induction false} TwoByteNumber(b: seq<byte>) returns (digits: seq<nat>)
    requires |b| == 2
    ensures |digits| == 3 && digits[0] < 64 && digits[1] < 64 && digits[2] < 64
    ensures Big(digits, 64) == Big(Values(b), 256) * 4
    ensures Encode(b) == [Digit(digits[0]), Digit(digits[1]), Digit(digits[2]), '=']
  {
    hide Sextet, Digit, Big, Join3;
    var x: nat, y: nat := b[0], b[1];
    var n := Join3(x, y, 0);
    assert n == x * 0x1_0000 + y * 0x100 by { JoinIs(x, y); }
    assert Values(b) == [x, y];
    BigOfFour(x, y, 0, 0);
    JoinSextets(n);
    SextetsOfTwo(x, y);
    digits := [Sextet(n, 0), Sextet(n, 1), Sextet(n, 2)];
    BigOfFour(digits[0], digits[1], digits[2], 0);
  }

  lemma JoinIs(x: byte, y: byte)
    ensures Join3(x, y, 0) == x as int * 0x1_0000 + y as int * 0x100
  {
  }

  /** The character has that place in the alphabet. */
  predicate InAlphabet(c: char, v: nat) {
    v < 64 && |ALPHABET| == 64 && c == ALPHABET[v]
  }

  lemma DigitInAlphabet(v: nat)
    requires v < 64
    ensures InAlphabet(Digit(v), v)
  {
    AlphabetIsDigits(v);
  }

  /** Section 4 of RFC 4648: the digits are those of the bytes read as one number, with zero bits added up
      to a whole digit, written with the characters of the alphabet and padded to a multiple of four. */
  lemma {:induction false} EncodesTheNumber(b: seq<byte>) returns (digits: seq<nat>)
    ensures |Encode(b)| % 4 == 0 && |digits| + Pads(|b|) == |Encode(b)|
    ensures forall i | 0 <= i < |digits| :: InAlphabet(Encode(b)[i], digits[i])
    ensures forall i | |digits| <= i < |Encode(b)| :: Encode(b)[i] == '='
    ensures Big(digits, 64) == Big(Values(b), 256) * Shift(|b|)
  {
    hide Digit, InAlphabet, Encode, Big;
    digits := DigitNumbers(b);
    forall i | 0 <= i < |digits| ensures InAlphabet(Encode(b)[i], digits[i]) { DigitInAlphabet(digits[i]); }
  }

  lemma {:induction false} DigitNumbers(b: seq<byte>) returns (digits: seq<nat>)
    ensures |digits| + Pads(|b|) == Encoded(|b|) == |Encode(b)|
    ensures forall i | 0 <= i < |digits| :: digits[i] < 64 && Encode(b)[i] == Digit(digits[i])
    ensures forall i | |digits| <= i < |Encode(b)| :: Encode(b)[i] == '='
    ensures Big(digits, 64) == Big(Values(b), 256) * Shift(|b|)
  {
    hide Digit, Sextet;
    EncodeLength(b);
    if b == [] {
      digits := [];
    } else if |b| == 1 {
      digits := OneByteNumber(b);
    } else if |b| == 2 {
      digits := TwoByteNumber(b);
    } else {
      var rest := DigitNumbers(b[3..]);
      digits := GroupDigits(b, rest);
    }
  }

  lemma {:induction false} GroupDigits(b: seq<byte>, rest: seq<nat>) returns (digits: seq<nat>)
    requires |b| >= 3 && |rest| + Pads(|b| - 3) == Encoded(|b| - 3) == |Encode(b[3..])|
    requires forall i | 0 <= i < |rest| :: rest[i] < 64 && Encode(b[3..])[i] == Digit(rest[i])
    requires forall i | |rest| <= i < |Encode(b[3..])| :: Encode(b[3..])[i] == '='
    requires Big(rest, 64) == Big(Values(b[3..]), 256) * Shift(|b| - 3)
    ensures |digits| == |rest| + 4
    ensures forall i | 0 <= i < |digits| :: digits[i] < 64 && Encode(b)[i] == Digit(digits[i])
    ensures forall i | |digits| <= i < |Encode(b)| :: Encode(b)[i] == '='
    ensures Big(digits, 64) == Big(Values(b), 256) * Shift(|b|)
  {
    hide Digit, Sextet, Big, Join3;
    var n := Join3(b[0], b[1], b[2]);
    var first := [Sextet(n, 0), Sextet(n, 1), Sextet(n, 2), Sextet(n, 3)];
    digits := first + rest;
    assert Encode(b) == Digits4(n) + Encode(b[3..]);
    forall i | 0 <= i < |digits| ensures digits[i] < 64 && Encode(b)[i] == Digit(digits[i]) {
      if i >= 4 { assert digits[i] == rest[i - 4]; }
    }
    NextNumber(b, first, rest);
  }

  lemma {:induction false} NextNumber(b: seq<byte>, first: seq<nat>, rest: seq<nat>)
    requires |b| >= 3 && |rest| == Encoded(|b| - 3) - Pads(|b| - 3)
    requires var n := Join3(b[0], b[1], b[2]); first == [Sextet(n, 0), Sextet(n, 1), Sextet(n, 2), Sextet(n, 3)]
    requires Big(rest, 64) == Big(Values(b[3..]), 256) * Shift(|b| - 3)
    ensures Big(first + rest, 64) == Big(Values(b), 256) * Shift(|b|)
  {
    hide Sextet, Big, Encoded, Pads;
    var v := Values(b);
    GroupNumber(v[..3]);
    assert v == v[..3] + Values(b[3..]);
    BigConcat(first, rest, 64);
    BigConcat(v[..3], Values(b[3..]), 256);
    SamePower(|b| - 3);
    Scaled(Join3(b[0], b[1], b[2]), Power(256, |b| - 3), Big(Values(b[3..]), 256), Shift(|b|));
  }

  lemma Scaled(n: nat, p: nat, r: nat, shift: nat)
    ensures n * (p * shift) + r * shift == (n * p + r) * shift
  {
  }

  // ---------- validation, as the program does it ----------

  function Padding(t: string): (n: nat)
    requires |t| >= 4
    ensures n <= 2
  {
    if t[|t| - 1] != '=' then 0 else if t[|t| - 2] != '=' then 1 else 2
  }

  predicate AllBase64(t: string) {
    forall i | 0 <= i < |t| :: IsBase64Char(t[i])
  }

  /** The pad bits of the last digit are zero (section 3.5 of RFC 4648). */
  predicate CanonicalPad(t: string)
    requires |t| >= 4
  {
    && (Padding(t) == 1 ==> DecodeValue(t[|t| - 2]) % 4 == 0)
    && (Padding(t) == 2 ==> DecodeValue(t[|t| - 3]) % 16 == 0)
  }

  predicate Validate(t: string) {
    t == "" || (|t| % 4 == 0 && AllBase64(t[..|t| - Padding(t)]) && CanonicalPad(t))
  }

  /** The scalar scan. */
  method ValidateScalar(data: string) returns (ok: bool)
    ensures ok == Validate(data)
  {
    if data == "" { return true; }
    if |data| % 4 != 0 { return false; }
    var padding := 0;
    if data[|data| - 1] == '=' {
      padding := 1;
      if data[|data| - 2] == '=' { padding := 2; }
    }
    var alphabetSize := |data| - padding;
    var i := 0;
    while i < alphabetSize
      invariant i <= alphabetSize && AllBase64(data[..i])
    {
      if !IsBase64Char(data[i]) {
        assert data[..alphabetSize][i] == data[i];
        return false;
      }
      i := i + 1;
    }
    if padding == 1 && DecodeValue(data[|data| - 2]) % 4 != 0 { return false; }
    if padding == 2 && DecodeValue(data[|data| - 3]) % 16 != 0 { return false; }
    return true;
  }

  /** The vector test on one character. */
  predicate InRanges(c: char) {
    'A' <= c <= 'Z' || 'a' <= c <= 'z' || '0' <= c <= '9' || c == '+' || c == '/'
  }

  /** The scan sixteen characters at a time, with a scalar tail: the same verdict. */
  method ValidateBlocks(data: string) returns (ok: bool)
    ensures ok == Validate(data)
  {
    if data == "" { return true; }
    if |data| % 4 != 0 { return false; }
    var padding := 0;
    if data[|data| - 1] == '=' {
      padding := 1;
      if data[|data| - 2] == '=' { padding := 2; }
    }
    var alphabetSize := |data| - padding;
    var i := 0;
    while i + 16 <= alphabetSize
      invariant i <= alphabetSize && AllBase64(data[..i])
    {
      var chars := data[i..i + 16];
      var valid := forall lane | 0 <= lane < 16 :: InRanges(chars[lane]);
      if !valid {
        ghost var lane :| 0 <= lane < 16 && !InRanges(chars[lane]);
        assert data[..alphabetSize][i + lane] == chars[lane];
        return false;
      }
      i := i + 16;
    }
    while i < alphabetSize
      invariant i <= alphabetSize && AllBase64(data[..i])
    {
      if !IsBase64Char(data[i]) {
        assert data[..alphabetSize][i] == data[i];
        return false;
      }
      i := i + 1;
    }
    if padding == 1 && DecodeValue(data[|data| - 2]) % 4 != 0 { return false; }
    if padding == 2 && DecodeValue(data[|data| - 3]) % 16 != 0 { return false; }
    return true;
  }

  // ---------- validation, one quantum at a time ----------

  predicate FullQuantum(t: string) {
    |t| == 4 && AllBase64(t)
  }

  predicate LastQuantum(t: string) {
    |t| == 4 && AllBase64(t[..4 - Padding(t)]) && CanonicalPad(t)
  }

  predicate Quanta(t: string) {
    if t == "" then true
    else if |t| <= 4 then LastQuantum(t)
    else FullQuantum(t[..4]) && Quanta(t[4..])
  }

  lemma {:induction false} ValidateIsQuanta(t: string)
    ensures Validate(t) <==> Quanta(t)
  {
    if |t| > 4 {
      var rest := t[4..];
      ValidateIsQuanta(rest);
      if |t| % 4 == 0 {
        assert Padding(rest) == Padding(t);
        var body := t[..|t| - Padding(t)];
        assert body[..4] == t[..4] && body[4..] == rest[..|rest| - Padding(rest)];
        assert AllBase64(body) <==> AllBase64(body[..4]) && AllBase64(body[4..]);
      }
    }
  }

  // ---------- decoding ----------

  /** The digit at i, or zero where padding stands. */
  function At(t: string, i: nat): (v: nat)
    requires i < |t|
    ensures v < 64
  {
    if IsBase64Char(t[i]) then DecodeValue(t[i]) else 0
  }

  function QuantumValue(t: string): (n: nat)
    requires |t| == 4
    ensures n < 0x100_0000
  {
    Join4(At(t, 0), At(t, 1), At(t, 2), At(t, 3))
  }

  function Decode(t: string): (b: seq<byte>)
    requires Quanta(t)
  {
    if t == "" then []
    else if |t| <= 4 then Split3(QuantumValue(t))[..3 - Padding(t)]
    else Split3(QuantumValue(t[..4])) + Decode(t[4..])
  }

  lemma {:induction false} DecodeLength(t: string)
    requires Quanta(t)
    ensures |t| % 4 == 0 && |Decode(t)| == |t| / 4 * 3 - (if t == "" then 0 else Padding(t))
  {
    hide Split3, QuantumValue, FullQuantum;
    if |t| > 4 {
      DecodeLength(t[4..]);
      assert Padding(t) == Padding(t[4..]);
    }
  }

  lemma {:induction false} DecodeStep(data: string, i: nat, done: seq<byte>)
    requires i + 4 < |data| && Quanta(data[i..])
    ensures AllBase64(data[i..i + 4]) && Quanta(data[i + 4..])
    ensures done + Decode(data[i..]) == done + Split3(QuantumValue(data[i..i + 4])) + Decode(data[i + 4..])
  {
    hide LastQuantum, Split3, QuantumValue, AllBase64;
    assert data[i..][4..] == data[i + 4..] && data[i..][..4] == data[i..i + 4];
  }

  /** The number read from four table lookups. */
  lemma FullValue(data: string, i: nat)
    requires i + 4 <= |data| && AllBase64(data[i..i + 4])
    ensures forall k | i <= k < i + 4 :: DecodeValue(data[k]) < 64
    ensures QuantumValue(data[i..i + 4])
            == Join4(DecodeValue(data[i]), DecodeValue(data[i + 1]), DecodeValue(data[i + 2]), DecodeValue(data[i + 3]))
  {
    hide DecodeValue, Join4;
    var q := data[i..i + 4];
    forall k | i <= k < i + 4 ensures IsBase64Char(data[k]) && At(q, k - i) == DecodeValue(data[k]) {
      assert q[k - i] == data[k];
    }
  }

  /** The padding the decoder counts, one bit for each of the last two characters. */
  function PaddingBits(t: string): (n: nat)
    requires |t| >= 2
  {
    (if t[|t| - 1] == '=' then 1 else 0) + (if t[|t| - 2] == '=' then 1 else 0)
  }

  lemma PaddingBitsAgree(t: string)
    requires Validate(t) && t != ""
    ensures PaddingBits(t) == Padding(t)
  {
    hide CanonicalPad;
    if Padding(t) == 0 { assert t[..|t|][|t| - 2] == t[|t| - 2]; }
  }

  /** The number read from the last quantum, without the lookups its padding rules out. */
  function LastValue(t: string): (n: nat)
    requires LastQuantum(t)
    ensures n == QuantumValue(t)
  {
    hide Join4, CanonicalPad;
    var padding := Padding(t);
    assert forall k | 0 <= k < 4 - padding :: t[..4 - padding][k] == t[k];
    Join4(DecodeValue(t[0]), DecodeValue(t[1]),
          if padding < 2 then DecodeValue(t[2]) else 0,
          if padding == 0 then DecodeValue(t[3]) else 0)
  }

  /** The decoder: nothing but a refusal for a text that does not validate, else the bytes. */
  method DecodeTo(data: string) returns (ok: bool, result: array<byte>)
    ensures ok == Validate(data) && fresh(result)
    ensures !ok ==> result.Length == 0
    ensures ok ==> Quanta(data) && result[..] == Decode(data)
  {
    hide Split3, Octet, QuantumValue, Decode, Quanta, Validate, LastQuantum, AllBase64, PaddingBits, DecodeValue, Join4;
    result := new byte[0];
    ok := ValidateScalar(data);
    if !ok { return; }
    ValidateIsQuanta(data);
    DecodeLength(data);
    if data == "" {
      assert Decode(data) == result[..];
      return;
    }
    PaddingBitsAgree(data);
    var padding := PaddingBits(data);
    result := new byte[|data| / 4 * 3 - padding];
    var fullEnd := |data| - 4;
    var source, target := 0, 0;
    ghost var groups, k := |data| / 4, 0;
    assert data[0..] == data;
    while source < fullEnd
      invariant source == 4 * k && target == 3 * k && k + 1 <= groups
      invariant Quanta(data[source..]) && result[..target] + Decode(data[source..]) == Decode(data)
    {
      DecodeStep(data, source, result[..target]);
      FullValue(data, source);
      var value := Join4(DecodeValue(data[source]), DecodeValue(data[source + 1]),
                         DecodeValue(data[source + 2]), DecodeValue(data[source + 3]));
      Put(result, target, Split3(value));
      source, k := source + 4, k + 1;
      target := target + 3;
    }
    DecodeLast(data[fullEnd..]);
    Put(result, target, Split3(LastValue(data[fullEnd..]))[..3 - padding]);
    assert result[..] == result[..|Decode(data)|];
  }

  lemma DecodeLast(t: string)
    requires |t| == 4 && Quanta(t)
    ensures LastQuantum(t) && Decode(t) == Split3(QuantumValue(t))[..3 - Padding(t)]
  {
  }

  lemma AtOfDigit(t: string, i: nat, v: nat)
    requires i < |t| && v < 64 && t[i] == Digit(v)
    ensures IsBase64Char(t[i]) && At(t, i) == v
  {
  }

  lemma {:induction false} FirstDigits(t: string, k: nat)
    requires |t| == 4 && k <= 4 && AllBase64(t[..k])
    ensures Digits4(QuantumValue(t))[..k] == t[..k]
  {
    hide DecodeValue, Digit, Sextet, Join4;
    SextetsOfJoin(At(t, 0), At(t, 1), At(t, 2), At(t, 3));
    var d := Digits4(QuantumValue(t));
    forall i | 0 <= i < k ensures d[i] == t[i] {
      assert t[..k][i] == t[i];
      DecodeRoundTrip(t[i]);
    }
  }

  lemma {:induction false} DigitsQuantum(n: nat)
    requires n < 0x100_0000
    ensures FullQuantum(Digits4(n)) && QuantumValue(Digits4(n)) == n
  {
    hide IsBase64Char, DecodeValue, Digit, Sextet, Join4, At;
    var t := Digits4(n);
    JoinSextets(n);
    forall i | 0 <= i < 4 ensures IsBase64Char(t[i]) && At(t, i) == Sextet(n, i) { AtOfDigit(t, i, Sextet(n, i)); }
  }

  // ---------- decoding undoes encoding ----------

  /** k digits followed by padding read as the group whose other digits are zero. */
  lemma {:induction false} PaddedQuantum(n: nat, t: string, k: nat)
    requires n < 0x100_0000 && 2 <= k <= 3 && |t| == 4 && t[..k] == Digits4(n)[..k]
    requires forall i | k <= i < 4 :: t[i] == '=' && Sextet(n, i) == 0
    ensures AllBase64(t[..k]) && QuantumValue(t) == n && Padding(t) == 4 - k
    ensures DecodeValue(t[k - 1]) == Sextet(n, k - 1)
  {
    hide IsBase64Char, DecodeValue, Digit, Sextet, Join4, At;
    var d := Digits4(n);
    JoinSextets(n);
    forall i | 0 <= i < k ensures t[i] == d[i] { assert t[..k][i] == d[..k][i]; }
    forall i | 0 <= i < 4 ensures At(t, i) == Sextet(n, i) && (i < k ==> IsBase64Char(t[i])) {
      if i < k { AtOfDigit(t, i, Sextet(n, i)); } else { AtOfPad(t, i); }
    }
    assert d[1] != '=' && d[2] != '=';
    assert DecodeValue(t[k - 1]) == Sextet(n, k - 1);
  }

  lemma AtOfPad(t: string, i: nat)
    requires i < |t| && t[i] == '='
    ensures At(t, i) == 0
  {
  }

  lemma {:induction false} OneByte(a: byte)
    ensures var t := Encode([a]); LastQuantum(t) && Padding(t) == 2 && Split3(QuantumValue(t)) == [a, 0, 0]
  {
    hide Digits4, IsBase64Char, DecodeValue, Digit, Sextet, Join4, Join3, At, Split3, QuantumValue, AllBase64;
    var n := Join3(a, 0, 0);
    SextetsOfOne(a);
    var t := Encode([a]);
    assert t[..2] == Digits4(n)[..2];
    PaddedQuantum(n, t, 2);
    OctetsOfJoin(a, 0, 0);
  }

  lemma {:induction false} TwoBytes(a: byte, b: byte)
    ensures var t := Encode([a, b]); LastQuantum(t) && Padding(t) == 1 && Split3(QuantumValue(t)) == [a, b, 0]
  {
    hide Digits4, IsBase64Char, DecodeValue, Digit, Sextet, Join4, Join3, At, Split3, QuantumValue, AllBase64;
    var n := Join3(a, b, 0);
    SextetsOfTwo(a, b);
    var t := Encode([a, b]);
    assert t[..3] == Digits4(n)[..3];
    PaddedQuantum(n, t, 3);
    OctetsOfJoin(a, b, 0);
  }

  lemma {:induction false} ThreeBytes(a: byte, b: byte, c: byte)
    ensures var t := Digits4(Join3(a, b, c)); FullQuantum(t) && Padding(t) == 0 && LastQuantum(t)
    ensures var t := Digits4(Join3(a, b, c)); Split3(QuantumValue(t)) == [a, b, c]
  {
    hide IsBase64Char, DecodeValue, Digit, Sextet, Join4, Join3, At, Split3, QuantumValue, AllBase64;
    var n := Join3(a, b, c);
    DigitsQuantum(n);
    OctetsOfJoin(a, b, c);
    var t := Digits4(n);
    assert t[3] != '=';
    assert t[..4] == t;
  }

  /** Every encoding is accepted and decodes to the bytes it was made from. */
  lemma {:induction false} DecodeEncode(b: seq<byte>)
    ensures Quanta(Encode(b)) && Decode(Encode(b)) == b
  {
    hide Digits4, LastQuantum, FullQuantum, QuantumValue, Split3, Join3, Padding;
    if |b| == 0 {
    } else if |b| == 1 {
      OneByte(b[0]);
      assert b == [b[0]];
    } else if |b| == 2 {
      TwoBytes(b[0], b[1]);
      assert b == [b[0], b[1]];
    } else {
      var t, rest := Digits4(Join3(b[0], b[1], b[2])), Encode(b[3..]);
      DecodeEncode(b[3..]);
      ThreeBytes(b[0], b[1], b[2]);
      assert (t + rest)[..4] == t && (t + rest)[4..] == rest;
      assert b == [b[0], b[1], b[2]] + b[3..];
      if |b| == 3 { assert t + rest == t && [b[0], b[1], b[2]][..3] == b; }
    }
  }

  // ---------- encoding undoes decoding ----------

  lemma {:induction false} LastQuantumEncodes(t: string)
    requires LastQuantum(t)
    ensures Encode(Split3(QuantumValue(t))[..3 - Padding(t)]) == t
  {
    hide Encode, Split3, QuantumValue, CanonicalPad, AllBase64;
    assert t[..4] == t;
    if Padding(t) == 0 { UnpaddedEncodes(t); } else { PaddedEncodes(t); }
  }

  lemma {:induction false} UnpaddedEncodes(t: string)
    requires |t| == 4 && AllBase64(t)
    ensures Encode(Split3(QuantumValue(t))[..3]) == t
  {
    hide Digits4, Join3, Octet, AllBase64, QuantumValue;
    assert t[..4] == t;
    JoinOctets(QuantumValue(t));
    FirstDigits(t, 4);
    var b := Split3(QuantumValue(t));
    assert b[..3] == b && b[3..] == [];
  }

  lemma {:induction false} PaddedEncodes(t: string)
    requires LastQuantum(t) && Padding(t) > 0
    ensures Encode(Split3(QuantumValue(t))[..3 - Padding(t)]) == t
  {
    hide Digits4, Join3, Octet, AllBase64, QuantumValue, CanonicalPad;
    PadOctets(t);
    JoinOctets(QuantumValue(t));
    FirstDigits(t, 4 - Padding(t));
    var b := Split3(QuantumValue(t));
    if Padding(t) == 1 {
      assert b[..2] == [b[0], b[1]];
      assert t == t[..3] + "=";
    } else {
      assert b[..1] == [b[0]];
      assert t == t[..2] + "==";
    }
  }

  lemma {:induction false} PadOctets(t: string)
    requires LastQuantum(t) && Padding(t) > 0
    ensures var b := Split3(QuantumValue(t)); b[2] == 0 && (Padding(t) == 2 ==> b[1] == 0)
  {
    hide Sextet, Join4, Octet;
    AtOfPad(t, 3);
    if Padding(t) == 1 {
      OctetsOfThreeDigits(At(t, 0), At(t, 1), At(t, 2));
    } else {
      AtOfPad(t, 2);
      OctetsOfTwoDigits(At(t, 0), At(t, 1));
    }
  }

  /** Encoding what was decoded gives the accepted text back. */
  lemma {:induction false} EncodeDecode(t: string)
    requires Quanta(t)
    ensures Encode(Decode(t)) == t
  {
    hide Digits4, QuantumValue, Join3, Octet, LastQuantum;
    if t == "" {
    } else if |t| <= 4 {
      LastQuantumEncodes(t);
    } else {
      var q := t[..4];
      assert q[..4] == q;
      var b := Split3(QuantumValue(q));
      EncodeDecode(t[4..]);
      FirstDigits(q, 4);
      JoinOctets(QuantumValue(q));
      var all := b + Decode(t[4..]);
      assert all[3..] == Decode(t[4..]);
      assert t == q + t[4..];
    }
  }

  /** The validator accepts exactly the outputs of the encoder. */
  lemma {:induction false} ValidatesExactlyEncodings(t: string)
    ensures Validate(t) <==> exists b :: t == Encode(b)
  {
    hide Encode, Decode, Validate;
    ValidateIsQuanta(t);
    if Validate(t) { EncodeDecode(t); }
    if b :| t == Encode(b) { DecodeEncode(b); }
  }
}
