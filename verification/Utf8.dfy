/** UTF-8 as the JSON string parser emits it, against the bit layout of section 3 of RFC 3629.
    A byte is a character whose code is below 256; shifts and masks are written as division and
    remainder. */
module Utf8 {

  const MAX_CODE_POINT := 0x10FFFF

  function Byte(n: nat): (c: char)
    requires n < 0x100
  {
    n as char
  }

  /** The bytes pushed for a code point. Shifts and masks are written as division and
      remainder, `|` on disjoint bits as addition. */
  function Encode(cp: nat): (bytes: string)
    requires cp <= MAX_CODE_POINT
    ensures 1 <= |bytes| <= 4
  {
    if cp <= 0x7F then [Byte(cp)]
    else if cp <= 0x7FF then
      [Byte(0xC0 + cp / 0x40 % 0x20), Byte(0x80 + cp % 0x40)]
    else if cp <= 0xFFFF then
      [Byte(0xE0 + cp / 0x1000 % 0x10), Byte(0x80 + cp / 0x40 % 0x40), Byte(0x80 + cp % 0x40)]
    else
      [Byte(0xF0 + cp / 0x40000 % 0x8), Byte(0x80 + cp / 0x1000 % 0x40),
       Byte(0x80 + cp / 0x40 % 0x40), Byte(0x80 + cp % 0x40)]
  }

  /** A continuation octet 10xxxxxx. */
  predicate Tail(c: char) {
    0x80 <= c as int <= 0xBF
  }

  /** The table of RFC 3629, read from left to right: the octets have the shape of one row and the payload
      lies in that row's range. */
  ghost predicate HasLayout(bytes: string, cp: nat) {
    || (|bytes| == 1 && bytes[0] as int == cp <= 0x7F)
    || (|bytes| == 2 && 0xC0 <= bytes[0] as int <= 0xDF && Tail(bytes[1])
        && cp == (bytes[0] as int - 0xC0) * 0x40 + (bytes[1] as int - 0x80) && 0x80 <= cp <= 0x7FF)
    || (|bytes| == 3 && 0xE0 <= bytes[0] as int <= 0xEF && Tail(bytes[1]) && Tail(bytes[2])
        && cp == (bytes[0] as int - 0xE0) * 0x1000 + (bytes[1] as int - 0x80) * 0x40 + (bytes[2] as int - 0x80)
        && 0x800 <= cp <= 0xFFFF)
    || (|bytes| == 4 && 0xF0 <= bytes[0] as int <= 0xF7 && Tail(bytes[1]) && Tail(bytes[2]) && Tail(bytes[3])
        && cp == (bytes[0] as int - 0xF0) * 0x40000 + (bytes[1] as int - 0x80) * 0x1000
               + (bytes[2] as int - 0x80) * 0x40 + (bytes[3] as int - 0x80)
        && 0x10000 <= cp <= MAX_CODE_POINT)
  }

  predicate Surrogate(cp: nat) {
    0xD800 <= cp <= 0xDFFF
  }

  /** The octet sequence is the character: section 3 of RFC 3629 gives surrogates no sequence. */
  ghost predicate Represents(bytes: string, cp: nat) {
    HasLayout(bytes, cp) && !Surrogate(cp)
  }

  /** The bytes emitted for a code point are the only octet sequence that represents it; for a surrogate
      there is none. */
  lemma EncodeIsRfc3629(cp: nat, bytes: string)
    requires cp <= MAX_CODE_POINT
    ensures Represents(bytes, cp) <==> bytes == Encode(cp) && !Surrogate(cp)
  {
    hide HasLayout, Encode;
    EncodeHasLayout(cp);
    if HasLayout(bytes, cp) { LayoutUnique(bytes, Encode(cp), cp); }
  }

  /** For a lone surrogate, which only a low one can be, three octets are emitted that represent nothing. */
  lemma {:induction false} LoneSurrogate(cp: nat, other: nat)
    requires Surrogate(cp)
    ensures |Encode(cp)| == 3 && Encode(cp)[0] as int == 0xED && 0xA0 <= Encode(cp)[1] as int <= 0xBF
    ensures !Represents(Encode(cp), other)
  {
    EncodeHasLayout(cp);
    var bytes := Encode(cp);
    assert cp / 0x1000 % 0x10 == 0xD && 0x20 <= cp / 0x40 % 0x40;
    hide Encode;
    assert HasLayout(bytes, other) ==> other == cp;
  }

  lemma EncodeHasLayout(cp: nat)
    requires cp <= MAX_CODE_POINT
    ensures HasLayout(Encode(cp), cp)
  {
    if 0x800 <= cp <= 0xFFFF {
      var a, b, c := ThreeGroups(cp);
      assert Encode(cp) == [Byte(0xE0 + a), Byte(0x80 + b), Byte(0x80 + c)];
    } else if 0x10000 <= cp {
      var a, b, c, d := FourGroups(cp);
      assert Encode(cp) == [Byte(0xF0 + a), Byte(0x80 + b), Byte(0x80 + c), Byte(0x80 + d)];
    }
  }

  lemma ThreeGroups(cp: nat) returns (a: nat, b: nat, c: nat)
    requires cp <= 0xFFFF
    ensures a < 0x10 && b < 0x40 && c < 0x40
    ensures a == cp / 0x1000 % 0x10 && b == cp / 0x40 % 0x40 && c == cp % 0x40
    ensures cp == a * 0x1000 + b * 0x40 + c
  {
    a, b, c := cp / 0x1000, cp / 0x40 % 0x40, cp % 0x40;
  }

  lemma FourGroups(cp: nat) returns (a: nat, b: nat, c: nat, d: nat)
    requires cp <= MAX_CODE_POINT
    ensures a < 0x8 && b < 0x40 && c < 0x40 && d < 0x40
    ensures a == cp / 0x40000 % 0x8 && b == cp / 0x1000 % 0x40 && c == cp / 0x40 % 0x40 && d == cp % 0x40
    ensures cp == a * 0x40000 + b * 0x1000 + c * 0x40 + d
  {
    a, b, c, d := cp / 0x40000, cp / 0x1000 % 0x40, cp / 0x40 % 0x40, cp % 0x40;
  }

  lemma LayoutUnique(a: string, b: string, cp: nat)
    requires HasLayout(a, cp) && HasLayout(b, cp)
    ensures a == b
  {
    assert |a| == |b|;
    if |a| == 3 {
      SameGroups(0, a[0] as int - 0xE0, a[1] as int - 0x80, a[2] as int - 0x80,
                 0, b[0] as int - 0xE0, b[1] as int - 0x80, b[2] as int - 0x80);
    } else if |a| == 4 {
      SameGroups(a[0] as int - 0xF0, a[1] as int - 0x80, a[2] as int - 0x80, a[3] as int - 0x80,
                 b[0] as int - 0xF0, b[1] as int - 0x80, b[2] as int - 0x80, b[3] as int - 0x80);
    }
  }

  lemma SameGroups(a: nat, b: nat, c: nat, d: nat, a': nat, b': nat, c': nat, d': nat)
    requires b < 0x40 && c < 0x40 && d < 0x40 && b' < 0x40 && c' < 0x40 && d' < 0x40
    requires a * 0x40000 + b * 0x1000 + c * 0x40 + d == a' * 0x40000 + b' * 0x1000 + c' * 0x40 + d'
    ensures a == a' && b == b' && c == c' && d == d'
  {
  }
}
