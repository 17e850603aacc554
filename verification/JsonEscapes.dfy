/** The escapes of a string body, against section 7 of RFC 8259 character by character. */
module JsonEscapes {
  // The parser, the grammar and the printer share the tables of escapes, spaces and surrogates;
  // here the tables are tied to their literal contents.

  import opened Wrappers
  import opened Digits
  import opened JsonGrammar
  import opened JsonParser
  import Utf8

  /** The two-character escapes: what follows the backslash, and what it stands for. */
  const SHORT_ESCAPES: seq<(char, char)> :=
    [('\"', '\"'), ('\\', '\\'), ('/', '/'), ('b', 8 as char), ('f', 12 as char), ('n', 10 as char), ('r', 13 as char), ('t', 9 as char)]

  /** An escape other than `\u` is read as d if and only if it is listed with d; one that is not
      listed fails. */
  lemma ShortEscapesExactly(s: string, p: nat, d: char)
    requires p + 1 < |s| && s[p] == '\\' && s[p + 1] != 'u'
    ensures EscapeAt(s, p) == Ok([d], p + 2) <==> (s[p + 1], d) in SHORT_ESCAPES
    ensures EscapeAt(s, p).Err? <==> forall k | 0 <= k < |SHORT_ESCAPES| :: SHORT_ESCAPES[k].0 != s[p + 1]
  {
    var c := s[p + 1];
    var list := SHORT_ESCAPES;
    assert (list[0].0, list[1].0, list[2].0, list[3].0) == ('\"', '\\', '/', 'b');
    assert (list[4].0, list[5].0, list[6].0, list[7].0) == ('f', 'n', 'r', 't');
  }

  /** The six characters std::isspace accepts. */
  lemma SpacesExactly(c: char)
    ensures IsSpace(c) <==> c in [' ', '\t', '\n', '\r', 11 as char, 12 as char]
  {
  }

  // ---------- \u ----------

  /** Four hexadecimal digits with the value n stand at p. */
  ghost predicate HexCode(s: string, p: nat, n: nat) {
    exists a: nat, b: nat, c: nat, d: nat :: FourDigitsAt(s, p, a, b, c, d) && n == a * 0x1000 + b * 0x100 + c * 0x10 + d
  }

  ghost predicate FourDigitsAt(s: string, p: nat, a: nat, b: nat, c: nat, d: nat) {
    && p + 4 <= |s| && a < 16 && b < 16 && c < 16 && d < 16
    && HexDigit(s[p], a) && HexDigit(s[p + 1], b) && HexDigit(s[p + 2], c) && HexDigit(s[p + 3], d)
  }

  ghost predicate HexDigit(c: char, d: nat)
    requires d < 16
  {
    c == LOWER_DIGITS[d] || c == UPPER_DIGITS[d]
  }

  /** The characters from p to q, with at least one after them, spell the code point: by one escape
      that is not a high surrogate, or by the two halves of its UTF-16 form. */
  ghost predicate SpellsCode(s: string, p: nat, q: nat, cp: nat) {
    && q < |s|
    && At(s, p, "\\u")
    && if q == p + 6 then HexCode(s, p + 2, cp) && !(0xD800 <= cp < 0xDC00)
       else
         && q == p + 12
         && At(s, p + 6, "\\u")
         && 0x10000 <= cp <= 0x10FFFF
         && HexCode(s, p + 2, 0xD800 + (cp - 0x10000) / 0x400)
         && HexCode(s, p + 8, 0xDC00 + (cp - 0x10000) % 0x400)
  }

  lemma HexDigitIs(c: char, d: nat)
    requires d < 16
    ensures HexDigit(c, d) <==> DigitOf(c) == d
  {
    hide DigitOf;
    DigitsAreTheAlphabet(c, d);
  }

  lemma {:induction false} FourDigits(h: string)
    requires Hex4(h)
    ensures ValueOf(h, 16)
         == DigitOf(h[0]) * 0x1000 + DigitOf(h[1]) * 0x100 + DigitOf(h[2]) * 0x10 + DigitOf(h[3])
  {
    hide DigitOf;
    var a, b, c := h[..1], h[..2], h[..3];
    assert a[..0] == [] && b[..1] == a && c[..2] == b;
    assert ValueOf(a, 16) == DigitOf(h[0]);
    assert ValueOf(b, 16) == ValueOf(a, 16) * 16 + DigitOf(h[1]);
    assert ValueOf(c, 16) == ValueOf(b, 16) * 16 + DigitOf(h[2]);
  }

  /** The hexadecimal reader, digit by digit. */
  lemma {:induction false} HexExactly(s: string, p: nat, n: nat)
    ensures HexAt(s, p) == Some(n) <==> HexCode(s, p, n)
  {
    hide DigitOf, HexDigit, ValueOf;
    if HexAt(s, p) == Some(n) {
      var h := s[p..p + 4];
      FourDigits(h);
      assert h[0] == s[p] && h[1] == s[p + 1] && h[2] == s[p + 2] && h[3] == s[p + 3];
      HexDigitIs(s[p], DigitOf(h[0]));
      HexDigitIs(s[p + 1], DigitOf(h[1]));
      HexDigitIs(s[p + 2], DigitOf(h[2]));
      HexDigitIs(s[p + 3], DigitOf(h[3]));
      assert FourDigitsAt(s, p, DigitOf(h[0]), DigitOf(h[1]), DigitOf(h[2]), DigitOf(h[3]));
    }
    if HexCode(s, p, n) { HexCodeRead(s, p, n); }
  }

  lemma {:induction false} HexCodeRead(s: string, p: nat, n: nat)
    requires HexCode(s, p, n)
    ensures HexAt(s, p) == Some(n)
  {
    hide DigitOf, HexDigit, ValueOf;
    var a: nat, b: nat, c: nat, d: nat :| FourDigitsAt(s, p, a, b, c, d) && n == a * 0x1000 + b * 0x100 + c * 0x10 + d;
    HexDigitIs(s[p], a);
    HexDigitIs(s[p + 1], b);
    HexDigitIs(s[p + 2], c);
    HexDigitIs(s[p + 3], d);
    var h := s[p..p + 4];
    assert h[0] == s[p] && h[1] == s[p + 1] && h[2] == s[p + 2] && h[3] == s[p + 3];
    FourDigits(h);
  }

  /** A `\u` escape is read as the octets of the code point it spells, and as nothing else. */
  lemma {:induction false} UnicodeExactly(s: string, p: nat, bytes: string, q: nat)
    requires p + 1 < |s| && s[p] == '\\' && s[p + 1] == 'u'
    ensures EscapeAt(s, p) == Ok(bytes, q) <==>
            exists cp: nat | cp <= 0x10FFFF :: SpellsCode(s, p, q, cp) && Utf8.HasLayout(bytes, cp)
  {
    hide Utf8.HasLayout, HexCode, HexAt, Utf8.Encode;
    if EscapeAt(s, p) == Ok(bytes, q) {
      var cp := UnicodeSpells(s, p, bytes, q);
    }
    if cp: nat :| cp <= 0x10FFFF && SpellsCode(s, p, q, cp) && Utf8.HasLayout(bytes, cp) {
      SpelledIsRead(s, p, q, cp);
      Utf8.EncodeHasLayout(cp);
      Utf8.LayoutUnique(bytes, Utf8.Encode(cp), cp);
    }
  }

  lemma {:induction false} UnicodeSpells(s: string, p: nat, bytes: string, q: nat) returns (cp: nat)
    requires p + 1 < |s| && s[p] == '\\' && s[p + 1] == 'u' && EscapeAt(s, p) == Ok(bytes, q)
    ensures cp <= 0x10FFFF && SpellsCode(s, p, q, cp) && Utf8.HasLayout(bytes, cp)
  {
    hide Utf8.HasLayout, HexCode, HexAt, Utf8.Encode;
    var h := HexAt(s, p + 2).value;
    HexExactly(s, p + 2, h);
    if q == p + 6 {
      cp := h;
    } else {
      var l := HexAt(s, p + 8).value;
      HexExactly(s, p + 8, l);
      cp := 0x10000 + (h - 0xD800) * 0x400 + (l - 0xDC00);
    }
    Utf8.EncodeHasLayout(cp);
  }

  lemma {:induction false} SpelledIsRead(s: string, p: nat, q: nat, cp: nat)
    requires cp <= 0x10FFFF && SpellsCode(s, p, q, cp)
    ensures EscapeAt(s, p) == Ok(Utf8.Encode(cp), q)
  {
    hide HexCode, HexAt, Utf8.Encode;
    var u := "\\u";
    assert s[p] == u[0] && s[p + 1] == u[1];
    if q == p + 6 {
      HexExactly(s, p + 2, cp);
    } else {
      HexExactly(s, p + 2, 0xD800 + (cp - 0x10000) / 0x400);
      HexExactly(s, p + 8, 0xDC00 + (cp - 0x10000) % 0x400);
      assert s[p + 6] == u[0] && s[p + 6 + 1] == u[1];
    }
  }
}
