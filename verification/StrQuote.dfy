/** Quoted byte strings: three quoting styles, which differ in the bytes they spell as hexadecimal
    escapes, and the one function that undoes them all. A byte is a character whose code is below
    256. */
module StrQuote {
  import opened Wrappers
  import opened Digits

  /** One byte of a string. */
  type octet = c: char | c as int < 256

  /** Quote, QuoteToASCII and QuoteToGraphic. */
  datatype Style = Plain | Ascii | Graphic

  const BELL := 7 as char
  const BACKSPACE := 8 as char
  const VERTICAL_TAB := 11 as char
  const FORM_FEED := 12 as char

  // ---------- quoting ----------

  predicate IsPrint(c: char) {
    !(c as int < 0x20 || c as int == 0x7f) && (c as int < 0x80 || !(0xd800 <= c as int <= 0xdfff))
  }

  predicate IsGraphic(c: char) {
    && IsPrint(c)
    && !(c == ' ' || c == '\t' || c == '\n' || c == '\r' || c == FORM_FEED || c == VERTICAL_TAB)
  }

  /** The format "\\x%02x". */
  function HexEscape(c: octet): (t: string) {
    ['\\', 'x', DigitChar(c as int / 16), DigitChar(c as int % 16)]
  }

  function Piece(style: Style, c: octet): (t: string) {
    match style
    case Plain =>
      if c == '\\' then "\\\\"
      else if c == '"' then "\\\""
      else if c == BELL then "\\a"
      else if c == BACKSPACE then "\\b"
      else if c == FORM_FEED then "\\f"
      else if c == '\n' then "\\n"
      else if c == '\r' then "\\r"
      else if c == '\t' then "\\t"
      else if c == VERTICAL_TAB then "\\v"
      else if c as int < 0x20 || c as int == 0x7f then HexEscape(c)
      else [c]
    case Ascii =>
      if c as int < 0x20 || c as int == 0x7f || c as int >= 0x80 then HexEscape(c)
      else if c == '\\' then "\\\\"
      else if c == '"' then "\\\""
      else [c]
    case Graphic =>
      if !IsGraphic(c) then HexEscape(c)
      else if c == '\\' then "\\\\"
      else if c == '"' then "\\\""
      else [c]
  }

  function Pieces(style: Style, s: seq<octet>): (t: string) {
    if s == [] then "" else Pieces(style, s[..|s| - 1]) + Piece(style, s[|s| - 1])
  }

  function Quoted(style: Style, s: seq<octet>): (t: string) {
    "\"" + Pieces(style, s) + "\""
  }

  method Quote(style: Style, s: seq<octet>) returns (out: string)
    ensures out == Quoted(style, s)
  {
    hide Piece;
    out := "\"";
    for i := 0 to |s|
      invariant out == "\"" + Pieces(style, s[..i])
    {
      assert s[..i + 1][..i] == s[..i];
      out := out + Piece(style, s[i]);
    }
    assert s[..|s|] == s;
    out := out + "\"";
  }

  // ---------- unquoting ----------

  /** The library's reading of a hexadecimal number of at most two characters. */
  type Scan = string -> Option<nat>

  /** Two hexadecimal digits are read as their value; nothing is said of other texts. */
  ghost predicate ReadsTwoDigits(scan: Scan) {
    forall t: string | |t| >= 2 && DigitOf(t[0]) < 16 && DigitOf(t[1]) < 16 ::
      scan(t) == Some(DigitOf(t[0]) * 16 + DigitOf(t[1]))
  }

  /** The character a one-letter escape stands for; any other letter stands for itself. */
  function Letter(c: char): (d: char) {
    if c == 'a' then BELL
    else if c == 'b' then BACKSPACE
    else if c == 'f' then FORM_FEED
    else if c == 'n' then '\n'
    else if c == 'r' then '\r'
    else if c == 't' then '\t'
    else if c == 'v' then VERTICAL_TAB
    else c
  }

  function Cons(c: char, r: Option<string>): (s: Option<string>) {
    match r case Some(t) => Some([c] + t) case None => None
  }

  /** Reads the text up to its last character, the closing quote. */
  function Body(t: string, scan: Scan): (r: Option<string>)
    decreases |t|
  {
    if |t| <= 1 then Some("")
    else if t[0] != '\\' then Cons(t[0], Body(t[1..], scan))
    else if |t| <= 2 then None
    else if t[1] != 'x' then Cons(Letter(t[1]), Body(t[2..], scan))
    else if |t| <= 4 then None
    else
      match scan(t[2..])
      case None => None
      case Some(d) => Cons((d % 256) as char, Body(t[4..], scan))
  }

  function Unquoted(s: string, scan: Scan): (r: Option<string>) {
    if |s| < 2 then None
    else if s[|s| - 1] != s[0] then None
    else if s[0] == '`' then Some(s[1..|s| - 1])
    else Body(s[1..], scan)
  }

  function After(out: string, r: Option<string>): (s: Option<string>) {
    match r case Some(t) => Some(out + t) case None => None
  }

  lemma AfterCons(out: string, c: char, r: Option<string>)
    ensures After(out, Cons(c, r)) == After(out + [c], r)
  {
    if r.Some? { assert out + ([c] + r.value) == (out + [c]) + r.value; }
  }

  method Unquote(s: string, scan: Scan) returns (r: Option<string>)
    ensures r == Unquoted(s, scan)
  {
    hide Letter, After, Cons;
    if |s| < 2 { return None; }
    var q := s[0];
    if s[|s| - 1] != q { return None; }
    if q == '`' { return Some(s[1..|s| - 1]); }
    var out := "";
    var i := 1;
    AfterEmpty(Body(s[1..], scan));
    while i + 1 < |s|
      invariant 1 <= i <= |s|
      invariant After(out, Body(s[i..], scan)) == Body(s[1..], scan)
    {
      var c := s[i];
      if c != '\\' {
        AfterCons(out, c, Body(s[i + 1..], scan));
        out := out + [c];
        i := i + 1;
        continue;
      }
      if i + 1 >= |s| - 1 { AfterNone(out); return None; }
      i := i + 1;
      var next := s[i];
      if next == 'x' {
        if i + 2 >= |s| - 1 { AfterNone(out); return None; }
        var d := scan(s[i + 1..]);
        if d.None? { AfterNone(out); return None; }
        AfterCons(out, (d.value % 256) as char, Body(s[i + 3..], scan));
        out := out + [(d.value % 256) as char];
        i := i + 2;
      } else {
        AfterCons(out, Letter(next), Body(s[i + 1..], scan));
        out := out + [Letter(next)];
      }
      i := i + 1;
    }
    AfterSome(out, s[i..], scan);
    return Some(out);
  }

  lemma AfterEmpty(r: Option<string>)
    ensures After("", r) == r
  {
    if r.Some? { assert "" + r.value == r.value; }
  }

  lemma AfterNone(out: string)
    ensures After(out, None) == None
  {
  }

  lemma AfterSome(out: string, t: string, scan: Scan)
    requires |t| <= 1
    ensures After(out, Body(t, scan)) == Some(out)
  {
    assert out + "" == out;
  }

  // ---------- unquoting undoes quoting ----------

  lemma {:induction false} HexPairReads(x: char, y: char, t: string, scan: Scan)
    requires ReadsTwoDigits(scan) && t != "" && DigitOf(x) < 16 && DigitOf(y) < 16
    ensures Body(['\\', 'x', x, y] + t, scan) == Cons((DigitOf(x) * 16 + DigitOf(y)) as char, Body(t, scan))
  {
    hide DigitOf, Cons, Letter;
    var u := ['\\', 'x', x, y] + t;
    var two := u[2..];
    assert two[0] == x && two[1] == y;
    assert u[4..] == t;
  }

  lemma {:induction false} HexReads(c: octet, t: string, scan: Scan)
    requires ReadsTwoDigits(scan) && t != ""
    ensures Body(HexEscape(c) + t, scan) == Cons(c, Body(t, scan))
  {
    hide DigitOf, DigitChar, Cons, Body, ReadsTwoDigits;
    HexPairReads(DigitChar(c as int / 16), DigitChar(c as int % 16), t, scan);
  }

  lemma {:induction false} LetterReads(e: char, t: string, scan: Scan)
    requires e != 'x' && t != ""
    ensures Body(['\\', e] + t, scan) == Cons(Letter(e), Body(t, scan))
  {
    hide Cons, Letter;
    assert (['\\', e] + t)[2..] == t;
  }

  lemma {:induction false} PlainReads(c: char, t: string, scan: Scan)
    requires c != '\\' && t != ""
    ensures Body([c] + t, scan) == Cons(c, Body(t, scan))
  {
    hide Cons;
    assert ([c] + t)[1..] == t;
  }

  /** Every piece reads back as its byte, in every style. */
  lemma {:induction false} PieceReads(style: Style, c: octet, t: string, scan: Scan)
    requires ReadsTwoDigits(scan) && t != ""
    ensures Body(Piece(style, c) + t, scan) == Cons(c, Body(t, scan))
  {
    hide Body, Cons, HexEscape, ReadsTwoDigits;
    var p := Piece(style, c);
    if p == HexEscape(c) {
      HexReads(c, t, scan);
    } else if p == [c] {
      PlainReads(c, t, scan);
    } else {
      LetterReads(p[1], t, scan);
    }
  }

  lemma {:induction false} PiecesRead(style: Style, s: seq<octet>, t: string, scan: Scan)
    requires ReadsTwoDigits(scan) && t != ""
    ensures Body(Pieces(style, s) + t, scan) == After(s, Body(t, scan))
    decreases |s|
  {
    hide Body, Cons, After, Piece, ReadsTwoDigits;
    if s == [] {
      assert "" + t == t;
      AfterEmpty(Body(t, scan));
    } else {
      var front, c := s[..|s| - 1], s[|s| - 1];
      var tail := Piece(style, c) + t;
      assert Pieces(style, s) + t == Pieces(style, front) + tail;
      PieceReads(style, c, t, scan);
      PiecesRead(style, front, tail, scan);
      AfterCons(front, c, Body(t, scan));
      assert front + [c] == s;
    }
  }

  /** Unquoting gives back every byte string, whichever way it was quoted. */
  lemma {:induction false} UnquoteQuote(style: Style, s: seq<octet>, scan: Scan)
    requires ReadsTwoDigits(scan)
    ensures Unquoted(Quoted(style, s), scan) == Some(s)
  {
    hide Body, Pieces, ReadsTwoDigits, After;
    var q := Quoted(style, s);
    assert q[1..] == Pieces(style, s) + "\"";
    PiecesRead(style, s, "\"", scan);
    AfterSome(s, "\"", scan);
  }

  // ---------- what unquoting accepts ----------

  /** One element of a quoted text: a character, an escaped one, or two hexadecimal digits. */
  datatype Elem = Raw(c: char) | Escaped(c: char) | Hex(x: char, y: char)

  predicate ValidElem(e: Elem) {
    match e
    case Raw(c) => c != '\\'
    case Escaped(c) => c != 'x'
    case Hex(x, y) => DigitOf(x) < 16 && DigitOf(y) < 16
  }

  function ElemText(e: Elem): (t: string) {
    match e
    case Raw(c) => [c]
    case Escaped(c) => ['\\', c]
    case Hex(x, y) => ['\\', 'x', x, y]
  }

  /** The letters of the escapes for the characters 7 to 13, in this order. */
  const LETTERS := "abtnvfr"

  /** The characters an element can stand for: there is one. */
  predicate Means(e: Elem, d: char) {
    match e
    case Raw(c) => d == c
    case Escaped(c) => if c in LETTERS then 7 <= d as int <= 13 && LETTERS[d as int - 7] == c else d == c
    case Hex(x, y) => d as int == DigitOf(x) * 16 + DigitOf(y)
  }

  predicate AllMean(es: seq<Elem>, s: string) {
    |es| == |s| && forall i | 0 <= i < |es| :: ValidElem(es[i]) && Means(es[i], s[i])
  }

  function ElemsText(es: seq<Elem>): (t: string) {
    if es == [] then "" else ElemText(es[0]) + ElemsText(es[1..])
  }

  lemma LetterIs(c: char, d: char)
    ensures Letter(c) == d <==> Means(Escaped(c), d)
  {
    assert LETTERS[0] == 'a' && LETTERS[1] == 'b' && LETTERS[2] == 't' && LETTERS[3] == 'n';
    assert LETTERS[4] == 'v' && LETTERS[5] == 'f' && LETTERS[6] == 'r';
  }

  lemma {:induction false} ElemReads(e: Elem, d: char, t: string, scan: Scan)
    requires ReadsTwoDigits(scan) && t != "" && ValidElem(e) && Means(e, d)
    ensures Body(ElemText(e) + t, scan) == Cons(d, Body(t, scan))
  {
    hide Body, Cons, ReadsTwoDigits, Letter, LETTERS, DigitOf;
    match e
    case Raw(c) => PlainReads(c, t, scan);
    case Escaped(c) =>
      LetterReads(c, t, scan);
      LetterIs(c, d);
    case Hex(x, y) => HexPairReads(x, y, t, scan);
  }

  lemma {:induction false} ElemsRead(es: seq<Elem>, s: string, t: string, scan: Scan)
    requires ReadsTwoDigits(scan) && t != "" && AllMean(es, s)
    ensures Body(ElemsText(es) + t, scan) == After(s, Body(t, scan))
  {
    hide Body, Cons, After, ReadsTwoDigits, ElemText, ValidElem, Means;
    if es == [] {
      assert "" + t == t && s == "";
      AfterEmpty(Body(t, scan));
    } else {
      var tail := ElemsText(es[1..]) + t;
      assert ElemsText(es) + t == ElemText(es[0]) + tail;
      ElemReads(es[0], s[0], tail, scan);
      ElemsRead(es[1..], s[1..], t, scan);
      AfterFirst(s, Body(t, scan));
    }
  }

  lemma AfterFirst(s: string, r: Option<string>)
    requires s != ""
    ensures Cons(s[0], After(s[1..], r)) == After(s, r)
  {
    if r.Some? { assert [s[0]] + (s[1..] + r.value) == s + r.value; }
  }

  /** Between two equal quote characters, of any kind but the back quote, every sequence of elements is read
      as the characters they mean; between back quotes everything stands for itself; and without two equal
      characters around it no text is accepted. */
  lemma {:induction false} UnquoteMeans(quote: char, es: seq<Elem>, s: string, raw: string, scan: Scan)
    requires ReadsTwoDigits(scan) && quote != '`' && AllMean(es, s)
    ensures Unquoted([quote] + ElemsText(es) + [quote], scan) == Some(s)
    ensures Unquoted("`" + raw + "`", scan) == Some(raw)
    ensures |raw| < 2 || raw[0] != raw[|raw| - 1] ==> Unquoted(raw, scan) == None
  {
    hide Body, ReadsTwoDigits, After, ElemsText, AllMean;
    var q := [quote] + ElemsText(es) + [quote];
    assert q[1..] == ElemsText(es) + [quote];
    ElemsRead(es, s, [quote], scan);
    AfterSome(s, [quote], scan);
    var b := "`" + raw + "`";
    assert b[1..|b| - 1] == raw;
  }

  /** A text whose last escape is cut off by the closing quote is refused. */
  lemma {:induction false} CutEscapeRefused(quote: char, es: seq<Elem>, s: string, c: char, scan: Scan)
    requires ReadsTwoDigits(scan) && quote != '`' && AllMean(es, s)
    ensures Unquoted([quote] + ElemsText(es) + "\\" + [quote], scan) == None
    ensures Unquoted([quote] + ElemsText(es) + "\\x" + [quote], scan) == None
    ensures Unquoted([quote] + ElemsText(es) + "\\x" + [c] + [quote], scan) == None
  {
    CutBodies(quote, c, scan);
    hide Body, ReadsTwoDigits, ElemsText, AllMean;
    CutAfter(quote, es, s, "\\", scan);
    CutAfter(quote, es, s, "\\x", scan);
    CutAfter(quote, es, s, "\\x" + [c], scan);
    assert [quote] + ElemsText(es) + ("\\x" + [c]) + [quote] == [quote] + ElemsText(es) + "\\x" + [c] + [quote];
  }

  lemma CutBodies(quote: char, c: char, scan: Scan)
    ensures Body("\\" + [quote], scan) == None && Body("\\x" + [quote], scan) == None && Body("\\x" + [c] + [quote], scan) == None
  {
  }

  lemma {:induction false} CutAfter(quote: char, es: seq<Elem>, s: string, cut: string, scan: Scan)
    requires ReadsTwoDigits(scan) && quote != '`' && AllMean(es, s) && Body(cut + [quote], scan) == None
    ensures Unquoted([quote] + ElemsText(es) + cut + [quote], scan) == None
  {
    hide Body, ReadsTwoDigits, ElemsText, AllMean;
    var q := [quote] + ElemsText(es) + cut + [quote];
    assert q[1..] == ElemsText(es) + (cut + [quote]);
    ElemsRead(es, s, cut + [quote], scan);
  }

  // ---------- what the quoted text is made of ----------

  /** The bytes spelled in hexadecimal, style by style: the control characters without a letter; all control
      and all non-ASCII bytes; the control characters and the space. */
  predicate InHex(style: Style, c: octet) {
    match style
    case Plain => c as int < 7 || 13 < c as int < 0x20 || c as int == 0x7f
    case Ascii => c as int < 0x20 || 0x7f <= c as int
    case Graphic => c as int <= 0x20 || c as int == 0x7f
  }

  /** Every byte becomes one element that means it: hexadecimal where the style asks for it, an escape for
      the quote, the backslash and the seven characters that have a letter, and itself otherwise. */
  lemma {:induction false} PieceSpells(style: Style, c: octet) returns (e: Elem)
    ensures ValidElem(e) && Means(e, c) && Piece(style, c) == ElemText(e)
    ensures e.Hex? <==> InHex(style, c)
    ensures e.Hex? ==> LowerCase([e.x, e.y])
    ensures e.Escaped? <==> !InHex(style, c) && (c == '\\' || c == '"' || 7 <= c as int <= 13)
  {
    if InHex(style, c) {
      e := Hex(DigitChar(c as int / 16), DigitChar(c as int % 16));
    } else if c == '\\' || c == '"' || 7 <= c as int <= 13 {
      e := Escaped(Piece(style, c)[1]);
      LetterIs(e.c, c);
    } else {
      e := Raw(c);
    }
  }

  predicate Printable(t: string) {
    forall i | 0 <= i < |t| :: 0x20 <= t[i] as int <= 0x7e
  }

  predicate NoControl(t: string) {
    forall i | 0 <= i < |t| :: 0x20 <= t[i] as int && t[i] as int != 0x7f
  }

  lemma HexEscapePrintable(c: octet)
    ensures Printable(HexEscape(c))
  {
  }

  lemma {:induction false} PiecePrintable(style: Style, c: octet)
    ensures NoControl(Piece(style, c)) && (style == Ascii ==> Printable(Piece(style, c)))
  {
    hide HexEscape;
    HexEscapePrintable(c);
  }

  /** QuoteToASCII writes printable ASCII only, and no style writes a control character. */
  lemma {:induction false} QuotedPrintable(style: Style, s: seq<octet>)
    ensures NoControl(Quoted(style, s)) && (style == Ascii ==> Printable(Quoted(style, s)))
  {
    PiecesPrintable(style, s);
  }

  lemma {:induction false} PiecesPrintable(style: Style, s: seq<octet>)
    ensures NoControl(Pieces(style, s)) && (style == Ascii ==> Printable(Pieces(style, s)))
  {
    hide Piece;
    if s != [] {
      PiecesPrintable(style, s[..|s| - 1]);
      PiecePrintable(style, s[|s| - 1]);
    }
  }
}
