/** JSON texts as concrete syntax trees. */
module JsonGrammar {
  // Every choice a text may make (whitespace, escapes, the spelling of a number) is a field of the
  // tree, `Text` spells the tree out and `Denote` gives the value it stands for.

  import opened Wrappers
  import opened Digits
  import opened JsonValue
  import Utf8

  /** The library routine that turns a number's spelling into a double, if it can. */
  type ReadDouble = string -> Option<Float>

  /** One element of a string body. */
  datatype Elem =
    | Raw(c: char)                     // a character standing for itself
    | Esc(c: char)                     // a two-character escape
    | Uni(hex: string)                 // \uXXXX
    | Pair(high: string, low: string)  // a surrogate pair \uXXXX\uXXXX

  datatype Exponent = Exponent(mark: char, sign: string, digits: string)

  datatype Number = Number(neg: bool, whole: string, frac: Option<string>, exp: Option<Exponent>)

  datatype Tree =
    | TNull
    | TBool(b: bool)
    | TNum(n: Number)
    | TStr(elems: seq<Elem>)
    | TArr(pad: string, items: seq<Item>)      // pad is used by the empty array only
    | TObj(pad: string, members: seq<Member>)  // likewise

  datatype Item = Item(before: string, value: Tree, after: string)

  datatype Member = Member(before: string, key: seq<Elem>, beforeColon: string, afterColon: string,
                           value: Tree, after: string)

  // ---------- characters ----------

  /** std::isspace in the C locale. */
  predicate IsSpace(c: char) {
    c == ' ' || 9 <= c as int <= 13
  }

  predicate Blank(w: string) {
    forall i | 0 <= i < |w| :: IsSpace(w[i])
  }

  predicate IsDigit(c: char) {
    '0' <= c <= '9'
  }

  predicate Decimal(s: string) {
    forall i | 0 <= i < |s| :: IsDigit(s[i])
  }

  predicate Hex4(h: string) {
    |h| == 4 && AllDigits(h, 16)
  }

  lemma DecimalDigits(s: string)
    ensures Decimal(s) <==> AllDigits(s, 10)
  {
  }

  function Escaped(c: char): (r: Option<char>) {
    match c
    case '\"' => Some('\"')
    case '\\' => Some('\\')
    case '/' => Some('/')
    case 'b' => Some(8 as char)
    case 'f' => Some(12 as char)
    case 'n' => Some('\n')
    case 'r' => Some('\r')
    case 't' => Some('\t')
    case _ => None
  }

  // ---------- strings ----------

  predicate HighSurrogate(n: nat) {
    0xD800 <= n <= 0xDBFF
  }

  predicate LowSurrogate(n: nat) {
    0xDC00 <= n <= 0xDFFF
  }

  predicate ValidElem(e: Elem) {
    match e
    case Raw(c) => c != '\"' && c != '\\'
    case Esc(c) => Escaped(c).Some?
    case Uni(h) => Hex4(h) && !HighSurrogate(ValueOf(h, 16))
    case Pair(h, l) => Hex4(h) && Hex4(l) && HighSurrogate(ValueOf(h, 16)) && LowSurrogate(ValueOf(l, 16))
  }

  function ElemText(e: Elem): (t: string)
    ensures t != []
  {
    match e
    case Raw(c) => [c]
    case Esc(c) => ['\\', c]
    case Uni(h) => "\\u" + h
    case Pair(h, l) => "\\u" + h + "\\u" + l
  }

  lemma Hex4Value(h: string)
    requires Hex4(h)
    ensures ValueOf(h, 16) < 0x10000
  {
    var a, b, c := h[..1], h[..2], h[..3];
    assert a[..0] == [] && b[..1] == a && c[..2] == b;
    assert ValueOf(a, 16) == DigitOf(h[0]);
    assert ValueOf(b, 16) == ValueOf(a, 16) * 16 + DigitOf(h[1]);
    assert ValueOf(c, 16) == ValueOf(b, 16) * 16 + DigitOf(h[2]);
  }

  /** The bytes an element stands for. */
  function ElemValue(e: Elem): (bytes: string)
    requires ValidElem(e)
  {
    match e
    case Raw(c) => [c]
    case Esc(c) => [Escaped(c).value]
    case Uni(h) => Hex4Value(h); Utf8.Encode(ValueOf(h, 16))
    case Pair(h, l) => Utf8.Encode(0x10000 + (ValueOf(h, 16) - 0xD800) * 0x400 + (ValueOf(l, 16) - 0xDC00))
  }

  predicate ValidElems(es: seq<Elem>) {
    forall i | 0 <= i < |es| :: ValidElem(es[i])
  }

  /** A string body, up to and including the closing quote. */
  function BodyText(es: seq<Elem>): (t: string) {
    if es == [] then "\"" else ElemText(es[0]) + BodyText(es[1..])
  }

  function ElemsValue(es: seq<Elem>): (bytes: string)
    requires ValidElems(es)
  {
    if es == [] then [] else ElemValue(es[0]) + ElemsValue(es[1..])
  }

  function StringText(es: seq<Elem>): (t: string) {
    "\"" + BodyText(es)
  }

  // ---------- numbers ----------

  function SignText(n: Number): (t: string) {
    if n.neg then "-" else ""
  }

  function FracText(n: Number): (t: string) {
    if n.frac.Some? then "." + n.frac.value else ""
  }

  function ExpText(n: Number): (t: string) {
    if n.exp.Some? then [n.exp.value.mark] + n.exp.value.sign + n.exp.value.digits else ""
  }

  function NumberText(n: Number): (t: string) {
    SignText(n) + n.whole + (FracText(n) + ExpText(n))
  }

  predicate NumberShape(n: Number) {
    && (n.neg || n.whole != "")
    && Decimal(n.whole)
    && (n.frac.Some? ==> Decimal(n.frac.value))
    && (n.exp.Some? ==>
          (n.exp.value.mark == 'e' || n.exp.value.mark == 'E')
          && (n.exp.value.sign == "" || n.exp.value.sign == "+" || n.exp.value.sign == "-")
          && Decimal(n.exp.value.digits))
  }

  function WholeValue(n: Number): (v: int)
    requires Decimal(n.whole)
  {
    DecimalDigits(n.whole);
    (if n.neg then -1 else 1) * ValueOf(n.whole, 10)
  }

  /** A number is an integer value when it has digits, no fraction and no exponent, and fits. */
  predicate IsInt32(n: Number)
    requires Decimal(n.whole)
  {
    n.whole != "" && n.frac.None? && n.exp.None? && -0x8000_0000 <= WholeValue(n) <= 0x7FFF_FFFF
  }

  predicate ValidNumber(fd: ReadDouble, n: Number) {
    NumberShape(n) && (IsInt32(n) || fd(NumberText(n)).Some?)
  }

  function NumberValue(fd: ReadDouble, n: Number): (j: Json)
    requires ValidNumber(fd, n)
  {
    if IsInt32(n) then Int(WholeValue(n)) else Double(fd(NumberText(n)).value)
  }

  // ---------- trees ----------

  predicate Valid(fd: ReadDouble, t: Tree)
    decreases t
  {
    match t
    case TNum(n) => ValidNumber(fd, n)
    case TStr(es) => ValidElems(es)
    case TArr(pad, items) => Blank(pad) && forall i | 0 <= i < |items| :: ValidItem(fd, items[i])
    case TObj(pad, members) => Blank(pad) && forall i | 0 <= i < |members| :: ValidMember(fd, members[i])
    case _ => true
  }

  predicate ValidItem(fd: ReadDouble, i: Item)
    decreases i
  {
    Blank(i.before) && Blank(i.after) && Valid(fd, i.value)
  }

  predicate ValidMember(fd: ReadDouble, m: Member)
    decreases m
  {
    && Blank(m.before) && Blank(m.beforeColon) && Blank(m.afterColon) && Blank(m.after)
    && ValidElems(m.key) && Valid(fd, m.value)
  }

  function Text(t: Tree): (s: string)
    decreases t, 0
  {
    match t
    case TNull => "null"
    case TBool(b) => if b then "true" else "false"
    case TNum(n) => NumberText(n)
    case TStr(es) => StringText(es)
    case TArr(pad, items) => "[" + (if items == [] then pad + "]" else ItemsText(items))
    case TObj(pad, members) => "{" + (if members == [] then pad + "}" else MembersText(members))
  }

  /** The items of a non-empty array, up to and including its closing bracket. */
  function ItemsText(items: seq<Item>): (s: string)
    decreases items, 0
  {
    if items == [] then ""
    else
      items[0].before + Text(items[0].value) + items[0].after
      + (if |items| == 1 then "]" else "," + ItemsText(items[1..]))
  }

  function MembersText(members: seq<Member>): (s: string)
    decreases members, 0
  {
    if members == [] then ""
    else
      MemberHead(members[0]) + Text(members[0].value) + members[0].after
      + (if |members| == 1 then "}" else "," + MembersText(members[1..]))
  }

  function MemberHead(m: Member): (s: string) {
    m.before + StringText(m.key) + m.beforeColon + ":" + m.afterColon
  }

  function Denote(fd: ReadDouble, t: Tree): (j: Json)
    requires Valid(fd, t)
    decreases t, 0
  {
    match t
    case TNull => Null
    case TBool(b) => Bool(b)
    case TNum(n) => NumberValue(fd, n)
    case TStr(es) => Str(ElemsValue(es))
    case TArr(_, items) => Arr(DenoteItems(fd, items))
    case TObj(_, members) => Obj(DenoteMembers(fd, members))
  }

  function DenoteItems(fd: ReadDouble, items: seq<Item>): (js: seq<Json>)
    requires forall i | 0 <= i < |items| :: ValidItem(fd, items[i])
    decreases items, 0
  {
    if items == [] then []
    else
      var last := items[|items| - 1];
      assert ValidItem(fd, last);
      DenoteItems(fd, items[..|items| - 1]) + [Denote(fd, last.value)]
  }

  /** The members of an object, added from left to right. */
  function DenoteMembers(fd: ReadDouble, members: seq<Member>): (m: map<string, Json>)
    requires forall i | 0 <= i < |members| :: ValidMember(fd, members[i])
    decreases members, 0
  {
    if members == [] then map[]
    else
      var last := members[|members| - 1];
      assert ValidMember(fd, last);
      DenoteMembers(fd, members[..|members| - 1])[ElemsValue(last.key) := Denote(fd, last.value)]
  }

  /** Of members with the same key the last one counts. */
  lemma {:induction false} LastDuplicateWins(fd: ReadDouble, members: seq<Member>, i: nat)
    requires forall k | 0 <= k < |members| :: ValidMember(fd, members[k])
    requires i < |members| && ValidMember(fd, members[i])
    requires forall k | i < k < |members| :: ValidMember(fd, members[k]) && ElemsValue(members[k].key) != ElemsValue(members[i].key)
    ensures ElemsValue(members[i].key) in DenoteMembers(fd, members)
    ensures DenoteMembers(fd, members)[ElemsValue(members[i].key)] == Denote(fd, members[i].value)
  {
    if i < |members| - 1 {
      var front := members[..|members| - 1];
      assert front[i] == members[i];
      LastDuplicateWins(fd, front, i);
    }
  }

  // ---------- RFC 8259 ----------

  /** The trees whose texts are RFC 8259: the four whitespace characters only, no raw control
      character in a string, the digits that `int`, `frac` and `exp` ask for. */
  predicate Rfc8259(t: Tree)
    decreases t
  {
    match t
    case TNum(n) => RfcNumber(n)
    case TStr(es) => RfcElems(es)
    case TArr(pad, items) => RfcBlank(pad) && forall i | 0 <= i < |items| :: RfcItem(items[i])
    case TObj(pad, members) => RfcBlank(pad) && forall i | 0 <= i < |members| :: RfcMember(members[i])
    case _ => true
  }

  predicate RfcItem(i: Item)
    decreases i
  {
    RfcBlank(i.before) && RfcBlank(i.after) && Rfc8259(i.value)
  }

  predicate RfcMember(m: Member)
    decreases m
  {
    && RfcBlank(m.before) && RfcBlank(m.beforeColon) && RfcBlank(m.afterColon) && RfcBlank(m.after)
    && RfcElems(m.key) && Rfc8259(m.value)
  }

  predicate RfcBlank(w: string) {
    forall i | 0 <= i < |w| :: w[i] == ' ' || w[i] == '\t' || w[i] == '\n' || w[i] == '\r'
  }

  /** Escapes are as in section 7; surrogates come in pairs. */
  predicate RfcElems(es: seq<Elem>) {
    forall i | 0 <= i < |es| ::
      ValidElem(es[i])
      && (es[i].Raw? ==> es[i].c as int >= 0x20)
      && (es[i].Uni? ==> !LowSurrogate(ValueOf(es[i].hex, 16)))
  }

  /** Section 6: a whole part without leading zeros, and digits wherever a part is begun. */
  predicate RfcNumber(n: Number) {
    && NumberShape(n)
    && n.whole != "" && (n.whole[0] == '0' ==> |n.whole| == 1)
    && (n.frac.Some? ==> n.frac.value != "")
    && (n.exp.Some? ==> n.exp.value.digits != "")
  }

  /** Every number of the tree is a 32-bit integer. */
  predicate IntegersOnly(t: Tree)
    decreases t
  {
    match t
    case TNum(n) => Decimal(n.whole) && IsInt32(n)
    case TArr(_, items) => forall i | 0 <= i < |items| :: IntegersOnly(items[i].value)
    case TObj(_, members) => forall i | 0 <= i < |members| :: IntegersOnly(members[i].value)
    case _ => true
  }

  /** Every number of the tree is a 32-bit integer, or one that the conversion to doubles reads. */
  predicate NumbersRead(fd: ReadDouble, t: Tree)
    decreases t
  {
    match t
    case TNum(n) => Decimal(n.whole) && (IsInt32(n) || fd(NumberText(n)).Some?)
    case TArr(_, items) => forall i | 0 <= i < |items| :: NumbersRead(fd, items[i].value)
    case TObj(_, members) => forall i | 0 <= i < |members| :: NumbersRead(fd, members[i].value)
    case _ => true
  }
}
