/** Exactly which printed texts are RFC 8259. */
module JsonPrinted {
  // The printer escapes five control characters and writes the others raw, which section 7 of RFC 8259
  // forbids. Outside strings it writes nothing but what the RFC allows.

  import opened Wrappers
  import opened Digits
  import opened JsonValue
  import opened JsonGrammar
  import opened JsonCompleteness
  import opened JsonGenerator
  import opened JsonRoundTrip

  // ---------- characters of a text ----------

  /** A character that an RFC 8259 text can contain at all. */
  predicate CharOk(c: char) {
    c as int >= 0x20 || c == '\t' || c == '\n' || c == '\r'
  }

  predicate CharsOk(s: string) {
    forall i | 0 <= i < |s| :: CharOk(s[i])
  }

  lemma CharsConcat(a: string, b: string)
    ensures CharsOk(a + b) <==> CharsOk(a) && CharsOk(b)
  {
    hide CharOk;
    var s := a + b;
    if CharsOk(s) {
      forall i | 0 <= i < |a| ensures CharOk(a[i]) { assert s[i] == a[i]; }
      forall i | 0 <= i < |b| ensures CharOk(b[i]) { assert s[|a| + i] == b[i]; }
    }
  }

  lemma CharsFour(a: string, b: string, c: string, d: string)
    ensures CharsOk(a + b + c + d) <==> CharsOk(a) && CharsOk(b) && CharsOk(c) && CharsOk(d)
  {
    hide CharsOk;
    CharsConcat(a + b + c, d);
    CharsConcat(a + b, c);
    CharsConcat(a, b);
  }

  // ---------- characters of a tree's text ----------

  predicate ElemOk(e: Elem) {
    e.Raw? ==> CharOk(e.c)
  }

  predicate ElemsOk(es: seq<Elem>) {
    forall i | 0 <= i < |es| :: ElemOk(es[i])
  }

  predicate TreeOk(t: Tree)
    decreases t
  {
    match t
    case TStr(es) => ElemsOk(es)
    case TArr(pad, items) => (items == [] ==> CharsOk(pad)) && forall i | 0 <= i < |items| :: ItemOk(items[i])
    case TObj(pad, members) => (members == [] ==> CharsOk(pad)) && forall i | 0 <= i < |members| :: MemberOk(members[i])
    case _ => true
  }

  predicate ItemOk(i: Item)
    decreases i
  {
    CharsOk(i.before) && TreeOk(i.value) && CharsOk(i.after)
  }

  predicate MemberOk(m: Member)
    decreases m
  {
    && CharsOk(m.before) && ElemsOk(m.key) && CharsOk(m.beforeColon) && CharsOk(m.afterColon)
    && TreeOk(m.value) && CharsOk(m.after)
  }

  lemma HexOk(h: string)
    requires Hex4(h)
    ensures CharsOk(h)
  {
  }

  lemma {:induction false} ElemChars(e: Elem)
    requires ValidElem(e)
    ensures CharsOk(ElemText(e)) <==> ElemOk(e)
  {
    match e
    case Raw(c) => assert [c][0] == c;
    case Esc(c) =>
    case Uni(h) =>
      HexOk(h);
      CharsConcat("\\u", h);
    case Pair(h, l) =>
      HexOk(h);
      HexOk(l);
      CharsFour("\\u", h, "\\u", l);
  }

  lemma ElemsCons(es: seq<Elem>)
    requires es != []
    ensures ElemsOk(es) <==> ElemOk(es[0]) && ElemsOk(es[1..])
  {
    hide ElemOk;
    if ElemOk(es[0]) && ElemsOk(es[1..]) {
      forall i | 0 <= i < |es| ensures ElemOk(es[i]) { if i > 0 { assert es[i] == es[1..][i - 1]; } }
    }
  }

  lemma {:induction false} BodyChars(es: seq<Elem>)
    requires ValidElems(es)
    ensures CharsOk(BodyText(es)) <==> ElemsOk(es)
    decreases |es|
  {
    hide CharsOk, ElemText, ValidElem, ElemOk;
    if es == [] {
      QuoteOk();
    } else {
      ElemChars(es[0]);
      ElemsCons(es);
      BodyChars(es[1..]);
      CharsConcat(ElemText(es[0]), BodyText(es[1..]));
    }
  }

  lemma QuoteOk()
    ensures CharsOk("\"") && CharsOk(":") && CharsOk(",") && CharsOk("]") && CharsOk("}") && CharsOk("[") && CharsOk("{")
  {
  }

  lemma {:induction false} StringChars(es: seq<Elem>)
    requires ValidElems(es)
    ensures CharsOk(StringText(es)) <==> ElemsOk(es)
  {
    hide CharsOk, BodyText, ElemsOk, ValidElems;
    QuoteOk();
    BodyChars(es);
    CharsConcat("\"", BodyText(es));
  }

  lemma {:induction false} NumberChars(n: Number)
    requires NumberShape(n)
    ensures CharsOk(NumberText(n))
  {
    assert CharsOk(SignText(n)) && CharsOk(n.whole) && CharsOk(FracText(n)) && CharsOk(ExpText(n));
  }

  lemma {:induction false} TextChars(fd: ReadDouble, t: Tree)
    requires Valid(fd, t)
    ensures CharsOk(Text(t)) <==> TreeOk(t)
    decreases t, 1
  {
    match t
    case TNum(n) => NumberChars(n);
    case TStr(es) => StringChars(es);
    case TArr(_, _) => ArrayChars(fd, t);
    case TObj(_, _) => ObjectChars(fd, t);
    case _ =>
  }

  lemma {:induction false} ArrayChars(fd: ReadDouble, t: Tree)
    requires t.TArr? && Valid(fd, t)
    ensures CharsOk(Text(t)) <==> TreeOk(t)
    decreases t, 0
  {
    hide CharsOk, ItemsText, ValidItem, ItemOk;
    QuoteOk();
    if t.items == [] {
      CharsConcat(t.pad, "]");
      CharsConcat("[", t.pad + "]");
    } else {
      ItemsChars(fd, t.items);
      CharsConcat("[", ItemsText(t.items));
    }
  }

  lemma {:induction false} ItemsChars(fd: ReadDouble, items: seq<Item>)
    requires items != [] && forall i | 0 <= i < |items| :: ValidItem(fd, items[i])
    ensures CharsOk(ItemsText(items)) <==> forall i | 0 <= i < |items| :: ItemOk(items[i])
    decreases items, 0
  {
    hide CharsOk, Text, Valid, TreeOk;
    var it := items[0];
    assert ValidItem(fd, it);
    TextChars(fd, it.value);
    QuoteOk();
    var last := if |items| == 1 then "]" else "," + ItemsText(items[1..]);
    CharsFour(it.before, Text(it.value), it.after, last);
    if |items| > 1 {
      ItemsChars(fd, items[1..]);
      CharsConcat(",", ItemsText(items[1..]));
      assert forall i | 1 <= i < |items| :: items[i] == items[1..][i - 1];
    }
  }

  lemma {:induction false} ObjectChars(fd: ReadDouble, t: Tree)
    requires t.TObj? && Valid(fd, t)
    ensures CharsOk(Text(t)) <==> TreeOk(t)
    decreases t, 0
  {
    hide CharsOk, MembersText, ValidMember, MemberOk;
    QuoteOk();
    if t.members == [] {
      CharsConcat(t.pad, "}");
      CharsConcat("{", t.pad + "}");
    } else {
      MembersChars(fd, t.members);
      CharsConcat("{", MembersText(t.members));
    }
  }

  lemma {:induction false} HeadChars(m: Member)
    requires ValidElems(m.key)
    ensures CharsOk(MemberHead(m))
            <==> CharsOk(m.before) && ElemsOk(m.key) && CharsOk(m.beforeColon) && CharsOk(m.afterColon)
  {
    hide CharsOk, StringText, ElemsOk, ValidElems;
    QuoteOk();
    StringChars(m.key);
    CharsFour(m.before, StringText(m.key), m.beforeColon, ":");
    CharsConcat(m.before + StringText(m.key) + m.beforeColon + ":", m.afterColon);
  }

  lemma {:induction false} MembersChars(fd: ReadDouble, members: seq<Member>)
    requires members != [] && forall i | 0 <= i < |members| :: ValidMember(fd, members[i])
    ensures CharsOk(MembersText(members)) <==> forall i | 0 <= i < |members| :: MemberOk(members[i])
    decreases members, 0
  {
    hide CharsOk, Text, Valid, TreeOk, MemberHead, ElemsOk, ValidElems;
    var m := members[0];
    assert ValidMember(fd, m);
    HeadChars(m);
    TextChars(fd, m.value);
    QuoteOk();
    var last := if |members| == 1 then "}" else "," + MembersText(members[1..]);
    CharsFour(MemberHead(m), Text(m.value), m.after, last);
    if |members| > 1 {
      MembersChars(fd, members[1..]);
      CharsConcat(",", MembersText(members[1..]));
      assert forall i | 1 <= i < |members| :: members[i] == members[1..][i - 1];
    }
  }

  // ---------- RFC 8259 trees and printed trees ----------

  /** An RFC 8259 text contains no other control characters. */
  lemma {:induction false} RfcTreeOk(t: Tree)
    requires Rfc8259(t)
    ensures TreeOk(t)
    decreases t
  {
    match t
    case TArr(_, items) =>
      forall i | 0 <= i < |items| ensures ItemOk(items[i]) {
        assert RfcItem(items[i]);
        RfcTreeOk(items[i].value);
      }
    case TObj(_, members) =>
      forall i | 0 <= i < |members| ensures MemberOk(members[i]) {
        assert RfcMember(members[i]);
        RfcTreeOk(members[i].value);
      }
    case _ =>
  }

  /** A control character that the printer writes raw. */
  predicate RawControl(c: char) {
    c as int < 0x20 && Replacement(c).None?
  }

  predicate Escapable(s: string) {
    forall i | 0 <= i < |s| :: !RawControl(s[i])
  }

  /** No key or string holds a control character that the printer writes raw. */
  predicate EscapableValue(v: Value)
    decreases v
  {
    match v
    case VStr(s) => Escapable(s)
    case VArr(items) => forall i | 0 <= i < |items| :: EscapableValue(items[i])
    case VObj(entries) => forall i | 0 <= i < |entries| :: Escapable(entries[i].key) && EscapableValue(entries[i].value)
    case _ => true
  }

  lemma CharElemOk(c: char)
    ensures ElemOk(CharElem(c)) <==> !RawControl(c)
    ensures ValidElem(CharElem(c)) && !CharElem(c).Uni? && !CharElem(c).Pair?
    ensures CharElem(c).Raw? ==> CharElem(c) == Raw(c)
  {
  }

  lemma {:induction false} StringElemsOk(s: string)
    ensures ElemsOk(StringElems(s)) <==> Escapable(s)
    ensures Escapable(s) <==> RfcElems(StringElems(s))
  {
    hide CharElem, ElemOk, RawControl, ValidElem;
    var es := StringElems(s);
    forall i | 0 <= i < |s|
      ensures ElemOk(es[i]) <==> !RawControl(s[i])
      ensures ValidElem(es[i]) && !es[i].Uni? && (es[i].Raw? ==> es[i] == Raw(s[i]))
    {
      CharElemOk(s[i]);
    }
    if Escapable(s) {
      forall i | 0 <= i < |es| && es[i].Raw? ensures es[i].c as int >= 0x20 { RawIsPrintable(s[i]); }
    }
    if RfcElems(es) { RfcElemsOk(es); }
  }

  lemma RfcElemsOk(es: seq<Elem>)
    requires RfcElems(es)
    ensures ElemsOk(es)
  {
    hide ValidElem;
  }

  lemma RawIsPrintable(c: char)
    requires CharElem(c).Raw? && !RawControl(c)
    ensures c as int >= 0x20
  {
  }

  lemma RfcBlankOk(w: string)
    requires RfcBlank(w)
    ensures CharsOk(w)
  {
  }

  lemma {:induction false} IntNumberRfc(i: int32)
    ensures RfcNumber(IntNumber(i))
  {
    var k: int := i;
    var n := if k < 0 then -k else k;
    NumeralCanonical(n, 10);
    DecimalDigits(Numeral(n, 10));
    hide Numeral;
  }

  /** The printed tree's text has RFC 8259 characters only, and the tree is RFC 8259, exactly when the value
      is escapable. */
  lemma {:induction false} LayoutRfc(style: Style, v: Value, level: nat)
    requires FixedDoubles(style.fmt, v)
    ensures TreeOk(Layout(style, v, level)) <==> EscapableValue(v)
    ensures Rfc8259(Layout(style, v, level)) <==> EscapableValue(v)
    decreases v, 1
  {
    hide LayoutItems, LayoutMembers, StringElems, ElemsOk, RfcElems, Escapable, RfcNumber;
    match v
    case VInt(i) => IntNumberRfc(i);
    case VStr(s) => StringElemsOk(s);
    case VArr(items) => ItemsRfc(style, v, level);
    case VObj(entries) => MembersRfc(style, v, level);
    case _ =>
  }

  lemma {:induction false} ItemsRfc(style: Style, v: Value, level: nat)
    requires v.VArr? && FixedDoubles(style.fmt, v)
    ensures TreeOk(Layout(style, v, level)) <==> EscapableValue(v)
    ensures Rfc8259(Layout(style, v, level)) <==> EscapableValue(v)
    decreases v, 0
  {
    hide LayoutItems, CharsOk, RfcBlank;
    NothingOk();
    var ts := LayoutItems(style, v.items, level + 1);
    forall i | 0 <= i < |ts|
      ensures ItemOk(ts[i]) <==> EscapableValue(v.items[i])
      ensures RfcItem(ts[i]) <==> EscapableValue(v.items[i])
    {
      LayoutItemsAt(style, v.items, level + 1, i);
      LayoutRfc(style, v.items[i], level + 1);
      RfcBlankOk(ts[i].before);
      RfcBlankOk(ts[i].after);
    }
  }

  lemma NothingOk()
    ensures CharsOk("") && RfcBlank("")
  {
  }

  lemma {:induction false} MembersRfc(style: Style, v: Value, level: nat)
    requires v.VObj? && FixedDoubles(style.fmt, v)
    ensures TreeOk(Layout(style, v, level)) <==> EscapableValue(v)
    ensures Rfc8259(Layout(style, v, level)) <==> EscapableValue(v)
    decreases v, 0
  {
    hide LayoutMembers, CharsOk, RfcBlank, Escapable, ElemsOk, RfcElems, StringElems;
    NothingOk();
    var entries := v.entries;
    var es := Visit(style, entries);
    var ms := LayoutMembers(style, entries, es, level + 1);
    forall i | 0 <= i < |ms|
      ensures MemberOk(ms[i]) <==> Escapable(es[i].key) && EscapableValue(es[i].value)
      ensures RfcMember(ms[i]) <==> Escapable(es[i].key) && EscapableValue(es[i].value)
    {
      LayoutMembersAt(style, entries, es, level + 1, i);
      assert es[i] in entries;
      var j :| 0 <= j < |entries| && entries[j] == es[i];
      LayoutRfc(style, entries[j].value, level + 1);
      StringElemsOk(es[i].key);
      RfcBlankOk(ms[i].before);
      RfcBlankOk(ms[i].beforeColon);
      RfcBlankOk(ms[i].afterColon);
      RfcBlankOk(ms[i].after);
    }
    VisitedAll(style, entries);
  }

  /** What holds of every visited entry holds of every entry. */
  lemma {:induction false} VisitedAll(style: Style, entries: seq<Entry>)
    ensures var es := Visit(style, entries);
            (forall i | 0 <= i < |es| :: Escapable(es[i].key) && EscapableValue(es[i].value))
            <==> forall i | 0 <= i < |entries| :: Escapable(entries[i].key) && EscapableValue(entries[i].value)
  {
    hide Escapable, EscapableValue, Visit;
    var es := Visit(style, entries);
    SameEntries(es, entries);
    SameEntries(entries, es);
  }

  // ---------- printed texts ----------

  ghost predicate IsRfcText(s: string) {
    exists t :: Rfc8259(t) && s == Text(t)
  }

  /** The printed text of a value is an RFC 8259 text exactly when no key or string of the value
      holds a control character other than the five the printer escapes. */
  lemma {:induction false} PrintedIsRfcExactly(style: Style, v: Value)
    requires FixedDoubles(style.fmt, v)
    ensures IsRfcText(GenText(style, v, 0)) <==> EscapableValue(v)
  {
    hide GenText, Layout, Text, Rfc8259, TreeOk, EscapableValue, FixedDoubles, CharsOk;
    var t := Layout(style, v, 0);
    LayoutText(style, v, 0);
    LayoutRfc(style, v, 0);
    if u :| Rfc8259(u) && GenText(style, v, 0) == Text(u) {
      RfcTreeOk(u);
      RfcChars(u);
      LayoutChars(style, v);
    }
  }

  /** A conversion that reads everything. */
  const READS_ALL: ReadDouble := _ => Some(NaN)

  lemma {:induction false} AllRead(t: Tree)
    requires Rfc8259(t)
    ensures NumbersRead(READS_ALL, t)
    decreases t
  {
    match t
    case TArr(_, items) =>
      forall i | 0 <= i < |items| ensures NumbersRead(READS_ALL, items[i].value) {
        assert RfcItem(items[i]);
        AllRead(items[i].value);
      }
    case TObj(_, members) =>
      forall i | 0 <= i < |members| ensures NumbersRead(READS_ALL, members[i].value) {
        assert RfcMember(members[i]);
        AllRead(members[i].value);
      }
    case _ =>
  }

  lemma {:induction false} RfcChars(u: Tree)
    requires Rfc8259(u)
    ensures CharsOk(Text(u)) <==> TreeOk(u)
  {
    hide Text, TreeOk, CharsOk, Rfc8259, NumbersRead;
    AllRead(u);
    Rfc8259Valid(READS_ALL, u);
    TextChars(READS_ALL, u);
  }

  lemma {:induction false} LayoutChars(style: Style, v: Value)
    requires FixedDoubles(style.fmt, v)
    ensures CharsOk(Text(Layout(style, v, 0))) <==> TreeOk(Layout(style, v, 0))
  {
    hide Text, TreeOk, CharsOk, Layout, Valid, FixedDoubles;
    LayoutValid(READS_ALL, style, v, 0);
    TextChars(READS_ALL, Layout(style, v, 0));
  }

  /** The conversion reads every text. */
  ghost predicate Total(fd: ReadDouble) {
    forall text :: fd(text).Some?
  }

  lemma {:induction false} LayoutValid(fd: ReadDouble, style: Style, v: Value, level: nat)
    requires Total(fd) && FixedDoubles(style.fmt, v)
    ensures Valid(fd, Layout(style, v, level))
    decreases v
  {
    hide LayoutItems, LayoutMembers, StringElems, IsInt32, Blank;
    match v
    case VInt(i) => IntNumberValue(fd, i);
    case VStr(s) => StringElemsValue(s);
    case VArr(items) =>
      BlankNothing();
      var ts := LayoutItems(style, items, level + 1);
      forall i | 0 <= i < |items| ensures ValidItem(fd, ts[i]) {
        LayoutItemsAt(style, items, level + 1, i);
        LayoutValid(fd, style, items[i], level + 1);
      }
    case VObj(entries) =>
      BlankNothing();
      var es := Visit(style, entries);
      var ms := LayoutMembers(style, entries, es, level + 1);
      forall i | 0 <= i < |es| ensures ValidMember(fd, ms[i]) {
        LayoutMembersAt(style, entries, es, level + 1, i);
        assert es[i] in entries;
        var j :| 0 <= j < |entries| && entries[j] == es[i];
        StringElemsValue(es[i].key);
        LayoutValid(fd, style, entries[j].value, level + 1);
      }
    case _ =>
  }

  lemma BlankNothing()
    ensures Blank("")
  {
  }
}
