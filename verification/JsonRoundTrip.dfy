/** Strict parsing undoes printing. */
module JsonRoundTrip {
  // The printed text is the text of a grammar tree that denotes the printed value, so completeness
  // of the parser gives the value back.

  import opened Wrappers
  import opened Digits
  import opened KeyOrder
  import opened JsonValue
  import opened JsonGrammar
  import opened JsonParser
  import opened JsonCompleteness
  import opened JsonGenerator

  // ---------- doubles ----------

  /** What printf writes for `%f`: digits without leading zeros, a point and decimals. */
  predicate FixedNumber(n: Number) {
    RfcNumber(n) && n.frac.Some? && n.exp.None?
  }

  ghost predicate FixedPoint(text: string) {
    exists n :: FixedNumber(n) && NumberText(n) == text
  }

  /** Every double of the value has a fixed-point spelling, as finite doubles do. */
  ghost predicate FixedDoubles(fmt: PrintDouble, v: Value)
    decreases v
  {
    match v
    case VDouble(d) => FixedPoint(fmt(d))
    case VArr(items) => forall i | 0 <= i < |items| :: FixedDoubles(fmt, items[i])
    case VObj(entries) => forall i | 0 <= i < |entries| :: FixedDoubles(fmt, entries[i].value)
    case _ => true
  }

  /** Every double of the value is what the conversion to doubles makes of its spelling. */
  predicate ReadsBack(fd: ReadDouble, fmt: PrintDouble, v: Value)
    decreases v
  {
    match v
    case VDouble(d) => fd(fmt(d)) == Some(d)
    case VArr(items) => forall i | 0 <= i < |items| :: ReadsBack(fd, fmt, items[i])
    case VObj(entries) => forall i | 0 <= i < |entries| :: ReadsBack(fd, fmt, entries[i].value)
    case _ => true
  }

  predicate NoDoubles(v: Value)
    decreases v
  {
    match v
    case VDouble(_) => false
    case VArr(items) => forall i | 0 <= i < |items| :: NoDoubles(items[i])
    case VObj(entries) => forall i | 0 <= i < |entries| :: NoDoubles(entries[i].value)
    case _ => true
  }

  /** Without doubles nothing is asked of the two conversions. */
  lemma {:induction false} NoDoublesReadBack(fd: ReadDouble, fmt: PrintDouble, v: Value)
    requires NoDoubles(v)
    ensures FixedDoubles(fmt, v) && ReadsBack(fd, fmt, v) && NoNaN(v)
    decreases v
  {
    match v
    case VArr(items) =>
      forall i | 0 <= i < |items| ensures FixedDoubles(fmt, items[i]) && ReadsBack(fd, fmt, items[i]) && NoNaN(items[i]) {
        NoDoublesReadBack(fd, fmt, items[i]);
      }
    case VObj(entries) =>
      forall i | 0 <= i < |entries|
        ensures FixedDoubles(fmt, entries[i].value) && ReadsBack(fd, fmt, entries[i].value) && NoNaN(entries[i].value)
      {
        NoDoublesReadBack(fd, fmt, entries[i].value);
      }
    case _ =>
  }

  // ---------- the tree of a printed value ----------

  /** The line break before the given level. */
  function Break(style: Style, level: nat): (w: string)
    ensures Blank(w) && RfcBlank(w)
  {
    Newline(style) + Indent(style, level)
  }

  function CharElem(c: char): (e: Elem)
    ensures ValidElem(e) && ElemText(e) == CharText(c) && ElemValue(e) == [c]
  {
    match c
    case '\"' => Esc('\"')
    case '\\' => Esc('\\')
    case '\n' => Esc('n')
    case '\r' => Esc('r')
    case '\t' => Esc('t')
    case _ => if c as int == 8 then Esc('b') else if c as int == 12 then Esc('f') else Raw(c)
  }

  function StringElems(s: string): (es: seq<Elem>)
    ensures |es| == |s| && forall i | 0 <= i < |s| :: es[i] == CharElem(s[i])
  {
    seq(|s|, i requires 0 <= i < |s| => CharElem(s[i]))
  }

  function IntNumber(i: int32): (n: Number) {
    var k: int := i;
    Number(k < 0, Numeral(if k < 0 then -k else k, 10), None, None)
  }

  /** The number that a fixed-point spelling spells. */
  ghost function DoubleNumber(text: string): (n: Number)
    ensures FixedPoint(text) ==> FixedNumber(n) && NumberText(n) == text
  {
    if FixedPoint(text) then
      var n :| FixedNumber(n) && NumberText(n) == text;
      n
    else Number(false, "0", None, None)
  }

  ghost function Layout(style: Style, v: Value, level: nat): (t: Tree)
    decreases v, 0
  {
    match v
    case VNull => TNull
    case VBool(b) => TBool(b)
    case VInt(i) => TNum(IntNumber(i))
    case VDouble(d) => TNum(DoubleNumber(style.fmt(d)))
    case VStr(s) => TStr(StringElems(s))
    case VArr(items) => TArr("", LayoutItems(style, items, level + 1))
    case VObj(entries) => TObj("", LayoutMembers(style, entries, Visit(style, entries), level + 1))
  }

  ghost function LayoutItems(style: Style, items: seq<Value>, level: nat): (r: seq<Item>)
    requires level > 0
    ensures |r| == |items|
    decreases items, 0
  {
    if items == [] then []
    else
      [Item(Break(style, level), Layout(style, items[0], level), if |items| == 1 then Break(style, level - 1) else "")]
      + LayoutItems(style, items[1..], level)
  }

  ghost function LayoutMember(style: Style, all: seq<Entry>, e: Entry, level: nat, after: string): (m: Member)
    requires e in all
    decreases all, 0
  {
    Member(Break(style, level), StringElems(e.key), "", if style.width > 0 then " " else "",
           Layout(style, e.value, level), after)
  }

  ghost function LayoutMembers(style: Style, all: seq<Entry>, entries: seq<Entry>, level: nat): (r: seq<Member>)
    requires level > 0 && Among(entries, all)
    ensures |r| == |entries|
    decreases all, |entries| + 1
  {
    if entries == [] then []
    else
      [LayoutMember(style, all, entries[0], level, if |entries| == 1 then Break(style, level - 1) else "")]
      + LayoutMembers(style, all, entries[1..], level)
  }

  // ---------- the tree spells the printed text ----------

  lemma CharsTextStep(s: string, i: nat)
    requires i < |s|
    ensures CharsText(s[..i + 1]) == CharsText(s[..i]) + CharText(s[i])
  {
    hide CharText;
    var u := s[..i + 1];
    assert u[..|u| - 1] == s[..i];
  }

  lemma {:induction false} BodyTextIsChars(s: string, i: nat)
    requires i <= |s|
    ensures CharsText(s) + "\"" == CharsText(s[..i]) + BodyText(StringElems(s)[i..])
    decreases |s| - i
  {
    hide CharText, CharsText, StringElems;
    if i == |s| {
      assert s[..i] == s && StringElems(s)[i..] == [];
    } else {
      BodyTextIsChars(s, i + 1);
      CharsTextStep(s, i);
      hide BodyText;
      Concat3(CharsText(s[..i]), CharText(s[i]), BodyText(StringElems(s)[i + 1..]));
    }
  }

  lemma {:induction false} StringTextIsQuoted(s: string)
    ensures StringText(StringElems(s)) == QuotedText(s)
  {
    hide BodyText, StringElems;
    BodyTextIsChars(s, 0);
    assert s[..0] == "" && StringElems(s)[0..] == StringElems(s);
    assert CharsText(s[..0]) == "";
    hide CharsText;
    assert CharsText(s) + "\"" == BodyText(StringElems(s));
    Concat3("\"", CharsText(s), "\"");
  }

  lemma {:induction false} IntNumberText(i: int32)
    ensures NumberText(IntNumber(i)) == IntText(i)
  {
  }

  lemma {:induction false} LayoutText(style: Style, v: Value, level: nat)
    requires FixedDoubles(style.fmt, v)
    ensures Text(Layout(style, v, level)) == GenText(style, v, level)
    decreases v, 0
  {
    hide LayoutItems, LayoutMembers, ItemsText, MembersText, ArrayRest, ObjectRest, QuotedText, StringText, IntText,
         NumberText, Visit, Newline;
    match v
    case VInt(i) => IntNumberText(i);
    case VStr(s) => StringTextIsQuoted(s);
    case VArr(items) =>
      if items != [] { LayoutItemsText(style, items, level + 1); }
    case VObj(entries) =>
      if entries != [] { LayoutMembersText(style, entries, Visit(style, entries), level + 1); }
    case _ =>
  }

  lemma {:induction false} LayoutItemsText(style: Style, items: seq<Value>, level: nat)
    requires level > 0 && items != [] && forall i | 0 <= i < |items| :: FixedDoubles(style.fmt, items[i])
    ensures ItemsText(LayoutItems(style, items, level)) == Newline(style) + ArrayRest(style, items, level)
    decreases items, 0
  {
    hide Newline, Indent, GenText, Text, Layout, FixedDoubles, ItemsText, ArrayRest;
    LayoutText(style, items[0], level);
    var ts := LayoutItems(style, items, level);
    if |items| > 1 {
      assert ts[1..] == LayoutItems(style, items[1..], level);
      LayoutItemsText(style, items[1..], level);
      hide LayoutItems;
    }
    ItemsTextStep(style, ts, items, level);
  }

  lemma {:induction false} ItemsTextStep(style: Style, ts: seq<Item>, items: seq<Value>, level: nat)
    requires level > 0 && |ts| == |items| > 0
    requires ts[0].before == Break(style, level) && Text(ts[0].value) == GenText(style, items[0], level)
    requires ts[0].after == if |items| == 1 then Break(style, level - 1) else ""
    requires |items| > 1 ==> ItemsText(ts[1..]) == Newline(style) + ArrayRest(style, items[1..], level)
    ensures ItemsText(ts) == Newline(style) + ArrayRest(style, items, level)
  {
    hide Newline, Indent, GenText, Text;
  }

  lemma {:induction false} LayoutMemberText(style: Style, all: seq<Entry>, e: Entry, level: nat, after: string)
    requires e in all && FixedDoubles(style.fmt, e.value)
    ensures var m := LayoutMember(style, all, e, level, after);
            MemberHead(m) + Text(m.value) == Newline(style) + MemberText(style, all, e, level)
    decreases all, 0
  {
    hide Newline, Indent, GenText, Text, Layout, FixedDoubles, QuotedText, StringText;
    StringTextIsQuoted(e.key);
    LayoutText(style, e.value, level);
  }

  lemma {:induction false} LayoutMembersText(style: Style, all: seq<Entry>, entries: seq<Entry>, level: nat)
    requires level > 0 && Among(entries, all) && forall i | 0 <= i < |all| :: FixedDoubles(style.fmt, all[i].value)
    requires entries != []
    ensures MembersText(LayoutMembers(style, all, entries, level)) == Newline(style) + ObjectRest(style, all, entries, level)
    decreases all, |entries| + 1
  {
    hide Newline, Indent, GenText, Text, Layout, FixedDoubles, MemberText, LayoutMember, MemberHead;
    var after := if |entries| == 1 then Break(style, level - 1) else "";
    var ms := LayoutMembers(style, all, entries, level);
    assert ms[0] == LayoutMember(style, all, entries[0], level, after);
    LayoutMemberText(style, all, entries[0], level, after);
    LayoutMemberAfter(style, all, entries[0], level, after);
    if |entries| > 1 {
      assert ms[1..] == LayoutMembers(style, all, entries[1..], level);
      LayoutMembersText(style, all, entries[1..], level);
    }
  }

  lemma LayoutMemberAfter(style: Style, all: seq<Entry>, e: Entry, level: nat, after: string)
    requires e in all
    ensures LayoutMember(style, all, e, level, after).after == after
  {
  }

  // ---------- the tree denotes the printed value ----------

  lemma {:induction false} StringElemsValue(s: string)
    ensures ValidElems(StringElems(s)) && ElemsValue(StringElems(s)) == s
  {
    hide CharElem, ElemValue, ValidElem, StringElems;
    if s != "" {
      StringElemsValue(s[1..]);
      StringElemsCons(s);
      assert s == [s[0]] + s[1..];
    }
  }

  lemma StringElemsCons(s: string)
    requires s != ""
    ensures StringElems(s) == [CharElem(s[0])] + StringElems(s[1..])
  {
    hide CharElem;
  }

  lemma {:induction false} IntNumberValue(fd: ReadDouble, i: int32)
    ensures ValidNumber(fd, IntNumber(i)) && NumberValue(fd, IntNumber(i)) == Int(i)
  {
    var k: int := i;
    var n := if k < 0 then -k else k;
    NumeralRoundTrip(n, 10);
    DecimalDigits(Numeral(n, 10));
  }

  lemma {:induction false} DoubleNumberValue(fd: ReadDouble, fmt: PrintDouble, d: Float)
    requires FixedPoint(fmt(d)) && fd(fmt(d)) == Some(d)
    ensures var n := DoubleNumber(fmt(d)); ValidNumber(fd, n) && NumberValue(fd, n) == Double(d)
  {
  }

  lemma {:induction false} LayoutDenotes(fd: ReadDouble, style: Style, v: Value, level: nat)
    requires FixedDoubles(style.fmt, v) && ReadsBack(fd, style.fmt, v) && WellFormed(v)
    ensures Valid(fd, Layout(style, v, level)) && Denote(fd, Layout(style, v, level)) == Meaning(v)
    decreases v, 0
  {
    match v
    case VInt(i) => IntNumberValue(fd, i);
    case VDouble(d) => DoubleNumberValue(fd, style.fmt, d);
    case VStr(s) => StringElemsValue(s);
    case VArr(items) =>
      LayoutItemsDenote(fd, style, items, level + 1);
    case VObj(entries) =>
      LayoutMembersDenote(fd, style, entries, level + 1);
      VisitKeepsMeaning(style, entries);
    case _ =>
  }

  lemma {:induction false} LayoutItemsAt(style: Style, items: seq<Value>, level: nat, i: nat)
    requires level > 0 && i < |items|
    ensures var it := LayoutItems(style, items, level)[i];
            && Blank(it.before) && Blank(it.after) && RfcBlank(it.before) && RfcBlank(it.after)
            && it.value == Layout(style, items[i], level)
            && it.before == Break(style, level) && it.after == if i + 1 == |items| then Break(style, level - 1) else ""
  {
    hide Layout;
    if i > 0 { LayoutItemsAt(style, items[1..], level, i - 1); }
  }

  lemma {:induction false} DenoteItemsAt(fd: ReadDouble, items: seq<Item>, i: nat)
    requires i < |items| && (forall k | 0 <= k < |items| :: ValidItem(fd, items[k])) && ValidItem(fd, items[i])
    ensures |DenoteItems(fd, items)| == |items| && DenoteItems(fd, items)[i] == Denote(fd, items[i].value)
  {
    hide Denote;
    var front := items[..|items| - 1];
    if front != [] {
      DenoteItemsAt(fd, front, if i < |front| then i else 0) by { assert ValidItem(fd, items[0]); }
    }
  }

  lemma {:induction false} LayoutItemsDenote(fd: ReadDouble, style: Style, items: seq<Value>, level: nat)
    requires level > 0 && forall i | 0 <= i < |items| :: FixedDoubles(style.fmt, items[i]) && ReadsBack(fd, style.fmt, items[i]) && WellFormed(items[i])
    ensures forall i | 0 <= i < |items| :: ValidItem(fd, LayoutItems(style, items, level)[i])
    ensures DenoteItems(fd, LayoutItems(style, items, level)) == MeaningItems(items)
    decreases items, 0
  {
    hide Layout, Denote, Meaning, LayoutItems, DenoteItems, Valid, FixedDoubles, ReadsBack, WellFormed;
    var ts := LayoutItems(style, items, level);
    forall i | 0 <= i < |items|
      ensures ValidItem(fd, ts[i]) && Denote(fd, ts[i].value) == Meaning(items[i])
    {
      LayoutItemsAt(style, items, level, i);
      LayoutDenotes(fd, style, items[i], level);
    }
    forall i | 0 <= i < |items|
      ensures |DenoteItems(fd, ts)| == |items| && DenoteItems(fd, ts)[i] == MeaningItems(items)[i]
    {
      DenoteItemsAt(fd, ts, i);
    }
    if items == [] { DenoteNone(fd); }
  }

  lemma {:induction false} LayoutMembersAt(style: Style, all: seq<Entry>, entries: seq<Entry>, level: nat, i: nat)
    requires level > 0 && Among(entries, all)
    requires i < |entries|
    ensures var m := LayoutMembers(style, all, entries, level)[i];
            && Blank(m.before) && Blank(m.beforeColon) && Blank(m.afterColon) && Blank(m.after)
            && RfcBlank(m.before) && RfcBlank(m.beforeColon) && RfcBlank(m.afterColon) && RfcBlank(m.after)
            && m.key == StringElems(entries[i].key) && m.value == Layout(style, entries[i].value, level)
            && m.before == Break(style, level) && m.after == (if i + 1 == |entries| then Break(style, level - 1) else "")
            && m.beforeColon == "" && m.afterColon == if style.width > 0 then " " else ""
    decreases |entries|
  {
    hide Layout, Break;
    if i > 0 { LayoutMembersAt(style, all, entries[1..], level, i - 1); }
  }

  lemma {:induction false} LayoutMembersDenote(fd: ReadDouble, style: Style, all: seq<Entry>, level: nat)
    requires level > 0 && forall i | 0 <= i < |all| :: FixedDoubles(style.fmt, all[i].value) && ReadsBack(fd, style.fmt, all[i].value) && WellFormed(all[i].value)
    ensures var ms := LayoutMembers(style, all, Visit(style, all), level);
            && (forall i | 0 <= i < |ms| :: ValidMember(fd, ms[i]))
            && DenoteMembers(fd, ms) == MeaningEntries(Visit(style, all))
    decreases all, 0
  {
    hide Layout, Denote, Meaning, LayoutMembers, DenoteMembers, MeaningEntries, Valid, FixedDoubles, ReadsBack, WellFormed, StringElems, Visit, ElemsValue;
    var entries := Visit(style, all);
    var ms := LayoutMembers(style, all, entries, level);
    forall i | 0 <= i < |ms|
      ensures ValidMember(fd, ms[i]) && ElemsValue(ms[i].key) == entries[i].key
      ensures Denote(fd, ms[i].value) == Meaning(entries[i].value)
    {
      LayoutMembersAt(style, all, entries, level, i);
      assert entries[i] in all;
      var j :| 0 <= j < |all| && all[j] == entries[i];
      StringElemsValue(entries[i].key);
      LayoutDenotes(fd, style, all[j].value, level);
    }
    DenoteMembersPrefix(fd, ms, entries, |ms|);
    assert ms[..|ms|] == ms && entries[..|ms|] == entries;
  }

  /** Members that denote the entries one by one denote the entries' map. */
  lemma {:induction false} DenoteMembersPrefix(fd: ReadDouble, ms: seq<Member>, entries: seq<Entry>, n: nat)
    requires n <= |ms| == |entries|
    requires forall i | 0 <= i < |ms| ::
               ValidMember(fd, ms[i]) && ElemsValue(ms[i].key) == entries[i].key
               && Denote(fd, ms[i].value) == Meaning(entries[i].value)
    ensures DenoteMembers(fd, ms[..n]) == MeaningEntries(entries[..n])
  {
    hide Denote, Meaning, ElemsValue, Valid;
    if n > 0 {
      DenoteMembersPrefix(fd, ms, entries, n - 1);
      assert ms[..n][..n - 1] == ms[..n - 1] && entries[..n][..n - 1] == entries[..n - 1];
    }
  }

  // ---------- visiting in key order changes nothing ----------

  lemma {:induction false} MeaningSnoc(xs: seq<Entry>, e: Entry)
    ensures MeaningEntries(xs + [e]) == MeaningEntries(xs)[e.key := Meaning(e.value)]
  {
    hide Meaning;
    assert (xs + [e])[..|xs|] == xs;
  }

  lemma KeysSnoc(xs: seq<Entry>, e: Entry)
    ensures KeysOf(xs + [e]) == KeysOf(xs) + {e.key}
  {
    var ys := xs + [e];
    assert forall i | 0 <= i < |xs| :: ys[i] == xs[i];
    assert ys[|xs|] == e;
  }

  lemma {:induction false} InsertKeepsMeaning(e: Entry, xs: seq<Entry>)
    requires e.key !in KeysOf(xs)
    ensures MeaningEntries(Insert(e, xs)) == MeaningEntries(xs)[e.key := Meaning(e.value)]
  {
    hide Meaning, KeyLess, MeaningEntries, KeysOf;
    if xs == [] {
      MeaningSnoc([], e);
      assert [] + [e] == [e];
    } else {
      var front, last := xs[..|xs| - 1], xs[|xs| - 1];
      assert xs == front + [last];
      MeaningSnoc(front, last);
      KeysSnoc(front, last);
      if KeyLess(last.key, e.key) {
        MeaningSnoc(xs, e);
      } else {
        InsertKeepsMeaning(e, front);
        MeaningSnoc(Insert(e, front), last);
      }
    }
  }

  lemma {:induction false} SortKeepsMeaning(entries: seq<Entry>)
    requires DistinctKeys(entries)
    ensures MeaningEntries(SortEntries(entries)) == MeaningEntries(entries)
  {
    hide Meaning, Insert;
    if entries != [] {
      var front, last := entries[..|entries| - 1], entries[|entries| - 1];
      SortKeepsMeaning(front);
      assert last.key !in KeysOf(front);
      assert KeysOf(SortEntries(front)) == MeaningEntries(SortEntries(front)).Keys;
      InsertKeepsMeaning(last, SortEntries(front));
    }
  }

  lemma {:induction false} VisitKeepsMeaning(style: Style, entries: seq<Entry>)
    requires DistinctKeys(entries)
    ensures MeaningEntries(Visit(style, entries)) == MeaningEntries(entries)
  {
    SortKeepsMeaning(entries);
  }

  // ---------- round trip ----------

  /** Strict parsing of the printed text of a value returns the value and stops at the end of the
      text: for every indent width, in every visiting order, whatever bytes keys and strings hold,
      if the doubles are read back from their spellings. */
  lemma {:induction false} ParseGenerated(fd: ReadDouble, style: Style, v: Value)
    requires WellFormed(v) && FixedDoubles(style.fmt, v) && ReadsBack(fd, style.fmt, v)
    ensures var text := GenText(style, v, 0); ValueAt(fd, text, 0) == Ok(Meaning(v), |text|)
  {
    hide ValueAt, GenText, Layout, Denote, Valid, Text, Meaning, WellFormed, FixedDoubles, ReadsBack, Ends;
    LayoutText(style, v, 0);
    LayoutDenotes(fd, style, v, 0);
    var t := Layout(style, v, 0);
    SeparatorEnds(t, "", 0);
    TextParses(fd, t, "", "");
    assert "" + Text(t) + "" == Text(t) && "" + Text(t) == Text(t);
  }

  /** Any value the parser can hold as the result of parsing the printed text is equal, under
      operator==, to the value printed. */
  lemma {:induction false} RoundTrip(fd: ReadDouble, style: Style, v: Value, w: Value)
    requires WellFormed(v) && FixedDoubles(style.fmt, v) && ReadsBack(fd, style.fmt, v) && NoNaN(v) && WellFormed(w)
    requires var parse := ValueAt(fd, GenText(style, v, 0), 0); parse.Ok? && Meaning(w) == parse.value
    ensures Equal(v, w)
  {
    hide ValueAt, GenText, Meaning, WellFormed, FixedDoubles, ReadsBack, NoNaN, Equal;
    ParseGenerated(fd, style, v);
    EqualIffSameMeaning(v, w);
  }
}
