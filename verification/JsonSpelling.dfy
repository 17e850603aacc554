/** What printed text looks like: its line breaks, indents, escapes, numbers and the order of members. */
module JsonSpelling {
  // `IsPrinted` says of a concrete syntax tree, clause by clause, what the documentation of the
  // printer promises; the printed text is the text of such a tree.

  import opened Wrappers
  import opened Digits
  import opened KeyOrder
  import opened JsonValue
  import opened JsonGrammar
  import opened JsonGenerator
  import opened JsonRoundTrip

  /** A line feed and `width` spaces per level; nothing in compact text. */
  predicate IsBreak(width: int, w: string, level: nat) {
    if width <= 0 then w == ""
    else |w| == 1 + level * width && w[0] == '\n' && forall i | 1 <= i < |w| :: w[i] == ' '
  }

  /** The characters that are escaped, and the letter after the backslash. */
  const PRINTED_ESCAPES: seq<(char, char)> :=
    [('\"', '\"'), ('\\', '\\'), (8 as char, 'b'), (12 as char, 'f'), (10 as char, 'n'), (13 as char, 'r'), (9 as char, 't')]

  predicate IsEscaped(c: char) {
    exists k | 0 <= k < |PRINTED_ESCAPES| :: PRINTED_ESCAPES[k].0 == c
  }

  /** Every character is one element: its escape when it is listed, itself otherwise. */
  predicate SpellsChar(e: Elem, c: char) {
    if IsEscaped(c) then e.Esc? && (c, e.c) in PRINTED_ESCAPES else e == Raw(c)
  }

  predicate SpellsString(es: seq<Elem>, s: string) {
    |es| == |s| && forall i | 0 <= i < |s| :: SpellsChar(es[i], s[i])
  }

  /** Decimal digits without leading zeros, and a minus sign when negative. */
  predicate SpellsInt(n: Number, i: int) {
    && n.frac.None? && n.exp.None?
    && (n.neg <==> i < 0)
    && AllDigits(n.whole, 10) && n.whole != "" && (n.whole[0] == '0' ==> |n.whole| == 1)
    && ValueOf(n.whole, 10) == if i < 0 then -i else i
  }

  /** The members in the order in which they are written. */
  predicate InWrittenOrder(style: Style, order: seq<Entry>, table: seq<Entry>) {
    multiset(order) == multiset(table) && if style.sortKeys then KeysAscend(order) else order == table
  }

  ghost predicate IsPrinted(style: Style, t: Tree, v: Value, level: nat)
    decreases v, 1
  {
    match v
    case VNull => t == TNull
    case VBool(b) => t == TBool(b)
    case VInt(i) => t.TNum? && SpellsInt(t.n, i)
    case VDouble(d) => t.TNum? && NumberText(t.n) == style.fmt(d)
    case VStr(s) => t.TStr? && SpellsString(t.elems, s)
    case VArr(items) => t.TArr? && t.pad == "" && ItemsPrinted(style, t.items, items, level)
    case VObj(entries) =>
      && t.TObj? && t.pad == ""
      && exists order :: InWrittenOrder(style, order, entries) && MembersPrinted(style, t.members, order, entries, level)
  }

  /** Every item on its own line one level further in, the closing bracket on one at this level. */
  ghost predicate ItemsPrinted(style: Style, ts: seq<Item>, items: seq<Value>, level: nat)
    decreases items, 0
  {
    && |ts| == |items|
    && forall i | 0 <= i < |items| ::
         && IsBreak(style.width, ts[i].before, level + 1)
         && (if i == |items| - 1 then IsBreak(style.width, ts[i].after, level) else ts[i].after == "")
         && IsPrinted(style, ts[i].value, items[i], level + 1)
  }

  /** Likewise for members, with a space after the colon in indented text. */
  ghost predicate MembersPrinted(style: Style, ms: seq<Member>, order: seq<Entry>, all: seq<Entry>, level: nat)
    decreases all, 0
  {
    && |ms| == |order| && Among(order, all)
    && forall i | 0 <= i < |order| ::
         && IsBreak(style.width, ms[i].before, level + 1)
         && (if i == |order| - 1 then IsBreak(style.width, ms[i].after, level) else ms[i].after == "")
         && SpellsString(ms[i].key, order[i].key)
         && ms[i].beforeColon == "" && ms[i].afterColon == (if style.width > 0 then " " else "")
         && IsPrinted(style, ms[i].value, order[i].value, level + 1)
  }

  // ---------- the printed tree is so spelled ----------

  lemma BreakIsBreak(style: Style, level: nat)
    ensures IsBreak(style.width, Break(style, level), level)
  {
  }

  lemma CharElemSpells(c: char)
    ensures SpellsChar(CharElem(c), c)
  {
    var list := PRINTED_ESCAPES;
    assert list[0] == ('\"', '\"') && list[1] == ('\\', '\\') && list[2] == (8 as char, 'b') && list[3] == (12 as char, 'f');
    assert list[4] == ('\n', 'n') && list[5] == ('\r', 'r') && list[6] == ('\t', 't');
  }

  lemma {:induction false} StringElemsSpell(s: string)
    ensures SpellsString(StringElems(s), s)
  {
    hide CharElem, SpellsChar;
    forall i | 0 <= i < |s| ensures SpellsChar(StringElems(s)[i], s[i]) { CharElemSpells(s[i]); }
  }

  lemma {:induction false} IntNumberSpells(i: int32)
    ensures SpellsInt(IntNumber(i), i)
  {
    var k: int := i;
    var n := if k < 0 then -k else k;
    NumeralCanonical(n, 10);
    NumeralRoundTrip(n, 10);
    hide Numeral;
  }

  lemma {:induction false} LayoutIsPrinted(style: Style, v: Value, level: nat)
    requires FixedDoubles(style.fmt, v)
    ensures IsPrinted(style, Layout(style, v, level), v, level)
    decreases v, 1
  {
    hide LayoutItems, LayoutMembers, StringElems, SpellsString, SpellsInt, ItemsPrinted, MembersPrinted, FixedPoint;
    match v
    case VInt(i) => IntNumberSpells(i);
    case VStr(s) => StringElemsSpell(s);
    case VArr(items) => LayoutItemsPrinted(style, items, level);
    case VObj(entries) =>
      hide KeysAscend;
      LayoutMembersPrinted(style, entries, Visit(style, entries), level);
      VisitInOrder(style, entries);
    case _ =>
  }

  lemma {:induction false} LayoutItemsPrinted(style: Style, items: seq<Value>, level: nat)
    requires forall i | 0 <= i < |items| :: FixedDoubles(style.fmt, items[i])
    ensures ItemsPrinted(style, LayoutItems(style, items, level + 1), items, level)
    decreases items, 0
  {
    hide LayoutItems, Layout, IsPrinted, IsBreak, FixedDoubles;
    var ts := LayoutItems(style, items, level + 1);
    BreakIsBreak(style, level);
    BreakIsBreak(style, level + 1);
    forall i | 0 <= i < |items|
      ensures IsBreak(style.width, ts[i].before, level + 1)
      ensures if i == |items| - 1 then IsBreak(style.width, ts[i].after, level) else ts[i].after == ""
      ensures IsPrinted(style, ts[i].value, items[i], level + 1)
    {
      LayoutItemsAt(style, items, level + 1, i);
      LayoutIsPrinted(style, items[i], level + 1);
    }
  }

  lemma {:induction false} LayoutMembersPrinted(style: Style, all: seq<Entry>, order: seq<Entry>, level: nat)
    requires Among(order, all) && forall i | 0 <= i < |all| :: FixedDoubles(style.fmt, all[i].value)
    ensures MembersPrinted(style, LayoutMembers(style, all, order, level + 1), order, all, level)
    decreases all, 0
  {
    hide LayoutMembers, Layout, IsPrinted, IsBreak, SpellsString, FixedDoubles;
    var ms := LayoutMembers(style, all, order, level + 1);
    BreakIsBreak(style, level);
    BreakIsBreak(style, level + 1);
    forall i | 0 <= i < |order|
      ensures IsBreak(style.width, ms[i].before, level + 1)
      ensures if i == |order| - 1 then IsBreak(style.width, ms[i].after, level) else ms[i].after == ""
      ensures SpellsString(ms[i].key, order[i].key)
      ensures ms[i].beforeColon == "" && ms[i].afterColon == (if style.width > 0 then " " else "")
      ensures IsPrinted(style, ms[i].value, order[i].value, level + 1)
    {
      LayoutMembersAt(style, all, order, level + 1, i);
      StringElemsSpell(order[i].key);
      assert order[i] in all;
      var j :| 0 <= j < |all| && all[j] == order[i];
      LayoutIsPrinted(style, all[j].value, level + 1);
    }
  }

  /** The printed text is the text of a tree spelled like this: at every depth the members are in key
      order, or in table order without sorting, and every line break has the indent of its depth. */
  lemma {:induction false} PrintedIsSpelled(style: Style, v: Value)
    requires FixedDoubles(style.fmt, v)
    ensures exists t :: IsPrinted(style, t, v, 0) && Text(t) == GenText(style, v, 0)
  {
    hide Layout, IsPrinted, Text, GenText, FixedDoubles;
    LayoutText(style, v, 0);
    LayoutIsPrinted(style, v, 0);
  }
}
