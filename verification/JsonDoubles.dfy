/** When a value with doubles survives printing and parsing. */
module JsonDoubles {
  // std::to_string keeps six decimals, so not every double comes back; the value does exactly when
  // each of its doubles is what the conversion makes of its spelling.

  import opened Wrappers
  import opened JsonValue
  import opened JsonGrammar
  import opened JsonParser
  import opened JsonCompleteness
  import opened JsonSoundness
  import opened JsonGenerator
  import opened JsonRoundTrip
  import opened JsonPrinted
  import JsonExact

  // ---------- a conversion that reads more ----------

  /** The second conversion reads what the first one reads, as the same double. */
  ghost predicate Extends(fd: ReadDouble, more: ReadDouble) {
    forall text | fd(text).Some? :: more(text) == fd(text)
  }

  lemma {:induction false} ExtendedTree(fd: ReadDouble, more: ReadDouble, t: Tree)
    requires Extends(fd, more) && Valid(fd, t)
    ensures Valid(more, t) && Denote(more, t) == Denote(fd, t)
    decreases t, 0
  {
    hide IsInt32, NumberShape, NumberText, Blank, ValidElems;
    match t
    case TArr(_, items) => ExtendedItems(fd, more, items);
    case TObj(_, members) => ExtendedMembers(fd, more, members);
    case _ =>
  }

  lemma {:induction false} ExtendedItems(fd: ReadDouble, more: ReadDouble, items: seq<Item>)
    requires Extends(fd, more) && forall i | 0 <= i < |items| :: ValidItem(fd, items[i])
    ensures forall i | 0 <= i < |items| :: ValidItem(more, items[i])
    ensures DenoteItems(more, items) == DenoteItems(fd, items)
    decreases items, 0
  {
    hide Valid, Denote, Extends, Blank;
    if items != [] {
      var front, last := items[..|items| - 1], items[|items| - 1];
      assert ValidItem(fd, last);
      ExtendedItems(fd, more, front);
      ExtendedTree(fd, more, last.value);
      forall i | 0 <= i < |items| ensures ValidItem(more, items[i]) { if i < |front| { assert items[i] == front[i]; } }
    }
  }

  lemma {:induction false} ExtendedMembers(fd: ReadDouble, more: ReadDouble, members: seq<Member>)
    requires Extends(fd, more) && forall i | 0 <= i < |members| :: ValidMember(fd, members[i])
    ensures forall i | 0 <= i < |members| :: ValidMember(more, members[i])
    ensures DenoteMembers(more, members) == DenoteMembers(fd, members)
    decreases members, 0
  {
    hide Valid, Denote, Extends, Blank, ValidElems, ElemsValue;
    if members != [] {
      var front, last := members[..|members| - 1], members[|members| - 1];
      assert ValidMember(fd, last);
      ExtendedMembers(fd, more, front);
      ExtendedTree(fd, more, last.value);
      forall i | 0 <= i < |members| ensures ValidMember(more, members[i]) { if i < |front| { assert members[i] == front[i]; } }
    }
  }

  /** What parses with the first conversion parses to the same value with the second. */
  lemma {:induction false} ExtendedParse(fd: ReadDouble, more: ReadDouble, s: string)
    requires Extends(fd, more) && ValueAt(fd, s, 0).Ok?
    ensures ValueAt(more, s, 0).Ok? && ValueAt(more, s, 0).value == ValueAt(fd, s, 0).value
  {
    hide ValueAt, Valid, Denote, Text, Extends, Ends, Blank;
    var v := ValueAt(fd, s, 0).value;
    ParsesExactly(fd, s, v);
    var w, t, rest :| BeginsAs(fd, s, v, w, t, rest);
    ExtendedTree(fd, more, t);
    assert BeginsAs(more, s, v, w, t, rest);
    ParsesExactly(more, s, v);
  }

  // ---------- what the printed tree denotes ----------

  /** If the printed tree denotes the value, then its doubles are read back. */
  lemma {:induction false} DenotedReadsBack(fd: ReadDouble, style: Style, v: Value, level: nat)
    requires Total(fd) && FixedDoubles(style.fmt, v) && WellFormed(v)
    requires Valid(fd, Layout(style, v, level)) && Denote(fd, Layout(style, v, level)) == Meaning(v)
    ensures ReadsBack(fd, style.fmt, v)
    decreases v, 1
  {
    hide LayoutItems, LayoutMembers, StringElems, Visit, DistinctKeys, Blank, ElemsValue, ValidElems, IsInt32, NumberText, NumberShape;
    match v
    case VDouble(d) => FixedIsDouble(fd, style.fmt(d));
    case VArr(items) => ItemsReadBack(fd, style, items, level);
    case VObj(entries) => MembersReadBack(fd, style, entries, level);
    case _ =>
  }

  lemma FixedIsDouble(fd: ReadDouble, text: string)
    requires Total(fd) && FixedPoint(text)
    ensures var n := DoubleNumber(text); ValidNumber(fd, n) && NumberValue(fd, n) == Double(fd(text).value)
  {
  }

  lemma {:induction false} ItemsReadBack(fd: ReadDouble, style: Style, items: seq<Value>, level: nat)
    requires Total(fd) && forall i | 0 <= i < |items| :: FixedDoubles(style.fmt, items[i]) && WellFormed(items[i])
    requires var ts := LayoutItems(style, items, level + 1);
             (forall i | 0 <= i < |ts| :: ValidItem(fd, ts[i])) && DenoteItems(fd, ts) == MeaningItems(items)
    ensures forall i | 0 <= i < |items| :: ReadsBack(fd, style.fmt, items[i])
    decreases items, 0
  {
    hide LayoutItems, Layout, Valid, Denote, Meaning, FixedDoubles, WellFormed, ReadsBack, Total, DenoteItems, MeaningItems;
    var ts := LayoutItems(style, items, level + 1);
    forall i | 0 <= i < |items| ensures ReadsBack(fd, style.fmt, items[i]) {
      assert ValidItem(fd, ts[i]);
      LayoutItemsAt(style, items, level + 1, i);
      DenoteItemsAt(fd, ts, i);
      DenotedReadsBack(fd, style, items[i], level + 1);
    }
  }

  lemma {:induction false} MembersReadBack(fd: ReadDouble, style: Style, all: seq<Entry>, level: nat)
    requires Total(fd) && DistinctKeys(all)
    requires forall i | 0 <= i < |all| :: FixedDoubles(style.fmt, all[i].value) && WellFormed(all[i].value)
    requires var ms := LayoutMembers(style, all, Visit(style, all), level + 1);
             && (forall i | 0 <= i < |ms| :: ValidMember(fd, ms[i]))
             && DenoteMembers(fd, ms) == MeaningEntries(all)
    ensures forall i | 0 <= i < |all| :: ReadsBack(fd, style.fmt, all[i].value)
    decreases all, 0
  {
    hide LayoutMembers, Layout, Valid, Denote, Meaning, FixedDoubles, WellFormed, ReadsBack, Total, DenoteMembers, MeaningEntries,
      Visit, ValidMember;
    var ms := LayoutMembers(style, all, Visit(style, all), level + 1);
    forall j | 0 <= j < |all| ensures ReadsBack(fd, style.fmt, all[j].value) {
      MemberMeans(fd, style, all, level, j);
      DenotedReadsBack(fd, style, all[j].value, level + 1);
    }
  }

  lemma {:induction false} MemberMeans(fd: ReadDouble, style: Style, all: seq<Entry>, level: nat, j: nat)
    requires j < |all| && DistinctKeys(all)
    requires var ms := LayoutMembers(style, all, Visit(style, all), level + 1);
             && (forall i | 0 <= i < |ms| :: ValidMember(fd, ms[i]))
             && DenoteMembers(fd, ms) == MeaningEntries(all)
    ensures var t := Layout(style, all[j].value, level + 1); Valid(fd, t) && Denote(fd, t) == Meaning(all[j].value)
  {
    hide LayoutMembers, Layout, Valid, Denote, Meaning, DenoteMembers, MeaningEntries, Visit, Blank, ElemsValue, StringElems;
    var order := Visit(style, all);
    var ms := LayoutMembers(style, all, order, level + 1);
    SameEntries(all, order);
    assert all[j] in order;
    var i :| 0 <= i < |order| && order[i] == all[j];
    forall k | 0 <= k < |ms|
      ensures ValidMember(fd, ms[k]) && ElemsValue(ms[k].key) == order[k].key && ms[k].value == Layout(style, order[k].value, level + 1)
    {
      assert ValidMember(fd, ms[k]);
      LayoutMembersAt(style, all, order, level + 1, k);
      StringElemsValue(order[k].key);
    }
    JsonExact.VisitDistinct(style, all);
    LastDuplicateWins(fd, ms, i);
    MeaningEntriesLookup(all, j);
  }

  // ---------- the exact condition ----------

  /** The conversion, made to read every text. */
  function Completed(fd: ReadDouble, otherwise: Float): ReadDouble {
    text => if fd(text).Some? then fd(text) else Some(otherwise)
  }

  lemma {:induction false} CompletedReadsBack(fd: ReadDouble, otherwise: Float, style: Style, v: Value)
    requires WellFormed(v) && FixedDoubles(style.fmt, v)
    requires var parse := ValueAt(fd, GenText(style, v, 0), 0); parse.Ok? && parse.value == Meaning(v)
    ensures ReadsBack(Completed(fd, otherwise), style.fmt, v)
  {
    hide ValueAt, GenText, Text, Layout, Valid, Denote, Meaning, FixedDoubles, WellFormed, ReadsBack, Ends;
    var more := Completed(fd, otherwise);
    var t := Layout(style, v, 0);
    ExtendedParse(fd, more, GenText(style, v, 0));
    LayoutText(style, v, 0);
    LayoutValid(more, style, v, 0);
    TextDenotes(more, t);
    DenotedReadsBack(more, style, v, 0);
  }

  lemma {:induction false} TextDenotes(fd: ReadDouble, t: Tree)
    requires Valid(fd, t)
    ensures ValueAt(fd, Text(t), 0).Ok? && ValueAt(fd, Text(t), 0).value == Denote(fd, t)
  {
    hide ValueAt, Text, Valid, Denote, Ends, IsTextOf;
    assert "" + Text(t) + "" == Text(t);
    assert IsTextAs(fd, Text(t), Denote(fd, t), "", t, "");
    assert IsTextOf(fd, Text(t), Denote(fd, t)) by { IsTextIntro(fd, Text(t), Denote(fd, t), "", t, ""); }
    AcceptsExactlyGrammar(fd, Text(t), Denote(fd, t));
  }

  lemma IsTextIntro(fd: ReadDouble, s: string, v: Json, w: string, t: Tree, after: string)
    requires IsTextAs(fd, s, v, w, t, after)
    ensures IsTextOf(fd, s, v)
  {
  }

  /** No double is both NaN and infinite, so two completions tell what the conversion itself reads. */
  lemma {:induction false} BothCompletions(fd: ReadDouble, fmt: PrintDouble, v: Value)
    requires ReadsBack(Completed(fd, NaN), fmt, v) && ReadsBack(Completed(fd, Infinity(false)), fmt, v)
    ensures ReadsBack(fd, fmt, v)
    decreases v
  {
    match v
    case VArr(items) => forall i | 0 <= i < |items| ensures ReadsBack(fd, fmt, items[i]) { BothCompletions(fd, fmt, items[i]); }
    case VObj(entries) =>
      forall i | 0 <= i < |entries| ensures ReadsBack(fd, fmt, entries[i].value) { BothCompletions(fd, fmt, entries[i].value); }
    case _ =>
  }

  /** Strict parsing of the printed text gives the value back if and only if each of its doubles is
      read back from its spelling. */
  lemma {:induction false} RoundTripExactly(fd: ReadDouble, style: Style, v: Value)
    requires WellFormed(v) && FixedDoubles(style.fmt, v)
    ensures var parse := ValueAt(fd, GenText(style, v, 0), 0);
            parse.Ok? && parse.value == Meaning(v) <==> ReadsBack(fd, style.fmt, v)
  {
    hide ValueAt, GenText, Meaning, FixedDoubles, WellFormed, ReadsBack;
    var parse := ValueAt(fd, GenText(style, v, 0), 0);
    if parse.Ok? && parse.value == Meaning(v) {
      CompletedReadsBack(fd, NaN, style, v);
      CompletedReadsBack(fd, Infinity(false), style, v);
      BothCompletions(fd, style.fmt, v);
    }
    if ReadsBack(fd, style.fmt, v) { ParseGenerated(fd, style, v); }
  }
}
