/** The printer: the order in which it visits the members of an object, the text it writes for a
    value, for every indent width, and the class that writes this text piece by piece into its
    output. */
module JsonGenerator {
  import opened Wrappers
  import opened Digits
  import opened KeyOrder
  import opened JsonValue
  import opened JsonGrammar

  /** std::to_string on doubles. */
  type PrintDouble = Float -> string

  /** How a value is printed: the indent width (none when not positive), whether object members
      are visited in key order, and the spelling of doubles. */
  datatype Style = Style(width: int, sortKeys: bool, fmt: PrintDouble)

  // ---------- key order ----------

  function Insert(e: Entry, sorted: seq<Entry>): (r: seq<Entry>)
    ensures multiset(r) == multiset(sorted) + multiset{e}
  {
    if sorted == [] then [e]
    else
      var front, last := sorted[..|sorted| - 1], sorted[|sorted| - 1];
      assert sorted == front + [last];
      if KeyLess(last.key, e.key) then sorted + [e] else Insert(e, front) + [last]
  }

  /** The order std::sort leaves: the same entries, each key below the next. */
  function SortEntries(entries: seq<Entry>): (r: seq<Entry>)
    ensures multiset(r) == multiset(entries)
  {
    if entries == [] then []
    else
      var front, last := entries[..|entries| - 1], entries[|entries| - 1];
      assert entries == front + [last];
      Insert(last, SortEntries(front))
  }

  predicate KeysAscend(entries: seq<Entry>) {
    forall i, j | 0 <= i < j < |entries| :: !KeyLess(entries[j].key, entries[i].key)
  }

  lemma {:induction false} InsertAscends(e: Entry, sorted: seq<Entry>)
    requires KeysAscend(sorted)
    ensures KeysAscend(Insert(e, sorted))
  {
    hide KeyLess;
    if sorted != [] {
      var front, last := sorted[..|sorted| - 1], sorted[|sorted| - 1];
      if KeyLess(last.key, e.key) {
        forall i | 0 <= i < |sorted| ensures !KeyLess(e.key, sorted[i].key) {
          if KeyLess(e.key, sorted[i].key) {
            KeyLessTransitive(last.key, e.key, sorted[i].key);
            KeyLessIrreflexive(last.key);
          }
        }
      } else {
        InsertAscends(e, front);
        var r := Insert(e, front);
        forall i | 0 <= i < |r| ensures !KeyLess(last.key, r[i].key) {
          assert r[i] in multiset(r);
          if r[i] != e {
            assert r[i] in multiset(front);
            var k :| 0 <= k < |front| && front[k] == r[i];
            assert front[k] == sorted[k];
          }
        }
      }
    }
  }

  /** The sorted entries are in key order. */
  lemma {:induction false} SortAscends(entries: seq<Entry>)
    ensures KeysAscend(SortEntries(entries))
  {
    hide KeyLess, Insert;
    if entries != [] {
      SortAscends(entries[..|entries| - 1]);
      InsertAscends(entries[|entries| - 1], SortEntries(entries[..|entries| - 1]));
    }
  }

  lemma SameEntries(a: seq<Entry>, b: seq<Entry>)
    requires multiset(a) == multiset(b)
    ensures |a| == |b| && Among(a, b)
  {
    assert |multiset(a)| == |a| && |multiset(b)| == |b|;
    forall i | 0 <= i < |a| ensures a[i] in b { assert a[i] in multiset(a); }
  }

  /** Every entry of the first list is an entry of the second. */
  predicate Among(entries: seq<Entry>, all: seq<Entry>) {
    forall i | 0 <= i < |entries| :: entries[i] in all
  }

  /** The entries in the order the printer visits them. */
  function Visit(style: Style, entries: seq<Entry>): (r: seq<Entry>)
    ensures multiset(r) == multiset(entries)
    ensures |r| == |entries| && Among(r, entries)
  {
    SameEntries(SortEntries(entries), entries);
    if style.sortKeys then SortEntries(entries) else entries
  }

  /** With sorting the members are visited in key order, without it as the table has them. */
  lemma VisitInOrder(style: Style, entries: seq<Entry>)
    ensures if style.sortKeys then KeysAscend(Visit(style, entries)) else Visit(style, entries) == entries
  {
    hide KeysAscend, SortEntries;
    SortAscends(entries);
  }

  // ---------- the text written ----------

  function Spaces(n: nat): (s: string)
    ensures |s| == n && Blank(s)
  {
    seq(n, _ => ' ')
  }

  function Indent(style: Style, level: nat): (s: string) {
    if style.width > 0 then Spaces(level * style.width) else ""
  }

  function Newline(style: Style): (s: string) {
    if style.width > 0 then "\n" else ""
  }

  /** The decimal spelling std::to_chars gives an int. */
  function IntText(i: int32): (s: string) {
    var n: int := i;
    if n < 0 then "-" + Numeral(-n, 10) else Numeral(n, 10)
  }

  /** The escape of a character, when it has one. */
  function Replacement(c: char): (r: Option<string>) {
    match c
    case '\"' => Some("\\\"")
    case '\\' => Some("\\\\")
    case '\n' => Some("\\n")
    case '\r' => Some("\\r")
    case '\t' => Some("\\t")
    case _ => if c as int == 8 then Some("\\b") else if c as int == 12 then Some("\\f") else None
  }

  function CharText(c: char): (s: string) {
    if Replacement(c).Some? then Replacement(c).value else [c]
  }

  function CharsText(v: string): (s: string) {
    if v == "" then "" else CharsText(v[..|v| - 1]) + CharText(v[|v| - 1])
  }

  function QuotedText(v: string): (s: string) {
    "\"" + CharsText(v) + "\""
  }

  function GenText(style: Style, v: Value, level: nat): (s: string)
    decreases v, 0
  {
    match v
    case VNull => "null"
    case VBool(b) => if b then "true" else "false"
    case VInt(i) => IntText(i)
    case VDouble(d) => style.fmt(d)
    case VStr(t) => QuotedText(t)
    case VArr(items) =>
      "[" + (if items == [] then "]" else Newline(style) + ArrayRest(style, items, level + 1))
    case VObj(entries) =>
      "{" + (if entries == [] then "}" else Newline(style) + ObjectRest(style, entries, Visit(style, entries), level + 1))
  }

  /** From the indent of the first of these items to the closing bracket. */
  function ArrayRest(style: Style, items: seq<Value>, level: nat): (s: string)
    requires level > 0
    decreases items, 0
  {
    if items == [] then ""
    else
      Indent(style, level) + GenText(style, items[0], level)
      + (if |items| == 1 then Newline(style) + Indent(style, level - 1) + "]"
         else "," + Newline(style) + ArrayRest(style, items[1..], level))
  }

  function MemberText(style: Style, all: seq<Entry>, e: Entry, level: nat): (s: string)
    requires e in all
    decreases all, 0
  {
    Indent(style, level) + QuotedText(e.key) + (if style.width > 0 then ": " else ":") + GenText(style, e.value, level)
  }

  /** From the indent of the first of these entries, all of them entries of one object, to the
      closing brace. */
  function ObjectRest(style: Style, all: seq<Entry>, entries: seq<Entry>, level: nat): (s: string)
    requires level > 0 && Among(entries, all)
    decreases all, |entries| + 1
  {
    if entries == [] then ""
    else
      MemberText(style, all, entries[0], level)
      + (if |entries| == 1 then Newline(style) + Indent(style, level - 1) + "}"
         else "," + Newline(style) + ObjectRest(style, all, entries[1..], level))
  }

  // ---------- the generator object ----------

  lemma {:induction false} CharsTextSplit(v: string, a: nat, b: nat)
    requires a <= b <= |v|
    requires forall i | a <= i < b :: Replacement(v[i]).None?
    ensures CharsText(v[..b]) == CharsText(v[..a]) + v[a..b]
    decreases b - a
  {
    hide Replacement;
    if a < b {
      CharsTextSplit(v, a, b - 1);
      var u := v[..b];
      assert u[..|u| - 1] == v[..b - 1];
      assert v[a..b] == v[a..b - 1] + [v[b - 1]];
    } else {
      assert v[a..b] == "";
    }
  }

  lemma CharsTextEmpty()
    ensures CharsText("") == ""
  {
  }

  lemma {:induction false} QuotedRun(v: string, a: nat, b: nat)
    requires a <= b < |v| && Replacement(v[b]).Some?
    requires forall i | a <= i < b :: Replacement(v[i]).None?
    ensures CharsText(v[..b + 1]) == CharsText(v[..a]) + v[a..b] + Replacement(v[b]).value
  {
    hide Replacement;
    CharsTextSplit(v, a, b);
    assert v[..b + 1][..b] == v[..b];
  }

  /** The printing class: every method appends to the output. */
  class Generator {
    const style: Style
    var output: string

    constructor (style: Style)
      ensures this.style == style && output == ""
    {
      this.style, output := style, "";
    }

    method AppendIndent(level: nat)
      modifies this
      ensures output == old(output) + Indent(style, level)
    {
      if style.width > 0 { output := output + Spaces(level * style.width); }
    }

    method AppendQuotedString(value: string)
      modifies this
      ensures output == old(output) + QuotedText(value)
    {
      hide CharsText, Replacement;
      CharsTextEmpty();
      output := output + "\"";
      ghost var start := output;
      var runStart := 0;
      assert value[..0] == "";
      for i := 0 to |value|
        invariant runStart <= i
        invariant forall k | runStart <= k < i :: Replacement(value[k]).None?
        invariant output == start + CharsText(value[..runStart])
      {
        var replacement := Replacement(value[i]);
        if replacement.Some? {
          QuotedRun(value, runStart, i);
          output := output + value[runStart..i];
          output := output + replacement.value;
          runStart := i + 1;
        }
      }
      CharsTextSplit(value, runStart, |value|);
      assert value[..|value|] == value;
      output := output + value[runStart..];
      output := output + "\"";
    }

    method AppendValue(v: Value, level: nat)
      modifies this
      ensures output == old(output) + GenText(style, v, level)
      decreases v, 0
    {
      match v
      case VNull => output := output + "null";
      case VBool(b) => output := output + if b then "true" else "false";
      case VInt(i) => output := output + IntText(i);
      case VDouble(d) => output := output + style.fmt(d);
      case VStr(s) => AppendQuotedString(s);
      case VArr(items) => AppendArray(items, level + 1);
      case VObj(entries) => AppendObject(entries, level + 1);
    }

    method AppendArray(items: seq<Value>, level: nat)
      requires level > 0
      modifies this
      ensures output == old(output) + GenText(style, VArr(items), level - 1)
      decreases items, 0
    {
      GenArray(style, items, level);
      hide GenText, ArrayRest, Indent, Newline;
      output := output + "[";
      if items == [] {
        output := output + "]";
        return;
      }
      output := output + Newline(style);
      ghost var start := output;
      assert items[0..] == items;
      for i := 0 to |items|
        invariant i < |items| ==> start + ArrayRest(style, items, level) == output + ArrayRest(style, items[i..], level)
        invariant i == |items| ==> start + ArrayRest(style, items, level) == output + Indent(style, level - 1) + "]"
      {
        ghost var before := output;
        AppendIndent(level);
        AppendValue(items[i], level);
        if i + 1 < |items| { output := output + ","; }
        output := output + Newline(style);
        ArrayRestStep(style, items, i, level, before, output);
      }
      AppendIndent(level - 1);
      output := output + "]";
    }

    method AppendMember(ghost all: seq<Entry>, e: Entry, level: nat)
      requires e in all
      modifies this
      ensures output == old(output) + MemberText(style, all, e, level)
      decreases all, 0, 0
    {
      hide GenText, QuotedText, Indent;
      AppendIndent(level);
      AppendQuotedString(e.key);
      output := output + if style.width > 0 then ": " else ":";
      AppendValue(e.value, level);
    }

    /** One turn of the object loop. */
    method AppendEntry(ghost all: seq<Entry>, e: Entry, level: nat, more: bool)
      requires e in all
      modifies this
      ensures output == old(output) + MemberText(style, all, e, level) + (if more then "," else "") + Newline(style)
      decreases all, 0, 1
    {
      hide MemberText, Newline;
      AppendMember(all, e, level);
      if more { output := output + ","; }
      output := output + Newline(style);
    }

    method AppendObject(table: seq<Entry>, level: nat)
      requires level > 0
      modifies this
      ensures output == old(output) + GenText(style, VObj(table), level - 1)
      decreases table, 1
    {
      GenObject(style, table, level);
      hide GenText, ObjectRest, MemberText, Indent, Newline, Visit;
      output := output + "{";
      if table == [] {
        output := output + "}";
        return;
      }
      output := output + Newline(style);
      AppendEntries(table, Visit(style, table), level);
      AppendIndent(level - 1);
      output := output + "}";
    }

    /** The object loop, up to the closing brace. */
    method AppendEntries(ghost table: seq<Entry>, entries: seq<Entry>, level: nat)
      requires level > 0 && entries != [] && Among(entries, table)
      modifies this
      ensures output + Indent(style, level - 1) + "}" == old(output) + ObjectRest(style, table, entries, level)
      decreases table, 0, 2
    {
      hide ObjectRest, MemberText, Indent, Newline;
      ghost var whole := output + ObjectRest(style, table, entries, level);
      assert entries[0..] == entries;
      for i := 0 to |entries|
        invariant i < |entries| ==> whole == output + ObjectRest(style, table, entries[i..], level)
        invariant i == |entries| ==> whole == output + Indent(style, level - 1) + "}"
      {
        ghost var before := output;
        AppendEntry(table, entries[i], level, i + 1 < |entries|);
        ObjectRestStep(style, table, entries, i, level, before, output);
      }
    }
  }

  lemma {:induction false} ArrayRestStep(style: Style, items: seq<Value>, i: nat, level: nat, before: string, after: string)
    requires i < |items| && level > 0
    requires after == before + Indent(style, level) + GenText(style, items[i], level)
                    + (if i + 1 < |items| then "," else "") + Newline(style)
    ensures i + 1 < |items| ==>
              before + ArrayRest(style, items[i..], level) == after + ArrayRest(style, items[i + 1..], level)
    ensures i + 1 == |items| ==>
              before + ArrayRest(style, items[i..], level) == after + Indent(style, level - 1) + "]"
  {
    hide GenText, Indent, Newline;
    assert items[i..][1..] == items[i + 1..];
  }

  lemma {:induction false} GenArray(style: Style, items: seq<Value>, level: nat)
    requires level > 0
    ensures GenText(style, VArr(items), level - 1)
         == "[" + (if items == [] then "]" else Newline(style) + ArrayRest(style, items, level))
  {
  }

  lemma {:induction false} GenObject(style: Style, table: seq<Entry>, level: nat)
    requires level > 0
    ensures GenText(style, VObj(table), level - 1)
         == "{" + (if table == [] then "}" else Newline(style) + ObjectRest(style, table, Visit(style, table), level))
  {
  }

  lemma {:induction false} ObjectRestStep(style: Style, all: seq<Entry>, entries: seq<Entry>, i: nat, level: nat,
                                          before: string, after: string)
    requires i < |entries| && level > 0 && Among(entries, all)
    requires after == before + MemberText(style, all, entries[i], level)
                    + (if i + 1 < |entries| then "," else "") + Newline(style)
    ensures i + 1 < |entries| ==>
              before + ObjectRest(style, all, entries[i..], level) == after + ObjectRest(style, all, entries[i + 1..], level)
    ensures i + 1 == |entries| ==>
              before + ObjectRest(style, all, entries[i..], level) == after + Indent(style, level - 1) + "}"
  {
    hide MemberText, Indent, Newline;
    assert entries[i..][1..] == entries[i + 1..];
  }

  /** Generator::generate: compact text when not pretty. */
  method Generate(v: Value, pretty: bool, indentWidth: int, sortKeys: bool, fmt: PrintDouble) returns (text: string)
    ensures text == GenText(Style(if pretty then indentWidth else 0, sortKeys, fmt), v, 0)
  {
    var g := new Generator(Style(if pretty then indentWidth else 0, sortKeys, fmt));
    g.AppendValue(v, 0);
    text := g.output;
  }
}
