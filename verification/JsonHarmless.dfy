/** The lenient filters leave printed text alone. */
module JsonHarmless {
  // Lenient and strict parsing agree on grammar texts, as long as no string is written in one of
  // the two ways that confuse the filters' quote tests.

  import opened Digits
  import opened JsonValue
  import opened JsonGrammar
  import opened JsonParser
  import opened JsonCompleteness
  import opened JsonGenerator
  import opened JsonRoundTrip
  import opened JsonLenient

  // ---------- strings the filters understand ----------

  /** A string body does not end in an escaped backslash, which hides the closing quote from the
      comma filter, and has no escaped backslash right before an escaped quote, which looks like
      a closing quote to the comment filter. */
  predicate CleanElems(es: seq<Elem>) {
    && (es != [] ==> es[|es| - 1] != Esc('\\'))
    && forall i | 0 < i < |es| :: es[i] == Esc('\"') ==> es[i - 1] != Esc('\\')
  }

  predicate CleanTree(t: Tree)
    decreases t
  {
    match t
    case TStr(es) => CleanElems(es)
    case TArr(_, items) => forall i | 0 <= i < |items| :: CleanItem(items[i])
    case TObj(_, members) => forall i | 0 <= i < |members| :: CleanMember(members[i])
    case _ => true
  }

  predicate CleanItem(i: Item)
    decreases i
  {
    CleanTree(i.value)
  }

  predicate CleanMember(m: Member)
    decreases m
  {
    CleanElems(m.key) && CleanTree(m.value)
  }

  // ---------- string bodies ----------

  predicate NoToggle(s: string, p: nat, q: nat, lax: bool)
    requires p <= q <= |s|
  {
    forall i | p <= i < q :: !Toggles(s, i, lax)
  }

  lemma {:induction false} NoToggleKeeps(s: string, p: nat, q: nat, lax: bool)
    requires p <= q <= |s| && NoToggle(s, p, q, lax)
    ensures forall i | p <= i <= q :: InString(s, i, lax) == InString(s, p, lax)
  {
    if p < q {
      NoToggleKeeps(s, p, q - 1, lax);
      assert !Toggles(s, q - 1, lax);
    }
  }

  lemma {:induction false} HexNoQuote(h: string)
    requires Hex4(h)
    ensures forall i | 0 <= i < 4 :: h[i] != '\"' && h[i] != '\\'
  {
  }

  lemma {:induction false} EscNoToggle(c: char, s: string, p: nat, lax: bool)
    requires ValidElem(Esc(c)) && At(s, p, ['\\', c]) && 0 < p
    requires c == '\"' && lax ==> s[p - 1] != '\\'
    ensures NoToggle(s, p, p + 2, lax)
    ensures s[p + 1] == c && s[p] == '\\'
  {
    var t := ['\\', c];
    assert s[p + 0] == t[0] && s[p + 1] == t[1];
  }

  lemma {:induction false} UniNoToggle(h: string, s: string, p: nat, lax: bool)
    requires Hex4(h) && At(s, p, "\\u" + h)
    ensures NoToggle(s, p, p + 6, lax) && s[p + 5] != '\\'
  {
    hide DigitOf;
    HexNoQuote(h);
    AtConcat(s, p, "\\u", h);
    assert s[p] == "\\u"[0] && s[p + 1] == "\\u"[1];
    assert s[p + 2] == h[0] && s[p + 2 + 1] == h[1] && s[p + 2 + 2] == h[2] && s[p + 2 + 3] == h[3];
  }

  lemma {:induction false} PairNoToggle(h: string, l: string, s: string, p: nat, lax: bool)
    requires Hex4(h) && Hex4(l) && At(s, p, "\\u" + h + "\\u" + l)
    ensures NoToggle(s, p, p + 12, lax) && s[p + 11] != '\\'
  {
    hide At, AllDigits;
    assert "\\u" + h + "\\u" + l == ("\\u" + h) + ("\\u" + l);
    AtConcat(s, p, "\\u" + h, "\\u" + l);
    UniNoToggle(h, s, p, lax);
    UniNoToggle(l, s, p + 6, lax);
  }

  lemma RawNoToggle(c: char, s: string, p: nat, lax: bool)
    requires c != '\"' && c != '\\' && At(s, p, [c])
    ensures NoToggle(s, p, p + 1, lax) && s[p] == c
  {
    AtHead(s, p, [c]);
  }

  /** One element inside a string toggles nothing, and leaves a backslash right behind it only
      when it is an escaped backslash, which leaves two. */
  lemma {:induction false} ElemQuiet(e: Elem, s: string, p: nat, lax: bool)
    requires ValidElem(e) && At(s, p, ElemText(e)) && 0 < p
    requires e == Esc('\"') && lax ==> s[p - 1] != '\\'
    ensures var q := p + |ElemText(e)|;
            && NoToggle(s, p, q, lax)
            && (s[q - 1] == '\\' <==> e == Esc('\\'))
            && (e == Esc('\\') ==> s[q - 2] == '\\')
  {
    match e
    case Raw(c) => RawNoToggle(c, s, p, lax);
    case Esc(c) =>
      hide At, NoToggle;
      EscNoToggle(c, s, p, lax);
    case Uni(h) =>
      hide At, NoToggle, AllDigits, ValueOf;
      UniNoToggle(h, s, p, lax);
    case Pair(h, l) =>
      hide At, NoToggle, AllDigits, ValueOf;
      PairNoToggle(h, l, s, p, lax);
  }

  /** Inside a string, up to the closing quote, which the filter recognises. */
  lemma {:induction false} BodyQuiet(es: seq<Elem>, k: nat, s: string, p: nat, lax: bool)
    requires k <= |es| && ValidElems(es) && CleanElems(es)
    requires At(s, p, BodyText(es[k..])) && 0 < p && InString(s, p, lax)
    requires s[p - 1] == '\\' <==> k > 0 && es[k - 1] == Esc('\\')
    requires s[p - 1] == '\\' ==> p >= 2 && s[p - 2] == '\\'
    ensures var q := p + |BodyText(es[k..])|;
            !InString(s, q, lax) && s[q - 1] == '\"' && forall i | p <= i < q :: InString(s, i, lax)
    decreases |es| - k
  {
    hide At, ElemText, ValidElem, InString, NoToggle, BodyText;
    if k == |es| {
      assert es[k..] == [];
      BodyQuietEnd(s, p, lax);
    } else {
      var e := es[k];
      BodyTextUnfold(es, k);
      AtConcat(s, p, ElemText(e), BodyText(es[k + 1..]));
      var q := p + |ElemText(e)|;
      ElemQuiet(e, s, p, lax);
      NoToggleKeeps(s, p, q, lax);
      BodyQuiet(es, k + 1, s, q, lax);
    }
  }

  lemma {:induction false} BodyQuietEnd(s: string, p: nat, lax: bool)
    requires At(s, p, BodyText([])) && 0 < p && InString(s, p, lax)
    requires s[p - 1] != '\\'
    ensures |BodyText([])| == 1 && !InString(s, p + 1, lax) && s[p] == '\"'
  {
    AtHead(s, p, "\"");
  }

  lemma BodyTextUnfold(es: seq<Elem>, k: nat)
    requires k < |es|
    ensures BodyText(es[k..]) == ElemText(es[k]) + BodyText(es[k + 1..])
  {
    assert es[k..][0] == es[k] && es[k..][1..] == es[k + 1..];
  }

  // ---------- quiet pieces ----------

  lemma {:induction false} QuietJoin(s: string, p: nat, q: nat, r: nat, lax: bool)
    requires Quiet(s, p, q, lax) && Quiet(s, q, r, lax)
    ensures Quiet(s, p, r, lax)
  {
  }

  predicate Plain(t: string) {
    forall i | 0 <= i < |t| :: t[i] != '\"' && t[i] != '/' && t[i] != ','
  }

  lemma {:induction false} PlainQuiet(s: string, p: nat, t: string, lax: bool)
    requires Plain(t) && At(s, p, t) && !InString(s, p, lax)
    ensures Quiet(s, p, p + |t|, lax)
  {
    hide IsTrailing, InString;
    var q := p + |t|;
    forall i | p <= i < q ensures !Toggles(s, i, lax) && s[i] != '/' && s[i] != ',' {
      assert s[p + (i - p)] == t[i - p];
    }
    NoToggleKeeps(s, p, q, lax);
  }

  lemma {:induction false} StringQuiet(es: seq<Elem>, s: string, p: nat, lax: bool)
    requires ValidElems(es) && CleanElems(es) && At(s, p, StringText(es)) && !InString(s, p, lax)
    requires p > 0 ==> s[p - 1] != '\\'
    ensures Quiet(s, p, p + |StringText(es)|, lax)
  {
    hide IsTrailing, BodyText, CleanElems, ValidElems, At;
    AtConcat(s, p, "\"", BodyText(es));
    AtHead(s, p, "\"");
    assert Toggles(s, p, lax) && InString(s, p + 1, lax);
    assert es[0..] == es;
    BodyQuiet(es, 0, s, p + 1, lax);
  }

  /** What stands before position p is not a backslash. */
  predicate Fresh(s: string, p: nat)
    requires p <= |s|
  {
    p > 0 ==> s[p - 1] != '\\'
  }

  lemma {:induction false} BlankQuiet(s: string, p: nat, w: string, lax: bool)
    requires Blank(w) && At(s, p, w) && !InString(s, p, lax) && Fresh(s, p)
    ensures Quiet(s, p, p + |w|, lax) && Fresh(s, p + |w|)
  {
    hide InString, Quiet;
    PlainQuiet(s, p, w, lax);
    if w != "" { assert s[p + (|w| - 1)] == w[|w| - 1]; }
  }

  lemma {:induction false} CharQuiet(s: string, p: nat, lax: bool)
    requires p < |s| && !InString(s, p, lax) && s[p] != '\"' && s[p] != '/' && s[p] != '\\'
    requires s[p] == ',' ==> !IsTrailing(s, p)
    ensures Quiet(s, p, p + 1, lax) && Fresh(s, p + 1)
  {
  }

  lemma {:induction false} NumberPlain(n: Number)
    requires NumberShape(n)
    ensures Plain(NumberText(n))
  {
    assert Plain(SignText(n)) && Plain(n.whole) && Plain(FracText(n)) && Plain(ExpText(n));
  }

  // ---------- trees ----------

  lemma {:induction false} TreeQuiet(fd: ReadDouble, t: Tree, s: string, p: nat, lax: bool)
    requires Valid(fd, t) && CleanTree(t) && At(s, p, Text(t)) && !InString(s, p, lax) && Fresh(s, p)
    ensures Quiet(s, p, p + |Text(t)|, lax)
    decreases t, 1
  {
    assert p <= |s|;
    hide At, InString, Quiet, Fresh;
    match t
    case TNum(n) => NumberPlain(n); PlainQuiet(s, p, Text(t), lax);
    case TStr(es) => FreshMeans(s, p); StringQuiet(es, s, p, lax);
    case TArr(_, _) => ArrayQuiet(fd, t, s, p, lax);
    case TObj(_, _) => ObjectQuiet(fd, t, s, p, lax);
    case _ => PlainQuiet(s, p, Text(t), lax);
  }

  lemma {:induction false} ArrayQuiet(fd: ReadDouble, t: Tree, s: string, p: nat, lax: bool)
    requires t.TArr? && Valid(fd, t) && CleanTree(t) && At(s, p, Text(t)) && !InString(s, p, lax) && Fresh(s, p)
    ensures Quiet(s, p, p + |Text(t)|, lax)
    decreases t, 0
  {
    hide At, InString, Quiet, Fresh, ItemsText, ValidItem, CleanItem, Blank;
    BracketQuiet(s, p, '[', if t.items == [] then t.pad + "]" else ItemsText(t.items), lax);
    if t.items == [] {
      EmptyQuiet(s, p + 1, t.pad, ']', lax);
    } else {
      ItemsQuiet(fd, t.items, s, p + 1, lax);
    }
    QuietJoin(s, p, p + 1, p + |Text(t)|, lax);
  }

  lemma {:induction false} ObjectQuiet(fd: ReadDouble, t: Tree, s: string, p: nat, lax: bool)
    requires t.TObj? && Valid(fd, t) && CleanTree(t) && At(s, p, Text(t)) && !InString(s, p, lax) && Fresh(s, p)
    ensures Quiet(s, p, p + |Text(t)|, lax)
    decreases t, 0
  {
    hide At, InString, Quiet, Fresh, MembersText, ValidMember, CleanMember, Blank;
    BracketQuiet(s, p, '{', if t.members == [] then t.pad + "}" else MembersText(t.members), lax);
    if t.members == [] {
      EmptyQuiet(s, p + 1, t.pad, '}', lax);
    } else {
      MembersQuiet(fd, t.members, s, p + 1, lax);
    }
    QuietJoin(s, p, p + 1, p + |Text(t)|, lax);
  }

  lemma FreshMeans(s: string, p: nat)
    requires p <= |s|
    ensures Fresh(s, p) <==> (p > 0 ==> s[p - 1] != '\\')
  {
  }

  lemma QuietEnds(s: string, p: nat, q: nat, lax: bool)
    requires Quiet(s, p, q, lax)
    ensures p <= q <= |s| && !InString(s, p, lax) && !InString(s, q, lax)
  {
  }

  lemma {:induction false} BracketQuiet(s: string, p: nat, open: char, rest: string, lax: bool)
    requires At(s, p, [open] + rest) && !InString(s, p, lax) && (open == '[' || open == '{')
    ensures Quiet(s, p, p + 1, lax) && !InString(s, p + 1, lax) && Fresh(s, p + 1) && At(s, p + 1, rest)
  {
    hide At, InString, Quiet;
    AtConcat(s, p, [open], rest);
    AtHead(s, p, [open]);
    CharQuiet(s, p, lax);
    QuietEnds(s, p, p + 1, lax);
  }

  lemma {:induction false} EmptyQuiet(s: string, p: nat, pad: string, close: char, lax: bool)
    requires Blank(pad) && At(s, p, pad + [close]) && !InString(s, p, lax) && Fresh(s, p) && Closes(close)
    ensures Quiet(s, p, p + |pad| + 1, lax)
  {
    hide At, InString, Quiet, Fresh;
    AtConcat(s, p, pad, [close]);
    BlankQuiet(s, p, pad, lax);
    AtHead(s, p + |pad|, [close]);
    QuietEnds(s, p, p + |pad|, lax);
    CharQuiet(s, p + |pad|, lax);
    QuietJoin(s, p, p + |pad|, p + |pad| + 1, lax);
  }

  /** After an item or member: whitespace, then a comma that is not a trailing one or the
      closing bracket. */
  lemma {:induction false} AfterQuiet(s: string, q: nat, w: string, lax: bool)
    requires Blank(w) && At(s, q, w) && !InString(s, q, lax) && q + |w| < |s|
    requires Closes(s[q + |w|]) || (s[q + |w|] == ',' && !IsTrailing(s, q + |w|))
    requires Fresh(s, q)
    ensures Quiet(s, q, q + |w| + 1, lax) && !InString(s, q + |w| + 1, lax) && Fresh(s, q + |w| + 1)
  {
    hide At, InString, Quiet, Fresh, IsTrailing;
    BlankQuiet(s, q, w, lax);
    QuietEnds(s, q, q + |w|, lax);
    CharQuiet(s, q + |w|, lax);
    QuietJoin(s, q, q + |w|, q + |w| + 1, lax);
    QuietEnds(s, q, q + |w| + 1, lax);
  }

  /** No value's text ends in a backslash. */
  lemma {:induction false} TextFresh(fd: ReadDouble, t: Tree, s: string, p: nat)
    requires Valid(fd, t) && At(s, p, Text(t))
    ensures Fresh(s, p + |Text(t)|)
  {
    TextLast(fd, t);
    var n := |Text(t)|;
    assert s[p + (n - 1)] == Text(t)[n - 1];
  }

  lemma {:induction false} TextLast(fd: ReadDouble, t: Tree)
    requires Valid(fd, t)
    ensures Text(t) != "" && Text(t)[|Text(t)| - 1] != '\\'
  {
    match t
    case TNum(n) => NumberLast(n);
    case TStr(es) => BodyLast(es);
    case TArr(pad, items) => if items != [] { ItemsLast(items); }
    case TObj(pad, members) => if members != [] { MembersLast(members); }
    case _ =>
  }

  predicate EndsIn(t: string, c: char) {
    t != "" && t[|t| - 1] == c
  }

  lemma EndsInConcat(a: string, b: string, c: char)
    requires EndsIn(b, c)
    ensures EndsIn(a + b, c)
  {
  }

  lemma {:induction false} BodyLast(es: seq<Elem>)
    ensures EndsIn(BodyText(es), '\"')
  {
    if es != [] {
      BodyLast(es[1..]);
      EndsInConcat(ElemText(es[0]), BodyText(es[1..]), '\"');
    }
  }

  lemma {:induction false} ItemsLast(items: seq<Item>)
    requires items != []
    ensures EndsIn(ItemsText(items), ']')
  {
    hide Text;
    var head := items[0].before + Text(items[0].value) + items[0].after;
    if |items| > 1 {
      ItemsLast(items[1..]);
      EndsInConcat(",", ItemsText(items[1..]), ']');
      EndsInConcat(head, "," + ItemsText(items[1..]), ']');
    }
  }

  lemma {:induction false} MembersLast(members: seq<Member>)
    requires members != []
    ensures EndsIn(MembersText(members), '}')
  {
    hide Text, MemberHead;
    var head := MemberHead(members[0]) + Text(members[0].value) + members[0].after;
    if |members| > 1 {
      MembersLast(members[1..]);
      EndsInConcat(",", MembersText(members[1..]), '}');
      EndsInConcat(head, "," + MembersText(members[1..]), '}');
    }
  }

  predicate Unslashed(t: string) {
    forall i | 0 <= i < |t| :: t[i] != '\\'
  }

  lemma {:induction false} NumberLast(n: Number)
    requires NumberShape(n)
    ensures NumberText(n) != "" && Unslashed(NumberText(n))
  {
    assert Unslashed(SignText(n)) && Unslashed(n.whole) && Unslashed(FracText(n)) && Unslashed(ExpText(n));
  }

  lemma {:induction false} ItemsQuiet(fd: ReadDouble, items: seq<Item>, s: string, p: nat, lax: bool)
    requires items != [] && forall i | 0 <= i < |items| :: ValidItem(fd, items[i]) && CleanItem(items[i])
    requires At(s, p, ItemsText(items)) && !InString(s, p, lax) && Fresh(s, p)
    ensures Quiet(s, p, p + |ItemsText(items)|, lax)
    decreases items, 0
  {
    hide At, InString, Quiet, Fresh, IsTrailing, Text, ItemsText, Valid, CleanTree;
    var it := items[0];
    assert ValidItem(fd, it) && CleanItem(it);
    ItemsTextUnfold(items, s, p);
    var q := p + |it.before + Text(it.value)|;
    var r := q + |it.after|;
    ItemQuiet(fd, it, s, p, lax);
    if |items| > 1 {
      assert ValidItem(fd, items[1]) && items[1..][0] == items[1];
      ItemsNotClosed(fd, items[1..], s, r + 1);
      NotTrailing(s, r);
    }
    AfterQuiet(s, q, it.after, lax);
    QuietJoin(s, p, q, r + 1, lax);
    if |items| > 1 {
      ItemsQuiet(fd, items[1..], s, r + 1, lax);
      QuietJoin(s, p, r + 1, p + |ItemsText(items)|, lax);
    }
  }

  lemma {:induction false} ItemQuiet(fd: ReadDouble, it: Item, s: string, p: nat, lax: bool)
    requires ValidItem(fd, it) && CleanItem(it)
    requires At(s, p, it.before + Text(it.value)) && !InString(s, p, lax) && Fresh(s, p)
    ensures var q := p + |it.before + Text(it.value)|; Quiet(s, p, q, lax) && !InString(s, q, lax) && Fresh(s, q)
    decreases it
  {
    hide At, InString, Quiet, Fresh, Text, Valid, CleanTree;
    AtConcat(s, p, it.before, Text(it.value));
    BlankQuiet(s, p, it.before, lax);
    var q := p + |it.before|;
    QuietEnds(s, p, q, lax);
    TreeQuiet(fd, it.value, s, q, lax);
    TextFresh(fd, it.value, s, q);
    QuietJoin(s, p, q, q + |Text(it.value)|, lax);
    QuietEnds(s, p, q + |Text(it.value)|, lax);
  }

  lemma NotTrailing(s: string, r: nat)
    requires r < |s| && SkipSpace(s, r + 1) < |s| && !Closes(s[SkipSpace(s, r + 1)])
    ensures !IsTrailing(s, r)
  {
  }

  lemma {:induction false} MembersQuiet(fd: ReadDouble, members: seq<Member>, s: string, p: nat, lax: bool)
    requires members != [] && forall i | 0 <= i < |members| :: ValidMember(fd, members[i]) && CleanMember(members[i])
    requires At(s, p, MembersText(members)) && !InString(s, p, lax) && Fresh(s, p)
    ensures Quiet(s, p, p + |MembersText(members)|, lax)
    decreases members, 0
  {
    hide At, InString, Quiet, Fresh, IsTrailing, Text, MembersText, Valid, CleanTree, CleanElems, ValidElems, MemberHead;
    var m := members[0];
    assert ValidMember(fd, m) && CleanMember(m);
    MembersTextUnfold(members, s, p);
    var q := p + |MemberHead(m) + Text(m.value)|;
    var r := q + |m.after|;
    MemberQuiet(fd, m, s, p, lax);
    if |members| > 1 {
      assert ValidMember(fd, members[1]) && members[1..][0] == members[1];
      MembersNotClosed(fd, members[1..], s, r + 1);
      NotTrailing(s, r);
    }
    AfterQuiet(s, q, m.after, lax);
    QuietJoin(s, p, q, r + 1, lax);
    if |members| > 1 {
      MembersQuiet(fd, members[1..], s, r + 1, lax);
      QuietJoin(s, p, r + 1, p + |MembersText(members)|, lax);
    }
  }

  lemma {:induction false} MembersNotClosed(fd: ReadDouble, members: seq<Member>, s: string, p: nat)
    requires members != [] && ValidMember(fd, members[0]) && At(s, p, MembersText(members))
    ensures SkipSpace(s, p) < |s| && s[SkipSpace(s, p)] == '\"'
  {
    hide At, MembersText, ValidMember, MemberHead, Text;
    MembersTextUnfold(members, s, p);
    KeyStart(fd, members[0], s, p);
  }

  lemma {:induction false} StringFresh(es: seq<Elem>, s: string, p: nat)
    requires At(s, p, StringText(es))
    ensures Fresh(s, p + |StringText(es)|)
  {
    BodyLast(es);
    var n := |StringText(es)|;
    assert s[p + (n - 1)] == StringText(es)[n - 1];
  }

  lemma {:induction false} KeyQuiet(fd: ReadDouble, m: Member, s: string, p: nat, lax: bool)
    requires ValidMember(fd, m) && CleanMember(m)
    requires At(s, p, m.before + StringText(m.key)) && !InString(s, p, lax) && Fresh(s, p)
    ensures var q := p + |m.before + StringText(m.key)|; Quiet(s, p, q, lax) && !InString(s, q, lax) && Fresh(s, q)
  {
    hide At, InString, Quiet, Fresh, Text, Valid, CleanTree, CleanElems, ValidElems, BodyText;
    AtConcat(s, p, m.before, StringText(m.key));
    BlankQuiet(s, p, m.before, lax);
    var q := p + |m.before|;
    QuietEnds(s, p, q, lax);
    FreshMeans(s, q);
    StringQuiet(m.key, s, q, lax);
    StringFresh(m.key, s, q);
    QuietJoin(s, p, q, q + |StringText(m.key)|, lax);
    QuietEnds(s, p, q + |StringText(m.key)|, lax);
  }

  lemma {:induction false} ColonQuiet(m: Member, s: string, p: nat, lax: bool)
    requires Blank(m.beforeColon) && Blank(m.afterColon)
    requires At(s, p, m.beforeColon + ":" + m.afterColon) && !InString(s, p, lax) && Fresh(s, p)
    ensures var q := p + |m.beforeColon + ":" + m.afterColon|; Quiet(s, p, q, lax) && !InString(s, q, lax) && Fresh(s, q)
  {
    hide At, InString, Quiet, Fresh, IsTrailing;
    AtConcat3(s, p, m.beforeColon, ":", m.afterColon);
    BlankQuiet(s, p, m.beforeColon, lax);
    var q := p + |m.beforeColon|;
    QuietEnds(s, p, q, lax);
    AtHead(s, q, ":");
    CharQuiet(s, q, lax);
    QuietEnds(s, q, q + 1, lax);
    BlankQuiet(s, q + 1, m.afterColon, lax);
    QuietJoin(s, p, q, q + 1, lax);
    QuietJoin(s, p, q + 1, q + 1 + |m.afterColon|, lax);
    QuietEnds(s, p, q + 1 + |m.afterColon|, lax);
  }

  lemma {:induction false} MemberQuiet(fd: ReadDouble, m: Member, s: string, p: nat, lax: bool)
    requires ValidMember(fd, m) && CleanMember(m)
    requires At(s, p, MemberHead(m) + Text(m.value)) && !InString(s, p, lax) && Fresh(s, p)
    ensures var q := p + |MemberHead(m) + Text(m.value)|; Quiet(s, p, q, lax) && !InString(s, q, lax) && Fresh(s, q)
    decreases m
  {
    hide At, InString, Quiet, Fresh, Text, Valid, CleanTree, CleanElems, ValidElems, StringText;
    var colon := m.beforeColon + ":" + m.afterColon;
    assert MemberHead(m) + Text(m.value) == (m.before + StringText(m.key)) + colon + Text(m.value);
    AtConcat3(s, p, m.before + StringText(m.key), colon, Text(m.value));
    KeyQuiet(fd, m, s, p, lax);
    var q := p + |m.before + StringText(m.key)|;
    ColonQuiet(m, s, q, lax);
    var r := q + |colon|;
    TreeQuiet(fd, m.value, s, r, lax);
    TextFresh(fd, m.value, s, r);
    QuietJoin(s, p, q, r, lax);
    QuietJoin(s, p, r, r + |Text(m.value)|, lax);
    QuietEnds(s, p, r + |Text(m.value)|, lax);
  }

  // ---------- lenient parsing ----------

  /** A lenient parse: the two filters, then the strict parser. */
  function LenientAt(fd: ReadDouble, s: string): (r: Parsed<Json>) {
    ValueAt(fd, RemoveComments(RemoveTailComma(s)), 0)
  }

  /** Grammar texts with clean strings pass both filters unchanged, so lenient parsing gives
      what strict parsing gives. */
  lemma {:induction false} LenientIsStrict(fd: ReadDouble, t: Tree, before: string, after: string)
    requires Valid(fd, t) && CleanTree(t) && Blank(before) && Blank(after)
    ensures var s := before + Text(t) + after;
            RemoveTailComma(s) == s && RemoveComments(s) == s && LenientAt(fd, s) == ValueAt(fd, s, 0)
  {
    var s := before + Text(t) + after;
    forall lax: bool ensures Quiet(s, 0, |s|, lax) { WholeQuiet(fd, t, before, after, lax); }
    hide Quiet;
    QuietUnchanged(s);
  }

  lemma {:induction false} WholeQuiet(fd: ReadDouble, t: Tree, before: string, after: string, lax: bool)
    requires Valid(fd, t) && CleanTree(t) && Blank(before) && Blank(after)
    ensures var s := before + Text(t) + after; Quiet(s, 0, |s|, lax)
  {
    hide Text, Valid, CleanTree, Blank, Quiet, At, InString, Fresh;
    var s := before + Text(t) + after;
    StartsOutside(s, lax);
    AtConcat3(s, 0, before, Text(t), after);
    var q := |before|;
    BlankQuiet(s, 0, before, lax);
    QuietEnds(s, 0, q, lax);
    TreeQuiet(fd, t, s, q, lax);
    TextFresh(fd, t, s, q);
    QuietJoin(s, 0, q, q + |Text(t)|, lax);
    QuietEnds(s, 0, q + |Text(t)|, lax);
    BlankQuiet(s, q + |Text(t)|, after, lax);
    QuietJoin(s, 0, q + |Text(t)|, |s|, lax);
  }

  lemma StartsOutside(s: string, lax: bool)
    ensures !InString(s, 0, lax) && Fresh(s, 0)
  {
  }

  /** A string does not end in a backslash and has no quote right after a backslash. */
  predicate CleanString(s: string) {
    && (s != "" ==> s[|s| - 1] != '\\')
    && forall i | 0 < i < |s| :: s[i] == '\"' ==> s[i - 1] != '\\'
  }

  /** Every key and string of the value is clean. */
  predicate CleanValue(v: Value)
    decreases v
  {
    match v
    case VStr(s) => CleanString(s)
    case VArr(items) => forall i | 0 <= i < |items| :: CleanValue(items[i])
    case VObj(entries) => forall i | 0 <= i < |entries| :: CleanString(entries[i].key) && CleanValue(entries[i].value)
    case _ => true
  }

  lemma {:induction false} CleanStringElems(s: string)
    requires CleanString(s)
    ensures CleanElems(StringElems(s))
  {
  }

  lemma {:induction false} LayoutClean(style: Style, v: Value, level: nat)
    requires CleanValue(v)
    ensures CleanTree(Layout(style, v, level))
    decreases v
  {
    match v
    case VStr(s) => CleanStringElems(s);
    case VArr(items) =>
      var ts := LayoutItems(style, items, level + 1);
      forall i | 0 <= i < |ts| ensures CleanItem(ts[i]) {
        LayoutItemsAt(style, items, level + 1, i);
        LayoutClean(style, items[i], level + 1);
      }
    case VObj(entries) =>
      var es := Visit(style, entries);
      var ms := LayoutMembers(style, entries, es, level + 1);
      forall i | 0 <= i < |ms| ensures CleanMember(ms[i]) {
        LayoutMembersAt(style, entries, es, level + 1, i);
        assert es[i] in entries;
        var j :| 0 <= j < |entries| && entries[j] == es[i];
        CleanStringElems(entries[j].key);
        LayoutClean(style, entries[j].value, level + 1);
      }
    case _ =>
  }

  /** Printed text passes both filters unchanged, and lenient parsing returns the value, even
      when strings contain quotes, comment openers or `,]`. */
  lemma {:induction false} LenientRoundTrip(fd: ReadDouble, style: Style, v: Value)
    requires WellFormed(v) && FixedDoubles(style.fmt, v) && ReadsBack(fd, style.fmt, v) && CleanValue(v)
    ensures var text := GenText(style, v, 0);
            RemoveTailComma(text) == text && RemoveComments(text) == text && LenientAt(fd, text) == Ok(Meaning(v), |text|)
  {
    hide GenText, Layout, Valid, CleanTree, Text, WellFormed, FixedDoubles, ReadsBack, CleanValue, ValueAt, Meaning, Denote,
      RemoveTailComma, RemoveComments;
    var t := Layout(style, v, 0);
    LayoutText(style, v, 0);
    LayoutDenotes(fd, style, v, 0);
    LayoutClean(style, v, 0);
    LenientIsStrict(fd, t, "", "");
    assert "" + Text(t) + "" == Text(t);
    ParseGenerated(fd, style, v);
  }

  predicate NoBackslash(v: Value)
    decreases v
  {
    match v
    case VStr(s) => '\\' !in s
    case VArr(items) => forall i | 0 <= i < |items| :: NoBackslash(items[i])
    case VObj(entries) => forall i | 0 <= i < |entries| :: '\\' !in entries[i].key && NoBackslash(entries[i].value)
    case _ => true
  }

  /** Values without backslashes are among those. */
  lemma {:induction false} NoBackslashIsClean(v: Value)
    requires NoBackslash(v)
    ensures CleanValue(v)
    decreases v
  {
    match v
    case VArr(items) => forall i | 0 <= i < |items| ensures CleanValue(items[i]) { NoBackslashIsClean(items[i]); }
    case VObj(entries) =>
      forall i | 0 <= i < |entries| ensures CleanString(entries[i].key) && CleanValue(entries[i].value) {
        NoBackslashIsClean(entries[i].value);
      }
    case _ =>
  }

  // ---------- what goes wrong otherwise ----------

  lemma QuotedOne(a: char)
    ensures QuotedText([a]) == "\"" + CharText(a) + "\""
  {
    hide CharText;
    assert [a][..0] == "";
    assert CharsText([a]) == CharText(a);
  }

  lemma QuotedTwo(a: char, b: char)
    ensures QuotedText([a, b]) == "\"" + CharText(a) + CharText(b) + "\""
  {
    hide CharText;
    assert [a, b][..1] == [a] && [a][..0] == "";
    assert CharsText([a]) == CharText(a);
    assert CharsText([a, b]) == CharText(a) + CharText(b);
  }

  lemma {:induction false} TwoStrings(style: Style, a: string, b: string)
    requires style.width == 0
    ensures GenText(style, VArr([VStr(a), VStr(b)]), 0) == "[" + QuotedText(a) + "," + QuotedText(b) + "]"
  {
    hide QuotedText;
    var items := [VStr(a), VStr(b)];
    assert items[1..] == [VStr(b)];
    assert GenText(style, items[0], 1) == QuotedText(a) && GenText(style, items[1], 1) == QuotedText(b);
    assert ArrayRest(style, [VStr(b)], 1) == QuotedText(b) + "]";
    assert ArrayRest(style, items, 1) == QuotedText(a) + "," + (QuotedText(b) + "]");
  }

  lemma {:induction false} CommaTexts(style: Style)
    requires style.width == 0
    ensures GenText(style, VArr([VStr("\\"), VStr(",]")]), 0) == "[\"\\\\\",\",]\"]"
    ensures GenText(style, VArr([VStr("\\"), VStr("]")]), 0) == "[\"\\\\\",\"]\"]"
  {
    hide GenText, QuotedText;
    TwoStrings(style, "\\", ",]");
    TwoStrings(style, "\\", "]");
    QuotedOne('\\');
    QuotedOne(']');
    QuotedTwo(',', ']');
  }

  const IN_ARRAY := Flags(false, true, false)
  const IN_ARRAY_STRING := Flags(true, true, false)

  lemma {:induction false} CommaDroppedTail(s: string)
    requires s == "[\"\\\\\",\",]\"]"
    ensures TailFrom(s, 7, IN_ARRAY) == "]\"]"
  {
    assert TailFrom(s, 10, Flags(true, false, false)) == "]";
    assert TailFrom(s, 9, Flags(false, false, false)) == "\"]";
    assert TailFrom(s, 8, IN_ARRAY) == "]\"]";
    assert IsTrailing(s, 7);
  }

  lemma {:induction false} CommaDroppedMiddle(s: string)
    requires s == "[\"\\\\\",\",]\"]"
    ensures TailFrom(s, 4, IN_ARRAY_STRING) == "\",\"]\"]"
  {
    CommaDroppedTail(s);
    hide IsTrailing;
    assert TailFrom(s, 6, IN_ARRAY_STRING) == "\"]\"]";
    assert TailFrom(s, 5, IN_ARRAY_STRING) == ",\"]\"]";
  }

  lemma {:induction false} CommaDropped(s: string)
    requires s == "[\"\\\\\",\",]\"]"
    ensures RemoveTailComma(s) == "[\"\\\\\",\"]\"]"
  {
    CommaDroppedMiddle(s);
    hide IsTrailing;
    assert TailFrom(s, 3, IN_ARRAY_STRING) == "\\\",\"]\"]";
    assert TailFrom(s, 2, IN_ARRAY_STRING) == "\\\\\",\"]\"]";
    assert TailFrom(s, 1, IN_ARRAY) == "\"\\\\\",\"]\"]";
  }

  lemma {:induction false} NoSlashNoComment(s: string, i: nat, q: bool)
    requires i <= |s| && '/' !in s
    ensures CommentsFrom(s, i, Code(q)) == s[i..]
    decreases |s| - i
  {
    if i < |s| {
      assert s[i] != '/';
      NoSlashNoComment(s, i + 1, if Toggles(s, i, true) then !q else q);
      assert s[i..] == [s[i]] + s[i + 1..];
    }
  }

  /** A string that ends in a backslash hides its closing quote from the comma filter: lenient
      parsing of ["\\",",]"] returns a different value, because the comma inside the second
      string is dropped. */
  lemma {:induction false} CommaFilterChangesValue(fd: ReadDouble, fmt: PrintDouble)
    ensures var v := VArr([VStr("\\"), VStr(",]")]);
            var w := VArr([VStr("\\"), VStr("]")]);
            var parse := LenientAt(fd, GenText(Style(0, false, fmt), v, 0));
            parse.Ok? && parse.value == Meaning(w) && Meaning(v) != Meaning(w)
  {
    var v, w := VArr([VStr("\\"), VStr(",]")]), VArr([VStr("\\"), VStr("]")]);
    DifferentValues();
    hide ValueAt, GenText, Meaning, RemoveTailComma, CommentsFrom, WellFormed, NoDoubles, NoNaN, FixedDoubles, ReadsBack;
    var style := Style(0, false, fmt);
    CommaTexts(style);
    CommaDropped(GenText(style, v, 0));
    NoSlashNoComment(GenText(style, w, 0), 0, false);
    assert RemoveComments(GenText(style, w, 0)) == GenText(style, w, 0);
    NoDoublesReadBack(fd, fmt, w);
    ParseGenerated(fd, style, w);
  }

  lemma DifferentValues()
    ensures var v := VArr([VStr("\\"), VStr(",]")]);
            var w := VArr([VStr("\\"), VStr("]")]);
            Meaning(v) != Meaning(w) && WellFormed(w) && NoDoubles(w)
  {
    assert Meaning(VArr([VStr("\\"), VStr(",]")])).items[1] == Str(",]");
    assert Meaning(VArr([VStr("\\"), VStr("]")])).items[1] == Str("]");
  }

  lemma {:induction false} NoCommaNoDrop(s: string, i: nat, f: Flags)
    requires i <= |s| && ',' !in s
    ensures TailFrom(s, i, f) == s[i..]
    decreases |s| - i
  {
    hide Advance;
    if i < |s| {
      assert s[i] != ',';
      NoCommaNoDrop(s, i + 1, Advance(s, i, f));
      assert s[i..] == [s[i]] + s[i + 1..];
    }
  }

  /** From a comment opener outside strings on, a line without a line feed is dropped. */
  lemma {:induction false} LineDropped(s: string, i: nat)
    requires i <= |s| && '\n' !in s
    ensures CommentsFrom(s, i, LineComment(false)) == ""
    decreases |s| - i
  {
    if i < |s| {
      assert s[i] != '\n';
      LineDropped(s, i + 1);
    }
  }

  lemma {:induction false} CommentTaken(s: string)
    requires s == "\"\\\\\\\"//\""
    ensures RemoveComments(s) == "\"\\\\\\\""
  {
    LineDropped(s, 7);
    assert CommentsFrom(s, 5, Code(false)) == "";
    assert CommentsFrom(s, 4, Code(true)) == "\"";
    assert CommentsFrom(s, 3, Code(true)) == "\\\"";
    assert CommentsFrom(s, 2, Code(true)) == "\\\\\"";
    assert CommentsFrom(s, 1, Code(true)) == "\\\\\\\"";
  }

  lemma UnclosedString(fd: ReadDouble)
    ensures ValueAt(fd, "\"\\\\\\\"", 0).Err?
  {
  }

  lemma {:induction false} QuotedFour(a: char, b: char, c: char, d: char)
    ensures QuotedText([a, b, c, d]) == "\"" + CharText(a) + CharText(b) + CharText(c) + CharText(d) + "\""
  {
    hide CharText;
    assert [a, b, c, d][..3] == [a, b, c] && [a, b, c][..2] == [a, b] && [a, b][..1] == [a] && [a][..0] == "";
    assert CharsText([a]) == CharText(a);
    assert CharsText([a, b]) == CharText(a) + CharText(b);
    assert CharsText([a, b, c]) == CharText(a) + CharText(b) + CharText(c);
  }

  /** A backslash before a quote inside a string looks like the end of the string to the comment
      filter: lenient parsing of "\\\"//" fails, because the rest is taken for a comment. */
  lemma {:induction false} CommentFilterLosesValue(fd: ReadDouble, style: Style)
    ensures LenientAt(fd, GenText(style, VStr("\\\"//"), 0)).Err?
  {
    var s := GenText(style, VStr("\\\"//"), 0);
    QuotedFour('\\', '\"', '/', '/');
    assert s == "\"\\\\\\\"//\"";
    hide ValueAt, GenText, TailFrom, RemoveComments, QuotedText;
    NoCommaNoDrop(s, 0, Flags(false, false, false));
    assert RemoveTailComma(s) == s;
    CommentTaken(s);
    UnclosedString(fd);
  }
}
