/** Lenient parsing and trailing commas. */
module JsonCommas {
  // The comma filter keeps two flags in place of a stack of open brackets, so closing an inner
  // array makes it forget the outer one: a trailing comma is dropped exactly when the last square
  // bracket before it opened or the last brace before it opened. Here that is followed through
  // every text of the grammar with trailing commas.

  import opened JsonValue
  import opened JsonGrammar
  import opened JsonParser
  import opened JsonCompleteness
  import opened JsonLenient
  import opened JsonHarmless
  import opened JsonComments

  // ---------- texts with trailing commas ----------

  /** Whitespace with one comma in it, or none. */
  predicate AtMostOneComma(w: string) {
    w == "" || if w[0] == ',' then Blank(w[1..]) else IsSpace(w[0]) && AtMostOneComma(w[1..])
  }

  function WithoutComma(w: string): (r: string) {
    if w == "" then "" else (if w[0] == ',' then "" else [w[0]]) + WithoutComma(w[1..])
  }

  /** A tree of the grammar with clean strings, except that the whitespace before a closing bracket may hold
      one comma, unless the brackets are empty. */
  predicate Trailed(fd: ReadDouble, u: Tree)
    decreases u
  {
    match u
    case TArr(pad, items) => Blank(pad) && TrailedItems(fd, items)
    case TObj(pad, members) => Blank(pad) && TrailedMembers(fd, members)
    case _ => Valid(fd, u) && CleanTree(u)
  }

  predicate TrailedItems(fd: ReadDouble, items: seq<Item>)
    decreases items
  {
    items != [] ==>
      && Blank(items[0].before) && Trailed(fd, items[0].value)
      && (if |items| == 1 then AtMostOneComma(items[0].after) else Blank(items[0].after))
      && TrailedItems(fd, items[1..])
  }

  predicate TrailedMembers(fd: ReadDouble, members: seq<Member>)
    decreases members
  {
    members != [] ==>
      && TrailedHead(members[0]) && Trailed(fd, members[0].value)
      && (if |members| == 1 then AtMostOneComma(members[0].after) else Blank(members[0].after))
      && TrailedMembers(fd, members[1..])
  }

  predicate TrailedHead(m: Member) {
    Blank(m.before) && ValidElems(m.key) && CleanElems(m.key) && Blank(m.beforeColon) && Blank(m.afterColon)
  }

  /** The tree without its trailing commas. */
  function Bare(u: Tree): (t: Tree)
    decreases u
  {
    match u
    case TArr(pad, items) => TArr(pad, BareItems(items))
    case TObj(pad, members) => TObj(pad, BareMembers(members))
    case _ => u
  }

  function BareItems(items: seq<Item>): (r: seq<Item>)
    ensures |r| == |items|
    decreases items
  {
    if items == [] then []
    else [Item(items[0].before, Bare(items[0].value), WithoutComma(items[0].after))] + BareItems(items[1..])
  }

  function BareMembers(members: seq<Member>): (r: seq<Member>)
    ensures |r| == |members|
    decreases members
  {
    if members == [] then []
    else
      var m := members[0];
      [m.(value := Bare(m.value), after := WithoutComma(m.after))] + BareMembers(members[1..])
  }

  // ---------- the filter's flags ----------

  const NONE := Flags(false, false, false)

  /** The flags after a text, given those before it. */
  function FlagsAfter(u: Tree, f: Flags): (g: Flags)
    ensures g.inString == f.inString
    decreases u
  {
    match u
    case TArr(_, items) => FlagsAfterItems(items, f.(inArray := true)).(inArray := false)
    case TObj(_, members) => FlagsAfterMembers(members, f.(inObject := true)).(inObject := false)
    case _ => f
  }

  function FlagsAfterItems(items: seq<Item>, f: Flags): (g: Flags)
    ensures g.inString == f.inString
    decreases items
  {
    if items == [] then f else FlagsAfterItems(items[1..], FlagsAfter(items[0].value, f))
  }

  function FlagsAfterMembers(members: seq<Member>, f: Flags): (g: Flags)
    ensures g.inString == f.inString
    decreases members
  {
    if members == [] then f else FlagsAfterMembers(members[1..], FlagsAfter(members[0].value, f))
  }

  /** The flags let a trailing comma be dropped. */
  predicate Dropping(f: Flags) {
    f.inArray || f.inObject
  }

  /** The flags let every trailing comma of the text be dropped. */
  predicate Covered(u: Tree, f: Flags)
    decreases u
  {
    match u
    case TArr(_, items) => CoveredItems(items, f.(inArray := true))
    case TObj(_, members) => CoveredMembers(members, f.(inObject := true))
    case _ => true
  }

  predicate CoveredItems(items: seq<Item>, f: Flags)
    decreases items
  {
    items != [] ==>
      var g := FlagsAfter(items[0].value, f);
      && Covered(items[0].value, f)
      && (',' in items[0].after ==> Dropping(g))
      && CoveredItems(items[1..], g)
  }

  predicate CoveredMembers(members: seq<Member>, f: Flags)
    decreases members
  {
    members != [] ==>
      var g := FlagsAfter(members[0].value, f);
      && Covered(members[0].value, f)
      && (',' in members[0].after ==> Dropping(g))
      && CoveredMembers(members[1..], g)
  }

  /** What the filter leaves of the whitespace before a closing bracket. */
  function TrimGap(w: string, f: Flags): (r: string) {
    if Dropping(f) then WithoutComma(w) else w
  }

  /** What it leaves of a tree. */
  function Trim(u: Tree, f: Flags): (v: Tree)
    decreases u
  {
    match u
    case TArr(pad, items) => TArr(pad, TrimItems(items, f.(inArray := true)))
    case TObj(pad, members) => TObj(pad, TrimMembers(members, f.(inObject := true)))
    case _ => u
  }

  function TrimItems(items: seq<Item>, f: Flags): (r: seq<Item>)
    ensures |r| == |items|
    decreases items
  {
    if items == [] then []
    else
      var it, g := items[0], FlagsAfter(items[0].value, f);
      [Item(it.before, Trim(it.value, f), if |items| == 1 then TrimGap(it.after, g) else it.after)] + TrimItems(items[1..], g)
  }

  function TrimMembers(members: seq<Member>, f: Flags): (r: seq<Member>)
    ensures |r| == |members|
    decreases members
  {
    if members == [] then []
    else
      var m, g := members[0], FlagsAfter(members[0].value, f);
      [m.(value := Trim(m.value, f), after := if |members| == 1 then TrimGap(m.after, g) else m.after)]
      + TrimMembers(members[1..], g)
  }

  // ---------- stretches of text ----------

  /** From p to q the comma filter, which enters with f and leaves with g, outputs `out`, and the comment
      filter copies. */
  predicate Passes(s: string, p: nat, q: nat, f: Flags, g: Flags, out: string) {
    && p <= q <= |s| && Outside(s, p) && Outside(s, q) && !f.inString && !g.inString
    && TailFrom(s, p, f) == out + TailFrom(s, q, g)
    && CommentsFrom(s, p, Code(false)) == s[p..q] + CommentsFrom(s, q, Code(false))
  }

  lemma {:induction false} PassesJoin(s: string, p: nat, q: nat, r: nat, f: Flags, g: Flags, h: Flags, a: string, b: string)
    requires Passes(s, p, q, f, g, a) && Passes(s, q, r, g, h, b)
    ensures Passes(s, p, r, f, h, a + b)
  {
    hide Outside, TailFrom, CommentsFrom;
    assert a + (b + TailFrom(s, r, h)) == a + b + TailFrom(s, r, h);
    assert s[p..q] + (s[q..r] + CommentsFrom(s, r, Code(false))) == s[p..r] + CommentsFrom(s, r, Code(false));
  }

  lemma PassesEnds(s: string, p: nat, q: nat, f: Flags, g: Flags, out: string)
    requires Passes(s, p, q, f, g, out)
    ensures p <= q <= |s| && Outside(s, q) && !g.inString
  {
  }

  lemma {:induction false} NothingPasses(s: string, p: nat, f: Flags)
    requires p <= |s| && Outside(s, p) && !f.inString
    ensures Passes(s, p, p, f, f, "")
  {
    hide TailFrom, CommentsFrom;
    assert s[p..p] == "";
    assert "" + TailFrom(s, p, f) == TailFrom(s, p, f);
    assert "" + CommentsFrom(s, p, Code(false)) == CommentsFrom(s, p, Code(false));
  }

  /** A character outside strings: what the flags become, and whether it is dropped. */
  lemma {:induction false} CharPasses(s: string, p: nat, f: Flags)
    requires p < |s| && Outside(s, p) && !f.inString && s[p] != '\"' && s[p] != '/' && s[p] != '\\'
    ensures var g := Advance(s, p, f); Passes(s, p, p + 1, f, g, if Drops(s, p, g) then "" else [s[p]])
  {
    hide TailFrom, CommentsFrom, IsTrailing;
    CharCarries(s, p);
    TailStep(s, p, f, "");
    var g := Advance(s, p, f);
    assert "" + TailFrom(s, p, f) == TailFrom(s, p, f) && "" + [s[p]] == [s[p]];
    assert s[p..p + 1] == [s[p]];
  }

  lemma {:induction false} MarkPasses(s: string, p: nat, f: Flags, c: char, g: Flags)
    requires p < |s| && s[p] == c && Outside(s, p) && !f.inString
    requires c in "[]{}:," || IsSpace(c)
    requires c == ',' ==> !IsTrailing(s, p)
    requires g == if c == '[' then f.(inArray := true) else if c == ']' then f.(inArray := false)
                  else if c == '{' then f.(inObject := true) else if c == '}' then f.(inObject := false) else f
    ensures Passes(s, p, p + 1, f, g, [c]) && Outside(s, p + 1)
  {
    hide Outside, Passes, IsTrailing;
    CharPasses(s, p, f);
    PassesEnds(s, p, p + 1, f, g, [c]);
  }

  lemma {:induction false} CommaGoes(s: string, p: nat, f: Flags)
    requires p < |s| && s[p] == ',' && IsTrailing(s, p) && Outside(s, p) && !f.inString
    ensures Passes(s, p, p + 1, f, f, if Dropping(f) then "" else ",") && Outside(s, p + 1)
  {
    hide Outside, Passes, IsTrailing;
    CharPasses(s, p, f);
    PassesEnds(s, p, p + 1, f, f, if Dropping(f) then "" else ",");
  }

  lemma {:induction false} BlankPasses(s: string, p: nat, w: string, f: Flags)
    requires Blank(w) && At(s, p, w) && p <= |s| && Outside(s, p) && !f.inString
    ensures Passes(s, p, p + |w|, f, f, w) && p + |w| <= |s| && Outside(s, p + |w|)
    decreases |w|
  {
    hide Outside, Passes, At;
    if w == "" {
      NothingPasses(s, p, f);
    } else {
      assert w == [w[0]] + w[1..];
      AtConcat(s, p, [w[0]], w[1..]);
      AtHead(s, p, [w[0]]);
      MarkPasses(s, p, f, w[0], f);
      BlankPasses(s, p + 1, w[1..], f);
      PassesJoin(s, p, p + 1, p + |w|, f, f, f, [w[0]], w[1..]);
    }
  }

  /** The whitespace before a closing bracket. */
  lemma {:induction false} GapPasses(s: string, p: nat, w: string, f: Flags)
    requires AtMostOneComma(w) && At(s, p, w) && p + |w| < |s| && Closes(s[p + |w|]) && Outside(s, p) && !f.inString
    ensures Passes(s, p, p + |w|, f, f, TrimGap(w, f)) && Outside(s, p + |w|)
    decreases |w|
  {
    hide Outside, Passes, At;
    if w == "" {
      NothingPasses(s, p, f);
    } else {
      assert w == [w[0]] + w[1..];
      AtConcat(s, p, [w[0]], w[1..]);
      AtHead(s, p, [w[0]]);
      if w[0] == ',' {
        SkipSpaceExact(s, p + 1, w[1..]);
        CommaGoes(s, p, f);
        BlankPasses(s, p + 1, w[1..], f);
        BlankHasNoComma(w[1..]);
        PassesJoin(s, p, p + 1, p + |w|, f, f, f, if Dropping(f) then "" else ",", w[1..]);
      } else {
        MarkPasses(s, p, f, w[0], f);
        GapPasses(s, p + 1, w[1..], f);
        PassesJoin(s, p, p + 1, p + |w|, f, f, f, [w[0]], TrimGap(w[1..], f));
      }
    }
  }

  lemma {:induction false} BlankHasNoComma(w: string)
    requires Blank(w)
    ensures WithoutComma(w) == w && ',' !in w && AtMostOneComma(w)
  {
    if w != "" {
      assert IsSpace(w[0]);
      BlankHasNoComma(w[1..]);
      assert w == [w[0]] + w[1..];
    }
  }

  // ---------- leaves ----------

  predicate Bracket(c: char) {
    c in "[]{}"
  }

  /** Through text without brackets outside strings the flags stay as they are. */
  lemma {:induction false} FlagsStay(s: string, p: nat, q: nat, i: nat, f: Flags)
    requires Quiet(s, p, q, false) && p <= i <= q && f.inString == InString(s, i, false)
    requires forall k | p <= k < q :: InString(s, k + 1, false) || !Bracket(s[k])
    ensures TailFrom(s, i, f) == s[i..q] + TailFrom(s, q, f.(inString := false))
    decreases q - i
  {
    hide IsTrailing, TailFrom, InString;
    if i == q {
      assert s[i..q] == "" && "" + TailFrom(s, q, f) == TailFrom(s, q, f);
    } else {
      assert QuietAt(s, i, false);
      AdvanceFollows(s, i, f);
      var g := Advance(s, i, f);
      assert g.(inString := false) == f.(inString := false);
      FlagsStay(s, p, q, i + 1, g);
      TailStep(s, i, f, "");
      assert "" + TailFrom(s, i, f) == TailFrom(s, i, f) && "" + [s[i]] == [s[i]];
      assert s[i..q] == [s[i]] + s[i + 1..q];
    }
  }

  lemma {:induction false} StringPasses(es: seq<Elem>, s: string, p: nat, f: Flags)
    requires ValidElems(es) && CleanElems(es) && At(s, p, StringText(es)) && p <= |s| && Outside(s, p) && !f.inString
    ensures Passes(s, p, p + |StringText(es)|, f, f, StringText(es))
  {
    hide ValidElems, CleanElems, At, BodyText, Quiet, InString, TailFrom, Carries, CommentsFrom;
    var q := p + |StringText(es)|;
    StringQuiet(es, s, p, false);
    KeyCarries(es, s, p);
    CarriesParts(s, p, q, StringText(es));
    StringInside(es, s, p);
    FlagsStay(s, p, q, p, f);
    AtSlice(s, p, StringText(es));
  }

  lemma CarriesParts(s: string, p: nat, q: nat, out: string)
    requires Carries(s, p, q, out)
    ensures p <= q <= |s| && Outside(s, q) && CommentsFrom(s, p, Code(false)) == out + CommentsFrom(s, q, Code(false))
  {
  }

  /** Inside a string the filter knows that it is in one. */
  lemma {:induction false} StringInside(es: seq<Elem>, s: string, p: nat)
    requires ValidElems(es) && CleanElems(es) && At(s, p, StringText(es)) && !InString(s, p, false) && Fresh(s, p)
    ensures forall k | p <= k < p + |StringText(es)| :: InString(s, k + 1, false) || !Bracket(s[k])
  {
    hide ValidElems, CleanElems, At, BodyText;
    AtConcat(s, p, "\"", BodyText(es));
    AtHead(s, p, "\"");
    assert Toggles(s, p, false) && InString(s, p + 1, false);
    assert es[0..] == es;
    BodyQuiet(es, 0, s, p + 1, false);
    hide InString;
    var q := p + |StringText(es)|;
    forall k | p <= k < q ensures InString(s, k + 1, false) || !Bracket(s[k]) {
      if k + 1 < q { assert InString(s, k + 1, false); } else { assert s[k] == '\"'; }
    }
  }

  lemma {:induction false} PlainPasses(t: string, s: string, p: nat, f: Flags)
    requires Plain(t) && (forall i | 0 <= i < |t| :: !Bracket(t[i])) && At(s, p, t) && p <= |s| && Outside(s, p) && !f.inString
    requires t != "" && t[|t| - 1] != '\\'
    ensures Passes(s, p, p + |t|, f, f, t)
  {
    hide Quiet, InString, TailFrom, CommentsFrom, Carries;
    var q := p + |t|;
    PlainQuiet(s, p, t, false);
    PlainQuiet(s, p, t, true);
    QuietEnds(s, p, q, false);
    assert s[p + (|t| - 1)] == t[|t| - 1];
    QuietCarries(s, p, q);
    AtSlice(s, p, t);
    CarriesParts(s, p, q, s[p..q]);
    forall k | p <= k < q ensures !Bracket(s[k]) { assert s[p + (k - p)] == t[k - p]; }
    FlagsStay(s, p, q, p, f);
  }

  lemma {:induction false} LeafPasses(fd: ReadDouble, u: Tree, s: string, p: nat, f: Flags)
    requires Valid(fd, u) && CleanTree(u) && !u.TArr? && !u.TObj?
    requires At(s, p, Text(u)) && p <= |s| && Outside(s, p) && !f.inString
    ensures Passes(s, p, p + |Text(u)|, f, f, Text(u))
  {
    hide At, Passes, Outside;
    match u
    case TStr(es) => StringPasses(es, s, p, f);
    case TNum(n) =>
      NumberPlain(n);
      NumberLast(n);
      NumberBrackets(n);
      PlainPasses(Text(u), s, p, f);
    case _ => PlainPasses(Text(u), s, p, f);
  }

  lemma {:induction false} NumberBrackets(n: Number)
    requires NumberShape(n)
    ensures forall i | 0 <= i < |NumberText(n)| :: !Bracket(NumberText(n)[i])
  {
    var sign, frac, exp := SignText(n), FracText(n), ExpText(n);
    assert NumberText(n) == sign + n.whole + (frac + exp);
    assert forall i | 0 <= i < |n.whole| :: !Bracket(n.whole[i]);
    assert forall i | 0 <= i < |frac| :: !Bracket(frac[i]);
    assert forall i | 0 <= i < |exp| :: !Bracket(exp[i]);
    hide FracText, ExpText, SignText, Bracket;
  }

  // ---------- trees ----------

  lemma {:induction false} TrailedStart(fd: ReadDouble, u: Tree)
    requires Trailed(fd, u)
    ensures Text(u) != "" && Text(u)[0] !in "]}" && !IsSpace(Text(u)[0])
  {
    hide ItemsText, MembersText, TrailedItems, TrailedMembers;
    match u
    case TArr(_, _) => assert Text(u)[0] == '[';
    case TObj(_, _) => assert Text(u)[0] == '{';
    case _ => TextStart(fd, u);
  }

  lemma {:induction false} TreePasses(fd: ReadDouble, u: Tree, s: string, p: nat, f: Flags)
    requires Trailed(fd, u) && At(s, p, Text(u)) && p <= |s| && Outside(s, p) && !f.inString
    ensures Passes(s, p, p + |Text(u)|, f, FlagsAfter(u, f), Text(Trim(u, f)))
    decreases u, 1
  {
    hide At, Outside, Passes;
    match u
    case TArr(_, _) => ArrayPasses(fd, u, s, p, f);
    case TObj(_, _) => ObjectPasses(fd, u, s, p, f);
    case _ => LeafPasses(fd, u, s, p, f);
  }

  lemma {:induction false} EmptyPasses(s: string, p: nat, pad: string, close: char, f: Flags, g: Flags)
    requires Blank(pad) && At(s, p, pad + [close]) && p <= |s| && Outside(s, p) && Closes(close) && !f.inString
    requires g == if close == ']' then f.(inArray := false) else f.(inObject := false)
    ensures Passes(s, p, p + |pad| + 1, f, g, pad + [close])
  {
    hide At, Outside, Passes;
    AtConcat(s, p, pad, [close]);
    BlankPasses(s, p, pad, f);
    var q := p + |pad|;
    AtHead(s, q, [close]);
    MarkPasses(s, q, f, close, g);
    PassesJoin(s, p, q, q + 1, f, f, g, pad, [close]);
  }

  lemma {:induction false} ArrayPasses(fd: ReadDouble, u: Tree, s: string, p: nat, f: Flags)
    requires u.TArr? && Trailed(fd, u) && At(s, p, Text(u)) && p <= |s| && Outside(s, p) && !f.inString
    ensures Passes(s, p, p + |Text(u)|, f, FlagsAfter(u, f), Text(Trim(u, f)))
    decreases u, 0
  {
    hide At, Outside, Passes, ItemsText, TrailedItems, Blank, TrimItems;
    var g := f.(inArray := true);
    AtConcat(s, p, "[", if u.items == [] then u.pad + "]" else ItemsText(u.items));
    AtHead(s, p, "[");
    MarkPasses(s, p, f, '[', g);
    if u.items == [] {
      assert FlagsAfterItems(u.items, g) == g;
      EmptyPasses(s, p + 1, u.pad, ']', g, g.(inArray := false));
      PassesJoin(s, p, p + 1, p + |Text(u)|, f, g, FlagsAfter(u, f), "[", u.pad + "]");
    } else {
      ItemsPass(fd, u.items, s, p + 1, g);
      PassesJoin(s, p, p + 1, p + |Text(u)|, f, g, FlagsAfter(u, f), "[", ItemsText(TrimItems(u.items, g)));
    }
  }

  /** The rest of an item or member: its whitespace, then the comma or the closing bracket. */
  lemma {:induction false} EndPasses(s: string, p: nat, w: string, close: char, f: Flags, g: Flags)
    requires AtMostOneComma(w) && At(s, p, w) && p + |w| < |s| && s[p + |w|] == close && Closes(close) && Outside(s, p) && !f.inString
    requires g == if close == ']' then f.(inArray := false) else f.(inObject := false)
    ensures Passes(s, p, p + |w| + 1, f, g, TrimGap(w, f) + [close])
  {
    hide At, Outside, Passes;
    GapPasses(s, p, w, f);
    var q := p + |w|;
    MarkPasses(s, q, f, close, g);
    PassesJoin(s, p, q, q + 1, f, f, g, TrimGap(w, f), [close]);
  }

  lemma {:induction false} MorePasses(s: string, p: nat, w: string, f: Flags)
    requires Blank(w) && At(s, p, w) && p + |w| < |s| && s[p + |w|] == ',' && !IsTrailing(s, p + |w|) && Outside(s, p) && !f.inString
    ensures Passes(s, p, p + |w| + 1, f, f, w + ",") && Outside(s, p + |w| + 1)
  {
    hide At, Outside, Passes, IsTrailing;
    BlankPasses(s, p, w, f);
    var q := p + |w|;
    MarkPasses(s, q, f, ',', f);
    PassesJoin(s, p, q, q + 1, f, f, f, w, ",");
  }

  lemma {:induction false} ItemPasses(fd: ReadDouble, it: Item, s: string, p: nat, f: Flags)
    requires Blank(it.before) && Trailed(fd, it.value) && At(s, p, it.before + Text(it.value)) && p <= |s| && Outside(s, p) && !f.inString
    ensures var q := p + |it.before + Text(it.value)|;
            Passes(s, p, q, f, FlagsAfter(it.value, f), it.before + Text(Trim(it.value, f))) && q <= |s| && Outside(s, q)
    decreases it
  {
    hide At, Outside, Passes, Text, Trailed, Trim, FlagsAfter;
    AtConcat(s, p, it.before, Text(it.value));
    BlankPasses(s, p, it.before, f);
    var q := p + |it.before|;
    TreePasses(fd, it.value, s, q, f);
    var g := FlagsAfter(it.value, f);
    PassesJoin(s, p, q, q + |Text(it.value)|, f, f, g, it.before, Text(Trim(it.value, f)));
    PassesEnds(s, p, q + |Text(it.value)|, f, g, it.before + Text(Trim(it.value, f)));
  }

  lemma {:induction false} ItemsPass(fd: ReadDouble, items: seq<Item>, s: string, p: nat, f: Flags)
    requires items != [] && TrailedItems(fd, items) && At(s, p, ItemsText(items)) && p <= |s| && Outside(s, p) && !f.inString
    ensures Passes(s, p, p + |ItemsText(items)|, f, FlagsAfterItems(items, f).(inArray := false), ItemsText(TrimItems(items, f)))
    decreases items, 0
  {
    hide At, Outside, Passes, Text, ItemsText, Trailed, Trim, FlagsAfter, IsTrailing, Blank, AtMostOneComma;
    var it := items[0];
    ItemsTextUnfold(items, s, p);
    ItemPasses(fd, it, s, p, f);
    var q := p + |it.before + Text(it.value)|;
    var r := q + |it.after|;
    var g := FlagsAfter(it.value, f);
    var head := it.before + Text(Trim(it.value, f));
    if |items| == 1 {
      var v := Item(it.before, Trim(it.value, f), TrimGap(it.after, g));
      EndPasses(s, q, it.after, ']', g, g.(inArray := false));
      PassesJoin(s, p, q, r + 1, f, g, g.(inArray := false), head, TrimGap(it.after, g) + "]");
      OneItem(v);
      assert TrimItems(items, f) == [v];
      Concat3(head, TrimGap(it.after, g), "]");
    } else {
      var v := Item(it.before, Trim(it.value, f), it.after);
      var rest := TrimItems(items[1..], g);
      ItemAhead(fd, items[1..], s, r);
      MorePasses(s, q, it.after, g);
      ItemsPass(fd, items[1..], s, r + 1, g);
      PassesJoin(s, p, q, r + 1, f, g, g, head, it.after + ",");
      PassesJoin(s, p, r + 1, p + |ItemsText(items)|, f, g, FlagsAfterItems(items, f).(inArray := false),
                 head + (it.after + ","), ItemsText(rest));
      MoreItems(v, rest);
      Concat3(head, it.after, ",");
      assert TrimItems(items, f) == [v] + rest;
    }
  }

  lemma {:induction false} ItemAhead(fd: ReadDouble, items: seq<Item>, s: string, r: nat)
    requires items != [] && TrailedItems(fd, items) && r < |s| && At(s, r + 1, ItemsText(items))
    ensures !IsTrailing(s, r)
  {
    hide At, Text, ItemsText, Trailed, SkipSpace;
    var it := items[0];
    ItemsTextUnfold(items, s, r + 1);
    AtConcat(s, r + 1, it.before, Text(it.value));
    TrailedStart(fd, it.value);
    AtHead(s, r + 1 + |it.before|, Text(it.value));
    SkipSpaceExact(s, r + 1, it.before);
  }

  // ---------- objects ----------

  lemma {:induction false} ObjectPasses(fd: ReadDouble, u: Tree, s: string, p: nat, f: Flags)
    requires u.TObj? && Trailed(fd, u) && At(s, p, Text(u)) && p <= |s| && Outside(s, p) && !f.inString
    ensures Passes(s, p, p + |Text(u)|, f, FlagsAfter(u, f), Text(Trim(u, f)))
    decreases u, 0
  {
    hide At, Outside, Passes, MembersText, TrailedMembers, Blank, TrimMembers;
    var g := f.(inObject := true);
    AtConcat(s, p, "{", if u.members == [] then u.pad + "}" else MembersText(u.members));
    AtHead(s, p, "{");
    MarkPasses(s, p, f, '{', g);
    if u.members == [] {
      assert FlagsAfterMembers(u.members, g) == g;
      EmptyPasses(s, p + 1, u.pad, '}', g, g.(inObject := false));
      PassesJoin(s, p, p + 1, p + |Text(u)|, f, g, FlagsAfter(u, f), "{", u.pad + "}");
    } else {
      MembersPass(fd, u.members, s, p + 1, g);
      PassesJoin(s, p, p + 1, p + |Text(u)|, f, g, FlagsAfter(u, f), "{", MembersText(TrimMembers(u.members, g)));
    }
  }

  lemma {:induction false} HeadPasses(m: Member, s: string, p: nat, f: Flags)
    requires TrailedHead(m) && At(s, p, MemberHead(m)) && p <= |s| && Outside(s, p) && !f.inString
    ensures Passes(s, p, p + |MemberHead(m)|, f, f, MemberHead(m)) && p + |MemberHead(m)| <= |s| && Outside(s, p + |MemberHead(m)|)
  {
    hide At, Outside, Passes, StringText, ValidElems, CleanElems, Blank;
    var key := StringText(m.key);
    AtConcat(s, p, m.before + key + m.beforeColon + ":", m.afterColon);
    AtConcat(s, p, m.before + key + m.beforeColon, ":");
    AtConcat3(s, p, m.before, key, m.beforeColon);
    BlankPasses(s, p, m.before, f);
    var q := p + |m.before|;
    StringPasses(m.key, s, q, f);
    var r := q + |key|;
    PassesEnds(s, q, r, f, f, key);
    PassesJoin(s, p, q, r, f, f, f, m.before, key);
    BlankPasses(s, r, m.beforeColon, f);
    var c := r + |m.beforeColon|;
    PassesJoin(s, p, r, c, f, f, f, m.before + key, m.beforeColon);
    AtHead(s, c, ":");
    MarkPasses(s, c, f, ':', f);
    PassesJoin(s, p, c, c + 1, f, f, f, m.before + key + m.beforeColon, ":");
    BlankPasses(s, c + 1, m.afterColon, f);
    PassesJoin(s, p, c + 1, c + 1 + |m.afterColon|, f, f, f, m.before + key + m.beforeColon + ":", m.afterColon);
  }

  lemma {:induction false} MemberPasses(fd: ReadDouble, m: Member, s: string, p: nat, f: Flags)
    requires TrailedHead(m) && Trailed(fd, m.value) && At(s, p, MemberHead(m) + Text(m.value)) && p <= |s| && Outside(s, p) && !f.inString
    ensures var q := p + |MemberHead(m) + Text(m.value)|;
            Passes(s, p, q, f, FlagsAfter(m.value, f), MemberHead(m) + Text(Trim(m.value, f))) && q <= |s| && Outside(s, q)
    decreases m
  {
    hide At, Outside, Passes, Text, Trailed, Trim, FlagsAfter, MemberHead, TrailedHead;
    AtConcat(s, p, MemberHead(m), Text(m.value));
    HeadPasses(m, s, p, f);
    var q := p + |MemberHead(m)|;
    TreePasses(fd, m.value, s, q, f);
    var g := FlagsAfter(m.value, f);
    PassesJoin(s, p, q, q + |Text(m.value)|, f, f, g, MemberHead(m), Text(Trim(m.value, f)));
    PassesEnds(s, p, q + |Text(m.value)|, f, g, MemberHead(m) + Text(Trim(m.value, f)));
  }

  lemma {:induction false} MembersPass(fd: ReadDouble, members: seq<Member>, s: string, p: nat, f: Flags)
    requires members != [] && TrailedMembers(fd, members) && At(s, p, MembersText(members)) && p <= |s| && Outside(s, p) && !f.inString
    ensures Passes(s, p, p + |MembersText(members)|, f, FlagsAfterMembers(members, f).(inObject := false), MembersText(TrimMembers(members, f)))
    decreases members, 0
  {
    hide At, Outside, Passes, Text, MembersText, Trailed, Trim, FlagsAfter, IsTrailing, Blank, AtMostOneComma, MemberHead, TrailedHead;
    var m := members[0];
    MembersTextUnfold(members, s, p);
    MemberPasses(fd, m, s, p, f);
    var q := p + |MemberHead(m) + Text(m.value)|;
    var r := q + |m.after|;
    var g := FlagsAfter(m.value, f);
    var head := MemberHead(m) + Text(Trim(m.value, f));
    if |members| == 1 {
      var v := m.(value := Trim(m.value, f), after := TrimGap(m.after, g));
      SameHead(m, v);
      EndPasses(s, q, m.after, '}', g, g.(inObject := false));
      PassesJoin(s, p, q, r + 1, f, g, g.(inObject := false), head, TrimGap(m.after, g) + "}");
      OneMember(v);
      assert TrimMembers(members, f) == [v];
      Concat3(head, TrimGap(m.after, g), "}");
    } else {
      var v := m.(value := Trim(m.value, f));
      SameHead(m, v);
      var rest := TrimMembers(members[1..], g);
      MemberAhead(fd, members[1..], s, r);
      MorePasses(s, q, m.after, g);
      MembersPass(fd, members[1..], s, r + 1, g);
      PassesJoin(s, p, q, r + 1, f, g, g, head, m.after + ",");
      PassesJoin(s, p, r + 1, p + |MembersText(members)|, f, g, FlagsAfterMembers(members, f).(inObject := false),
                 head + (m.after + ","), MembersText(rest));
      MoreMembers(v, rest);
      Concat3(head, m.after, ",");
      assert TrimMembers(members, f) == [v] + rest;
    }
  }

  lemma SameHead(m: Member, v: Member)
    requires v == m.(value := v.value, after := v.after)
    ensures MemberHead(v) == MemberHead(m)
  {
  }

  lemma {:induction false} MemberAhead(fd: ReadDouble, members: seq<Member>, s: string, r: nat)
    requires members != [] && TrailedMembers(fd, members) && r < |s| && At(s, r + 1, MembersText(members))
    ensures !IsTrailing(s, r)
  {
    hide At, Text, MembersText, Trailed, SkipSpace, BodyText, ValidElems;
    var m := members[0];
    MembersTextUnfold(members, s, r + 1);
    var rest := m.beforeColon + ":" + m.afterColon + Text(m.value);
    assert MemberHead(m) + Text(m.value) == m.before + StringText(m.key) + rest;
    AtConcat3(s, r + 1, m.before, StringText(m.key), rest);
    AtHead(s, r + 1 + |m.before|, StringText(m.key));
    SkipSpaceExact(s, r + 1, m.before);
  }

  // ---------- what is left ----------

  /** Some container still has a trailing comma. */
  predicate HasComma(v: Tree)
    decreases v
  {
    match v
    case TArr(_, items) => HasCommaItems(items)
    case TObj(_, members) => HasCommaMembers(members)
    case _ => false
  }

  predicate HasCommaItems(items: seq<Item>)
    decreases items
  {
    items != [] && (HasComma(items[0].value) || ',' in items[0].after || HasCommaItems(items[1..]))
  }

  predicate HasCommaMembers(members: seq<Member>)
    decreases members
  {
    members != [] && (HasComma(members[0].value) || ',' in members[0].after || HasCommaMembers(members[1..]))
  }

  lemma {:induction false} GapLeft(w: string, f: Flags)
    requires AtMostOneComma(w)
    ensures AtMostOneComma(TrimGap(w, f)) && (',' in TrimGap(w, f) <==> ',' in w && !Dropping(f))
    ensures ',' !in w ==> Blank(w) && WithoutComma(w) == w
    ensures Blank(WithoutComma(w))
  {
    if w != "" {
      if w[0] == ',' {
        BlankHasNoComma(w[1..]);
        assert WithoutComma(w) == w[1..];
      } else {
        GapLeft(w[1..], f);
        assert w == [w[0]] + w[1..];
        var r := WithoutComma(w);
        assert r[1..] == WithoutComma(w[1..]);
      }
    }
  }

  lemma {:induction false} TrimTrailed(fd: ReadDouble, u: Tree, f: Flags)
    requires Trailed(fd, u)
    ensures Trailed(fd, Trim(u, f)) && (HasComma(Trim(u, f)) <==> !Covered(u, f))
    ensures Covered(u, f) ==> Trim(u, f) == Bare(u)
    decreases u
  {
    hide TrailedItems, TrailedMembers, TrimItems, TrimMembers, HasCommaItems, HasCommaMembers, BareItems, BareMembers, Blank;
    match u
    case TArr(_, items) => TrimItemsTrailed(fd, items, f.(inArray := true));
    case TObj(_, members) => TrimMembersTrailed(fd, members, f.(inObject := true));
    case _ =>
  }

  lemma {:induction false} TrimItemsTrailed(fd: ReadDouble, items: seq<Item>, f: Flags)
    requires TrailedItems(fd, items)
    ensures TrailedItems(fd, TrimItems(items, f)) && (HasCommaItems(TrimItems(items, f)) <==> !CoveredItems(items, f))
    ensures CoveredItems(items, f) ==> TrimItems(items, f) == BareItems(items)
    decreases items
  {
    hide Trailed, Trim, HasComma, Bare, Covered, FlagsAfter, Blank, AtMostOneComma, TrimGap, WithoutComma, Dropping;
    if items != [] {
      var it, g := items[0], FlagsAfter(items[0].value, f);
      TrimTrailed(fd, it.value, f);
      TrimItemsTrailed(fd, items[1..], g);
      AfterLeft(it.after, |items| == 1, g);
      var r := TrimItems(items, f);
      assert r[1..] == TrimItems(items[1..], g);
    }
  }

  lemma {:induction false} AfterLeft(w: string, last: bool, g: Flags)
    requires if last then AtMostOneComma(w) else Blank(w)
    ensures last ==> AtMostOneComma(TrimGap(w, g)) && (',' in TrimGap(w, g) <==> ',' in w && !Dropping(g))
    ensures last && (',' in w ==> Dropping(g)) ==> TrimGap(w, g) == WithoutComma(w)
    ensures !last ==> WithoutComma(w) == w && ',' !in w
  {
    if last { GapLeft(w, g); } else { BlankHasNoComma(w); }
  }

  lemma {:induction false} TrimMembersTrailed(fd: ReadDouble, members: seq<Member>, f: Flags)
    requires TrailedMembers(fd, members)
    ensures TrailedMembers(fd, TrimMembers(members, f)) && (HasCommaMembers(TrimMembers(members, f)) <==> !CoveredMembers(members, f))
    ensures CoveredMembers(members, f) ==> TrimMembers(members, f) == BareMembers(members)
    decreases members
  {
    hide Trailed, Trim, HasComma, Bare, Covered, FlagsAfter, Blank, AtMostOneComma, TrimGap, WithoutComma, Dropping, ValidElems, CleanElems;
    if members != [] {
      var m, g := members[0], FlagsAfter(members[0].value, f);
      TrimTrailed(fd, m.value, f);
      TrimMembersTrailed(fd, members[1..], g);
      AfterLeft(m.after, |members| == 1, g);
      var r := TrimMembers(members, f);
      assert r[1..] == TrimMembers(members[1..], g);
    }
  }

  /** Without trailing commas a tree is one of the grammar. */
  lemma {:induction false} NoCommaIsValid(fd: ReadDouble, v: Tree)
    requires Trailed(fd, v) && !HasComma(v)
    ensures Valid(fd, v) && CleanTree(v)
    decreases v, 0
  {
    hide TrailedItems, TrailedMembers, HasCommaItems, HasCommaMembers;
    match v
    case TArr(_, items) => NoCommaItems(fd, items);
    case TObj(_, members) => NoCommaMembers(fd, members);
    case _ =>
  }

  lemma {:induction false} NoCommaItems(fd: ReadDouble, items: seq<Item>)
    requires TrailedItems(fd, items) && !HasCommaItems(items)
    ensures forall i | 0 <= i < |items| :: ValidItem(fd, items[i]) && CleanItem(items[i])
    decreases items, 0
  {
    hide Trailed, HasComma, Valid, CleanTree, Blank, AtMostOneComma;
    if items != [] {
      NoCommaIsValid(fd, items[0].value);
      NoCommaItems(fd, items[1..]);
      if |items| == 1 { GapLeft(items[0].after, NONE); }
      forall i | 0 <= i < |items| ensures ValidItem(fd, items[i]) && CleanItem(items[i]) {
        if i > 0 { assert items[i] == items[1..][i - 1]; }
      }
    }
  }

  lemma {:induction false} NoCommaMembers(fd: ReadDouble, members: seq<Member>)
    requires TrailedMembers(fd, members) && !HasCommaMembers(members)
    ensures forall i | 0 <= i < |members| :: ValidMember(fd, members[i]) && CleanMember(members[i])
    decreases members, 0
  {
    hide Trailed, HasComma, Valid, CleanTree, Blank, AtMostOneComma, ValidElems, CleanElems;
    if members != [] {
      NoCommaIsValid(fd, members[0].value);
      NoCommaMembers(fd, members[1..]);
      if |members| == 1 { GapLeft(members[0].after, NONE); }
      forall i | 0 <= i < |members| ensures ValidMember(fd, members[i]) && CleanMember(members[i]) {
        if i > 0 { assert members[i] == members[1..][i - 1]; }
      }
    }
  }

  lemma {:induction false} BareIsValid(fd: ReadDouble, u: Tree)
    requires Trailed(fd, u)
    ensures Valid(fd, Bare(u)) && CleanTree(Bare(u))
    decreases u
  {
    hide TrailedItems, TrailedMembers, BareItems, BareMembers;
    match u
    case TArr(pad, items) =>
      BareItemsValid(fd, items);
      assert Bare(u) == TArr(pad, BareItems(items));
    case TObj(pad, members) =>
      BareMembersValid(fd, members);
      assert Bare(u) == TObj(pad, BareMembers(members));
    case _ =>
  }

  predicate GoodItems(fd: ReadDouble, items: seq<Item>) {
    forall i | 0 <= i < |items| :: ValidItem(fd, items[i]) && CleanItem(items[i])
  }

  predicate GoodMembers(fd: ReadDouble, members: seq<Member>) {
    forall i | 0 <= i < |members| :: ValidMember(fd, members[i]) && CleanMember(members[i])
  }

  lemma OneMoreItem(fd: ReadDouble, it: Item, items: seq<Item>)
    requires ValidItem(fd, it) && CleanItem(it) && GoodItems(fd, items)
    ensures GoodItems(fd, [it] + items)
  {
    hide ValidItem, CleanItem;
  }

  lemma OneMoreMember(fd: ReadDouble, m: Member, members: seq<Member>)
    requires ValidMember(fd, m) && CleanMember(m) && GoodMembers(fd, members)
    ensures GoodMembers(fd, [m] + members)
  {
    hide ValidMember, CleanMember;
  }

  lemma {:induction false} BareItemsValid(fd: ReadDouble, items: seq<Item>)
    requires TrailedItems(fd, items)
    ensures GoodItems(fd, BareItems(items))
    decreases items
  {
    hide Trailed, Valid, CleanTree, Blank, AtMostOneComma, Bare, WithoutComma;
    if items != [] {
      BareIsValid(fd, items[0].value);
      BareItemsValid(fd, items[1..]);
      hide GoodItems;
      if |items| > 1 { BlankHasNoComma(items[0].after); }
      GapLeft(items[0].after, NONE);
      var first := Item(items[0].before, Bare(items[0].value), WithoutComma(items[0].after));
      OneMoreItem(fd, first, BareItems(items[1..]));
    }
  }

  lemma {:induction false} BareMembersValid(fd: ReadDouble, members: seq<Member>)
    requires TrailedMembers(fd, members)
    ensures GoodMembers(fd, BareMembers(members))
    decreases members
  {
    hide Trailed, Valid, CleanTree, Blank, AtMostOneComma, Bare, WithoutComma, ValidElems, CleanElems;
    if members != [] {
      BareIsValid(fd, members[0].value);
      BareMembersValid(fd, members[1..]);
      hide GoodMembers;
      if |members| > 1 { BlankHasNoComma(members[0].after); }
      GapLeft(members[0].after, NONE);
      var first := members[0].(value := Bare(members[0].value), after := WithoutComma(members[0].after));
      OneMoreMember(fd, first, BareMembers(members[1..]));
    }
  }

  // ---------- a comma that is left makes the parse fail ----------

  lemma {:induction false} ValueFails(fd: ReadDouble, v: Tree, w: string, s: string, p: nat)
    requires Trailed(fd, v) && HasComma(v) && Blank(w) && At(s, p, w + Text(v)) && p <= |s|
    ensures ValueAt(fd, s, p).Err?
    decreases v, 1
  {
    hide At, ValueAt, SkipSpace, Blank, ItemsText, MembersText, TrailedItems, TrailedMembers, HasCommaItems, HasCommaMembers,
      ArrayAt, ObjectAt;
    TrailedStart(fd, v);
    AtConcat(s, p, w, Text(v));
    var q := p + |w|;
    AtHead(s, q, Text(v));
    SkipSpaceExact(s, p, w);
    SkipSpaceTwice(s, p);
    ValueAtSkips(fd, s, p);
    Dispatch(fd, s, q);
    if v.TArr? { ArrayFails(fd, v, s, q); } else { ObjectFails(fd, v, s, q); }
  }

  lemma {:induction false} ArrayFails(fd: ReadDouble, v: Tree, s: string, p: nat)
    requires v.TArr? && Trailed(fd, v) && HasComma(v) && At(s, p, Text(v)) && p < |s|
    ensures ArrayAt(fd, s, p).Err?
    decreases v, 0
  {
    hide At, ItemsAt, ItemsText, TrailedItems, Blank, SkipSpace, ValueAt;
    assert v.items != [];
    AtConcat(s, p, "[", ItemsText(v.items));
    AtBound(s, p + 1, ItemsText(v.items));
    ItemsStart(fd, v.items, s, p + 1);
    ItemsFail(fd, v.items, s, p + 1, []);
    ItemsAtSkips(fd, s, p + 1, []);
  }

  lemma {:induction false} ItemsStart(fd: ReadDouble, items: seq<Item>, s: string, p: nat)
    requires items != [] && TrailedItems(fd, items) && At(s, p, ItemsText(items)) && p <= |s|
    ensures SkipSpace(s, p) < |s| && s[SkipSpace(s, p)] !in "]}"
  {
    hide At, Text, ItemsText, Trailed, SkipSpace;
    var it := items[0];
    ItemsTextUnfold(items, s, p);
    AtConcat(s, p, it.before, Text(it.value));
    TrailedStart(fd, it.value);
    AtHead(s, p + |it.before|, Text(it.value));
    SkipSpaceExact(s, p, it.before);
  }

  /** After a value, the whitespace with its comma: the parser goes on to the next value, and meets the bracket. */
  lemma {:induction false} CommaLeadsToBracket(s: string, q: nat, w: string, close: char)
    requires AtMostOneComma(w) && ',' in w && At(s, q, w) && q + |w| < |s| && s[q + |w|] == close && Closes(close)
    ensures SeparatorAt(s, q, close) == Ok(More, q + |w|)
    ensures IsSpace(s[q]) || s[q] == ','
    decreases |w|
  {
    hide At, SeparatorAt, SkipSpace, Blank;
    assert w == [w[0]] + w[1..];
    AtConcat(s, q, [w[0]], w[1..]);
    AtHead(s, q, [w[0]]);
    SeparatorHead(s, q, close);
    if w[0] == ',' {
      SkipSpaceExact(s, q + 1, w[1..]);
    } else {
      CommaLeadsToBracket(s, q + 1, w[1..], close);
    }
  }

  lemma SeparatorHead(s: string, q: nat, close: char)
    requires q < |s|
    ensures s[q] == ',' ==> SeparatorAt(s, q, close) == Ok(More, SkipSpace(s, q + 1))
    ensures IsSpace(s[q]) ==> SeparatorAt(s, q, close) == SeparatorAt(s, q + 1, close)
  {
  }

  lemma BracketIsNoValue(fd: ReadDouble, s: string, p: nat)
    requires p < |s| && Closes(s[p])
    ensures ValueAt(fd, s, p).Err? && KeyAt(s, p).Err?
  {
  }

  /** What follows an item's or member's value does not prolong it. */
  lemma {:induction false} AfterStarts(w: string, s: string, q: nat)
    requires AtMostOneComma(w) && At(s, q, w) && q + |w| < |s| && s[q + |w|] in ",]}"
    ensures IsSpace(s[q]) || s[q] in ",]}"
  {
    if w != "" { AtHead(s, q, w); }
  }

  lemma {:induction false} ItemsFail(fd: ReadDouble, items: seq<Item>, s: string, p: nat, acc: seq<Json>)
    requires items != [] && TrailedItems(fd, items) && HasCommaItems(items) && At(s, p, ItemsText(items)) && p <= |s|
    ensures ItemsAt(fd, s, p, acc).Err?
    decreases items, 0
  {
    hide At, ValueAt, Text, ItemsText, Trailed, HasComma, Blank, AtMostOneComma, SkipSpace, Valid, Denote, Ends, SeparatorAt, ItemsAt;
    var it := items[0];
    ItemsTextUnfold(items, s, p);
    var q := p + |it.before + Text(it.value)|;
    var r := q + |it.after|;
    if HasComma(it.value) {
      ValueFails(fd, it.value, it.before, s, p);
      NoItem(fd, s, p, acc);
    } else {
      NoCommaIsValid(fd, it.value);
      if |items| > 1 { BlankHasNoComma(it.after); }
      AfterStarts(it.after, s, q);
      SeparatorEnds(it.value, s, q);
      ValueComplete(fd, it.value, it.before, s, p);
      var v := Denote(fd, it.value);
      if |items| == 1 {
        CommaLeadsToBracket(s, q, it.after, ']');
        BracketIsNoValue(fd, s, r);
        NoItem(fd, s, r, acc + [v]);
        NextItemAt(fd, s, p, acc, v, q, r);
      } else {
        ItemsStep(fd, s, p, acc, v, q, it.after);
        ItemsFail(fd, items[1..], s, r + 1, acc + [v]);
      }
    }
  }

  lemma NoItem(fd: ReadDouble, s: string, p: nat, acc: seq<Json>)
    requires p <= |s| && ValueAt(fd, s, p).Err?
    ensures ItemsAt(fd, s, p, acc).Err?
  {
    hide ValueAt;
  }

  lemma NextItemAt(fd: ReadDouble, s: string, p: nat, acc: seq<Json>, v: Json, q: nat, r: nat)
    requires p <= |s| && ValueAt(fd, s, p) == Ok(v, q) && SeparatorAt(s, q, ']') == Ok(More, r)
    ensures ItemsAt(fd, s, p, acc) == ItemsAt(fd, s, r, acc + [v])
  {
    hide ValueAt, SeparatorAt;
  }

  lemma {:induction false} ObjectFails(fd: ReadDouble, v: Tree, s: string, p: nat)
    requires v.TObj? && Trailed(fd, v) && HasComma(v) && At(s, p, Text(v)) && p < |s|
    ensures ObjectAt(fd, s, p).Err?
    decreases v, 0
  {
    hide At, MembersAt, MembersText, TrailedMembers, Blank, SkipSpace, ValueAt;
    assert v.members != [];
    AtConcat(s, p, "{", MembersText(v.members));
    AtBound(s, p + 1, MembersText(v.members));
    MembersFail(fd, v.members, s, p + 1, map[]);
  }

  /** The key of a member, in front of a value that may hold trailing commas. */
  lemma {:induction false} TrailedKey(fd: ReadDouble, m: Member, s: string, p: nat)
    requires TrailedHead(m) && At(s, p, MemberHead(m) + Text(m.value)) && p <= |s|
    ensures SkipSpace(s, p) == p + |m.before| < |s| && s[p + |m.before|] == '\"'
    ensures var k := p + |MemberHead(m)| - |m.afterColon|;
            && KeyAt(s, p + |m.before|) == Ok(ElemsValue(m.key), k)
            && At(s, k, m.afterColon + Text(m.value))
  {
    hide At, BodyText, Text, BodyAt, ElemsValue, Valid, SkipSpace, ValidElems, CleanElems;
    var k := p + |m.before|;
    var tail := m.afterColon + Text(m.value);
    var rest := m.beforeColon + (":" + tail);
    assert MemberHead(m) + Text(m.value) == m.before + StringText(m.key) + rest;
    AtConcat3(s, p, m.before, StringText(m.key), rest);
    AtConcat(s, k, "\"", BodyText(m.key));
    AtHead(s, k, "\"");
    SkipSpaceExact(s, p, m.before);
    BodyComplete(m.key, s, k + 1, "");
    assert "" + ElemsValue(m.key) == ElemsValue(m.key);
    var c := k + 1 + |BodyText(m.key)|;
    AtConcat(s, c, m.beforeColon, ":" + tail);
    AtConcat(s, c + |m.beforeColon|, ":", tail);
    AtHead(s, c + |m.beforeColon|, ":");
    SkipSpaceExact(s, c, m.beforeColon);
  }

  lemma {:induction false} MembersFail(fd: ReadDouble, members: seq<Member>, s: string, p: nat, acc: map<string, Json>)
    requires members != [] && TrailedMembers(fd, members) && HasCommaMembers(members) && At(s, p, MembersText(members)) && p <= |s|
    ensures SkipSpace(s, p) < |s| && s[SkipSpace(s, p)] == '\"' && MembersAt(fd, s, SkipSpace(s, p), acc).Err?
    decreases members, 0
  {
    hide At, ValueAt, Text, MembersText, Trailed, HasComma, Blank, AtMostOneComma, SkipSpace, Valid, Denote, Ends, SeparatorAt,
      MembersAt, MemberHead, KeyAt, ElemsValue, MemberAt, ValidElems, CleanElems;
    var m := members[0];
    MembersTextUnfold(members, s, p);
    TrailedKey(fd, m, s, p);
    var k := p + |MemberHead(m)| - |m.afterColon|;
    var q := p + |MemberHead(m) + Text(m.value)|;
    var r := q + |m.after|;
    var start := p + |m.before|;
    if HasComma(m.value) {
      ValueFails(fd, m.value, m.afterColon, s, k);
      NoMember(fd, s, start, acc);
    } else {
      NoCommaIsValid(fd, m.value);
      if |members| > 1 { BlankHasNoComma(m.after); }
      AfterStarts(m.after, s, q);
      SeparatorEnds(m.value, s, q);
      ValueComplete(fd, m.value, m.afterColon, s, k);
      var v := (ElemsValue(m.key), Denote(fd, m.value));
      MemberRead(fd, s, start, k, v.0, v.1, q);
      if |members| == 1 {
        CommaLeadsToBracket(s, q, m.after, '}');
        BracketIsNoValue(fd, s, r);
        NoMember(fd, s, r, acc[v.0 := v.1]);
        NextMemberAt(fd, s, start, acc, v, q, r);
      } else {
        MembersStep(fd, s, start, acc, v, q, m.after);
        MembersFail(fd, members[1..], s, r + 1, acc[v.0 := v.1]);
      }
    }
  }

  lemma MemberRead(fd: ReadDouble, s: string, p: nat, k: nat, key: string, v: Json, q: nat)
    requires p <= |s| && KeyAt(s, p) == Ok(key, k) && k <= |s| && ValueAt(fd, s, k) == Ok(v, q)
    ensures MemberAt(fd, s, p) == Ok((key, v), q)
  {
    hide ValueAt, KeyAt;
  }

  lemma NoMember(fd: ReadDouble, s: string, p: nat, acc: map<string, Json>)
    requires p <= |s| && (KeyAt(s, p).Err? || ValueAt(fd, s, KeyAt(s, p).pos).Err?)
    ensures MembersAt(fd, s, p, acc).Err?
  {
    hide ValueAt, KeyAt;
  }

  lemma NextMemberAt(fd: ReadDouble, s: string, p: nat, acc: map<string, Json>, m: (string, Json), q: nat, r: nat)
    requires p <= |s| && MemberAt(fd, s, p) == Ok(m, q) && SeparatorAt(s, q, '}') == Ok(More, r)
    ensures MembersAt(fd, s, p, acc) == MembersAt(fd, s, r, acc[m.0 := m.1])
  {
    hide MemberAt, SeparatorAt;
  }

  // ---------- the exact condition ----------

  lemma {:induction false} WholePasses(fd: ReadDouble, u: Tree, before: string, after: string)
    requires Trailed(fd, u) && Blank(before) && Blank(after)
    ensures var s := before + Text(u) + after;
            RemoveTailComma(s) == before + Text(Trim(u, NONE)) + after && RemoveComments(s) == s
  {
    hide At, Outside, Trailed, Text, Trim, FlagsAfter, Blank, TailFrom, CommentsFrom;
    var s := before + Text(u) + after;
    var p, q, g := |before|, |before| + |Text(u)|, FlagsAfter(u, NONE);
    AtWhole(s);
    AtConcat3(s, 0, before, Text(u), after);
    StartOutside(s);
    BlankPasses(s, 0, before, NONE);
    TreePasses(fd, u, s, p, NONE);
    PassesJoin(s, 0, p, q, NONE, NONE, g, before, Text(Trim(u, NONE)));
    BlankPasses(s, q, after, g);
    PassesJoin(s, 0, q, |s|, NONE, g, g, before + Text(Trim(u, NONE)), after);
    TailEnd(s, g);
    CommentsEnd(s, Code(false));
    var out := before + Text(Trim(u, NONE)) + after;
    assert out + "" == out && s[0..|s|] + "" == s;
  }

  /** Lenient parsing reads a text with trailing commas as the text without them if the filter's flags cover
      every one of the commas, and fails if they do not. */
  lemma {:induction false} TrailingCommasExactly(fd: ReadDouble, u: Tree, before: string, after: string)
    requires Trailed(fd, u) && Blank(before) && Blank(after)
    ensures Valid(fd, Bare(u))
    ensures var parse := LenientAt(fd, before + Text(u) + after);
            if Covered(u, NONE) then parse == Ok(Denote(fd, Bare(u)), |before + Text(Bare(u))|) else parse.Err?
  {
    hide Trailed, Text, Trim, Blank, RemoveTailComma, RemoveComments, ValueAt, Denote, Valid, HasComma, Covered, Bare, At, CleanTree, Ends;
    var v := Trim(u, NONE);
    var s := before + Text(v) + after;
    WholePasses(fd, u, before, after);
    TrimTrailed(fd, u, NONE);
    WholePasses(fd, v, before, after);
    BareIsValid(fd, u);
    if Covered(u, NONE) {
      BlankEnd(v, after);
      TextParses(fd, v, before, after);
    } else {
      AtWhole(s);
      AtConcat(s, 0, before + Text(v), after);
      ValueFails(fd, v, before, s, 0);
    }
  }

  lemma BlankEnd(t: Tree, after: string)
    requires Blank(after)
    ensures Ends(t, after, 0)
  {
    SeparatorEnds(t, after, 0);
  }

  // ---------- which commas are covered ----------

  /** The tree is an array or has one inside it. */
  predicate HoldsArray(u: Tree)
    decreases u
  {
    match u
    case TArr(_, _) => true
    case TObj(_, members) => exists i | 0 <= i < |members| :: HoldsArray(members[i].value)
    case _ => false
  }

  predicate HoldsObject(u: Tree)
    decreases u
  {
    match u
    case TObj(_, _) => true
    case TArr(_, items) => exists i | 0 <= i < |items| :: HoldsObject(items[i].value)
    case _ => false
  }

  /** A flag survives a text exactly when the text has no bracket of its kind. */
  lemma {:induction false} FlagsSurvive(u: Tree, f: Flags)
    ensures FlagsAfter(u, f).inArray <==> f.inArray && !HoldsArray(u)
    ensures FlagsAfter(u, f).inObject <==> f.inObject && !HoldsObject(u)
    decreases u
  {
    hide FlagsAfterItems, FlagsAfterMembers;
    match u
    case TArr(_, items) => FlagsSurviveItems(items, f.(inArray := true));
    case TObj(_, members) => FlagsSurviveMembers(members, f.(inObject := true));
    case _ =>
  }

  lemma {:induction false} FlagsSurviveItems(items: seq<Item>, f: Flags)
    ensures var g := FlagsAfterItems(items, f);
            && (g.inArray <==> f.inArray && forall i | 0 <= i < |items| :: !HoldsArray(items[i].value))
            && (g.inObject <==> f.inObject && forall i | 0 <= i < |items| :: !HoldsObject(items[i].value))
    decreases items
  {
    hide HoldsArray, HoldsObject, FlagsAfter;
    if items != [] {
      FlagsSurvive(items[0].value, f);
      FlagsSurviveItems(items[1..], FlagsAfter(items[0].value, f));
      assert items == [items[0]] + items[1..];
    }
  }

  lemma {:induction false} FlagsSurviveMembers(members: seq<Member>, f: Flags)
    ensures var g := FlagsAfterMembers(members, f);
            && (g.inArray <==> f.inArray && forall i | 0 <= i < |members| :: !HoldsArray(members[i].value))
            && (g.inObject <==> f.inObject && forall i | 0 <= i < |members| :: !HoldsObject(members[i].value))
    decreases members
  {
    hide HoldsArray, HoldsObject, FlagsAfter;
    if members != [] {
      FlagsSurvive(members[0].value, f);
      FlagsSurviveMembers(members[1..], FlagsAfter(members[0].value, f));
      assert members == [members[0]] + members[1..];
    }
  }

  /** An array whose items hold no comma of their own: its trailing comma is read if and only if no item
      holds an array. So "[[],]" is refused. */
  lemma {:induction false} ArrayCommaExactly(fd: ReadDouble, pad: string, items: seq<Item>)
    requires items != [] && TrailedItems(fd, items) && Blank(pad) && ',' in items[|items| - 1].after
    requires forall i | 0 <= i < |items| :: !HasComma(items[i].value)
    ensures LenientAt(fd, Text(TArr(pad, items))).Ok? <==> forall i | 0 <= i < |items| :: !HoldsArray(items[i].value)
  {
    hide TrailedItems, Text, LenientAt, HasComma, HoldsArray, Bare, Denote, Valid, Blank;
    var u := TArr(pad, items);
    assert Trailed(fd, u);
    NothingBlank();
    TrailingCommasExactly(fd, u, "", "");
    assert "" + Text(u) + "" == Text(u);
    OnlyLastComma(fd, items, NONE.(inArray := true));
    FlagsSurviveItems(items, NONE.(inArray := true));
  }

  lemma NothingBlank()
    ensures Blank("")
  {
  }

  lemma {:induction false} OnlyLastComma(fd: ReadDouble, items: seq<Item>, f: Flags)
    requires items != [] && TrailedItems(fd, items) && ',' in items[|items| - 1].after
    requires forall i | 0 <= i < |items| :: !HasComma(items[i].value)
    ensures CoveredItems(items, f) <==> Dropping(FlagsAfterItems(items, f))
    decreases items
  {
    hide Trailed, FlagsAfter, AtMostOneComma, Dropping, HasComma, Covered;
    var g := FlagsAfter(items[0].value, f);
    assert !HasComma(items[0].value);
    NoCommaCovered(fd, items[0].value, f);
    if |items| > 1 {
      BlankHasNoComma(items[0].after);
      OnlyLastComma(fd, items[1..], g);
    }
  }

  lemma {:induction false} NoCommaCovered(fd: ReadDouble, u: Tree, f: Flags)
    requires Trailed(fd, u) && !HasComma(u)
    ensures Covered(u, f)
    decreases u
  {
    hide TrailedItems, TrailedMembers;
    match u
    case TArr(_, items) => NoCommaCoveredItems(fd, items, f.(inArray := true));
    case TObj(_, members) => NoCommaCoveredMembers(fd, members, f.(inObject := true));
    case _ =>
  }

  lemma {:induction false} NoCommaCoveredItems(fd: ReadDouble, items: seq<Item>, f: Flags)
    requires TrailedItems(fd, items) && !HasCommaItems(items)
    ensures CoveredItems(items, f)
    decreases items
  {
    hide Trailed, HasComma, Covered, FlagsAfter, Blank, AtMostOneComma;
    if items != [] {
      NoCommaCovered(fd, items[0].value, f);
      NoCommaCoveredItems(fd, items[1..], FlagsAfter(items[0].value, f));
    }
  }

  lemma {:induction false} NoCommaCoveredMembers(fd: ReadDouble, members: seq<Member>, f: Flags)
    requires TrailedMembers(fd, members) && !HasCommaMembers(members)
    ensures CoveredMembers(members, f)
    decreases members
  {
    hide Trailed, HasComma, Covered, FlagsAfter, Blank, AtMostOneComma, TrailedHead;
    if members != [] {
      NoCommaCovered(fd, members[0].value, f);
      NoCommaCoveredMembers(fd, members[1..], FlagsAfter(members[0].value, f));
    }
  }

  /** For instance, of two empty containers in an array with a trailing comma, the array is refused. */
  lemma {:induction false} NestedCommaIsRefused(fd: ReadDouble)
    ensures LenientAt(fd, "[[],]").Err? && LenientAt(fd, "[{},]").Ok?
  {
    InnerText();
    var a, o := [Item("", TArr("", []), ",")], [Item("", TObj("", []), ",")];
    NothingBlank();
    assert a[1..] == [] && o[1..] == [] && ","[1..] == "";
    assert TrailedItems(fd, a) && TrailedItems(fd, o);
    assert HoldsArray(a[0].value) && !HoldsArray(o[0].value) && !HasComma(a[0].value) && !HasComma(o[0].value);
    hide LenientAt, Text, HoldsArray, HasComma, TrailedItems;
    ArrayCommaExactly(fd, "", a);
    ArrayCommaExactly(fd, "", o);
  }

  lemma InnerText()
    ensures Text(TArr("", [Item("", TArr("", []), ",")])) == "[[],]" && Text(TArr("", [Item("", TObj("", []), ",")])) == "[{},]"
  {
    assert Text(TArr("", [])) == "[]" && Text(TObj("", [])) == "{}";
  }
}
