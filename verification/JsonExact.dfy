/** Exactly when lenient parsing gives a printed value back. */
module JsonExact {
  // The filters only remove characters. If they remove a comma or a slash from printed text, what is
  // left has too few of them to spell the value in any way the parser accepts.

  import opened KeyOrder
  import opened JsonValue
  import opened JsonGrammar
  import opened JsonParser
  import opened JsonCompleteness
  import opened JsonSoundness
  import opened JsonGenerator
  import opened JsonRoundTrip
  import opened JsonLenient
  import opened JsonHarmless

  // ---------- texts in the printer's spelling ----------

  /** The characters the printer puts after a backslash. */
  predicate Simple(c: char) {
    c == '\"' || c == '\\' || c == 'b' || c == 'f' || c == 'n' || c == 'r' || c == 't'
  }

  /** From i on, every backslash begins one of the printer's escapes. */
  predicate Spelled(s: string, i: nat)
    requires i <= |s|
    decreases |s| - i
  {
    i == |s|
    || (if s[i] != '\\' then Spelled(s, i + 1) else i + 1 < |s| && Simple(s[i + 1]) && Spelled(s, i + 2))
  }

  predicate SimpleElem(e: Elem) {
    e.Raw? || (e.Esc? && Simple(e.c))
  }

  predicate SimpleElems(es: seq<Elem>) {
    forall i | 0 <= i < |es| :: SimpleElem(es[i])
  }

  /** No string of the tree uses an escape the printer does not use. */
  predicate SimpleTree(t: Tree)
    decreases t
  {
    match t
    case TStr(es) => SimpleElems(es)
    case TArr(_, items) => forall i | 0 <= i < |items| :: SimpleItem(items[i])
    case TObj(_, members) => forall i | 0 <= i < |members| :: SimpleMember(members[i])
    case _ => true
  }

  predicate SimpleItem(i: Item)
    decreases i
  {
    SimpleTree(i.value)
  }

  predicate SimpleMember(m: Member)
    decreases m
  {
    SimpleElems(m.key) && SimpleTree(m.value)
  }

  lemma {:induction false} SpelledPlain(s: string, p: nat, t: string)
    requires At(s, p, t) && '\\' !in t
    ensures Spelled(s, p) <==> Spelled(s, p + |t|)
    decreases |t|
  {
    if t != "" {
      AtHead(s, p, t);
      AtConcat(s, p, [t[0]], t[1..]) by { assert t == [t[0]] + t[1..]; }
      SpelledPlain(s, p + 1, t[1..]);
    }
  }

  lemma {:induction false} ElemSpelled(e: Elem, s: string, p: nat)
    requires ValidElem(e) && At(s, p, ElemText(e))
    ensures Spelled(s, p) <==> SimpleElem(e) && Spelled(s, p + |ElemText(e)|)
  {
    var t := ElemText(e);
    assert s[p + 0] == t[0];
    if !e.Raw? { assert s[p + 1] == t[1]; }
    hide At, Hex4;
  }

  lemma {:induction false} BodySpelled(es: seq<Elem>, s: string, p: nat)
    requires ValidElems(es) && At(s, p, BodyText(es))
    ensures Spelled(s, p) <==> SimpleElems(es) && Spelled(s, p + |BodyText(es)|)
    decreases |es|
  {
    hide At, ElemText, ValidElem, SimpleElem, Spelled;
    if es == [] {
      SpelledPlain(s, p, "\"");
    } else {
      AtConcat(s, p, ElemText(es[0]), BodyText(es[1..]));
      ElemSpelled(es[0], s, p);
      BodySpelled(es[1..], s, p + |ElemText(es[0])|);
      SimpleSplit(es);
    }
  }

  lemma SimpleSplit(es: seq<Elem>)
    requires es != []
    ensures SimpleElems(es) <==> SimpleElem(es[0]) && SimpleElems(es[1..])
  {
    hide SimpleElem;
    if SimpleElem(es[0]) && SimpleElems(es[1..]) {
      forall i | 0 <= i < |es| ensures SimpleElem(es[i]) { if i > 0 { assert es[i] == es[1..][i - 1]; } }
    }
  }

  lemma {:induction false} StringSpelled(es: seq<Elem>, s: string, p: nat)
    requires ValidElems(es) && At(s, p, StringText(es))
    ensures Spelled(s, p) <==> SimpleElems(es) && Spelled(s, p + |StringText(es)|)
  {
    hide At, BodyText, SimpleElems, Spelled, ValidElems;
    AtConcat(s, p, "\"", BodyText(es));
    SpelledPlain(s, p, "\"");
    BodySpelled(es, s, p + 1);
  }

  lemma BlankNoBackslash(w: string)
    requires Blank(w)
    ensures '\\' !in w
  {
  }

  lemma {:induction false} NumberNoBackslash(n: Number)
    requires NumberShape(n)
    ensures '\\' !in NumberText(n)
  {
    assert '\\' !in SignText(n) && '\\' !in n.whole && '\\' !in FracText(n) && '\\' !in ExpText(n);
  }

  lemma {:induction false} TreeSpelled(fd: ReadDouble, t: Tree, s: string, p: nat)
    requires Valid(fd, t) && At(s, p, Text(t))
    ensures Spelled(s, p) <==> SimpleTree(t) && Spelled(s, p + |Text(t)|)
    decreases t, 1
  {
    hide At, Spelled, SimpleElems, StringText, NumberText, ItemsText, MembersText;
    match t
    case TNum(n) => NumberNoBackslash(n); SpelledPlain(s, p, Text(t));
    case TStr(es) => StringSpelled(es, s, p);
    case TArr(pad, items) =>
      if items == [] {
        BlankNoBackslash(pad);
        SpelledPlain(s, p, Text(t));
      } else {
        AtConcat(s, p, "[", ItemsText(items));
        SpelledPlain(s, p, "[");
        ItemsSpelled(fd, items, s, p + 1);
      }
    case TObj(pad, members) =>
      if members == [] {
        BlankNoBackslash(pad);
        SpelledPlain(s, p, Text(t));
      } else {
        AtConcat(s, p, "{", MembersText(members));
        SpelledPlain(s, p, "{");
        MembersSpelled(fd, members, s, p + 1);
      }
    case _ => SpelledPlain(s, p, Text(t));
  }

  lemma CharSpelled(s: string, p: nat)
    requires p < |s| && s[p] != '\\'
    ensures Spelled(s, p) <==> Spelled(s, p + 1)
  {
  }

  lemma {:induction false} ItemsSpelled(fd: ReadDouble, items: seq<Item>, s: string, p: nat)
    requires items != [] && (forall i | 0 <= i < |items| :: ValidItem(fd, items[i])) && At(s, p, ItemsText(items))
    ensures Spelled(s, p) <==> (forall i | 0 <= i < |items| :: SimpleItem(items[i])) && Spelled(s, p + |ItemsText(items)|)
    decreases items, 0
  {
    hide At, Spelled, Text, ItemsText, Valid, SimpleTree;
    var it := items[0];
    assert ValidItem(fd, it);
    ItemsTextUnfold(items, s, p);
    AtConcat(s, p, it.before, Text(it.value));
    BlankNoBackslash(it.before);
    SpelledPlain(s, p, it.before);
    TreeSpelled(fd, it.value, s, p + |it.before|);
    var q := p + |it.before + Text(it.value)|;
    BlankNoBackslash(it.after);
    SpelledPlain(s, q, it.after);
    CharSpelled(s, q + |it.after|);
    if |items| > 1 {
      ItemsSpelled(fd, items[1..], s, q + |it.after| + 1);
      assert forall i | 1 <= i < |items| :: items[i] == items[1..][i - 1];
    }
  }

  lemma {:induction false} HeadSpelled(fd: ReadDouble, m: Member, s: string, p: nat)
    requires ValidMember(fd, m) && At(s, p, MemberHead(m))
    ensures Spelled(s, p) <==> SimpleElems(m.key) && Spelled(s, p + |MemberHead(m)|)
  {
    hide At, Spelled, StringText, ValidElems, SimpleElems, Valid;
    var colon := m.beforeColon + ":" + m.afterColon;
    assert MemberHead(m) == m.before + StringText(m.key) + colon;
    AtConcat3(s, p, m.before, StringText(m.key), colon);
    BlankNoBackslash(m.before);
    SpelledPlain(s, p, m.before);
    StringSpelled(m.key, s, p + |m.before|);
    BlankNoBackslash(m.beforeColon);
    BlankNoBackslash(m.afterColon);
    SpelledPlain(s, p + |m.before| + |StringText(m.key)|, colon);
  }

  lemma {:induction false} MembersSpelled(fd: ReadDouble, members: seq<Member>, s: string, p: nat)
    requires members != [] && (forall i | 0 <= i < |members| :: ValidMember(fd, members[i])) && At(s, p, MembersText(members))
    ensures Spelled(s, p)
            <==> (forall i | 0 <= i < |members| :: SimpleMember(members[i])) && Spelled(s, p + |MembersText(members)|)
    decreases members, 0
  {
    hide At, Spelled, Text, MembersText, Valid, SimpleTree, MemberHead, ValidElems, SimpleElems;
    var m := members[0];
    assert ValidMember(fd, m);
    MembersTextUnfold(members, s, p);
    AtConcat(s, p, MemberHead(m), Text(m.value));
    HeadSpelled(fd, m, s, p);
    TreeSpelled(fd, m.value, s, p + |MemberHead(m)|);
    var q := p + |MemberHead(m) + Text(m.value)|;
    BlankNoBackslash(m.after);
    SpelledPlain(s, q, m.after);
    CharSpelled(s, q + |m.after|);
    if |members| > 1 {
      MembersSpelled(fd, members[1..], s, q + |m.after| + 1);
      assert forall i | 1 <= i < |members| :: members[i] == members[1..][i - 1];
    }
  }

  // ---------- the filters keep the spelling ----------

  lemma {:induction false} SpelledShift(t: string, r: string, i: nat)
    requires i <= |r|
    ensures Spelled(t + r, |t| + i) <==> Spelled(r, i)
    decreases |r| - i
  {
    if i < |r| {
      assert (t + r)[|t| + i] == r[i];
      if r[i] != '\\' {
        SpelledShift(t, r, i + 1);
      } else if i + 1 < |r| {
        assert (t + r)[|t| + i + 1] == r[i + 1];
        SpelledShift(t, r, i + 2);
      }
    }
  }

  lemma {:induction false} SpelledCons(c: char, r: string)
    requires c != '\\' && Spelled(r, 0)
    ensures Spelled([c] + r, 0)
  {
    SpelledShift([c], r, 0);
  }

  lemma {:induction false} SpelledPair(c: char, r: string)
    requires Simple(c) && Spelled(r, 0)
    ensures Spelled(['\\'] + ([c] + r), 0)
  {
    SpelledShift(['\\', c], r, 0);
    assert ['\\', c] + r == ['\\'] + ([c] + r);
  }

  lemma {:induction false} TailSpelled(s: string, i: nat, f: Flags)
    requires i <= |s| && Spelled(s, i)
    ensures Spelled(TailFrom(s, i, f), 0)
    decreases |s| - i
  {
    hide Advance, IsTrailing;
    if i < |s| {
      var g := Advance(s, i, f);
      if s[i] != '\\' {
        TailSpelled(s, i + 1, g);
        var r := TailFrom(s, i + 1, g);
        hide TailFrom;
        SpelledCons(s[i], r);
        TailOne(s, i, f);
      } else {
        var h := Advance(s, i + 1, g);
        TailSpelled(s, i + 2, h);
        TailOne(s, i, f);
        TailOne(s, i + 1, g);
        SpelledPair(s[i + 1], TailFrom(s, i + 2, h));
      }
    }
  }

  lemma TailOne(s: string, i: nat, f: Flags)
    requires i < |s|
    ensures var g := Advance(s, i, f);
            var r := TailFrom(s, i + 1, g);
            TailFrom(s, i, f) == [s[i]] + r || (s[i] == ',' && TailFrom(s, i, f) == r)
  {
    hide Advance, IsTrailing;
    assert "" + TailFrom(s, i + 1, Advance(s, i, f)) == TailFrom(s, i + 1, Advance(s, i, f));
  }

  /** The second character of an escape. */
  predicate Mid(s: string, i: nat) {
    i < |s| && Simple(s[i]) && Spelled(s, i + 1)
  }

  lemma CommentsOne(s: string, i: nat, m: Mode)
    requires i < |s|
    ensures var move := CommentMove(s, i, m);
            CommentsFrom(s, i, m) == move.out + CommentsFrom(s, i + move.width, move.mode)
  {
  }

  lemma NothingBefore(s: string)
    ensures "" + s == s
  {
  }

  lemma {:induction false} CommentsSpelled(s: string, i: nat, m: Mode)
    requires i <= |s| && (Spelled(s, i) || (!m.Code? && Mid(s, i)))
    ensures Spelled(CommentsFrom(s, i, m), 0)
    decreases |s| - i
  {
    if i < |s| {
      if m.Code? && s[i] == '\\' {
        EscapeKept(s, i, m);
      } else {
        CommentsOne(s, i, m);
        hide CommentsFrom, CommentMove;
        var move := CommentMove(s, i, m);
        NextPlace(s, i, m);
        NothingBefore(CommentsFrom(s, i + move.width, move.mode));
        CommentsSpelled(s, i + move.width, move.mode);
        if move.out != "" { SpelledCons(s[i], CommentsFrom(s, i + move.width, move.mode)); }
      }
    }
  }

  lemma {:induction false} NextPlace(s: string, i: nat, m: Mode)
    requires i < |s| && (Spelled(s, i) || (!m.Code? && Mid(s, i))) && (m.Code? ==> s[i] != '\\')
    ensures var move := CommentMove(s, i, m);
            var j := i + move.width;
            && (Spelled(s, j) || (!move.mode.Code? && Mid(s, j)))
            && (move.out != "" ==> move.out == [s[i]] && s[i] != '\\')
  {
    var move := CommentMove(s, i, m);
    if move.width == 2 {
      CharSpelled(s, i);
      CharSpelled(s, i + 1);
    }
  }

  lemma {:induction false} EscapeKept(s: string, i: nat, m: Mode)
    requires i < |s| && m.Code? && Spelled(s, i) && s[i] == '\\'
    ensures Spelled(CommentsFrom(s, i, m), 0)
    decreases |s| - i, 0
  {
    var next := CommentMove(s, i + 1, m);
    assert CommentMove(s, i, m) == Move(m, 1, [s[i]]);
    assert next.mode.Code? && next.width == 1 && next.out == [s[i + 1]];
    CommentsOne(s, i, m);
    CommentsOne(s, i + 1, m);
    hide CommentsFrom, CommentMove;
    CommentsSpelled(s, i + 2, next.mode);
    SpelledPair(s[i + 1], CommentsFrom(s, i + 2, next.mode));
  }

  // ---------- the filters take commas and slashes away ----------

  function Count(c: char, s: string): (n: nat) {
    multiset(s)[c]
  }

  lemma CountConcat(c: char, a: string, b: string)
    ensures Count(c, a + b) == Count(c, a) + Count(c, b)
  {
  }

  lemma CountHead(c: char, s: string, i: nat)
    requires i < |s|
    ensures Count(c, s[i..]) == Count(c, [s[i]]) + Count(c, s[i + 1..])
  {
    assert s[i..] == [s[i]] + s[i + 1..];
  }

  lemma CountOne(c: char, d: char)
    ensures Count(c, [d]) == if c == d then 1 else 0
  {
  }

  lemma {:induction false} TailCounts(c: char, s: string, i: nat, f: Flags)
    requires i <= |s|
    ensures var r := TailFrom(s, i, f);
            && Count(c, r) <= Count(c, s[i..])
            && (c != ',' ==> Count(c, r) == Count(c, s[i..]))
            && (r == s[i..] || Count(',', r) < Count(',', s[i..]))
    decreases |s| - i
  {
    hide Advance, Count, TailFrom;
    if i == |s| {
      TailEnd(s, f);
    } else {
      var g := Advance(s, i, f);
      var r := TailFrom(s, i + 1, g);
      TailCounts(c, s, i + 1, g);
      TailOne(s, i, f);
      assert s[i..] == [s[i]] + s[i + 1..];
      CountConcat(c, [s[i]], r);
      CountConcat(',', [s[i]], r);
      CountHead(c, s, i);
      CountHead(',', s, i);
      CountOne(c, s[i]);
      CountOne(',', s[i]);
    }
  }

  lemma {:induction false} CommentsCount(c: char, s: string, i: nat, m: Mode)
    requires i <= |s|
    ensures Count(c, CommentsFrom(s, i, m)) <= Count(c, s[i..])
    decreases |s| - i
  {
    hide Count, CommentsFrom, CommentMove;
    if i == |s| {
      CommentsEnd(s, m);
      assert s[i..] == "";
    } else {
      var move := CommentMove(s, i, m);
      var r := CommentsFrom(s, i + move.width, move.mode);
      CommentsOne(s, i, m);
      CommentsCount(c, s, i + move.width, move.mode);
      MoveCount(c, s, i, m);
      CountConcat(c, move.out, r);
    }
  }

  lemma {:induction false} MoveCount(c: char, s: string, i: nat, m: Mode)
    requires i < |s|
    ensures var move := CommentMove(s, i, m); Count(c, move.out) + Count(c, s[i + move.width..]) <= Count(c, s[i..])
  {
    CountHead(c, s, i);
    var move := CommentMove(s, i, m);
    if move.width == 2 { CountHead(c, s, i + 1); }
    assert move.out == "" || move.out == [s[i]];
    assert move.width == 2 ==> move.out == "";
    hide Count, CommentMove;
    CountEmpty(c);
  }

  lemma CountEmpty(c: char)
    ensures Count(c, "") == 0
  {
  }

  lemma {:induction false} SlashTaken(s: string, i: nat, q: bool)
    requires i <= |s|
    ensures var r := CommentsFrom(s, i, Code(q)); r == s[i..] || Count('/', r) < Count('/', s[i..])
    decreases |s| - i
  {
    hide Count, CommentsFrom, CommentMove;
    if i == |s| {
      CommentsEnd(s, Code(q));
    } else {
      var move := CommentMove(s, i, Code(q));
      var r := CommentsFrom(s, i + move.width, move.mode);
      CommentsOne(s, i, Code(q));
      CountHead('/', s, i);
      CountOne('/', s[i]);
      CodeMoves(s, i, q);
      assert s[i..] == [s[i]] + s[i + 1..];
      if move.width == 1 {
        SlashTaken(s, i + 1, move.mode.inString);
        CountConcat('/', [s[i]], r);
      } else {
        NothingBefore(r);
        CommentsCount('/', s, i + 2, move.mode);
        CountHead('/', s, i + 1);
      }
    }
  }

  lemma CodeMoves(s: string, i: nat, q: bool)
    requires i < |s|
    ensures var move := CommentMove(s, i, Code(q));
            || (move.width == 1 && move.mode.Code? && move.out == [s[i]])
            || (move.width == 2 && move.out == "" && s[i] == '/' && i + 1 < |s|)
  {
  }

  // ---------- a value needs its commas and slashes ----------

  predicate Marks(c: char) {
    c == ',' || c == '/'
  }

  lemma CountNone(c: char, t: string)
    requires c !in t
    ensures Count(c, t) == 0
  {
    assert c !in multiset(t);
  }

  lemma BlankCount(c: char, w: string)
    requires Marks(c) && Blank(w)
    ensures Count(c, w) == 0
  {
    CountNone(c, w);
  }

  lemma {:induction false} NumberCount(c: char, n: Number)
    requires Marks(c) && NumberShape(n)
    ensures Count(c, NumberText(n)) == 0
  {
    assert c !in SignText(n) && c !in n.whole && c !in FracText(n) && c !in ExpText(n);
    CountNone(c, NumberText(n));
  }

  lemma ElemCount(c: char, e: Elem)
    requires Marks(c) && ValidElem(e) && SimpleElem(e)
    ensures Count(c, ElemText(e)) == Count(c, ElemValue(e))
  {
    match e
    case Raw(d) =>
    case Esc(d) =>
      CountNone(c, ['\\', d]);
      CountNone(c, [Escaped(d).value]);
  }

  lemma {:induction false} BodyCount(c: char, es: seq<Elem>)
    requires Marks(c) && ValidElems(es) && SimpleElems(es)
    ensures Count(c, BodyText(es)) == Count(c, ElemsValue(es))
    decreases |es|
  {
    hide Count, ElemText, ElemValue, ValidElem, SimpleElem;
    if es == [] {
      CountNone(c, "\"");
      CountEmpty(c);
    } else {
      ElemCount(c, es[0]);
      BodyCount(c, es[1..]);
      CountConcat(c, ElemText(es[0]), BodyText(es[1..]));
      CountConcat(c, ElemValue(es[0]), ElemsValue(es[1..]));
    }
  }

  lemma {:induction false} StringCount(c: char, es: seq<Elem>)
    requires Marks(c) && ValidElems(es) && SimpleElems(es)
    ensures Count(c, StringText(es)) == Count(c, ElemsValue(es))
  {
    hide Count, BodyText, ElemsValue, ValidElems, SimpleElems;
    BodyCount(c, es);
    CountNone(c, "\"");
    CountConcat(c, "\"", BodyText(es));
  }

  /** One for the comma after an item or member. */
  function Comma(c: char): (n: nat) {
    if c == ',' then 1 else 0
  }

  /** The marks an item contributes, its comma included. */
  function ItemWeight(c: char, it: Item): (n: nat) {
    Count(c, Text(it.value)) + Comma(c)
  }

  function MemberWeight(c: char, m: Member): (n: nat) {
    Count(c, StringText(m.key)) + Count(c, Text(m.value)) + Comma(c)
  }

  function ItemsWeight(c: char, items: seq<Item>): (n: nat) {
    if items == [] then 0 else ItemWeight(c, items[0]) + ItemsWeight(c, items[1..])
  }

  function MembersWeight(c: char, members: seq<Member>): (n: nat) {
    if members == [] then 0 else MemberWeight(c, members[0]) + MembersWeight(c, members[1..])
  }

  lemma CountFour(c: char, a: string, b: string, d: string, e: string)
    ensures Count(c, a + b + d + e) == Count(c, a) + Count(c, b) + Count(c, d) + Count(c, e)
  {
  }

  lemma {:induction false} ItemsCount(c: char, fd: ReadDouble, items: seq<Item>)
    requires Marks(c) && items != [] && forall i | 0 <= i < |items| :: ValidItem(fd, items[i])
    ensures Count(c, ItemsText(items)) + Comma(c) == ItemsWeight(c, items)
    decreases |items|
  {
    hide Count, Text, Valid;
    var it := items[0];
    assert ValidItem(fd, it);
    BlankCount(c, it.before);
    BlankCount(c, it.after);
    var last := if |items| == 1 then "]" else "," + ItemsText(items[1..]);
    CountFour(c, it.before, Text(it.value), it.after, last);
    if |items| == 1 {
      CountNone(c, "]");
    } else {
      ItemsCount(c, fd, items[1..]);
      CountConcat(c, ",", ItemsText(items[1..]));
      CountOne(c, ',');
    }
  }

  lemma {:induction false} HeadCount(c: char, fd: ReadDouble, m: Member)
    requires Marks(c) && ValidMember(fd, m)
    ensures Count(c, MemberHead(m)) == Count(c, StringText(m.key))
  {
    hide Count, StringText, Valid, ValidElems;
    BlankCount(c, m.before);
    BlankCount(c, m.beforeColon);
    BlankCount(c, m.afterColon);
    CountNone(c, ":");
    CountFour(c, m.before, StringText(m.key), m.beforeColon, ":");
    CountConcat(c, m.before + StringText(m.key) + m.beforeColon + ":", m.afterColon);
  }

  lemma {:induction false} MembersCount(c: char, fd: ReadDouble, members: seq<Member>)
    requires Marks(c) && members != [] && forall i | 0 <= i < |members| :: ValidMember(fd, members[i])
    ensures Count(c, MembersText(members)) + Comma(c) == MembersWeight(c, members)
    decreases |members|
  {
    hide Count, Text, Valid, MemberHead, StringText, ValidElems;
    var m := members[0];
    assert ValidMember(fd, m);
    HeadCount(c, fd, m);
    BlankCount(c, m.after);
    var last := if |members| == 1 then "}" else "," + MembersText(members[1..]);
    CountFour(c, MemberHead(m), Text(m.value), m.after, last);
    if |members| == 1 {
      CountNone(c, "}");
    } else {
      MembersCount(c, fd, members[1..]);
      CountConcat(c, ",", MembersText(members[1..]));
      CountOne(c, ',');
    }
  }

  // ---------- no other spelling of the value is lighter ----------

  /** No object of the tree has two members with the same key. */
  predicate DistinctTree(fd: ReadDouble, t: Tree)
    requires Valid(fd, t)
    decreases t
  {
    match t
    case TArr(_, items) => forall i | 0 <= i < |items| :: ValidItem(fd, items[i]) && DistinctTree(fd, items[i].value)
    case TObj(_, members) =>
      && (forall i | 0 <= i < |members| :: ValidMember(fd, members[i]) && DistinctTree(fd, members[i].value))
      && DistinctMembers(members)
    case _ => true
  }

  predicate DistinctMembers(members: seq<Member>) {
    && (forall i | 0 <= i < |members| :: ValidElems(members[i].key))
    && forall i, j | 0 <= i < j < |members| :: ElemsValue(members[i].key) != ElemsValue(members[j].key)
  }

  /** Of two trees for the same value in the printer's spelling, one without duplicate keys has the
      fewer commas and slashes. */
  lemma {:induction false} Lighter(c: char, fd: ReadDouble, t: Tree, u: Tree)
    requires Marks(c) && Valid(fd, t) && Valid(fd, u) && SimpleTree(t) && SimpleTree(u) && DistinctTree(fd, t)
    requires Denote(fd, t) == Denote(fd, u)
    ensures Count(c, Text(t)) <= Count(c, Text(u))
    decreases t, 2
  {
    hide Count, ItemsText, MembersText, DenoteItems, DenoteMembers, StringText, NumberText, ElemsValue, SimpleElems,
      ValidElems, ValidItem, ValidMember, SimpleItem, SimpleMember, DistinctMembers;
    match t
    case TNum(n) => NumberCount(c, n);
    case TStr(es) => StringCount(c, es); StringCount(c, u.elems);
    case TArr(_, _) => ArrayLighter(c, fd, t, u);
    case TObj(_, _) => ObjectLighter(c, fd, t, u);
    case TNull => CountNone(c, "null");
    case TBool(b) => CountNone(c, Text(t));
  }

  lemma {:induction false} EmptyCount(c: char, open: string, pad: string, close: string)
    requires Marks(c) && Blank(pad) && c !in open && c !in close
    ensures Count(c, open + (pad + close)) == 0
  {
    hide Count;
    BlankCount(c, pad);
    CountNone(c, open);
    CountNone(c, close);
    CountConcat(c, pad, close);
    CountConcat(c, open, pad + close);
  }

  lemma {:induction false} ArrayLighter(c: char, fd: ReadDouble, t: Tree, u: Tree)
    requires Marks(c) && Valid(fd, t) && Valid(fd, u) && SimpleTree(t) && SimpleTree(u) && DistinctTree(fd, t)
    requires t.TArr? && Denote(fd, t) == Denote(fd, u)
    ensures Count(c, Text(t)) <= Count(c, Text(u))
    decreases t, 1
  {
    hide Count, ItemsText;
    assert u.TArr?;
    DenoteItemsLength(fd, t.items);
    DenoteItemsLength(fd, u.items);
    if t.items == [] {
      EmptyCount(c, "[", t.pad, "]");
    } else {
      ItemsLighter(c, fd, t.items, u.items);
      ItemsCount(c, fd, t.items);
      ItemsCount(c, fd, u.items);
      CountConcat(c, "[", ItemsText(t.items));
      CountConcat(c, "[", ItemsText(u.items));
    }
  }

  lemma {:induction false} DenoteItemsLength(fd: ReadDouble, items: seq<Item>)
    requires forall i | 0 <= i < |items| :: ValidItem(fd, items[i])
    ensures |DenoteItems(fd, items)| == |items|
  {
    hide Denote;
    if items != [] { DenoteItemsLength(fd, items[..|items| - 1]); }
  }

  lemma {:induction false} ItemsLighter(c: char, fd: ReadDouble, ts: seq<Item>, us: seq<Item>)
    requires Marks(c) && |ts| == |us|
    requires forall i | 0 <= i < |ts| :: ValidItem(fd, ts[i]) && SimpleItem(ts[i]) && DistinctTree(fd, ts[i].value)
    requires forall i | 0 <= i < |us| :: ValidItem(fd, us[i]) && SimpleItem(us[i])
    requires DenoteItems(fd, ts) == DenoteItems(fd, us)
    ensures ItemsWeight(c, ts) <= ItemsWeight(c, us)
    decreases ts, 0
  {
    hide Count, Text, Denote, Valid, SimpleTree, DistinctTree;
    if ts != [] {
      var t, u := ts[0], us[0];
      assert ValidItem(fd, t) && SimpleItem(t) && ValidItem(fd, u) && SimpleItem(u);
      assert ts == [t] + ts[1..] && us == [u] + us[1..];
      DenoteItemsCons(fd, t, ts[1..]);
      DenoteItemsCons(fd, u, us[1..]);
      var dt, du := DenoteItems(fd, ts), DenoteItems(fd, us);
      assert dt[0] == Denote(fd, t.value) && du[0] == Denote(fd, u.value);
      assert dt[1..] == DenoteItems(fd, ts[1..]) && du[1..] == DenoteItems(fd, us[1..]);
      Lighter(c, fd, t.value, u.value);
      ItemsLighter(c, fd, ts[1..], us[1..]);
    }
  }

  predicate ValidKeys(members: seq<Member>) {
    forall i | 0 <= i < |members| :: ValidElems(members[i].key)
  }

  /** The weight of the members whose keys are not done yet. */
  function RestWeight(c: char, members: seq<Member>, done: set<string>): (n: nat)
    requires ValidKeys(members)
  {
    if members == [] then 0
    else (if ElemsValue(members[0].key) in done then 0 else MemberWeight(c, members[0])) + RestWeight(c, members[1..], done)
  }

  lemma {:induction false} RestAll(c: char, members: seq<Member>)
    requires ValidKeys(members)
    ensures RestWeight(c, members, {}) == MembersWeight(c, members)
  {
    hide MemberWeight;
    if members != [] { RestAll(c, members[1..]); }
  }

  lemma {:induction false} RestNone(c: char, members: seq<Member>, done: set<string>)
    requires ValidKeys(members) && forall i | 0 <= i < |members| :: ElemsValue(members[i].key) in done
    ensures RestWeight(c, members, done) == 0
  {
    hide MemberWeight;
    if members != [] { RestNone(c, members[1..], done); }
  }

  lemma {:induction false} RestSame(c: char, members: seq<Member>, done: set<string>, k: string)
    requires ValidKeys(members) && forall i | 0 <= i < |members| :: ElemsValue(members[i].key) != k
    ensures RestWeight(c, members, done) == RestWeight(c, members, done + {k})
  {
    hide MemberWeight, ElemsValue;
    if members != [] {
      RestSame(c, members[1..], done, k);
      assert ElemsValue(members[0].key) != k;
    }
  }

  lemma {:induction false} RestTake(c: char, members: seq<Member>, done: set<string>, j: nat)
    requires DistinctMembers(members) && j < |members| && ElemsValue(members[j].key) !in done
    ensures ValidKeys(members)
    ensures RestWeight(c, members, done)
         == MemberWeight(c, members[j]) + RestWeight(c, members, done + {ElemsValue(members[j].key)})
  {
    hide MemberWeight, ElemsValue;
    var k := ElemsValue(members[j].key);
    var tail := members[1..];
    assert forall i | 0 <= i < |tail| :: tail[i] == members[i + 1];
    if j == 0 {
      RestSame(c, tail, done, k);
    } else {
      RestTake(c, tail, done, j - 1);
      assert ElemsValue(members[0].key) != k;
    }
  }

  /** What is not done yet is found among the other members. */
  predicate Covered(fd: ReadDouble, ms: seq<Member>, done: set<string>, us: seq<Member>)
    requires forall i | 0 <= i < |ms| :: ValidMember(fd, ms[i])
    requires forall i | 0 <= i < |us| :: ValidMember(fd, us[i])
  {
    forall i | 0 <= i < |ms| ::
      ValidMember(fd, ms[i]) && (ElemsValue(ms[i].key) !in done ==> Binds(fd, us, ElemsValue(ms[i].key), Denote(fd, ms[i].value)))
  }

  predicate Binds(fd: ReadDouble, us: seq<Member>, k: string, v: Json)
    requires forall i | 0 <= i < |us| :: ValidMember(fd, us[i])
  {
    k in DenoteMembers(fd, us) && DenoteMembers(fd, us)[k] == v
  }

  /** The first of several members counts only if no later one has its key. */
  lemma {:induction false} BindsCons(fd: ReadDouble, us: seq<Member>, k: string, v: Json)
    requires us != [] && forall i | 0 <= i < |us| :: ValidMember(fd, us[i])
    ensures ValidMember(fd, us[0]) && (forall i | 0 <= i < |us[1..]| :: ValidMember(fd, us[1..][i]))
    ensures Binds(fd, us, k, v)
            <==> if k in DenoteMembers(fd, us[1..]) then Binds(fd, us[1..], k, v)
                 else k == ElemsValue(us[0].key) && v == Denote(fd, us[0].value)
  {
    hide Denote, ElemsValue, DenoteMembers, ValidMember;
    assert ValidMember(fd, us[0]);
    assert us == [us[0]] + us[1..];
    DenoteMembersCons(fd, us[0], us[1..]);
  }

  lemma {:induction false} ObjectLighter(c: char, fd: ReadDouble, t: Tree, u: Tree)
    requires Marks(c) && Valid(fd, t) && Valid(fd, u) && SimpleTree(t) && SimpleTree(u) && DistinctTree(fd, t)
    requires t.TObj? && Denote(fd, t) == Denote(fd, u)
    ensures Count(c, Text(t)) <= Count(c, Text(u))
    decreases t, 1
  {
    hide Count, MembersText;
    assert u.TObj?;
    if t.members == [] {
      EmptyCount(c, "{", t.pad, "}");
    } else {
      NonEmptyBinds(fd, t.members);
      DenoteNone(fd);
      SelfCovered(fd, t.members, u.members);
      MembersLighter(c, fd, t, {}, u.members);
      RestAll(c, t.members);
      MembersCount(c, fd, t.members);
      MembersCount(c, fd, u.members);
      CountConcat(c, "{", MembersText(t.members));
      CountConcat(c, "{", MembersText(u.members));
    }
  }

  lemma {:induction false} NonEmptyBinds(fd: ReadDouble, ms: seq<Member>)
    requires ms != [] && forall i | 0 <= i < |ms| :: ValidMember(fd, ms[i])
    ensures DenoteMembers(fd, ms) != map[]
  {
    hide Denote, ElemsValue;
    var last := ms[|ms| - 1];
    assert ValidMember(fd, last);
    assert ElemsValue(last.key) in DenoteMembers(fd, ms);
  }

  lemma {:induction false} SelfCovered(fd: ReadDouble, ms: seq<Member>, us: seq<Member>)
    requires DistinctMembers(ms) && (forall i | 0 <= i < |ms| :: ValidMember(fd, ms[i]))
    requires (forall i | 0 <= i < |us| :: ValidMember(fd, us[i])) && DenoteMembers(fd, ms) == DenoteMembers(fd, us)
    ensures Covered(fd, ms, {}, us)
  {
    hide Denote, ElemsValue, DenoteMembers, Valid;
    forall i | 0 <= i < |ms|
      ensures ValidMember(fd, ms[i]) && Binds(fd, us, ElemsValue(ms[i].key), Denote(fd, ms[i].value))
    {
      assert ValidMember(fd, ms[i]);
      LastDuplicateWins(fd, ms, i);
    }
  }

  lemma {:induction false} MembersLighter(c: char, fd: ReadDouble, t: Tree, done: set<string>, us: seq<Member>)
    requires Marks(c) && t.TObj? && Valid(fd, t) && SimpleTree(t) && DistinctTree(fd, t)
    requires forall i | 0 <= i < |us| :: ValidMember(fd, us[i]) && SimpleMember(us[i])
    requires Covered(fd, t.members, done, us)
    ensures ValidKeys(t.members) && RestWeight(c, t.members, done) <= MembersWeight(c, us)
    decreases t, 0, |us|
  {
    hide Denote, ElemsValue, DenoteMembers, RestWeight, MemberWeight, SimpleTree, Text, Count;
    var ms := t.members;
    assert DistinctMembers(ms);
    if us == [] {
      DenoteNone(fd);
      RestNone(c, ms, done);
    } else {
      var k, rest := ElemsValue(us[0].key), us[1..];
      assert ValidMember(fd, us[0]);
      CoverStep(fd, ms, done, us);
      if j :| 0 <= j < |ms| && ElemsValue(ms[j].key) == k && k !in done && k !in DenoteMembers(fd, rest) {
        RestTake(c, ms, done, j);
        MemberLighter(c, fd, t, j, us[0]) by { BindsCons(fd, us, k, Denote(fd, ms[j].value)); }
        MembersLighter(c, fd, t, done + {k}, rest);
      } else {
        MembersLighter(c, fd, t, done, rest);
      }
    }
  }

  lemma {:induction false} CoverStep(fd: ReadDouble, ms: seq<Member>, done: set<string>, us: seq<Member>)
    requires us != [] && (forall i | 0 <= i < |ms| :: ValidMember(fd, ms[i])) && ValidMember(fd, us[0])
    requires (forall i | 0 <= i < |us| :: ValidMember(fd, us[i])) && Covered(fd, ms, done, us)
    ensures forall i | 0 <= i < |us[1..]| :: ValidMember(fd, us[1..][i])
    ensures Covered(fd, ms, done + {ElemsValue(us[0].key)}, us[1..])
    ensures (forall j | 0 <= j < |ms| :: ValidMember(fd, ms[j]) && (ElemsValue(ms[j].key) != ElemsValue(us[0].key)
               || ElemsValue(us[0].key) in done || ElemsValue(us[0].key) in DenoteMembers(fd, us[1..])))
            ==> Covered(fd, ms, done, us[1..])
  {
    hide Denote, ElemsValue, DenoteMembers, Valid, ValidElems, Blank, Binds;
    forall i | 0 <= i < |ms| && ValidMember(fd, ms[i])
      ensures Binds(fd, us, ElemsValue(ms[i].key), Denote(fd, ms[i].value))
              <==> if ElemsValue(ms[i].key) in DenoteMembers(fd, us[1..]) then Binds(fd, us[1..], ElemsValue(ms[i].key), Denote(fd, ms[i].value))
                   else ElemsValue(ms[i].key) == ElemsValue(us[0].key) && Denote(fd, ms[i].value) == Denote(fd, us[0].value)
    {
      BindsCons(fd, us, ElemsValue(ms[i].key), Denote(fd, ms[i].value));
    }
  }

  lemma {:induction false} MemberLighter(c: char, fd: ReadDouble, t: Tree, j: nat, u: Member)
    requires Marks(c) && t.TObj? && Valid(fd, t) && SimpleTree(t) && DistinctTree(fd, t) && j < |t.members|
    requires ValidMember(fd, u) && SimpleMember(u) && ValidMember(fd, t.members[j])
    requires ElemsValue(t.members[j].key) == ElemsValue(u.key)
    requires Denote(fd, t.members[j].value) == Denote(fd, u.value)
    ensures MemberWeight(c, t.members[j]) <= MemberWeight(c, u)
    decreases t, 0, 0
  {
    hide Count, Text, StringText, Denote, ElemsValue, ValidElems, SimpleElems;
    var m := t.members[j];
    assert SimpleMember(m) && DistinctTree(fd, m.value);
    StringCount(c, m.key);
    StringCount(c, u.key);
    Lighter(c, fd, m.value, u.value);
  }

  // ---------- printed trees ----------

  lemma CharElemSimple(c: char)
    ensures SimpleElem(CharElem(c))
  {
  }

  lemma {:induction false} StringElemsSimple(s: string)
    ensures SimpleElems(StringElems(s))
  {
    hide CharElem, SimpleElem;
    forall i | 0 <= i < |s| ensures SimpleElem(StringElems(s)[i]) { CharElemSimple(s[i]); }
  }

  lemma {:induction false} LayoutSimple(style: Style, v: Value, level: nat)
    ensures SimpleTree(Layout(style, v, level))
    decreases v
  {
    hide LayoutItems, LayoutMembers, StringElems, SimpleElems;
    match v
    case VStr(s) => StringElemsSimple(s);
    case VArr(items) =>
      var ts := LayoutItems(style, items, level + 1);
      forall i | 0 <= i < |ts| ensures SimpleItem(ts[i]) {
        LayoutItemsAt(style, items, level + 1, i);
        LayoutSimple(style, items[i], level + 1);
      }
    case VObj(entries) =>
      var es := Visit(style, entries);
      var ms := LayoutMembers(style, entries, es, level + 1);
      forall i | 0 <= i < |ms| ensures SimpleMember(ms[i]) {
        LayoutMembersAt(style, entries, es, level + 1, i);
        assert es[i] in entries;
        var j :| 0 <= j < |entries| && entries[j] == es[i];
        StringElemsSimple(entries[j].key);
        LayoutSimple(style, entries[j].value, level + 1);
      }
    case _ =>
  }

  lemma {:induction false} DistinctSnoc(xs: seq<Entry>, e: Entry)
    ensures DistinctKeys(xs + [e]) <==> DistinctKeys(xs) && e.key !in KeysOf(xs)
  {
    var ys := xs + [e];
    assert forall i | 0 <= i < |xs| :: ys[i] == xs[i];
    assert ys[|xs|] == e;
  }

  lemma {:induction false} InsertDistinct(e: Entry, xs: seq<Entry>)
    requires DistinctKeys(xs) && e.key !in KeysOf(xs)
    ensures DistinctKeys(Insert(e, xs)) && KeysOf(Insert(e, xs)) == KeysOf(xs) + {e.key}
  {
    hide DistinctKeys, KeysOf, KeyLess;
    if xs == [] {
      KeysSnoc([], e);
      DistinctSnoc([], e);
      assert [] + [e] == [e];
      NoEntries();
    } else {
      var front, last := xs[..|xs| - 1], xs[|xs| - 1];
      assert xs == front + [last];
      KeysSnoc(front, last);
      DistinctSnoc(front, last);
      if KeyLess(last.key, e.key) {
        KeysSnoc(xs, e);
        DistinctSnoc(xs, e);
      } else {
        InsertDistinct(e, front);
        KeysSnoc(Insert(e, front), last);
        DistinctSnoc(Insert(e, front), last);
      }
    }
  }

  lemma NoEntries()
    ensures DistinctKeys([]) && KeysOf([]) == {}
  {
  }

  lemma {:induction false} SortDistinct(entries: seq<Entry>)
    requires DistinctKeys(entries)
    ensures DistinctKeys(SortEntries(entries)) && KeysOf(SortEntries(entries)) == KeysOf(entries)
  {
    hide DistinctKeys, KeysOf, Insert;
    if entries == [] {
      NoEntries();
    } else {
      var front, last := entries[..|entries| - 1], entries[|entries| - 1];
      assert entries == front + [last];
      KeysSnoc(front, last);
      DistinctSnoc(front, last);
      SortDistinct(front);
      InsertDistinct(last, SortEntries(front));
    }
  }

  lemma {:induction false} VisitDistinct(style: Style, entries: seq<Entry>)
    requires DistinctKeys(entries)
    ensures DistinctKeys(Visit(style, entries))
  {
    hide DistinctKeys, KeysOf, SortEntries;
    SortDistinct(entries);
  }

  lemma {:induction false} LayoutDistinct(fd: ReadDouble, style: Style, v: Value, level: nat)
    requires FixedDoubles(style.fmt, v) && ReadsBack(fd, style.fmt, v) && WellFormed(v)
    ensures Valid(fd, Layout(style, v, level)) && DistinctTree(fd, Layout(style, v, level))
    decreases v
  {
    hide LayoutItems, LayoutMembers, StringElems, Denote, DistinctMembers, DistinctKeys, Meaning;
    LayoutDenotes(fd, style, v, level);
    match v
    case VArr(items) =>
      var ts := LayoutItems(style, items, level + 1);
      forall i | 0 <= i < |ts| ensures ValidItem(fd, ts[i]) && DistinctTree(fd, ts[i].value) {
        LayoutItemsAt(style, items, level + 1, i);
        LayoutDistinct(fd, style, items[i], level + 1);
      }
    case VObj(entries) =>
      var es := Visit(style, entries);
      var ms := LayoutMembers(style, entries, es, level + 1);
      VisitDistinct(style, entries);
      LayoutKeysDistinct(style, entries, es, level + 1);
      forall i | 0 <= i < |ms| ensures ValidMember(fd, ms[i]) && DistinctTree(fd, ms[i].value) {
        assert ValidMember(fd, ms[i]);
        LayoutMembersAt(style, entries, es, level + 1, i);
        assert es[i] in entries;
        var j :| 0 <= j < |entries| && entries[j] == es[i];
        LayoutDistinct(fd, style, entries[j].value, level + 1);
      }
    case _ =>
  }

  lemma {:induction false} LayoutKeysDistinct(style: Style, all: seq<Entry>, entries: seq<Entry>, level: nat)
    requires level > 0 && Among(entries, all)
    requires DistinctKeys(entries)
    ensures DistinctMembers(LayoutMembers(style, all, entries, level))
  {
    hide LayoutMembers, StringElems, ElemsValue, ValidElems;
    var ms := LayoutMembers(style, all, entries, level);
    forall i | 0 <= i < |ms| ensures ValidElems(ms[i].key) && ElemsValue(ms[i].key) == entries[i].key {
      LayoutMembersAt(style, all, entries, level, i);
      StringElemsValue(entries[i].key);
    }
  }

  // ---------- the exact condition ----------

  lemma {:induction false} PrefixCount(c: char, s: string, t: string)
    requires At(s, 0, t)
    ensures Count(c, t) <= Count(c, s)
  {
    assert s[..|t|] == t;
    assert s == t + s[|t|..];
    CountConcat(c, t, s[|t|..]);
  }

  /** A text in the printer's spelling that the parser reads as v has at least the printed marks. */
  lemma {:induction false} ReadNeedsMarks(c: char, fd: ReadDouble, style: Style, v: Value, s: string)
    requires Marks(c) && WellFormed(v) && FixedDoubles(style.fmt, v) && ReadsBack(fd, style.fmt, v) && Spelled(s, 0)
    requires ValueAt(fd, s, 0).Ok? && ValueAt(fd, s, 0).value == Meaning(v)
    ensures Count(c, GenText(style, v, 0)) <= Count(c, s)
  {
    hide ValueAt, Denote, Meaning, Valid, Text, Layout, WellFormed, FixedDoubles, ReadsBack, Count, GenText, Spelled, At, Blank,
      SimpleTree, DistinctTree;
    var w, u := ValueSound(fd, s, 0);
    var t := Layout(style, v, 0);
    LayoutText(style, v, 0);
    LayoutDenotes(fd, style, v, 0);
    LayoutDistinct(fd, style, v, 0);
    LayoutSimple(style, v, 0);
    PrefixCount(c, s, w + Text(u));
    CountConcat(c, w, Text(u));
    AtConcat(s, 0, w, Text(u));
    BlankNoBackslash(w);
    SpelledPlain(s, 0, w);
    TreeSpelled(fd, u, s, |w|);
    Lighter(c, fd, t, u);
  }

  lemma {:induction false} GeneratedSpelled(fd: ReadDouble, style: Style, v: Value)
    requires WellFormed(v) && FixedDoubles(style.fmt, v) && ReadsBack(fd, style.fmt, v)
    ensures Spelled(GenText(style, v, 0), 0)
  {
    hide Denote, Valid, Text, Layout, WellFormed, FixedDoubles, ReadsBack, GenText, SimpleTree, At, Meaning;
    var t := Layout(style, v, 0);
    LayoutText(style, v, 0);
    LayoutDenotes(fd, style, v, 0);
    LayoutSimple(style, v, 0);
    AtWhole(Text(t));
    TreeSpelled(fd, t, Text(t), 0);
  }

  /** Filtered text that still parses to the value was not changed by either filter. */
  lemma {:induction false} SameValueSameText(fd: ReadDouble, style: Style, v: Value)
    requires WellFormed(v) && FixedDoubles(style.fmt, v) && ReadsBack(fd, style.fmt, v)
    requires var parse := LenientAt(fd, GenText(style, v, 0)); parse.Ok? && parse.value == Meaning(v)
    ensures var text := GenText(style, v, 0); RemoveTailComma(text) == text && RemoveComments(text) == text
  {
    hide ValueAt, Meaning, WellFormed, FixedDoubles, ReadsBack, Count, GenText, Spelled, TailFrom, CommentsFrom;
    var text := GenText(style, v, 0);
    var once := RemoveTailComma(text);
    var twice := RemoveComments(once);
    GeneratedSpelled(fd, style, v);
    TailSpelled(text, 0, Flags(false, false, false));
    CommentsSpelled(once, 0, Code(false));
    assert text[0..] == text && once[0..] == once;
    TailCounts(',', text, 0, Flags(false, false, false));
    CommentsCount(',', once, 0, Code(false));
    ReadNeedsMarks(',', fd, style, v, twice);
    SlashTaken(once, 0, false);
    ReadNeedsMarks('/', fd, style, v, twice);
  }

  /** Lenient parsing of printed text gives the printed value back exactly when neither the guard that
      drops a comma nor the guards that open a comment hold anywhere in the text. */
  lemma {:induction false} LenientExactly(fd: ReadDouble, style: Style, v: Value)
    requires WellFormed(v) && FixedDoubles(style.fmt, v) && ReadsBack(fd, style.fmt, v)
    ensures var text := GenText(style, v, 0);
            var parse := LenientAt(fd, text);
            parse.Ok? && parse.value == Meaning(v) <==> KeepsCommas(text) && KeepsSlashes(text)
  {
    hide ValueAt, Meaning, WellFormed, FixedDoubles, ReadsBack, GenText, RemoveTailComma, RemoveComments, KeepsCommas, KeepsSlashes;
    var text := GenText(style, v, 0);
    UnchangedExactly(text);
    ParseGenerated(fd, style, v);
    var parse := LenientAt(fd, text);
    if parse.Ok? && parse.value == Meaning(v) { SameValueSameText(fd, style, v); }
  }
}
