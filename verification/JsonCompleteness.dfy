/** Every JSON text parses to the value it denotes, with the cursor right after it. */
module JsonCompleteness {
  import opened Wrappers
  import opened Digits
  import opened JsonValue
  import opened JsonGrammar
  import opened JsonParser

  // ---------- positions ----------

  lemma {:induction false} AtConcat(s: string, p: nat, a: string, b: string)
    requires At(s, p, a + b)
    ensures At(s, p, a) && At(s, p + |a|, b)
  {
    forall i | 0 <= i < |a| ensures s[p + i] == a[i] { assert (a + b)[i] == a[i]; }
    forall i | 0 <= i < |b| ensures s[p + |a| + i] == b[i] { assert (a + b)[|a| + i] == b[i]; }
  }

  lemma AtHead(s: string, p: nat, t: string)
    requires At(s, p, t) && t != ""
    ensures p < |s| && s[p] == t[0]
  {
  }

  lemma AtSlice(s: string, p: nat, t: string)
    requires At(s, p, t)
    ensures s[p..p + |t|] == t
  {
  }

  lemma Concat3(a: string, b: string, c: string)
    ensures a + b + c == a + (b + c)
  {
  }

  lemma AtBound(s: string, p: nat, t: string)
    requires At(s, p, t)
    ensures p + |t| <= |s|
  {
  }

  lemma AtWhole(s: string)
    ensures At(s, 0, s)
  {
  }

  lemma {:induction false} AtConcat3(s: string, p: nat, a: string, b: string, c: string)
    requires At(s, p, a + b + c)
    ensures At(s, p, a) && At(s, p + |a|, b) && At(s, p + |a| + |b|, c)
  {
    AtConcat(s, p, a + b, c);
    AtConcat(s, p, a, b);
  }

  lemma {:induction false} SkipSpaceExact(s: string, p: nat, w: string)
    requires At(s, p, w) && Blank(w)
    requires p + |w| < |s| ==> !IsSpace(s[p + |w|])
    ensures SkipSpace(s, p) == p + |w|
    decreases |w|
  {
    if w != "" {
      AtConcat(s, p, w[..1], w[1..]) by { assert w == w[..1] + w[1..]; }
      AtHead(s, p, w);
      SkipSpaceExact(s, p + 1, w[1..]);
    }
  }

  lemma {:induction false} SkipDigitsExact(s: string, p: nat, d: string)
    requires At(s, p, d) && Decimal(d)
    requires p + |d| < |s| ==> !IsDigit(s[p + |d|])
    ensures SkipDigits(s, p) == p + |d|
    decreases |d|
  {
    if d != "" {
      AtConcat(s, p, d[..1], d[1..]) by { assert d == d[..1] + d[1..]; }
      AtHead(s, p, d);
      SkipDigitsExact(s, p + 1, d[1..]);
    }
  }

  /** Reading a value skips whitespace itself, so skipping it first changes nothing. */
  lemma {:induction false} SkipSpaceTwice(s: string, p: nat)
    requires p <= |s|
    ensures SkipSpace(s, SkipSpace(s, p)) == SkipSpace(s, p)
  {
  }

  // ---------- strings ----------

  lemma {:induction false} HexComplete(s: string, p: nat, h: string)
    requires Hex4(h) && At(s, p, h)
    ensures HexAt(s, p) == Some(ValueOf(h, 16))
  {
    AtSlice(s, p, h);
  }

  lemma {:induction false} UnicodeComplete(s: string, p: nat, h: string)
    requires ValidElem(Uni(h)) && At(s, p, "\\u" + h) && p + 6 < |s|
    ensures EscapeAt(s, p) == Ok(ElemValue(Uni(h)), p + 6)
  {
    AtConcat(s, p, "\\u", h);
    assert s[p + 1] == "\\u"[1];
    HexComplete(s, p + 2, h);
  }

  lemma {:induction false} PairComplete(s: string, p: nat, h: string, l: string)
    requires ValidElem(Pair(h, l)) && At(s, p, "\\u" + h + "\\u" + l) && p + 12 < |s|
    ensures EscapeAt(s, p) == Ok(ElemValue(Pair(h, l)), p + 12)
  {
    AtConcat3(s, p, "\\u" + h, "\\u", l);
    AtConcat(s, p, "\\u", h);
    assert s[p + 1] == "\\u"[1] && s[p + 6] == "\\u"[0] && s[p + 7] == "\\u"[1];
    HexComplete(s, p + 2, h);
    HexComplete(s, p + 8, l);
  }

  lemma {:induction false} ElemComplete(e: Elem, s: string, p: nat, acc: string)
    requires ValidElem(e) && At(s, p, ElemText(e)) && p + |ElemText(e)| < |s|
    ensures BodyAt(s, p, acc) == BodyAt(s, p + |ElemText(e)|, acc + ElemValue(e))
  {
    AtHead(s, p, ElemText(e));
    match e
    case Raw(c) =>
    case Esc(c) => assert s[p + 1] == ElemText(e)[1];
    case Uni(h) => UnicodeComplete(s, p, h);
    case Pair(h, l) => PairComplete(s, p, h, l);
  }

  lemma {:induction false} BodyEnd(s: string, p: nat, acc: string)
    requires p < |s| && s[p] == '\"'
    ensures BodyAt(s, p, acc) == Ok(acc, p + 1)
  {
  }

  lemma {:induction false} BodyComplete(es: seq<Elem>, s: string, p: nat, acc: string)
    requires ValidElems(es) && At(s, p, BodyText(es))
    ensures BodyAt(s, p, acc) == Ok(acc + ElemsValue(es), p + |BodyText(es)|)
    decreases |es|
  {
    hide At, ElemText, ElemValue, ValidElem, BodyAt;
    if es == [] {
      AtHead(s, p, BodyText(es));
      BodyEnd(s, p, acc);
      assert acc + [] == acc;
    } else {
      AtConcat(s, p, ElemText(es[0]), BodyText(es[1..]));
      ElemComplete(es[0], s, p, acc);
      BodyComplete(es[1..], s, p + |ElemText(es[0])|, acc + ElemValue(es[0]));
      assert acc + ElemValue(es[0]) + ElemsValue(es[1..]) == acc + ElemsValue(es);
    }
  }

  // ---------- numbers ----------

  /** The character at q does not prolong the number before it: no digit ever; no point or exponent mark
      where one may still come; no sign right after a bare exponent mark. */
  predicate EndsNumber(n: Number, s: string, q: nat) {
    q < |s| ==>
      && !IsDigit(s[q])
      && (n.frac.None? && n.exp.None? ==> s[q] != '.')
      && (n.exp.None? ==> s[q] != 'e' && s[q] != 'E')
      && (n.exp.Some? && n.exp.value.sign + n.exp.value.digits == "" ==> s[q] != '+' && s[q] != '-')
  }

  /** What follows a value's text at q does not prolong it. */
  predicate Ends(t: Tree, s: string, q: nat) {
    t.TNum? ==> EndsNumber(t.n, s, q)
  }

  /** What follows a value inside an array or object, or at the end of a text. */
  lemma SeparatorEnds(t: Tree, s: string, q: nat)
    requires q < |s| ==> IsSpace(s[q]) || s[q] in ",]}"
    ensures Ends(t, s, q)
  {
  }

  lemma {:induction false} SignComplete(s: string, p: nat, sign: string, digits: string)
    requires sign == "" || sign == "+" || sign == "-"
    requires Decimal(digits) && At(s, p, sign) && At(s, p + |sign|, digits)
    requires sign + digits == "" && p < |s| ==> s[p] != '+' && s[p] != '-'
    ensures SkipSign(s, p) == p + |sign|
  {
    hide At, Decimal;
    if sign != "" {
      AtHead(s, p, sign);
    } else if digits != "" {
      AtHead(s, p, digits);
      assert IsDigit(digits[0]) by { DecimalHead(digits); }
    }
  }

  lemma DecimalHead(d: string)
    requires Decimal(d) && d != ""
    ensures IsDigit(d[0])
  {
  }

  lemma {:induction false} ExponentComplete(n: Number, s: string, p: nat)
    requires NumberShape(n) && At(s, p, ExpText(n)) && EndsNumber(n, s, p + |ExpText(n)|)
    ensures SkipExponent(s, p) == p + |ExpText(n)|
    ensures p < |s| ==> !IsDigit(s[p]) && (n.frac.None? ==> s[p] != '.')
  {
    hide At, SkipDigits, SkipSign, Decimal;
    if n.exp.Some? {
      var e := n.exp.value;
      AtConcat3(s, p, [e.mark], e.sign, e.digits);
      AtHead(s, p, [e.mark]);
      SignComplete(s, p + 1, e.sign, e.digits);
      SkipDigitsExact(s, p + 1 + |e.sign|, e.digits);
    }
  }

  lemma {:induction false} FractionComplete(n: Number, s: string, p: nat)
    requires NumberShape(n) && At(s, p, FracText(n) + ExpText(n))
    requires EndsNumber(n, s, p + |FracText(n)| + |ExpText(n)|)
    ensures SkipExponent(s, SkipFraction(s, p)) == p + |FracText(n)| + |ExpText(n)|
    ensures p < |s| ==> !IsDigit(s[p])
  {
    hide At, SkipDigits, SkipExponent, ExpText, EndsNumber;
    AtConcat(s, p, FracText(n), ExpText(n));
    ExponentComplete(n, s, p + |FracText(n)|);
    if n.frac.Some? {
      AtConcat(s, p, ".", n.frac.value);
      AtHead(s, p, ".");
      SkipDigitsExact(s, p + 1, n.frac.value);
    }
  }

  lemma {:induction false} NumberStart(n: Number, s: string, p: nat)
    requires NumberShape(n) && At(s, p, NumberText(n))
    ensures p < |s| && (s[p] == '-' || IsDigit(s[p]))
    ensures SkipSign(s, p) == p + |SignText(n)|
    ensures At(s, p + |SignText(n)|, n.whole)
    ensures At(s, p + |SignText(n)| + |n.whole|, FracText(n) + ExpText(n))
  {
    AtConcat3(s, p, SignText(n), n.whole, FracText(n) + ExpText(n));
    if n.neg { AtHead(s, p, "-"); } else { AtHead(s, p, n.whole); }
  }

  lemma {:induction false} FromCharsComplete(n: Number)
    requires NumberShape(n) && n.frac.None? && n.exp.None? && n.whole != ""
    ensures FromChars(NumberText(n)) == if IsInt32(n) then Some(WholeValue(n)) else None
  {
    DecimalDigits(n.whole);
    assert NumberText(n) == SignText(n) + n.whole;
    assert IsDigit(n.whole[0]);
    assert (SignText(n) + n.whole)[|SignText(n)|..] == n.whole;
  }

  lemma {:induction false} ConvertComplete(fd: ReadDouble, n: Number, digitsOnly: bool)
    requires ValidNumber(fd, n)
    requires digitsOnly == (|FracText(n)| + |ExpText(n)| == 0 < |n.whole|)
    ensures Convert(fd, NumberText(n), digitsOnly) == Some(NumberValue(fd, n))
  {
    if digitsOnly {
      FromCharsComplete(n);
    }
  }

  lemma {:induction false} NumberSpan(n: Number, s: string, p: nat)
    requires NumberShape(n) && At(s, p, NumberText(n)) && EndsNumber(n, s, p + |NumberText(n)|)
    ensures p < |s| && (s[p] == '-' || IsDigit(s[p]))
    ensures SkipSign(s, p) == p + |SignText(n)|
    ensures SkipDigits(s, p + |SignText(n)|) == p + |SignText(n)| + |n.whole|
    ensures SkipExponent(s, SkipFraction(s, p + |SignText(n)| + |n.whole|))
         == p + |SignText(n)| + |n.whole| + |FracText(n)| + |ExpText(n)| == p + |NumberText(n)|
  {
    hide At, SkipSign, SkipDigits, SkipFraction, SkipExponent, FracText, ExpText, SignText, EndsNumber, Decimal;
    NumberStart(n, s, p);
    var a := p + |SignText(n)|;
    FractionComplete(n, s, a + |n.whole|);
    SkipDigitsExact(s, a, n.whole);
  }

  lemma {:induction false} NumberComplete(fd: ReadDouble, n: Number, s: string, p: nat)
    requires ValidNumber(fd, n) && At(s, p, NumberText(n)) && EndsNumber(n, s, p + |NumberText(n)|)
    ensures p < |s| && (s[p] == '-' || IsDigit(s[p]))
    ensures NumberAt(fd, s, p) == Ok(NumberValue(fd, n), p + |NumberText(n)|)
  {
    hide At, SkipSign, SkipDigits, SkipFraction, SkipExponent, FracText, ExpText, SignText, EndsNumber, NumberText,
      NumberValue, NumberShape, IsInt32, Convert;
    NumberSpan(n, s, p);
    AtSlice(s, p, NumberText(n));
    ConvertComplete(fd, n, |FracText(n)| + |ExpText(n)| == 0 < |n.whole|);
  }

  // ---------- values ----------

  /** A value's text starts with one of the characters the parser dispatches on. */
  lemma {:induction false} TextStart(fd: ReadDouble, t: Tree)
    requires Valid(fd, t)
    ensures Text(t) != "" && Text(t)[0] !in "]}" && !IsSpace(Text(t)[0])
  {
    hide NumberText, ItemsText, MembersText, BodyText, ValidElems, ValidItem, ValidMember;
    match t
    case TNum(n) => NumberStart(n, NumberText(n), 0);
    case TArr(_, _) => assert Text(t)[0] == '[';
    case TObj(_, _) => assert Text(t)[0] == '{';
    case TStr(es) => assert Text(t)[0] == '\"';
    case _ =>
  }

  /** A tree's text after whitespace: the cursor moves to its end and the value is the one it
      denotes. A number must be followed by something that does not prolong it. */
  lemma {:induction false} ValueComplete(fd: ReadDouble, t: Tree, w: string, s: string, p: nat)
    requires Valid(fd, t) && Blank(w) && At(s, p, w + Text(t))
    requires Ends(t, s, p + |w| + |Text(t)|)
    ensures ValueAt(fd, s, p) == Ok(Denote(fd, t), p + |w| + |Text(t)|)
    decreases t, 2
  {
    hide At, ValueAt, SkipSpace, Text, Denote, Valid, Ends, Blank;
    TextStart(fd, t);
    AtConcat(s, p, w, Text(t));
    var q := p + |w|;
    AtHead(s, q, Text(t));
    SkipSpaceExact(s, p, w);
    SkipSpaceTwice(s, p);
    BareValueComplete(fd, t, s, q);
    ValueAtSkips(fd, s, p);
  }

  lemma {:induction false} ValueAtSkips(fd: ReadDouble, s: string, p: nat)
    requires p <= |s|
    ensures ValueAt(fd, s, p) == ValueAt(fd, s, SkipSpace(s, p))
  {
    SkipSpaceTwice(s, p);
  }

  lemma {:induction false} BareValueComplete(fd: ReadDouble, t: Tree, s: string, p: nat)
    requires Valid(fd, t) && At(s, p, Text(t)) && p < |s| && s[p] == Text(t)[0] && SkipSpace(s, p) == p
    requires Ends(t, s, p + |Text(t)|)
    ensures ValueAt(fd, s, p) == Ok(Denote(fd, t), p + |Text(t)|)
    decreases t, 1
  {
    hide ValueAt, At, NumberAt, ArrayAt, ObjectAt, BodyAt, NumberText, EndsNumber, BodyText, SkipSpace;
    match t
    case TNull => LiteralComplete(fd, t, s, p);
    case TBool(_) => LiteralComplete(fd, t, s, p);
    case TNum(n) => NumberComplete(fd, n, s, p); NumberDispatch(fd, s, p);
    case TStr(es) => StringComplete(es, s, p); Dispatch(fd, s, p);
    case TArr(_, _) => ArrayComplete(fd, t, s, p); Dispatch(fd, s, p);
    case TObj(_, _) => ObjectComplete(fd, t, s, p); Dispatch(fd, s, p);
  }

  lemma Dispatch(fd: ReadDouble, s: string, p: nat)
    requires p < |s| && SkipSpace(s, p) == p
    ensures s[p] == '\"' ==>
              var b := BodyAt(s, p + 1, ""); ValueAt(fd, s, p) == if b.Ok? then Ok(Str(b.value), b.pos) else Err
    ensures s[p] == '[' ==> ValueAt(fd, s, p) == ArrayAt(fd, s, p)
    ensures s[p] == '{' ==> ValueAt(fd, s, p) == ObjectAt(fd, s, p)
  {
    hide BodyAt, ArrayAt, ObjectAt, SkipSpace;
  }

  lemma {:induction false} LiteralComplete(fd: ReadDouble, t: Tree, s: string, p: nat)
    requires (t.TNull? || t.TBool?) && At(s, p, Text(t)) && p < |s| && s[p] == Text(t)[0] && SkipSpace(s, p) == p
    ensures Valid(fd, t) && ValueAt(fd, s, p) == Ok(Denote(fd, t), p + |Text(t)|)
  {
  }

  lemma {:induction false} StringComplete(es: seq<Elem>, s: string, p: nat)
    requires ValidElems(es) && At(s, p, StringText(es))
    ensures p < |s| && BodyAt(s, p + 1, "") == Ok(ElemsValue(es), p + |StringText(es)|)
  {
    hide At, BodyAt, BodyText, ElemsValue;
    AtConcat(s, p, "\"", BodyText(es));
    BodyComplete(es, s, p + 1, "");
    assert "" + ElemsValue(es) == ElemsValue(es);
  }

  lemma {:induction false} NumberDispatch(fd: ReadDouble, s: string, p: nat)
    requires p < |s| && (s[p] == '-' || IsDigit(s[p])) && SkipSpace(s, p) == p
    ensures ValueAt(fd, s, p) == NumberAt(fd, s, p)
  {
  }

  lemma {:induction false} EmptyBracket(s: string, p: nat, open: char, pad: string, close: char)
    requires At(s, p, [open] + pad + [close]) && Blank(pad) && !IsSpace(close)
    ensures SkipSpace(s, p + 1) == p + 1 + |pad| < |s| && s[p + 1 + |pad|] == close
  {
    hide At, SkipSpace;
    AtConcat3(s, p, [open], pad, [close]);
    AtHead(s, p + 1 + |pad|, [close]);
    SkipSpaceExact(s, p + 1, pad);
  }

  lemma {:induction false} ArrayComplete(fd: ReadDouble, t: Tree, s: string, p: nat)
    requires t.TArr? && Valid(fd, t) && At(s, p, Text(t))
    ensures p < |s| && ArrayAt(fd, s, p) == Ok(Denote(fd, t), p + |Text(t)|)
    decreases t, 0
  {
    hide At, ItemsAt, ItemsText, Blank, ValueAt, SkipSpace;
    var items := t.items;
    if items == [] {
      EmptyBracket(s, p, '[', t.pad, ']') by { assert Text(t) == "[" + t.pad + "]"; }
    } else {
      AtConcat(s, p, "[", ItemsText(items));
      assert items[0..] == items && items[..0] == [];
      ItemsComplete(fd, items, 0, s, p + 1);
      ItemsNotClosed(fd, items, s, p + 1);
      ItemsAtSkips(fd, s, p + 1, []);
    }
  }

  lemma {:induction false} ItemsAtSkips(fd: ReadDouble, s: string, p: nat, acc: seq<Json>)
    requires p <= |s|
    ensures ItemsAt(fd, s, p, acc) == ItemsAt(fd, s, SkipSpace(s, p), acc)
  {
    ValueAtSkips(fd, s, p);
  }

  lemma {:induction false} ItemsNotClosed(fd: ReadDouble, items: seq<Item>, s: string, p: nat)
    requires items != [] && ValidItem(fd, items[0]) && At(s, p, ItemsText(items))
    ensures SkipSpace(s, p) < |s| && s[SkipSpace(s, p)] !in "]}"
  {
    hide At, Text, Valid, Blank, SkipSpace;
    var i := items[0];
    var rest := i.after + (if |items| == 1 then "]" else "," + ItemsText(items[1..]));
    assert ItemsText(items) == i.before + Text(i.value) + rest;
    AtConcat3(s, p, i.before, Text(i.value), rest);
    TextStart(fd, i.value);
    AtHead(s, p + |i.before|, Text(i.value));
    SkipSpaceExact(s, p, i.before);
  }

  /** The text of the items from i on, taken apart. */
  lemma {:induction false} ItemsTextUnfold(items: seq<Item>, s: string, p: nat)
    requires items != [] && At(s, p, ItemsText(items))
    ensures var i := items[0];
            var q := p + |i.before + Text(i.value)|;
            var r := q + |i.after|;
            && At(s, p, i.before + Text(i.value)) && At(s, q, i.after)
            && r < |s|
            && (if |items| == 1 then s[r] == ']' && r + 1 == p + |ItemsText(items)|
                else s[r] == ',' && At(s, r + 1, ItemsText(items[1..]))
                     && r + 1 + |ItemsText(items[1..])| == p + |ItemsText(items)|)
  {
    hide At, Text;
    var i := items[0];
    var last := if |items| == 1 then "]" else "," + ItemsText(items[1..]);
    assert ItemsText(items) == (i.before + Text(i.value)) + i.after + last;
    AtConcat3(s, p, i.before + Text(i.value), i.after, last);
    var r := p + |i.before + Text(i.value)| + |i.after|;
    AtHead(s, r, last);
    if |items| > 1 { AtConcat(s, r, ",", ItemsText(items[1..])); }
  }

  lemma {:induction false} SeparatorComplete(s: string, p: nat, w: string, close: char)
    requires At(s, p, w) && Blank(w) && p + |w| < |s|
    requires s[p + |w|] == ',' || s[p + |w|] == close
    requires close == ']' || close == '}'
    ensures s[p + |w|] == ',' ==> SeparatorAt(s, p, close) == Ok(More, SkipSpace(s, p + |w| + 1))
    ensures s[p + |w|] == close ==> SeparatorAt(s, p, close) == Ok(Closed, p + |w| + 1)
    ensures p < |s| ==> IsSpace(s[p]) || s[p] in ",]}"
  {
    SkipSpaceExact(s, p, w);
    if w != "" { AtHead(s, p, w); }
  }

  /** One turn of the array loop. */
  lemma {:induction false} ItemsStep(fd: ReadDouble, s: string, p: nat, acc: seq<Json>, v: Json, q: nat, w: string)
    requires p <= |s| && ValueAt(fd, s, p) == Ok(v, q)
    requires At(s, q, w) && Blank(w) && q + |w| < |s| && (s[q + |w|] == ',' || s[q + |w|] == ']')
    ensures ItemsAt(fd, s, p, acc)
         == if s[q + |w|] == ',' then ItemsAt(fd, s, q + |w| + 1, acc + [v]) else Ok(Arr(acc + [v]), q + |w| + 1)
  {
    hide ValueAt, At, SkipSpace;
    SeparatorComplete(s, q, w, ']');
    if s[q + |w|] == ',' { ItemsAtSkips(fd, s, q + |w| + 1, acc + [v]); }
  }

  lemma {:induction false} ItemsComplete(fd: ReadDouble, items: seq<Item>, i: nat, s: string, p: nat)
    requires i < |items| && (forall k | 0 <= k < |items| :: ValidItem(fd, items[k]))
    requires At(s, p, ItemsText(items[i..]))
    ensures ItemsAt(fd, s, p, DenoteItems(fd, items[..i])) == Ok(Arr(DenoteItems(fd, items)), p + |ItemsText(items[i..])|)
    decreases items, |items| - i
  {
    hide At, ItemsAt, ValueAt, Text, Blank, Valid, Denote, DenoteItems, ItemsText, Ends;
    var rest, it := items[i..], items[i];
    assert rest[0] == it && ValidItem(fd, it);
    ItemsTextUnfold(rest, s, p);
    var q := p + |it.before + Text(it.value)|;
    SeparatorComplete(s, q, it.after, ']');
    SeparatorEnds(it.value, s, q);
    ValueComplete(fd, it.value, it.before, s, p);
    ItemsStep(fd, s, p, DenoteItems(fd, items[..i]), Denote(fd, it.value), q, it.after);
    DenoteItemsSnoc(fd, items, i);
    if i + 1 < |items| {
      assert rest[1..] == items[i + 1..];
      ItemsComplete(fd, items, i + 1, s, q + |it.after| + 1);
    } else {
      assert items[..i + 1] == items;
    }
  }

  lemma {:induction false} DenoteItemsSnoc(fd: ReadDouble, items: seq<Item>, i: nat)
    requires i < |items| && (forall k | 0 <= k < |items| :: ValidItem(fd, items[k])) && ValidItem(fd, items[i])
    ensures DenoteItems(fd, items[..i + 1]) == DenoteItems(fd, items[..i]) + [Denote(fd, items[i].value)]
  {
    assert items[..i + 1][..i] == items[..i];
  }

  lemma {:induction false} ObjectComplete(fd: ReadDouble, t: Tree, s: string, p: nat)
    requires t.TObj? && Valid(fd, t) && At(s, p, Text(t))
    ensures p < |s| && ObjectAt(fd, s, p) == Ok(Denote(fd, t), p + |Text(t)|)
    decreases t, 0
  {
    hide At, MembersAt, MembersText, Blank, ValueAt, SkipSpace, MemberAt, KeyAt, MemberHead;
    var members := t.members;
    if members == [] {
      EmptyBracket(s, p, '{', t.pad, '}') by { assert Text(t) == "{" + t.pad + "}"; }
    } else {
      AtConcat(s, p, "{", MembersText(members));
      assert members[0..] == members && members[..0] == [];
      assert ValidMember(fd, members[0]);
      MembersTextUnfold(members, s, p + 1);
      KeyStart(fd, members[0], s, p + 1);
      MembersComplete(fd, members, 0, s, p + 1);
    }
  }

  lemma {:induction false} KeyStart(fd: ReadDouble, m: Member, s: string, p: nat)
    requires ValidMember(fd, m) && At(s, p, MemberHead(m) + Text(m.value))
    ensures SkipSpace(s, p) == p + |m.before| < |s| && s[p + |m.before|] == '\"'
    ensures At(s, p + |m.before| + 1, BodyText(m.key))
    ensures At(s, p + |m.before| + 1 + |BodyText(m.key)|, m.beforeColon + (":" + (m.afterColon + Text(m.value))))
  {
    hide At, BodyText, Text, ElemText, ValidElems, Valid;
    var rest := m.beforeColon + (":" + (m.afterColon + Text(m.value)));
    assert MemberHead(m) + Text(m.value) == m.before + StringText(m.key) + rest;
    AtConcat3(s, p, m.before, StringText(m.key), rest);
    var k := p + |m.before|;
    AtConcat(s, k, "\"", BodyText(m.key));
    AtHead(s, k, "\"");
    SkipSpaceExact(s, p, m.before);
  }

  /** The cursor after a member's colon. */
  function ColonEnd(m: Member, p: nat): nat {
    p + |m.before| + 1 + |BodyText(m.key)| + |m.beforeColon| + 1
  }

  lemma {:induction false} KeyComplete(fd: ReadDouble, m: Member, s: string, p: nat)
    requires ValidMember(fd, m) && At(s, p, MemberHead(m) + Text(m.value))
    ensures SkipSpace(s, p) == p + |m.before| < |s|
    ensures KeyAt(s, p + |m.before|) == Ok(ElemsValue(m.key), ColonEnd(m, p))
    ensures At(s, ColonEnd(m, p), m.afterColon + Text(m.value))
    ensures ColonEnd(m, p) + |m.afterColon| + |Text(m.value)| == p + |MemberHead(m) + Text(m.value)|
  {
    hide At, BodyText, Text, BodyAt, ElemsValue, Valid, SkipSpace;
    KeyStart(fd, m, s, p);
    var k := p + |m.before|;
    BodyComplete(m.key, s, k + 1, "");
    assert "" + ElemsValue(m.key) == ElemsValue(m.key);
    var c := k + 1 + |BodyText(m.key)|;
    AtConcat(s, c, m.beforeColon, ":" + (m.afterColon + Text(m.value)));
    AtConcat(s, c + |m.beforeColon|, ":", m.afterColon + Text(m.value));
    AtHead(s, c + |m.beforeColon|, ":");
    SkipSpaceExact(s, c, m.beforeColon);
  }

  lemma {:induction false} MembersTextUnfold(members: seq<Member>, s: string, p: nat)
    requires members != [] && At(s, p, MembersText(members))
    ensures var m := members[0];
            var q := p + |MemberHead(m) + Text(m.value)|;
            var r := q + |m.after|;
            && At(s, p, MemberHead(m) + Text(m.value)) && At(s, q, m.after)
            && r < |s|
            && (if |members| == 1 then s[r] == '}' && r + 1 == p + |MembersText(members)|
                else s[r] == ',' && At(s, r + 1, MembersText(members[1..]))
                     && r + 1 + |MembersText(members[1..])| == p + |MembersText(members)|)
  {
    hide At, Text, MemberHead;
    var m := members[0];
    var last := if |members| == 1 then "}" else "," + MembersText(members[1..]);
    assert MembersText(members) == (MemberHead(m) + Text(m.value)) + m.after + last;
    AtConcat3(s, p, MemberHead(m) + Text(m.value), m.after, last);
    var r := p + |MemberHead(m) + Text(m.value)| + |m.after|;
    AtHead(s, r, last);
    if |members| > 1 { AtConcat(s, r, ",", MembersText(members[1..])); }
  }

  /** One turn of the object loop. */
  lemma {:induction false} MembersStep(fd: ReadDouble, s: string, p: nat, acc: map<string, Json>, m: (string, Json), q: nat, w: string)
    requires p <= |s| && MemberAt(fd, s, p) == Ok(m, q)
    requires At(s, q, w) && Blank(w) && q + |w| < |s| && (s[q + |w|] == ',' || s[q + |w|] == '}')
    ensures MembersAt(fd, s, p, acc)
         == if s[q + |w|] == ',' then MembersAt(fd, s, SkipSpace(s, q + |w| + 1), acc[m.0 := m.1])
            else Ok(Obj(acc[m.0 := m.1]), q + |w| + 1)
  {
    SeparatorComplete(s, q, w, '}');
  }

  lemma {:induction false} MemberComplete(fd: ReadDouble, m: Member, s: string, p: nat)
    requires ValidMember(fd, m) && At(s, p, MemberHead(m) + Text(m.value))
    requires Ends(m.value, s, p + |MemberHead(m) + Text(m.value)|)
    ensures SkipSpace(s, p) == p + |m.before| < |s|
    ensures MemberAt(fd, s, p + |m.before|)
         == Ok((ElemsValue(m.key), Denote(fd, m.value)), p + |MemberHead(m) + Text(m.value)|)
    decreases m
  {
    hide At, ValueAt, Text, Blank, Denote, Valid, MemberHead, ElemsValue, SkipSpace, KeyAt, ColonEnd, Ends;
    KeyComplete(fd, m, s, p);
    ValueComplete(fd, m.value, m.afterColon, s, ColonEnd(m, p));
  }

  lemma {:induction false} MembersComplete(fd: ReadDouble, members: seq<Member>, i: nat, s: string, p: nat)
    requires i < |members| && (forall k | 0 <= k < |members| :: ValidMember(fd, members[k]))
    requires At(s, p, MembersText(members[i..]))
    ensures MembersAt(fd, s, SkipSpace(s, p), DenoteMembers(fd, members[..i]))
            == Ok(Obj(DenoteMembers(fd, members)), p + |MembersText(members[i..])|)
    decreases members, |members| - i
  {
    hide At, MembersAt, MemberAt, Text, Blank, Valid, Denote, DenoteMembers, MembersText, Ends, MemberHead, ElemsValue, SkipSpace;
    var rest, m := members[i..], members[i];
    assert rest[0] == m && ValidMember(fd, m);
    MembersTextUnfold(rest, s, p);
    var q := p + |MemberHead(m) + Text(m.value)|;
    SeparatorComplete(s, q, m.after, '}');
    SeparatorEnds(m.value, s, q);
    MemberComplete(fd, m, s, p);
    MembersStep(fd, s, p + |m.before|, DenoteMembers(fd, members[..i]), (ElemsValue(m.key), Denote(fd, m.value)), q, m.after);
    DenoteMembersSnoc(fd, members, i);
    if i + 1 < |members| {
      assert rest[1..] == members[i + 1..];
      MembersComplete(fd, members, i + 1, s, q + |m.after| + 1);
    } else {
      assert members[..i + 1] == members;
    }
  }

  lemma {:induction false} DenoteMembersSnoc(fd: ReadDouble, members: seq<Member>, i: nat)
    requires i < |members| && (forall k | 0 <= k < |members| :: ValidMember(fd, members[k])) && ValidMember(fd, members[i])
    ensures DenoteMembers(fd, members[..i + 1])
         == DenoteMembers(fd, members[..i])[ElemsValue(members[i].key) := Denote(fd, members[i].value)]
  {
    assert members[..i + 1][..i] == members[..i];
  }

  lemma DenoteNone(fd: ReadDouble)
    ensures DenoteItems(fd, []) == [] && DenoteMembers(fd, []) == map[]
  {
  }

  // ---------- whole texts ----------

  /** A JSON text, with whitespace before it and anything after it that does not prolong it, parses to
      its value and the cursor stops right after it. */
  lemma {:induction false} TextParses(fd: ReadDouble, t: Tree, w: string, rest: string)
    requires Valid(fd, t) && Blank(w) && Ends(t, rest, 0)
    ensures ValueAt(fd, w + Text(t) + rest, 0) == Ok(Denote(fd, t), |w + Text(t)|)
  {
    var s := w + Text(t) + rest;
    assert s[0..|w + Text(t)|] == w + Text(t);
    if rest != "" { assert s[|w + Text(t)|] == rest[0]; }
    ValueComplete(fd, t, w, s, 0);
  }

  /** A text of RFC 8259 is a text of the grammar exactly when its numbers can be read. */
  lemma {:induction false} Rfc8259Valid(fd: ReadDouble, t: Tree)
    requires Rfc8259(t)
    ensures Valid(fd, t) <==> NumbersRead(fd, t)
    decreases t
  {
    match t
    case TArr(_, items) =>
      forall i | 0 <= i < |items| ensures ValidItem(fd, items[i]) <==> NumbersRead(fd, items[i].value) {
        assert RfcItem(items[i]);
        Rfc8259Valid(fd, items[i].value);
      }
    case TObj(_, members) =>
      forall i | 0 <= i < |members| ensures ValidMember(fd, members[i]) <==> NumbersRead(fd, members[i].value) {
        assert RfcMember(members[i]);
        Rfc8259Valid(fd, members[i].value);
      }
    case _ =>
  }

  /** A text of RFC 8259, each of whose numbers is a 32-bit integer or one that the conversion to
      doubles reads, parses to its value and the cursor stops right after it. */
  lemma {:induction false} Rfc8259Parses(fd: ReadDouble, t: Tree, before: string, after: string)
    requires Rfc8259(t) && RfcBlank(before) && RfcBlank(after) && NumbersRead(fd, t)
    ensures Valid(fd, t)
    ensures ValueAt(fd, before + Text(t) + after, 0) == Ok(Denote(fd, t), |before + Text(t)|)
  {
    Rfc8259Valid(fd, t);
    SeparatorEnds(t, after, 0);
    TextParses(fd, t, before, after);
  }

  lemma {:induction false} IntegersAreRead(fd: ReadDouble, t: Tree)
    requires IntegersOnly(t)
    ensures NumbersRead(fd, t)
    decreases t
  {
    match t
    case TArr(_, items) =>
      forall i | 0 <= i < |items| ensures NumbersRead(fd, items[i].value) { IntegersAreRead(fd, items[i].value); }
    case TObj(_, members) =>
      forall i | 0 <= i < |members| ensures NumbersRead(fd, members[i].value) { IntegersAreRead(fd, members[i].value); }
    case _ =>
  }

  /** With integers only, the texts of RFC 8259 parse whatever the conversion to doubles does. */
  lemma {:induction false} Rfc8259IntegersParse(fd: ReadDouble, t: Tree, before: string, after: string)
    requires Rfc8259(t) && RfcBlank(before) && RfcBlank(after) && IntegersOnly(t)
    ensures Valid(fd, t)
    ensures ValueAt(fd, before + Text(t) + after, 0) == Ok(Denote(fd, t), |before + Text(t)|)
  {
    hide Text, Denote, Valid, ValueAt, Rfc8259;
    IntegersAreRead(fd, t);
    Rfc8259Parses(fd, t, before, after);
  }
}
