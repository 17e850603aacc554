/** What the strict parser accepts is a text of the grammar. */
module JsonSoundness {
  // The text denotes the value returned: together with completeness, the accepted language exactly.

  import opened Wrappers
  import opened Digits
  import opened JsonValue
  import opened JsonGrammar
  import opened JsonParser
  import opened JsonCompleteness

  lemma AtJoin(s: string, p: nat, a: string, b: string)
    requires At(s, p, a) && At(s, p + |a|, b)
    ensures At(s, p, a + b)
  {
    forall i | 0 <= i < |a + b| ensures s[p + i] == (a + b)[i] {
      if i >= |a| { assert s[p + |a| + (i - |a|)] == b[i - |a|]; }
    }
  }

  lemma AtSlices(s: string, p: nat, q: nat)
    requires p <= q <= |s|
    ensures At(s, p, s[p..q])
  {
  }

  lemma AtChar(s: string, p: nat)
    requires p < |s|
    ensures At(s, p, [s[p]])
  {
  }

  // ---------- strings ----------

  lemma {:induction false} UnicodeSound(s: string, p: nat) returns (e: Elem)
    requires p + 1 < |s| && s[p] == '\\' && s[p + 1] == 'u' && UnicodeAt(s, p + 1).Ok?
    ensures ValidElem(e) && At(s, p, ElemText(e))
    ensures UnicodeAt(s, p + 1) == Ok(ElemValue(e), p + |ElemText(e)|)
  {
    hide At, ValueOf, AllDigits;
    var h := s[p + 2..p + 6];
    HexText(s, p);
    if !HighSurrogate(ValueOf(h, 16)) {
      e := Uni(h);
    } else {
      e := Pair(h, s[p + 8..p + 12]);
      HexText(s, p + 6);
      AtJoin(s, p, "\\u" + h, "\\u" + s[p + 8..p + 12]);
      assert ElemText(e) == ("\\u" + h) + ("\\u" + s[p + 8..p + 12]);
    }
  }

  lemma HexText(s: string, p: nat)
    requires p + 6 <= |s| && s[p] == '\\' && s[p + 1] == 'u'
    ensures At(s, p, "\\u" + s[p + 2..p + 6])
  {
  }

  lemma {:induction false} EscapeSound(s: string, p: nat) returns (e: Elem)
    requires p < |s| && s[p] == '\\' && EscapeAt(s, p).Ok?
    ensures ValidElem(e) && At(s, p, ElemText(e))
    ensures EscapeAt(s, p) == Ok(ElemValue(e), p + |ElemText(e)|)
  {
    if s[p + 1] == 'u' {
      hide UnicodeAt;
      e := UnicodeSound(s, p);
    } else {
      e := Esc(s[p + 1]);
    }
  }

  lemma {:induction false} BodySound(s: string, p: nat, acc: string) returns (es: seq<Elem>)
    requires p <= |s| && BodyAt(s, p, acc).Ok?
    ensures ValidElems(es) && At(s, p, BodyText(es))
    ensures BodyAt(s, p, acc) == Ok(acc + ElemsValue(es), p + |BodyText(es)|)
    decreases |s| - p
  {
    hide At, EscapeAt, ElemText, ElemValue, ValidElem;
    if s[p] == '\"' {
      es := [];
      AtChar(s, p);
      assert acc + [] == acc;
    } else {
      var e: Elem;
      if s[p] == '\\' {
        e := EscapeSound(s, p);
      } else {
        e := Raw(s[p]);
        RawElem(s, p);
      }
      var rest := BodySound(s, p + |ElemText(e)|, acc + ElemValue(e));
      es := [e] + rest;
      AtJoin(s, p, ElemText(e), BodyText(rest));
      assert acc + ElemValue(e) + ElemsValue(rest) == acc + ElemsValue(es);
    }
  }

  lemma RawElem(s: string, p: nat)
    requires p < |s| && s[p] != '\"' && s[p] != '\\'
    ensures var e := Raw(s[p]); ValidElem(e) && At(s, p, ElemText(e)) && |ElemText(e)| == 1 && ElemValue(e) == [s[p]]
  {
  }

  // ---------- numbers ----------

  lemma {:induction false} ExponentSound(s: string, p: nat) returns (e: Option<Exponent>, n: Number)
    requires p <= |s|
    ensures n == Number(true, "", None, e) && NumberShape(n)
    ensures At(s, p, ExpText(n)) && SkipExponent(s, p) == p + |ExpText(n)|
    ensures p + |ExpText(n)| < |s| ==>
              var c := s[p + |ExpText(n)|];
              && (e.None? ==> c != 'e' && c != 'E')
              && (e.Some? ==> !IsDigit(c) && (e.value.sign + e.value.digits == "" ==> c != '+' && c != '-'))
  {
    var d := SkipExponent(s, p);
    if d == p {
      e := None;
    } else {
      var a := SkipSign(s, p + 1);
      e := Some(Exponent(s[p], s[p + 1..a], s[a..d]));
      assert [s[p]] + s[p + 1..a] + s[a..d] == s[p..d];
    }
    n := Number(true, "", None, e);
  }

  lemma {:induction false} FractionSound(s: string, p: nat) returns (f: Option<string>, n: Number)
    requires p <= |s|
    ensures n == Number(true, "", f, None) && NumberShape(n)
    ensures At(s, p, FracText(n)) && SkipFraction(s, p) == p + |FracText(n)|
    ensures p + |FracText(n)| < |s| ==>
              var c := s[p + |FracText(n)|]; (f.None? ==> c != '.') && (f.Some? ==> !IsDigit(c))
  {
    var d := SkipFraction(s, p);
    if d == p {
      f := None;
    } else {
      f := Some(s[p + 1..d]);
      assert "." + s[p + 1..d] == s[p..d];
    }
    n := Number(true, "", f, None);
  }

  lemma {:induction false} NumberAssembled(n: Number, s: string, p: nat)
    requires At(s, p, SignText(n)) && At(s, p + |SignText(n)|, n.whole)
    requires At(s, p + |SignText(n)| + |n.whole|, FracText(n))
    requires At(s, p + |SignText(n)| + |n.whole| + |FracText(n)|, ExpText(n))
    ensures At(s, p, NumberText(n))
    ensures |NumberText(n)| == |SignText(n)| + |n.whole| + |FracText(n)| + |ExpText(n)|
  {
    hide At, FracText, ExpText, SignText;
    AtJoin(s, p + |SignText(n)| + |n.whole|, FracText(n), ExpText(n));
    AtJoin(s, p, SignText(n), n.whole);
    AtJoin(s, p, SignText(n) + n.whole, FracText(n) + ExpText(n));
  }

  lemma WholeStart(s: string, p: nat)
    requires p < |s| && (IsDigit(s[p]) || s[p] == '-')
    ensures s[p] != '-' ==> SkipSign(s, p) == p < SkipDigits(s, p)
  {
  }

  /** The number the scanner cut out, with its text in place. */
  lemma {:induction false} NumberScanned(s: string, p: nat) returns (n: Number)
    requires p < |s| && (IsDigit(s[p]) || s[p] == '-')
    ensures NumberShape(n) && At(s, p, NumberText(n))
    ensures var a := SkipSign(s, p);
            var b := SkipDigits(s, a);
            && n.whole == s[a..b]
            && SkipExponent(s, SkipFraction(s, b)) == b + |FracText(n)| + |ExpText(n)| == p + |NumberText(n)|
    ensures EndsNumber(n, s, p + |NumberText(n)|)
  {
    hide At, SkipSign, SkipDigits, SkipFraction, SkipExponent, NumberText, NumberShape, FracText, ExpText, SignText, Decimal;
    var a := SkipSign(s, p);
    var b := SkipDigits(s, a);
    WholeStart(s, p);
    var f, nf := FractionSound(s, b);
    var e, ne := ExponentSound(s, b + |FracText(nf)|);
    n := Number(s[p] == '-', s[a..b], f, e);
    ShapeCombines(n, nf, ne);
    SignSound(s, p, n);
    NoPart(nf, ne);
    AtSlices(s, a, b);
    NumberAssembled(n, s, p);
  }

  lemma NoPart(nf: Number, ne: Number)
    ensures nf.frac.None? ==> FracText(nf) == ""
    ensures ne.exp.None? ==> ExpText(ne) == ""
  {
  }

  lemma ShapeCombines(n: Number, nf: Number, ne: Number)
    requires NumberShape(nf) && NumberShape(ne) && n.frac == nf.frac && n.exp == ne.exp
    requires Decimal(n.whole) && (n.neg || n.whole != "")
    ensures NumberShape(n) && FracText(n) == FracText(nf) && ExpText(n) == ExpText(ne)
  {
    hide Decimal;
  }

  lemma SignSound(s: string, p: nat, n: Number)
    requires p < |s| && n.neg == (s[p] == '-') && s[p] != '+'
    ensures At(s, p, SignText(n)) && SkipSign(s, p) == p + |SignText(n)|
  {
  }

  lemma {:induction false} NumberSound(fd: ReadDouble, s: string, p: nat) returns (n: Number)
    requires p < |s| && (IsDigit(s[p]) || s[p] == '-') && NumberAt(fd, s, p).Ok?
    ensures ValidNumber(fd, n) && At(s, p, NumberText(n))
    ensures NumberAt(fd, s, p) == Ok(NumberValue(fd, n), p + |NumberText(n)|)
    ensures EndsNumber(n, s, p + |NumberText(n)|)
  {
    hide At, EndsNumber, SkipSign, SkipDigits, SkipFraction, SkipExponent, NumberText, FracText, ExpText, NumberValue, Convert, NumberShape;
    n := NumberScanned(s, p);
    AtSlice(s, p, NumberText(n));
    ConvertSound(fd, n, |FracText(n)| + |ExpText(n)| == 0 < |n.whole|);
  }

  lemma {:induction false} ConvertSound(fd: ReadDouble, n: Number, digitsOnly: bool)
    requires NumberShape(n) && digitsOnly == (|FracText(n)| + |ExpText(n)| == 0 < |n.whole|)
    requires Convert(fd, NumberText(n), digitsOnly).Some?
    ensures ValidNumber(fd, n) && Convert(fd, NumberText(n), digitsOnly) == Some(NumberValue(fd, n))
  {
    if digitsOnly {
      FromCharsComplete(n);
    }
  }

  // ---------- values ----------

  /** The whitespace skipped from p on. */
  lemma SpaceSound(s: string, p: nat) returns (w: string)
    requires p <= |s|
    ensures Blank(w) && At(s, p, w) && SkipSpace(s, p) == p + |w|
  {
    w := s[p..SkipSpace(s, p)];
  }

  lemma {:induction false} ValueSound(fd: ReadDouble, s: string, p: nat) returns (w: string, t: Tree)
    requires p <= |s| && ValueAt(fd, s, p).Ok?
    ensures Blank(w) && Valid(fd, t) && At(s, p, w + Text(t))
    ensures ValueAt(fd, s, p) == Ok(Denote(fd, t), p + |w| + |Text(t)|) && Ends(t, s, p + |w| + |Text(t)|)
    decreases |s| - p, 2
  {
    hide At, ValueAt, Text, Denote, Valid, SkipSpace, Ends, Blank;
    w := SpaceSound(s, p);
    AtBound(s, p, w);
    var q := p + |w|;
    ValueAtSkips(fd, s, p);
    SkipSpaceTwice(s, p);
    t := BareSound(fd, s, q);
    AtJoin(s, p, w, Text(t));
  }

  lemma {:induction false} StringSound(s: string, p: nat) returns (es: seq<Elem>)
    requires p < |s| && s[p] == '\"' && BodyAt(s, p + 1, "").Ok?
    ensures ValidElems(es) && At(s, p, StringText(es))
    ensures BodyAt(s, p + 1, "") == Ok(ElemsValue(es), p + |StringText(es)|)
  {
    hide At, BodyAt, BodyText, ElemsValue;
    es := BodySound(s, p + 1, "");
    assert "" + ElemsValue(es) == ElemsValue(es);
    AtChar(s, p);
    AtJoin(s, p, "\"", BodyText(es));
  }

  lemma {:induction false} BareSound(fd: ReadDouble, s: string, p: nat) returns (t: Tree)
    requires p <= |s| && SkipSpace(s, p) == p && ValueAt(fd, s, p).Ok?
    ensures Valid(fd, t) && At(s, p, Text(t))
    ensures ValueAt(fd, s, p) == Ok(Denote(fd, t), p + |Text(t)|) && Ends(t, s, p + |Text(t)|)
    decreases |s| - p, 1
  {
    hide At, BodyAt, ArrayAt, ObjectAt, NumberAt, SkipSpace, ValueAt, Valid, Denote, Text;
    var c := FirstChar(fd, s, p);
    if c == 'n' || c == 't' || c == 'f' {
      t := LiteralSound(fd, s, p);
    } else if c == '[' {
      Dispatch(fd, s, p);
      t := ArraySound(fd, s, p);
    } else if c == '{' {
      Dispatch(fd, s, p);
      t := ObjectSound(fd, s, p);
    } else {
      t := ScalarSound(fd, s, p);
    }
  }

  lemma {:induction false} ScalarSound(fd: ReadDouble, s: string, p: nat) returns (t: Tree)
    requires p < |s| && (s[p] in "\"-" || IsDigit(s[p])) && SkipSpace(s, p) == p && ValueAt(fd, s, p).Ok?
    ensures Valid(fd, t) && At(s, p, Text(t))
    ensures ValueAt(fd, s, p) == Ok(Denote(fd, t), p + |Text(t)|) && Ends(t, s, p + |Text(t)|)
  {
    hide At, EndsNumber, BodyAt, NumberAt, SkipSpace, ValueAt, StringText, NumberText, ElemsValue, NumberValue, ValidNumber, ValidElems;
    if s[p] == '\"' {
      Dispatch(fd, s, p);
      var es := StringSound(s, p);
      t := TStr(es);
    } else {
      NumberDispatch(fd, s, p);
      var n := NumberSound(fd, s, p);
      t := TNum(n);
    }
  }

  lemma FirstChar(fd: ReadDouble, s: string, p: nat) returns (c: char)
    requires p <= |s| && SkipSpace(s, p) == p && ValueAt(fd, s, p).Ok?
    ensures p < |s| && s[p] == c && (c in "ntf\"[{-" || IsDigit(c))
  {
    c := s[p];
  }

  lemma {:induction false} LiteralSound(fd: ReadDouble, s: string, p: nat) returns (t: Tree)
    requires p < |s| && s[p] in "ntf" && SkipSpace(s, p) == p && ValueAt(fd, s, p).Ok?
    ensures Valid(fd, t) && At(s, p, Text(t)) && ValueAt(fd, s, p) == Ok(Denote(fd, t), p + |Text(t)|) && !t.TNum?
  {
    t := if s[p] == 'n' then TNull else TBool(s[p] == 't');
  }

  // ---------- arrays ----------

  /** Whitespace in front of the items belongs to the first of them. */
  function PadItems(w: string, items: seq<Item>): (r: seq<Item>)
    requires items != []
  {
    [items[0].(before := w + items[0].before)] + items[1..]
  }

  lemma {:induction false} PadItemsText(fd: ReadDouble, w: string, items: seq<Item>)
    requires items != [] && Blank(w) && forall i | 0 <= i < |items| :: ValidItem(fd, items[i])
    ensures ItemsText(PadItems(w, items)) == w + ItemsText(items)
    ensures forall i | 0 <= i < |items| :: ValidItem(fd, PadItems(w, items)[i])
    ensures DenoteItems(fd, PadItems(w, items)) == DenoteItems(fd, items)
  {
    hide DenoteItems, ItemsText, ValidItem, Blank;
    var padded := PadItems(w, items);
    PadItemsDenote(fd, w, items, |items|);
    assert padded[..|items|] == padded && items[..|items|] == items;
    PadItemsSpelling(w, items);
  }

  lemma {:induction false} PadItemsSpelling(w: string, items: seq<Item>)
    requires items != []
    ensures ItemsText(PadItems(w, items)) == w + ItemsText(items)
  {
    hide Text;
    assert PadItems(w, items)[1..] == items[1..];
    var it := items[0];
    var last := if |items| == 1 then "]" else "," + ItemsText(items[1..]);
    assert w + it.before + Text(it.value) + it.after + last == w + (it.before + Text(it.value) + it.after + last);
  }

  lemma {:induction false} PadItemsDenote(fd: ReadDouble, w: string, items: seq<Item>, n: nat)
    requires items != [] && Blank(w) && (forall i | 0 <= i < |items| :: ValidItem(fd, items[i])) && n <= |items|
    ensures forall i | 0 <= i < |items| :: ValidItem(fd, PadItems(w, items)[i])
    ensures DenoteItems(fd, PadItems(w, items)[..n]) == DenoteItems(fd, items[..n])
  {
    hide Denote, Valid;
    var padded := PadItems(w, items);
    assert ValidItem(fd, items[0]);
    forall i | 0 <= i < |items| ensures ValidItem(fd, padded[i]) && padded[i].value == items[i].value {
      assert ValidItem(fd, items[i]);
    }
    if n > 0 {
      PadItemsDenote(fd, w, items, n - 1);
      DenoteItemsSnoc(fd, padded, n - 1);
      DenoteItemsSnoc(fd, items, n - 1) by { assert ValidItem(fd, items[n - 1]); }
    } else {
      assert padded[..0] == items[..0];
    }
  }

  lemma {:induction false} DenoteItemsCons(fd: ReadDouble, it: Item, items: seq<Item>)
    requires ValidItem(fd, it) && forall i | 0 <= i < |items| :: ValidItem(fd, items[i])
    ensures forall i | 0 <= i < |[it] + items| :: ValidItem(fd, ([it] + items)[i])
    ensures DenoteItems(fd, [it] + items) == [Denote(fd, it.value)] + DenoteItems(fd, items)
  {
    hide Denote, ValidItem;
    var all := [it] + items;
    if items == [] {
      assert all == [it] && [it][..0] == [];
    } else {
      var n := |items| - 1;
      DenoteItemsCons(fd, it, items[..n]);
      assert all[..|all| - 1] == [it] + items[..n];
      assert all[|all| - 1] == items[n];
    }
  }

  lemma {:induction false} ArraySound(fd: ReadDouble, s: string, p: nat) returns (t: Tree)
    requires p < |s| && s[p] == '[' && ArrayAt(fd, s, p).Ok?
    ensures t.TArr? && Valid(fd, t) && At(s, p, Text(t))
    ensures ArrayAt(fd, s, p) == Ok(Denote(fd, t), p + |Text(t)|)
    decreases |s| - p, 0
  {
    hide At, ItemsAt, DenoteItems, ItemsText, SkipSpace, ValidItem, Blank;
    var w := SpaceSound(s, p + 1);
    var q := p + 1 + |w|;
    AtChar(s, p);
    if q < |s| && s[q] == ']' {
      AtChar(s, q);
      t := TArr(w, []);
      AtJoin(s, p + 1, w, "]");
      AtJoin(s, p, "[", w + "]");
      DenoteNone(fd);
    } else {
      var items := ItemsSound(fd, s, q, []);
      PadItemsText(fd, w, items);
      t := TArr("", PadItems(w, items));
      BlankEmpty();
      assert [] + DenoteItems(fd, items) == DenoteItems(fd, items);
      AtJoin(s, p + 1, w, ItemsText(items));
      AtJoin(s, p, "[", w + ItemsText(items));
    }
  }

  lemma BlankEmpty()
    ensures Blank("")
  {
  }

  lemma {:induction false} SeparatorSound(s: string, p: nat, close: char) returns (w: string, gap: string)
    requires p <= |s| && SeparatorAt(s, p, close).Ok?
    ensures Blank(w) && Blank(gap) && At(s, p, w) && p + |w| < |s|
    ensures var sep := SeparatorAt(s, p, close);
            if sep.value.More? then s[p + |w|] == ',' && At(s, p + |w| + 1, gap) && sep.pos == p + |w| + 1 + |gap|
            else s[p + |w|] == close && sep.pos == p + |w| + 1
  {
    w := SpaceSound(s, p);
    gap := "";
    if s[p + |w|] == ',' {
      gap := SpaceSound(s, p + |w| + 1);
    }
  }

  lemma {:induction false} ItemsSound(fd: ReadDouble, s: string, p: nat, acc: seq<Json>) returns (items: seq<Item>)
    requires p <= |s| && ItemsAt(fd, s, p, acc).Ok?
    ensures items != [] && forall i | 0 <= i < |items| :: ValidItem(fd, items[i])
    ensures At(s, p, ItemsText(items))
    ensures ItemsAt(fd, s, p, acc) == Ok(Arr(acc + DenoteItems(fd, items)), p + |ItemsText(items)|)
    decreases |s| - p, 3
  {
    hide At, ValueAt, DenoteItems, ItemsText, SkipSpace, Text, Denote, Valid, Blank, SeparatorAt;
    var w, t := ValueSound(fd, s, p);
    var q := p + |w| + |Text(t)|;
    var after, gap := SeparatorSound(s, q, ']');
    var it := Item(w, t, after);
    AtJoin(s, p, w + Text(t), after);
    AtChar(s, q + |after|);
    var v := Denote(fd, t);
    if SeparatorAt(s, q, ']').value.More? {
      var rest := ItemsSound(fd, s, q + |after| + 1 + |gap|, acc + [v]);
      PadItemsText(fd, gap, rest);
      var tail := PadItems(gap, rest);
      DenoteItemsCons(fd, it, tail);
      items := [it] + tail;
      AtJoin(s, q + |after| + 1, gap, ItemsText(rest));
      AtJoin(s, q + |after|, ",", gap + ItemsText(rest));
      AtJoin(s, p, w + Text(t) + after, "," + (gap + ItemsText(rest)));
      ItemsTextCons(it, tail);
      assert acc + [v] + DenoteItems(fd, rest) == acc + ([v] + DenoteItems(fd, rest));
    } else {
      DenoteItemsCons(fd, it, []);
      DenoteNone(fd);
      items := [it];
      assert [it] + [] == items;
      AtJoin(s, p, w + Text(t) + after, "]");
      ItemsTextOne(it);
      assert acc + ([v] + []) == acc + [v];
    }
  }

  lemma ItemsTextOne(it: Item)
    ensures ItemsText([it]) == it.before + Text(it.value) + it.after + "]"
  {
    hide Text;
  }

  lemma ItemsTextCons(it: Item, items: seq<Item>)
    requires items != []
    ensures ItemsText([it] + items) == it.before + Text(it.value) + it.after + ("," + ItemsText(items))
  {
    hide Text;
    assert ([it] + items)[1..] == items;
  }

  // ---------- objects ----------

  function PadMembers(w: string, members: seq<Member>): (r: seq<Member>)
    requires members != []
  {
    [members[0].(before := w + members[0].before)] + members[1..]
  }

  lemma {:induction false} PadMembersText(fd: ReadDouble, w: string, members: seq<Member>)
    requires members != [] && Blank(w) && forall i | 0 <= i < |members| :: ValidMember(fd, members[i])
    ensures MembersText(PadMembers(w, members)) == w + MembersText(members)
    ensures forall i | 0 <= i < |members| :: ValidMember(fd, PadMembers(w, members)[i])
    ensures DenoteMembers(fd, PadMembers(w, members)) == DenoteMembers(fd, members)
  {
    hide DenoteMembers, MembersText, ValidMember, Blank;
    var padded := PadMembers(w, members);
    PadMembersDenote(fd, w, members, |members|);
    assert padded[..|members|] == padded && members[..|members|] == members;
    PadMembersSpelling(w, members);
  }

  lemma {:induction false} PadMembersSpelling(w: string, members: seq<Member>)
    requires members != []
    ensures MembersText(PadMembers(w, members)) == w + MembersText(members)
  {
    hide Text, StringText, MemberHead;
    assert PadMembers(w, members)[1..] == members[1..];
    var m := members[0];
    var last := if |members| == 1 then "}" else "," + MembersText(members[1..]);
    PadHead(w, m);
    assert w + MemberHead(m) + Text(m.value) + m.after + last == w + (MemberHead(m) + Text(m.value) + m.after + last);
  }

  lemma PadHead(w: string, m: Member)
    ensures MemberHead(m.(before := w + m.before)) == w + MemberHead(m)
  {
    hide StringText;
  }

  lemma {:induction false} PadMembersDenote(fd: ReadDouble, w: string, members: seq<Member>, n: nat)
    requires members != [] && Blank(w) && (forall i | 0 <= i < |members| :: ValidMember(fd, members[i])) && n <= |members|
    ensures forall i | 0 <= i < |members| :: ValidMember(fd, PadMembers(w, members)[i])
    ensures DenoteMembers(fd, PadMembers(w, members)[..n]) == DenoteMembers(fd, members[..n])
  {
    hide Denote, Valid, ElemsValue, ValidElems;
    var padded := PadMembers(w, members);
    assert ValidMember(fd, members[0]);
    forall i | 0 <= i < |members|
      ensures ValidMember(fd, padded[i]) && padded[i].value == members[i].value && padded[i].key == members[i].key
    {
      assert ValidMember(fd, members[i]);
    }
    if n > 0 {
      PadMembersDenote(fd, w, members, n - 1);
      DenoteMembersSnoc(fd, padded, n - 1);
      DenoteMembersSnoc(fd, members, n - 1) by { assert ValidMember(fd, members[n - 1]); }
    } else {
      assert padded[..0] == members[..0];
    }
  }

  lemma {:induction false} DenoteMembersCons(fd: ReadDouble, m: Member, members: seq<Member>)
    requires ValidMember(fd, m) && forall i | 0 <= i < |members| :: ValidMember(fd, members[i])
    ensures forall i | 0 <= i < |[m] + members| :: ValidMember(fd, ([m] + members)[i])
    ensures DenoteMembers(fd, [m] + members)
         == map[ElemsValue(m.key) := Denote(fd, m.value)] + DenoteMembers(fd, members)
  {
    hide Denote, Valid, ElemsValue;
    var all := [m] + members;
    if members == [] {
      assert all == [m] && [m][..0] == [];
    } else {
      var n := |members| - 1;
      DenoteMembersCons(fd, m, members[..n]);
      assert all[..|all| - 1] == [m] + members[..n];
      assert all[|all| - 1] == members[n];
    }
  }

  lemma {:induction false} ObjectSound(fd: ReadDouble, s: string, p: nat) returns (t: Tree)
    requires p < |s| && s[p] == '{' && ObjectAt(fd, s, p).Ok?
    ensures t.TObj? && Valid(fd, t) && At(s, p, Text(t))
    ensures ObjectAt(fd, s, p) == Ok(Denote(fd, t), p + |Text(t)|)
    decreases |s| - p, 0
  {
    hide At, MembersAt, DenoteMembers, MembersText, SkipSpace, ValidMember, Blank;
    var w := SpaceSound(s, p + 1);
    var q := p + 1 + |w|;
    AtChar(s, p);
    if q < |s| && s[q] == '}' {
      AtChar(s, q);
      t := TObj(w, []);
      AtJoin(s, p + 1, w, "}");
      AtJoin(s, p, "{", w + "}");
      DenoteNone(fd);
    } else {
      var members := MembersSound(fd, s, q, map[]);
      PadMembersText(fd, w, members);
      t := TObj("", PadMembers(w, members));
      BlankEmpty();
      assert map[] + DenoteMembers(fd, members) == DenoteMembers(fd, members);
      AtJoin(s, p + 1, w, MembersText(members));
      AtJoin(s, p, "{", w + MembersText(members));
    }
  }

  lemma {:induction false} MemberSound(fd: ReadDouble, s: string, p: nat) returns (m: Member)
    requires p <= |s| && MemberAt(fd, s, p).Ok?
    ensures ValidMember(fd, m) && m.after == "" && At(s, p, MemberHead(m) + Text(m.value))
    ensures MemberAt(fd, s, p)
         == Ok((ElemsValue(m.key), Denote(fd, m.value)), p + |MemberHead(m) + Text(m.value)|)
    decreases |s| - p, 3
  {
    hide At, BodyAt, ValueAt, SkipSpace, Text, Denote, Valid, ElemsValue, BodyText, ValidElems;
    var es := BodySound(s, p + 1, "");
    assert "" + ElemsValue(es) == ElemsValue(es);
    AtChar(s, p);
    AtJoin(s, p, "\"", BodyText(es));
    var k := p + |StringText(es)|;
    var beforeColon := SpaceSound(s, k);
    var c := k + |beforeColon|;
    AtChar(s, c);
    var gap, t := ValueSound(fd, s, c + 1);
    m := Member("", es, beforeColon, gap, t, "");
    BlankEmpty();
    AtJoin(s, p, StringText(es), beforeColon);
    AtJoin(s, p, StringText(es) + beforeColon, ":");
    AtJoin(s, p, StringText(es) + beforeColon + ":", gap + Text(t));
    HeadText(m);
  }

  lemma HeadText(m: Member)
    requires m.before == ""
    ensures MemberHead(m) + Text(m.value) == StringText(m.key) + m.beforeColon + ":" + (m.afterColon + Text(m.value))
  {
    hide Text, StringText;
  }

  lemma {:induction false} MembersSound(fd: ReadDouble, s: string, p: nat, acc: map<string, Json>) returns (members: seq<Member>)
    requires p <= |s| && MembersAt(fd, s, p, acc).Ok?
    ensures members != [] && forall i | 0 <= i < |members| :: ValidMember(fd, members[i])
    ensures At(s, p, MembersText(members))
    ensures MembersAt(fd, s, p, acc) == Ok(Obj(acc + DenoteMembers(fd, members)), p + |MembersText(members)|)
    decreases |s| - p, 4
  {
    hide At, MemberAt, DenoteMembers, MembersText, SkipSpace, Text, Denote, Valid, Blank, SeparatorAt, MemberHead, ElemsValue, ValidElems;
    var m := MemberSound(fd, s, p);
    var head := MemberHead(m) + Text(m.value);
    var q := p + |head|;
    var after, gap := SeparatorSound(s, q, '}');
    var full := m.(after := after);
    SameHead(m, after);
    AtJoin(s, p, head, after);
    AtChar(s, q + |after|);
    var k, v := ElemsValue(m.key), Denote(fd, m.value);
    if SeparatorAt(s, q, '}').value.More? {
      var rest := MembersSound(fd, s, q + |after| + 1 + |gap|, acc[k := v]);
      PadMembersText(fd, gap, rest);
      var tail := PadMembers(gap, rest);
      DenoteMembersCons(fd, full, tail);
      members := [full] + tail;
      AtJoin(s, q + |after| + 1, gap, MembersText(rest));
      AtJoin(s, q + |after|, ",", gap + MembersText(rest));
      AtJoin(s, p, head + after, "," + (gap + MembersText(rest)));
      MembersTextCons(full, tail);
      MergeFirst(acc, k, v, DenoteMembers(fd, rest));
    } else {
      DenoteMembersCons(fd, full, []);
      DenoteNone(fd);
      members := [full];
      assert [full] + [] == members;
      AtJoin(s, p, head + after, "}");
      MembersTextOne(full);
      MergeFirst(acc, k, v, map[]);
      assert acc[k := v] + map[] == acc[k := v];
    }
  }

  lemma MergeFirst(acc: map<string, Json>, k: string, v: Json, rest: map<string, Json>)
    ensures acc[k := v] + rest == acc + (map[k := v] + rest)
  {
  }

  lemma SameHead(m: Member, after: string)
    ensures MemberHead(m.(after := after)) == MemberHead(m)
  {
  }

  lemma MembersTextOne(m: Member)
    ensures MembersText([m]) == MemberHead(m) + Text(m.value) + m.after + "}"
  {
    hide Text, MemberHead;
  }

  lemma MembersTextCons(m: Member, members: seq<Member>)
    requires members != []
    ensures MembersText([m] + members) == MemberHead(m) + Text(m.value) + m.after + ("," + MembersText(members))
  {
    hide Text, MemberHead;
    assert ([m] + members)[1..] == members;
  }

  // ---------- the accepted language ----------

  /** The input is whitespace, a text of the grammar that denotes v, and a rest that does not prolong it. */
  predicate BeginsAs(fd: ReadDouble, s: string, v: Json, w: string, t: Tree, rest: string) {
    Blank(w) && Valid(fd, t) && s == w + Text(t) + rest && Denote(fd, t) == v && Ends(t, rest, 0)
  }

  ghost predicate Begins(fd: ReadDouble, s: string, v: Json) {
    exists w, t, rest :: BeginsAs(fd, s, v, w, t, rest)
  }

  lemma EndsRest(t: Tree, before: string, rest: string)
    ensures Ends(t, before + rest, |before|) <==> Ends(t, rest, 0)
  {
    if rest != "" { assert (before + rest)[|before|] == rest[0]; }
  }

  /** Strict parsing returns v exactly on the inputs that begin with a text that denotes v: what follows the
      text is never looked at, except that a number is read as far as it goes. */
  lemma {:induction false} ParsesExactly(fd: ReadDouble, s: string, v: Json)
    ensures ValueAt(fd, s, 0).Ok? && ValueAt(fd, s, 0).value == v <==> Begins(fd, s, v)
  {
    hide At, ValueAt, Text, Denote, Valid, Blank, Ends;
    if ValueAt(fd, s, 0).Ok? && ValueAt(fd, s, 0).value == v {
      var w, t := ValueSound(fd, s, 0);
      var head := w + Text(t);
      AtSlice(s, 0, head);
      assert s == head + s[|head|..];
      EndsRest(t, head, s[|head|..]);
      assert BeginsAs(fd, s, v, w, t, s[|head|..]);
    }
    if w, t, rest :| BeginsAs(fd, s, v, w, t, rest) { TextParses(fd, t, w, rest); }
  }

  /** The input is one text of the grammar, with whitespace around it, that denotes v. */
  predicate IsTextAs(fd: ReadDouble, s: string, v: Json, w: string, t: Tree, after: string) {
    Blank(w) && Valid(fd, t) && Blank(after) && s == w + Text(t) + after && Denote(fd, t) == v
  }

  ghost predicate IsTextOf(fd: ReadDouble, s: string, v: Json) {
    exists w, t, after :: IsTextAs(fd, s, v, w, t, after)
  }

  lemma BlankEnds(t: Tree, after: string)
    requires Blank(after)
    ensures Ends(t, after, 0)
  {
    SeparatorEnds(t, after, 0);
  }

  /** The input is such a text exactly when it parses to v and the parser leaves nothing but whitespace. */
  lemma {:induction false} AcceptsExactlyGrammar(fd: ReadDouble, s: string, v: Json)
    ensures var parse := ValueAt(fd, s, 0);
            parse.Ok? && parse.value == v && Blank(s[parse.pos..]) <==> IsTextOf(fd, s, v)
  {
    hide At, ValueAt, Text, Denote, Valid, Blank, Ends;
    var parse := ValueAt(fd, s, 0);
    if parse.Ok? && parse.value == v && Blank(s[parse.pos..]) {
      var w, t := ValueSound(fd, s, 0);
      var head := w + Text(t);
      AtSlice(s, 0, head);
      assert s == head + s[|head|..];
      assert IsTextAs(fd, s, v, w, t, s[|head|..]);
    }
    if w, t, after :| IsTextAs(fd, s, v, w, t, after) {
      BlankEnds(t, after);
      TextParses(fd, t, w, after);
      assert s[|w + Text(t)|..] == after;
    }
  }

  /** Text after the value is ignored, in strict mode too: the input parses although it is no JSON text. */
  lemma {:induction false} TrailingTextIsIgnored(fd: ReadDouble, t: Tree, w: string, rest: string)
    requires Valid(fd, t) && Blank(w) && Ends(t, rest, 0) && !Blank(rest)
    ensures var s := w + Text(t) + rest;
            && ValueAt(fd, s, 0) == Ok(Denote(fd, t), |w + Text(t)|)
            && forall v :: !IsTextOf(fd, s, v)
  {
    hide ValueAt, Text, Denote, Valid, Blank, Ends, IsTextOf;
    var s := w + Text(t) + rest;
    TextParses(fd, t, w, rest);
    assert s[|w + Text(t)|..] == rest;
    forall v ensures !IsTextOf(fd, s, v) { AcceptsExactlyGrammar(fd, s, v); }
  }

  /** For instance a second closing bracket, or a comment, or a comma after the value. */
  lemma {:induction false} ExtraCloseIsAccepted(fd: ReadDouble, v: Json)
    ensures ValueAt(fd, "[]]", 0) == Ok(Arr([]), 2) && ValueAt(fd, "[],", 0) == Ok(Arr([]), 2)
    ensures !IsTextOf(fd, "[]]", v) && !IsTextOf(fd, "[],", v)
  {
    var t := TArr("", []);
    assert Text(t) == "[]" && "" + "[]" + "]" == "[]]" && "" + "[]" + "," == "[]," && "" + "[]" == "[]";
    assert Valid(fd, t) && Denote(fd, t) == Arr([]) by { DenoteNone(fd); }
    assert !IsSpace("]"[0]) && !IsSpace(","[0]);
    hide ValueAt, Text, Denote, Valid, IsTextOf;
    TrailingTextIsIgnored(fd, t, "", "]");
    TrailingTextIsIgnored(fd, t, "", ",");
  }
}
