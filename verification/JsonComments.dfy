/** Lenient parsing reads through comments. */
module JsonComments {
  // A text of the grammar with comments, free of quotes, wherever whitespace may stand: the comma filter
  // takes at most commas out of the comments, the comment filter takes the comments out, and what is
  // parsed is the text without them.

  import opened JsonGrammar
  import opened JsonParser
  import opened JsonCompleteness
  import opened JsonLenient
  import opened JsonHarmless

  // ---------- whitespace with comments ----------

  datatype Piece = Space(c: char) | Line(text: string) | Block(text: string)

  predicate NoCloser(text: string) {
    forall i | 0 <= i < |text| - 1 :: !(text[i] == '*' && text[i + 1] == '/')
  }

  predicate ValidPiece(p: Piece) {
    match p
    case Space(c) => IsSpace(c)
    case Line(text) => '\"' !in text && '\n' !in text
    case Block(text) => '\"' !in text && NoCloser(text)
  }

  function PieceText(p: Piece): (t: string)
    ensures t != ""
  {
    match p
    case Space(c) => [c]
    case Line(text) => "//" + text + "\n"
    case Block(text) => "/*" + text + "*/"
  }

  /** What the comment filter leaves of a piece. */
  function PieceRest(p: Piece): (t: string) {
    match p
    case Space(c) => [c]
    case Line(_) => "\n"
    case Block(_) => ""
  }

  function GapText(ps: seq<Piece>): (t: string) {
    if ps == [] then "" else PieceText(ps[0]) + GapText(ps[1..])
  }

  function GapRest(ps: seq<Piece>): (t: string) {
    if ps == [] then "" else PieceRest(ps[0]) + GapRest(ps[1..])
  }

  predicate IsGap(ps: seq<Piece>, w: string, blank: string) {
    (forall i | 0 <= i < |ps| :: ValidPiece(ps[i])) && w == GapText(ps) && blank == GapRest(ps)
  }

  /** w is whitespace with comments that leave the whitespace `blank`. */
  ghost predicate Gap(w: string, blank: string) {
    exists ps :: IsGap(ps, w, blank)
  }

  /** u is t with comments in its whitespace. */
  ghost predicate Commented(t: Tree, u: Tree)
    decreases t
  {
    match t
    case TArr(pad, items) =>
      && u.TArr? && |u.items| == |items| && Gap(u.pad, pad)
      && forall i | 0 <= i < |items| :: CommentedItem(items[i], u.items[i])
    case TObj(pad, members) =>
      && u.TObj? && |u.members| == |members| && Gap(u.pad, pad)
      && forall i | 0 <= i < |members| :: CommentedMember(members[i], u.members[i])
    case _ => u == t
  }

  ghost predicate CommentedItem(t: Item, u: Item)
    decreases t
  {
    Gap(u.before, t.before) && Commented(t.value, u.value) && Gap(u.after, t.after)
  }

  ghost predicate CommentedMember(t: Member, u: Member)
    decreases t
  {
    && Gap(u.before, t.before) && u.key == t.key && Gap(u.beforeColon, t.beforeColon)
    && Gap(u.afterColon, t.afterColon) && Commented(t.value, u.value) && Gap(u.after, t.after)
  }

  // ---------- stretches of text the filters carry over ----------

  /** Both filters are outside strings at p, and no backslash stands before it. */
  predicate Outside(s: string, p: nat)
    requires p <= |s|
  {
    !InString(s, p, false) && !InString(s, p, true) && Fresh(s, p)
  }

  /** From p to q the comment filter leaves `out`. */
  predicate Carries(s: string, p: nat, q: nat, out: string) {
    && p <= q <= |s| && Outside(s, p) && Outside(s, q)
    && CommentsFrom(s, p, Code(false)) == out + CommentsFrom(s, q, Code(false))
  }

  lemma {:induction false} CarriesJoin(s: string, p: nat, q: nat, r: nat, a: string, b: string)
    requires Carries(s, p, q, a) && Carries(s, q, r, b)
    ensures Carries(s, p, r, a + b)
  {
    hide Outside, CommentsFrom, IsTrailing, InString;
    assert a + (b + CommentsFrom(s, r, Code(false))) == a + b + CommentsFrom(s, r, Code(false));
  }

  lemma CarriesEnds(s: string, p: nat, q: nat, out: string)
    requires Carries(s, p, q, out)
    ensures p <= q <= |s| && Outside(s, p) && Outside(s, q)
  {
  }

  lemma {:induction false} CarriesNothing(s: string, p: nat)
    requires p <= |s| && Outside(s, p)
    ensures Carries(s, p, p, "")
  {
    hide CommentsFrom;
    assert "" + CommentsFrom(s, p, Code(false)) == CommentsFrom(s, p, Code(false));
  }

  /** Where a filter finds nothing to do it copies. */
  lemma {:induction false} QuietCopies(s: string, p: nat, q: nat, i: nat)
    requires Quiet(s, p, q, true) && p <= i <= q
    ensures CommentsFrom(s, i, Code(InString(s, i, true))) == s[i..q] + CommentsFrom(s, q, Code(false))
    decreases q - i
  {
    hide CommentsFrom, InString, IsTrailing;
    if i == q {
      assert s[i..q] == "";
      assert "" + CommentsFrom(s, q, Code(false)) == CommentsFrom(s, q, Code(false));
    } else {
      assert QuietAt(s, i, true);
      CommentsHead(s, i);
      QuietCopies(s, p, q, i + 1);
      assert s[i..q] == [s[i]] + s[i + 1..q];
    }
  }

  lemma {:induction false} QuietCarries(s: string, p: nat, q: nat)
    requires Quiet(s, p, q, false) && Quiet(s, p, q, true) && Fresh(s, p) && Fresh(s, q)
    ensures Carries(s, p, q, s[p..q])
  {
    hide CommentsFrom, IsTrailing, InString;
    QuietCopies(s, p, q, p);
  }

  lemma {:induction false} CharCarries(s: string, p: nat)
    requires p < |s| && Outside(s, p) && s[p] != '\"' && s[p] != '/' && s[p] != '\\'
    ensures Carries(s, p, p + 1, [s[p]])
  {
    hide CommentsFrom;
    CommentsHead(s, p);
  }

  // ---------- comments ----------

  lemma {:induction false} NoQuotesOutside(s: string, p: nat, q: nat)
    requires p <= q <= |s| && !InString(s, p, false) && !InString(s, p, true)
    requires forall i | p <= i < q :: s[i] != '\"'
    ensures !InString(s, q, false) && !InString(s, q, true)
  {
    hide InString;
    NoToggleKeeps(s, p, q, false);
    NoToggleKeeps(s, p, q, true);
  }

  lemma {:induction false} LineSkipped(s: string, i: nat, q: nat)
    requires i <= q < |s| && s[q] == '\n' && forall k | i <= k < q :: s[k] != '\n'
    ensures CommentsFrom(s, i, LineComment(false)) == "\n" + CommentsFrom(s, q + 1, Code(false))
    decreases q - i
  {
    if i < q { LineSkipped(s, i + 1, q); }
  }

  lemma {:induction false} BlockSkipped(s: string, i: nat, q: nat)
    requires i <= q && q + 1 < |s| && s[q] == '*' && s[q + 1] == '/'
    requires forall k | i <= k < q :: !(s[k] == '*' && s[k + 1] == '/')
    ensures CommentsFrom(s, i, BlockComment(false)) == CommentsFrom(s, q + 2, Code(false))
    decreases q - i
  {
    if i < q {
      BlockSkipped(s, i + 1, q);
    }
  }

  lemma {:induction false} AtPieces(s: string, p: nat, open: string, text: string, close: string)
    requires At(s, p, open + text + close) && |open| == 2
    ensures p + 2 + |text| + |close| <= |s|
    ensures s[p] == open[0] && s[p + 1] == open[1]
    ensures forall k | p + 2 <= k < p + 2 + |text| :: s[k] == text[k - p - 2]
    ensures forall k | p + 2 + |text| <= k < p + 2 + |text| + |close| :: s[k] == close[k - p - 2 - |text|]
  {
    AtConcat3(s, p, open, text, close);
    assert s[p + 0] == open[0] && s[p + 1] == open[1];
    assert forall k | p + 2 <= k < p + 2 + |text| :: s[k] == s[p + 2 + (k - p - 2)];
    assert forall k | p + 2 + |text| <= k < p + 2 + |text| + |close| :: s[k] == s[p + 2 + |text| + (k - p - 2 - |text|)];
  }

  lemma {:induction false} LineTaken(s: string, p: nat, q: nat)
    requires p + 2 <= q < |s| && s[p] == '/' && s[p + 1] == '/' && s[q] == '\n'
    requires forall k | p + 2 <= k < q :: s[k] != '\n'
    ensures CommentsFrom(s, p, Code(false)) == "\n" + CommentsFrom(s, q + 1, Code(false))
  {
    LineSkipped(s, p + 2, q);
    var rest := CommentsFrom(s, p + 2, LineComment(false));
    assert CommentMove(s, p, Code(false)) == Move(LineComment(false), 2, "");
    assert CommentsFrom(s, p, Code(false)) == "" + rest;
  }

  lemma {:induction false} BlockTaken(s: string, p: nat, q: nat)
    requires p + 2 <= q && q + 1 < |s| && s[p] == '/' && s[p + 1] == '*' && s[q] == '*' && s[q + 1] == '/'
    requires forall k | p + 2 <= k < q :: !(s[k] == '*' && s[k + 1] == '/')
    ensures CommentsFrom(s, p, Code(false)) == "" + CommentsFrom(s, q + 2, Code(false))
  {
    BlockSkipped(s, p + 2, q);
    var rest := CommentsFrom(s, p + 2, BlockComment(false));
    assert CommentMove(s, p, Code(false)) == Move(BlockComment(false), 2, "");
    assert CommentsFrom(s, p, Code(false)) == "" + rest;
  }

  lemma {:induction false} LineCarries(s: string, p: nat, text: string)
    requires ValidPiece(Line(text)) && At(s, p, "//" + text + "\n") && p <= |s| && Outside(s, p)
    ensures Carries(s, p, p + |text| + 3, "\n")
  {
    hide InString, At, CommentsFrom;
    AtPieces(s, p, "//", text, "\n");
    var q := p + 2 + |text|;
    LineTaken(s, p, q);
    NoQuotesOutside(s, p, q + 1);
  }

  lemma {:induction false} BlockCarries(s: string, p: nat, text: string)
    requires ValidPiece(Block(text)) && At(s, p, "/*" + text + "*/") && p <= |s| && Outside(s, p)
    ensures Carries(s, p, p + |text| + 4, "")
  {
    hide InString, At, CommentsFrom;
    AtPieces(s, p, "/*", text, "*/");
    var q := p + 2 + |text|;
    forall k | p + 2 <= k < q ensures !(s[k] == '*' && s[k + 1] == '/') {
      if k + 1 < q { assert s[k + 1] == text[k + 1 - p - 2]; } else { assert s[k + 1] == '*'; }
    }
    BlockTaken(s, p, q);
    NoQuotesOutside(s, p, q + 2);
  }

  lemma {:induction false} PieceCarries(piece: Piece, s: string, p: nat)
    requires ValidPiece(piece) && At(s, p, PieceText(piece)) && p <= |s| && Outside(s, p)
    ensures Carries(s, p, p + |PieceText(piece)|, PieceRest(piece))
  {
    hide At, Outside, Carries;
    match piece
    case Space(c) =>
      AtHead(s, p, [c]);
      CharCarries(s, p);
    case Line(text) => LineCarries(s, p, text);
    case Block(text) => BlockCarries(s, p, text);
  }

  lemma {:induction false} PiecesCarry(ps: seq<Piece>, s: string, p: nat)
    requires (forall i | 0 <= i < |ps| :: ValidPiece(ps[i])) && At(s, p, GapText(ps)) && p <= |s| && Outside(s, p)
    ensures Carries(s, p, p + |GapText(ps)|, GapRest(ps))
    decreases |ps|
  {
    hide At, Outside, Carries, ValidPiece, PieceText, PieceRest;
    if ps == [] {
      CarriesNothing(s, p);
    } else {
      AtConcat(s, p, PieceText(ps[0]), GapText(ps[1..]));
      PieceCarries(ps[0], s, p);
      var q := p + |PieceText(ps[0])|;
      CarriesEnds(s, p, q, PieceRest(ps[0]));
      PiecesCarry(ps[1..], s, q);
      CarriesJoin(s, p, q, q + |GapText(ps[1..])|, PieceRest(ps[0]), GapRest(ps[1..]));
    }
  }

  lemma {:induction false} GapCarries(w: string, blank: string, s: string, p: nat)
    requires Gap(w, blank) && At(s, p, w) && p <= |s| && Outside(s, p)
    ensures Carries(s, p, p + |w|, blank)
  {
    hide At, Outside, Carries, GapText, GapRest;
    var ps :| IsGap(ps, w, blank);
    PiecesCarry(ps, s, p);
  }

  /** After whitespace and comments the first character that is no space is not a closing bracket. */
  lemma {:induction false} NoCloserAhead(ps: seq<Piece>, s: string, p: nat)
    requires (forall i | 0 <= i < |ps| :: ValidPiece(ps[i])) && At(s, p, GapText(ps))
    requires p + |GapText(ps)| < |s| && !IsSpace(s[p + |GapText(ps)|]) && !Closes(s[p + |GapText(ps)|])
    ensures SkipSpace(s, p) < |s| && !Closes(s[SkipSpace(s, p)])
    decreases |ps|
  {
    hide At, PieceText, ValidPiece;
    if ps != [] {
      AtConcat(s, p, PieceText(ps[0]), GapText(ps[1..]));
      AtHead(s, p, PieceText(ps[0]));
      assert ValidPiece(ps[0]);
      PieceHead(ps[0]);
      if ps[0].Space? { NoCloserAhead(ps[1..], s, p + 1); }
    }
  }

  lemma PieceHead(piece: Piece)
    requires ValidPiece(piece)
    ensures if piece.Space? then IsSpace(PieceText(piece)[0]) && |PieceText(piece)| == 1 else PieceText(piece)[0] == '/'
  {
  }

  lemma {:induction false} CommaBeforeGap(w: string, blank: string, s: string, r: nat)
    requires Gap(w, blank) && r < |s| && At(s, r + 1, w)
    requires r + 1 + |w| < |s| && !IsSpace(s[r + 1 + |w|]) && !Closes(s[r + 1 + |w|])
    ensures !IsTrailing(s, r)
  {
    hide At, GapText, GapRest, SkipSpace;
    var ps :| IsGap(ps, w, blank);
    NoCloserAhead(ps, s, r + 1);
  }

  // ---------- trees ----------

  lemma {:induction false} SameStart(fd: ReadDouble, t: Tree, u: Tree)
    requires Valid(fd, t) && Commented(t, u)
    ensures Text(u) != "" && !IsSpace(Text(u)[0]) && !Closes(Text(u)[0])
  {
    hide ItemsText, MembersText, Gap;
    TextStart(fd, t);
    match t
    case TArr(_, _) => assert Text(u)[0] == '[';
    case TObj(_, _) => assert Text(u)[0] == '{';
    case _ =>
  }

  lemma {:induction false} LeafCarries(fd: ReadDouble, t: Tree, s: string, p: nat)
    requires Valid(fd, t) && CleanTree(t) && At(s, p, Text(t)) && p <= |s| && Outside(s, p)
    ensures Carries(s, p, p + |Text(t)|, Text(t))
  {
    hide Valid, CleanTree, At, Text, Quiet, InString, Fresh, Carries;
    TreeQuiet(fd, t, s, p, false);
    TreeQuiet(fd, t, s, p, true);
    TextFresh(fd, t, s, p);
    QuietEnds(s, p, p + |Text(t)|, true);
    QuietCarries(s, p, p + |Text(t)|);
    AtSlice(s, p, Text(t));
  }

  lemma {:induction false} TreeCarries(fd: ReadDouble, t: Tree, u: Tree, s: string, p: nat)
    requires Valid(fd, t) && CleanTree(t) && Commented(t, u) && At(s, p, Text(u)) && p <= |s| && Outside(s, p)
    ensures Carries(s, p, p + |Text(u)|, Text(t))
    decreases t, 1
  {
    hide At, Outside, Carries;
    match t
    case TArr(_, _) => ArrayCarries(fd, t, u, s, p);
    case TObj(_, _) => ObjectCarries(fd, t, u, s, p);
    case _ => LeafCarries(fd, t, s, p);
  }

  /** A bracket, a comma, a colon. */
  lemma {:induction false} MarkCarries(s: string, p: nat, c: char)
    requires p < |s| && Outside(s, p) && s[p] == c && c in "[]{}:,"
    ensures Carries(s, p, p + 1, [c]) && Outside(s, p + 1)
  {
    hide Outside, Carries;
    CharCarries(s, p);
    CarriesEnds(s, p, p + 1, [c]);
  }

  lemma {:induction false} EmptyCarries(s: string, p: nat, w: string, blank: string, close: char)
    requires Gap(w, blank) && At(s, p, w + [close]) && p <= |s| && Outside(s, p) && Closes(close)
    ensures Carries(s, p, p + |w| + 1, blank + [close])
  {
    hide Outside, Carries, At, Gap;
    AtConcat(s, p, w, [close]);
    GapCarries(w, blank, s, p);
    var q := p + |w|;
    CarriesEnds(s, p, q, blank);
    AtHead(s, q, [close]);
    MarkCarries(s, q, close);
    CarriesJoin(s, p, q, q + 1, blank, [close]);
  }

  lemma {:induction false} ArrayCarries(fd: ReadDouble, t: Tree, u: Tree, s: string, p: nat)
    requires t.TArr? && Valid(fd, t) && CleanTree(t) && Commented(t, u) && At(s, p, Text(u)) && p <= |s| && Outside(s, p)
    ensures Carries(s, p, p + |Text(u)|, Text(t))
    decreases t, 0
  {
    hide At, Outside, Carries, ItemsText, Gap, ValidItem, CleanItem, CommentedItem;
    var rest := if u.items == [] then u.pad + "]" else ItemsText(u.items);
    var out := if t.items == [] then t.pad + "]" else ItemsText(t.items);
    AtConcat(s, p, "[", rest);
    AtHead(s, p, "[");
    MarkCarries(s, p, '[');
    if t.items == [] {
      EmptyCarries(s, p + 1, u.pad, t.pad, ']');
    } else {
      ItemsCarry(fd, t.items, u.items, s, p + 1);
    }
    CarriesJoin(s, p, p + 1, p + |Text(u)|, "[", out);
  }

  /** An item or a member's value with the whitespace around it, and what comes before the comma. */
  lemma {:induction false} ValueCarries(fd: ReadDouble, t: Item, u: Item, s: string, p: nat)
    requires ValidItem(fd, t) && CleanItem(t) && CommentedItem(t, u)
    requires At(s, p, u.before + Text(u.value)) && At(s, p + |u.before + Text(u.value)|, u.after) && p <= |s| && Outside(s, p)
    ensures var r := p + |u.before + Text(u.value)| + |u.after|;
            Carries(s, p, r, t.before + Text(t.value) + t.after) && r <= |s| && Outside(s, r)
    decreases t
  {
    hide At, Outside, Carries, Text, Gap, Valid, CleanTree, Commented;
    AtConcat(s, p, u.before, Text(u.value));
    GapCarries(u.before, t.before, s, p);
    var q := p + |u.before|;
    CarriesEnds(s, p, q, t.before);
    TreeCarries(fd, t.value, u.value, s, q);
    var r := q + |Text(u.value)|;
    CarriesEnds(s, q, r, Text(t.value));
    GapCarries(u.after, t.after, s, r);
    CarriesEnds(s, r, r + |u.after|, t.after);
    CarriesJoin(s, p, q, r, t.before, Text(t.value));
    CarriesJoin(s, p, r, r + |u.after|, t.before + Text(t.value), t.after);
  }

  lemma {:induction false} ItemsCarry(fd: ReadDouble, ts: seq<Item>, us: seq<Item>, s: string, p: nat)
    requires ts != [] && |us| == |ts| && forall i | 0 <= i < |ts| :: ValidItem(fd, ts[i]) && CleanItem(ts[i])
    requires forall i | 0 <= i < |ts| :: CommentedItem(ts[i], us[i])
    requires At(s, p, ItemsText(us)) && p <= |s| && Outside(s, p)
    ensures Carries(s, p, p + |ItemsText(us)|, ItemsText(ts))
    decreases ts, 0
  {
    hide At, Outside, Carries, Text, Gap, Valid, CleanTree, Commented;
    var t, u := ts[0], us[0];
    assert ValidItem(fd, t) && CleanItem(t) && CommentedItem(t, u);
    ItemsTextUnfold(us, s, p);
    ValueCarries(fd, t, u, s, p);
    var r := p + |u.before + Text(u.value)| + |u.after|;
    var head := t.before + Text(t.value) + t.after;
    if |ts| == 1 {
      MarkCarries(s, r, ']');
      CarriesJoin(s, p, r, r + 1, head, "]");
    } else {
      assert us[1..][0] == us[1] && ts[1..][0] == ts[1];
      MarkCarries(s, r, ',');
      ItemsCarry(fd, ts[1..], us[1..], s, r + 1);
      CarriesJoin(s, p, r, r + 1, head, ",");
      CarriesJoin(s, p, r + 1, p + |ItemsText(us)|, head + ",", ItemsText(ts[1..]));
      assert head + ("," + ItemsText(ts[1..])) == head + "," + ItemsText(ts[1..]);
    }
  }

  lemma {:induction false} NextItem(fd: ReadDouble, t: Item, us: seq<Item>, s: string, r: nat)
    requires us != [] && ValidItem(fd, t) && CommentedItem(t, us[0]) && r < |s| && At(s, r + 1, ItemsText(us))
    ensures !IsTrailing(s, r)
  {
    hide At, Text, Gap, Valid, Commented, IsTrailing, ItemsText;
    ItemsTextUnfold(us, s, r + 1);
    AtConcat(s, r + 1, us[0].before, Text(us[0].value));
    SameStart(fd, t.value, us[0].value);
    AtHead(s, r + 1 + |us[0].before|, Text(us[0].value));
    CommaBeforeGap(us[0].before, t.before, s, r);
  }

  // ---------- objects ----------

  lemma {:induction false} KeyCarries(es: seq<Elem>, s: string, p: nat)
    requires ValidElems(es) && CleanElems(es) && At(s, p, StringText(es)) && p <= |s| && Outside(s, p)
    ensures Carries(s, p, p + |StringText(es)|, StringText(es))
  {
    hide ValidElems, CleanElems, At, StringText, Quiet, InString, Carries;
    StringQuiet(es, s, p, false);
    StringQuiet(es, s, p, true);
    StringFresh(es, s, p);
    QuietCarries(s, p, p + |StringText(es)|);
    AtSlice(s, p, StringText(es));
  }

  lemma {:induction false} HeadCarries(fd: ReadDouble, t: Member, u: Member, s: string, p: nat)
    requires ValidMember(fd, t) && CleanMember(t) && CommentedMember(t, u)
    requires At(s, p, MemberHead(u)) && p <= |s| && Outside(s, p)
    ensures Carries(s, p, p + |MemberHead(u)|, MemberHead(t)) && p + |MemberHead(u)| <= |s| && Outside(s, p + |MemberHead(u)|)
  {
    hide At, Outside, Carries, Gap, StringText, Valid, ValidElems, CleanElems, CleanTree, Commented;
    var key := StringText(t.key);
    AtConcat(s, p, u.before + key + u.beforeColon + ":", u.afterColon);
    AtConcat(s, p, u.before + key + u.beforeColon, ":");
    AtConcat3(s, p, u.before, key, u.beforeColon);
    GapCarries(u.before, t.before, s, p);
    var q := p + |u.before|;
    CarriesEnds(s, p, q, t.before);
    KeyCarries(t.key, s, q);
    var r := q + |key|;
    CarriesEnds(s, q, r, key);
    ColonCarries(t, u, s, r);
    CarriesJoin(s, p, q, r, t.before, key);
    var colon := t.beforeColon + ":" + t.afterColon;
    CarriesJoin(s, p, r, p + |MemberHead(u)|, t.before + key, colon);
    assert t.before + key + colon == MemberHead(t);
  }

  lemma {:induction false} ColonCarries(t: Member, u: Member, s: string, p: nat)
    requires Gap(u.beforeColon, t.beforeColon) && Gap(u.afterColon, t.afterColon) && p <= |s| && Outside(s, p)
    requires At(s, p, u.beforeColon) && At(s, p + |u.beforeColon|, ":") && At(s, p + |u.beforeColon| + 1, u.afterColon)
    ensures var q := p + |u.beforeColon| + 1 + |u.afterColon|;
            Carries(s, p, q, t.beforeColon + ":" + t.afterColon) && q <= |s| && Outside(s, q)
  {
    hide At, Outside, Carries, Gap;
    GapCarries(u.beforeColon, t.beforeColon, s, p);
    var q := p + |u.beforeColon|;
    CarriesEnds(s, p, q, t.beforeColon);
    AtHead(s, q, ":");
    MarkCarries(s, q, ':');
    GapCarries(u.afterColon, t.afterColon, s, q + 1);
    CarriesEnds(s, q + 1, q + 1 + |u.afterColon|, t.afterColon);
    CarriesJoin(s, p, q, q + 1, t.beforeColon, ":");
    CarriesJoin(s, p, q + 1, q + 1 + |u.afterColon|, t.beforeColon + ":", t.afterColon);
  }

  lemma {:induction false} ObjectCarries(fd: ReadDouble, t: Tree, u: Tree, s: string, p: nat)
    requires t.TObj? && Valid(fd, t) && CleanTree(t) && Commented(t, u) && At(s, p, Text(u)) && p <= |s| && Outside(s, p)
    ensures Carries(s, p, p + |Text(u)|, Text(t))
    decreases t, 0
  {
    hide At, Outside, Carries, MembersText, Gap, ValidMember, CleanMember, CommentedMember;
    var rest := if u.members == [] then u.pad + "}" else MembersText(u.members);
    var out := if t.members == [] then t.pad + "}" else MembersText(t.members);
    AtConcat(s, p, "{", rest);
    AtHead(s, p, "{");
    MarkCarries(s, p, '{');
    if t.members == [] {
      EmptyCarries(s, p + 1, u.pad, t.pad, '}');
    } else {
      MembersCarry(fd, t.members, u.members, s, p + 1);
    }
    CarriesJoin(s, p, p + 1, p + |Text(u)|, "{", out);
  }

  lemma {:induction false} MemberCarries(fd: ReadDouble, t: Member, u: Member, s: string, p: nat)
    requires ValidMember(fd, t) && CleanMember(t) && CommentedMember(t, u)
    requires At(s, p, MemberHead(u) + Text(u.value)) && At(s, p + |MemberHead(u) + Text(u.value)|, u.after)
    requires p <= |s| && Outside(s, p)
    ensures var r := p + |MemberHead(u) + Text(u.value)| + |u.after|;
            Carries(s, p, r, MemberHead(t) + Text(t.value) + t.after) && r <= |s| && Outside(s, r)
    decreases t
  {
    hide At, Outside, Carries, Text, Gap, Valid, CleanTree, Commented, MemberHead, ValidElems, CleanElems;
    AtConcat(s, p, MemberHead(u), Text(u.value));
    HeadCarries(fd, t, u, s, p);
    var q := p + |MemberHead(u)|;
    TreeCarries(fd, t.value, u.value, s, q);
    var r := q + |Text(u.value)|;
    CarriesEnds(s, q, r, Text(t.value));
    GapCarries(u.after, t.after, s, r);
    CarriesEnds(s, r, r + |u.after|, t.after);
    CarriesJoin(s, p, q, r, MemberHead(t), Text(t.value));
    CarriesJoin(s, p, r, r + |u.after|, MemberHead(t) + Text(t.value), t.after);
  }

  lemma {:induction false} MembersCarry(fd: ReadDouble, ts: seq<Member>, us: seq<Member>, s: string, p: nat)
    requires ts != [] && |us| == |ts| && forall i | 0 <= i < |ts| :: ValidMember(fd, ts[i]) && CleanMember(ts[i])
    requires forall i | 0 <= i < |ts| :: CommentedMember(ts[i], us[i])
    requires At(s, p, MembersText(us)) && p <= |s| && Outside(s, p)
    ensures Carries(s, p, p + |MembersText(us)|, MembersText(ts))
    decreases ts, 0
  {
    hide At, Outside, Carries, Text, Gap, ValidMember, CleanMember, CommentedMember, MemberHead;
    var t, u := ts[0], us[0];
    assert ValidMember(fd, t) && CleanMember(t) && CommentedMember(t, u);
    MembersTextUnfold(us, s, p);
    MemberCarries(fd, t, u, s, p);
    var r := p + |MemberHead(u) + Text(u.value)| + |u.after|;
    var head := MemberHead(t) + Text(t.value) + t.after;
    if |ts| == 1 {
      MarkCarries(s, r, '}');
      CarriesJoin(s, p, r, r + 1, head, "}");
    } else {
      assert us[1..][0] == us[1] && ts[1..][0] == ts[1];
      MarkCarries(s, r, ',');
      MembersCarry(fd, ts[1..], us[1..], s, r + 1);
      CarriesJoin(s, p, r, r + 1, head, ",");
      CarriesJoin(s, p, r + 1, p + |MembersText(us)|, head + ",", MembersText(ts[1..]));
      assert head + ("," + MembersText(ts[1..])) == head + "," + MembersText(ts[1..]);
    }
  }

  lemma {:induction false} NextMember(fd: ReadDouble, t: Member, us: seq<Member>, s: string, r: nat)
    requires us != [] && ValidMember(fd, t) && CommentedMember(t, us[0]) && r < |s| && At(s, r + 1, MembersText(us))
    ensures !IsTrailing(s, r)
  {
    hide At, Text, Gap, Valid, Commented, IsTrailing, MembersText, BodyText, ValidElems;
    var u := us[0];
    MembersTextUnfold(us, s, r + 1);
    var rest := u.beforeColon + ":" + u.afterColon + Text(u.value);
    assert MemberHead(u) + Text(u.value) == u.before + StringText(u.key) + rest;
    AtConcat3(s, r + 1, u.before, StringText(u.key), rest);
    AtHead(s, r + 1 + |u.before|, StringText(u.key));
    CommaBeforeGap(u.before, t.before, s, r);
  }

  // ---------- the comma filter takes at most commas out of comments ----------

  /** Through a stretch in which it finds nothing to do, the comma filter copies. */
  lemma {:induction false} TailCopies(s: string, p: nat, q: nat, i: nat, f: Flags) returns (g: Flags)
    requires Quiet(s, p, q, false) && p <= i <= q && f.inString == InString(s, i, false)
    ensures TailFrom(s, i, f) == s[i..q] + TailFrom(s, q, g) && !g.inString
    decreases q - i
  {
    hide IsTrailing, TailFrom, InString;
    if i == q {
      g := f;
      assert s[i..q] + TailFrom(s, q, g) == TailFrom(s, q, g);
    } else {
      assert QuietAt(s, i, false);
      AdvanceFollows(s, i, f);
      g := TailCopies(s, p, q, i + 1, Advance(s, i, f));
      TailStep(s, i, f, "");
      assert "" + TailFrom(s, i, f) == TailFrom(s, i, f) && "" + [s[i]] == [s[i]];
      assert s[i..q] == [s[i]] + s[i + 1..q];
    }
  }

  lemma AdvanceFollows(s: string, i: nat, f: Flags)
    requires i < |s| && f.inString == InString(s, i, false)
    ensures Advance(s, i, f).inString == InString(s, i + 1, false)
    ensures s[i] != '\"' ==> Advance(s, i, f).inString == f.inString
  {
  }

  /** A character that is no quote and no trailing comma is copied. */
  lemma {:induction false} CharCopied(s: string, i: nat, f: Flags) returns (g: Flags)
    requires i < |s| && !f.inString && s[i] != '\"' && (s[i] == ',' ==> !IsTrailing(s, i))
    ensures TailFrom(s, i, f) == [s[i]] + TailFrom(s, i + 1, g) && !g.inString
  {
    hide IsTrailing, TailFrom;
    g := Advance(s, i, f);
    TailStep(s, i, f, "");
    assert "" + TailFrom(s, i, f) == TailFrom(s, i, f) && "" + [s[i]] == [s[i]];
  }

  /** A comment's text loses commas at most, and no block closer arises. */
  lemma {:induction false} TextThins(s: string, p: nat, q: nat, f: Flags) returns (out: string, g: Flags)
    requires p <= q <= |s| && !f.inString && forall i | p <= i < q :: s[i] != '\"'
    ensures TailFrom(s, p, f) == out + TailFrom(s, q, g) && !g.inString
    ensures forall c :: c in out ==> c in s[p..q]
    ensures out != "" && out[0] == '/' ==> p < q && s[p] == '/'
    ensures NoCloser(s[p..q]) ==> NoCloser(out)
    decreases q - p
  {
    hide TailFrom, IsTrailing, NoCloser;
    NoCloserEmpty();
    if p == q {
      out, g := "", f;
      assert "" + TailFrom(s, q, g) == TailFrom(s, q, g);
    } else {
      var h := Advance(s, p, f);
      var rest: string;
      rest, g := TextThins(s, p + 1, q, h);
      assert s[p..q] == [s[p]] + s[p + 1..q];
      NoCloserCons(s[p], s[p + 1..q]);
      NoCloserCons(s[p], rest);
      TailStep(s, p, f, "");
      assert "" + TailFrom(s, p, f) == TailFrom(s, p, f) && "" + [s[p]] == [s[p]] && "" + TailFrom(s, p + 1, h) == TailFrom(s, p + 1, h);
      if Drops(s, p, h) {
        out := rest;
        DroppedBefore(s, p);
      } else {
        out := [s[p]] + rest;
        assert [s[p]] + (rest + TailFrom(s, q, g)) == out + TailFrom(s, q, g);
      }
    }
  }

  lemma NoCloserEmpty()
    ensures NoCloser("")
  {
  }

  lemma NoCloserCons(c: char, t: string)
    ensures NoCloser([c] + t) <==> NoCloser(t) && !(c == '*' && t != "" && t[0] == '/')
  {
    var u := [c] + t;
    if NoCloser(u) {
      forall i | 0 <= i < |t| - 1 ensures !(t[i] == '*' && t[i + 1] == '/') { assert u[i + 1] == t[i] && u[i + 2] == t[i + 1]; }
      if t != "" { assert u[0] == c && u[1] == t[0]; }
    }
    if NoCloser(t) && !(c == '*' && t != "" && t[0] == '/') {
      forall i | 0 <= i < |u| - 1 ensures !(u[i] == '*' && u[i + 1] == '/') {
        if i > 0 { assert u[i] == t[i - 1] && u[i + 1] == t[i]; }
      }
    }
  }

  /** A slash does not follow a trailing comma. */
  lemma DroppedBefore(s: string, p: nat)
    requires p < |s| && s[p] == ',' && IsTrailing(s, p)
    ensures p + 1 < |s| && s[p + 1] != '/'
  {
  }

  lemma Three(a: string, b: string, c: string, d: string)
    ensures a + (b + (c + d)) == (a + b + c) + d
  {
  }

  lemma {:induction false} PieceThins(piece: Piece, s: string, p: nat, f: Flags) returns (thin: Piece, g: Flags)
    requires ValidPiece(piece) && At(s, p, PieceText(piece)) && p <= |s| && !f.inString
    ensures ValidPiece(thin) && PieceRest(thin) == PieceRest(piece) && !g.inString
    ensures TailFrom(s, p, f) == PieceText(thin) + TailFrom(s, p + |PieceText(piece)|, g)
  {
    hide TailFrom, NoCloser, At;
    match piece
    case Space(c) =>
      AtHead(s, p, [c]);
      g := CharCopied(s, p, f);
      thin := piece;
    case Line(text) =>
      var out: string;
      out, g := CommentThins(s, p, "//", text, "\n", f);
      thin := Line(out);
    case Block(text) =>
      var out: string;
      out, g := CommentThins(s, p, "/*", text, "*/", f);
      thin := Block(out);
  }

  lemma {:induction false} CommentThins(s: string, p: nat, open: string, text: string, close: string, f: Flags)
    returns (out: string, g: Flags)
    requires At(s, p, open + text + close) && p <= |s| && !f.inString && '\"' !in text
    requires (open == "//" && close == "\n") || (open == "/*" && close == "*/")
    ensures TailFrom(s, p, f) == open + out + close + TailFrom(s, p + |open + text + close|, g) && !g.inString
    ensures forall c :: c in out ==> c in text
    ensures NoCloser(text) ==> NoCloser(out)
  {
    hide TailFrom, NoCloser, At, IsTrailing;
    AtPieces(s, p, open, text, close);
    var q := p + 2 + |text|;
    assert s[p + 2..q] == text;
    var h := TwoCopied(s, p, open, f);
    out, h := TextThins(s, p + 2, q, h);
    g := CloseCopied(s, q, close, h);
    Three(open, out, close, TailFrom(s, q + |close|, g));
  }

  lemma {:induction false} CloseCopied(s: string, q: nat, close: string, f: Flags) returns (g: Flags)
    requires close == "\n" || close == "*/"
    requires q + |close| <= |s| && !f.inString && forall k | q <= k < q + |close| :: s[k] == close[k - q]
    ensures TailFrom(s, q, f) == close + TailFrom(s, q + |close|, g) && !g.inString
  {
    hide TailFrom;
    if close == "\n" {
      g := CharCopied(s, q, f);
      assert [s[q]] == close;
    } else {
      assert s[q + 1] == close[1];
      g := TwoCopied(s, q, close, f);
    }
  }

  lemma {:induction false} TwoCopied(s: string, p: nat, two: string, f: Flags) returns (g: Flags)
    requires p + 2 <= |s| && |two| == 2 && s[p] == two[0] && s[p + 1] == two[1] && !f.inString
    requires two[0] != '\"' && two[0] != ',' && two[1] != '\"' && two[1] != ','
    ensures TailFrom(s, p, f) == two + TailFrom(s, p + 2, g) && !g.inString
  {
    hide TailFrom;
    var h := CharCopied(s, p, f);
    g := CharCopied(s, p + 1, h);
    assert two == [s[p]] + [s[p + 1]];
    assert [s[p]] + ([s[p + 1]] + TailFrom(s, p + 2, g)) == two + TailFrom(s, p + 2, g);
  }

  lemma {:induction false} PiecesThin(ps: seq<Piece>, s: string, p: nat, f: Flags) returns (thin: seq<Piece>, g: Flags)
    requires (forall i | 0 <= i < |ps| :: ValidPiece(ps[i])) && At(s, p, GapText(ps)) && p <= |s| && !f.inString
    ensures (forall i | 0 <= i < |thin| :: ValidPiece(thin[i])) && GapRest(thin) == GapRest(ps) && !g.inString
    ensures TailFrom(s, p, f) == GapText(thin) + TailFrom(s, p + |GapText(ps)|, g)
    decreases |ps|
  {
    hide TailFrom, At, ValidPiece, PieceText, PieceRest;
    if ps == [] {
      thin, g := [], f;
      assert "" + TailFrom(s, p, g) == TailFrom(s, p, g);
    } else {
      AtConcat(s, p, PieceText(ps[0]), GapText(ps[1..]));
      AtBound(s, p + |PieceText(ps[0])|, GapText(ps[1..]));
      var head, h := PieceThins(ps[0], s, p, f);
      var rest: seq<Piece>;
      rest, g := PiecesThin(ps[1..], s, p + |PieceText(ps[0])|, h);
      thin := [head] + rest;
      assert thin[1..] == rest;
      Concat3(PieceText(head), GapText(rest), TailFrom(s, p + |GapText(ps)|, g));
    }
  }

  lemma {:induction false} GapThins(w: string, blank: string, s: string, p: nat, f: Flags) returns (thin: string, g: Flags)
    requires Gap(w, blank) && At(s, p, w) && p <= |s| && !f.inString
    ensures Gap(thin, blank) && TailFrom(s, p, f) == thin + TailFrom(s, p + |w|, g) && !g.inString
  {
    hide TailFrom, At, GapText, GapRest;
    var ps :| IsGap(ps, w, blank);
    var qs: seq<Piece>;
    qs, g := PiecesThin(ps, s, p, f);
    thin := GapText(qs);
    assert IsGap(qs, thin, blank);
  }

  lemma {:induction false} QuietThins(s: string, p: nat, q: nat, f: Flags) returns (g: Flags)
    requires Quiet(s, p, q, false) && !f.inString
    ensures TailFrom(s, p, f) == s[p..q] + TailFrom(s, q, g) && !g.inString
  {
    hide TailFrom;
    g := TailCopies(s, p, q, p, f);
  }

  lemma {:induction false} LeafThins(fd: ReadDouble, t: Tree, s: string, p: nat, f: Flags) returns (g: Flags)
    requires Valid(fd, t) && CleanTree(t) && At(s, p, Text(t)) && p <= |s| && Outside(s, p) && !f.inString
    ensures TailFrom(s, p, f) == Text(t) + TailFrom(s, p + |Text(t)|, g) && !g.inString
  {
    hide Valid, CleanTree, At, Text, Quiet, InString, Fresh, TailFrom;
    TreeQuiet(fd, t, s, p, false);
    QuietEnds(s, p, p + |Text(t)|, false);
    g := QuietThins(s, p, p + |Text(t)|, f);
    AtSlice(s, p, Text(t));
  }

  lemma {:induction false} TreeThins(fd: ReadDouble, t: Tree, u: Tree, s: string, p: nat, f: Flags) returns (v: Tree, g: Flags)
    requires Valid(fd, t) && CleanTree(t) && Commented(t, u) && At(s, p, Text(u)) && p <= |s| && Outside(s, p) && !f.inString
    ensures Commented(t, v) && TailFrom(s, p, f) == Text(v) + TailFrom(s, p + |Text(u)|, g) && !g.inString
    decreases t, 1
  {
    hide At, Outside, TailFrom;
    match t
    case TArr(_, _) => v, g := ArrayThins(fd, t, u, s, p, f);
    case TObj(_, _) => v, g := ObjectThins(fd, t, u, s, p, f);
    case _ => v := t; g := LeafThins(fd, t, s, p, f);
  }

  lemma {:induction false} EmptyThins(s: string, p: nat, w: string, blank: string, close: char, f: Flags) returns (thin: string, g: Flags)
    requires Gap(w, blank) && At(s, p, w + [close]) && p <= |s| && Closes(close) && !f.inString
    ensures Gap(thin, blank) && TailFrom(s, p, f) == (thin + [close]) + TailFrom(s, p + |w| + 1, g) && !g.inString
  {
    hide At, Gap, TailFrom;
    AtConcat(s, p, w, [close]);
    AtHead(s, p + |w|, [close]);
    var h: Flags;
    thin, h := GapThins(w, blank, s, p, f);
    g := CharCopied(s, p + |w|, h);
    Concat3(thin, [close], TailFrom(s, p + |w| + 1, g));
  }

  lemma {:induction false} ArrayThins(fd: ReadDouble, t: Tree, u: Tree, s: string, p: nat, f: Flags) returns (v: Tree, g: Flags)
    requires t.TArr? && Valid(fd, t) && CleanTree(t) && Commented(t, u) && At(s, p, Text(u)) && p <= |s| && Outside(s, p) && !f.inString
    ensures Commented(t, v) && TailFrom(s, p, f) == Text(v) + TailFrom(s, p + |Text(u)|, g) && !g.inString
    decreases t, 0
  {
    hide At, Outside, Carries, ItemsText, Gap, ValidItem, CleanItem, CommentedItem, TailFrom;
    AtConcat(s, p, "[", if u.items == [] then u.pad + "]" else ItemsText(u.items));
    AtHead(s, p, "[");
    MarkCarries(s, p, '[');
    var h := CharCopied(s, p, f);
    if t.items == [] {
      var pad: string;
      pad, g := EmptyThins(s, p + 1, u.pad, t.pad, ']', h);
      v := TArr(pad, []);
      Concat3("[", pad + "]", TailFrom(s, p + |Text(u)|, g));
    } else {
      var vs: seq<Item>;
      vs, g := ItemsThin(fd, t.items, u.items, s, p + 1, h);
      v := TArr(u.pad, vs);
      Concat3("[", ItemsText(vs), TailFrom(s, p + |Text(u)|, g));
    }
  }

  lemma {:induction false} ValueThins(fd: ReadDouble, t: Item, u: Item, s: string, p: nat, f: Flags) returns (v: Item, g: Flags)
    requires ValidItem(fd, t) && CleanItem(t) && CommentedItem(t, u) && !f.inString
    requires At(s, p, u.before + Text(u.value)) && At(s, p + |u.before + Text(u.value)|, u.after) && p <= |s| && Outside(s, p)
    ensures CommentedItem(t, v) && !g.inString
    ensures TailFrom(s, p, f)
            == (v.before + Text(v.value) + v.after) + TailFrom(s, p + |u.before + Text(u.value)| + |u.after|, g)
    decreases t
  {
    hide At, Outside, Carries, Text, Gap, Valid, CleanTree, Commented, TailFrom;
    AtConcat(s, p, u.before, Text(u.value));
    AtBound(s, p + |u.before + Text(u.value)|, u.after);
    GapCarries(u.before, t.before, s, p);
    var q := p + |u.before|;
    CarriesEnds(s, p, q, t.before);
    var before, h := GapThins(u.before, t.before, s, p, f);
    var value, k := TreeThins(fd, t.value, u.value, s, q, h);
    var after: string;
    after, g := GapThins(u.after, t.after, s, q + |Text(u.value)|, k);
    v := Item(before, value, after);
    Three(before, Text(value), after, TailFrom(s, q + |Text(u.value)| + |u.after|, g));
  }

  lemma {:induction false} ItemsThin(fd: ReadDouble, ts: seq<Item>, us: seq<Item>, s: string, p: nat, f: Flags)
    returns (vs: seq<Item>, g: Flags)
    requires ts != [] && |us| == |ts| && forall i | 0 <= i < |ts| :: ValidItem(fd, ts[i]) && CleanItem(ts[i])
    requires forall i | 0 <= i < |ts| :: CommentedItem(ts[i], us[i])
    requires At(s, p, ItemsText(us)) && p <= |s| && Outside(s, p) && !f.inString
    ensures |vs| == |ts| && forall i | 0 <= i < |ts| :: CommentedItem(ts[i], vs[i])
    ensures TailFrom(s, p, f) == ItemsText(vs) + TailFrom(s, p + |ItemsText(us)|, g) && !g.inString
    decreases ts, 0
  {
    hide At, Outside, Carries, Text, ItemsText, ValidItem, CleanItem, CommentedItem, TailFrom, IsTrailing;
    var t, u := ts[0], us[0];
    assert ValidItem(fd, t) && CleanItem(t) && CommentedItem(t, u);
    ItemsTextUnfold(us, s, p);
    AtBound(s, p, ItemsText(us));
    var r := p + |u.before + Text(u.value)| + |u.after|;
    ValueCarries(fd, t, u, s, p);
    var v, h := ValueThins(fd, t, u, s, p, f);
    var head := v.before + Text(v.value) + v.after;
    if |ts| == 1 {
      g := CharCopied(s, r, h);
      vs := [v];
      OneItem(v);
      Concat3(head, "]", TailFrom(s, r + 1, g));
    } else {
      assert us[1..][0] == us[1] && ts[1..][0] == ts[1];
      assert ValidItem(fd, ts[1]) && CommentedItem(ts[1], us[1]);
      NextItem(fd, ts[1], us[1..], s, r);
      MarkCarries(s, r, ',');
      var k := CharCopied(s, r, h);
      var rest: seq<Item>;
      rest, g := ItemsThin(fd, ts[1..], us[1..], s, r + 1, k);
      vs := [v] + rest;
      forall i | 0 <= i < |ts| ensures CommentedItem(ts[i], vs[i]) {
        if i > 0 { assert ts[i] == ts[1..][i - 1] && vs[i] == rest[i - 1]; }
      }
      MoreItems(v, rest);
      Three(head, ",", ItemsText(rest), TailFrom(s, p + |ItemsText(us)|, g));
    }
  }

  lemma OneItem(v: Item)
    ensures ItemsText([v]) == v.before + Text(v.value) + v.after + "]"
  {
    hide Text;
  }

  lemma MoreItems(v: Item, rest: seq<Item>)
    requires rest != []
    ensures ItemsText([v] + rest) == v.before + Text(v.value) + v.after + "," + ItemsText(rest)
  {
    hide Text;
    assert ([v] + rest)[1..] == rest;
    Concat3(v.before + Text(v.value) + v.after, ",", ItemsText(rest));
  }

  lemma {:induction false} StringThins(es: seq<Elem>, s: string, p: nat, f: Flags) returns (g: Flags)
    requires ValidElems(es) && CleanElems(es) && At(s, p, StringText(es)) && p <= |s| && Outside(s, p) && !f.inString
    ensures TailFrom(s, p, f) == StringText(es) + TailFrom(s, p + |StringText(es)|, g) && !g.inString
  {
    hide ValidElems, CleanElems, At, StringText, Quiet, InString, TailFrom;
    StringQuiet(es, s, p, false);
    QuietEnds(s, p, p + |StringText(es)|, false);
    g := QuietThins(s, p, p + |StringText(es)|, f);
    AtSlice(s, p, StringText(es));
  }

  lemma {:induction false} HeadThins(fd: ReadDouble, t: Member, u: Member, s: string, p: nat, f: Flags) returns (v: Member, g: Flags)
    requires ValidMember(fd, t) && CleanMember(t) && CommentedMember(t, u) && !f.inString
    requires At(s, p, MemberHead(u)) && p <= |s| && Outside(s, p)
    ensures v.value == u.value && v.after == u.after && CommentedMember(t, v)
    ensures TailFrom(s, p, f) == MemberHead(v) + TailFrom(s, p + |MemberHead(u)|, g) && !g.inString
  {
    hide At, Outside, Carries, Gap, StringText, Valid, ValidElems, CleanElems, CleanTree, Commented, TailFrom;
    var key := StringText(t.key);
    var q := p + |u.before|;
    var r := q + |key|;
    AtConcat(s, p, u.before + key + u.beforeColon + ":", u.afterColon);
    AtConcat(s, p, u.before + key + u.beforeColon, ":");
    AtConcat3(s, p, u.before, key, u.beforeColon);
    AtBound(s, p, MemberHead(u));
    GapCarries(u.before, t.before, s, p);
    CarriesEnds(s, p, q, t.before);
    var before, f1 := GapThins(u.before, t.before, s, p, f);
    var f2 := StringThins(t.key, s, q, f1);
    var beforeColon, afterColon;
    beforeColon, afterColon, g := ColonThins(t, u, s, r, f2);
    v := u.(before := before, beforeColon := beforeColon, afterColon := afterColon);
    var end := TailFrom(s, p + |MemberHead(u)|, g);
    Three(before, key, beforeColon + ":" + afterColon, end);
    assert MemberHead(v) == before + key + (beforeColon + ":" + afterColon);
  }

  lemma {:induction false} ColonThins(t: Member, u: Member, s: string, p: nat, f: Flags)
    returns (beforeColon: string, afterColon: string, g: Flags)
    requires Gap(u.beforeColon, t.beforeColon) && Gap(u.afterColon, t.afterColon) && p <= |s| && !f.inString
    requires At(s, p, u.beforeColon) && At(s, p + |u.beforeColon|, ":") && At(s, p + |u.beforeColon| + 1, u.afterColon)
    ensures Gap(beforeColon, t.beforeColon) && Gap(afterColon, t.afterColon) && !g.inString
    ensures TailFrom(s, p, f)
            == (beforeColon + ":" + afterColon) + TailFrom(s, p + |u.beforeColon| + 1 + |u.afterColon|, g)
  {
    hide At, Gap, TailFrom;
    var q := p + |u.beforeColon|;
    AtHead(s, q, ":");
    AtBound(s, q + 1, u.afterColon);
    var f1, f2: Flags;
    beforeColon, f1 := GapThins(u.beforeColon, t.beforeColon, s, p, f);
    f2 := CharCopied(s, q, f1);
    afterColon, g := GapThins(u.afterColon, t.afterColon, s, q + 1, f2);
    Three(beforeColon, ":", afterColon, TailFrom(s, q + 1 + |u.afterColon|, g));
  }

  lemma {:induction false} ObjectThins(fd: ReadDouble, t: Tree, u: Tree, s: string, p: nat, f: Flags) returns (v: Tree, g: Flags)
    requires t.TObj? && Valid(fd, t) && CleanTree(t) && Commented(t, u) && At(s, p, Text(u)) && p <= |s| && Outside(s, p) && !f.inString
    ensures Commented(t, v) && TailFrom(s, p, f) == Text(v) + TailFrom(s, p + |Text(u)|, g) && !g.inString
    decreases t, 0
  {
    hide At, Outside, Carries, MembersText, Gap, ValidMember, CleanMember, CommentedMember, TailFrom;
    AtConcat(s, p, "{", if u.members == [] then u.pad + "}" else MembersText(u.members));
    AtHead(s, p, "{");
    MarkCarries(s, p, '{');
    var h := CharCopied(s, p, f);
    if t.members == [] {
      var pad: string;
      pad, g := EmptyThins(s, p + 1, u.pad, t.pad, '}', h);
      v := TObj(pad, []);
      Concat3("{", pad + "}", TailFrom(s, p + |Text(u)|, g));
    } else {
      var vs: seq<Member>;
      vs, g := MembersThin(fd, t.members, u.members, s, p + 1, h);
      v := TObj(u.pad, vs);
      Concat3("{", MembersText(vs), TailFrom(s, p + |Text(u)|, g));
    }
  }

  lemma {:induction false} MemberThins(fd: ReadDouble, t: Member, u: Member, s: string, p: nat, f: Flags) returns (v: Member, g: Flags)
    requires ValidMember(fd, t) && CleanMember(t) && CommentedMember(t, u) && !f.inString
    requires At(s, p, MemberHead(u) + Text(u.value)) && At(s, p + |MemberHead(u) + Text(u.value)|, u.after)
    requires p <= |s| && Outside(s, p)
    ensures CommentedMember(t, v) && !g.inString
    ensures TailFrom(s, p, f)
            == (MemberHead(v) + Text(v.value) + v.after) + TailFrom(s, p + |MemberHead(u) + Text(u.value)| + |u.after|, g)
    decreases t
  {
    hide At, Outside, Carries, Text, Gap, Valid, CleanTree, Commented, ValidElems, CleanElems, StringText, TailFrom;
    AtConcat(s, p, MemberHead(u), Text(u.value));
    AtBound(s, p + |MemberHead(u) + Text(u.value)|, u.after);
    var q := p + |MemberHead(u)|;
    HeadCarries(fd, t, u, s, p);
    var v1, f1 := HeadThins(fd, t, u, s, p, f);
    var value, f2 := TreeThins(fd, t.value, u.value, s, q, f1);
    var after: string;
    after, g := GapThins(u.after, t.after, s, q + |Text(u.value)|, f2);
    v := v1.(value := value, after := after);
    Three(MemberHead(v1), Text(value), after, TailFrom(s, q + |Text(u.value)| + |u.after|, g));
  }

  lemma {:induction false} MembersThin(fd: ReadDouble, ts: seq<Member>, us: seq<Member>, s: string, p: nat, f: Flags)
    returns (vs: seq<Member>, g: Flags)
    requires ts != [] && |us| == |ts| && forall i | 0 <= i < |ts| :: ValidMember(fd, ts[i]) && CleanMember(ts[i])
    requires forall i | 0 <= i < |ts| :: CommentedMember(ts[i], us[i])
    requires At(s, p, MembersText(us)) && p <= |s| && Outside(s, p) && !f.inString
    ensures |vs| == |ts| && forall i | 0 <= i < |ts| :: CommentedMember(ts[i], vs[i])
    ensures TailFrom(s, p, f) == MembersText(vs) + TailFrom(s, p + |MembersText(us)|, g) && !g.inString
    decreases ts, 0
  {
    hide At, Outside, Carries, Text, MembersText, ValidMember, CleanMember, CommentedMember, MemberHead, TailFrom, IsTrailing;
    var t, u := ts[0], us[0];
    assert ValidMember(fd, t) && CleanMember(t) && CommentedMember(t, u);
    MembersTextUnfold(us, s, p);
    AtBound(s, p, MembersText(us));
    var r := p + |MemberHead(u) + Text(u.value)| + |u.after|;
    MemberCarries(fd, t, u, s, p);
    var v, h := MemberThins(fd, t, u, s, p, f);
    var head := MemberHead(v) + Text(v.value) + v.after;
    if |ts| == 1 {
      g := CharCopied(s, r, h);
      vs := [v];
      OneMember(v);
      Concat3(head, "}", TailFrom(s, r + 1, g));
    } else {
      assert us[1..][0] == us[1] && ts[1..][0] == ts[1];
      assert ValidMember(fd, ts[1]) && CommentedMember(ts[1], us[1]);
      NextMember(fd, ts[1], us[1..], s, r);
      MarkCarries(s, r, ',');
      var k := CharCopied(s, r, h);
      var rest: seq<Member>;
      rest, g := MembersThin(fd, ts[1..], us[1..], s, r + 1, k);
      vs := [v] + rest;
      forall i | 0 <= i < |ts| ensures CommentedMember(ts[i], vs[i]) {
        if i > 0 { assert ts[i] == ts[1..][i - 1] && vs[i] == rest[i - 1]; }
      }
      MoreMembers(v, rest);
      Three(head, ",", MembersText(rest), TailFrom(s, p + |MembersText(us)|, g));
    }
  }

  lemma OneMember(v: Member)
    ensures MembersText([v]) == MemberHead(v) + Text(v.value) + v.after + "}"
  {
    hide Text, MemberHead;
  }

  lemma MoreMembers(v: Member, rest: seq<Member>)
    requires rest != []
    ensures MembersText([v] + rest) == MemberHead(v) + Text(v.value) + v.after + "," + MembersText(rest)
  {
    hide Text, MemberHead;
    assert ([v] + rest)[1..] == rest;
    Concat3(MemberHead(v) + Text(v.value) + v.after, ",", MembersText(rest));
  }

  // ---------- whole texts ----------

  lemma StartOutside(s: string)
    ensures Outside(s, 0)
  {
  }

  lemma AfterEnds(t: Tree, after: string)
    requires Blank(after)
    ensures Ends(t, after, 0)
  {
    SeparatorEnds(t, after, 0);
  }

  /** The comma filter leaves the text with comments, perhaps with fewer commas in them. */
  lemma {:induction false} WholeThins(fd: ReadDouble, t: Tree, u: Tree, before: string, after: string,
                                      before': string, after': string)
    returns (v: Tree, before2: string, after2: string)
    requires Valid(fd, t) && CleanTree(t) && Commented(t, u) && Gap(before', before) && Gap(after', after)
    ensures Commented(t, v) && Gap(before2, before) && Gap(after2, after)
    ensures RemoveTailComma(before' + Text(u) + after') == before2 + Text(v) + after2
  {
    hide Valid, CleanTree, Commented, Gap, Text, At, Outside, Carries, TailFrom;
    var s := before' + Text(u) + after';
    AtWhole(s);
    AtConcat3(s, 0, before', Text(u), after');
    StartOutside(s);
    GapCarries(before', before, s, 0);
    var p := |before'|;
    CarriesEnds(s, 0, p, before);
    var q := p + |Text(u)|;
    var f1, f2, f3: Flags;
    before2, f1 := GapThins(before', before, s, 0, Flags(false, false, false));
    v, f2 := TreeThins(fd, t, u, s, p, f1);
    after2, f3 := GapThins(after', after, s, q, f2);
    TailEnd(s, f3);
    Three(before2, Text(v), after2, "");
    assert before2 + Text(v) + after2 + "" == before2 + Text(v) + after2;
  }

  /** The comment filter takes the comments out. */
  lemma {:induction false} WholeStripped(fd: ReadDouble, t: Tree, u: Tree, before: string, after: string,
                                         before': string, after': string)
    requires Valid(fd, t) && CleanTree(t) && Commented(t, u) && Gap(before', before) && Gap(after', after)
    ensures RemoveComments(before' + Text(u) + after') == before + Text(t) + after
  {
    hide Valid, CleanTree, Commented, Gap, Text, At, Outside, Carries, CommentsFrom;
    var s := before' + Text(u) + after';
    AtWhole(s);
    AtConcat3(s, 0, before', Text(u), after');
    StartOutside(s);
    GapCarries(before', before, s, 0);
    var p := |before'|;
    CarriesEnds(s, 0, p, before);
    TreeCarries(fd, t, u, s, p);
    var q := p + |Text(u)|;
    CarriesEnds(s, p, q, Text(t));
    GapCarries(after', after, s, q);
    CarriesJoin(s, 0, p, q, before, Text(t));
    CarriesJoin(s, 0, q, |s|, before + Text(t), after);
    WholeCarried(s, before + Text(t) + after);
  }

  lemma {:induction false} WholeCarried(s: string, out: string)
    requires Carries(s, 0, |s|, out)
    ensures RemoveComments(s) == out
  {
    hide CommentsFrom;
    CommentsEnd(s, Code(false));
    assert out + "" == out;
  }

  /** Comments wherever whitespace may stand, free of quotes, change nothing: lenient parsing gives the
      value of the text without them. */
  lemma {:induction false} CommentsAreSkipped(fd: ReadDouble, t: Tree, u: Tree, before: string, after: string,
                                             before': string, after': string)
    requires Valid(fd, t) && CleanTree(t) && Commented(t, u)
    requires Blank(before) && Blank(after) && Gap(before', before) && Gap(after', after)
    ensures var s := before' + Text(u) + after';
            RemoveComments(RemoveTailComma(s)) == before + Text(t) + after
    ensures LenientAt(fd, before' + Text(u) + after') == Ok(Denote(fd, t), |before + Text(t)|)
  {
    hide Valid, CleanTree, Commented, Gap, Text, Denote, ValueAt, Blank, RemoveComments, RemoveTailComma;
    var v, before2, after2 := WholeThins(fd, t, u, before, after, before', after');
    WholeStripped(fd, t, v, before, after, before2, after2);
    AfterEnds(t, after);
    TextParses(fd, t, before, after);
  }
}
