/** IPv6 address text: what the parser accepts, with the loops that parse it, and the printer, whose
    text is the canonical form of section 4 of RFC 5952. An address is 16 bytes, or eight groups
    of 16 bits. */
module Ipv6 {
  import opened Wrappers
  import opened Digits
  import StringUtil

  // ---------- addresses as bytes and as eight groups ----------

  predicate IsGroups(g: seq<nat>) {
    |g| == 8 && forall i | 0 <= i < 8 :: g[i] < 0x1_0000
  }

  /** The 16 bytes of eight groups, the high byte of each first. */
  function Bytes(g: seq<nat>): (b: seq<byte>)
    requires IsGroups(g)
    ensures |b| == 16
  {
    seq(16, k requires 0 <= k < 16 => if k % 2 == 0 then g[k / 2] / 256 else g[k / 2] % 256)
  }

  function GroupAt(b: seq<byte>, i: nat): (v: nat)
    requires |b| == 16 && i < 8
    ensures v < 0x1_0000
  {
    var high: int, low: int := b[2 * i], b[2 * i + 1];
    high * 256 + low
  }

  function GroupsOf(b: seq<byte>): (g: seq<nat>)
    requires |b| == 16
    ensures IsGroups(g)
  {
    seq(8, i requires 0 <= i < 8 => GroupAt(b, i))
  }

  lemma BytesOfGroups(b: seq<byte>)
    requires |b| == 16
    ensures Bytes(GroupsOf(b)) == b
  {
    forall k | 0 <= k < 16 ensures Bytes(GroupsOf(b))[k] == b[k] {
      var i := k / 2;
      assert k == 2 * i || k == 2 * i + 1;
      assert GroupsOf(b)[i] == GroupAt(b, i);
    }
  }

  /** Network order: of the two bytes of a group the first counts 256. */
  lemma NetworkOrder(g: seq<nat>, b: seq<byte>, i: nat)
    requires IsGroups(g) && |b| == 16 && i < 8
    ensures Bytes(g)[2 * i] as int * 256 + Bytes(g)[2 * i + 1] as int == g[i]
    ensures GroupsOf(b)[i] == b[2 * i] as int * 256 + b[2 * i + 1] as int
  {
    assert 2 * i / 2 == i && (2 * i + 1) / 2 == i;
  }

  // ---------- texts made of groups between colons ----------

  predicate IsGroup(s: string) {
    1 <= |s| <= 4 && AllDigits(s, 16)
  }

  predicate GroupTexts(p: seq<string>) {
    forall i | 0 <= i < |p| :: IsGroup(p[i])
  }

  function Values(p: seq<string>): (g: seq<nat>)
    requires GroupTexts(p)
    ensures |g| == |p|
  {
    seq(|p|, i requires 0 <= i < |p| => ValueOf(p[i], 16))
  }

  function Join(p: seq<string>): (s: string) {
    StringUtil.Join(p, ":")
  }

  /** The pieces joined by colons; one colon may follow the last piece. */
  predicate Spells(s: string, p: seq<string>) {
    s == Join(p) || (p != [] && s == Join(p) + ":")
  }

  function Zeros(n: nat): (g: seq<nat>)
    ensures |g| == n
  {
    seq(n, i => 0)
  }

  predicate FullText(s: string, p: seq<string>, g: seq<nat>) {
    GroupTexts(p) && |p| == 8 && Spells(s, p) && g == Values(p)
  }

  predicate ShortText(s: string, l: seq<string>, r: seq<string>, tail: string, g: seq<nat>) {
    && GroupTexts(l) && GroupTexts(r) && |l| + |r| < 8
    && Spells(tail, r) && s == Join(l) + "::" + tail
    && g == Values(l) + Zeros(8 - |l| - |r|) + Values(r)
  }

  /** The texts of an address: eight groups, or fewer around one `::`. A colon after the last group
      is let through. */
  ghost predicate IsTextOf(s: string, g: seq<nat>) {
    (exists p :: FullText(s, p, g)) || (exists l, r, tail :: ShortText(s, l, r, tail, g))
  }

  // ---------- the parser as a function ----------

  predicate Pair(s: string, i: int) {
    0 <= i && i + 1 < |s| && s[i] == ':' && s[i + 1] == ':'
  }

  predicate NoPair(s: string) {
    forall i | 0 <= i < |s| - 1 :: !Pair(s, i)
  }

  /** std::string_view::find("::", from). */
  function FindPair(s: string, from: nat): (r: Option<nat>)
    ensures r.Some? ==> from <= r.value && Pair(s, r.value) && forall i | from <= i < r.value :: !Pair(s, i)
    ensures r.None? ==> forall i | from <= i :: !Pair(s, i)
    decreases |s| - from
  {
    if from + 1 >= |s| then None else if Pair(s, from) then Some(from) else FindPair(s, from + 1)
  }

  /** std::string_view::find(':', from), or the length. */
  function FindColon(s: string, from: nat): (end: nat)
    requires from <= |s|
    ensures from <= end <= |s| && (end < |s| ==> s[end] == ':')
    ensures forall i | from <= i < end :: s[i] != ':'
    decreases |s| - from
  {
    if from == |s| || s[from] == ':' then from else FindColon(s, from + 1)
  }

  function Rest(s: string, from: nat): (t: string)
    ensures |t| <= |s| && (from > 0 && s != "" ==> |t| < |s|)
  {
    if from < |s| then s[from..] else ""
  }

  /** The pieces the splitting loops visit. */
  function Pieces(s: string): (p: seq<string>)
    decreases |s|
  {
    if s == "" then [] else
      var end := FindColon(s, 0);
      [s[..end]] + Pieces(Rest(s, end + 1))
  }

  function ParseShort(left: string, right: string): (r: Option<seq<nat>>)
  {
    var l, r := Pieces(left), Pieces(right);
    if GroupTexts(l) && GroupTexts(r) && |l| + |r| < 8
    then Some(Values(l) + Zeros(8 - |l| - |r|) + Values(r)) else None
  }

  function Parse(s: string): (r: Option<seq<nat>>) {
    match FindPair(s, 0)
    case Some(at) =>
      if FindPair(s, at + 2).Some? then None else ParseShort(s[..at], s[at + 2..])
    case None =>
      var p := Pieces(s);
      if GroupTexts(p) && |p| == 8 then Some(Values(p)) else None
  }

  // ---------- the parser accepts exactly these texts ----------

  lemma PiecesUnfold(s: string, end: nat)
    requires s != "" && end == FindColon(s, 0)
    ensures Pieces(s) == [s[..end]] + Pieces(Rest(s, end + 1))
  {
    hide FindColon;
  }

  lemma {:induction false} SpellsCons(head: string, rest: string, p: seq<string>)
    requires Spells(rest, p) && p != []
    ensures Spells(head + ":" + rest, [head] + p)
  {
    assert ([head] + p)[1..] == p;
    if rest != Join(p) { assert head + ":" + (Join(p) + ":") == head + ":" + Join(p) + ":"; }
  }

  lemma SpellsOne(head: string)
    ensures Spells(head, [head]) && Spells(head + ":", [head])
  {
  }

  lemma {:induction false} PiecesSpell(s: string)
    ensures Spells(s, Pieces(s)) && (s == "" <==> Pieces(s) == [])
    decreases |s|
  {
    hide Spells, Pieces, FindColon;
    PiecesOfEmpty();
    if s != "" {
      var end := FindColon(s, 0);
      PiecesUnfold(s, end);
      var head, rest := s[..end], Rest(s, end + 1);
      PiecesSpell(rest);
      SpellsOne(head);
      if end == |s| {
        assert head == s && Pieces(s) == [head];
      } else {
        assert s == head + ":" + rest;
        if rest == "" { assert s == head + ":" && Pieces(s) == [head]; } else { SpellsCons(head, rest, Pieces(rest)); }
      }
    }
  }

  lemma PiecesOfEmpty()
    ensures Pieces("") == [] && Spells("", [])
  {
  }

  lemma GroupHasNoColon(s: string, i: nat)
    requires IsGroup(s) && i < |s|
    ensures s[i] != ':'
  {
  }

  lemma {:induction false} ColonAfterGroup(s: string, rest: string)
    requires IsGroup(s) && (rest == "" || rest[0] == ':')
    ensures FindColon(s + rest, 0) == |s|
  {
    hide IsGroup;
    var t := s + rest;
    assert forall i | 0 <= i < |s| :: t[i] == s[i];
    assert |s| < |t| ==> t[|s|] == ':';
    forall i | 0 <= i < |s| ensures s[i] != ':' { GroupHasNoColon(s, i); }
  }

  /** The first piece and what is spelled after it. */
  lemma {:induction false} SpelledHead(s: string, p: seq<string>)
    requires GroupTexts(p) && Spells(s, p) && p != []
    ensures var k := |p[0]|;
            && IsGroup(p[0]) && k <= |s| && s[..k] == p[0] && (k < |s| ==> s[k] == ':')
            && GroupTexts(p[1..]) && Spells(Rest(s, k + 1), p[1..])
  {
    hide IsGroup;
    var k := |p[0]|;
    var join := Join(p[1..]);
    if |p| == 1 {
      assert join == "";
      if s != Join(p) { assert s == p[0] + ":"; }
    } else if s == Join(p) {
      assert s == p[0] + ":" + join;
      assert Rest(s, k + 1) == join;
    } else {
      assert s == p[0] + ":" + (join + ":");
      assert Rest(s, k + 1) == join + ":";
    }
  }

  lemma {:induction false} SpelledPieces(s: string, p: seq<string>)
    requires GroupTexts(p) && Spells(s, p)
    ensures Pieces(s) == p
    decreases |p|
  {
    hide Join, IsGroup, FindColon, Pieces, Spells, GroupTexts;
    PiecesOfEmpty();
    if p == [] {
      SpelledEmpty(s);
    } else {
      SpelledHead(s, p);
      var k := |p[0]|;
      HeadColon(s, p[0]);
      PiecesUnfold(s, k);
      SpelledPieces(Rest(s, k + 1), p[1..]);
      assert p == [p[0]] + p[1..];
    }
  }

  lemma SpelledEmpty(s: string)
    requires Spells(s, [])
    ensures s == ""
  {
  }

  lemma {:induction false} HeadColon(s: string, head: string)
    requires IsGroup(head) && |head| <= |s| && s[..|head|] == head && (|head| < |s| ==> s[|head|] == ':')
    ensures s != "" && FindColon(s, 0) == |head|
  {
    assert s == head + s[|head|..];
    ColonAfterGroup(head, s[|head|..]);
  }

  lemma EmptyJoin()
    ensures Join([]) == ""
  {
  }

  lemma GroupNotEmpty(s: string)
    requires IsGroup(s)
    ensures s != ""
  {
  }

  /** Spelled groups have no colon at the front and no two in a row. */
  lemma {:induction false} SpelledHasNoPair(s: string, p: seq<string>)
    requires GroupTexts(p) && Spells(s, p)
    ensures NoPair(s) && (s != "" ==> s[0] != ':')
    decreases |p|
  {
    hide IsGroup, Join;
    if p == [] {
      EmptyJoin();
    } else {
      var head := p[0];
      GroupNotEmpty(head);
      GroupHasNoColon(head, 0);
      SpelledHead(s, p);
      var after := Rest(s, |head| + 1);
      SpelledHasNoPair(after, p[1..]);
      forall i | 0 <= i < |s| - 1 ensures !Pair(s, i) {
        if i < |head| {
          GroupHasNoColon(head, i);
          assert s[i] == head[i];
        } else if i > |head| {
          assert s[i] == after[i - |head| - 1] && s[i + 1] == after[i - |head|];
          assert !Pair(after, i - |head| - 1);
        } else {
          assert s[i + 1] == after[0];
        }
      }
    }
  }

  lemma {:induction false} JoinEnds(p: seq<string>)
    requires GroupTexts(p) && p != []
    ensures Join(p) != "" && Join(p)[|Join(p)| - 1] != ':'
  {
    if |p| == 1 {
      GroupHasNoColon(p[0], |p[0]| - 1);
    } else {
      assert GroupTexts(p[1..]);
      JoinEnds(p[1..]);
    }
  }

  lemma {:induction false} FullTextParses(s: string, p: seq<string>, g: seq<nat>)
    requires FullText(s, p, g)
    ensures Parse(s) == Some(g)
  {
    hide Join;
    SpelledHasNoPair(s, p);
    SpelledPieces(s, p);
    assert forall i | 0 <= i :: !Pair(s, i);
  }

  lemma {:induction false} FirstPair(left: string, tail: string)
    requires NoPair(left) && NoPair(tail) && (tail != "" ==> tail[0] != ':')
    requires left != "" ==> left[|left| - 1] != ':'
    ensures var s := left + "::" + tail; FindPair(s, 0) == Some(|left|) && FindPair(s, |left| + 2).None?
  {
    var s := left + "::" + tail;
    hide FindPair;
    assert Pair(s, |left|);
    forall i | 0 <= i < |left| ensures !Pair(s, i) {
      assert s[i] == left[i];
      if i + 1 < |left| { assert !Pair(left, i); }
    }
    forall i | |left| + 2 <= i ensures !Pair(s, i) {
      var k := i - |left| - 2;
      if k + 1 < |tail| { assert s[i] == tail[k] && s[i + 1] == tail[k + 1] && !Pair(tail, k); }
    }
  }

  lemma {:induction false} ShortTextParses(s: string, l: seq<string>, r: seq<string>, tail: string, g: seq<nat>)
    requires ShortText(s, l, r, tail, g)
    ensures Parse(s) == Some(g)
  {
    hide Join, FindPair, NoPair, Pieces, IsGroup;
    var left := Join(l);
    EmptyJoin();
    SpelledHasNoPair(left, l);
    SpelledHasNoPair(tail, r);
    if l != [] { JoinEnds(l); }
    FirstPair(left, tail);
    SpelledPieces(left, l);
    SpelledPieces(tail, r);
    assert s[..|left|] == left && s[|left| + 2..] == tail;
  }

  lemma {:induction false} ParsedIsText(s: string, g: seq<nat>)
    requires Parse(s) == Some(g)
    ensures IsTextOf(s, g)
  {
    hide Join, Pieces, FindPair;
    match FindPair(s, 0)
    case None =>
      PiecesSpell(s);
      assert FullText(s, Pieces(s), g);
    case Some(at) =>
      var left, tail := s[..at], s[at + 2..];
      PiecesSpell(left);
      PiecesSpell(tail);
      assert s == left + "::" + tail;
      var l := Pieces(left);
      assert left == "" || left[at - 1] != ':' by { assert !Pair(s, at - 1); }
      assert ShortText(s, l, Pieces(tail), tail, g);
  }

  /** The parser accepts exactly the texts of addresses, each with its address. */
  lemma {:induction false} ParsesExactlyTexts(s: string, g: seq<nat>)
    ensures Parse(s) == Some(g) <==> IsTextOf(s, g)
  {
    hide Parse;
    if Parse(s) == Some(g) { ParsedIsText(s, g); }
    if p :| FullText(s, p, g) { FullTextParses(s, p, g); }
    if l, r, tail :| ShortText(s, l, r, tail, g) { ShortTextParses(s, l, r, tail, g); }
  }

  /** A colon after the last group changes nothing: laxer than section 2.2 of RFC 4291. */
  lemma {:induction false} TrailingColonAccepted(s: string)
    requires Parse(s).Some? && s[|s| - 1] != ':'
    ensures Parse(s + ":") == Parse(s)
  {
    hide Parse, Join, GroupTexts, Values;
    var g := Parse(s).value;
    ParsesExactlyTexts(s, g);
    if p :| FullText(s, p, g) { assert FullText(s + ":", p, g); }
    if l, r, tail :| ShortText(s, l, r, tail, g) {
      EmptyJoin();
      assert s + ":" == Join(l) + "::" + (tail + ":");
      assert ShortText(s + ":", l, r, tail + ":", g);
    }
    ParsesExactlyTexts(s + ":", g);
  }

  // ---------- the printed form ----------

  predicate ZeroRun(g: seq<nat>, a: int, n: int) {
    0 <= a && 0 <= n && a + n <= |g| && forall k | a <= k < a + n :: g[k] == 0
  }

  /** The leftmost of the longest zero runs, at least two groups long. */
  ghost predicate LongestRun(g: seq<nat>, a: int, n: int) {
    && n >= 2 && ZeroRun(g, a, n)
    && forall b, m | ZeroRun(g, b, m) :: m < n || (m == n && a <= b)
  }

  ghost predicate NoRun(g: seq<nat>) {
    forall b, m | ZeroRun(g, b, m) :: m < 2
  }

  /** The group texts of section 4.1 to 4.3 of RFC 5952: no leading zero, lower case. */
  predicate CanonicalGroups(p: seq<string>, g: seq<nat>) {
    && GroupTexts(p) && Values(p) == g
    && forall i | 0 <= i < |p| :: LowerCase(p[i]) && (|p[i]| > 1 ==> p[i][0] != '0')
  }

  predicate Around(t: string, g: seq<nat>, a: int, n: int, l: seq<string>, r: seq<string>)
    requires ZeroRun(g, a, n)
  {
    CanonicalGroups(l, g[..a]) && CanonicalGroups(r, g[a + n..]) && t == Join(l) + "::" + Join(r)
  }

  /** The canonical text of section 4 of RFC 5952. */
  ghost predicate Rfc5952(t: string, g: seq<nat>) {
    || (NoRun(g) && exists p :: CanonicalGroups(p, g) && t == Join(p))
    || (exists a, n, l, r :: LongestRun(g, a, n) && Around(t, g, a, n, l, r))
  }

  /** An address has only one canonical text. */
  lemma {:induction false} CanonicalUnique(p: seq<string>, q: seq<string>, g: seq<nat>)
    requires CanonicalGroups(p, g) && CanonicalGroups(q, g)
    ensures p == q
  {
    assert |p| == |q| == |g|;
    forall i | 0 <= i < |p| ensures p[i] == q[i] {
      assert Values(p)[i] == Values(q)[i];
      NumeralUnique(p[i], 16);
      NumeralUnique(q[i], 16);
    }
  }

  lemma {:induction false} Rfc5952Unique(t: string, u: string, g: seq<nat>)
    requires Rfc5952(t, g) && Rfc5952(u, g)
    ensures t == u
  {
    hide Join, CanonicalGroups;
    if NoRun(g) {
      var p :| CanonicalGroups(p, g) && t == Join(p);
      var q :| CanonicalGroups(q, g) && u == Join(q);
      CanonicalUnique(p, q, g);
    } else {
      var a, n, l, r :| LongestRun(g, a, n) && Around(t, g, a, n, l, r);
      var b, m, k, s :| LongestRun(g, b, m) && Around(u, g, b, m, k, s);
      assert a == b && n == m;
      CanonicalUnique(l, k, g[..a]);
      CanonicalUnique(r, s, g[a + n..]);
    }
  }

  lemma SplitAtRun(g: seq<nat>, a: int, n: int)
    requires ZeroRun(g, a, n)
    ensures g == g[..a] + Zeros(n) + g[a + n..]
  {
  }

  /** The canonical text is one of the texts of its address. */
  lemma {:induction false} CanonicalIsText(t: string, g: seq<nat>)
    requires |g| == 8 && Rfc5952(t, g)
    ensures IsTextOf(t, g)
  {
    hide Join, GroupTexts, Values, NoRun;
    if p :| CanonicalGroups(p, g) && t == Join(p) { assert FullText(t, p, g); }
    if a, n, l, r :| LongestRun(g, a, n) && Around(t, g, a, n, l, r) {
      SplitAtRun(g, a, n);
      assert ShortText(t, l, r, Join(r), g);
    }
  }

  // ---------- the parser's loops ----------

  /** One group: at most four hexadecimal digits, accumulated in sixteen bits. */
  method ParseIPv6Group(group: string) returns (r: Option<nat>)
    ensures r == if IsGroup(group) then Some(ValueOf(group, 16)) else None
  {
    hide ValueOf, Power;
    if |group| == 0 || |group| > 4 { return None; }
    var value := 0;
    EmptyValue(group);
    for i := 0 to |group|
      invariant AllDigits(group[..i], 16) && value == ValueOf(group[..i], 16) < Power(16, i)
    {
      var c, digit := group[i], 0;
      if '0' <= c <= '9' {
        digit := c as int - '0' as int;
      } else if 'a' <= c <= 'f' {
        digit := c as int - 'a' as int + 10;
      } else if 'A' <= c <= 'F' {
        digit := c as int - 'A' as int + 10;
      } else {
        return None;
      }
      NextValue(group, i);
      value := (value * 16 % 0x1_0000 + digit) % 0x1_0000;
    }
    assert group[..|group|] == group;
    return Some(value);
  }

  lemma EmptyValue(group: string)
    ensures AllDigits(group[..0], 16) && ValueOf(group[..0], 16) == 0 < Power(16, 0)
  {
  }

  lemma {:induction false} NextValue(group: string, i: nat)
    requires i < |group| <= 4 && AllDigits(group[..i], 16) && ValueOf(group[..i], 16) < Power(16, i)
    requires DigitOf(group[i]) < 16
    ensures AllDigits(group[..i + 1], 16)
    ensures ValueOf(group[..i + 1], 16) == ValueOf(group[..i], 16) * 16 + DigitOf(group[i])
    ensures ValueOf(group[..i + 1], 16) < Power(16, i + 1) <= 0x1_0000
  {
    hide DigitOf, ValueOf, Power;
    SixteenBits(i);
    ValueOfSnoc(group[..i], group[i], 16);
    assert group[..i + 1] == group[..i] + [group[i]];
  }

  lemma SixteenBits(i: nat)
    requires i < 4
    ensures Power(16, i + 1) == 16 * Power(16, i) <= 0x1_0000
  {
    assert Power(16, 4) == 0x1_0000;
  }

  /** Group i of the address under construction. */
  method WriteGroup(result: array<byte>, ghost g: seq<nat>, i: nat, value: nat)
    requires result.Length == 16 && IsGroups(g) && result[..] == Bytes(g) && i < 8 && value < 0x1_0000
    modifies result
    ensures IsGroups(g[i := value]) && result[..] == Bytes(g[i := value])
  {
    result[i * 2] := value / 256;
    result[i * 2 + 1] := value % 256;
    ghost var h := g[i := value];
    forall k | 0 <= k < 16 ensures result[k] == Bytes(h)[k] {
      var j := k / 2;
      assert k == 2 * j || k == 2 * j + 1;
      assert j != i ==> g[j] == h[j];
    }
  }

  /** The loop over the pieces of the text before `::`, or of the whole text. */
  method LeadingGroups(text: string, result: array<byte>) returns (ok: bool, count: nat)
    requires result.Length == 16 && result[..] == Bytes(Zeros(8))
    modifies result
    ensures ok <==> GroupTexts(Pieces(text)) && |Pieces(text)| <= 8
    ensures ok ==> count == |Pieces(text)| && IsGroups(Values(Pieces(text)) + Zeros(8 - count))
    ensures ok ==> result[..] == Bytes(Values(Pieces(text)) + Zeros(8 - count))
  {
    hide Pieces, Values, Bytes, IsGroup, GroupTexts, FindColon, IsGroups;
    ghost var all := Pieces(text);
    ghost var g := Zeros(8);
    ghost var done: seq<string> := [];
    var start := 0;
    count, ok := 0, false;
    NoGroups();
    PiecesOfEmpty();
    while start < |text|
      invariant all == done + Pieces(Rest(text, start)) && |done| == count <= 8
      invariant GroupTexts(done) && g == Values(done) + Zeros(8 - count)
      invariant IsGroups(g) && result[..] == Bytes(g)
      decreases |text| - start
    {
      var end := FindColon(text, start);
      var group := text[start..end];
      PiecesFrom(text, start, end);
      ghost var rest := Pieces(Rest(text, end + 1));
      var value := ParseIPv6Group(group);
      if value.None? {
        BadPiece(done, group, rest);
        return;
      }
      if count >= 8 { return; }
      GroupBound(group);
      WriteGroup(result, g, count, value.value);
      GroupsSnoc(done, group, g);
      g := g[count := value.value];
      Regroup(done, group, rest);
      done := done + [group];
      count := count + 1;
      start := end + 1;
    }
    assert done + [] == done;
    ok := true;
  }

  lemma Regroup(done: seq<string>, group: string, rest: seq<string>)
    ensures done + ([group] + rest) == (done + [group]) + rest
  {
  }

  lemma NoGroups()
    ensures GroupTexts([]) && Values([]) + Zeros(8) == Zeros(8) && IsGroups(Zeros(8))
  {
  }

  lemma {:induction false} PiecesFrom(text: string, start: nat, end: nat)
    requires start < |text| && end == FindColon(text, start)
    ensures Pieces(Rest(text, start)) == [text[start..end]] + Pieces(Rest(text, end + 1))
  {
    hide FindColon, Pieces, Rest;
    FindColonSuffix(text, start);
    RestOfRest(text, start, end);
    PiecesUnfold(Rest(text, start), end - start);
  }

  lemma RestOfRest(text: string, start: nat, end: nat)
    requires start < |text| && start <= end <= |text|
    ensures Rest(text, start) != "" && Rest(text, start) == text[start..]
    ensures text[start..][..end - start] == text[start..end]
    ensures Rest(Rest(text, start), end - start + 1) == Rest(text, end + 1)
  {
  }

  lemma {:induction false} FindColonSuffix(text: string, start: nat)
    requires start <= |text|
    ensures FindColon(text, start) == start + FindColon(text[start..], 0)
  {
    var t := text[start..];
    var a, b := FindColon(text, start), FindColon(t, 0);
    assert forall i | 0 <= i < |t| :: t[i] == text[start + i];
    assert b < |t| ==> text[start + b] == ':';
    assert forall i | start <= i < start + b :: text[i] == t[i - start];
    assert forall i | 0 <= i < a - start :: t[i] == text[start + i];
    assert a < |text| ==> t[a - start] == ':';
  }

  lemma BadPiece(done: seq<string>, group: string, rest: seq<string>)
    requires !IsGroup(group)
    ensures !GroupTexts(done + ([group] + rest))
  {
    assert (done + ([group] + rest))[|done|] == group;
  }

  lemma {:induction false} GroupBound(s: string)
    requires IsGroup(s)
    ensures ValueOf(s, 16) < 0x1_0000
  {
    PrefixBound(s, |s|);
    assert s[..|s|] == s;
    assert Power(16, |s| - 1) <= 0x1000;
    SixteenBits(|s| - 1);
  }

  lemma {:induction false} PrefixBound(s: string, i: nat)
    requires i <= |s| <= 4 && AllDigits(s, 16)
    ensures AllDigits(s[..i], 16) && ValueOf(s[..i], 16) < Power(16, i)
  {
    hide ValueOf, Power, DigitOf;
    if i == 0 { EmptyValue(s); } else { PrefixBound(s, i - 1); NextValue(s, i - 1); }
  }

  lemma {:induction false} GroupsSnoc(done: seq<string>, group: string, g: seq<nat>)
    requires GroupTexts(done) && IsGroup(group) && |done| < 8 && g == Values(done) + Zeros(8 - |done|)
    ensures GroupTexts(done + [group])
    ensures g[|done| := ValueOf(group, 16)] == Values(done + [group]) + Zeros(8 - |done| - 1)
  {
    hide IsGroup, ValueOf;
  }

  /** The loop over the pieces of the text after `::`. */
  method TrailingGroups(text: string) returns (ok: bool, groups: seq<nat>)
    ensures ok <==> GroupTexts(Pieces(text))
    ensures ok ==> groups == Values(Pieces(text))
  {
    hide Pieces, Values, IsGroup, GroupTexts, FindColon;
    ghost var all := Pieces(text);
    ghost var done: seq<string> := [];
    var start := 0;
    groups, ok := [], false;
    NoGroups();
    PiecesOfEmpty();
    while start < |text|
      invariant all == done + Pieces(Rest(text, start))
      invariant GroupTexts(done) && groups == Values(done)
      decreases |text| - start
    {
      var end := FindColon(text, start);
      var group := text[start..end];
      PiecesFrom(text, start, end);
      ghost var rest := Pieces(Rest(text, end + 1));
      var value := ParseIPv6Group(group);
      if value.None? {
        BadPiece(done, group, rest);
        return;
      }
      ValuesSnoc(done, group);
      groups := groups + [value.value];
      Regroup(done, group, rest);
      done := done + [group];
      start := end + 1;
    }
    assert done + [] == done;
    ok := true;
  }

  lemma {:induction false} ValuesSnoc(done: seq<string>, group: string)
    requires GroupTexts(done) && IsGroup(group)
    ensures GroupTexts(done + [group]) && Values(done + [group]) == Values(done) + [ValueOf(group, 16)]
  {
    hide IsGroup, ValueOf;
  }

  lemma {:induction false} ParsedGroups(s: string)
    ensures Parse(s).Some? ==> IsGroups(Parse(s).value)
  {
    hide IsGroup, ValueOf, Pieces, FindPair;
    var l, r := FindPair(s, 0), Parse(s);
    if l.None? {
      ValuesBound(Pieces(s));
    } else {
      ValuesBound(Pieces(s[..l.value]));
      ValuesBound(Pieces(s[l.value + 2..]));
    }
  }

  lemma {:induction false} ValuesBound(p: seq<string>)
    ensures GroupTexts(p) ==> forall i | 0 <= i < |p| :: Values(p)[i] < 0x1_0000
  {
    hide IsGroup, ValueOf;
    if GroupTexts(p) {
      forall i | 0 <= i < |p| ensures Values(p)[i] < 0x1_0000 { GroupBound(p[i]); }
    }
  }

  /** The address under construction once i of the groups after `::` are in place. */
  function Filled(l: seq<nat>, r: seq<nat>, i: nat): (g: seq<nat>)
    requires |l| + |r| <= 8 && i <= |r|
    ensures |g| == 8
  {
    l + Zeros(8 - |l| - |r|) + r[..i] + Zeros(|r| - i)
  }

  lemma FilledEnds(l: seq<nat>, r: seq<nat>)
    requires |l| + |r| <= 8
    ensures Filled(l, r, 0) == l + Zeros(8 - |l|)
    ensures Filled(l, r, |r|) == l + Zeros(8 - |l| - |r|) + r
  {
  }

  lemma FilledStep(l: seq<nat>, r: seq<nat>, i: nat)
    requires |l| + |r| <= 8 && i < |r|
    ensures Filled(l, r, i)[8 - |r| + i := r[i]] == Filled(l, r, i + 1)
  {
  }

  method FillRight(result: array<byte>, ghost l: seq<nat>, r: seq<nat>)
    requires |l| + |r| <= 8 && result.Length == 16 && (forall i | 0 <= i < |r| :: r[i] < 0x1_0000)
    requires IsGroups(l + Zeros(8 - |l|)) && result[..] == Bytes(l + Zeros(8 - |l|))
    modifies result
    ensures IsGroups(l + Zeros(8 - |l| - |r|) + r) && result[..] == Bytes(l + Zeros(8 - |l| - |r|) + r)
  {
    hide Bytes, Filled;
    FilledEnds(l, r);
    for i := 0 to |r|
      invariant IsGroups(Filled(l, r, i)) && result[..] == Bytes(Filled(l, r, i))
    {
      FilledStep(l, r, i);
      WriteGroup(result, Filled(l, r, i), 8 - |r| + i, r[i]);
    }
  }

  /** The address bytes of a text, none when it is refused. */
  function ParsedBytes(s: string): (b: seq<byte>)
    ensures Parse(s).None? <==> b == []
  {
    ParsedGroups(s);
    if Parse(s).Some? then Bytes(Parse(s).value) else []
  }

  /** The bytes are those of an address that the text spells. */
  lemma {:induction false} ParsedExactly(s: string, b: seq<byte>)
    ensures b != [] && ParsedBytes(s) == b <==> |b| == 16 && IsTextOf(s, GroupsOf(b))
  {
    hide Parse, IsTextOf, Bytes, GroupsOf;
    ParsedGroups(s);
    if |b| == 16 {
      ParsesExactlyTexts(s, GroupsOf(b));
      BytesOfGroups(b);
    }
    if Parse(s).Some? { GroupsOfBytes(Parse(s).value); }
  }

  lemma GroupsOfBytes(g: seq<nat>)
    requires IsGroups(g)
    ensures GroupsOf(Bytes(g)) == g
  {
    forall i | 0 <= i < 8 ensures GroupsOf(Bytes(g))[i] == g[i] { NetworkOrder(g, Bytes(g), i); }
  }

  method ToBytesV6(text: string) returns (bytes: seq<byte>)
    ensures bytes == ParsedBytes(text)
  {
    hide Pieces, Values, Bytes, IsGroup, GroupTexts;
    ParsedGroups(text);
    var result := new byte[16](k => 0);
    ZeroBytes(result[..]);
    var at := FindPair(text, 0);
    if at.Some? {
      if FindPair(text, at.value + 2).Some? { return []; }
      var left, right := text[..at.value], text[at.value + 2..];
      var ok, leftCount := LeadingGroups(left, result);
      if !ok { return []; }
      var ok', groups := TrailingGroups(right);
      if !ok' || leftCount + |groups| >= 8 { return []; }
      ValuesBound(Pieces(right));
      FillRight(result, Values(Pieces(left)), groups);
      return result[..];
    }
    var ok, count := LeadingGroups(text, result);
    if !ok || count != 8 { return []; }
    assert Values(Pieces(text)) + Zeros(0) == Values(Pieces(text));
    return result[..];
  }

  lemma ZeroBytes(b: seq<byte>)
    requires |b| == 16 && forall k | 0 <= k < 16 :: b[k] == 0
    ensures b == Bytes(Zeros(8))
  {
  }

  // ---------- the printer's loops ----------

  /** What the scan knows after i groups: (ms, ml) is the best run that has ended, (cs, cl) the open one. */
  ghost predicate Scanned(g: seq<nat>, i: int, ms: int, ml: int, cs: int, cl: int) {
    && 0 <= cl <= i <= |g|
    && (cl == 0 ==> cs == -1) && (cl > 0 ==> cs == i - cl)
    && ZeroRun(g, i - cl, cl) && (i - cl == 0 || g[i - cl - 1] != 0)
    && (ml == 0 ==> ms == -1) && (ml != 0 ==> ml >= 2 && ZeroRun(g, ms, ml) && ms + ml <= i - cl)
    && forall b, m | ZeroRun(g, b, m) && m >= 2 && b + m <= i - cl :: m < ml || (m == ml && ms <= b)
  }

  /** Closing the open run: it replaces the best one when it is longer, and longer than one. */
  lemma {:induction false} CloseRun(g: seq<nat>, i: int, ms: int, ml: int, cs: int, cl: int)
    requires Scanned(g, i, ms, ml, cs, cl)
    ensures var better := cl > ml && cl > 1;
            var (s, l) := if better then (cs, cl) else (ms, ml);
            && (l == 0 ==> s == -1) && (l != 0 ==> l >= 2 && ZeroRun(g, s, l) && s + l <= i)
            && forall b, m | ZeroRun(g, b, m) && m >= 2 && b + m <= i :: m < l || (m == l && s <= b)
  {
    forall b, m | ZeroRun(g, b, m) && m >= 2 && b + m <= i
      ensures b + m <= i - cl || (b >= i - cl && m <= cl)
    {
      var last := i - cl - 1;
      assert last < 0 || g[last] != 0;
    }
  }

  method FindRun(b: seq<byte>) returns (start: int, len: int)
    requires |b| == 16
    ensures len == 0 ==> NoRun(GroupsOf(b))
    ensures len != 0 ==> LongestRun(GroupsOf(b), start, len)
  {
    hide GroupsOf, GroupAt;
    ghost var g := GroupsOf(b);
    start, len := -1, 0;
    var currentStart, currentLen := -1, 0;
    for i := 0 to 8
      invariant Scanned(g, i, start, len, currentStart, currentLen)
    {
      GroupOf(b, i);
      var value := GroupAt(b, i);
      if value == 0 {
        if currentStart == -1 {
          currentStart, currentLen := i, 1;
        } else {
          currentLen := currentLen + 1;
        }
      } else {
        CloseRun(g, i, start, len, currentStart, currentLen);
        if currentLen > len && currentLen > 1 {
          start, len := currentStart, currentLen;
        }
        currentStart, currentLen := -1, 0;
        forall a, m | ZeroRun(g, a, m) && a + m <= i + 1 && m >= 2 ensures a + m <= i { ShortOfGroup(g, i, a, m); }
      }
    }
    CloseRun(g, 8, start, len, currentStart, currentLen);
    if currentLen > len && currentLen > 1 {
      start, len := currentStart, currentLen;
    }
  }

  lemma GroupOf(b: seq<byte>, i: nat)
    requires |b| == 16 && i < 8
    ensures GroupsOf(b)[i] == GroupAt(b, i)
  {
  }

  lemma ShortOfGroup(g: seq<nat>, i: int, a: int, m: int)
    requires 0 <= i < |g| && g[i] != 0 && ZeroRun(g, a, m) && m > 0 && a + m <= i + 1
    ensures a + m <= i
  {
  }

  function Numerals(g: seq<nat>): (p: seq<string>)
    ensures |p| == |g|
  {
    seq(|g|, i requires 0 <= i < |g| => Numeral(g[i], 16))
  }

  /** What is left to print from group i on. */
  function Remaining(g: seq<nat>, i: nat, start: int, len: int): (t: string)
    requires i <= |g| && (len != 0 ==> 0 <= start && 0 <= len && start + len <= |g|)
  {
    if len != 0 && i <= start then Join(Numerals(g[i..start])) + "::" + Join(Numerals(g[start + len..]))
    else Join(Numerals(g[i..]))
  }

  lemma {:induction false} JoinNumerals(g: seq<nat>)
    requires g != []
    ensures Join(Numerals(g)) == Numeral(g[0], 16) + (if |g| > 1 then ":" else "") + Join(Numerals(g[1..]))
  {
    hide Numeral;
    assert Numerals(g)[1..] == Numerals(g[1..]);
  }

  lemma {:induction false} RemainingStep(g: seq<nat>, i: nat, start: int, len: int)
    requires |g| == 8 && i < 8 && (len != 0 ==> 0 <= start && 2 <= len && start + len <= 8)
    requires len != 0 ==> i < start || i >= start + len
    ensures Remaining(g, i, start, len)
            == Numeral(g[i], 16) + (if i < 7 && (len == 0 || i + 1 != start) then ":" else "")
               + Remaining(g, i + 1, start, len)
  {
    hide Numeral, Numerals, Join;
    var part := if len != 0 && i < start then g[i..start] else g[i..];
    JoinNumerals(part);
    assert part[1..] == if len != 0 && i < start then g[i + 1..start] else g[i + 1..];
  }

  lemma {:induction false} NumeralsCanonical(g: seq<nat>)
    requires forall i | 0 <= i < |g| :: g[i] < 0x1_0000
    ensures CanonicalGroups(Numerals(g), g)
  {
    hide Numeral, ValueOf;
    var p := Numerals(g);
    forall i | 0 <= i < |g|
      ensures IsGroup(p[i]) && ValueOf(p[i], 16) == g[i] && LowerCase(p[i]) && (|p[i]| > 1 ==> p[i][0] != '0')
    {
      FourDigits(g[i]);
      NumeralRoundTrip(g[i], 16);
      NumeralCanonical(g[i], 16);
    }
  }

  lemma FourDigits(n: nat)
    requires n < 0x1_0000
    ensures |Numeral(n, 16)| <= 4
  {
    assert Power(16, 4) == 0x1_0000;
    NumeralFits(n, 16, 4);
  }

  lemma {:induction false} RemainingCanonical(g: seq<nat>, start: int, len: int)
    requires IsGroups(g)
    requires (len == 0 && NoRun(g)) || (len != 0 && LongestRun(g, start, len))
    ensures Rfc5952(Remaining(g, 0, start, len), g)
  {
    hide Join, Numerals, CanonicalGroups, NoRun;
    var t := Remaining(g, 0, start, len);
    if len == 0 {
      assert g[0..] == g;
      NumeralsCanonical(g);
    } else {
      var before, after := g[..start], g[start + len..];
      assert g[0..start] == before;
      NumeralsCanonical(before);
      NumeralsCanonical(after);
      assert Around(t, g, start, len, Numerals(before), Numerals(after));
    }
  }

  /** The printed text is the canonical one. */
  method ToStringV6(b: seq<byte>) returns (text: string)
    requires |b| == 16
    ensures Rfc5952(text, GroupsOf(b))
  {
    hide GroupsOf, GroupAt, Remaining, Rfc5952, Numeral, NoRun;
    ghost var g := GroupsOf(b);
    var start, len := FindRun(b);
    assert len != 0 ==> len >= 2 && 0 <= start && start + len <= 8;
    hide LongestRun;
    text := "";
    var i := 0;
    while i < 8
      invariant i <= 8 && (len != 0 ==> i <= start || i >= start + len)
      invariant text + Remaining(g, i, start, len) == Remaining(g, 0, start, len)
    {
      if len > 0 && i == start {
        RunStep(g, start, len);
        text := text + "::";
        i := i + (len - 1);
      } else {
        GroupOf(b, i);
        RemainingStep(g, i, start, len);
        var value := GroupAt(b, i);
        text := text + Numeral(value, 16);
        if i < 7 && (len == 0 || i + 1 != start) {
          text := text + ":";
        }
      }
      i := i + 1;
    }
    assert text + "" == text;
    RemainingCanonical(g, start, len);
    NothingRemains(g, start, len);
  }

  lemma RunStep(g: seq<nat>, start: int, len: int)
    requires |g| == 8 && 0 <= start && 2 <= len && start + len <= 8
    ensures Remaining(g, start, start, len) == "::" + Remaining(g, start + len, start, len)
  {
    assert g[start..start] == [];
  }

  lemma NothingRemains(g: seq<nat>, start: int, len: int)
    requires |g| == 8 && (len != 0 ==> 0 <= start && 2 <= len && start + len <= 8)
    ensures Remaining(g, 8, start, len) == ""
  {
    assert g[8..] == [];
  }

  // ---------- printing and parsing ----------

  /** Parsing the canonical text of an address gives its bytes. */
  lemma {:induction false} PrintedParses(t: string, b: seq<byte>)
    requires |b| == 16 && Rfc5952(t, GroupsOf(b))
    ensures ParsedBytes(t) == b && ':' in t
  {
    hide Rfc5952, IsTextOf, Parse, GroupsOf, Bytes;
    var g := GroupsOf(b);
    CanonicalIsText(t, g);
    ParsesExactlyTexts(t, g);
    BytesOfGroups(b);
    CanonicalHasColon(t, g);
  }

  lemma {:induction false} CanonicalHasColon(t: string, g: seq<nat>)
    requires |g| == 8 && Rfc5952(t, g)
    ensures ':' in t
  {
    hide GroupTexts, Values, NoRun;
    if p :| CanonicalGroups(p, g) && t == Join(p) { assert t == p[0] + ":" + Join(p[1..]); }
    if a, n, l, r :| LongestRun(g, a, n) && Around(t, g, a, n, l, r) {
      assert t[|Join(l)|] == ':';
    }
  }
}
