/** Splitting, joining, searching and replacing with a non-empty delimiter. (With an empty one the
    library's loops never advance.) The parts of a split are the leftmost cut of the text; joining
    them, listing the cuts and replacing are all stated in terms of it. */
module StringUtil {

  import opened Wrappers

  // ---------- occurrences ----------

  predicate Occurs(s: string, d: string, i: int) {
    0 <= i && i + |d| <= |s| && s[i..i + |d|] == d
  }

  /** std::string::find(d, from): the first occurrence at or after `from`. */
  function Find(s: string, d: string, from: nat): (r: Option<nat>)
    ensures r.Some? ==> from <= r.value && Occurs(s, d, r.value) && forall i | from <= i < r.value :: !Occurs(s, d, i)
    ensures r.None? ==> forall i | from <= i :: !Occurs(s, d, i)
    decreases |s| - from
  {
    if from + |d| > |s| then None else if Occurs(s, d, from) then Some(from) else Find(s, d, from + 1)
  }

  lemma {:induction false} OccursShift(t: string, s: string, d: string, i: int)
    requires i >= 0
    ensures Occurs(t + s, d, |t| + i) <==> Occurs(s, d, i)
  {
    if i + |d| <= |s| { assert (t + s)[|t| + i..|t| + i + |d|] == s[i..i + |d|]; }
  }

  /** Searching past a prefix is searching what follows it. */
  lemma {:induction false} FindPast(t: string, s: string, d: string)
    ensures Find(t + s, d, |t|)
            == match Find(s, d, 0) case Some(i) => Some(|t| + i) case None => None
  {
    hide Occurs;
    var whole, part := Find(t + s, d, |t|), Find(s, d, 0);
    if whole.Some? { OccursShift(t, s, d, whole.value - |t|); }
    if part.Some? { OccursShift(t, s, d, part.value); }
    forall i | 0 <= i ensures Occurs(t + s, d, |t| + i) <==> Occurs(s, d, i) { OccursShift(t, s, d, i); }
  }

  // ---------- the results ----------

  function Join(parts: seq<string>, sep: string): (s: string) {
    if parts == [] then "" else if |parts| == 1 then parts[0] else parts[0] + sep + Join(parts[1..], sep)
  }

  function Split(s: string, d: string): (parts: seq<string>)
    requires d != ""
    ensures parts != []
    decreases |s|
  {
    match Find(s, d, 0)
    case None => [s]
    case Some(end) => [s[..end]] + Split(s[end + |d|..], d)
  }

  /** The positions of the successive occurrences that do not overlap. */
  function FindAll(s: string, d: string, from: nat): (positions: seq<nat>)
    requires d != ""
    decreases |s| - from
  {
    match Find(s, d, from)
    case None => []
    case Some(at) => [at] + FindAll(s, d, at + |d|)
  }

  function Replace(s: string, d: string, r: string): (t: string)
    requires d != ""
  {
    Join(Split(s, d), r)
  }

  // ---------- what Split means ----------

  /** d ends t and occurs nowhere else in it. */
  predicate OnlyAtEnd(t: string, d: string) {
    forall i | 0 <= i < |t| - |d| :: !Occurs(t, d, i)
  }

  /** Parts between the leftmost delimiters: followed by the delimiter, no part shows it earlier. */
  predicate Leftmost(parts: seq<string>, d: string) {
    && parts != []
    && (forall i | 0 <= i < |parts| - 1 :: OnlyAtEnd(parts[i] + d, d))
    && Find(parts[|parts| - 1], d, 0).None?
  }

  lemma {:induction false} JoinCons(head: string, parts: seq<string>, sep: string)
    requires parts != []
    ensures Join([head] + parts, sep) == head + sep + Join(parts, sep)
  {
    assert ([head] + parts)[1..] == parts;
  }

  lemma {:induction false} OccursInPrefix(s: string, t: string, d: string, i: int)
    requires 0 <= i && i + |d| <= |s|
    ensures Occurs(s + t, d, i) <==> Occurs(s, d, i)
  {
    assert (s + t)[i..i + |d|] == s[i..i + |d|];
  }

  /** The first delimiter of `head + d + tail` follows `head` exactly when `head + d` shows it only at its end. */
  lemma {:induction false} FirstDelimiter(head: string, d: string, tail: string)
    requires d != ""
    ensures Find(head + d + tail, d, 0) == Some(|head|) <==> OnlyAtEnd(head + d, d)
  {
    hide Occurs, Find;
    var t := head + d;
    DelimiterOccurs(head, d, tail);
    forall i | 0 <= i < |t| - |d| ensures Occurs(t + tail, d, i) <==> Occurs(t, d, i) { OccursInPrefix(t, tail, d, i); }
  }

  lemma DelimiterOccurs(head: string, d: string, tail: string)
    ensures Occurs(head + d + tail, d, |head|)
  {
    assert (head + d + tail)[|head|..|head| + |d|] == d;
  }

  lemma {:induction false} CutAt(s: string, d: string, at: nat)
    requires Occurs(s, d, at)
    ensures s == s[..at] + d + s[at + |d|..]
  {
  }

  /** Joining the parts gives the text back, and the parts are the leftmost cut. */
  lemma {:induction false} SplitIsLeftmost(s: string, d: string)
    requires d != ""
    ensures Join(Split(s, d), d) == s && Leftmost(Split(s, d), d)
    decreases |s|
  {
    hide Occurs, Find, Join, OnlyAtEnd;
    match Find(s, d, 0)
    case None =>
      JoinOne(s, d);
    case Some(end) =>
      OccursBound(s, d, end);
      var head, tail := s[..end], s[end + |d|..];
      CutAt(s, d, end);
      SplitIsLeftmost(tail, d);
      JoinCons(head, Split(tail, d), d);
      FirstDelimiter(head, d, tail);
  }

  lemma JoinOne(s: string, d: string)
    ensures Join([s], d) == s
  {
  }

  /** There is only one leftmost cut of a text. */
  lemma {:induction false} LeftmostIsSplit(parts: seq<string>, d: string)
    requires d != "" && Leftmost(parts, d)
    ensures Split(Join(parts, d), d) == parts
    decreases |parts|
  {
    hide Occurs, Find, Join, OnlyAtEnd;
    if |parts| == 1 {
      JoinOne(parts[0], d);
      assert parts == [parts[0]];
    } else {
      var head, rest := parts[0], parts[1..];
      assert parts == [head] + rest;
      assert Leftmost(rest, d);
      LeftmostIsSplit(rest, d);
      JoinCons(head, rest, d);
      var tail := Join(rest, d);
      FirstDelimiter(head, d, tail);
      var s := head + d + tail;
      assert s[..|head|] == head && s[|head| + |d|..] == tail;
    }
  }

  /** The split of a text is the one sequence of parts that joins back to it leftmost. */
  lemma {:induction false} SplitExactly(s: string, d: string, parts: seq<string>)
    requires d != ""
    ensures parts == Split(s, d) <==> Join(parts, d) == s && Leftmost(parts, d)
  {
    hide Leftmost, Split, Join;
    SplitIsLeftmost(s, d);
    if Join(parts, d) == s && Leftmost(parts, d) { LeftmostIsSplit(parts, d); }
  }

  // ---------- positions and parts ----------

  /** The parts of s between cuts of length n at the positions. */
  function Cut(s: string, from: nat, positions: seq<nat>, n: nat): (parts: seq<string>)
    ensures |parts| == |positions| + 1
    decreases |positions|
  {
    if positions == [] then [if from <= |s| then s[from..] else ""]
    else [if from <= positions[0] <= |s| then s[from..positions[0]] else ""]
         + Cut(s, positions[0] + n, positions[1..], n)
  }

  /** FindAll gives exactly the positions where Split cuts: one part more than positions. */
  lemma {:induction false} SplitCutsAtFindAll(s: string, d: string, from: nat)
    requires d != "" && from <= |s|
    ensures Split(s[from..], d) == Cut(s, from, FindAll(s, d, from), |d|)
    ensures |Split(s[from..], d)| == |FindAll(s, d, from)| + 1
    decreases |s| - from
  {
    hide Occurs, Find, Split, FindAll, Cut;
    var t := s[from..];
    assert s == s[..from] + t;
    FindPast(s[..from], t, d);
    match Find(t, d, 0)
    case None => NothingFound(s, d, from);
    case Some(i) =>
      OccursBound(t, d, i);
      SplitCutsAtFindAll(s, d, from + i + |d|);
      SliceOfRest(s, from, i, i + |d|);
      FoundAt(s, d, from, i);
  }

  lemma NothingFound(s: string, d: string, from: nat)
    requires d != "" && from <= |s| && Find(s[from..], d, 0).None? && Find(s, d, from).None?
    ensures Split(s[from..], d) == [s[from..]] == Cut(s, from, [], |d|) && FindAll(s, d, from) == []
  {
    hide Occurs, Find;
  }

  lemma FoundAt(s: string, d: string, from: nat, i: nat)
    requires d != "" && from + i + |d| <= |s|
    requires Find(s[from..], d, 0) == Some(i) && Find(s, d, from) == Some(from + i)
    requires s[from..][..i] == s[from..from + i] && s[from..][i + |d|..] == s[from + i + |d|..]
    ensures Split(s[from..], d) == [s[from..from + i]] + Split(s[from + i + |d|..], d)
    ensures Cut(s, from, FindAll(s, d, from), |d|)
            == [s[from..from + i]] + Cut(s, from + i + |d|, FindAll(s, d, from + i + |d|), |d|)
  {
    hide Occurs, Find;
    assert FindAll(s, d, from)[1..] == FindAll(s, d, from + i + |d|);
  }

  lemma SliceOfRest(s: string, from: nat, i: nat, j: nat)
    requires from <= |s| && i <= j <= |s| - from
    ensures s[from..][..i] == s[from..from + i] && s[from..][j..] == s[from + j..]
  {
  }

  lemma OccursBound(s: string, d: string, i: int)
    requires Occurs(s, d, i)
    ensures i + |d| <= |s|
  {
  }

  // ---------- the loops ----------

  method SplitLoop(str: string, delimiter: string) returns (result: seq<string>)
    requires delimiter != ""
    ensures result == Split(str, delimiter)
  {
    hide Occurs, Find;
    result := [];
    var start := 0;
    assert str[0..] == str;
    while true
      invariant start <= |str|
      invariant result + Split(str[start..], delimiter) == Split(str, delimiter)
      decreases |str| - start
    {
      ghost var rest := str[start..];
      assert str == str[..start] + rest;
      FindPast(str[..start], rest, delimiter);
      var end := Find(str, delimiter, start);
      if end.None? { break; }
      OccursBound(str, delimiter, end.value);
      SliceOfRest(str, start, end.value - start, end.value - start + |delimiter|);
      result := result + [str[start..end.value]];
      start := end.value + |delimiter|;
    }
    result := result + [str[start..]];
  }

  method JoinLoop(strings: seq<string>, separator: string) returns (result: string)
    ensures result == Join(strings, separator)
  {
    hide Join;
    JoinEmpty(separator);
    if strings == [] { return ""; }
    result := strings[0];
    JoinOne(strings[0], separator);
    assert strings[..1] == [strings[0]];
    for i := 1 to |strings|
      invariant result == Join(strings[..i], separator)
    {
      result := result + (separator + strings[i]);
      assert strings[..i + 1] == strings[..i] + [strings[i]];
      JoinSnoc(strings[..i], strings[i], separator);
    }
    assert strings[..|strings|] == strings;
  }

  lemma JoinEmpty(sep: string)
    ensures Join([], sep) == ""
  {
  }

  lemma {:induction false} JoinSnoc(parts: seq<string>, last: string, sep: string)
    requires parts != []
    ensures Join(parts + [last], sep) == Join(parts, sep) + (sep + last)
  {
    if |parts| == 1 {
      JoinOne(last, sep);
      JoinCons(parts[0], [last], sep);
      assert parts + [last] == [parts[0]] + [last];
    } else {
      JoinSnoc(parts[1..], last, sep);
      assert parts + [last] == [parts[0]] + (parts[1..] + [last]);
      JoinCons(parts[0], parts[1..] + [last], sep);
    }
  }

  method FindAllLoop(str: string, sub: string) returns (positions: seq<nat>)
    requires sub != ""
    ensures positions == FindAll(str, sub, 0)
  {
    hide Occurs, Find;
    positions := [];
    var pos := Find(str, sub, 0);
    ghost var from := 0;
    while pos.Some?
      invariant pos == Find(str, sub, from)
      invariant positions + FindAll(str, sub, from) == FindAll(str, sub, 0)
      decreases |str| - from
    {
      OccursBound(str, sub, pos.value);
      positions := positions + [pos.value];
      from := pos.value + |sub|;
      pos := Find(str, sub, pos.value + |sub|);
    }
  }

  /** A text that is edited in place. */
  class Text {
    var str: string

    /** Every leftmost occurrence is replaced once: what a replacement brings in is not searched. */
    method ReplaceAll(oldSub: string, newSub: string)
      requires oldSub != ""
      modifies this
      ensures str == Join(Split(old(str), oldSub), newSub)
    {
      hide Occurs, Find, Split, Join;
      var pos := 0;
      ghost var done, rest := "", str;
      while true
        invariant str == done + rest && pos == |done|
        invariant done + Replace(rest, oldSub, newSub) == Replace(old(str), oldSub, newSub)
        decreases |rest|
      {
        FindPast(done, rest, oldSub);
        var at := Find(str, oldSub, pos);
        ReplaceStep(rest, oldSub, newSub);
        if at.None? { break; }
        OccursBound(str, oldSub, at.value);
        ghost var i := at.value - |done|;
        EditAfter(done, rest, i, i + |oldSub|, newSub, Replace(rest[i + |oldSub|..], oldSub, newSub));
        str := str[..at.value] + newSub + str[at.value + |oldSub|..];
        done, rest := done + rest[..i] + newSub, rest[i + |oldSub|..];
        pos := at.value + |newSub|;
      }
    }
  }

  /** An edit behind `done`, and how the result is put together. */
  lemma EditAfter(done: string, rest: string, i: nat, j: nat, r: string, tail: string)
    requires i <= j <= |rest|
    ensures var s := done + rest; s[..|done| + i] + r + s[|done| + j..] == (done + rest[..i] + r) + rest[j..]
    ensures done + (rest[..i] + r + tail) == (done + rest[..i] + r) + tail
  {
  }

  lemma {:induction false} ReplaceStep(s: string, d: string, r: string)
    requires d != ""
    ensures match Find(s, d, 0)
            case None => Replace(s, d, r) == s
            case Some(i) => i + |d| <= |s| && Replace(s, d, r) == s[..i] + r + Replace(s[i + |d|..], d, r)
  {
    hide Occurs, Find, Join;
    match Find(s, d, 0)
    case None => JoinOne(s, r);
    case Some(i) =>
      OccursBound(s, d, i);
      JoinCons(s[..i], Split(s[i + |d|..], d), r);
  }
}
