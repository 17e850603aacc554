/** The two character filters that run before a lenient parse, and the texts they leave alone. */
module JsonLenient {
  import opened JsonGrammar
  import opened JsonParser

  // ---------- removeTailComma ----------

  predicate Closes(c: char) {
    c == ']' || c == '}'
  }

  /** The comma at i is followed, after whitespace, by a closing bracket. */
  predicate IsTrailing(s: string, i: nat)
    requires i < |s|
  {
    var j := SkipSpace(s, i + 1);
    j < |s| && Closes(s[j])
  }

  /** The quote test of each filter: a quote toggles the string state unless a backslash stands
      before it; the comment filter (lax) lets a second backslash before that one undo the first. */
  predicate Toggles(s: string, i: nat, lax: bool)
    requires i < |s|
  {
    s[i] == '\"' && (i == 0 || s[i - 1] != '\\' || (lax && i >= 2 && s[i - 2] == '\\'))
  }

  datatype Flags = Flags(inString: bool, inArray: bool, inObject: bool)

  function Advance(s: string, i: nat, f: Flags): (g: Flags)
    requires i < |s|
  {
    var inString := if Toggles(s, i, false) then !f.inString else f.inString;
    if inString then f.(inString := true)
    else match s[i]
      case '[' => Flags(false, true, f.inObject)
      case ']' => Flags(false, false, f.inObject)
      case '{' => Flags(false, f.inArray, true)
      case '}' => Flags(false, f.inArray, false)
      case _ => f.(inString := false)
  }

  predicate Drops(s: string, i: nat, g: Flags)
    requires i < |s|
  {
    !g.inString && (g.inArray || g.inObject) && s[i] == ',' && IsTrailing(s, i)
  }

  /** What the trailing-comma filter outputs from position i on. */
  function TailFrom(s: string, i: nat, f: Flags): (r: string)
    requires i <= |s|
    decreases |s| - i
  {
    if i == |s| then ""
    else
      var g := Advance(s, i, f);
      (if Drops(s, i, g) then "" else [s[i]]) + TailFrom(s, i + 1, g)
  }

  lemma TailStep(s: string, i: nat, f: Flags, done: string)
    requires i < |s|
    ensures var g := Advance(s, i, f);
            done + TailFrom(s, i, f) == (if Drops(s, i, g) then done else done + [s[i]]) + TailFrom(s, i + 1, g)
  {
  }

  function RemoveTailComma(s: string): (r: string) {
    TailFrom(s, 0, Flags(false, false, false))
  }

  method RemoveTailCommaLoop(str: string) returns (result: string)
    ensures result == RemoveTailComma(str)
  {
    hide IsTrailing, TailFrom;
    result := "";
    var inString, inArray, inObject := false, false, false;
    var i := 0;
    while i < |str|
      invariant i <= |str|
      invariant RemoveTailComma(str) == result + TailFrom(str, i, Flags(inString, inArray, inObject))
    {
      TailStep(str, i, Flags(inString, inArray, inObject), result);
      if str[i] == '\"' && (i == 0 || str[i - 1] != '\\') { inString := !inString; }
      var drop := false;
      if !inString {
        if str[i] == '[' { inArray := true; }
        else if str[i] == ']' { inArray := false; }
        else if str[i] == '{' { inObject := true; }
        else if str[i] == '}' { inObject := false; }
        if (inArray || inObject) && str[i] == ',' {
          drop := ClosesAfterSpace(str, i);
        }
      }
      if !drop { result := result + [str[i]]; }
      i := i + 1;
    }
    TailEnd(str, Flags(inString, inArray, inObject));
  }

  lemma TailEnd(s: string, f: Flags)
    ensures TailFrom(s, |s|, f) == ""
  {
  }

  method ClosesAfterSpace(str: string, i: nat) returns (trailing: bool)
    requires i < |str|
    ensures trailing == IsTrailing(str, i)
  {
    var j := i + 1;
    while j < |str| && IsSpace(str[j])
      invariant i < j <= |str|
      invariant SkipSpace(str, i + 1) == SkipSpace(str, j)
    {
      j := j + 1;
    }
    trailing := j < |str| && (str[j] == ']' || str[j] == '}');
  }

  // ---------- removeComments ----------

  datatype Mode = Code(inString: bool) | LineComment(inString: bool) | BlockComment(inString: bool)

  predicate Pairs(s: string, i: nat, a: char, b: char)
    requires i < |s|
  {
    s[i] == a && i + 1 < |s| && s[i + 1] == b
  }

  /** One turn of the comment filter: the mode after it, the characters taken, the output. */
  datatype Move = Move(mode: Mode, width: nat, out: string)

  function CommentMove(s: string, i: nat, m: Mode): (r: Move)
    requires i < |s|
    ensures 0 < r.width && i + r.width <= |s| && |r.out| <= r.width
  {
    match m
    case LineComment(q) => if s[i] == '\n' then Move(Code(q), 1, [s[i]]) else Move(m, 1, "")
    case BlockComment(q) => if Pairs(s, i, '*', '/') then Move(Code(q), 2, "") else Move(m, 1, "")
    case Code(q) =>
      if Toggles(s, i, true) then Move(Code(!q), 1, [s[i]])
      else if !q && Pairs(s, i, '/', '/') then Move(LineComment(q), 2, "")
      else if !q && Pairs(s, i, '/', '*') then Move(BlockComment(q), 2, "")
      else Move(m, 1, [s[i]])
  }

  /** What the comment filter outputs from position i on. */
  function CommentsFrom(s: string, i: nat, m: Mode): (r: string)
    requires i <= |s|
    decreases |s| - i
  {
    if i == |s| then ""
    else
      var move := CommentMove(s, i, m);
      move.out + CommentsFrom(s, i + move.width, move.mode)
  }

  lemma CommentsStep(s: string, i: nat, m: Mode, done: string)
    requires i < |s|
    ensures var move := CommentMove(s, i, m);
            done + CommentsFrom(s, i, m) == (done + move.out) + CommentsFrom(s, i + move.width, move.mode)
  {
  }

  function RemoveComments(s: string): (r: string) {
    CommentsFrom(s, 0, Code(false))
  }

  function ModeOf(inString: bool, inSingleLineComment: bool, inMultiLineComment: bool): Mode {
    if inSingleLineComment then LineComment(inString)
    else if inMultiLineComment then BlockComment(inString)
    else Code(inString)
  }

  method RemoveCommentsLoop(str: string) returns (result: string)
    ensures result == RemoveComments(str)
  {
    hide CommentsFrom;
    result := "";
    var inString, inSingleLineComment, inMultiLineComment := false, false, false;
    var i := 0;
    while i < |str|
      invariant i <= |str|
      invariant !(inSingleLineComment && inMultiLineComment)
      invariant RemoveComments(str)
             == result + CommentsFrom(str, i, ModeOf(inString, inSingleLineComment, inMultiLineComment))
    {
      CommentsStep(str, i, ModeOf(inString, inSingleLineComment, inMultiLineComment), result);
      assert result + "" == result;
      if inSingleLineComment {
        if str[i] == '\n' {
          inSingleLineComment := false;
          result := result + [str[i]];
        }
      } else if inMultiLineComment {
        if str[i] == '*' && i + 1 < |str| && str[i + 1] == '/' {
          inMultiLineComment := false;
          i := i + 1;
        }
      } else {
        if str[i] == '\"' && (i == 0 || str[i - 1] != '\\' ||
                              (i >= 2 && str[i - 1] == '\\' && str[i - 2] == '\\')) {
          inString := !inString;
          result := result + [str[i]];
        } else if !inString && str[i] == '/' && i + 1 < |str| && str[i + 1] == '/' {
          inSingleLineComment := true;
          i := i + 1;
        } else if !inString && str[i] == '/' && i + 1 < |str| && str[i + 1] == '*' {
          inMultiLineComment := true;
          i := i + 1;
        } else {
          result := result + [str[i]];
        }
      }
      i := i + 1;
    }
    CommentsEnd(str, ModeOf(inString, inSingleLineComment, inMultiLineComment));
  }

  lemma CommentsEnd(s: string, m: Mode)
    ensures CommentsFrom(s, |s|, m) == ""
  {
  }

  // ---------- quiet text ----------

  /** The string state a filter is in on reaching position i, as long as no comment started. */
  function InString(s: string, i: nat, lax: bool): (b: bool)
    requires i <= |s|
  {
    if i == 0 then false
    else if Toggles(s, i - 1, lax) then !InString(s, i - 1, lax)
    else InString(s, i - 1, lax)
  }

  /** A filter finds nothing to do at position i: it is in a string there, or it sees neither a
      slash nor a trailing comma. */
  predicate QuietAt(s: string, i: nat, lax: bool)
    requires i < |s|
  {
    InString(s, i, lax) || (s[i] != '/' && (s[i] == ',' ==> !IsTrailing(s, i)))
  }

  /** From p to q, both outside strings, a filter finds nothing to do. */
  predicate Quiet(s: string, p: nat, q: nat, lax: bool) {
    && p <= q <= |s|
    && !InString(s, p, lax) && !InString(s, q, lax)
    && forall i | p <= i < q :: QuietAt(s, i, lax)
  }

  lemma {:induction false} QuietTail(s: string, i: nat, f: Flags)
    requires i <= |s| && Quiet(s, 0, |s|, false) && f.inString == InString(s, i, false)
    ensures TailFrom(s, i, f) == s[i..]
    decreases |s| - i
  {
    hide IsTrailing;
    if i < |s| {
      assert QuietAt(s, i, false);
      QuietTail(s, i + 1, Advance(s, i, f));
      assert s[i..] == [s[i]] + s[i + 1..];
    }
  }

  lemma {:induction false} QuietComments(s: string, i: nat)
    requires i <= |s| && Quiet(s, 0, |s|, true)
    ensures CommentsFrom(s, i, Code(InString(s, i, true))) == s[i..]
    decreases |s| - i
  {
    hide IsTrailing;
    if i < |s| {
      assert QuietAt(s, i, true);
      QuietComments(s, i + 1);
      assert s[i..] == [s[i]] + s[i + 1..];
    }
  }

  /** Text that is quiet for both filters passes both unchanged. */
  lemma {:induction false} QuietUnchanged(s: string)
    requires Quiet(s, 0, |s|, false) && Quiet(s, 0, |s|, true)
    ensures RemoveTailComma(s) == s && RemoveComments(RemoveTailComma(s)) == s
  {
    QuietTail(s, 0, Flags(false, false, false));
    QuietComments(s, 0);
    assert s[0..] == s;
  }

  // ---------- exactly which texts pass unchanged ----------

  /** The flags of the comma filter before position i. */
  function FlagsAt(s: string, i: nat): (f: Flags)
    requires i <= |s|
  {
    if i == 0 then Flags(false, false, false) else Advance(s, i - 1, FlagsAt(s, i - 1))
  }

  /** The guard of the comma filter's `continue`. */
  predicate DropsAt(s: string, i: nat)
    requires i < |s|
  {
    Drops(s, i, FlagsAt(s, i + 1))
  }

  /** It holds nowhere. */
  predicate KeepsCommas(s: string) {
    forall i | 0 <= i < |s| :: !DropsAt(s, i)
  }

  /** A comment opener. */
  predicate Opens(s: string, i: nat)
    requires i < |s|
  {
    Pairs(s, i, '/', '/') || Pairs(s, i, '/', '*')
  }

  /** The guards of the comment filter's two comment branches hold nowhere: every comment opener is
      inside what the filter takes for a string. */
  predicate KeepsSlashes(s: string) {
    forall i | 0 <= i < |s| :: Opens(s, i) ==> InString(s, i, true)
  }

  lemma {:induction false} TailShortens(s: string, i: nat, f: Flags)
    requires i <= |s|
    ensures |TailFrom(s, i, f)| <= |s| - i
    decreases |s| - i
  {
    hide Advance, Drops;
    if i < |s| { TailShortens(s, i + 1, Advance(s, i, f)); }
  }

  lemma ConsCancels(c: char, a: string, b: string)
    ensures [c] + a == [c] + b <==> a == b
  {
    assert ([c] + a)[1..] == a && ([c] + b)[1..] == b;
  }

  lemma {:induction false} TailUnchanged(s: string, i: nat)
    requires i <= |s|
    ensures TailFrom(s, i, FlagsAt(s, i)) == s[i..] <==> forall k | i <= k < |s| :: !DropsAt(s, k)
    decreases |s| - i
  {
    hide Advance, Drops;
    if i < |s| {
      TailUnchanged(s, i + 1);
      assert s[i..] == [s[i]] + s[i + 1..];
      if DropsAt(s, i) {
        TailShortens(s, i + 1, FlagsAt(s, i + 1));
      } else {
        ConsCancels(s[i], TailFrom(s, i + 1, FlagsAt(s, i + 1)), s[i + 1..]);
      }
    }
  }

  lemma {:induction false} CommentsShorten(s: string, i: nat, m: Mode)
    requires i <= |s|
    ensures |CommentsFrom(s, i, m)| <= |s| - i
    decreases |s| - i
  {
    hide CommentMove;
    if i < |s| {
      var move := CommentMove(s, i, m);
      CommentsShorten(s, i + move.width, move.mode);
    }
  }

  lemma {:induction false} CodeMove(s: string, i: nat)
    requires i < |s|
    ensures var q := InString(s, i, true);
            var move := CommentMove(s, i, Code(q));
            if Opens(s, i) && !q then move.out == "" else move == Move(Code(InString(s, i + 1, true)), 1, [s[i]])
  {
  }

  lemma {:induction false} CommentsHead(s: string, i: nat)
    requires i < |s|
    ensures var q := InString(s, i, true);
            var r := CommentsFrom(s, i, Code(q));
            if Opens(s, i) && !q then |r| < |s| - i else r == [s[i]] + CommentsFrom(s, i + 1, Code(InString(s, i + 1, true)))
  {
    hide CommentMove, Opens, InString;
    var move := CommentMove(s, i, Code(InString(s, i, true)));
    CodeMove(s, i);
    CommentsShorten(s, i + move.width, move.mode);
  }

  lemma {:induction false} CommentsUnchanged(s: string, i: nat)
    requires i <= |s|
    ensures CommentsFrom(s, i, Code(InString(s, i, true))) == s[i..]
            <==> forall k | i <= k < |s| :: Opens(s, k) ==> InString(s, k, true)
    decreases |s| - i
  {
    hide CommentsFrom, Opens, InString;
    if i == |s| {
      CommentsEnd(s, Code(InString(s, i, true)));
    } else {
      CommentsHead(s, i);
      CommentsUnchanged(s, i + 1);
      assert s[i..] == [s[i]] + s[i + 1..];
      ConsCancels(s[i], CommentsFrom(s, i + 1, Code(InString(s, i + 1, true))), s[i + 1..]);
    }
  }

  /** Each filter leaves a text as it is exactly when its guards hold nowhere. */
  lemma {:induction false} UnchangedExactly(s: string)
    ensures RemoveTailComma(s) == s <==> KeepsCommas(s)
    ensures RemoveComments(s) == s <==> KeepsSlashes(s)
  {
    hide DropsAt, Opens, TailFrom, CommentsFrom;
    TailUnchanged(s, 0);
    CommentsUnchanged(s, 0);
    assert s[0..] == s;
  }
}
