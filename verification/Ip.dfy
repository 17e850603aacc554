/** IP addresses of both kinds: printing, parsing and the validity test. */
module Ip {
  // IPv4 text is read through a stream. What the stream does on ill-formed numbers and on whitespace is
  // left open; it reads a number as printed, and the character after it.

  import opened Wrappers
  import opened Digits
  import Ipv6

  // ---------- the stream ----------

  /** Extraction of an int and of a character from a text at a position: the value and the position after it. */
  datatype Stream = Stream(number: (string, nat) -> Option<(int, nat)>, character: (string, nat) -> Option<(char, nat)>)

  predicate Stands(s: string, p: nat, t: string) {
    p + |t| <= |s| && s[p..p + |t|] == t
  }

  predicate EndsAt(s: string, p: nat) {
    p == |s| || (p < |s| && s[p] == '.')
  }

  /** Numerals of bytes followed by a dot or the end are read, then the dot; at the end there is nothing. */
  ghost predicate ReadsPrinted(io: Stream) {
    && (forall s: string, p: nat, n: nat | n < 256 && Stands(s, p, Numeral(n, 10)) && EndsAt(s, p + |Numeral(n, 10)|) ::
          io.number(s, p) == Some((n as int, p + |Numeral(n, 10)|)))
    && (forall s: string, p: nat | p < |s| && s[p] == '.' :: io.character(s, p) == Some(('.', p + 1)))
    && (forall s: string :: io.character(s, |s|) == None)
  }

  // ---------- IPv4 ----------

  /** The bytes of i and more groups, from position p on. */
  function GroupsFrom(s: string, p: nat, i: nat, io: Stream): (r: Option<seq<byte>>)
    requires i < 4
    decreases 4 - i
  {
    match io.number(s, p)
    case None => None
    case Some((n, q)) =>
      if n < 0 || n > 255 then None
      else if i == 3 then if io.character(s, q).Some? then None else Some([n])
      else
        match io.character(s, q)
        case None => None
        case Some((c, r)) =>
          if c != '.' then None else Prepend([n], GroupsFrom(s, r, i + 1, io))
  }

  function Prepend(b: seq<byte>, r: Option<seq<byte>>): (t: Option<seq<byte>>) {
    match r case Some(rest) => Some(b + rest) case None => None
  }

  lemma PrependTwice(a: seq<byte>, b: seq<byte>, r: Option<seq<byte>>)
    ensures Prepend(a, Prepend(b, r)) == Prepend(a + b, r) && Prepend([], r) == r
  {
    if r.Some? {
      assert a + (b + r.value) == a + b + r.value;
      assert [] + r.value == r.value;
    }
  }

  function BytesV4(s: string, io: Stream): (b: seq<byte>) {
    match GroupsFrom(s, 0, 0, io)
    case Some(b) => b
    case None => []
  }

  method ToBytesV4(text: string, io: Stream) returns (bytes: seq<byte>)
    ensures bytes == BytesV4(text, io)
  {
    var result: seq<byte> := [];
    var p := 0;
    PrependTwice([], [], GroupsFrom(text, 0, 0, io));
    for i := 0 to 4
      invariant |result| == i
      invariant i < 4 ==> GroupsFrom(text, 0, 0, io) == Prepend(result, GroupsFrom(text, p, i, io))
      invariant i == 4 ==>
                  GroupsFrom(text, 0, 0, io) == if io.character(text, p).Some? then None else Some(result)
    {
      var number := io.number(text, p);
      if number.None? { return []; }
      var (n, q) := number.value;
      if n < 0 || n > 255 { return []; }
      ghost var before := result;
      result := result + [n];
      p := q;
      if i < 3 {
        var dot := io.character(text, p);
        if dot.None? || dot.value.0 != '.' { return []; }
        PrependTwice(before, [n], GroupsFrom(text, dot.value.1, i + 1, io));
        p := dot.value.1;
      }
    }
    if io.character(text, p).Some? { return []; }
    return result;
  }

  /** Four numbers with dots between them and nothing after them: c lists the positions before and after
      each number. */
  predicate FourNumbers(s: string, io: Stream, b: seq<byte>, c: seq<nat>) {
    && |b| == 4 && |c| == 8 && c[0] == 0
    && io.number(s, c[0]) == Some((b[0] as int, c[1])) && io.character(s, c[1]) == Some(('.', c[2]))
    && io.number(s, c[2]) == Some((b[1] as int, c[3])) && io.character(s, c[3]) == Some(('.', c[4]))
    && io.number(s, c[4]) == Some((b[2] as int, c[5])) && io.character(s, c[5]) == Some(('.', c[6]))
    && io.number(s, c[6]) == Some((b[3] as int, c[7])) && io.character(s, c[7]) == None
  }

  /** IPv4 text is accepted with these bytes exactly when the stream reads them so. */
  lemma {:induction false} FourNumbersExactly(s: string, io: Stream, b: seq<byte>)
    ensures b != [] && BytesV4(s, io) == b <==> exists c :: FourNumbers(s, io, b, c)
  {
    if b != [] && BytesV4(s, io) == b {
      var (n0, q0) := io.number(s, 0).value;
      var p1 := io.character(s, q0).value.1;
      var (n1, q1) := io.number(s, p1).value;
      var p2 := io.character(s, q1).value.1;
      var (n2, q2) := io.number(s, p2).value;
      var p3 := io.character(s, q2).value.1;
      var (n3, q3) := io.number(s, p3).value;
      assert FourNumbers(s, io, b, [0, q0, p1, q1, p2, q2, p3, q3]);
    }
    if c :| FourNumbers(s, io, b, c) {
      assert GroupsFrom(s, c[6], 3, io) == Some([b[3]]);
      assert GroupsFrom(s, c[4], 2, io) == Some([b[2]] + [b[3]]);
      assert GroupsFrom(s, c[2], 1, io) == Some([b[1]] + ([b[2]] + [b[3]]));
      assert GroupsFrom(s, 0, 0, io) == Some([b[0]] + ([b[1]] + ([b[2]] + [b[3]])));
      assert b == [b[0]] + ([b[1]] + ([b[2]] + [b[3]]));
    }
  }

  /** The text printed for four bytes. */
  function Dotted(b: seq<byte>): (t: string)
    requires |b| == 4
  {
    Numeral(b[0], 10) + "." + Numeral(b[1], 10) + "." + Numeral(b[2], 10) + "." + Numeral(b[3], 10)
  }

  lemma {:induction false} ReadGroup(s: string, p: nat, n: byte, io: Stream)
    requires ReadsPrinted(io) && Stands(s, p, Numeral(n, 10)) && EndsAt(s, p + |Numeral(n, 10)|)
    ensures var q := p + |Numeral(n, 10)|;
            io.number(s, p) == Some((n as int, q)) && io.character(s, q) == if q == |s| then None else Some(('.', q + 1))
  {
    hide Numeral;
  }

  /** The printed text is read as its bytes. */
  lemma {:induction false} DottedReads(b: seq<byte>, io: Stream)
    requires |b| == 4 && ReadsPrinted(io)
    ensures BytesV4(Dotted(b), io) == b
  {
    hide ReadsPrinted, Numeral;
    var s := Dotted(b);
    var x0, x1, x2, x3 := Numeral(b[0], 10), Numeral(b[1], 10), Numeral(b[2], 10), Numeral(b[3], 10);
    var p1 := |x0| + 1;
    var p2 := p1 + |x1| + 1;
    var p3 := p2 + |x2| + 1;
    DottedStands(x0, x1, x2, x3);
    ReadGroup(s, 0, b[0], io);
    ReadGroup(s, p1, b[1], io);
    ReadGroup(s, p2, b[2], io);
    ReadGroup(s, p3, b[3], io);
    assert GroupsFrom(s, p3, 3, io) == Some([b[3]]);
    assert GroupsFrom(s, p2, 2, io) == Some([b[2]] + [b[3]]);
    assert GroupsFrom(s, p1, 1, io) == Some([b[1]] + ([b[2]] + [b[3]]));
    assert GroupsFrom(s, 0, 0, io) == Some([b[0]] + ([b[1]] + ([b[2]] + [b[3]])));
    assert b == [b[0]] + ([b[1]] + ([b[2]] + [b[3]]));
  }

  lemma DottedStands(x0: string, x1: string, x2: string, x3: string)
    ensures var s := x0 + "." + x1 + "." + x2 + "." + x3;
            var p1 := |x0| + 1;
            var p2 := p1 + |x1| + 1;
            var p3 := p2 + |x2| + 1;
            && Stands(s, 0, x0) && EndsAt(s, |x0|) && Stands(s, p1, x1) && EndsAt(s, p1 + |x1|)
            && Stands(s, p2, x2) && EndsAt(s, p2 + |x2|) && Stands(s, p3, x3) && EndsAt(s, p3 + |x3|)
            && |x0| < |s| && p1 + |x1| < |s| && p2 + |x2| < |s| && p3 + |x3| == |s|
  {
  }

  lemma {:induction false} DottedHasNoColon(b: seq<byte>)
    requires |b| == 4
    ensures ':' !in Dotted(b) && Dotted(b) != ""
  {
    NumeralHasNoColon(b[0]);
    NumeralHasNoColon(b[1]);
    NumeralHasNoColon(b[2]);
    NumeralHasNoColon(b[3]);
    hide Numeral;
  }

  lemma NumeralHasNoColon(n: nat)
    ensures ':' !in Numeral(n, 10)
  {
    assert DigitOf(':') == 36;
  }

  // ---------- both kinds ----------

  /** Which text an address has. Other byte strings have none. */
  ghost predicate Printed(t: string, b: seq<byte>) {
    if |b| == 4 then t == Dotted(b)
    else if |b| == 16 then Ipv6.Rfc5952(t, Ipv6.GroupsOf(b))
    else t == ""
  }

  method ToString(b: seq<byte>) returns (text: string)
    ensures Printed(text, b)
  {
    if |b| == 4 {
      return Numeral(b[0], 10) + "." + Numeral(b[1], 10) + "." + Numeral(b[2], 10) + "." + Numeral(b[3], 10);
    }
    if |b| == 16 {
      text := Ipv6.ToStringV6(b);
      return;
    }
    return "";
  }

  function BytesOf(s: string, io: Stream): (b: seq<byte>) {
    if s == "" then [] else if ':' !in s then BytesV4(s, io) else Ipv6.ParsedBytes(s)
  }

  method ToBytes(text: string, io: Stream) returns (bytes: seq<byte>)
    ensures bytes == BytesOf(text, io)
  {
    if text == "" { return []; }
    if ':' !in text {
      bytes := ToBytesV4(text, io);
    } else {
      bytes := Ipv6.ToBytesV6(text);
    }
  }

  /** Text is an address of one kind or the other: bytes come from an IPv6 text, or from four numbers of a
      text without a colon; the empty text has none. */
  lemma {:induction false} BytesOfExactly(s: string, io: Stream, b: seq<byte>)
    ensures b != [] && BytesOf(s, io) == b <==>
            s != "" && if ':' in s then |b| == 16 && Ipv6.IsTextOf(s, Ipv6.GroupsOf(b)) else exists c :: FourNumbers(s, io, b, c)
  {
    hide Ipv6.IsTextOf, FourNumbers, BytesV4;
    FourNumbersExactly(s, io, b);
    Ipv6.ParsedExactly(s, b);
  }

  /** Parsing the printed text of an address, of either kind, gives its bytes. */
  lemma {:induction false} PrintedParses(t: string, b: seq<byte>, io: Stream)
    requires ReadsPrinted(io) && Printed(t, b) && (|b| == 4 || |b| == 16)
    ensures t != "" && BytesOf(t, io) == b
  {
    hide ReadsPrinted, Dotted, BytesV4, Ipv6.Rfc5952, Ipv6.ParsedBytes, Ipv6.GroupsOf;
    if |b| == 4 {
      DottedReads(b, io);
      DottedHasNoColon(b);
    } else {
      Ipv6.PrintedParses(t, b);
    }
  }

  /** The library's validity test, which prints and parses back, holds exactly of byte strings of length 4
      and 16. */
  method IsValidIp(b: seq<byte>, io: Stream) returns (ok: bool)
    requires ReadsPrinted(io)
    ensures ok <==> |b| == 4 || |b| == 16
  {
    hide ReadsPrinted, Printed, BytesOf;
    if |b| != 4 && |b| != 16 { return false; }
    var text := ToString(b);
    PrintedParses(text, b, io);
    if text == "" { return false; }
    var back := ToBytes(text, io);
    return back == b;
  }
}
