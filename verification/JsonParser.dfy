/** The strict parser: what each parsing routine returns, as functions of the input and the
    cursor, and the cursor-moving class that computes it. */
module JsonParser {
  import opened Wrappers
  import opened Digits
  import opened JsonValue
  import opened JsonGrammar
  import Utf8

  /** A parse that succeeded at a new cursor, or threw. */
  datatype Parsed<+T> = Ok(value: T, pos: nat) | Err

  /** The text t stands at position p of s. */
  predicate At(s: string, p: nat, t: string) {
    p + |t| <= |s| && forall i {:trigger t[i]} | 0 <= i < |t| :: s[p + i] == t[i]
  }

  function SkipSpace(s: string, p: nat): (q: nat)
    requires p <= |s|
    ensures p <= q <= |s|
    ensures Blank(s[p..q])
    ensures q < |s| ==> !IsSpace(s[q])
    decreases |s| - p
  {
    if p < |s| && IsSpace(s[p]) then
      var q := SkipSpace(s, p + 1);
      assert s[p..q] == [s[p]] + s[p + 1..q];
      q
    else p
  }

  function SkipDigits(s: string, p: nat): (q: nat)
    requires p <= |s|
    ensures p <= q <= |s|
    ensures Decimal(s[p..q])
    ensures q < |s| ==> !IsDigit(s[q])
    decreases |s| - p
  {
    if p < |s| && IsDigit(s[p]) then
      var q := SkipDigits(s, p + 1);
      assert s[p..q] == [s[p]] + s[p + 1..q];
      q
    else p
  }

  // ---------- numbers ----------

  /** Where the fraction that may start at p ends. */
  function SkipFraction(s: string, p: nat): (q: nat)
    requires p <= |s|
    ensures p <= q <= |s|
  {
    if p < |s| && s[p] == '.' then SkipDigits(s, p + 1) else p
  }

  function SkipSign(s: string, p: nat): (q: nat)
    requires p <= |s|
    ensures p <= q <= |s|
  {
    if p < |s| && (s[p] == '+' || s[p] == '-') then p + 1 else p
  }

  /** Where the exponent that may start at p ends. */
  function SkipExponent(s: string, p: nat): (q: nat)
    requires p <= |s|
    ensures p <= q <= |s|
  {
    if p < |s| && (s[p] == 'e' || s[p] == 'E') then SkipDigits(s, SkipSign(s, p + 1)) else p
  }

  /** std::from_chars on an optional minus sign and decimal digits, into a 32-bit int. */
  function FromChars(lexeme: string): (r: Option<int32>) {
    var neg := lexeme != "" && lexeme[0] == '-';
    var digits := if neg then lexeme[1..] else lexeme;
    if digits == "" || !AllDigits(digits, 10) then None
    else
      var v := (if neg then -1 else 1) * ValueOf(digits, 10);
      if -0x8000_0000 <= v <= 0x7FFF_FFFF then Some(v) else None
  }

  /** The value of a number's spelling: digits only and in range gives an integer, anything else
      goes to the double conversion. */
  function Convert(fd: ReadDouble, lexeme: string, digitsOnly: bool): (r: Option<Json>) {
    var i := if digitsOnly then FromChars(lexeme) else None;
    if i.Some? then Some(Int(i.value))
    else
      var d := fd(lexeme);
      if d.Some? then Some(Double(d.value)) else None
  }

  function NumberAt(fd: ReadDouble, s: string, p: nat): (r: Parsed<Json>)
    requires p < |s| && (IsDigit(s[p]) || s[p] == '-')
    ensures r.Ok? ==> p < r.pos <= |s|
  {
    var a := SkipSign(s, p);
    var b := SkipDigits(s, a);
    var c := SkipFraction(s, b);
    var d := SkipExponent(s, c);
    var v := Convert(fd, s[p..d], d == b && a < b);
    if v.Some? then Ok(v.value, d) else Err
  }

  // ---------- strings ----------

  /** Four hexadecimal digits at p, if there are four. */
  function HexAt(s: string, p: nat): (r: Option<nat>)
    ensures r.Some? ==> p + 4 <= |s| && Hex4(s[p..p + 4]) && r.value == ValueOf(s[p..p + 4], 16) && r.value < 0x10000
  {
    if p + 4 <= |s| && AllDigits(s[p..p + 4], 16) then
      Hex4Value(s[p..p + 4]);
      Some(ValueOf(s[p..p + 4], 16))
    else None
  }

  /** The escape whose `u` stands at p: the bytes it adds and the cursor after it. */
  function UnicodeAt(s: string, p: nat): (r: Parsed<string>)
    requires p < |s|
    ensures r.Ok? ==> p < r.pos < |s|
  {
    if p + 5 >= |s| then Err
    else
      var h := HexAt(s, p + 1);
      if h.None? then Err
      else if !HighSurrogate(h.value) then Ok(Utf8.Encode(h.value), p + 5)
      else if p + 11 >= |s| || s[p + 5] != '\\' || s[p + 6] != 'u' then Err
      else
        var l := HexAt(s, p + 7);
        if l.None? || !LowSurrogate(l.value) then Err
        else Ok(Utf8.Encode(0x10000 + (h.value - 0xD800) * 0x400 + (l.value - 0xDC00)), p + 11)
  }

  /** The escape whose backslash stands at p. */
  function EscapeAt(s: string, p: nat): (r: Parsed<string>)
    requires p < |s|
    ensures r.Ok? ==> p < r.pos <= |s|
  {
    if p + 1 >= |s| then Err
    else if s[p + 1] == 'u' then UnicodeAt(s, p + 1)
    else if Escaped(s[p + 1]).Some? then Ok([Escaped(s[p + 1]).value], p + 2)
    else Err
  }

  /** The rest of a string body, given the bytes read so far. */
  function BodyAt(s: string, p: nat, acc: string): (r: Parsed<string>)
    requires p <= |s|
    ensures r.Ok? ==> p < r.pos <= |s|
    decreases |s| - p
  {
    if p >= |s| then Err
    else if s[p] == '\"' then Ok(acc, p + 1)
    else if s[p] == '\\' then
      var e := EscapeAt(s, p);
      if e.Err? then Err else BodyAt(s, e.pos, acc + e.value)
    else BodyAt(s, p + 1, acc + [s[p]])
  }

  // ---------- values ----------

  datatype Separator = More | Closed

  /** What follows an item or member: `,` and whitespace, or the closing bracket. */
  function SeparatorAt(s: string, p: nat, close: char): (r: Parsed<Separator>)
    requires p <= |s|
    ensures r.Ok? ==> p < r.pos <= |s|
  {
    var q := SkipSpace(s, p);
    if q >= |s| then Err
    else if s[q] == ',' then Ok(More, SkipSpace(s, q + 1))
    else if s[q] == close then Ok(Closed, q + 1)
    else Err
  }

  function ValueAt(fd: ReadDouble, s: string, p: nat): (r: Parsed<Json>)
    requires p <= |s|
    ensures r.Ok? ==> p < r.pos <= |s|
    decreases |s| - p, 1
  {
    var q := SkipSpace(s, p);
    if q >= |s| then Err
    else match s[q]
      case 'n' => if At(s, q, "null") then Ok(Null, q + 4) else Err
      case 't' => if At(s, q, "true") then Ok(Bool(true), q + 4) else Err
      case 'f' => if At(s, q, "false") then Ok(Bool(false), q + 5) else Err
      case '\"' =>
        var b := BodyAt(s, q + 1, "");
        if b.Ok? then Ok(Str(b.value), b.pos) else Err
      case '[' => ArrayAt(fd, s, q)
      case '{' => ObjectAt(fd, s, q)
      case c => if IsDigit(c) || c == '-' then NumberAt(fd, s, q) else Err
  }

  function ArrayAt(fd: ReadDouble, s: string, p: nat): (r: Parsed<Json>)
    requires p < |s|
    ensures r.Ok? ==> p < r.pos <= |s|
    decreases |s| - p, 0
  {
    var q := SkipSpace(s, p + 1);
    if q < |s| && s[q] == ']' then Ok(Arr([]), q + 1) else ItemsAt(fd, s, q, [])
  }

  /** The items from p on, given the ones read so far. */
  function ItemsAt(fd: ReadDouble, s: string, p: nat, acc: seq<Json>): (r: Parsed<Json>)
    requires p <= |s|
    ensures r.Ok? ==> p < r.pos <= |s|
    decreases |s| - p, 2
  {
    var v := ValueAt(fd, s, p);
    if v.Err? then Err
    else
      var sep := SeparatorAt(s, v.pos, ']');
      if sep.Err? then Err
      else if sep.value.More? then ItemsAt(fd, s, sep.pos, acc + [v.value])
      else Ok(Arr(acc + [v.value]), sep.pos)
  }

  function ObjectAt(fd: ReadDouble, s: string, p: nat): (r: Parsed<Json>)
    requires p < |s|
    ensures r.Ok? ==> p < r.pos <= |s|
    decreases |s| - p, 0
  {
    var q := SkipSpace(s, p + 1);
    if q < |s| && s[q] == '}' then Ok(Obj(map[]), q + 1) else MembersAt(fd, s, q, map[])
  }

  /** The key that starts at p, and the cursor after its colon. */
  function KeyAt(s: string, p: nat): (r: Parsed<string>)
    requires p <= |s|
    ensures r.Ok? ==> p < r.pos <= |s|
  {
    if p >= |s| || s[p] != '\"' then Err
    else
      var k := BodyAt(s, p + 1, "");
      if k.Err? then Err
      else
        var q := SkipSpace(s, k.pos);
        if q >= |s| || s[q] != ':' then Err else Ok(k.value, q + 1)
  }

  /** The member whose key starts at p: its key, its value, and the cursor after it. */
  function MemberAt(fd: ReadDouble, s: string, p: nat): (r: Parsed<(string, Json)>)
    requires p <= |s|
    ensures r.Ok? ==> p < r.pos <= |s|
    decreases |s| - p, 2
  {
    var k := KeyAt(s, p);
    if k.Err? then Err
    else
      var v := ValueAt(fd, s, k.pos);
      if v.Err? then Err else Ok((k.value, v.value), v.pos)
  }

  /** The members from p on, given the ones read so far. */
  function MembersAt(fd: ReadDouble, s: string, p: nat, acc: map<string, Json>): (r: Parsed<Json>)
    requires p <= |s|
    ensures r.Ok? ==> p < r.pos <= |s|
    decreases |s| - p, 3
  {
    var m := MemberAt(fd, s, p);
    if m.Err? then Err
    else
      var all := acc[m.value.0 := m.value.1];
      var sep := SeparatorAt(s, m.pos, '}');
      if sep.Err? then Err
      else if sep.value.More? then MembersAt(fd, s, sep.pos, all)
      else Ok(Obj(all), sep.pos)
  }

  // ---------- the parser object ----------

  /** A run of ordinary characters may be taken in one go. */
  lemma {:induction false} BodyRun(s: string, p: nat, q: nat, acc: string)
    requires p <= q <= |s|
    requires forall i | p <= i < q :: s[i] != '\"' && s[i] != '\\'
    ensures BodyAt(s, p, acc) == BodyAt(s, q, acc + s[p..q])
    decreases q - p
  {
    if p < q {
      BodyRun(s, p + 1, q, acc + [s[p]]);
      assert acc + [s[p]] + s[p + 1..q] == acc + s[p..q];
    } else {
      assert acc + s[p..q] == acc;
    }
  }

  /** The parsing class. A routine that throws returns None; the cursor never leaves the input. */
  class Parser {
    const input: string
    const fd: ReadDouble
    var position: nat

    constructor (input: string, fd: ReadDouble)
      ensures this.input == input && this.fd == fd && position == 0
    {
      this.input, this.fd, position := input, fd, 0;
    }

    ghost predicate Valid()
      reads this
    {
      position <= |input|
    }

    /** The routine returned, and left the cursor, as the parse says; or both failed. */
    ghost predicate Matches<T>(r: Option<T>, parse: Parsed<T>)
      reads this
    {
      && Valid()
      && (parse.Ok? ==> r == Some(parse.value) && position == parse.pos)
      && (parse.Err? ==> r.None?)
    }

    method SkipWhitespace()
      requires Valid()
      modifies this
      ensures position == SkipSpace(input, old(position))
    {
      while position < |input| && IsSpace(input[position])
        invariant Valid()
        invariant SkipSpace(input, old(position)) == SkipSpace(input, position)
      {
        position := position + 1;
      }
    }

    method Expect(expected: string) returns (ok: bool)
      requires Valid()
      modifies this
      ensures ok <==> At(input, old(position), expected)
      ensures position == old(position) + if ok then |expected| else 0
    {
      ok := position + |expected| <= |input| && input[position..position + |expected|] == expected;
      if ok { position := position + |expected|; }
    }

    method ScanDigits(from: nat) returns (p: nat)
      requires from <= |input|
      ensures p == SkipDigits(input, from)
    {
      p := from;
      while p < |input| && IsDigit(input[p])
        invariant p <= |input|
        invariant SkipDigits(input, from) == SkipDigits(input, p)
      {
        p := p + 1;
      }
    }

    method ScanFraction(from: nat) returns (p: nat)
      requires from <= |input|
      ensures p == SkipFraction(input, from)
    {
      p := from;
      if p < |input| && input[p] == '.' {
        p := ScanDigits(p + 1);
      }
    }

    method ScanExponent(from: nat) returns (p: nat)
      requires from <= |input|
      ensures p == SkipExponent(input, from)
    {
      p := from;
      if p < |input| && (input[p] == 'e' || input[p] == 'E') {
        p := p + 1;
        if p < |input| && (input[p] == '+' || input[p] == '-') { p := p + 1; }
        p := ScanDigits(p);
      }
    }

    method ParseNumber() returns (r: Option<Json>)
      requires position < |input| && (IsDigit(input[position]) || input[position] == '-')
      modifies this
      ensures Matches(r, old(NumberAt(fd, input, position)))
    {
      var p := position;
      if input[p] == '-' || input[p] == '+' { p := p + 1; }
      var intPartStart := p;
      var intPartEnd := ScanDigits(p);
      p := ScanFraction(intPartEnd);
      p := ScanExponent(p);
      var isFloat := p != intPartEnd;
      var lexeme := input[position..p];
      position := p;
      if !isFloat && intPartEnd != intPartStart {
        var value := FromChars(lexeme);
        if value.Some? { return Some(Int(value.value)); }
      }
      var d := fd(lexeme);
      return if d.Some? then Some(Double(d.value)) else None;
    }

    /** Called with the cursor on the `u`; leaves it on the last character of the escape. */
    method ParseUnicode() returns (r: Option<string>)
      requires position < |input|
      modifies this
      ensures Valid()
      ensures var parse := old(UnicodeAt(input, position));
              if parse.Ok? then r == Some(parse.value) && position + 1 == parse.pos else r.None?
    {
      position := position + 1;
      if position + 4 >= |input| { return None; }
      var code := HexAt(input, position);
      position := position + 4;
      if code.None? { return None; }
      var codePoint := code.value;
      if 0xD800 <= codePoint <= 0xDBFF {
        if position + 6 >= |input| || input[position] != '\\' || input[position + 1] != 'u' { return None; }
        position := position + 2;
        var low := HexAt(input, position);
        position := position + 4;
        if low.None? { return None; }
        if low.value < 0xDC00 || low.value > 0xDFFF { return None; }
        codePoint := 0x10000 + (codePoint - 0xD800) * 0x400 + (low.value - 0xDC00);
      }
      position := position - 1;
      return Some(Utf8.Encode(codePoint));
    }

    method ParseEscape() returns (r: Option<string>)
      requires position < |input|
      modifies this
      ensures Matches(r, old(EscapeAt(input, position)))
    {
      position := position + 1;
      if position >= |input| { return None; }
      if input[position] == 'u' {
        r := ParseUnicode();
      } else if Escaped(input[position]).Some? {
        r := Some([Escaped(input[position]).value]);
      } else {
        return None;
      }
      if r.Some? { position := position + 1; }
    }

    method ParseStringContent() returns (r: Option<string>)
      requires position < |input| && input[position] == '\"'
      modifies this
      ensures Matches(r, old(BodyAt(input, position + 1, "")))
    {
      var open := Expect("\"");
      ghost var start := position;
      assert start == old(position) + 1;
      var result := "";
      while position < |input| && input[position] != '\"'
        invariant start <= position <= |input|
        invariant BodyAt(input, start, "") == BodyAt(input, position, result)
        decreases |input| - position
      {
        if input[position] == '\\' {
          var e := ParseEscape();
          if e.None? { return None; }
          result := result + e.value;
        } else {
          var runStart := position;
          position := position + 1;
          while position < |input| && input[position] != '\"' && input[position] != '\\'
            invariant runStart < position <= |input|
            invariant forall i | runStart <= i < position :: input[i] != '\"' && input[i] != '\\'
          {
            position := position + 1;
          }
          BodyRun(input, runStart, position, result);
          result := result + input[runStart..position];
        }
      }
      var closed := Expect("\"");
      return if closed then Some(result) else None;
    }

    method ParseValue() returns (r: Option<Json>)
      requires Valid()
      modifies this
      ensures Matches(r, old(ValueAt(fd, input, position)))
      decreases |input| - position, 1
    {
      SkipWhitespace();
      if position >= |input| { return None; }
      match input[position] {
        case 'n' =>
          var ok := Expect("null");
          return if ok then Some(Null) else None;
        case 't' =>
          var ok := Expect("true");
          return if ok then Some(Bool(true)) else None;
        case 'f' =>
          var ok := Expect("false");
          return if ok then Some(Bool(false)) else None;
        case '\"' =>
          var content := ParseStringContent();
          return if content.Some? then Some(Str(content.value)) else None;
        case '[' => r := ParseArray();
        case '{' => r := ParseObject();
        case c =>
          if !IsDigit(c) && c != '-' { return None; }
          r := ParseNumber();
      }
    }

    method ParseArray() returns (r: Option<Json>)
      requires position < |input| && input[position] == '['
      modifies this
      ensures Matches(r, old(ArrayAt(fd, input, position)))
      decreases |input| - position, 0
    {
      ghost var parse := ArrayAt(fd, input, position);
      var open := Expect("[");
      SkipWhitespace();
      if position < |input| && input[position] == ']' {
        position := position + 1;
        return Some(Arr([]));
      }
      var items: seq<Json> := [];
      while true
        invariant old(position) < position <= |input|
        invariant parse == ItemsAt(fd, input, position, items)
        decreases |input| - position
      {
        var v := ParseValue();
        if v.None? { return None; }
        items := items + [v.value];
        var after := ParseSeparator(']');
        if after.None? { return None; }
        if after == Some(Closed) { break; }
      }
      return Some(Arr(items));
    }

    method ParseKey() returns (r: Option<string>)
      requires Valid()
      modifies this
      ensures Matches(r, old(KeyAt(input, position)))
    {
      if position >= |input| { return None; }
      if input[position] != '\"' { return None; }
      r := ParseStringContent();
      if r.None? { return; }
      SkipWhitespace();
      var colon := Expect(":");
      if !colon { return None; }
      assert input[position - 1] == ":"[0];
    }

    method ParseMember() returns (r: Option<(string, Json)>)
      requires Valid()
      modifies this
      ensures Matches(r, old(MemberAt(fd, input, position)))
      decreases |input| - position, 2
    {
      var key := ParseKey();
      if key.None? { return None; }
      var v := ParseValue();
      return if v.Some? then Some((key.value, v.value)) else None;
    }

    method ParseObject() returns (r: Option<Json>)
      requires position < |input| && input[position] == '{'
      modifies this
      ensures Matches(r, old(ObjectAt(fd, input, position)))
      decreases |input| - position, 0
    {
      ghost var parse := ObjectAt(fd, input, position);
      var open := Expect("{");
      SkipWhitespace();
      if position < |input| && input[position] == '}' {
        position := position + 1;
        return Some(Obj(map[]));
      }
      var members: map<string, Json> := map[];
      while true
        invariant old(position) < position <= |input|
        invariant parse == MembersAt(fd, input, position, members)
        decreases |input| - position
      {
        var m := ParseMember();
        if m.None? { return None; }
        members := members[m.value.0 := m.value.1];
        var after := ParseSeparator('}');
        if after.None? { return None; }
        if after == Some(Closed) { break; }
      }
      return Some(Obj(members));
    }

    /** After an item or a member: `,` and whitespace, or the closing bracket. */
    method ParseSeparator(close: char) returns (r: Option<Separator>)
      requires Valid()
      modifies this
      ensures Matches(r, old(SeparatorAt(input, position, close)))
    {
      SkipWhitespace();
      if position >= |input| { return None; }
      if input[position] == ',' {
        position := position + 1;
        SkipWhitespace();
        return Some(More);
      } else if input[position] == close {
        position := position + 1;
        return Some(Closed);
      } else {
        return None;
      }
    }
  }
}
