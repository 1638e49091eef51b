/**
 JSON text as RFC 8259 defines it, for the values that `lsns` prints: objects, arrays,
 strings and integers (sections 2 to 7). The parser is the reference against which the
 printed document is judged; it is written from the grammar, not from the printer.
 Literal names, fractions and exponents do not occur in the document and are rejected.
 */
module Json {
  import opened Seqs
  import opened Basics

  datatype Value = Num(n: int) | Str(s: string) | Arr(items: seq<Value>) | Rec(members: seq<Member>)
  datatype Member = Member(name: string, value: Value)

  /** The value of a member of an object, if it has one of that name. */
  function Get(ms: seq<Member>, name: string): Option<Value> {
    if ms == [] then None else if ms[0].name == name then Some(ms[0].value) else Get(ms[1..], name)
  }

  datatype Parsed<T> = Fail | Ok(value: T, rest: string)

  // ---------------------------------------------------------------- grammar

  predicate IsWs(c: char) {
    c == ' ' || c == '\t' || c == '\n' || c == '\r'
  }

  function SkipWs(s: string): (r: string)
    ensures |r| <= |s|
  {
    if s != [] && IsWs(s[0]) then SkipWs(s[1..]) else s
  }

  function HexValue(c: char): (n: int)
    ensures -1 <= n < 16
  {
    if '0' <= c <= '9' then (c - '0') as int
    else if 'a' <= c <= 'f' then (c - 'a') as int + 10
    else if 'A' <= c <= 'F' then (c - 'A') as int + 10
    else -1
  }

  /** The four hexadecimal digits after `\u`. Surrogates are outside this model's characters. */
  function ParseHex4(s: string): (r: Parsed<char>)
    ensures r.Ok? ==> |r.rest| < |s|
  {
    if |s| < 4 then Fail
    else
      var a, b, c, d := HexValue(s[0]), HexValue(s[1]), HexValue(s[2]), HexValue(s[3]);
      if a < 0 || b < 0 || c < 0 || d < 0 then Fail
      else
        var n := ((a * 16 + b) * 16 + c) * 16 + d;
        if n < 0xD800 || 0xE000 <= n < 0x10000 then Ok(n as char, s[4..]) else Fail
  }

  /** What follows a backslash inside a string (section 7). */
  function ParseEscape(s: string): (r: Parsed<char>)
    ensures r.Ok? ==> |r.rest| < |s|
  {
    if s == [] then Fail
    else
      match s[0]
      case '"' => Ok('"', s[1..])
      case '\\' => Ok('\\', s[1..])
      case '/' => Ok('/', s[1..])
      case 'b' => Ok(8 as char, s[1..])
      case 'f' => Ok(12 as char, s[1..])
      case 'n' => Ok('\n', s[1..])
      case 'r' => Ok('\r', s[1..])
      case 't' => Ok('\t', s[1..])
      case 'u' => ParseHex4(s[1..])
      case _ => Fail
  }

  function Cons(c: char, p: Parsed<string>): Parsed<string> {
    if p.Ok? then Ok([c] + p.value, p.rest) else Fail
  }

  /** A string after its opening quotation mark: control characters must be escaped. */
  function ParseStr(s: string): (r: Parsed<string>)
    ensures r.Ok? ==> |r.rest| < |s|
  {
    if s == [] || s[0] < ' ' then Fail
    else if s[0] == '"' then Ok("", s[1..])
    else if s[0] == '\\' then
      var e := ParseEscape(s[1..]);
      if e.Ok? then Cons(e.value, ParseStr(e.rest)) else Fail
    else Cons(s[0], ParseStr(s[1..]))
  }

  /** The longest run of digits at the front. */
  function Digits(s: string): (n: nat)
    ensures n <= |s|
  {
    if s != [] && IsDigit(s[0]) then 1 + Digits(s[1..]) else 0
  }

  function NatValue(ds: string): nat {
    if ds == [] then 0
    else
      var c := ds[|ds| - 1];
      NatValue(ds[..|ds| - 1]) * 10 + (if IsDigit(c) then (c - '0') as nat else 0)
  }

  /** An unsigned integer: no leading zeros, and nothing that would continue the number. */
  function ParseNat(s: string): (r: Parsed<nat>)
    ensures r.Ok? ==> |r.rest| < |s|
  {
    var n := Digits(s);
    if n == 0 || (s[0] == '0' && n > 1) then Fail
    else if n < |s| && (s[n] == '.' || s[n] == 'e' || s[n] == 'E') then Fail
    else Ok(NatValue(s[..n]), s[n..])
  }

  function ParseNum(s: string): (r: Parsed<Value>)
    ensures r.Ok? ==> |r.rest| < |s|
  {
    if s != [] && s[0] == '-' then
      var p := ParseNat(s[1..]);
      if p.Ok? then Ok(Num(0 - p.value), p.rest) else Fail
    else
      var p := ParseNat(s);
      if p.Ok? then Ok(Num(p.value), p.rest) else Fail
  }

  function ParseValue(text: string): (r: Parsed<Value>)
    ensures r.Ok? ==> |r.rest| < |text|
    decreases |text|, 2
  {
    var s := SkipWs(text);
    if s == [] then Fail
    else if s[0] == '"' then
      var p := ParseStr(s[1..]);
      if p.Ok? then Ok(Str(p.value), p.rest) else Fail
    else if s[0] == '[' then
      var next := SkipWs(s[1..]);
      if next != [] && next[0] == ']' then Ok(Arr([]), next[1..])
      else
        var p := ParseItems(s[1..]);
        if p.Ok? then Ok(Arr(p.value), p.rest) else Fail
    else if s[0] == '{' then
      var next := SkipWs(s[1..]);
      if next != [] && next[0] == '}' then Ok(Rec([]), next[1..])
      else
        var p := ParseMembers(s[1..]);
        if p.Ok? then Ok(Rec(p.value), p.rest) else Fail
    else ParseNum(s)
  }

  function ParseItems(s: string): (r: Parsed<seq<Value>>)
    ensures r.Ok? ==> |r.rest| < |s|
    decreases |s|, 3
  {
    var p := ParseValue(s);
    if p.Fail? then Fail
    else
      var next := SkipWs(p.rest);
      if next == [] then Fail
      else if next[0] == ']' then Ok([p.value], next[1..])
      else if next[0] == ',' then
        var more := ParseItems(next[1..]);
        if more.Ok? then Ok([p.value] + more.value, more.rest) else Fail
      else Fail
  }

  function ParseMember(text: string): (r: Parsed<Member>)
    ensures r.Ok? ==> |r.rest| < |text|
    decreases |text|, 3
  {
    var s := SkipWs(text);
    if s == [] || s[0] != '"' then Fail
    else
      var name := ParseStr(s[1..]);
      if name.Fail? then Fail
      else
        var colon := SkipWs(name.rest);
        if colon == [] || colon[0] != ':' then Fail
        else
          var v := ParseValue(colon[1..]);
          if v.Ok? then Ok(Member(name.value, v.value), v.rest) else Fail
  }

  function ParseMembers(s: string): (r: Parsed<seq<Member>>)
    ensures r.Ok? ==> |r.rest| < |s|
    decreases |s|, 4
  {
    var p := ParseMember(s);
    if p.Fail? then Fail
    else
      var next := SkipWs(p.rest);
      if next == [] then Fail
      else if next[0] == '}' then Ok([p.value], next[1..])
      else if next[0] == ',' then
        var more := ParseMembers(next[1..]);
        if more.Ok? then Ok([p.value] + more.value, more.rest) else Fail
      else Fail
  }

  /** A JSON text (section 2): one value between whitespace, and nothing else. */
  function ParseText(s: string): Parsed<Value> {
    var p := ParseValue(s);
    if p.Ok? && SkipWs(p.rest) == [] then Ok(p.value, []) else Fail
  }

  // ---------------------------------------------------------------- what a piece of text reads as

  /** What follows a complete value in the document: a comma, a line break, or the end. */
  predicate Ends(rest: string) {
    rest == [] || rest[0] == ',' || rest[0] == '\n'
  }

  ghost predicate ReadsValue(s: string, v: Value) {
    forall rest :: Ends(rest) ==> ParseValue(s + rest) == Ok(v, rest)
  }

  ghost predicate ReadsMember(s: string, m: Member) {
    forall rest :: Ends(rest) ==> ParseMember(s + rest) == Ok(m, rest)
  }

  predicate Blank(s: string) {
    forall i :: 0 <= i < |s| ==> IsWs(s[i])
  }

  lemma {:induction false} SkipBlank(w: string, s: string)
    requires Blank(w)
    ensures SkipWs(w + s) == SkipWs(s)
  {
    if w == [] {
      assert w + s == s;
    } else {
      assert (w + s)[1..] == w[1..] + s;
      SkipBlank(w[1..], s);
    }
  }

  lemma BlankValue(w: string, s: string)
    requires Blank(w)
    ensures ParseValue(w + s) == ParseValue(s)
  {
    SkipBlank(w, s);
  }

  lemma BlankMember(w: string, s: string)
    requires Blank(w)
    ensures ParseMember(w + s) == ParseMember(s)
  {
    SkipBlank(w, s);
  }

  // ---------------------------------------------------------------- strings

  /** `json_escape`, one character at a time. */
  function EscapeChar(c: char): string {
    if c == '"' then "\\\""
    else if c == '\\' then "\\\\"
    else if c == '\n' then "\\n"
    else if c == '\r' then "\\r"
    else if c == '\t' then "\\t"
    else if c < ' ' then ['\\', 'u', '0', '0', HexDigit(c as nat / 16), HexDigit(c as nat % 16)]
    else [c]
  }

  function Escape(s: string): string {
    if s == [] then "" else EscapeChar(s[0]) + Escape(s[1..])
  }

  /** The loop of `json_escape`. */
  method JsonEscape(s: string) returns (out: string)
    ensures out == Escape(s)
  {
    out := "";
    for i := 0 to |s|
      invariant out + Escape(s[i..]) == Escape(s)
    {
      assert s[i..][1..] == s[i + 1..];
      Assoc(out, EscapeChar(s[i]), Escape(s[i + 1..]));
      out := out + EscapeChar(s[i]);
    }
    assert s[|s|..] == [] && out + "" == out;
  }

  lemma HexRoundTrip(n: nat)
    requires n < 16
    ensures HexValue(HexDigit(n)) == n
  {
  }

  lemma ControlRoundTrip(c: char, k: string)
    requires c < ' '
    ensures ParseHex4(['0', '0', HexDigit(c as nat / 16), HexDigit(c as nat % 16)] + k) == Ok(c, k)
  {
    var n := c as nat;
    HexRoundTrip(n / 16);
    HexRoundTrip(n % 16);
    var s := ['0', '0', HexDigit(n / 16), HexDigit(n % 16)] + k;
    assert s[4..] == k;
    assert (n / 16) * 16 + n % 16 == n;
  }

  lemma EscapedStr(text: string)
    requires text != [] && text[0] == '\\' && ParseEscape(text[1..]).Ok?
    ensures ParseStr(text) == Cons(ParseEscape(text[1..]).value, ParseStr(ParseEscape(text[1..]).rest))
  {
  }

  lemma ShortEscape(c: char, e: char, k: string)
    requires EscapeChar(c) == ['\\', e] && ParseEscape([e] + k) == Ok(c, k)
    ensures ParseStr(EscapeChar(c) + k) == Cons(c, ParseStr(k))
  {
    assert (EscapeChar(c) + k)[1..] == [e] + k;
    EscapedStr(EscapeChar(c) + k);
  }

  lemma ShortEscapes(k: string)
    ensures ParseEscape(['"'] + k) == Ok('"', k) && ParseEscape(['\\'] + k) == Ok('\\', k)
    ensures ParseEscape(['n'] + k) == Ok('\n', k) && ParseEscape(['r'] + k) == Ok('\r', k) && ParseEscape(['t'] + k) == Ok('\t', k)
  {
    forall c: char ensures ([c] + k)[1..] == k {
    }
  }

  /** Decoding one escaped character gives it back and leaves what follows. */
  lemma EscapeCharRoundTrip(c: char, k: string)
    ensures ParseStr(EscapeChar(c) + k) == Cons(c, ParseStr(k))
  {
    var e := EscapeChar(c);
    if e[0] != '\\' {
      assert (e + k)[1..] == k;
    } else if |e| == 2 {
      ShortEscapes(k);
      ShortEscape(c, e[1], k);
    } else {
      var hex := ['0', '0', HexDigit(c as nat / 16), HexDigit(c as nat % 16)];
      assert (e + k)[1..] == ['u'] + (hex + k);
      assert (['u'] + (hex + k))[1..] == hex + k;
      ControlRoundTrip(c, k);
      EscapedStr(e + k);
    }
  }

  /** `json_escape` is inverted by string decoding, for every string. */
  lemma {:induction false} EscapeRoundTrip(s: string, k: string)
    ensures ParseStr(Escape(s) + (['"'] + k)) == Ok(s, k)
  {
    if s == [] {
      assert Escape(s) + (['"'] + k) == ['"'] + k;
      assert (['"'] + k)[1..] == k;
    } else {
      Assoc(EscapeChar(s[0]), Escape(s[1..]), ['"'] + k);
      EscapeCharRoundTrip(s[0], Escape(s[1..]) + (['"'] + k));
      EscapeRoundTrip(s[1..], k);
      assert s == [s[0]] + s[1..];
    }
  }

  /** What may stand between the quotation marks of a string (section 7 of RFC 8259). */
  predicate StringBody(s: string) {
    if s == [] then true
    else if s[0] == '\\' then
      || (|s| >= 2 && s[1] in "\"\\/bfnrt" && StringBody(s[2..]))
      || (|s| >= 6 && s[1] == 'u' && (forall i :: 2 <= i < 6 ==> HexValue(s[i]) >= 0) && StringBody(s[6..]))
    else s[0] >= ' ' && s[0] != '"' && StringBody(s[1..])
  }

  lemma BodyChar(c: char, k: string)
    requires StringBody(k)
    ensures StringBody(EscapeChar(c) + k)
  {
    var e := EscapeChar(c);
    var s := e + k;
    assert s[|e|..] == k;
    assert forall i :: 0 <= i < |e| ==> s[i] == e[i];
    if |e| == 6 {
      HexRoundTrip(c as nat / 16);
      HexRoundTrip(c as nat % 16);
    }
  }

  /** Escaped text is such a body: no raw quotation mark, no lone backslash and no control character is left. */
  lemma {:induction false} EscapeClean(s: string)
    ensures StringBody(Escape(s))
  {
    if s != [] {
      EscapeClean(s[1..]);
      BodyChar(s[0], Escape(s[1..]));
    }
  }

  lemma {:induction false} EscapeCleanAt(s: string, i: nat)
    requires i < |Escape(s)|
    ensures Escape(s)[i] >= ' '
    ensures Escape(s)[i] == '"' ==> i > 0 && Escape(s)[i - 1] == '\\'
  {
    var e := EscapeChar(s[0]);
    if i >= |e| {
      EscapeCleanAt(s[1..], i - |e|);
    }
  }

  function Quoted(s: string): string {
    ['"'] + Escape(s) + ['"']
  }

  lemma StringValue(text: string)
    requires text != [] && text[0] == '"' && ParseStr(text[1..]).Ok?
    ensures ParseValue(text) == Ok(Str(ParseStr(text[1..]).value), ParseStr(text[1..]).rest)
  {
  }

  lemma QuotedValue(s: string, rest: string)
    ensures ParseValue(Quoted(s) + rest) == Ok(Str(s), rest)
  {
    var text := Quoted(s) + rest;
    assert text[1..] == Escape(s) + (['"'] + rest);
    EscapeRoundTrip(s, rest);
    StringValue(text);
  }

  lemma ReadsQuoted(s: string)
    ensures ReadsValue(Quoted(s), Str(s))
  {
    forall rest | Ends(rest) ensures ParseValue(Quoted(s) + rest) == Ok(Str(s), rest) {
      QuotedValue(s, rest);
    }
  }

  // ---------------------------------------------------------------- integers

  function Digit(n: nat): char
    requires n < 10
  {
    '0' + n as char
  }

  function Decimal(n: nat): (s: string)
    ensures s != [] && forall i :: 0 <= i < |s| ==> IsDigit(s[i])
  {
    if n < 10 then [Digit(n)] else Decimal(n / 10) + [Digit(n % 10)]
  }

  lemma {:induction false} DecimalValue(n: nat)
    ensures NatValue(Decimal(n)) == n
    ensures Decimal(n)[0] == '0' ==> |Decimal(n)| == 1
  {
    if n < 10 {
      assert Decimal(n)[..0] == [];
    } else {
      DecimalValue(n / 10);
      SliceRight(Decimal(n / 10), [Digit(n % 10)]);
      LeadingDigit(n / 10);
    }
  }

  lemma {:induction false} LeadingDigit(n: nat)
    requires n > 0
    ensures Decimal(n)[0] != '0'
  {
    if n >= 10 {
      LeadingDigit(n / 10);
    }
  }

  lemma {:induction false} DigitsRun(ds: string, rest: string)
    requires forall i :: 0 <= i < |ds| ==> IsDigit(ds[i])
    requires rest == [] || !IsDigit(rest[0])
    ensures Digits(ds + rest) == |ds|
  {
    if ds == [] {
      assert ds + rest == rest;
    } else {
      assert (ds + rest)[1..] == ds[1..] + rest;
      DigitsRun(ds[1..], rest);
    }
  }

  lemma NatRoundTrip(n: nat, rest: string)
    requires Ends(rest)
    ensures ParseNat(Decimal(n) + rest) == Ok(n, rest)
  {
    DigitsRun(Decimal(n), rest);
    DecimalValue(n);
    SliceRight(Decimal(n), rest);
  }

  function Integer(n: int): string {
    if n < 0 then ['-'] + Decimal(-n) else Decimal(n)
  }

  lemma NumberValue(text: string)
    requires text != [] && (text[0] == '-' || IsDigit(text[0]))
    ensures ParseValue(text) == ParseNum(text)
  {
  }

  lemma UnsignedNum(s: string)
    requires s != [] && s[0] != '-' && ParseNat(s).Ok?
    ensures ParseNum(s) == Ok(Num(ParseNat(s).value), ParseNat(s).rest)
  {
  }

  lemma NegativeNum(s: string)
    requires ParseNat(s).Ok?
    ensures ParseNum(['-'] + s) == Ok(Num(0 - ParseNat(s).value), ParseNat(s).rest)
  {
    assert (['-'] + s)[1..] == s;
  }

  lemma NumRoundTrip(n: int, rest: string)
    requires Ends(rest)
    ensures ParseNum(Integer(n) + rest) == Ok(Num(n), rest)
  {
    if n < 0 {
      NatRoundTrip(-n, rest);
      Assoc(['-'], Decimal(-n), rest);
      NegativeNum(Decimal(-n) + rest);
    } else {
      NatRoundTrip(n, rest);
      UnsignedNum(Decimal(n) + rest);
    }
  }

  lemma IntegerValue(n: int, rest: string)
    requires Ends(rest)
    ensures ParseValue(Integer(n) + rest) == Ok(Num(n), rest)
  {
    NumRoundTrip(n, rest);
    assert (Integer(n) + rest)[0] == Integer(n)[0];
    NumberValue(Integer(n) + rest);
  }

  lemma ReadsInteger(n: int)
    ensures ReadsValue(Integer(n), Num(n))
  {
    forall rest | Ends(rest) ensures ParseValue(Integer(n) + rest) == Ok(Num(n), rest) {
      IntegerValue(n, rest);
    }
  }

  // ---------------------------------------------------------------- lists

  /** Elements separated by a comma and a line break. */
  function Join(parts: seq<string>): string {
    if parts == [] then ""
    else if |parts| == 1 then parts[0]
    else parts[0] + (",\n" + Join(parts[1..]))
  }

  lemma {:induction false} JoinSnoc(parts: seq<string>, p: string)
    requires parts != []
    ensures Join(parts + [p]) == Join(parts) + (",\n" + p)
  {
    if |parts| == 1 {
      assert (parts + [p])[1..] == [p];
    } else {
      assert (parts + [p])[1..] == parts[1..] + [p];
      JoinSnoc(parts[1..], p);
      Assoc(",\n", Join(parts[1..]), ",\n" + p);
      Assoc(parts[0], ",\n" + Join(parts[1..]), ",\n" + p);
    }
  }

  ghost predicate ReadsValues(parts: seq<string>, vs: seq<Value>) {
    |parts| == |vs| && forall i :: 0 <= i < |parts| ==> ReadsValue(parts[i], vs[i])
  }

  ghost predicate ReadsMembers(parts: seq<string>, ms: seq<Member>) {
    |parts| == |ms| && forall i :: 0 <= i < |parts| ==> ReadsMember(parts[i], ms[i])
  }

  lemma BlankItems(w: string, s: string)
    requires Blank(w)
    ensures ParseItems(w + s) == ParseItems(s)
  {
    BlankValue(w, s);
  }

  lemma BlankMembers(w: string, s: string)
    requires Blank(w)
    ensures ParseMembers(w + s) == ParseMembers(s)
  {
    BlankMember(w, s);
  }

  /** The closing line of an array or an object: a line break, indentation, and the bracket. */
  lemma ClosingLine(w: string, c: char, rest: string)
    requires Blank(w) && !IsWs(c)
    ensures Ends("\n" + (w + ([c] + rest)))
    ensures SkipWs("\n" + (w + ([c] + rest))) == [c] + rest
  {
    SkipBlank("\n", w + ([c] + rest));
    SkipBlank(w, [c] + rest);
  }

  lemma LastItem(head: string, v: Value, close: string, rest: string)
    requires ParseValue(head + close) == Ok(v, close) && SkipWs(close) == [']'] + rest
    ensures ParseItems(head + close) == Ok([v], rest)
  {
    assert ([']'] + rest)[1..] == rest;
  }

  lemma NextItem(head: string, v: Value, more: string, vs: seq<Value>, rest: string)
    requires ParseValue(head + ([','] + more)) == Ok(v, [','] + more) && ParseItems(more) == Ok(vs, rest)
    ensures ParseItems(head + ([','] + more)) == Ok([v] + vs, rest)
  {
    assert ([','] + more)[1..] == more;
  }

  lemma LastMember(head: string, m: Member, close: string, rest: string)
    requires ParseMember(head + close) == Ok(m, close) && SkipWs(close) == ['}'] + rest
    ensures ParseMembers(head + close) == Ok([m], rest)
  {
    assert (['}'] + rest)[1..] == rest;
  }

  lemma NextMember(head: string, m: Member, more: string, ms: seq<Member>, rest: string)
    requires ParseMember(head + ([','] + more)) == Ok(m, [','] + more) && ParseMembers(more) == Ok(ms, rest)
    ensures ParseMembers(head + ([','] + more)) == Ok([m] + ms, rest)
  {
    assert ([','] + more)[1..] == more;
  }

  lemma JoinStep(parts: seq<string>, close: string)
    requires |parts| > 1
    ensures Join(parts) + close == parts[0] + ([','] + ("\n" + (Join(parts[1..]) + close)))
  {
    Assoc(parts[0], ",\n" + Join(parts[1..]), close);
    Assoc(",\n", Join(parts[1..]), close);
    assert ",\n" == [','] + "\n";
    Assoc([','], "\n", Join(parts[1..]) + close);
  }

  lemma ItemThen(head: string, v: Value, text: string, vs: seq<Value>, rest: string)
    requires ReadsValue(head, v) && ParseItems(text) == Ok(vs, rest)
    ensures ParseItems(head + ([','] + ("\n" + text))) == Ok([v] + vs, rest)
  {
    var more := "\n" + text;
    BlankItems("\n", text);
    assert ParseValue(head + ([','] + more)) == Ok(v, [','] + more);
    NextItem(head, v, more, vs, rest);
  }

  lemma ItemsStep(parts: seq<string>, vs: seq<Value>, close: string, rest: string)
    requires |parts| == |vs| > 1 && ReadsValue(parts[0], vs[0])
    requires ParseItems(Join(parts[1..]) + close) == Ok(vs[1..], rest)
    ensures ParseItems(Join(parts) + close) == Ok(vs, rest)
  {
    ItemThen(parts[0], vs[0], Join(parts[1..]) + close, vs[1..], rest);
    JoinStep(parts, close);
    assert vs == [vs[0]] + vs[1..];
  }

  lemma {:induction false} JoinedItems(parts: seq<string>, vs: seq<Value>, w: string, rest: string)
    requires parts != [] && ReadsValues(parts, vs) && Blank(w)
    ensures ParseItems(Join(parts) + ("\n" + (w + ([']'] + rest)))) == Ok(vs, rest)
  {
    var close := "\n" + (w + ([']'] + rest));
    assert ReadsValue(parts[0], vs[0]);
    if |parts| == 1 {
      ClosingLine(w, ']', rest);
      LastItem(parts[0], vs[0], close, rest);
      assert vs == [vs[0]];
    } else {
      JoinedItems(parts[1..], vs[1..], w, rest);
      ItemsStep(parts, vs, close, rest);
    }
  }

  lemma MemberThen(head: string, m: Member, text: string, ms: seq<Member>, rest: string)
    requires ReadsMember(head, m) && ParseMembers(text) == Ok(ms, rest)
    ensures ParseMembers(head + ([','] + ("\n" + text))) == Ok([m] + ms, rest)
  {
    var more := "\n" + text;
    BlankMembers("\n", text);
    assert ParseMember(head + ([','] + more)) == Ok(m, [','] + more);
    NextMember(head, m, more, ms, rest);
  }

  lemma MembersStep(parts: seq<string>, ms: seq<Member>, close: string, rest: string)
    requires |parts| == |ms| > 1 && ReadsMember(parts[0], ms[0])
    requires ParseMembers(Join(parts[1..]) + close) == Ok(ms[1..], rest)
    ensures ParseMembers(Join(parts) + close) == Ok(ms, rest)
  {
    MemberThen(parts[0], ms[0], Join(parts[1..]) + close, ms[1..], rest);
    JoinStep(parts, close);
    assert ms == [ms[0]] + ms[1..];
  }

  lemma {:induction false} JoinedMembers(parts: seq<string>, ms: seq<Member>, w: string, rest: string)
    requires parts != [] && ReadsMembers(parts, ms) && Blank(w)
    ensures ParseMembers(Join(parts) + ("\n" + (w + (['}'] + rest)))) == Ok(ms, rest)
  {
    var close := "\n" + (w + (['}'] + rest));
    assert ReadsMember(parts[0], ms[0]);
    if |parts| == 1 {
      ClosingLine(w, '}', rest);
      LastMember(parts[0], ms[0], close, rest);
      assert ms == [ms[0]];
    } else {
      JoinedMembers(parts[1..], ms[1..], w, rest);
      MembersStep(parts, ms, close, rest);
    }
  }
}
