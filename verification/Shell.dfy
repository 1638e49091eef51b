/**
 `shell_quote` of `net-limit`, judged by the shell's own rules: how a command line falls into
 words (sections 2.2.1, 2.2.2, 2.2.3 and 2.3 of the POSIX.1-2017 Shell Command Language).
 Anything unquoted that would make the line more than a list of words (operators,
 expansions, patterns, comments, assignments, braces and negation) is an error here. What
 comes after the line is in words, aliases and reserved words spelt in letters such as `if`
 (sections 2.3.1 and 2.4), is not modelled.
 */
module Shell {
  import opened Seqs
  import opened Basics

  datatype Mode = Plain | Single | Double | Escaped | DoubleEscaped

  /** Finished words, the word in progress if one has begun, and the quoting in force. */
  datatype State = Error | State(words: seq<string>, cur: Option<string>, mode: Mode)

  function Cur(cur: Option<string>): string {
    if cur.Some? then cur.value else ""
  }

  function Put(st: State, c: char, mode: Mode): State
    requires st.State?
  {
    State(st.words, Some(Cur(st.cur) + [c]), mode)
  }

  predicate Special(c: char) {
    c in "|&;<>()$`\n*?[#~=!{}"
  }

  function Step(st: State, c: char): State {
    if st.Error? then Error
    else
      match st.mode
      case Plain =>
        if c == ' ' || c == '\t' then
          State(if st.cur.Some? then st.words + [st.cur.value] else st.words, None, Plain)
        else if c == '\'' then State(st.words, Some(Cur(st.cur)), Single)
        else if c == '"' then State(st.words, Some(Cur(st.cur)), Double)
        else if c == '\\' then State(st.words, st.cur, Escaped)
        else if Special(c) then Error
        else Put(st, c, Plain)
      case Single => if c == '\'' then State(st.words, st.cur, Plain) else Put(st, c, Single)
      case Double =>
        if c == '"' then State(st.words, st.cur, Plain)
        else if c == '\\' then State(st.words, st.cur, DoubleEscaped)
        else if c == '$' || c == '`' then Error
        else Put(st, c, Double)
      case Escaped => if c == '\n' then State(st.words, st.cur, Plain) else Put(st, c, Plain)
      case DoubleEscaped =>
        if c == '\n' then State(st.words, st.cur, Double)
        else if c in "$`\"\\" then Put(st, c, Double)
        else Put(Put(st, '\\', Double), c, Double)
  }

  function Run(st: State, s: string): State
    decreases |s|
  {
    if s == [] then st else Run(Step(st, s[0]), s[1..])
  }

  const START := State([], None, Plain)

  /** The words of a complete line; none if a quotation is left open or the line is not a list of words. */
  function Final(st: State): Option<seq<string>> {
    if st.State? && st.mode.Plain? then Some(if st.cur.Some? then st.words + [st.cur.value] else st.words) else None
  }

  function Words(s: string): Option<seq<string>> {
    Final(Run(START, s))
  }

  lemma {:induction false} RunConcat(st: State, a: string, b: string)
    ensures Run(st, a + b) == Run(Run(st, a), b)
    decreases |a|
  {
    if a == [] {
      assert a + b == b;
    } else {
      assert (a + b)[1..] == a[1..] + b;
      RunConcat(Step(st, a[0]), a[1..], b);
    }
  }

  // ---------------------------------------------------------------- quoting

  function QuoteChar(c: char): string {
    if c == '\'' then "'\\''" else [c]
  }

  function QuoteBody(s: string): string {
    if s == [] then "" else QuoteBody(s[..|s| - 1]) + QuoteChar(s[|s| - 1])
  }

  function Quote(s: string): string {
    "'" + QuoteBody(s) + "'"
  }

  /** The loop of `shell_quote`. */
  method ShellQuote(s: string) returns (out: string)
    ensures out == Quote(s)
  {
    out := "'";
    for i := 0 to |s|
      invariant out == "'" + QuoteBody(s[..i])
    {
      assert s[..i + 1][..i] == s[..i];
      Assoc("'", QuoteBody(s[..i]), QuoteChar(s[i]));
      if s[i] == '\'' {
        out := out + "'\\''";
      } else {
        out := out + [s[i]];
      }
    }
    assert s[..|s|] == s;
    out := out + "'";
  }

  lemma RunQuoteChar(st: State, c: char)
    requires st.State? && st.mode == Single && st.cur.Some?
    ensures Run(st, QuoteChar(c)) == State(st.words, Some(st.cur.value + [c]), Single)
  {
    if c == '\'' {
      var q := "'\\''";
      assert q[1..] == "\\''" && "\\''"[1..] == "''" && "''"[1..] == "'" && "'"[1..] == "";
      var st1 := Step(st, '\'');
      var st2 := Step(st1, '\\');
      var st3 := Step(st2, '\'');
      assert st3 == State(st.words, Some(st.cur.value + ['\'']), Plain);
      var st4 := Step(st3, '\'');
      assert Run(st, q) == Run(st1, "\\''") == Run(st2, "''") == Run(st3, "'") == Run(st4, "") == st4;
    } else {
      assert [c][1..] == "";
    }
  }

  lemma {:induction false} RunQuoteBody(words: seq<string>, w: string, s: string)
    ensures Run(State(words, Some(w), Single), QuoteBody(s)) == State(words, Some(w + s), Single)
  {
    if s == [] {
      assert w + s == w;
    } else {
      var init, c := s[..|s| - 1], s[|s| - 1];
      RunQuoteBody(words, w, init);
      RunConcat(State(words, Some(w), Single), QuoteBody(init), QuoteChar(c));
      RunQuoteChar(State(words, Some(w + init), Single), c);
      assert s == init + [c];
      Assoc(w, init, [c]);
    }
  }

  lemma RunOne(st: State, c: char)
    ensures Run(st, [c]) == Step(st, c)
  {
    assert [c][1..] == "";
  }

  /** A quoted string, read at the start of a word, is that word; whatever characters it holds. */
  lemma RunQuote(words: seq<string>, s: string)
    ensures Run(State(words, None, Plain), Quote(s)) == State(words, Some(s), Plain)
  {
    var st := State(words, None, Plain);
    RunConcat(st, "'" + QuoteBody(s), "'");
    RunConcat(st, "'", QuoteBody(s));
    RunOne(st, '\'');
    RunQuoteBody(words, "", s);
    assert "" + s == s;
    RunOne(State(words, Some(s), Single), '\'');
  }

  // ---------------------------------------------------------------- quoting inside a command line

  function Shift(ws: seq<string>, st: State): State {
    if st.Error? then Error else State(ws + st.words, st.cur, st.mode)
  }

  lemma StepShift(ws: seq<string>, st: State, c: char)
    ensures Step(Shift(ws, st), c) == Shift(ws, Step(st, c))
  {
    if st.State? && st.cur.Some? {
      Assoc(ws, st.words, [st.cur.value]);
    }
  }

  lemma {:induction false} RunShift(ws: seq<string>, st: State, s: string)
    ensures Run(Shift(ws, st), s) == Shift(ws, Run(st, s))
    decreases |s|
  {
    if s != [] {
      StepShift(ws, st, s[0]);
      RunShift(ws, Step(st, s[0]), s[1..]);
    }
  }

  /** After complete words, a space, and nothing else, a new word can begin. */
  lemma RunSpace(s: string)
    requires Words(s).Some?
    ensures Run(START, s + " ") == State(Words(s).value, None, Plain)
  {
    RunConcat(START, s, " ");
    RunOne(Run(START, s), ' ');
  }

  /**
   The main law. Put between two complete lists of words, a quoted string is one word more,
   equal to the string, and the words around it are what they were.
   */
  lemma QuoteIsOneWord(prefix: string, s: string, suffix: string)
    requires Words(prefix).Some? && Words(suffix).Some?
    ensures Words(prefix + " " + Quote(s) + " " + suffix) == Some(Words(prefix).value + [s] + Words(suffix).value)
  {
    var ws := Words(prefix).value;
    var head := prefix + " ";
    RunSpace(prefix);
    RunConcat(START, head, Quote(s));
    RunQuote(ws, s);
    RunConcat(START, head + Quote(s), " ");
    RunOne(State(ws, Some(s), Plain), ' ');
    RunConcat(START, head + Quote(s) + " ", suffix);
    RunShift(ws + [s], START, suffix);
    assert Shift(ws + [s], START) == State(ws + [s], None, Plain) by { assert ws + [s] + [] == ws + [s]; }
    FinalShift(ws + [s], Run(START, suffix));
  }

  lemma FinalShift(ws: seq<string>, st: State)
    requires Final(st).Some?
    ensures Final(Shift(ws, st)) == Some(ws + Final(st).value)
  {
    if st.cur.Some? {
      Assoc(ws, st.words, [st.cur.value]);
    }
  }

  /** The same at the end of the line. */
  lemma QuoteAtEnd(prefix: string, s: string)
    requires Words(prefix).Some?
    ensures Words(prefix + " " + Quote(s)) == Some(Words(prefix).value + [s])
  {
    RunSpace(prefix);
    RunConcat(START, prefix + " ", Quote(s));
    RunQuote(Words(prefix).value, s);
  }

  // ---------------------------------------------------------------- the tc commands

  predicate Bare(w: string) {
    w != [] && forall i :: 0 <= i < |w| ==> w[i] !in " \t'\"\\" && !Special(w[i])
  }

  lemma {:induction false} RunBare(words: seq<string>, w: string)
    requires Bare(w)
    ensures Run(State(words, None, Plain), w) == State(words, Some(w), Plain)
  {
    RunBareFrom(words, "", w, w);
    assert Run(State(words, None, Plain), w) == Run(Step(State(words, Some(""), Plain), w[0]), w[1..]);
  }

  lemma {:induction false} RunBareFrom(words: seq<string>, begun: string, rest: string, w: string)
    requires begun + rest == w && forall i :: 0 <= i < |rest| ==> rest[i] !in " \t'\"\\" && !Special(rest[i])
    ensures Run(State(words, Some(begun), Plain), rest) == State(words, Some(w), Plain)
    decreases |rest|
  {
    if rest == [] {
      assert begun == w;
    } else {
      assert begun + [rest[0]] + rest[1..] == w;
      RunBareFrom(words, begun + [rest[0]], rest[1..], w);
    }
  }

  /** Bare words separated by single spaces. */
  function Line(ws: seq<string>): string {
    if ws == [] then "" else if |ws| == 1 then ws[0] else ws[0] + (" " + Line(ws[1..]))
  }

  lemma {:induction false} LineWordsFrom(words: seq<string>, ws: seq<string>)
    requires ws != [] && forall i :: 0 <= i < |ws| ==> Bare(ws[i])
    ensures Final(Run(State(words, None, Plain), Line(ws))) == Some(words + ws)
    decreases |ws|
  {
    RunBare(words, ws[0]);
    if |ws| == 1 {
      assert ws == [ws[0]];
    } else {
      var st := State(words, Some(ws[0]), Plain);
      RunConcat(State(words, None, Plain), ws[0], " " + Line(ws[1..]));
      RunConcat(st, " ", Line(ws[1..]));
      RunOne(st, ' ');
      LineWordsFrom(words + [ws[0]], ws[1..]);
      assert ws == [ws[0]] + ws[1..];
      Assoc(words, [ws[0]], ws[1..]);
    }
  }

  lemma LineWords(ws: seq<string>)
    requires ws != [] && forall i :: 0 <= i < |ws| ==> Bare(ws[i])
    ensures Words(Line(ws)) == Some(ws)
  {
    LineWordsFrom([], ws);
    assert [] + ws == ws;
  }

  /** The words the commands are made of: lower-case letters, digits and colons. */
  predicate WordChar(c: char) {
    'a' <= c <= 'z' || '0' <= c <= '9' || c == ':'
  }

  lemma WordCharsBare(w: string)
    requires w != [] && forall i :: 0 <= i < |w| ==> WordChar(w[i])
    ensures Bare(w)
  {
  }

  lemma ConstantWords()
    ensures Bare("tc") && Bare("qdisc") && Bare("class") && Bare("replace") && Bare("del") && Bare("dev")
    ensures Bare("root") && Bare("handle") && Bare("1:") && Bare("htb") && Bare("default") && Bare("ffff")
    ensures Bare("parent") && Bare("classid") && Bare("rate") && Bare("ceil")
  {
    WordCharsBare("tc");
    WordCharsBare("qdisc");
    WordCharsBare("class");
    WordCharsBare("replace");
    WordCharsBare("del");
    WordCharsBare("dev");
    WordCharsBare("root");
    WordCharsBare("handle");
    WordCharsBare("1:");
    WordCharsBare("htb");
    WordCharsBare("default");
    WordCharsBare("ffff");
    WordCharsBare("parent");
    WordCharsBare("classid");
    WordCharsBare("rate");
    WordCharsBare("ceil");
  }

  function SetupQdisc(dev: string): string {
    Line(["tc", "qdisc", "replace", "dev"]) + " " + Quote(dev) + " " +
    Line(["root", "handle", "1:", "htb", "default", "ffff"])
  }

  function AddClass(dev: string, classid: string, rate: string): string {
    Line(["tc", "class", "replace", "dev"]) + " " + Quote(dev) + " " +
    Line(["parent", "1:", "classid", classid, "htb", "rate"]) + " " + Quote(rate) + " " + Line(["ceil"]) + " " + Quote(rate)
  }

  function DelClass(dev: string, classid: string): string {
    Line(["tc", "class", "del", "dev"]) + " " + Quote(dev) + " " + Line(["classid", classid])
  }

  /** Whatever the device is called, tc is given that name as one argument, and nothing else runs. */
  lemma SetupQdiscWords(dev: string)
    ensures Words(SetupQdisc(dev)) ==
            Some(["tc", "qdisc", "replace", "dev"] + [dev] + ["root", "handle", "1:", "htb", "default", "ffff"])
  {
    ConstantWords();
    LineWords(["tc", "qdisc", "replace", "dev"]);
    LineWords(["root", "handle", "1:", "htb", "default", "ffff"]);
    QuoteIsOneWord(Line(["tc", "qdisc", "replace", "dev"]), dev, Line(["root", "handle", "1:", "htb", "default", "ffff"]));
  }

  /** The same for the class commands: device and rate are one argument each, whatever they contain. */
  lemma AddClassWords(dev: string, classid: string, rate: string)
    requires Bare(classid)
    ensures Words(AddClass(dev, classid, rate)) ==
            Some(["tc", "class", "replace", "dev"] + [dev] + ["parent", "1:", "classid", classid, "htb", "rate"] + [rate] +
                 ["ceil"] + [rate])
  {
    ConstantWords();
    var before, options := ["tc", "class", "replace", "dev"], ["parent", "1:", "classid", classid, "htb", "rate"];
    LineWords(before);
    LineWords(options);
    LineWords(["ceil"]);
    TwoQuotes(Line(before), dev, Line(options), rate, Line(["ceil"]));
    QuoteAtEnd(Line(before) + " " + Quote(dev) + " " + Line(options) + " " + Quote(rate) + " " + Line(["ceil"]), rate);
  }

  lemma TwoQuotes(a: string, s: string, b: string, s': string, c: string)
    requires Words(a).Some? && Words(b).Some? && Words(c).Some?
    ensures Words(a + " " + Quote(s) + " " + b + " " + Quote(s') + " " + c) ==
            Some(Words(a).value + [s] + Words(b).value + [s'] + Words(c).value)
  {
    QuoteIsOneWord(a, s, b);
    QuoteIsOneWord(a + " " + Quote(s) + " " + b, s', c);
  }

  lemma DelClassWords(dev: string, classid: string)
    requires Bare(classid)
    ensures Words(DelClass(dev, classid)) == Some(["tc", "class", "del", "dev"] + [dev] + ["classid", classid])
  {
    ConstantWords();
    LineWords(["tc", "class", "del", "dev"]);
    LineWords(["classid", classid]);
    QuoteIsOneWord(Line(["tc", "class", "del", "dev"]), dev, Line(["classid", classid]));
  }
}
