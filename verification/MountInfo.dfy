/**
 Finding the cgroup2 mount point in /proc/self/mountinfo, as `net-limit` does it, against how
 the kernel writes that file: fields separated by single spaces, with space, tab, newline and
 backslash inside a path written as a backslash and three octal digits.
 */
module MountInfo {
  import opened Seqs
  import opened Basics

  function DigitValue(c: char): nat
    requires IsDigit(c)
  {
    (c - '0') as nat
  }

  /** The character that three digits stand for, kept to eight bits. */
  function Octal(a: char, b: char, c: char): char
    requires IsDigit(a) && IsDigit(b) && IsDigit(c)
  {
    ((DigitValue(a) * 64 + DigitValue(b) * 8 + DigitValue(c)) % 256) as char
  }

  // ---------------------------------------------------------------- paths

  /** `decode_mountinfo_path`: a backslash with three digits becomes one character, anything else stays. */
  function DecodePath(s: string): string {
    if s == [] then []
    else if |s| > 3 && s[0] == '\\' && IsDigit(s[1]) && IsDigit(s[2]) && IsDigit(s[3]) then
      [Octal(s[1], s[2], s[3])] + DecodePath(s[4..])
    else [s[0]] + DecodePath(s[1..])
  }

  /** Does an escape start at `i`? */
  predicate EscapeAt(path: string, i: nat) {
    i + 3 < |path| && path[i] == '\\' && IsDigit(path[i + 1]) && IsDigit(path[i + 2]) && IsDigit(path[i + 3])
  }

  lemma DecodeAt(path: string, i: nat)
    requires i < |path|
    ensures EscapeAt(path, i) ==>
              DecodePath(path[i..]) ==
              [Octal(path[i + 1], path[i + 2], path[i + 3])] + DecodePath(path[i + 4..])
    ensures !EscapeAt(path, i) ==> DecodePath(path[i..]) == [path[i]] + DecodePath(path[i + 1..])
  {
    var rest := path[i..];
    DropDrop(path, i, 1);
    if EscapeAt(path, i) {
      DropDrop(path, i, 4);
      assert rest[0] == path[i] && rest[1] == path[i + 1] && rest[2] == path[i + 2] && rest[3] == path[i + 3];
    }
  }

  /** The loop of `decode_mountinfo_path`. */
  method DecodeLoop(path: string) returns (out: string)
    ensures out == DecodePath(path)
  {
    out := "";
    var i := 0;
    assert path[0..] == path;
    while i < |path|
      invariant 0 <= i <= |path|
      invariant out + DecodePath(path[i..]) == DecodePath(path)
    {
      DecodeAt(path, i);
      if EscapeAt(path, i) {
        var c := Octal(path[i + 1], path[i + 2], path[i + 3]);
        Assoc(out, [c], DecodePath(path[i + 4..]));
        out := out + [c];
        i := i + 4;
      } else {
        Assoc(out, [path[i]], DecodePath(path[i + 1..]));
        out := out + [path[i]];
        i := i + 1;
      }
    }
    assert out + [] == out;
  }

  /** How the kernel writes one character of a path. */
  function EscapeChar(c: char): string {
    if c == ' ' then "\\040" else if c == '\t' then "\\011" else if c == '\n' then "\\012" else if c == '\\' then "\\134" else [c]
  }

  function Escape(p: string): string {
    if p == [] then [] else EscapeChar(p[0]) + Escape(p[1..])
  }

  lemma DecodeEscapedChar(c: char, rest: string)
    ensures DecodePath(EscapeChar(c) + rest) == [c] + DecodePath(rest)
  {
    var e := EscapeChar(c);
    if |e| == 4 {
      assert (e + rest)[4..] == rest;
      assert (e + rest)[1] == e[1] && (e + rest)[2] == e[2] && (e + rest)[3] == e[3];
    } else {
      assert (e + rest)[1..] == rest;
    }
  }

  /** Decoding undoes the kernel's escaping, for every path. */
  lemma {:induction false} DecodeInvertsEscape(p: string)
    ensures DecodePath(Escape(p)) == p
  {
    if p != [] {
      DecodeEscapedChar(p[0], Escape(p[1..]));
      DecodeInvertsEscape(p[1..]);
      assert p == [p[0]] + p[1..];
    }
  }

  // ---------------------------------------------------------------- fields

  /** `isspace`: what ends a field for `istringstream >> field`. */
  predicate IsSpace(c: char) {
    c == ' ' || c == '\t' || c == '\n' || c == 11 as char || c == 12 as char || c == '\r'
  }

  predicate Field(f: string) {
    f != [] && forall i :: 0 <= i < |f| ==> !IsSpace(f[i])
  }

  function SkipSpaces(s: string): (r: string)
    ensures |r| <= |s| && (r == [] || !IsSpace(r[0]))
  {
    if s != [] && IsSpace(s[0]) then SkipSpaces(s[1..]) else s
  }

  function FieldLength(s: string): (n: nat)
    ensures n <= |s|
  {
    if s == [] || IsSpace(s[0]) then 0 else 1 + FieldLength(s[1..])
  }

  /** The `n`-th whitespace-separated field, counting from 0; None when there are not that many. */
  function NthField(s: string, n: nat): Option<string>
    decreases n
  {
    var t := SkipSpaces(s);
    if t == [] then None
    else if n == 0 then Some(t[..FieldLength(t)])
    else NthField(t[FieldLength(t)..], n - 1)
  }

  lemma {:induction false} FieldLengthAt(f: string, rest: string)
    requires (forall i :: 0 <= i < |f| ==> !IsSpace(f[i])) && (rest == [] || IsSpace(rest[0]))
    ensures FieldLength(f + rest) == |f|
  {
    if f == [] {
      assert f + rest == rest;
    } else {
      assert (f + rest)[1..] == f[1..] + rest;
      FieldLengthAt(f[1..], rest);
    }
  }

  /** All fields of a text. */
  function Split(s: string): seq<string>
    decreases |s|
  {
    var t := SkipSpaces(s);
    if t == [] then [] else [t[..FieldLength(t)]] + Split(t[FieldLength(t)..])
  }

  lemma {:induction false} NthSplit(s: string, n: nat)
    ensures NthField(s, n) == At(Split(s), n)
    decreases n
  {
    var t := SkipSpaces(s);
    if t != [] && n > 0 {
      NthSplit(t[FieldLength(t)..], n - 1);
    }
  }

  lemma SplitSpace(c: char, s: string)
    requires IsSpace(c)
    ensures Split([c] + s) == Split(s)
  {
    assert ([c] + s)[1..] == s;
  }

  lemma SplitField(f: string, s: string)
    requires Field(f) && (s == [] || IsSpace(s[0]))
    ensures Split(f + s) == [f] + Split(s)
  {
    assert SkipSpaces(f + s) == f + s;
    FieldLengthAt(f, s);
    SliceRight(f, s);
  }

  lemma {:induction false} FieldLengthIsField(t: string)
    requires t != [] && !IsSpace(t[0])
    ensures Field(t[..FieldLength(t)]) && (t[FieldLength(t)..] == [] || IsSpace(t[FieldLength(t)]))
  {
    if |t| > 1 && !IsSpace(t[1]) {
      FieldLengthIsField(t[1..]);
      assert t[..FieldLength(t)] == [t[0]] + t[1..][..FieldLength(t[1..])];
    }
  }

  /** A text that is cut at a space has the fields of both parts. */
  lemma {:induction false} SplitConcat(a: string, s: string)
    requires s == [] || IsSpace(s[0])
    ensures Split(a + s) == Split(a) + Split(s)
    decreases |a|
  {
    if a == [] {
      assert a + s == s;
    } else if IsSpace(a[0]) {
      assert a == [a[0]] + a[1..] && a + s == [a[0]] + (a[1..] + s);
      SplitSpace(a[0], a[1..]);
      SplitSpace(a[0], a[1..] + s);
      SplitConcat(a[1..], s);
    } else {
      FieldLengthIsField(a);
      var f, b := a[..FieldLength(a)], a[FieldLength(a)..];
      assert a == f + b;
      Assoc(f, b, s);
      SplitField(f, b);
      SplitField(f, b + s);
      SplitConcat(b, s);
      Assoc([f], Split(b), Split(s));
    }
  }

  /** Fields separated by single spaces. */
  function Join(fs: seq<string>): string {
    if fs == [] then "" else if |fs| == 1 then fs[0] else fs[0] + (" " + Join(fs[1..]))
  }

  function SplitAll(fs: seq<string>): seq<string> {
    if fs == [] then [] else Split(fs[0]) + SplitAll(fs[1..])
  }

  lemma {:induction false} SplitJoin(fs: seq<string>)
    ensures Split(Join(fs)) == SplitAll(fs)
  {
    if |fs| == 1 {
      assert SplitAll(fs) == Split(fs[0]) + [];
    } else if |fs| > 1 {
      SplitConcat(fs[0], " " + Join(fs[1..]));
      SplitSpace(' ', Join(fs[1..]));
      SplitJoin(fs[1..]);
    }
  }

  lemma {:induction false} SplitAllConcat(a: seq<string>, b: seq<string>)
    ensures SplitAll(a + b) == SplitAll(a) + SplitAll(b)
  {
    if a == [] {
      assert a + b == b;
    } else {
      assert (a + b)[1..] == a[1..] + b;
      SplitAllConcat(a[1..], b);
      Assoc(Split(a[0]), SplitAll(a[1..]), SplitAll(b));
    }
  }

  ghost predicate Fields(fs: seq<string>) {
    forall i :: 0 <= i < |fs| ==> Field(fs[i])
  }

  lemma {:induction false} SplitFields(fs: seq<string>)
    requires Fields(fs)
    ensures SplitAll(fs) == fs
  {
    if fs != [] {
      SplitField(fs[0], []);
      assert fs[0] + [] == fs[0];
      SplitFields(fs[1..]);
      assert fs == [fs[0]] + fs[1..];
    }
  }

  // Inside a path three characters end a field although the kernel does not escape them.

  predicate Breaks(c: char) {
    c == 11 as char || c == 12 as char || c == '\r'
  }

  /** A path without any of them. */
  predicate Survives(p: string) {
    forall i :: 0 <= i < |p| ==> !Breaks(p[i])
  }

  function PieceLength(p: string): (n: nat)
    ensures n <= |p| && Survives(p[..n]) && (n < |p| ==> Breaks(p[n]))
    ensures p != [] && !Breaks(p[0]) ==> n > 0
  {
    if p == [] || Breaks(p[0]) then 0
    else
      var n := PieceLength(p[1..]);
      assert p[..n + 1] == [p[0]] + p[1..][..n];
      n + 1
  }

  /** The parts of a path between runs of such characters. */
  function Pieces(p: string): seq<string>
    decreases |p|
  {
    if p == [] then []
    else if Breaks(p[0]) then Pieces(p[1..])
    else [p[..PieceLength(p)]] + Pieces(p[PieceLength(p)..])
  }

  lemma {:induction false} EscapeIsField(p: string)
    requires Survives(p) && p != []
    ensures Field(Escape(p))
  {
    var e := EscapeChar(p[0]);
    assert Field(e);
    if |p| > 1 {
      EscapeIsField(p[1..]);
      assert Escape(p) == e + Escape(p[1..]);
    } else {
      assert Escape(p[1..]) == [] && Escape(p) == e + [] == e;
    }
  }

  lemma {:induction false} EscapeConcat(a: string, b: string)
    ensures Escape(a + b) == Escape(a) + Escape(b)
  {
    if a == [] {
      assert a + b == b;
    } else {
      assert (a + b)[1..] == a[1..] + b;
      EscapeConcat(a[1..], b);
      Assoc(EscapeChar(a[0]), Escape(a[1..]), Escape(b));
    }
  }

  function EscapeAll(ps: seq<string>): (r: seq<string>)
    ensures |r| == |ps| && forall i :: 0 <= i < |ps| ==> r[i] == Escape(ps[i])
  {
    if ps == [] then [] else [Escape(ps[0])] + EscapeAll(ps[1..])
  }

  /** The fields that an escaped path falls into are its escaped pieces. */
  lemma {:induction false} SplitEscape(p: string)
    ensures Split(Escape(p)) == EscapeAll(Pieces(p))
    decreases |p|
  {
    if p == [] {
    } else if Breaks(p[0]) {
      SplitSpace(p[0], Escape(p[1..]));
      SplitEscape(p[1..]);
    } else {
      var n := PieceLength(p);
      var f, q := p[..n], p[n..];
      assert p == f + q;
      EscapeConcat(f, q);
      EscapeIsField(f);
      assert q != [] ==> Escape(q)[0] == q[0];
      SplitField(Escape(f), Escape(q));
      SplitEscape(q);
      assert ([f] + Pieces(q))[1..] == Pieces(q);
    }
  }

  lemma {:induction false} PieceOfWhole(p: string)
    requires p != [] && Survives(p)
    ensures Pieces(p) == [p]
  {
    assert PieceLength(p) == |p|;
    assert p[..|p|] == p && p[|p|..] == [];
  }

  predicate AllBreaks(p: string) {
    forall i :: 0 <= i < |p| ==> Breaks(p[i])
  }

  lemma {:induction false} NoPieces(p: string)
    ensures Pieces(p) == [] <==> AllBreaks(p)
  {
    if p != [] && Breaks(p[0]) {
      NoPieces(p[1..]);
      assert p == [p[0]] + p[1..];
    }
  }

  /** One piece, with nothing but breaking characters before and after it. */
  ghost predicate Compact(p: string) {
    exists i, j :: 0 <= i < j <= |p| && CompactAt(p, i, j)
  }

  predicate CompactAt(p: string, i: nat, j: nat)
    requires i < j <= |p|
  {
    AllBreaks(p[..i]) && Survives(p[i..j]) && AllBreaks(p[j..])
  }

  lemma {:induction false} PieceLengthAt(p: string, n: nat)
    requires n <= |p| && Survives(p[..n]) && (n < |p| ==> Breaks(p[n]))
    ensures PieceLength(p) == n
  {
    if n > 0 {
      assert p[..n][0] == p[0] && p[1..][..n - 1] == p[..n][1..];
      PieceLengthAt(p[1..], n - 1);
    }
  }

  lemma {:induction false} CompactIsOne(p: string, i: nat, j: nat)
    requires i < j <= |p| && CompactAt(p, i, j)
    ensures Pieces(p) == [p[i..j]]
  {
    if i == 0 {
      assert p[0..j] == p[..j] && p[..j][0] == p[0];
      assert j < |p| ==> p[j..][0] == p[j];
      PieceLengthAt(p, j);
      NoPieces(p[j..]);
    } else {
      assert p[..i][0] == p[0];
      assert p[1..][..i - 1] == p[..i][1..] && p[1..][i - 1..j - 1] == p[i..j] && p[1..][j - 1..] == p[j..];
      CompactIsOne(p[1..], i - 1, j - 1);
    }
  }

  lemma {:induction false} OneIsCompact(p: string)
    requires |Pieces(p)| == 1
    ensures Compact(p)
  {
    if Breaks(p[0]) {
      OneIsCompact(p[1..]);
      var i, j :| 0 <= i < j <= |p[1..]| && CompactAt(p[1..], i, j);
      assert p[..i + 1] == [p[0]] + p[1..][..i] && p[i + 1..j + 1] == p[1..][i..j] && p[j + 1..] == p[1..][j..];
      assert CompactAt(p, i + 1, j + 1);
    } else {
      var n := PieceLength(p);
      NoPieces(p[n..]);
      assert p[..0] == [] && p[0..n] == p[..n];
      assert CompactAt(p, 0, n);
    }
  }

  /** A path is one piece exactly when breaking characters stand only in front of it and behind it. */
  lemma OnePiece(p: string)
    ensures |Pieces(p)| == 1 <==> Compact(p)
  {
    if Compact(p) {
      var i, j :| 0 <= i < j <= |p| && CompactAt(p, i, j);
      CompactIsOne(p, i, j);
    }
    if |Pieces(p)| == 1 {
      OneIsCompact(p);
    }
  }

  // ---------------------------------------------------------------- the separator

  /** `line.find(" - ")`. */
  function FindSep(line: string): Option<nat> {
    if |line| < 3 then None
    else if line[0] == ' ' && line[1] == '-' && line[2] == ' ' then Some(0)
    else
      var r := FindSep(line[1..]);
      if r.Some? then Some(r.value + 1) else None
  }

  ghost predicate NoDash(fs: seq<string>) {
    forall i :: 0 <= i < |fs| ==> fs[i] != "-"
  }

  predicate Solid(f: string) {
    f != [] && forall i :: 0 <= i < |f| ==> f[i] != ' '
  }

  ghost predicate AllSolid(fs: seq<string>) {
    forall i :: 0 <= i < |fs| ==> Solid(fs[i])
  }

  function After(r: Option<nat>, n: nat): Option<nat> {
    if r.Some? then Some(n + r.value) else None
  }

  lemma {:induction false} FindPastField(f: string, rest: string)
    requires forall i :: 0 <= i < |f| ==> f[i] != ' '
    requires |rest| >= 3
    ensures FindSep(f + rest) == After(FindSep(rest), |f|)
  {
    if f == [] {
      assert f + rest == rest;
    } else {
      assert (f + rest)[1..] == f[1..] + rest;
      FindPastField(f[1..], rest);
    }
  }

  lemma FindPastSpace(g: string, rest: string)
    requires Solid(g) && g != "-" && rest != [] && rest[0] == ' ' && |g + rest| >= 3
    ensures FindSep(" " + (g + rest)) == After(FindSep(g + rest), 1)
  {
    var s := " " + (g + rest);
    assert s[1..] == g + rest;
    assert s[1] == g[0];
    if |g| == 1 {
      assert g == [g[0]] && g[0] != '-';
    } else {
      assert s[2] == g[1];
    }
  }

  /** In front of the separator there is no field "-", so the first " - " of a line is the separator. */
  lemma {:induction false} FindSeparator(pre: seq<string>, post: string)
    requires pre != [] && AllSolid(pre) && NoDash(pre)
    ensures FindSep(Join(pre) + (" - " + post)) == Some(|Join(pre)|)
  {
    var sep := " - " + post;
    assert FindSep(sep) == Some(0);
    assert Solid(pre[0]);
    if |pre| == 1 {
      FindPastField(pre[0], sep);
    } else {
      var more := Join(pre[1..]) + sep;
      Assoc(pre[0], " " + Join(pre[1..]), sep);
      Assoc(" ", Join(pre[1..]), sep);
      FindSeparator(pre[1..], post);
      FirstField(pre[1..], sep);
      var rest := if |pre| == 2 then sep else " " + (Join(pre[2..]) + sep);
      assert more == pre[1] + rest;
      assert Solid(pre[1]) && pre[1] != "-";
      FindPastSpace(pre[1], rest);
      FindPastField(pre[0], " " + more);
    }
  }

  lemma FirstField(fs: seq<string>, tail: string)
    requires fs != []
    ensures Join(fs) + tail == fs[0] + (if |fs| == 1 then tail else " " + (Join(fs[1..]) + tail))
  {
    if |fs| > 1 {
      Assoc(fs[0], " " + Join(fs[1..]), tail);
      Assoc(" ", Join(fs[1..]), tail);
    }
  }

  // ---------------------------------------------------------------- get_cgroup2_mount

  datatype Answer = Skip | Stop(mount: Option<string>)

  /** What one line decides: go on, give up, or an answer. */
  function LookAt(line: string): Answer {
    var sep := FindSep(line);
    if sep.None? || sep.value + 3 > |line| then Skip
    else
      var pre, post := line[..sep.value], line[sep.value + 3..];
      if NthField(post, 0) != Some("cgroup2") then Skip
      else
        var field := NthField(pre, 4);
        Stop(if field.Some? then Some(DecodePath(field.value)) else None)
  }

  function Lookup(lines: seq<string>): Option<string> {
    if lines == [] then None
    else
      var a := LookAt(lines[0]);
      if a.Stop? then a.mount else Lookup(lines[1..])
  }

  /** The loop of `get_cgroup2_mount`. */
  method GetCgroup2Mount(lines: seq<string>) returns (mount: Option<string>)
    ensures mount == Lookup(lines)
  {
    for i := 0 to |lines|
      invariant Lookup(lines[i..]) == Lookup(lines)
    {
      var a := LookAt(lines[i]);
      assert lines[i..][1..] == lines[i + 1..];
      if a.Stop? {
        return a.mount;
      }
    }
    mount := None;
  }

  /**
   One mount as the kernel describes it: three numbers, the root of the mount within its file
   system, the mount point, the options and optional fields, then after the separator the file
   system type and the rest. Root and mount point are paths and may hold any character.
   */
  datatype Mount = Mount(ids: seq<string>, root: string, path: string, optional: seq<string>, fstype: string, rest: string)

  function PreFields(m: Mount): seq<string> {
    m.ids + ([Escape(m.root)] + ([Escape(m.path)] + m.optional))
  }

  ghost predicate WellFormed(m: Mount) {
    && |m.ids| == 3 && Fields(m.ids) && NoDash(m.ids)
    && m.root != [] && m.root != "-"
    && m.path != [] && m.path[0] == '/'
    && m.optional != [] && Fields(m.optional) && NoDash(m.optional)
    && Field(m.fstype)
  }

  function Post(m: Mount): string {
    m.fstype + if m.rest == [] then "" else " " + m.rest
  }

  function Render(m: Mount): string {
    Join(PreFields(m)) + (" - " + Post(m))
  }

  lemma {:induction false} EscapeIsSolid(p: string)
    ensures forall i :: 0 <= i < |Escape(p)| ==> Escape(p)[i] != ' '
    ensures |Escape(p)| >= |p|
  {
    if p != [] {
      EscapeIsSolid(p[1..]);
      var e := EscapeChar(p[0]);
      assert forall i :: 0 <= i < |e| ==> e[i] != ' ';
    }
  }

  lemma EscapeNotDash(p: string)
    requires p != "-"
    ensures Escape(p) != "-"
  {
    EscapeIsSolid(p);
    if |p| == 1 {
      assert p == [p[0]] && p[1..] == [];
      assert Escape(p) == EscapeChar(p[0]) + [] == EscapeChar(p[0]);
    }
  }

  lemma PreFieldsSolid(m: Mount)
    requires WellFormed(m)
    ensures AllSolid(PreFields(m)) && NoDash(PreFields(m))
  {
    EscapeIsSolid(m.root);
    EscapeIsSolid(m.path);
    EscapeNotDash(m.root);
    EscapeNotDash(m.path);
    var pre := PreFields(m);
    forall i | 0 <= i < |pre| ensures Solid(pre[i]) && pre[i] != "-" {
      if i < 3 {
        assert pre[i] == m.ids[i] && Field(m.ids[i]);
      } else if i > 4 {
        assert pre[i] == m.optional[i - 5] && Field(m.optional[i - 5]);
      }
    }
  }

  lemma RenderSplits(m: Mount)
    requires WellFormed(m)
    ensures FindSep(Render(m)) == Some(|Join(PreFields(m))|)
    ensures Render(m)[..|Join(PreFields(m))|] == Join(PreFields(m))
    ensures Render(m)[|Join(PreFields(m))| + 3..] == Post(m)
  {
    PreFieldsSolid(m);
    var pre := Join(PreFields(m));
    FindSeparator(PreFields(m), Post(m));
    SliceRight(pre, " - " + Post(m));
    assert Render(m)[|pre| + 3..] == Post(m);
  }

  lemma FstypeFirst(m: Mount)
    requires WellFormed(m)
    ensures NthField(Post(m), 0) == Some(m.fstype)
  {
    SplitField(m.fstype, if m.rest == [] then "" else " " + m.rest);
    NthSplit(Post(m), 0);
  }

  /** What a line decides, from its two parts. */
  lemma LookAtLine(m: Mount)
    requires WellFormed(m)
    ensures LookAt(Render(m)) ==
            if m.fstype != "cgroup2" then Skip
            else
              var field := NthField(Join(PreFields(m)), 4);
              Stop(if field.Some? then Some(DecodePath(field.value)) else None)
  {
    RenderSplits(m);
    FstypeFirst(m);
    assert |Join(PreFields(m))| + 3 <= |Render(m)|;
    LookAtParts(Render(m), Join(PreFields(m)), Post(m));
  }

  lemma LookAtParts(line: string, pre: string, post: string)
    requires FindSep(line) == Some(|pre|) && |pre| + 3 <= |line| && line[..|pre|] == pre && line[|pre| + 3..] == post
    ensures LookAt(line) ==
            if NthField(post, 0) != Some("cgroup2") then Skip
            else
              var field := NthField(pre, 4);
              Stop(if field.Some? then Some(DecodePath(field.value)) else None)
  {
  }

  /** A line is passed over exactly when its type is not cgroup2. */
  lemma OtherSkipped(m: Mount)
    requires WellFormed(m)
    ensures LookAt(Render(m)) == Skip <==> m.fstype != "cgroup2"
  {
    LookAtLine(m);
  }

  function DecodeFields(fs: seq<string>): (r: seq<string>)
    ensures |r| == |fs| && forall i :: 0 <= i < |fs| ==> r[i] == DecodePath(fs[i])
  {
    if fs == [] then [] else [DecodePath(fs[0])] + DecodeFields(fs[1..])
  }

  /** The fields of a line from the fourth on, decoded. */
  function Shown(m: Mount): seq<string> {
    Pieces(m.root) + (Pieces(m.path) + DecodeFields(m.optional))
  }

  lemma LineFields(m: Mount)
    requires WellFormed(m)
    ensures Split(Join(PreFields(m))) ==
            m.ids + (EscapeAll(Pieces(m.root)) + (EscapeAll(Pieces(m.path)) + m.optional))
  {
    var root, path := [Escape(m.root)], [Escape(m.path)];
    SplitJoin(PreFields(m));
    SplitAllConcat(m.ids, root + (path + m.optional));
    SplitAllConcat(root, path + m.optional);
    SplitAllConcat(path, m.optional);
    SplitFields(m.ids);
    SplitFields(m.optional);
    OneSplit(m.root);
    OneSplit(m.path);
  }

  lemma OneSplit(p: string)
    ensures SplitAll([Escape(p)]) == EscapeAll(Pieces(p))
  {
    SplitEscape(p);
    assert [Escape(p)][1..] == [];
    assert SplitAll([Escape(p)]) == Split(Escape(p)) + [];
  }

  lemma {:induction false} DecodeFieldsConcat(a: seq<string>, b: seq<string>)
    ensures DecodeFields(a + b) == DecodeFields(a) + DecodeFields(b)
  {
    if a == [] {
      assert a + b == b;
    } else {
      assert (a + b)[1..] == a[1..] + b;
      DecodeFieldsConcat(a[1..], b);
      Assoc([DecodePath(a[0])], DecodeFields(a[1..]), DecodeFields(b));
    }
  }

  lemma {:induction false} DecodePieces(ps: seq<string>)
    ensures DecodeFields(EscapeAll(ps)) == ps
  {
    if ps != [] {
      DecodeInvertsEscape(ps[0]);
      assert EscapeAll(ps)[1..] == EscapeAll(ps[1..]);
      DecodePieces(ps[1..]);
      assert ps == [ps[0]] + ps[1..];
    }
  }

  /** Decoding those fields gives what is shown. */
  lemma DecodeShown(m: Mount)
    ensures DecodeFields(EscapeAll(Pieces(m.root)) + (EscapeAll(Pieces(m.path)) + m.optional)) == Shown(m)
  {
    DecodeFieldsConcat(EscapeAll(Pieces(m.root)), EscapeAll(Pieces(m.path)) + m.optional);
    DecodeFieldsConcat(EscapeAll(Pieces(m.path)), m.optional);
    DecodePieces(Pieces(m.root));
    DecodePieces(Pieces(m.path));
  }

  /** What a cgroup2 line answers: the second of what is shown, which is meant to be the mount point. */
  lemma AnswerIs(m: Mount)
    requires WellFormed(m) && m.fstype == "cgroup2"
    ensures |Shown(m)| >= 2 && LookAt(Render(m)) == Stop(Some(Shown(m)[1]))
  {
    LookAtLine(m);
    var pre := Join(PreFields(m));
    NthSplit(pre, 4);
    LineFields(m);
    assert Pieces(m.path) != [] by { assert !Breaks(m.path[0]); }
    var fs := EscapeAll(Pieces(m.root)) + (EscapeAll(Pieces(m.path)) + m.optional);
    DecodeShown(m);
    assert Split(pre)[4] == fs[1];
  }

  /** The first piece of a path that does not begin with a breaking character is all of it exactly when it has none. */
  lemma FirstPiece(p: string)
    requires p != [] && !Breaks(p[0])
    ensures Pieces(p) != [] && (Pieces(p)[0] == p <==> Survives(p)) && Pieces(p)[0] <= p
    ensures |Pieces(p)| > 1 ==> Pieces(p)[1] != p
  {
    var n := PieceLength(p);
    assert n == |p| ==> p[..n] == p;
    if |Pieces(p)| > 1 {
      PieceShort(p[n..], 0);
      assert Pieces(p)[1] == Pieces(p[n..])[0];
    }
  }

  lemma {:induction false} PieceShort(p: string, i: nat)
    requires i < |Pieces(p)|
    ensures |Pieces(p)[i]| <= |p|
    decreases |p|
  {
    if Breaks(p[0]) {
      PieceShort(p[1..], i);
    } else if i > 0 {
      PieceShort(p[PieceLength(p)..], i - 1);
    }
  }

  /**
   The exact answer of a cgroup2 line. If the root of the mount is one piece, it is the mount
   point exactly when that has no breaking character, and a proper prefix of it otherwise. If the
   root is in several pieces, the answer is the second of them, whatever the mount point is; if
   it has none, the answer comes from one field too far.
   */
  lemma AnswerExact(m: Mount)
    requires WellFormed(m) && m.fstype == "cgroup2"
    ensures LookAt(Render(m)).Stop? && LookAt(Render(m)).mount.Some?
    ensures var answer, pieces := LookAt(Render(m)).mount.value, Pieces(m.root);
            && (|pieces| == 1 ==> answer <= m.path && (answer == m.path <==> Survives(m.path)))
            && (|pieces| > 1 ==> answer == pieces[1])
            && (|pieces| == 0 ==>
                  answer == if |Pieces(m.path)| > 1 then Pieces(m.path)[1] else DecodePath(m.optional[0]))
  {
    AnswerIs(m);
    FirstPiece(m.path);
  }

  /** When the answer is the mount point, as a condition on the two paths alone where the root begins as roots do. */
  lemma RightAnswer(m: Mount)
    requires WellFormed(m) && m.fstype == "cgroup2" && !Breaks(m.root[0])
    ensures LookAt(Render(m)) == Stop(Some(m.path)) <==>
            if Compact(m.root) then Survives(m.path) else |Pieces(m.root)| > 1 && Pieces(m.root)[1] == m.path
  {
    AnswerExact(m);
    OnePiece(m.root);
    assert Pieces(m.root) != [];
  }

  lemma TwoPieces(a: string, c: char, b: string)
    requires a != [] && b != [] && Survives(a) && Survives(b) && Breaks(c)
    ensures Pieces(a + ([c] + b)) == [a, b]
  {
    var p := a + ([c] + b);
    SliceRight(a, [c] + b);
    assert !Breaks(a[0]);
    PieceLengthAt(p, |a|);
    assert ([c] + b)[1..] == b;
    PieceOfWhole(b);
  }

  /** Any such character inside the root of the mount gives the rest of the root as the answer. */
  lemma BrokenRoot(m: Mount, a: string, c: char, b: string)
    requires WellFormed(m) && m.fstype == "cgroup2" && m.root == a + ([c] + b)
    requires a != [] && b != [] && Survives(a) && Survives(b) && Breaks(c)
    ensures LookAt(Render(m)) == Stop(Some(b))
  {
    TwoPieces(a, c, b);
    AnswerExact(m);
  }

  /** A carriage return in the root is enough for a wrong answer, although the mount point has none. */
  lemma WrongRoot()
    ensures var m := Mount(["1", "2", "0:3"], "/a" + (['\r'] + "b"), "/m", ["rw"], "cgroup2", "none rw");
            Survives(m.path) && LookAt(Render(m)) == Stop(Some("b"))
  {
    var m := Mount(["1", "2", "0:3"], "/a" + (['\r'] + "b"), "/m", ["rw"], "cgroup2", "none rw");
    assert Field("1") && Field("2") && Field("0:3") && Field("rw") && Field("cgroup2");
    BrokenRoot(m, "/a", '\r', "b");
  }

  function RenderAll(ms: seq<Mount>): seq<string> {
    if ms == [] then [] else [Render(ms[0])] + RenderAll(ms[1..])
  }

  function FirstCgroup2(ms: seq<Mount>): (r: Option<Mount>)
    ensures r.Some? ==>
              exists i :: 0 <= i < |ms| && ms[i] == r.value && ms[i].fstype == "cgroup2" && forall j :: 0 <= j < i ==> ms[j].fstype != "cgroup2"
  {
    if ms == [] then None else if ms[0].fstype == "cgroup2" then Some(ms[0]) else FirstCgroup2(ms[1..])
  }

  /**
   For every mount table: there is an answer exactly when there is a cgroup2 mount, and then it
   is what the first one shows second; in particular its mount point, if its root is one piece
   and its mount point has no breaking character.
   */
  lemma {:induction false} FindsFirstCgroup2(ms: seq<Mount>)
    requires forall i :: 0 <= i < |ms| ==> WellFormed(ms[i])
    ensures Lookup(RenderAll(ms)) == None <==> FirstCgroup2(ms) == None
    ensures FirstCgroup2(ms).Some? ==>
              var m := FirstCgroup2(ms).value;
              && Lookup(RenderAll(ms)) == At(Shown(m), 1)
              && (Compact(m.root) && Survives(m.path) ==> Lookup(RenderAll(ms)) == Some(m.path))
    ensures FirstCgroup2(ms) == None <==> forall i :: 0 <= i < |ms| ==> ms[i].fstype != "cgroup2"
  {
    if ms != [] {
      assert WellFormed(ms[0]);
      OtherSkipped(ms[0]);
      assert RenderAll(ms)[1..] == RenderAll(ms[1..]);
      if ms[0].fstype == "cgroup2" {
        AnswerIs(ms[0]);
        AnswerExact(ms[0]);
        OnePiece(ms[0].root);
      } else {
        FindsFirstCgroup2(ms[1..]);
        NoneBelow(ms);
      }
    }
  }

  lemma NoneBelow(ms: seq<Mount>)
    requires ms != [] && ms[0].fstype != "cgroup2"
    ensures (forall i :: 0 <= i < |ms| ==> ms[i].fstype != "cgroup2") <==>
            (forall i :: 0 <= i < |ms[1..]| ==> ms[1..][i].fstype != "cgroup2")
  {
    if forall i :: 0 <= i < |ms[1..]| ==> ms[1..][i].fstype != "cgroup2" {
      forall i | 0 <= i < |ms| ensures ms[i].fstype != "cgroup2" {
        assert i > 0 ==> ms[i] == ms[1..][i - 1];
      }
    }
  }
}
