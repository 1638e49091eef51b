/**
 The file-protection policy of `frtp`: rules whose subject is an untagged union, directory
 rules that expand to one rule per directory, the table from targets back to paths, and the
 numbered filter map the rules are loaded into.
 */
module Policy {
  import opened Seqs
  import opened Basics
  import opened Bytes

  type Text = seq<Byte>

  const SLASH: Byte := 0x2f
  const STAR: Byte := 0x2a
  const DOT: Byte := 0x2e

  // ---------------------------------------------------------------- the subject of a rule

  datatype Identity = Process(path: Text) | Pid(pid: int)

  /** sizeof(Rule::process), the size of the union. */
  const UNION := 4096

  /** `strncpy` into a buffer of `n` bytes. */
  function Strncpy(s: Text, n: nat): (r: seq<Byte>)
    ensures |r| == n
  {
    if |s| >= n then s[..n] else s + Zeros(n - |s|)
  }

  function ToI32(x: int): (r: int)
    ensures -0x8000_0000 <= r < 0x8000_0000
    ensures -0x8000_0000 <= x < 0x8000_0000 ==> r == x
  {
    var u := x % 0x1_0000_0000;
    if u < 0x8000_0000 then u else u - 0x1_0000_0000
  }

  /** The `n` lowest bytes of a number, lowest first. */
  function LeBytes(x: nat, n: nat): (w: seq<Byte>)
    ensures |w| == n
  {
    if n == 0 then [] else [x % 256] + LeBytes(x / 256, n - 1)
  }

  function Word(x: int): (w: seq<Byte>)
    ensures |w| == 4
  {
    LeBytes(x % 0x1_0000_0000, 4)
  }

  /** The 4096 bytes of the union after the subject of a rule was written into a zeroed rule. */
  function Pack(id: Identity): (u: seq<Byte>)
    ensures |u| == UNION
  {
    match id
    case Process(path) => Strncpy(path, UNION)[..UNION - 1] + [0]
    case Pid(pid) => Zeros(4) + Word(pid) + Zeros(UNION - 8)
  }

  /** How the union is read back: a first word other than zero means that it holds a path. */
  function Unpack(u: seq<Byte>): Identity
    requires |u| == UNION
  {
    if Le(u[..4]) != 0 then Process(u[..Strnlen(u)]) else Pid(I32(u[4..8]))
  }

  lemma LeStep(x: nat, n: nat)
    requires n > 0 && Le(LeBytes(x / 256, n - 1)) == x / 256
    ensures Le(LeBytes(x, n)) == x
  {
    assert LeBytes(x, n)[1..] == LeBytes(x / 256, n - 1);
  }

  lemma WordRoundTrip(x: int)
    requires -0x8000_0000 <= x < 0x8000_0000
    ensures I32(Word(x)) == x
  {
    var u := x % 0x1_0000_0000;
    assert u == if x >= 0 then x else x + 0x1_0000_0000;
    LeStep(u / 0x100_0000, 1);
    LeStep(u / 0x1_0000, 2);
    LeStep(u / 0x100, 3);
    LeStep(u, 4);
  }

  lemma LeZero(w: seq<Byte>)
    requires forall i :: 0 <= i < |w| ==> w[i] == 0
    ensures Le(w) == 0
  {
  }

  /** Every process id survives the union. */
  lemma PidRoundTrip(pid: int)
    requires -0x8000_0000 <= pid < 0x8000_0000
    ensures Unpack(Pack(Pid(pid))) == Pid(pid)
  {
    var u := Pack(Pid(pid));
    assert u[..4] == Zeros(4);
    LeZero(u[..4]);
    assert u[4..8] == Word(pid);
    WordRoundTrip(pid);
  }

  /** A path survives up to the size of the buffer; only the empty one is taken for a process id. */
  lemma PathRoundTrip(path: Text)
    requires 0 !in path
    ensures Unpack(Pack(Process(path))) ==
            if path == [] then Pid(0) else Process(if |path| < UNION then path else path[..UNION - 1])
  {
    var u := Pack(Process(path));
    if path == [] {
      LeZero(u[..4]);
      LeZero(u[4..8]);
    } else {
      assert u[..4][0] == path[0] && path[0] in path;
      var kept := if |path| < UNION then path else path[..UNION - 1];
      KeptText(path, kept);
    }
  }

  lemma KeptText(path: Text, kept: Text)
    requires 0 !in path && kept == if |path| < UNION then path else path[..UNION - 1]
    ensures Pack(Process(path))[..Strnlen(Pack(Process(path)))] == kept
  {
    var u := Pack(Process(path));
    assert u == kept + ([0] + Zeros(UNION - 1 - |kept|));
    StrnlenAt(kept, Zeros(UNION - 1 - |kept|));
  }

  // ---------------------------------------------------------------- targets

  datatype Target = Target(dev: nat, ino: nat)

  datatype Kind = Regular | Directory | Other

  /** What `stat` tells about a path. */
  datatype Inode = Inode(major: nat, minor: nat, ino: nat, kind: Kind)

  /** `dev_old2new`: twelve bits of the major number, twenty of the minor one. */
  function DevOld2New(major: nat, minor: nat): nat {
    major % 0x1000 * 0x10_0000 + minor % 0x10_0000
  }

  /** Both parts can be read back from it: the major number from the high bits, the minor from the low ones. */
  lemma DevParts(major: nat, minor: nat)
    ensures DevOld2New(major, minor) < 0x1_0000_0000
    ensures DevOld2New(major, minor) / 0x10_0000 == major % 0x1000 && DevOld2New(major, minor) % 0x10_0000 == minor % 0x10_0000
  {
  }

  function TargetOf(i: Inode): Target {
    Target(DevOld2New(i.major, i.minor), i.ino)
  }

  /** Two files have the same target exactly when they agree in the inode and the kept device bits. */
  lemma TargetsAgree(i: Inode, j: Inode)
    ensures TargetOf(i) == TargetOf(j) <==>
            i.ino == j.ino && i.major % 0x1000 == j.major % 0x1000 && i.minor % 0x10_0000 == j.minor % 0x10_0000
  {
    var a, b, c, d := i.major % 0x1000, i.minor % 0x10_0000, j.major % 0x1000, j.minor % 0x10_0000;
    if a * 0x10_0000 + b == c * 0x10_0000 + d {
      assert (a - c) * 0x10_0000 == d - b;
    }
  }

  // ---------------------------------------------------------------- directory trees

  /** What `lstat` and `readdir` show below a path; `NotDir` includes symbolic links and failed calls. */
  datatype Node = NotDir | Dir(opens: bool, entries: seq<Entry>)
  datatype Entry = Entry(name: Text, node: Node)

  /** The tree below a directory; one that cannot be opened shows nothing. */
  type Tree = n: Node | n.Dir? witness Dir(false, [])

  predicate Dots(name: Text) {
    name == [DOT] || name == [DOT, DOT]
  }

  function Child(path: Text, name: Text): Text {
    path + [SLASH] + name
  }

  /** Is this an entry that the recursion goes into? */
  predicate Enters(e: Entry) {
    !Dots(e.name) && e.node.Dir?
  }

  /** The paths that are given a rule, in the order in which it happens. */
  function Paths(path: Text, node: Node): seq<Text>
    decreases node, |if node.Dir? then node.entries else []| + 1
  {
    if node.Dir? then [path] + (if node.opens then PathsBelow(path, node, |node.entries|) else []) else []
  }

  function PathsBelow(path: Text, node: Node, n: nat): seq<Text>
    requires node.Dir? && n <= |node.entries|
    decreases node, n
  {
    if n == 0 then []
    else
      var e := node.entries[n - 1];
      PathsBelow(path, node, n - 1) + (if Enters(e) then Paths(Child(path, e.name), e.node) else [])
  }

  // The directories of a tree, told by the names that lead to them.

  ghost predicate IsWalk(node: Node, names: seq<Text>)
    decreases |names|
  {
    && node.Dir?
    && (names != [] ==> node.opens && exists e :: e in node.entries && StepsTo(e, names))
  }

  ghost predicate StepsTo(e: Entry, names: seq<Text>)
    requires names != []
    decreases |names|, 0
  {
    e.name == names[0] && e.name != [DOT] && e.name != [DOT, DOT] && IsWalk(e.node, names[1..])
  }

  function PathOf(path: Text, names: seq<Text>): Text
    decreases |names|
  {
    if names == [] then path else PathOf(path + [SLASH] + names[0], names[1..])
  }

  lemma {:induction false} BelowHas(path: Text, node: Node, i: nat, n: nat, p: Text)
    requires node.Dir? && i < n <= |node.entries| && Enters(node.entries[i])
    requires p in Paths(Child(path, node.entries[i].name), node.entries[i].node)
    ensures p in PathsBelow(path, node, n)
  {
    if i < n - 1 {
      BelowHas(path, node, i, n - 1, p);
    }
  }

  lemma {:induction false} WalkIsVisited(path: Text, node: Node, names: seq<Text>)
    requires IsWalk(node, names)
    ensures PathOf(path, names) in Paths(path, node)
    decreases |names|
  {
    if names != [] {
      var e :| e in node.entries && StepsTo(e, names);
      var i :| 0 <= i < |node.entries| && node.entries[i] == e;
      WalkIsVisited(Child(path, e.name), e.node, names[1..]);
      BelowHas(path, node, i, |node.entries|, PathOf(path, names));
    }
  }

  lemma {:induction false} VisitedIsWalk(path: Text, node: Node, p: Text) returns (names: seq<Text>)
    requires p in Paths(path, node)
    ensures IsWalk(node, names) && p == PathOf(path, names)
    decreases node, |node.entries| + 1
  {
    names := [];
    if p != path {
      names := BelowIsWalk(path, node, |node.entries|, p);
    }
  }

  lemma {:induction false} BelowIsWalk(path: Text, node: Node, n: nat, p: Text) returns (names: seq<Text>)
    requires node.Dir? && node.opens && n <= |node.entries| && p in PathsBelow(path, node, n)
    ensures IsWalk(node, names) && p == PathOf(path, names)
    decreases node, n
  {
    var e := node.entries[n - 1];
    if p in PathsBelow(path, node, n - 1) {
      names := BelowIsWalk(path, node, n - 1, p);
    } else {
      var below := VisitedIsWalk(Child(path, e.name), e.node, p);
      names := [e.name] + below;
      assert names[1..] == below;
      assert StepsTo(e, names);
    }
  }

  /** The recursion reaches exactly the directories of the tree. */
  lemma ExpansionExact(path: Text, node: Node, p: Text)
    ensures p in Paths(path, node) <==> exists names :: IsWalk(node, names) && p == PathOf(path, names)
  {
    if p in Paths(path, node) {
      var names := VisitedIsWalk(path, node, p);
    }
    if names :| IsWalk(node, names) && p == PathOf(path, names) {
      WalkIsVisited(path, node, names);
    }
  }

  /** As in any file system: within a directory names differ, and none has a slash in it. */
  ghost predicate Proper(node: Node) {
    node.Dir? ==>
      && (forall i, j :: 0 <= i < j < |node.entries| ==> node.entries[i].name != node.entries[j].name)
      && (forall e :: e in node.entries ==> SLASH !in e.name && Proper(e.node))
  }

  predicate Under(q: Text, p: Text) {
    p <= q && (|q| == |p| || q[|p|] == SLASH)
  }

  lemma UnderChild(q: Text, path: Text, name: Text)
    requires Under(q, Child(path, name))
    ensures Under(q, path) && q != path
  {
    assert Child(path, name)[|path|] == SLASH;
    assert q[..|path|] == Child(path, name)[..|path|] == path;
  }

  lemma UnderOne(q: Text, path: Text, a: Text, b: Text)
    requires SLASH !in a && SLASH !in b && |a| <= |b|
    requires Under(q, Child(path, a)) && Under(q, Child(path, b))
    ensures a == b
  {
    var ca, cb := Child(path, a), Child(path, b);
    assert a == ca[|path| + 1..] && b == cb[|path| + 1..];
    assert ca == q[..|ca|] && cb == q[..|cb|];
    assert a == b[..|a|];
  }

  lemma UnderBoth(q: Text, path: Text, a: Text, b: Text)
    requires SLASH !in a && SLASH !in b
    requires Under(q, Child(path, a)) && Under(q, Child(path, b))
    ensures a == b
  {
    if |a| <= |b| {
      UnderOne(q, path, a, b);
    } else {
      UnderOne(q, path, b, a);
    }
  }

  lemma {:induction false} PathUnder(path: Text, names: seq<Text>)
    ensures Under(PathOf(path, names), path)
    ensures names != [] ==> PathOf(path, names) != path && Under(PathOf(path, names), Child(path, names[0]))
    decreases |names|
  {
    if names != [] {
      PathUnder(Child(path, names[0]), names[1..]);
      UnderChild(PathOf(path, names), path, names[0]);
    }
  }

  /** Different directories have different paths. */
  lemma {:induction false} PathsApart(path: Text, node: Node, u: seq<Text>, v: seq<Text>)
    requires Proper(node) && IsWalk(node, u) && IsWalk(node, v) && PathOf(path, u) == PathOf(path, v)
    ensures u == v
    decreases |u|
  {
    PathUnder(path, u);
    PathUnder(path, v);
    if u != [] && v != [] {
      var e :| e in node.entries && StepsTo(e, u);
      var f :| f in node.entries && StepsTo(f, v);
      UnderBoth(PathOf(path, u), path, u[0], v[0]);
      SameEntry(node, e, f);
      PathsApart(Child(path, u[0]), e.node, u[1..], v[1..]);
      assert u == [u[0]] + u[1..] && v == [v[0]] + v[1..];
    }
  }

  lemma SameEntry(node: Node, e: Entry, f: Entry)
    requires Proper(node) && node.Dir? && e in node.entries && f in node.entries && e.name == f.name
    ensures e == f
  {
    var i :| 0 <= i < |node.entries| && node.entries[i] == e;
    var j :| 0 <= j < |node.entries| && node.entries[j] == f;
  }

  lemma VisitedUnder(path: Text, node: Node, p: Text)
    requires p in Paths(path, node)
    ensures Under(p, path)
  {
    var names := VisitedIsWalk(path, node, p);
    PathUnder(path, names);
  }

  lemma {:induction false} BelowUnder(path: Text, node: Node, n: nat, p: Text) returns (i: nat)
    requires node.Dir? && n <= |node.entries| && p in PathsBelow(path, node, n)
    ensures i < n && Under(p, Child(path, node.entries[i].name))
  {
    if p in PathsBelow(path, node, n - 1) {
      i := BelowUnder(path, node, n - 1, p);
    } else {
      i := n - 1;
      VisitedUnder(Child(path, node.entries[i].name), node.entries[i].node, p);
    }
  }

  /** No directory is given two rules. */
  lemma {:induction false} ExpansionOnce(path: Text, node: Node)
    requires Proper(node)
    ensures NoDup(Paths(path, node))
    decreases node, |if node.Dir? then node.entries else []| + 1
  {
    if node.Dir? && node.opens {
      var below := PathsBelow(path, node, |node.entries|);
      BelowOnce(path, node, |node.entries|);
      if path in below {
        var i := BelowUnder(path, node, |node.entries|, path);
        UnderChild(path, path, node.entries[i].name);
        assert false;
      }
      ConcatNoDup([path], below);
    }
  }

  lemma {:induction false} BelowOnce(path: Text, node: Node, n: nat)
    requires Proper(node) && node.Dir? && n <= |node.entries|
    ensures NoDup(PathsBelow(path, node, n))
    decreases node, n
  {
    if n > 0 {
      var e := node.entries[n - 1];
      BelowOnce(path, node, n - 1);
      if Enters(e) {
        ExpansionOnce(Child(path, e.name), e.node);
        forall p | p in PathsBelow(path, node, n - 1) ensures p !in Paths(Child(path, e.name), e.node) {
          BelowApart(path, node, n, p);
        }
        ConcatNoDup(PathsBelow(path, node, n - 1), Paths(Child(path, e.name), e.node));
      }
    }
  }

  lemma BelowApart(path: Text, node: Node, n: nat, p: Text)
    requires Proper(node) && node.Dir? && 0 < n <= |node.entries|
    requires p in PathsBelow(path, node, n - 1)
    ensures p !in Paths(Child(path, node.entries[n - 1].name), node.entries[n - 1].node)
  {
    var e := node.entries[n - 1];
    if p in Paths(Child(path, e.name), e.node) {
      var i := BelowUnder(path, node, n - 1, p);
      VisitedUnder(Child(path, e.name), e.node, p);
      assert node.entries[i] in node.entries;
      UnderBoth(p, path, node.entries[i].name, e.name);
      assert false;
    }
  }

  // ---------------------------------------------------------------- rules and the path table

  datatype Rule = Rule(subject: seq<Byte>, act: nat, target: Target)

  /** What `access` and `stat` answer for a path. */
  type Files = Text -> Option<Inode>

  /** The target written by `path2target`; a failure leaves it as it was. */
  function TargetAt(stat: Files, path: Text, before: Target): Target {
    if stat(path).Some? then TargetOf(stat(path).value) else before
  }

  function RuleAt(stat: Files, base: Rule): Text -> Rule {
    (path: Text) => base.(target := TargetAt(stat, path, base.target))
  }

  /** The rules made from one base rule, one for each path. */
  function RulesFor(stat: Files, base: Rule, paths: seq<Text>): (r: seq<Rule>)
    ensures |r| == |paths|
    ensures forall i :: 0 <= i < |r| ==> r[i].subject == base.subject && r[i].act == base.act
    ensures forall i :: 0 <= i < |r| ==>
                          r[i].target == if stat(paths[i]).Some? then TargetOf(stat(paths[i]).value) else base.target
  {
    Map(RuleAt(stat, base), paths)
  }

  lemma RulesConcat(stat: Files, base: Rule, a: seq<Text>, b: seq<Text>)
    ensures RulesFor(stat, base, a + b) == RulesFor(stat, base, a) + RulesFor(stat, base, b)
  {
  }

  /** `target2path_map` after `path2target` was called on the paths in turn. */
  function Record(stat: Files, table: map<Target, Text>, paths: seq<Text>): map<Target, Text> {
    if paths == [] then table
    else
      var before, p := Record(stat, table, paths[..|paths| - 1]), paths[|paths| - 1];
      if stat(p).Some? then before[TargetOf(stat(p).value) := p] else before
  }

  lemma {:induction false} RecordConcat(stat: Files, table: map<Target, Text>, a: seq<Text>, b: seq<Text>)
    ensures Record(stat, table, a + b) == Record(stat, Record(stat, table, a), b)
  {
    if b == [] {
      assert a + b == a;
    } else {
      assert (a + b)[..|a + b| - 1] == a + b[..|b| - 1];
      RecordConcat(stat, table, a, b[..|b| - 1]);
    }
  }

  /** The targets of the paths tell them apart. */
  ghost predicate TellsApart(stat: Files, paths: seq<Text>) {
    forall p, q :: p in paths && q in paths && SameTarget(stat, p, q) ==> p == q
  }

  predicate SameTarget(stat: Files, p: Text, q: Text) {
    stat(p).Some? && stat(q).Some? && TargetOf(stat(p).value) == TargetOf(stat(q).value)
  }

  /** Is `p` the path that its own target leads back to? */
  predicate LeadsBack(stat: Files, table: map<Target, Text>, p: Text) {
    stat(p).Some? ==> TargetOf(stat(p).value) in table && table[TargetOf(stat(p).value)] == p
  }

  /** What is found under a target is one of the paths with that target: the last one. */
  lemma {:induction false} RecordFinds(stat: Files, paths: seq<Text>, t: Target)
    ensures t in Record(stat, map[], paths) <==> exists p :: p in paths && stat(p).Some? && TargetOf(stat(p).value) == t
    ensures t in Record(stat, map[], paths) ==>
              var p := Record(stat, map[], paths)[t]; p in paths && stat(p).Some? && TargetOf(stat(p).value) == t
  {
    if paths != [] {
      var p := paths[|paths| - 1];
      Snoc(paths, |paths| - 1);
      assert p in paths;
      RecordFinds(stat, paths[..|paths| - 1], t);
    }
  }

  lemma {:induction false} RecordLast(stat: Files, paths: seq<Text>, i: nat)
    requires i < |paths| && stat(paths[i]).Some?
    requires forall j :: i < j < |paths| ==> !SameTarget(stat, paths[i], paths[j])
    ensures var t := TargetOf(stat(paths[i]).value);
            t in Record(stat, map[], paths) && Record(stat, map[], paths)[t] == paths[i]
  {
    if i < |paths| - 1 {
      assert !SameTarget(stat, paths[i], paths[|paths| - 1]);
      RecordLast(stat, paths[..|paths| - 1], i);
    }
  }

  /** Every target leads back to its own path exactly when no two of the paths share a target. */
  lemma PathsResolve(stat: Files, paths: seq<Text>)
    ensures TellsApart(stat, paths) <==> forall p :: p in paths ==> LeadsBack(stat, Record(stat, map[], paths), p)
  {
    var table := Record(stat, map[], paths);
    if TellsApart(stat, paths) {
      forall p | p in paths ensures LeadsBack(stat, table, p) {
        if stat(p).Some? {
          RecordFinds(stat, paths, TargetOf(stat(p).value));
          assert SameTarget(stat, table[TargetOf(stat(p).value)], p);
        }
      }
    }
    if forall p :: p in paths ==> LeadsBack(stat, table, p) {
      forall p, q | p in paths && q in paths && SameTarget(stat, p, q) ensures p == q {
        assert LeadsBack(stat, table, p) && LeadsBack(stat, table, q);
      }
    }
  }

  // ---------------------------------------------------------------- policy lines

  /** The four fields of a line; `number` is what `strtol` makes of the identifier, if it is one number. */
  datatype Line = Line(kind: Text, identifier: Text, number: Option<int>, action: Text, target: Text)

  const PROC: Text := [0x70, 0x72, 0x6f, 0x63]
  const PID: Text := [0x70, 0x69, 0x64]

  const FMODE_READ := 1
  const FMODE_WRITE := 2

  function Subject(line: Line): Option<Identity> {
    if line.kind == PROC then
      if line.identifier != [] && line.identifier[0] == SLASH then Some(Process(line.identifier)) else None
    else if line.kind == PID then
      if line.number.Some? && ToI32(line.number.value) >= 0 then Some(Pid(ToI32(line.number.value))) else None
    else None
  }

  function Act(action: Text): Option<nat> {
    if action == [0x72] then Some(FMODE_READ)
    else if action == [0x77] then Some(FMODE_WRITE)
    else if action == [0x72, 0x77] then Some(FMODE_READ + FMODE_WRITE)
    else None
  }

  /** A target without its marker, and whether it had one: a directory is written with a final slash, with or without a star. */
  function Strip(target: Text): (Text, bool) {
    var n := |target|;
    if n >= 2 && target[n - 2..] == [SLASH, STAR] then (target[..n - 2], true)
    else if n > 1 && target[n - 1] == SLASH then (target[..n - 1], true)
    else (target, false)
  }

  /** The rule that a line gives before its target is looked at. */
  function Base(line: Line): Option<Rule> {
    if Subject(line).Some? && Act(line.action).Some? && line.target != [] && line.target[0] == SLASH then
      Some(Rule(Pack(Subject(line).value), Act(line.action).value, Target(0, 0)))
    else None
  }

  /** The paths a line gives rules for; `tree` is the directory tree below a path. */
  function LinePaths(stat: Files, tree: Text -> Tree, line: Line): seq<Text> {
    var (path, isDir) := Strip(line.target);
    if Base(line).None? || stat(path).None? then []
    else if isDir then
      if stat(path).value.kind == Directory then Paths(path, tree(path)) else []
    else if stat(path).value.kind == Regular then [path]
    else []
  }

  function LineRules(stat: Files, tree: Text -> Tree, line: Line): seq<Rule> {
    if Base(line).None? then [] else RulesFor(stat, Base(line).value, LinePaths(stat, tree, line))
  }

  function AllPaths(stat: Files, tree: Text -> Tree, lines: seq<Line>): seq<Text> {
    if lines == [] then []
    else AllPaths(stat, tree, lines[..|lines| - 1]) + LinePaths(stat, tree, lines[|lines| - 1])
  }

  function AllRules(stat: Files, tree: Text -> Tree, lines: seq<Line>): seq<Rule> {
    if lines == [] then []
    else AllRules(stat, tree, lines[..|lines| - 1]) + LineRules(stat, tree, lines[|lines| - 1])
  }

  lemma AllMore(stat: Files, tree: Text -> Tree, lines: seq<Line>, i: nat)
    requires i < |lines|
    ensures AllPaths(stat, tree, lines[..i + 1]) == AllPaths(stat, tree, lines[..i]) + LinePaths(stat, tree, lines[i])
    ensures AllRules(stat, tree, lines[..i + 1]) == AllRules(stat, tree, lines[..i]) + LineRules(stat, tree, lines[i])
  {
    assert lines[..i + 1][..i] == lines[..i];
  }

  lemma {:induction false} LineAmongAll(stat: Files, tree: Text -> Tree, lines: seq<Line>, line: Line)
    requires line in lines
    ensures forall p :: p in LinePaths(stat, tree, line) ==> p in AllPaths(stat, tree, lines)
    ensures forall r :: r in LineRules(stat, tree, line) ==> r in AllRules(stat, tree, lines)
  {
    if line != lines[|lines| - 1] {
      Snoc(lines, |lines| - 1);
      LineAmongAll(stat, tree, lines[..|lines| - 1], line);
    }
  }

  // What makes a good line, and what it is good for.

  /** A process named by an absolute path, or by a number that is not negative as a 32-bit `pid_t`. */
  ghost predicate SubjectIs(line: Line, id: Identity) {
    match id
    case Process(path) => line.kind == PROC && path == line.identifier && path != [] && path[0] == SLASH
    case Pid(pid) => line.kind == PID && line.number.Some? && 0 <= pid < 0x8000_0000 && (line.number.value - pid) % 0x1_0000_0000 == 0
  }

  lemma SubjectExact(line: Line, id: Identity)
    ensures Subject(line) == Some(id) <==> SubjectIs(line, id)
  {
    if line.kind == PID && line.number.Some? {
      var n := line.number.value;
      var u := n % 0x1_0000_0000;
      assert n == n / 0x1_0000_0000 * 0x1_0000_0000 + u;
      if id.Pid? && 0 <= id.pid < 0x8000_0000 && (n - id.pid) % 0x1_0000_0000 == 0 {
        var q := (n - id.pid) / 0x1_0000_0000;
        assert n == q * 0x1_0000_0000 + id.pid;
      }
    }
  }

  /** An action is `r`, `w` or `rw`, and forbids what its letters say. */
  lemma ActExact(action: Text)
    ensures Act(action).Some? <==> action == [0x72] || action == [0x77] || action == [0x72, 0x77]
    ensures Act(action).Some? ==>
              && (Act(action).value % 2 == 1 <==> 0x72 in action) && (Act(action).value / 2 % 2 == 1 <==> 0x77 in action)
              && Act(action).value < 4
  {
  }

  /** `target` names the directory `dir`, with a final slash or with a slash and a star. */
  predicate Marks(target: Text, dir: Text) {
    target == dir + [SLASH, STAR] || (dir != [] && target == dir + [SLASH])
  }

  lemma StripExact(target: Text, dir: Text)
    ensures Strip(target) == (dir, true) <==> Marks(target, dir)
  {
    var n := |target|;
    if n >= 2 && target[n - 2..] == [SLASH, STAR] {
      assert target == target[..n - 2] + [SLASH, STAR];
      assert target[n - 1] == target[n - 2..][1] == STAR;
      assert (dir + [SLASH])[|dir|] == SLASH;
    } else if n > 1 && target[n - 1] == SLASH {
      assert target == target[..n - 1] + [SLASH];
      assert (dir + [SLASH, STAR])[|dir| + 1] == STAR;
    }
    MarkEnds(dir);
  }

  lemma MarkEnds(dir: Text)
    ensures (dir + [SLASH, STAR])[|dir|..] == [SLASH, STAR] && (dir + [SLASH])[|dir|] == SLASH
  {
  }

  lemma StripPlain(target: Text)
    requires forall dir :: !Marks(target, dir)
    ensures Strip(target) == (target, false)
  {
    StripExact(target, Strip(target).0);
  }

  ghost predicate IsKind(stat: Files, path: Text, kind: Kind) {
    stat(path).Some? && stat(path).value.kind == kind
  }

  /** A good line covers every directory of the tree it names, or the regular file it names. */
  ghost predicate Covers(stat: Files, tree: Text -> Tree, line: Line, p: Text) {
    || (exists dir, names :: CoversDir(stat, tree, line, dir, names) && p == PathOf(dir, names))
    || ((forall dir :: !Marks(line.target, dir)) && IsKind(stat, line.target, Regular) && p == line.target)
  }

  ghost predicate CoversDir(stat: Files, tree: Text -> Tree, line: Line, dir: Text, names: seq<Text>) {
    Marks(line.target, dir) && IsKind(stat, dir, Directory) && IsWalk(tree(dir), names)
  }

  lemma LinePathsExact(stat: Files, tree: Text -> Tree, line: Line, p: Text)
    ensures p in LinePaths(stat, tree, line) <==> Base(line).Some? && Covers(stat, tree, line, p)
  {
    var (path, isDir) := Strip(line.target);
    if isDir {
      DirPathsExact(stat, tree, line, path, p);
    } else {
      forall dir ensures !Marks(line.target, dir) {
        StripExact(line.target, dir);
      }
      StripPlain(line.target);
    }
  }

  lemma DirPathsExact(stat: Files, tree: Text -> Tree, line: Line, path: Text, p: Text)
    requires Strip(line.target) == (path, true)
    ensures p in LinePaths(stat, tree, line) <==> Base(line).Some? && Covers(stat, tree, line, p)
  {
    StripExact(line.target, path);
    forall dir | Marks(line.target, dir) ensures dir == path {
      StripExact(line.target, dir);
    }
    if IsKind(stat, path, Directory) && p in Paths(path, tree(path)) {
      var names := VisitedIsWalk(path, tree(path), p);
      assert CoversDir(stat, tree, line, path, names);
    }
    if dir, names :| CoversDir(stat, tree, line, dir, names) && p == PathOf(dir, names) {
      WalkIsVisited(path, tree(path), names);
    }
  }

  /** A good line for a regular file gives exactly one rule, for that file, and the file's target leads back to it. */
  lemma FileProtected(stat: Files, tree: Text -> Tree, lines: seq<Line>, line: Line)
    requires line in lines && Base(line).Some? && IsKind(stat, line.target, Regular)
    requires forall dir :: !Marks(line.target, dir)
    ensures LineRules(stat, tree, line) == [Base(line).value.(target := TargetOf(stat(line.target).value))]
    ensures Base(line).value.(target := TargetOf(stat(line.target).value)) in AllRules(stat, tree, lines)
    ensures TellsApart(stat, AllPaths(stat, tree, lines)) ==>
              LeadsBack(stat, Record(stat, map[], AllPaths(stat, tree, lines)), line.target)
  {
    StripPlain(line.target);
    assert LinePaths(stat, tree, line) == [line.target];
    assert LineRules(stat, tree, line)[0] == Base(line).value.(target := TargetOf(stat(line.target).value));
    LineAmongAll(stat, tree, lines, line);
    PathsResolve(stat, AllPaths(stat, tree, lines));
    assert line.target in AllPaths(stat, tree, lines);
  }

  lemma {:induction false} RuleFromLine(stat: Files, tree: Text -> Tree, lines: seq<Line>, r: Rule)
    requires r in AllRules(stat, tree, lines)
    ensures exists line :: line in lines && r in LineRules(stat, tree, line)
  {
    var last := lines[|lines| - 1];
    if r !in LineRules(stat, tree, last) {
      RuleFromLine(stat, tree, lines[..|lines| - 1], r);
      var line :| line in lines[..|lines| - 1] && r in LineRules(stat, tree, line);
      assert line in lines;
    } else {
      assert last in lines;
    }
  }

  /** Is `r` the rule that `line` gives for `p`? */
  ghost predicate GivesRule(stat: Files, tree: Text -> Tree, line: Line, p: Text, r: Rule) {
    && Base(line).Some? && Covers(stat, tree, line, p)
    && r.subject == Base(line).value.subject && r.act == Base(line).value.act
    && r.target == if stat(p).Some? then TargetOf(stat(p).value) else Target(0, 0)
  }

  lemma RuleGiven(stat: Files, tree: Text -> Tree, line: Line, r: Rule)
    ensures r in LineRules(stat, tree, line) <==> exists p :: GivesRule(stat, tree, line, p, r)
  {
    var rules, paths := LineRules(stat, tree, line), LinePaths(stat, tree, line);
    if r in rules {
      var i :| 0 <= i < |rules| && rules[i] == r;
      LinePathsExact(stat, tree, line, paths[i]);
      assert GivesRule(stat, tree, line, paths[i], r);
    }
    if p :| GivesRule(stat, tree, line, p, r) {
      LinePathsExact(stat, tree, line, p);
      var i :| 0 <= i < |paths| && paths[i] == p;
      assert rules[i] == r;
    }
  }

  /** The rules of a policy are exactly those that its good lines give for what they cover. */
  lemma RulesExact(stat: Files, tree: Text -> Tree, lines: seq<Line>, r: Rule)
    ensures r in AllRules(stat, tree, lines) <==> exists line, p :: line in lines && GivesRule(stat, tree, line, p, r)
  {
    if r in AllRules(stat, tree, lines) {
      RuleFromLine(stat, tree, lines, r);
      var line :| line in lines && r in LineRules(stat, tree, line);
      RuleGiven(stat, tree, line, r);
    }
    if line, p :| line in lines && GivesRule(stat, tree, line, p, r) {
      RuleGiven(stat, tree, line, r);
      LineAmongAll(stat, tree, lines, line);
    }
  }

  /** A line is good exactly when its three parts are. */
  lemma BaseExact(line: Line)
    ensures Base(line).Some? <==>
            && (exists id :: SubjectIs(line, id)) && (line.action == [0x72] || line.action == [0x77] || line.action == [0x72, 0x77])
            && line.target != [] && line.target[0] == SLASH
    ensures Base(line).Some? ==>
              && (exists id :: SubjectIs(line, id) && Base(line).value.subject == Pack(id))
              && Some(Base(line).value.act) == Act(line.action) && Base(line).value.target == Target(0, 0)
  {
    if Subject(line).Some? {
      SubjectExact(line, Subject(line).value);
    }
    if id :| SubjectIs(line, id) {
      SubjectExact(line, id);
    }
  }

  /** The subject of a line survives being stored, for every identifier that fits its field. */
  lemma SubjectRoundTrip(line: Line)
    requires Base(line).Some? && 0 !in line.identifier && |line.identifier| <= 4095
    ensures Unpack(Base(line).value.subject) == Subject(line).value
  {
    match Subject(line).value
    case Process(path) => PathRoundTrip(path);
    case Pid(pid) => PidRoundTrip(pid);
  }

  // The root directory: every way to write it is a run of slashes, with or without a final star.

  function Slashes(k: nat): (r: Text)
    ensures |r| == k && forall i :: 0 <= i < k ==> r[i] == SLASH
  {
    seq(k, _ => SLASH)
  }

  function RootTarget(k: nat, star: bool): Text {
    Slashes(k) + if star then [STAR] else []
  }

  /** The empty path does not exist, and every other run of slashes is the root directory. */
  ghost predicate RootExists(stat: Files) {
    stat([]).None? && forall k: nat :: k > 0 ==> stat(Slashes(k)).Some? && stat(Slashes(k)).value.kind == Directory
  }

  lemma StripRoot(k: nat, star: bool)
    requires k > 0
    ensures Strip(RootTarget(k, star)) == if k == 1 && !star then ([SLASH], false) else (Slashes(k - 1), true)
  {
    var t := RootTarget(k, star);
    if star {
      assert t[|t| - 2..] == [SLASH, STAR];
      assert t[..|t| - 2] == Slashes(k - 1);
    } else {
      assert t == Slashes(k);
      assert k == 1 ==> t == [SLASH];
      assert k > 1 ==> t[k - 2..][1] == SLASH != STAR && t[..k - 1] == Slashes(k - 1);
    }
  }

  /**
   A good line for the root gives rules exactly when it is written with two slashes or more: one
   slash is lost to the directory marker, and what is left must still be a path. Then every
   directory of the file system that the recursion can reach is covered.
   */
  lemma RootCovered(stat: Files, tree: Text -> Tree, line: Line, k: nat, star: bool)
    requires k > 0 && line.target == RootTarget(k, star) && Base(line).Some? && RootExists(stat)
    ensures LinePaths(stat, tree, line) != [] <==> k >= 2
    ensures k >= 2 ==> LinePaths(stat, tree, line) == Paths(Slashes(k - 1), tree(Slashes(k - 1)))
    ensures k >= 2 ==> Slashes(k - 1) in LinePaths(stat, tree, line)
  {
    StripRoot(k, star);
    assert Slashes(0) == [] && Slashes(1) == [SLASH];
    if k >= 2 {
      assert stat(Slashes(k - 1)).Some?;
      assert Paths(Slashes(k - 1), tree(Slashes(k - 1)))[0] == Slashes(k - 1);
    }
  }

  /** The two usual spellings are the two that fail. */
  lemma PlainRootFails(stat: Files, tree: Text -> Tree, line: Line)
    requires line.target == [SLASH] || line.target == [SLASH, STAR]
    requires RootExists(stat)
    ensures LinePaths(stat, tree, line) == []
  {
    if Base(line).Some? {
      var star := line.target == [SLASH, STAR];
      assert RootTarget(1, star) == line.target;
      RootCovered(stat, tree, line, 1, star);
    }
  }

  class RuleSet {
    const stat: Files
    const tree: Text -> Tree
    var rules: seq<Rule>
    var target2path: map<Target, Text>

    constructor (stat: Files, tree: Text -> Tree)
      ensures this.stat == stat && this.tree == tree && rules == [] && target2path == map[]
    {
      this.stat, this.tree, rules, target2path := stat, tree, [], map[];
    }

    method Path2Target(path: Text, before: Target) returns (t: Target)
      modifies this`target2path
      ensures t == TargetAt(stat, path, before)
      ensures target2path == Record(stat, old(target2path), [path])
    {
      t := before;
      assert [path][..0] == [];
      if stat(path).Some? {
        t := TargetOf(stat(path).value);
        target2path := target2path[t := path];
      }
    }

    method AddRule(path: Text, base: Rule)
      modifies this
      ensures rules == old(rules) + RulesFor(stat, base, [path])
      ensures target2path == Record(stat, old(target2path), [path])
    {
      var t := Path2Target(path, base.target);
      rules := rules + [base.(target := t)];
    }

    /** Rules and table are those of before, with `done` taken care of. */
    ghost predicate Done(base: Rule, rules0: seq<Rule>, table0: map<Target, Text>, done: seq<Text>)
      reads this
    {
      rules == rules0 + RulesFor(stat, base, done) && target2path == Record(stat, table0, done)
    }

    /** `add_directories_recursively`. */
    method AddDirectories(path: Text, node: Tree, base: Rule)
      modifies this
      ensures Done(base, old(rules), old(target2path), Paths(path, node))
      decreases node, 1
    {
      AddRule(path, base);
      if !node.opens {
        assert Paths(path, node) == [path];
        return;
      }
      ghost var rules0, table0 := old(rules), old(target2path);
      assert [path] + PathsBelow(path, node, 0) == [path];
      for i := 0 to |node.entries|
        invariant Done(base, rules0, table0, [path] + PathsBelow(path, node, i))
      {
        AddEntry(path, node, i, base, rules0, table0);
      }
    }

    /** The body of the readdir loop. */
    method AddEntry(path: Text, node: Tree, i: nat, base: Rule, ghost rules0: seq<Rule>, ghost table0: map<Target, Text>)
      requires i < |node.entries| && Done(base, rules0, table0, [path] + PathsBelow(path, node, i))
      modifies this
      ensures Done(base, rules0, table0, [path] + PathsBelow(path, node, i + 1))
      decreases node, 0
    {
      var e := node.entries[i];
      if Dots(e.name) || !e.node.Dir? {
        assert PathsBelow(path, node, i + 1) == PathsBelow(path, node, i);
        return;
      }
      ghost var more := Paths(Child(path, e.name), e.node);
      AddDirectories(Child(path, e.name), e.node, base);
      Extend(base, rules0, table0, [path] + PathsBelow(path, node, i), more);
      Assoc([path], PathsBelow(path, node, i), more);
    }

    lemma Extend(base: Rule, rules0: seq<Rule>, table0: map<Target, Text>, done: seq<Text>, more: seq<Text>)
      ensures rules0 + RulesFor(stat, base, done) + RulesFor(stat, base, more) == rules0 + RulesFor(stat, base, done + more)
      ensures Record(stat, Record(stat, table0, done), more) == Record(stat, table0, done + more)
    {
      RulesConcat(stat, base, done, more);
      Assoc(rules0, RulesFor(stat, base, done), RulesFor(stat, base, more));
      RecordConcat(stat, table0, done, more);
    }

    method AddLine(line: Line)
      modifies this
      ensures rules == old(rules) + LineRules(stat, tree, line)
      ensures target2path == Record(stat, old(target2path), LinePaths(stat, tree, line))
    {
      var base := Base(line);
      if base.None? {
        return;
      }
      var (path, isDir) := Strip(line.target);
      if stat(path).None? {
        return;
      }
      if isDir {
        if stat(path).value.kind == Directory {
          AddDirectories(path, tree(path), base.value);
        }
      } else if stat(path).value.kind == Regular {
        AddRule(path, base.value);
      }
    }

    /** `parse_policy_file`, after the lines were split into fields: bad lines are passed over. */
    method Parse(lines: seq<Line>)
      modifies this
      ensures rules == old(rules) + AllRules(stat, tree, lines)
      ensures target2path == Record(stat, old(target2path), AllPaths(stat, tree, lines))
    {
      for i := 0 to |lines|
        invariant rules == old(rules) + AllRules(stat, tree, lines[..i])
        invariant target2path == Record(stat, old(target2path), AllPaths(stat, tree, lines[..i]))
      {
        AllMore(stat, tree, lines, i);
        RecordConcat(stat, old(target2path), AllPaths(stat, tree, lines[..i]), LinePaths(stat, tree, lines[i]));
        Assoc(old(rules), AllRules(stat, tree, lines[..i]), LineRules(stat, tree, lines[i]));
        AddLine(lines[i]);
      }
      assert lines[..|lines|] == lines;
    }

    /** `handle_event`: the look-up leaves an empty path behind for an unknown target, which changes no answer. */
    method HandleEvent(target: Target, payload: seq<Byte>) returns (path: Option<Text>)
      modifies this`target2path
      ensures path == EventPath(old(target2path), target, payload)
      ensures forall t, s :: EventPath(target2path, t, s) == EventPath(old(target2path), t, s)
    {
      path := EventPath(target2path, target, payload);
      if target !in target2path {
        target2path := target2path[target := []];
      }
    }
  }

  // ---------------------------------------------------------------- events and the filter map

  /**
   The path of a denied access. The payload of an event is the path of the process and the name
   of the file, each ended by a NUL; without the two NULs the code would read past its end.
   */
  function EventPath(table: map<Target, Text>, target: Target, payload: seq<Byte>): Option<Text> {
    var n := Strnlen(payload);
    if n == |payload| then None
    else
      var rest := payload[n + 1..];
      var m := Strnlen(rest);
      if m == |rest| then None
      else
        var dir := if target in table then table[target] else [];
        Some(if m > 0 then Child(dir, rest[..m]) else dir)
  }

  lemma EventFields(table: map<Target, Text>, target: Target, process: Text, name: Text, rest: seq<Byte>)
    requires 0 !in process && 0 !in name
    ensures EventPath(table, target, process + ([0] + (name + ([0] + rest)))) ==
            var dir := if target in table then table[target] else [];
            Some(if name != [] then Child(dir, name) else dir)
  {
    var tail := name + ([0] + rest);
    StrnlenAt(process, tail);
    StrnlenAt(name, rest);
    assert (process + ([0] + tail))[|process| + 1..] == tail;
    assert tail[..|name|] == name;
  }

  /**
   A directory line protects every directory of its tree, and an event below any of them is
   reported with the path of the file itself, when the targets of the policy are distinct.
   */
  lemma DirectoryProtected(stat: Files, tree: Text -> Tree, lines: seq<Line>, line: Line, names: seq<Text>)
    requires line in lines && Base(line).Some? && Strip(line.target).1
    requires var path := Strip(line.target).0; stat(path).Some? && stat(path).value.kind == Directory && IsWalk(tree(path), names)
    requires stat(PathOf(Strip(line.target).0, names)).Some?
    ensures var p := PathOf(Strip(line.target).0, names);
            Base(line).value.(target := TargetOf(stat(p).value)) in AllRules(stat, tree, lines)
    ensures TellsApart(stat, AllPaths(stat, tree, lines)) ==>
              var p := PathOf(Strip(line.target).0, names);
              LeadsBack(stat, Record(stat, map[], AllPaths(stat, tree, lines)), p)
  {
    var path := Strip(line.target).0;
    var p := PathOf(path, names);
    WalkIsVisited(path, tree(path), names);
    var paths := LinePaths(stat, tree, line);
    var i :| 0 <= i < |paths| && paths[i] == p;
    assert LineRules(stat, tree, line)[i] == Base(line).value.(target := TargetOf(stat(p).value));
    LineAmongAll(stat, tree, lines, line);
    PathsResolve(stat, AllPaths(stat, tree, lines));
  }

  lemma EventNamesFile(stat: Files, paths: seq<Text>, p: Text, process: Text, name: Text, rest: seq<Byte>)
    requires p in paths && stat(p).Some? && TellsApart(stat, paths)
    requires 0 !in process && 0 !in name
    ensures EventPath(Record(stat, map[], paths), TargetOf(stat(p).value), process + ([0] + (name + ([0] + rest)))) ==
            Some(if name != [] then p + [SLASH] + name else p)
  {
    PathsResolve(stat, paths);
    assert LeadsBack(stat, Record(stat, map[], paths), p);
    EventFields(Record(stat, map[], paths), TargetOf(stat(p).value), process, name, rest);
  }

  /** The first `n` rules are stored under 1 to `n`, and nothing else has changed. */
  ghost predicate Loaded(vals: map<nat, Rule>, before: map<nat, Rule>, rules: seq<Rule>, n: nat) {
    && n <= |rules|
    && (forall k: nat :: 1 <= k <= n ==> k in vals && vals[k] == rules[k - 1])
    && (forall k: nat :: k == 0 || k > n ==> (k in vals <==> k in before) && (k in vals ==> vals[k] == before[k]))
  }

  class Filter {
    var vals: map<nat, Rule>

    /** `load_rules`: updates until the first that fails. */
    method Load(rules: seq<Rule>, fails: nat -> bool) returns (ok: bool, ghost n: nat)
      modifies this
      ensures n <= |rules| && (forall i: nat :: i < n ==> !fails(i))
      ensures ok <==> n == |rules|
      ensures !ok ==> fails(n)
      ensures |rules| < 0x1_0000_0000 ==> Loaded(vals, old(vals), rules, n)
    {
      n := 0;
      var key: nat := 0;
      for i := 0 to |rules|
        invariant n == i && (forall j: nat :: j < i ==> !fails(j))
        invariant |rules| < 0x1_0000_0000 ==> key == i && Loaded(vals, old(vals), rules, i)
      {
        key := (key + 1) % 0x1_0000_0000;
        if fails(i) {
          return false, n;
        }
        vals := vals[key := rules[i]];
        n := n + 1;
      }
      ok := true;
    }
  }
}
