/**
 The namespace forest of `lsns`: which representative processes hang below which, the
 order of siblings, the tree drawing in front of each command, and the subtrees below
 orphan roots. Parents are read from /proc one process at a time while processes come and
 go, so the parent relation is arbitrary: it may contain cycles.
 */
module NsForest {
  import opened Seqs

  /** A process id as the source stores it, in a 32-bit `int`. */
  type Pid = x: int | -0x8000_0000 <= x < 0x8000_0000

  /**
   `inum` gives the namespace number of every representative (its keys are the
   representatives), `parent` the parent of those whose parent is a representative too,
   and `children` the inverse of `parent`, each list in sibling order.
   */
  datatype Links = Links(inum: map<Pid, nat>, parent: map<Pid, Pid>, children: map<Pid, seq<Pid>>) {
    function Kids(p: Pid): seq<Pid> {
      if p in children then children[p] else []
    }

    predicate Root(x: Pid) {
      x in inum && x !in parent
    }

    /** Where a node hangs. */
    function Place(x: Pid): Place {
      if x in parent then ChildOf(parent[x]) else if x in inum then AtTop else Nowhere
    }
  }

  datatype Place = ChildOf(parent: Pid) | AtTop | Nowhere

  /** The comparator of children and roots: by namespace number, then by tgid. */
  function InumOf(inum: map<Pid, nat>, x: Pid): nat {
    if x in inum then inum[x] else 0
  }

  predicate Before(inum: map<Pid, nat>, a: Pid, b: Pid) {
    if InumOf(inum, a) != InumOf(inum, b) then InumOf(inum, a) < InumOf(inum, b) else a < b
  }

  function NotAfter(inum: map<Pid, nat>): (Pid, Pid) -> bool {
    (a: Pid, b: Pid) => a == b || Before(inum, a, b)
  }

  lemma SiblingOrderIsTotal(inum: map<Pid, nat>)
    ensures TotalPreorder(NotAfter(inum)) && Antisymmetric(NotAfter(inum))
    ensures forall a, b :: Before(inum, a, b) <==> NotAfter(inum)(a, b) && a != b
    ensures forall a, b :: a == b || Before(inum, a, b) || Before(inum, b, a)
    ensures forall a, b :: !(Before(inum, a, b) && Before(inum, b, a))
  {
    var leq := NotAfter(inum);
    forall x, y, z | leq(x, y) && leq(y, z) ensures leq(x, z) {
    }
    forall x, y ensures leq(x, y) || leq(y, x) {
    }
    forall x, y | leq(x, y) && leq(y, x) ensures x == y {
    }
  }

  /** `children` is the inverse of `parent`, and parents are representatives. */
  ghost predicate Inverse(f: Links) {
    && (forall x {:trigger f.parent[x]} :: x in f.parent ==> x in f.inum && f.parent[x] in f.inum && x in f.Kids(f.parent[x]))
    && (forall p, c {:trigger c in f.Kids(p)} :: c in f.Kids(p) ==> c in f.parent && f.parent[c] == p)
  }

  type Forest = f: Links | Inverse(f) ghost witness Links(map[], map[], map[])

  /** Every child list is in sibling order, without repetition, and present only if non-empty. */
  ghost predicate Ordered(f: Links) {
    forall p :: p in f.children ==>
                  f.children[p] != [] && NoDup(f.children[p]) && Sorted(f.children[p], NotAfter(f.inum))
  }

  /** In such lists a smaller namespace number comes first, and of two processes with one number the smaller tgid. */
  lemma SiblingsInOrder(f: Forest, p: Pid, i: nat, j: nat)
    requires Ordered(f) && i < j < |f.Kids(p)|
    ensures var a, b := f.Kids(p)[i], f.Kids(p)[j];
            a in f.inum && b in f.inum && (f.inum[a] < f.inum[b] || (f.inum[a] == f.inum[b] && a < b))
  {
    var a, b := f.Kids(p)[i], f.Kids(p)[j];
    assert a in f.Kids(p) && b in f.Kids(p);
    assert NotAfter(f.inum)(a, b);
  }

  type OrderedForest = f: Forest | Ordered(f) ghost witness Links(map[], map[], map[])

  // ---------------------------------------------------------------- paths from a root

  /** A walk down the forest: a root, or a child placed under a walk that ends at its parent. */
  datatype Path = Top(node: Pid) | Below(up: Path, node: Pid) {
    function Depth(): nat {
      match this
      case Top(_) => 0
      case Below(u, _) => u.Depth() + 1
    }

    ghost function Nodes(): set<Pid> {
      match this
      case Top(n) => {n}
      case Below(u, n) => u.Nodes() + {n}
    }

    /** The part of the walk that is `k` edges long. */
    function Ancestor(k: nat): Path
      requires k <= Depth()
    {
      if k == Depth() then this else up.Ancestor(k)
    }

    predicate Extends(p: Path) {
      this == p || (Below? && up.Extends(p))
    }
  }

  ghost predicate IsPath(f: Forest, q: Path) {
    && f.Place(q.node) == (if q.Below? then ChildOf(q.up.node) else AtTop)
    && (q.Below? ==> IsPath(f, q.up))
  }

  /** A node hangs below a root along at most one walk, whatever the parent relation is. */
  lemma {:induction false} PathUnique(f: Forest, a: Path, b: Path)
    requires IsPath(f, a) && IsPath(f, b) && a.node == b.node
    ensures a == b
  {
    if a.Below? && b.Below? {
      PathUnique(f, a.up, b.up);
    }
  }

  lemma {:induction false} NodeOnPath(f: Forest, q: Path, x: Pid) returns (a: Path)
    requires IsPath(f, q) && x in q.Nodes()
    ensures IsPath(f, a) && a.node == x && a.Depth() <= q.Depth()
  {
    if q.node == x {
      a := q;
    } else {
      a := NodeOnPath(f, q.up, x);
    }
  }

  /** A walk never meets a node twice, so no walk is longer than the number of representatives. */
  lemma {:induction false} PathBounded(f: Forest, q: Path)
    requires IsPath(f, q)
    ensures q.Nodes() <= f.inum.Keys
    ensures |q.Nodes()| == q.Depth() + 1
    ensures q.Depth() < |f.inum|
  {
    match q
    case Top(r) =>
      assert {r} <= f.inum.Keys;
      SubsetSize({r}, f.inum.Keys);
    case Below(u, x) =>
      PathBounded(f, u);
      if x in u.Nodes() {
        var a := NodeOnPath(f, u, x);
        PathUnique(f, a, q);
        assert false;
      }
      SubsetSize(q.Nodes(), f.inum.Keys);
  }

  // ---------------------------------------------------------------- drawing

  datatype Line = Line(node: Pid, text: string)

  function Branch(last: bool): string {
    [if last then '└' else '├', '─']
  }

  function Gap(last: bool): string {
    [if last then ' ' else '│', ' ', ' ']
  }

  ghost function Child(f: Forest, p: Path, i: nat): (q: Path)
    requires IsPath(f, p) && i < |f.Kids(p.node)|
    ensures q == Below(p, f.Kids(p.node)[i]) && IsPath(f, q) && q.Depth() < |f.inum|
  {
    var q := Below(p, f.Kids(p.node)[i]);
    assert q.node in f.Kids(p.node);
    PathBounded(f, q);
    q
  }

  /** What drawing the children of `p.node` from the `i`-th on writes, in order. */
  ghost function Draw(f: Forest, p: Path, prefix: string, i: nat): seq<Line>
    requires IsPath(f, p) && i <= |f.Kids(p.node)|
    decreases |f.inum| - p.Depth(), |f.Kids(p.node)| - i
  {
    var ch := f.Kids(p.node);
    if i == |ch| then []
    else
      var q := Child(f, p, i);
      var last := i + 1 == |ch|;
      [Line(ch[i], prefix + Branch(last))] + Draw(f, q, prefix + Gap(last), 0) + Draw(f, p, prefix, i + 1)
  }

  /** The same lines written one by one to the end of `log`. */
  ghost function DrawOnto(f: Forest, p: Path, prefix: string, i: nat, log: seq<Line>): seq<Line>
    requires IsPath(f, p) && i <= |f.Kids(p.node)|
    decreases |f.inum| - p.Depth(), |f.Kids(p.node)| - i
  {
    var ch := f.Kids(p.node);
    if i == |ch| then log
    else
      var last := i + 1 == |ch|;
      var q := Child(f, p, i);
      DrawOnto(f, p, prefix, i + 1,
               DrawOnto(f, q, prefix + Gap(last), 0, log + [Line(ch[i], prefix + Branch(last))]))
  }

  lemma {:induction false} DrawOntoAppends(f: Forest, p: Path, prefix: string, i: nat, log: seq<Line>)
    requires IsPath(f, p) && i <= |f.Kids(p.node)|
    ensures DrawOnto(f, p, prefix, i, log) == log + Draw(f, p, prefix, i)
    decreases |f.inum| - p.Depth(), |f.Kids(p.node)| - i
  {
    var ch := f.Kids(p.node);
    if i < |ch| {
      var last := i + 1 == |ch|;
      var q := Child(f, p, i);
      var here := [Line(ch[i], prefix + Branch(last))];
      var below := Draw(f, q, prefix + Gap(last), 0);
      DrawOntoAppends(f, q, prefix + Gap(last), 0, log + here);
      DrawOntoAppends(f, p, prefix, i + 1, log + here + below);
      Regroup(log, here, below, Draw(f, p, prefix, i + 1));
    }
  }

  /** The walks whose ends `Draw` visits, in the same order. */
  ghost function Visits(f: Forest, p: Path, i: nat): seq<Path>
    requires IsPath(f, p) && i <= |f.Kids(p.node)|
    decreases |f.inum| - p.Depth(), |f.Kids(p.node)| - i
  {
    var ch := f.Kids(p.node);
    if i == |ch| then []
    else
      var q := Child(f, p, i);
      [q] + Visits(f, q, 0) + Visits(f, p, i + 1)
  }

  /** `x` is the last of its siblings: no sibling comes after it in the sibling order. */
  ghost predicate IsLast(f: Forest, x: Pid)
    requires x in f.parent
  {
    forall y :: y in f.parent && f.parent[y] == f.parent[x] ==> y == x || Before(f.inum, y, x)
  }

  /** For every step of the walk `q` after `p`: is the node stepped to the last of its siblings? */
  ghost function Lasts(f: Forest, p: Path, q: Path): (bits: seq<bool>)
    requires IsPath(f, q) && q.Extends(p)
    ensures |bits| == 0 <==> p == q
  {
    if q == p then [] else Lasts(f, p, q.up) + [IsLast(f, q.node)]
  }

  /** The text in front of everything below a node, and the text in front of the node itself. */
  function Stem(bits: seq<bool>): string {
    if bits == [] then "" else Stem(bits[..|bits| - 1]) + Gap(bits[|bits| - 1])
  }

  function Text(bits: seq<bool>): string
    requires bits != []
  {
    Stem(bits[..|bits| - 1]) + Branch(bits[|bits| - 1])
  }

  lemma {:induction false} StemFromFront(b: bool, bits: seq<bool>)
    ensures Stem([b] + bits) == Gap(b) + Stem(bits)
  {
    if bits == [] {
      assert [b] + bits == [b];
      assert Stem([b]) == Stem([]) + Gap(b);
    } else {
      var init, z := bits[..|bits| - 1], bits[|bits| - 1];
      assert ([b] + bits)[..|bits|] == [b] + init;
      StemFromFront(b, init);
      Assoc(Gap(b), Stem(init), Gap(z));
    }
  }

  lemma TextFromFront(b: bool, bits: seq<bool>)
    requires bits != []
    ensures Text([b] + bits) == Gap(b) + Text(bits)
  {
    var init, z := bits[..|bits| - 1], bits[|bits| - 1];
    assert ([b] + bits)[..|bits|] == [b] + init;
    StemFromFront(b, init);
    Assoc(Gap(b), Stem(init), Branch(z));
  }

  /** The text of an is-last word, column by column: it is 3(d-1)+2 wide and each bit can be read back. */
  lemma {:induction false} StemShape(bits: seq<bool>, k: nat)
    ensures |Stem(bits)| == 3 * |bits|
    ensures k < |bits| ==> Stem(bits)[3 * k..3 * k + 3] == Gap(bits[k])
  {
    if bits != [] {
      var init, z := bits[..|bits| - 1], bits[|bits| - 1];
      StemShape(init, k);
      if k < |init| {
        SliceLeft(Stem(init), Gap(z), 3 * k, 3 * k + 3);
        assert Stem(init)[3 * k..3 * k + 3] == Gap(init[k]);
      } else if k == |init| {
        SliceRight(Stem(init), Gap(z));
        assert 3 * k == |Stem(init)|;
      }
    }
  }

  lemma TextShape(bits: seq<bool>, k: nat)
    requires bits != []
    ensures |Text(bits)| == 3 * (|bits| - 1) + 2
    ensures Text(bits)[3 * (|bits| - 1)..] == Branch(bits[|bits| - 1])
    ensures k < |bits| - 1 ==> Text(bits)[3 * k..3 * k + 3] == Gap(bits[k])
  {
    var init, z := bits[..|bits| - 1], bits[|bits| - 1];
    StemShape(init, k);
    SliceRight(Stem(init), Branch(z));
    if k < |init| {
      SliceLeft(Stem(init), Branch(z), 3 * k, 3 * k + 3);
    }
  }

  lemma LastIsLast(f: Forest, p: Pid, i: nat)
    requires Ordered(f)
    requires i < |f.Kids(p)|
    ensures f.Kids(p)[i] in f.parent && f.parent[f.Kids(p)[i]] == p
    ensures IsLast(f, f.Kids(p)[i]) <==> i + 1 == |f.Kids(p)|
  {
    var ch := f.Kids(p);
    var x := ch[i];
    assert x in ch;
    SiblingOrderIsTotal(f.inum);
    if i + 1 == |ch| {
      forall y | y in f.parent && f.parent[y] == p ensures y == x || Before(f.inum, y, x) {
        assert y in ch;
        var j :| 0 <= j < |ch| && ch[j] == y;
      }
    } else {
      var y := ch[i + 1];
      assert y in ch;
      assert NotAfter(f.inum)(x, y) && x != y;
    }
  }

  lemma {:induction false} ExtendsTrans(a: Path, b: Path, c: Path)
    requires a.Extends(b) && b.Extends(c)
    ensures a.Extends(c) && c.Depth() <= b.Depth() <= a.Depth()
    ensures b.Depth() == a.Depth() ==> a == b
  {
    if a != b {
      ExtendsTrans(a.up, b, c);
    } else if b != c {
      ExtendsTrans(b.up, b.up, c);
    }
  }

  lemma {:induction false} LastsFromFront(f: Forest, p: Path, m: Path, q: Path)
    requires m.Below? && m.up == p && IsPath(f, q) && q.Extends(m)
    ensures q.Extends(p) && IsPath(f, m)
    ensures Lasts(f, p, q) == [IsLast(f, m.node)] + Lasts(f, m, q)
  {
    if q == m {
      assert Lasts(f, p, p) == [] && Lasts(f, m, m) == [];
      assert q.Depth() == p.Depth() + 1;
      assert Lasts(f, p, q) == Lasts(f, p, p) + [IsLast(f, m.node)];
    } else {
      LastsFromFront(f, p, m, q.up);
      ExtendsTrans(q.up, m, p);
      Assoc([IsLast(f, m.node)], Lasts(f, m, q.up), [IsLast(f, q.node)]);
    }
  }

  /** The walk of length one more than `p` on the way to a longer walk `q`. */
  lemma {:induction false} FirstStep(f: Forest, p: Path, q: Path) returns (m: Path)
    requires IsPath(f, q) && q.Extends(p) && q != p
    ensures m.Below? && m.up == p && q.Extends(m) && IsPath(f, m)
  {
    if q.up == p {
      m := q;
    } else {
      m := FirstStep(f, p, q.up);
    }
  }

  /** `q` goes down from `p` through its `i`-th child or a later one. */
  ghost predicate Through(f: Forest, p: Path, i: nat, q: Path) {
    exists j :: i <= j < |f.Kids(p.node)| && q.Extends(Below(p, f.Kids(p.node)[j]))
  }

  lemma ThroughSomeChild(f: Forest, p: Path, q: Path)
    requires IsPath(f, q)
    ensures Through(f, p, 0, q) <==> q.Extends(p) && q != p
  {
    var ch := f.Kids(p.node);
    if q.Extends(p) && q != p {
      var m := FirstStep(f, p, q);
      assert m.node in ch;
      var j :| 0 <= j < |ch| && ch[j] == m.node;
      assert q.Extends(Below(p, ch[j]));
    }
    if Through(f, p, 0, q) {
      var j :| 0 <= j < |ch| && q.Extends(Below(p, ch[j]));
      ExtendsTrans(q, Below(p, ch[j]), p);
    }
  }

  /** The drawing visits exactly the walks strictly below `p` (through the `i`-th child or a later one). */
  lemma {:induction false} VisitsExact(f: Forest, p: Path, i: nat, q: Path)
    requires IsPath(f, p) && i <= |f.Kids(p.node)|
    ensures ExactAt(f, p, i, q)
    decreases |f.inum| - p.Depth(), |f.Kids(p.node)| - i
  {
    if i < |f.Kids(p.node)| {
      VisitsExact(f, Child(f, p, i), 0, q);
      VisitsExact(f, p, i + 1, q);
      ExactStep(f, p, i, q);
    }
  }

  ghost predicate ExactAt(f: Forest, p: Path, i: nat, q: Path)
    requires IsPath(f, p) && i <= |f.Kids(p.node)|
  {
    q in Visits(f, p, i) <==> IsPath(f, q) && Through(f, p, i, q)
  }

  lemma ExactStep(f: Forest, p: Path, i: nat, q: Path)
    requires IsPath(f, p) && i < |f.Kids(p.node)|
    requires ExactAt(f, Child(f, p, i), 0, q) && ExactAt(f, p, i + 1, q)
    ensures ExactAt(f, p, i, q)
  {
    VisitsNext(f, p, i, q);
    if IsPath(f, q) {
      ThroughSomeChild(f, Child(f, p, i), q);
      ThroughNext(f, p, i, q);
    }
  }

  lemma VisitsNext(f: Forest, p: Path, i: nat, q: Path)
    requires IsPath(f, p) && i < |f.Kids(p.node)|
    ensures var m := Child(f, p, i);
            q in Visits(f, p, i) <==> q == m || q in Visits(f, m, 0) || q in Visits(f, p, i + 1)
  {
  }

  lemma ThroughNext(f: Forest, p: Path, i: nat, q: Path)
    requires i < |f.Kids(p.node)|
    ensures Through(f, p, i, q) <==> q.Extends(Below(p, f.Kids(p.node)[i])) || Through(f, p, i + 1, q)
  {
  }

  lemma VisitsBelow(f: Forest, p: Path, q: Path)
    requires IsPath(f, p)
    ensures q in Visits(f, p, 0) <==> IsPath(f, q) && q.Extends(p) && q != p
  {
    VisitsExact(f, p, 0, q);
    if IsPath(f, q) {
      ThroughSomeChild(f, p, q);
    }
  }

  /** Walks through one child are not walks through another. */
  lemma ThroughOneChild(f: Forest, p: Path, i: nat, q: Path)
    requires Ordered(f)
    requires IsPath(f, p) && i < |f.Kids(p.node)| && q.Extends(Below(p, f.Kids(p.node)[i]))
    ensures q !in Visits(f, p, i + 1)
  {
    VisitsExact(f, p, i + 1, q);
    forall j: nat | i < j < |f.Kids(p.node)| ensures !q.Extends(Below(p, f.Kids(p.node)[j])) {
      NotThroughBoth(f, p, i, j, q);
    }
  }

  lemma NotThroughBoth(f: Forest, p: Path, i: nat, j: nat, q: Path)
    requires Ordered(f)
    requires i < j < |f.Kids(p.node)| && q.Extends(Below(p, f.Kids(p.node)[i]))
    ensures !q.Extends(Below(p, f.Kids(p.node)[j]))
  {
    if q.Extends(Below(p, f.Kids(p.node)[j])) {
      SameDepthExtends(q, Below(p, f.Kids(p.node)[i]), Below(p, f.Kids(p.node)[j]));
    }
  }

  ghost predicate Once(f: Forest, p: Path, i: nat)
    requires IsPath(f, p) && i <= |f.Kids(p.node)|
  {
    NoDup(Visits(f, p, i))
  }

  lemma {:induction false} VisitsOnce(f: OrderedForest, p: Path, i: nat)
    requires IsPath(f, p) && i <= |f.Kids(p.node)|
    ensures Once(f, p, i)
    decreases |f.inum| - p.Depth(), |f.Kids(p.node)| - i
  {
    if i < |f.Kids(p.node)| {
      var m := Child(f, p, i);
      assert m.Depth() > p.Depth();
      VisitsOnce(f, m, 0);
      VisitsOnce(f, p, i + 1);
      VisitsSubtreeOnce(f, p, i);
    }
  }

  lemma VisitsSubtreeOnce(f: OrderedForest, p: Path, i: nat)
    requires IsPath(f, p) && i < |f.Kids(p.node)|
    requires Once(f, Child(f, p, i), 0) && Once(f, p, i + 1)
    ensures Once(f, p, i)
  {
    var m := Child(f, p, i);
    var below, rest := Visits(f, m, 0), Visits(f, p, i + 1);
    forall q | q in below ensures q != m && q.Extends(m) {
      VisitsBelow(f, m, q);
    }
    ConcatNoDup([m], below);
    forall q | q in [m] + below ensures q !in rest {
      ThroughOneChild(f, p, i, q);
    }
    ConcatNoDup([m] + below, rest);
    assert Visits(f, p, i) == [m] + below + rest;
  }

  lemma {:induction false} SameDepthExtends(q: Path, a: Path, b: Path)
    requires q.Extends(a) && q.Extends(b) && a.Depth() == b.Depth()
    ensures a == b
  {
    if q == a {
      ExtendsTrans(q, b, b);
    } else if q == b {
      ExtendsTrans(q, a, a);
    } else {
      SameDepthExtends(q.up, a, b);
    }
  }

  ghost predicate Spells(f: Forest, p: Path, prefix: string, q: Path, line: Line) {
    && IsPath(f, q) && q.Extends(p) && q != p
    && line == Line(q.node, prefix + Text(Lasts(f, p, q)))
  }

  /** Seen from one level further up, the line of a walk is the same line. */
  lemma SpellsFromAbove(f: Forest, p: Path, prefix: string, m: Path, q: Path, line: Line)
    requires m.Below? && m.up == p && IsPath(f, m)
    requires Spells(f, m, prefix + Gap(IsLast(f, m.node)), q, line)
    ensures Spells(f, p, prefix, q, line)
  {
    LastsFromFront(f, p, m, q);
    TextFromFront(IsLast(f, m.node), Lasts(f, m, q));
    Assoc(prefix, Gap(IsLast(f, m.node)), Text(Lasts(f, m, q)));
    ExtendsTrans(q, m, p);
  }

  ghost predicate SpellsAll(f: Forest, p: Path, prefix: string, qs: seq<Path>, lines: seq<Line>) {
    |qs| == |lines| && forall k :: 0 <= k < |qs| ==> Spells(f, p, prefix, qs[k], lines[k])
  }

  lemma SpellsAllFromAbove(f: Forest, p: Path, prefix: string, m: Path, qs: seq<Path>, lines: seq<Line>)
    requires m.Below? && m.up == p && IsPath(f, m)
    requires SpellsAll(f, m, prefix + Gap(IsLast(f, m.node)), qs, lines)
    ensures SpellsAll(f, p, prefix, qs, lines)
  {
    forall k | 0 <= k < |qs| ensures Spells(f, p, prefix, qs[k], lines[k]) {
      SpellsFromAbove(f, p, prefix, m, qs[k], lines[k]);
    }
  }

  lemma SpellsConcat(f: Forest, p: Path, prefix: string, qs: seq<Path>, lines: seq<Line>, qs': seq<Path>, lines': seq<Line>)
    requires SpellsAll(f, p, prefix, qs, lines) && SpellsAll(f, p, prefix, qs', lines')
    ensures SpellsAll(f, p, prefix, qs + qs', lines + lines')
  {
    forall k | 0 <= k < |qs + qs'| ensures Spells(f, p, prefix, (qs + qs')[k], (lines + lines')[k]) {
      if k < |qs| {
        assert Spells(f, p, prefix, qs[k], lines[k]);
      } else {
        assert Spells(f, p, prefix, qs'[k - |qs|], lines'[k - |qs|]);
      }
    }
  }

  /** A child's line, the lines below the child and the lines of its later siblings, put together. */
  lemma SpellsSubtree(f: Forest, p: Path, prefix: string, m: Path,
                      below: seq<Path>, belowLines: seq<Line>, rest: seq<Path>, restLines: seq<Line>)
    requires m.Below? && m.up == p && IsPath(f, m)
    requires SpellsAll(f, m, prefix + Gap(IsLast(f, m.node)), below, belowLines)
    requires SpellsAll(f, p, prefix, rest, restLines)
    ensures SpellsAll(f, p, prefix, [m] + below + rest,
                      [Line(m.node, prefix + Branch(IsLast(f, m.node)))] + belowLines + restLines)
  {
    SpellsChild(f, p, prefix, m);
    SpellsAllFromAbove(f, p, prefix, m, below, belowLines);
    var here := [Line(m.node, prefix + Branch(IsLast(f, m.node)))];
    SpellsConcat(f, p, prefix, [m], here, below, belowLines);
    SpellsConcat(f, p, prefix, [m] + below, here + belowLines, rest, restLines);
  }

  /** Every line drawn carries the text that its walk spells. */
  lemma {:induction false} DrawSpells(f: Forest, p: Path, prefix: string, i: nat)
    requires Ordered(f)
    requires IsPath(f, p) && i <= |f.Kids(p.node)|
    ensures SpellsAll(f, p, prefix, Visits(f, p, i), Draw(f, p, prefix, i))
    decreases |f.inum| - p.Depth(), |f.Kids(p.node)| - i
  {
    if i < |f.Kids(p.node)| {
      var m := Child(f, p, i);
      LastIsLast(f, p.node, i);
      var next := prefix + Gap(IsLast(f, m.node));
      assert m.Depth() > p.Depth();
      DrawSpells(f, m, next, 0);
      DrawSpells(f, p, prefix, i + 1);
      SpellsSubtree(f, p, prefix, m, Visits(f, m, 0), Draw(f, m, next, 0), Visits(f, p, i + 1), Draw(f, p, prefix, i + 1));
    }
  }

  lemma SpellsChild(f: Forest, p: Path, prefix: string, m: Path)
    requires m.Below? && m.up == p && IsPath(f, m)
    ensures Spells(f, p, prefix, m, Line(m.node, prefix + Branch(IsLast(f, m.node))))
  {
    assert Lasts(f, p, m) == [] + [IsLast(f, m.node)] == [IsLast(f, m.node)];
    assert Text([IsLast(f, m.node)]) == "" + Branch(IsLast(f, m.node)) == Branch(IsLast(f, m.node));
  }

  /** The is-last word of a walk from its root has one bit for every ancestor below the root and the node. */
  lemma {:induction false} LastsByDepth(f: Forest, q: Path, k: nat)
    requires IsPath(f, q)
    ensures q.Extends(q.Ancestor(0)) && |Lasts(f, q.Ancestor(0), q)| == q.Depth()
    ensures k < q.Depth() ==>
              && IsPath(f, q.Ancestor(k + 1)) && q.Ancestor(k + 1).Below?
              && Lasts(f, q.Ancestor(0), q)[k] == IsLast(f, q.Ancestor(k + 1).node)
  {
    AncestorExtends(q, 0);
    if q.Below? {
      LastsByDepth(f, q.up, k);
      assert Lasts(f, q.Ancestor(0), q) == Lasts(f, q.Ancestor(0), q.up) + [IsLast(f, q.node)];
    }
  }

  /**
   What is drawn in front of a node at depth d: two columns for the node itself after three
   for each ancestor strictly between it and the root, each group telling whether that node
   is the last of its siblings; 3(d-1)+2 columns in all.
   */
  lemma PrefixShape(f: Forest, q: Path, k: nat)
    requires IsPath(f, q) && q.Below?
    ensures q.Extends(q.Ancestor(0)) && q != q.Ancestor(0)
    ensures var text := Text(Lasts(f, q.Ancestor(0), q));
            && |text| == 3 * (q.Depth() - 1) + 2
            && text[3 * (q.Depth() - 1)..] == (if IsLast(f, q.node) then "└─" else "├─")
            && (k + 1 < q.Depth() ==> IsPath(f, q.Ancestor(k + 1)) && q.Ancestor(k + 1).Below? &&
                                      text[3 * k..3 * k + 3] == if IsLast(f, q.Ancestor(k + 1).node) then "   " else "│  ")
  {
    LastsByDepth(f, q, k);
    LastsByDepth(f, q, q.Depth() - 1);
    var bits := Lasts(f, q.Ancestor(0), q);
    assert bits[|bits| - 1] == IsLast(f, q.node);
    TextShape(bits, k);
  }

  lemma {:induction false} AncestorExtends(q: Path, k: nat)
    requires k <= q.Depth()
    ensures q.Extends(q.Ancestor(k)) && q.Ancestor(k).Depth() == k
  {
    if k < q.Depth() {
      AncestorExtends(q.up, k);
    }
  }

  // ---------------------------------------------------------------- the whole prefix map

  ghost predicate CoversRoots(f: Forest, roots: seq<Pid>) {
    NoDup(roots) && forall r :: r in roots <==> f.Root(r)
  }

  ghost function DrawAll(f: Forest, roots: seq<Pid>): seq<Line>
    requires forall i :: 0 <= i < |roots| ==> f.Root(roots[i])
  {
    if roots == [] then []
    else
      assert f.Root(roots[0]);
      Draw(f, Top(roots[0]), "", 0) + DrawAll(f, roots[1..])
  }

  ghost function VisitAll(f: Forest, roots: seq<Pid>): seq<Path>
    requires forall i :: 0 <= i < |roots| ==> f.Root(roots[i])
  {
    if roots == [] then []
    else
      assert f.Root(roots[0]);
      Visits(f, Top(roots[0]), 0) + VisitAll(f, roots[1..])
  }

  ghost predicate DrawnFor(f: Forest, q: Path, line: Line) {
    && IsPath(f, q) && q.Below? && q.Extends(q.Ancestor(0)) && q != q.Ancestor(0)
    && line == Line(q.node, Text(Lasts(f, q.Ancestor(0), q)))
  }

  ghost predicate DrawnForAll(f: Forest, qs: seq<Path>, lines: seq<Line>) {
    |qs| == |lines| && forall k :: 0 <= k < |qs| ==> DrawnFor(f, qs[k], lines[k])
  }

  lemma DrawnConcat(f: Forest, qs: seq<Path>, lines: seq<Line>, qs': seq<Path>, lines': seq<Line>)
    requires DrawnForAll(f, qs, lines) && DrawnForAll(f, qs', lines')
    ensures DrawnForAll(f, qs + qs', lines + lines')
  {
    forall k | 0 <= k < |qs + qs'| ensures DrawnFor(f, (qs + qs')[k], (lines + lines')[k]) {
      if k < |qs| {
        assert DrawnFor(f, qs[k], lines[k]);
      } else {
        assert DrawnFor(f, qs'[k - |qs|], lines'[k - |qs|]);
      }
    }
  }

  lemma DrawnFromTop(f: Forest, t: Path, qs: seq<Path>, lines: seq<Line>)
    requires t.Top? && SpellsAll(f, t, "", qs, lines)
    ensures DrawnForAll(f, qs, lines)
  {
    forall k | 0 <= k < |qs| ensures DrawnFor(f, qs[k], lines[k]) {
      DrawnOneFromTop(f, t, qs[k], lines[k]);
    }
  }

  lemma DrawnOneFromTop(f: Forest, t: Path, q: Path, line: Line)
    requires t.Top? && Spells(f, t, "", q, line)
    ensures DrawnFor(f, q, line)
  {
    AncestorOf(q, t);
    assert "" + Text(Lasts(f, t, q)) == Text(Lasts(f, t, q));
  }

  lemma {:induction false} AncestorOf(q: Path, t: Path)
    requires q.Extends(t) && t.Top?
    ensures q.Ancestor(0) == t
  {
    if q != t {
      AncestorOf(q.up, t);
    }
  }

  lemma {:induction false} DrawAllSpells(f: Forest, roots: seq<Pid>)
    requires Ordered(f)
    requires forall i :: 0 <= i < |roots| ==> f.Root(roots[i])
    ensures DrawnForAll(f, VisitAll(f, roots), DrawAll(f, roots))
  {
    if roots != [] {
      var t := Top(roots[0]);
      assert f.Root(roots[0]);
      DrawSpells(f, t, "", 0);
      DrawnFromTop(f, t, Visits(f, t, 0), Draw(f, t, "", 0));
      DrawAllSpells(f, roots[1..]);
      DrawnConcat(f, Visits(f, t, 0), Draw(f, t, "", 0), VisitAll(f, roots[1..]), DrawAll(f, roots[1..]));
    }
  }

  lemma {:induction false} VisitAllExact(f: Forest, roots: seq<Pid>, q: Path)
    requires forall i :: 0 <= i < |roots| ==> f.Root(roots[i])
    ensures q in VisitAll(f, roots) <==> IsPath(f, q) && q.Below? && q.Ancestor(0).node in roots
  {
    if roots != [] {
      var t := Top(roots[0]);
      assert f.Root(roots[0]);
      VisitsBelow(f, t, q);
      VisitAllExact(f, roots[1..], q);
      BelowTop(q, t);
    }
  }

  lemma BelowTop(q: Path, t: Path)
    requires t.Top?
    ensures q.Extends(t) && q != t <==> q.Below? && q.Ancestor(0).node == t.node
  {
    AncestorExtends(q, 0);
    if q.Extends(t) {
      AncestorOf(q, t);
    }
  }

  /** No representative is visited twice, from one root or from two. */
  lemma {:induction false} VisitAllOnce(f: Forest, roots: seq<Pid>)
    requires Ordered(f)
    requires NoDup(roots) && forall i :: 0 <= i < |roots| ==> f.Root(roots[i])
    ensures NoDup(VisitAll(f, roots))
  {
    if roots != [] {
      var t := Top(roots[0]);
      assert f.Root(roots[0]);
      VisitsOnce(f, t, 0);
      VisitAllOnce(f, roots[1..]);
      forall q | q in Visits(f, t, 0) ensures q !in VisitAll(f, roots[1..]) {
        VisitsBelow(f, t, q);
        VisitAllExact(f, roots[1..], q);
        BelowTop(q, t);
      }
      ConcatNoDup(Visits(f, t, 0), VisitAll(f, roots[1..]));
    }
  }

  ghost predicate NodesOnce(log: seq<Line>) {
    forall i, j :: 0 <= i < j < |log| ==> log[i].node != log[j].node
  }

  lemma DrawnOnce(f: Forest, qs: seq<Path>, lines: seq<Line>)
    requires DrawnForAll(f, qs, lines) && NoDup(qs)
    ensures NodesOnce(lines)
  {
    forall i, j | 0 <= i < j < |lines| ensures lines[i].node != lines[j].node {
      assert DrawnFor(f, qs[i], lines[i]) && DrawnFor(f, qs[j], lines[j]);
      if lines[i].node == lines[j].node {
        PathUnique(f, qs[i], qs[j]);
      }
    }
  }

  function Replay(log: seq<Line>): map<Pid, string> {
    if log == [] then map[]
    else Replay(log[..|log| - 1])[log[|log| - 1].node := log[|log| - 1].text]
  }

  lemma ReplaySnoc(log: seq<Line>, line: Line)
    ensures Replay(log + [line]) == Replay(log)[line.node := line.text]
  {
    assert (log + [line])[..|log|] == log;
  }

  lemma {:induction false} ReplayHolds(log: seq<Line>, k: nat)
    requires NodesOnce(log) && k < |log|
    ensures log[k].node in Replay(log) && Replay(log)[log[k].node] == log[k].text
  {
    if k < |log| - 1 {
      ReplayHolds(log[..|log| - 1], k);
    }
  }

  lemma {:induction false} ReplayOnly(log: seq<Line>, x: Pid) returns (k: nat)
    requires x in Replay(log)
    ensures k < |log| && log[k].node == x
  {
    if log[|log| - 1].node == x {
      k := |log| - 1;
    } else {
      k := ReplayOnly(log[..|log| - 1], x);
    }
  }

  /** What `rep_prefix` must hold: a label for each non-root hanging below a root, and nothing else. */
  ghost predicate PrefixesExact(f: Forest, prefixes: map<Pid, string>) {
    && (forall q :: IsPath(f, q) && q.Below? ==> q.node in prefixes && DrawnFor(f, q, Line(q.node, prefixes[q.node])))
    && (forall x :: x in prefixes ==> exists q :: IsPath(f, q) && q.Below? && q.node == x)
  }

  lemma DrawAllExact(f: Forest, roots: seq<Pid>)
    requires Ordered(f) && CoversRoots(f, roots)
    ensures NodesOnce(DrawAll(f, roots))
    ensures PrefixesExact(f, Replay(DrawAll(f, roots)))
  {
    var qs, log := VisitAll(f, roots), DrawAll(f, roots);
    DrawAllSpells(f, roots);
    VisitAllOnce(f, roots);
    DrawnOnce(f, qs, log);
    forall q | IsPath(f, q) && q.Below? ensures q in qs {
      RootOfPath(f, q);
      VisitAllExact(f, roots, q);
    }
    ReplayExact(f, qs, log);
  }

  lemma ReplayExact(f: Forest, qs: seq<Path>, log: seq<Line>)
    requires DrawnForAll(f, qs, log) && NodesOnce(log)
    requires forall q :: IsPath(f, q) && q.Below? ==> q in qs
    ensures PrefixesExact(f, Replay(log))
  {
    forall q | IsPath(f, q) && q.Below?
      ensures q.node in Replay(log) && DrawnFor(f, q, Line(q.node, Replay(log)[q.node]))
    {
      var k :| 0 <= k < |qs| && qs[k] == q;
      ReplayHolds(log, k);
    }
    forall x | x in Replay(log) ensures exists q :: IsPath(f, q) && q.Below? && q.node == x {
      var k := ReplayOnly(log, x);
      assert DrawnFor(f, qs[k], log[k]);
    }
  }

  lemma {:induction false} RootOfPath(f: Forest, q: Path)
    requires IsPath(f, q)
    ensures f.Root(q.Ancestor(0).node)
  {
    if q.Below? {
      RootOfPath(f, q.up);
    }
  }

  /**
   The exact prefix map is one map: two runs over the same forest agree, and so do two runs
   over forests built from the same representatives and parents in different hash orders.
   */
  lemma PrefixesUnique(f: Forest, a: map<Pid, string>, b: map<Pid, string>)
    requires PrefixesExact(f, a) && PrefixesExact(f, b)
    ensures a == b
  {
    forall x | x in a ensures x in b && a[x] == b[x] {
      var q :| IsPath(f, q) && q.Below? && q.node == x;
    }
    forall x | x in b ensures x in a {
      var q :| IsPath(f, q) && q.Below? && q.node == x;
    }
    MapsEqual(a, b);
  }

  lemma ForestUnique(f: Forest, g: Forest)
    requires Ordered(f) && Ordered(g)
    requires f.inum == g.inum && f.parent == g.parent
    ensures f == g
  {
    SiblingOrderIsTotal(f.inum);
    forall p ensures f.Kids(p) == g.Kids(p) {
      var a, b := f.Kids(p), g.Kids(p);
      forall x ensures multiset(a)[x] == multiset(b)[x] {
        NoDupMultiset(a, x);
        NoDupMultiset(b, x);
        if x in a {
          assert f.parent[x] == p;
        }
        if x in b {
          assert g.parent[x] == p;
        }
      }
      assert multiset(a) == multiset(b);
      SortedUnique(a, b, NotAfter(f.inum));
    }
    forall p ensures p in f.children <==> p in g.children {
      assert f.Kids(p) == g.Kids(p);
    }
    forall p | p in f.children ensures f.children[p] == g.children[p] {
      assert f.Kids(p) == g.Kids(p);
    }
    assert f.children == g.children;
  }

  // ---------------------------------------------------------------- building the forest

  /** The parents that count: positive, and themselves representatives. */
  function RepParents(inum: map<Pid, nat>, raw: map<Pid, Pid>): (r: map<Pid, Pid>)
    ensures forall x :: x in r <==> x in raw && raw[x] > 0 && raw[x] in inum
    ensures forall x :: x in r ==> r[x] == raw[x]
  {
    map x | x in raw && raw[x] > 0 && raw[x] in inum :: raw[x]
  }

  ghost predicate ListsInverse(parent: map<Pid, Pid>, children: map<Pid, seq<Pid>>) {
    && (forall p :: p in children ==> children[p] != [] && NoDup(children[p]))
    && (forall p, c :: p in children && c in children[p] ==> c in parent && parent[c] == p)
    && (forall c :: c in parent ==> parent[c] in children && c in children[parent[c]])
  }

  /** `rep_children[parent].push_back(tgid)` and `rep_parent[tgid] = parent`. */
  function PushChild(children: map<Pid, seq<Pid>>, parent: Pid, tgid: Pid): map<Pid, seq<Pid>> {
    children[parent := (if parent in children then children[parent] else []) + [tgid]]
  }

  lemma PushChildInverse(parent: map<Pid, Pid>, children: map<Pid, seq<Pid>>, p: Pid, tgid: Pid)
    requires ListsInverse(parent, children) && tgid !in parent
    ensures ListsInverse(parent[tgid := p], PushChild(children, p, tgid))
  {
    var list := if p in children then children[p] else [];
    assert tgid !in list;
    ConcatNoDup(list, [tgid]);
    var after := PushChild(children, p, tgid);
    var links := parent[tgid := p];
    forall c | c in links ensures links[c] in after && c in after[links[c]] {
      if c == tgid {
        assert after[p][|list|] == tgid;
      } else if parent[c] == p {
        assert c in list;
      }
    }
  }

  lemma ParentsFound(inum: map<Pid, nat>, raw: map<Pid, Pid>, parent: map<Pid, Pid>)
    requires forall x :: x in raw ==> (x in parent <==> raw[x] > 0 && raw[x] in inum)
    requires forall x :: x in parent ==> x in raw && parent[x] == raw[x]
    ensures parent == RepParents(inum, raw)
  {
  }

  /** The loop over `reps` in the hash table's own order; `raw` is what /proc said of each parent. */
  method LinkParents(order: seq<Pid>, inum: map<Pid, nat>, raw: map<Pid, Pid>)
    returns (parent: map<Pid, Pid>, children: map<Pid, seq<Pid>>, roots: set<Pid>)
    requires NoDup(order) && (forall x :: x in order <==> x in inum) && raw.Keys == inum.Keys
    ensures ListsInverse(parent, children)
    ensures parent == RepParents(inum, raw)
    ensures roots == inum.Keys - parent.Keys
  {
    children, parent, roots := map[], map[], inum.Keys;
    for i := 0 to |order|
      invariant ListsInverse(parent, children)
      invariant forall x :: x in parent ==> x in order[..i]
      invariant forall k :: 0 <= k < i ==> order[k] in raw && (order[k] in parent <==> raw[order[k]] > 0 && raw[order[k]] in inum)
      invariant forall x :: x in parent ==> x in raw && parent[x] == raw[x]
      invariant roots == inum.Keys - parent.Keys
    {
      var tgid := order[i];
      assert tgid in order;
      if raw[tgid] > 0 && raw[tgid] in inum {
        PushChildInverse(parent, children, raw[tgid], tgid);
        children := PushChild(children, raw[tgid], tgid);
        roots := roots - {tgid};
        parent := parent[tgid := raw[tgid]];
      }
    }
    forall x | x in raw ensures x in parent <==> raw[x] > 0 && raw[x] in inum {
      assert x in inum;
      var k :| 0 <= k < |order| && order[k] == x;
    }
    ParentsFound(inum, raw, parent);
  }

  method SortSiblings(list: seq<Pid>, inum: map<Pid, nat>) returns (r: seq<Pid>)
    ensures SortedPermutation(r, list, NotAfter(inum))
  {
    SiblingOrderIsTotal(inum);
    r := Sort(list, NotAfter(inum));
  }

  method SortLists(ghost parent: map<Pid, Pid>, lists: map<Pid, seq<Pid>>, inum: map<Pid, nat>)
    returns (r: map<Pid, seq<Pid>>)
    requires ListsInverse(parent, lists)
    ensures ListsInverse(parent, r)
    ensures forall p :: p in r ==> Sorted(r[p], NotAfter(inum))
  {
    r := lists;
    var todo := lists.Keys;
    while todo != {}
      invariant todo <= r.Keys
      invariant ListsInverse(parent, r)
      invariant forall p :: p in r && p !in todo ==> Sorted(r[p], NotAfter(inum))
    {
      ghost var witness' := Member(todo);
      var p :| p in todo;
      var sorted := SortSiblings(r[p], inum);
      PermutationKeeps(r[p], sorted);
      assert r[p][0] in sorted;
      r := r[p := sorted];
      todo := todo - {p};
    }
  }

  /** The forest built from the representatives and the parents read for them. */
  method BuildForest(order: seq<Pid>, inum: map<Pid, nat>, raw: map<Pid, Pid>)
    returns (f: Forest, roots: set<Pid>, orphanRoots: set<Pid>)
    requires NoDup(order) && (forall x :: x in order <==> x in inum) && raw.Keys == inum.Keys
    ensures Ordered(f) && f.inum == inum && f.parent == RepParents(inum, raw)
    ensures roots == set x | x in inum && f.Root(x)
    ensures orphanRoots == set x | x in raw && raw[x] > 0 && raw[x] !in inum
    ensures orphanRoots <= roots
  {
    var parent, children;
    parent, children, roots := LinkParents(order, inum, raw);
    children := SortLists(parent, children, inum);
    f := Links(inum, parent, children);
    orphanRoots := set x | x in raw && raw[x] > 0 && raw[x] !in inum;
  }

  /** `rep_prefix` and the recursive lambda that fills it. `log` records every assignment made. */
  class PrefixMap {
    const f: Forest
    var repPrefix: map<Pid, string>
    ghost var log: seq<Line>

    ghost predicate Valid()
      reads this
    {
      repPrefix == Replay(log)
    }

    constructor (f: Forest)
      ensures Valid() && this.f == f && log == [] && repPrefix == map[]
    {
      this.f := f;
      repPrefix := map[];
      log := [];
    }

    method BuildPrefix(tgid: Pid, prefix: string, ghost p: Path)
      requires Valid() && IsPath(f, p) && p.node == tgid
      modifies this`repPrefix, this`log
      ensures Valid()
      ensures log == DrawOnto(f, p, prefix, 0, old(log))
      decreases |f.inum| - p.Depth()
    {
      var ch := f.Kids(tgid);
      ghost var goal := DrawOnto(f, p, prefix, 0, log);
      for i := 0 to |ch|
        invariant Valid()
        invariant DrawOnto(f, p, prefix, i, log) == goal
      {
        var last := i + 1 == |ch|;
        ghost var q := Child(f, p, i);
        Assign(ch[i], prefix + Branch(last));
        BuildPrefix(ch[i], prefix + Gap(last), q);
      }
    }

    method Assign(x: Pid, text: string)
      requires Valid()
      modifies this`repPrefix, this`log
      ensures Valid() && log == old(log) + [Line(x, text)]
    {
      ReplaySnoc(log, Line(x, text));
      repPrefix := repPrefix[x := text];
      log := log + [Line(x, text)];
    }

    /** From every root, in sorted order. Each assignment is to a representative not assigned before. */
    method BuildAll(rootSet: seq<Pid>)
      requires Valid() && Ordered(f) && log == [] && CoversRoots(f, rootSet)
      modifies this`repPrefix, this`log
      ensures Valid()
      ensures PrefixesExact(f, repPrefix)
      ensures NodesOnce(log) && |log| == |repPrefix|
    {
      var roots := SortSiblings(rootSet, f.inum);
      PermutationKeeps(rootSet, roots);
      for i := 0 to |roots|
        invariant Valid()
        invariant log + DrawAll(f, roots[i..]) == DrawAll(f, roots)
      {
        DrawAllStep(f, roots, i, log);
        DrawOntoAppends(f, Top(roots[i]), "", 0, log);
        BuildPrefix(roots[i], "", Top(roots[i]));
      }
      assert log == DrawAll(f, roots);
      DrawAllExact(f, roots);
      ReplaySize(log);
    }
  }

  lemma DrawAllStep(f: Forest, roots: seq<Pid>, i: nat, log: seq<Line>)
    requires i < |roots| && forall i :: 0 <= i < |roots| ==> f.Root(roots[i])
    ensures f.Root(roots[i])
    ensures log + DrawAll(f, roots[i..]) == (log + Draw(f, Top(roots[i]), "", 0)) + DrawAll(f, roots[i + 1..])
  {
    assert roots[i] in roots;
    assert roots[i..][1..] == roots[i + 1..];
  }

  lemma {:induction false} ReplaySize(log: seq<Line>)
    requires NodesOnce(log)
    ensures |Replay(log)| == |log|
  {
    if log != [] {
      var init, last := log[..|log| - 1], log[|log| - 1];
      ReplaySize(init);
      if last.node in Replay(init) {
        var k := ReplayOnly(init, last.node);
        assert false;
      }
    }
  }
}
