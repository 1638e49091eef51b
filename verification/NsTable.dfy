/**
 The header rows of `lsns`, the tables derived from them, and text mode: plain headers
 first, then every orphan header followed by the tree below it.
 */
module NsTable {
  import opened Seqs
  import opened Basics
  import opened NsForest
  import NsOrphans

  /** One namespace. `rep` is the tgid of its representative process, 0 when it has none. */
  datatype Header = Header(nsType: nat, inum: nat, display: string, procs: nat, rep: Pid, user: string, cmd: string)

  /** `rep_to_headers[tgid]`: the headers that `tgid` represents, in table order. */
  function HeadersOf(headers: seq<Header>, tgid: Pid): (r: seq<Header>)
    ensures forall h :: h in r <==> h in headers && h.rep == tgid && tgid != 0
    decreases headers
  {
    if headers == [] || tgid == 0 then []
    else (if headers[0].rep == tgid then [headers[0]] else []) + HeadersOf(headers[1..], tgid)
  }

  /** They are the headers with that representative, as often as the table lists them and in its order. */
  lemma {:induction false} HeadersOfExact(headers: seq<Header>, tgid: Pid, h: Header)
    ensures Subsequence(HeadersOf(headers, tgid), headers)
    ensures multiset(HeadersOf(headers, tgid))[h] == if h.rep == tgid != 0 then multiset(headers)[h] else 0
  {
    HeadersOfInOrder(headers, tgid);
    if headers != [] && tgid != 0 {
      HeadersOfExact(headers[1..], tgid, h);
      assert headers == [headers[0]] + headers[1..];
    }
  }

  lemma {:induction false} HeadersOfInOrder(headers: seq<Header>, tgid: Pid)
    ensures Subsequence(HeadersOf(headers, tgid), headers)
  {
    if headers == [] || tgid == 0 {
      SubsequenceEmpty(headers);
    } else {
      HeadersOfInOrder(headers[1..], tgid);
      assert headers == [headers[0]] + headers[1..];
      SubsequenceFront(headers[0], HeadersOf(headers[1..], tgid), headers[1..]);
      assert [] + HeadersOf(headers[1..], tgid) == HeadersOf(headers[1..], tgid);
    }
  }

  /** The namespace number that `reps[tgid]` ends up with: that of the last header it represents. */
  function RepInum(headers: seq<Header>): (r: map<Pid, nat>)
    ensures forall t :: t in r <==> t != 0 && exists h :: h in headers && h.rep == t
  {
    if headers == [] then map[]
    else
      var h := headers[|headers| - 1];
      var before := RepInum(headers[..|headers| - 1]);
      assert headers == headers[..|headers| - 1] + [h];
      if h.rep != 0 then before[h.rep := h.inum] else before
  }

  lemma {:induction false} RepInumLast(headers: seq<Header>, tgid: Pid, i: nat)
    requires i < |headers| && headers[i].rep == tgid != 0 && forall j :: i < j < |headers| ==> headers[j].rep != tgid
    ensures tgid in RepInum(headers) && RepInum(headers)[tgid] == headers[i].inum
  {
    if i < |headers| - 1 {
      RepInumLast(headers[..|headers| - 1], tgid, i);
    }
  }

  /** The loop that fills `reps`. */
  method CollectReps(headers: seq<Header>) returns (inum: map<Pid, nat>)
    ensures inum == RepInum(headers)
    ensures forall t :: t in inum <==> HeadersOf(headers, t) != []
  {
    inum := map[];
    for i := 0 to |headers|
      invariant inum == RepInum(headers[..i])
    {
      assert headers[..i + 1][..i] == headers[..i];
      if headers[i].rep != 0 {
        inum := inum[headers[i].rep := headers[i].inum];
      }
    }
    assert headers[..|headers|] == headers;
    forall t ensures t in inum <==> HeadersOf(headers, t) != [] {
      if HeadersOf(headers, t) != [] {
        assert HeadersOf(headers, t)[0] in HeadersOf(headers, t);
      }
    }
  }

  /** `rep_header_map[tgid]`: the last header that a representative stands for. */
  function RepHeader(headers: seq<Header>, tgid: Pid): Option<Header> {
    if headers == [] || tgid == 0 then None
    else if headers[|headers| - 1].rep == tgid then Some(headers[|headers| - 1])
    else RepHeader(headers[..|headers| - 1], tgid)
  }

  lemma {:induction false} RepHeaderLast(headers: seq<Header>, tgid: Pid, i: nat)
    requires i < |headers| && headers[i].rep == tgid != 0 && forall j :: i < j < |headers| ==> headers[j].rep != tgid
    ensures RepHeader(headers, tgid) == Some(headers[i])
  {
    if i < |headers| - 1 {
      RepHeaderLast(headers[..|headers| - 1], tgid, i);
    }
  }

  lemma {:induction false} RepHeaderExists(headers: seq<Header>, tgid: Pid, h: Header)
    requires h in headers && h.rep == tgid != 0
    ensures RepHeader(headers, tgid).Some? && RepHeader(headers, tgid).value.rep == tgid
  {
    if headers[|headers| - 1].rep != tgid {
      Snoc(headers, |headers| - 1);
      RepHeaderExists(headers[..|headers| - 1], tgid, h);
    }
  }

  /** What text mode knows: the headers, the forest over their representatives, and the orphans. */
  datatype Table = Table(headers: seq<Header>, forest: Forest, orphans: set<Pid>)

  ghost predicate Consistent(t: Table) {
    && Ordered(t.forest)
    && t.forest.inum.Keys == RepInum(t.headers).Keys
    && (forall x :: x in t.orphans ==> exists q :: IsPath(t.forest, q) && q.node == x)
  }

  /** A representative whose parent is a process that represents nothing. */
  predicate OrphanRoot(f: Forest, raw: map<Pid, Pid>, r: Pid) {
    r in raw && raw[r] > 0 && raw[r] !in f.inum
  }

  /** The orphans of a table are the representatives that hang below an orphan root. */
  ghost predicate OrphansExact(t: Table, raw: map<Pid, Pid>) {
    forall x :: x in t.orphans <==>
                  exists q :: IsPath(t.forest, q) && q.node == x && OrphanRoot(t.forest, raw, q.Ancestor(0).node)
  }

  lemma OrphansFound(t: Table, raw: map<Pid, Pid>, orphanRoots: set<Pid>)
    requires forall r :: r in orphanRoots ==> t.forest.Root(r)
    requires forall r :: r in orphanRoots <==> OrphanRoot(t.forest, raw, r)
    requires forall y :: y in t.orphans <==> exists r :: r in orphanRoots && NsOrphans.Reaches(t.forest, r, y)
    ensures OrphansExact(t, raw)
  {
    forall x
      ensures x in t.orphans <==>
                exists q :: IsPath(t.forest, q) && q.node == x && OrphanRoot(t.forest, raw, q.Ancestor(0).node)
    {
      NsOrphans.OrphansHang(t.forest, orphanRoots, t.orphans, x);
    }
  }

  /** Everything up to the prefixes, from the headers and what /proc said about their representatives. */
  method BuildTable(headers: seq<Header>, order: seq<Pid>, raw: map<Pid, Pid>) returns (t: Table)
    requires NoDup(order) && (forall x :: x in order <==> x in RepInum(headers)) && raw.Keys == RepInum(headers).Keys
    ensures Consistent(t) && OrphansExact(t, raw) && t.headers == headers
    ensures t.forest.inum == RepInum(headers) && t.forest.parent == RepParents(RepInum(headers), raw)
  {
    var inum := CollectReps(headers);
    var f, roots, orphanRoots := BuildForest(order, inum, raw);
    var orphans := new NsOrphans.OrphanSet(f);
    orphans.CollectAll(orphanRoots);
    t := Table(headers, f, orphans.members);
    OrphansFound(t, raw, orphanRoots);
  }

  predicate IsOrphan(t: Table, h: Header) {
    h.rep != 0 && h.rep in t.orphans
  }

  /** `rep_header_map[tgid]` exists for every node that can be printed, so the fallback rows never are. */
  lemma NodeHasHeader(t: Table, x: Pid)
    requires Consistent(t) && x in t.forest.inum
    ensures x != 0 && HeadersOf(t.headers, x) != []
  {
    var h :| h in t.headers && h.rep == x;
    assert h in HeadersOf(t.headers, x);
  }

  /** A printed row: the columns of a header, with `prefix` in front of its command. */
  datatype Row = Row(h: Option<Header>, prefix: string)

  /** The row of a header, and the rows of the tree printed right after it. */
  datatype Block = Block(h: Header, prefix: string, below: seq<Row>)

  /** The row of a drawn node shows the last header the node stands for. */
  function RowOf(t: Table, line: Line): Row {
    Row(RepHeader(t.headers, line.node), line.text)
  }

  function RowsFor(t: Table, lines: seq<Line>): (r: seq<Row>)
    ensures |r| == |lines| && forall i :: 0 <= i < |lines| ==> r[i] == RowOf(t, lines[i])
  {
    if lines == [] then [] else RowsFor(t, lines[..|lines| - 1]) + [RowOf(t, lines[|lines| - 1])]
  }

  lemma RowsMore(t: Table, lines: seq<Line>, line: Line)
    ensures RowsFor(t, lines + [line]) == RowsFor(t, lines) + [RowOf(t, line)]
  {
    assert (lines + [line])[..|lines|] == lines;
  }

  lemma PathHasRow(t: Table, p: Path)
    requires Consistent(t) && IsPath(t.forest, p)
    ensures RepHeader(t.headers, p.node).Some?
  {
    PathBounded(t.forest, p);
    assert p.node in p.Nodes();
    NodeHasHeader(t, p.node);
    var h := HeadersOf(t.headers, p.node)[0];
    assert h in HeadersOf(t.headers, p.node);
    RepHeaderExists(t.headers, p.node, h);
  }

  function PrefixFor(prefixes: map<Pid, string>, h: Header): string {
    if h.rep != 0 && h.rep in prefixes then prefixes[h.rep] else ""
  }

  function Split(t: Table, hs: seq<Header>, orphan: bool): (r: seq<Header>)
    ensures forall h :: h in r ==> h in hs && IsOrphan(t, h) == orphan
  {
    if hs == [] then []
    else
      var h := hs[|hs| - 1];
      var before := Split(t, hs[..|hs| - 1], orphan);
      if IsOrphan(t, h) == orphan then before + [h] else before
  }

  lemma {:induction false} SplitInOrder(t: Table, hs: seq<Header>, orphan: bool)
    ensures Subsequence(Split(t, hs, orphan), hs)
  {
    if hs == [] {
      SubsequenceEmpty(hs);
    } else {
      var init, h := hs[..|hs| - 1], hs[|hs| - 1];
      assert init + [h] == hs;
      SplitInOrder(t, init, orphan);
      SubsequenceMore(Split(t, init, orphan), init, h);
    }
  }

  // What the rows should be, without the tables they are looked up in.

  /** In front of a command stands the drawing of its representative's walk, and nothing if that is a root or on no walk. */
  ghost predicate RightPrefix(f: Forest, x: Pid, prefix: string) {
    && (forall q :: IsPath(f, q) && q.Below? && q.node == x ==>
                      q.Extends(q.Ancestor(0)) && q != q.Ancestor(0) && prefix == Text(Lasts(f, q.Ancestor(0), q)))
    && ((forall q :: IsPath(f, q) && q.node == x ==> !q.Below?) ==> prefix == "")
  }

  lemma PrefixIsRight(t: Table, prefixes: map<Pid, string>, h: Header)
    requires Consistent(t) && PrefixesExact(t.forest, prefixes)
    ensures RightPrefix(t.forest, h.rep, PrefixFor(prefixes, h))
  {
    forall q | IsPath(t.forest, q) && q.Below? && q.node == h.rep
      ensures q.Extends(q.Ancestor(0)) && q != q.Ancestor(0) && PrefixFor(prefixes, h) == Text(Lasts(t.forest, q.Ancestor(0), q))
    {
      PathHasRow(t, q);
      assert DrawnFor(t.forest, q, Line(q.node, prefixes[q.node]));
    }
  }

  /** A representative on a walk from a root whose own parent is alive but represents nothing. */
  ghost predicate BelowOrphan(f: Forest, raw: map<Pid, Pid>, x: Pid) {
    exists q :: IsPath(f, q) && q.node == x && q.Ancestor(0).node in raw && raw[q.Ancestor(0).node] > 0 && raw[q.Ancestor(0).node] !in f.inum
  }

  lemma OrphanIsBelow(t: Table, raw: map<Pid, Pid>, h: Header)
    requires Consistent(t) && OrphansExact(t, raw)
    ensures IsOrphan(t, h) <==> BelowOrphan(t.forest, raw, h.rep)
  {
    if h.rep in t.orphans {
      var q :| IsPath(t.forest, q) && q.node == h.rep && OrphanRoot(t.forest, raw, q.Ancestor(0).node);
      PathHasRow(t, q);
    }
    if q :| IsPath(t.forest, q) && q.node == h.rep && q.Ancestor(0).node in raw && raw[q.Ancestor(0).node] > 0 && raw[q.Ancestor(0).node] !in t.forest.inum {
      PathHasRow(t, q);
      assert OrphanRoot(t.forest, raw, q.Ancestor(0).node);
    }
  }

  /** One row for each walk below `q`, in order. */
  ghost predicate TreeRows(t: Table, q: Path, rows: seq<Row>)
    requires IsPath(t.forest, q)
  {
    && |rows| == |Visits(t.forest, q, 0)|
    && forall i :: 0 <= i < |rows| ==> RowIs(t, q, Visits(t.forest, q, 0)[i], rows[i])
  }

  /** The row shows the last header of the walk's end, which always exists, and the drawing of the walk from `q` on. */
  ghost predicate RowIs(t: Table, q: Path, w: Path, row: Row) {
    && IsPath(t.forest, w) && w.Extends(q) && w != q
    && row.h.Some? && row == Row(RepHeader(t.headers, w.node), Text(Lasts(t.forest, q, w)))
  }

  /** The rows below an orphan are its walks in order; the two other kinds of row in the source never are printed. */
  lemma RowsBelow(t: Table, q: Path)
    requires Consistent(t) && IsPath(t.forest, q)
    ensures TreeRows(t, q, RowsFor(t, Draw(t.forest, q, "", 0)))
  {
    DrawSpells(t.forest, q, "", 0);
    var lines, walks := Draw(t.forest, q, "", 0), Visits(t.forest, q, 0);
    forall i | 0 <= i < |lines| ensures RowIs(t, q, walks[i], RowsFor(t, lines)[i]) {
      assert Spells(t.forest, q, "", walks[i], lines[i]);
      assert "" + Text(Lasts(t.forest, q, walks[i])) == Text(Lasts(t.forest, q, walks[i]));
      PathHasRow(t, walks[i]);
    }
  }

  ghost predicate PlainBlock(prefixes: map<Pid, string>, h: Header, b: Block) {
    b == Block(h, PrefixFor(prefixes, h), [])
  }

  /** Under an orphan header comes the drawing below its representative, starting afresh at column 0. */
  ghost predicate OrphanBlock(t: Table, prefixes: map<Pid, string>, h: Header, b: Block) {
    && b.h == h && b.prefix == PrefixFor(prefixes, h)
    && exists q :: IsPath(t.forest, q) && q.node == h.rep && b.below == RowsFor(t, Draw(t.forest, q, "", 0))
  }

  ghost predicate PlainBlocks(prefixes: map<Pid, string>, hs: seq<Header>, bs: seq<Block>) {
    |bs| == |hs| && forall i :: 0 <= i < |hs| ==> PlainBlock(prefixes, hs[i], bs[i])
  }

  ghost predicate OrphanBlocks(t: Table, prefixes: map<Pid, string>, hs: seq<Header>, bs: seq<Block>) {
    |bs| == |hs| && forall i :: 0 <= i < |hs| ==> OrphanBlock(t, prefixes, hs[i], bs[i])
  }

  function InumOrder(): (Header, Header) -> bool {
    (a: Header, b: Header) => a.inum <= b.inum
  }

  lemma {:induction false} SplitCovers(t: Table, hs: seq<Header>)
    ensures multiset(hs) == multiset(Split(t, hs, false)) + multiset(Split(t, hs, true))
  {
    if hs != [] {
      assert hs == hs[..|hs| - 1] + [hs[|hs| - 1]];
      SplitCovers(t, hs[..|hs| - 1]);
    }
  }

  function BlockHeaders(bs: seq<Block>): (r: seq<Header>)
    ensures |r| == |bs| && forall i :: 0 <= i < |r| ==> r[i] == bs[i].h
  {
    seq(|bs|, i requires 0 <= i < |bs| => bs[i].h)
  }

  /**
   Text mode prints every header as a row of its own exactly once, orphans last and in
   order of their namespace number; the drawings below orphans only add rows.
   */
  lemma EveryHeaderPrinted(t: Table, prefixes: map<Pid, string>, sorted: seq<Header>, plain: seq<Block>, orphans: seq<Block>)
    requires PlainBlocks(prefixes, Split(t, t.headers, false), plain)
    requires SortedPermutation(sorted, Split(t, t.headers, true), InumOrder())
    requires OrphanBlocks(t, prefixes, sorted, orphans)
    ensures multiset(BlockHeaders(plain + orphans)) == multiset(t.headers)
    ensures forall h :: h in t.headers ==> h in BlockHeaders(plain + orphans)
  {
    PlainHeaders(prefixes, Split(t, t.headers, false), plain);
    OrphanHeaders(t, prefixes, sorted, orphans);
    assert BlockHeaders(plain + orphans) == BlockHeaders(plain) + BlockHeaders(orphans);
    SplitCovers(t, t.headers);
    PermutationKeeps(t.headers, BlockHeaders(plain + orphans));
  }

  lemma PlainHeaders(prefixes: map<Pid, string>, hs: seq<Header>, bs: seq<Block>)
    requires PlainBlocks(prefixes, hs, bs)
    ensures BlockHeaders(bs) == hs
  {
  }

  lemma OrphanHeaders(t: Table, prefixes: map<Pid, string>, hs: seq<Header>, bs: seq<Block>)
    requires OrphanBlocks(t, prefixes, hs, bs)
    ensures BlockHeaders(bs) == hs
  {
    forall i | 0 <= i < |hs| ensures BlockHeaders(bs)[i] == hs[i] {
      assert OrphanBlock(t, prefixes, hs[i], bs[i]);
    }
  }

  lemma OrphanBlocksMore(t: Table, prefixes: map<Pid, string>, hs: seq<Header>, bs: seq<Block>, h: Header, b: Block)
    requires OrphanBlocks(t, prefixes, hs, bs) && OrphanBlock(t, prefixes, h, b)
    ensures OrphanBlocks(t, prefixes, hs + [h], bs + [b])
  {
    forall i | 0 <= i < |hs + [h]| ensures OrphanBlock(t, prefixes, (hs + [h])[i], (bs + [b])[i]) {
      if i < |hs| {
        assert OrphanBlock(t, prefixes, hs[i], bs[i]);
      }
    }
  }

  /** Standard output in text mode; `below` collects the tree rows under the current orphan header. */
  class TextPrinter {
    const t: Table
    var below: seq<Row>
    ghost var lines: seq<Line>

    ghost predicate Valid()
      reads this
    {
      below == RowsFor(t, lines)
    }

    constructor (t: Table)
      ensures Valid() && this.t == t
    {
      this.t := t;
      below, lines := [], [];
    }

    method PrintRow(line: Line)
      requires Valid()
      modifies this`below, this`lines
      ensures Valid() && lines == old(lines) + [line]
    {
      RowsMore(t, lines, line);
      below := below + [RowOf(t, line)];
      lines := lines + [line];
    }

    /** `print_orphan_node`: it passes `isLast` down where `build_prefix` passes the finished prefix. */
    method PrintOrphanNode(tgid: Pid, prefix: string, isLast: bool, ghost q: Path)
      requires Valid() && IsPath(t.forest, q) && q.node == tgid && q.Depth() < |t.forest.inum|
      modifies this`below, this`lines
      ensures Valid()
      ensures lines == DrawOnto(t.forest, q, prefix + Gap(isLast), 0, old(lines) + [Line(tgid, prefix + Branch(isLast))])
      decreases |t.forest.inum| - q.Depth(), 0
    {
      PrintRow(Line(tgid, prefix + Branch(isLast)));
      PrintChildren(tgid, prefix + Gap(isLast), q);
    }

    /** The loop over the children of a node, with the prefix they share. */
    method PrintChildren(tgid: Pid, prefix: string, ghost q: Path)
      requires Valid() && IsPath(t.forest, q) && q.node == tgid && q.Depth() < |t.forest.inum|
      modifies this`below, this`lines
      ensures Valid() && lines == DrawOnto(t.forest, q, prefix, 0, old(lines))
      decreases |t.forest.inum| - q.Depth() - 1, 1
    {
      var ch := t.forest.Kids(tgid);
      ghost var goal := DrawOnto(t.forest, q, prefix, 0, lines);
      for i := 0 to |ch|
        invariant Valid() && DrawOnto(t.forest, q, prefix, i, lines) == goal
      {
        PrintOrphanNode(ch[i], prefix, i + 1 == |ch|, Child(t.forest, q, i));
      }
    }

    method PrintBelow(h: Header, ghost q: Path)
      requires IsPath(t.forest, q) && q.node == h.rep
      modifies this`below, this`lines
      ensures Valid() && lines == Draw(t.forest, q, "", 0)
    {
      below, lines := [], [];
      PathBounded(t.forest, q);
      PrintChildren(h.rep, "", q);
      DrawOntoAppends(t.forest, q, "", 0, []);
    }

    method PrintOrphan(prefixes: map<Pid, string>, h: Header) returns (b: Block)
      requires Consistent(t) && IsOrphan(t, h)
      modifies this`below, this`lines
      ensures OrphanBlock(t, prefixes, h, b)
    {
      ghost var q :| IsPath(t.forest, q) && q.node == h.rep;
      PrintBelow(h, q);
      b := Block(h, PrefixFor(prefixes, h), below);
    }

    method PrintPlain(prefixes: map<Pid, string>) returns (plain: seq<Block>, orphanHeaders: seq<Header>)
      ensures PlainBlocks(prefixes, Split(t, t.headers, false), plain)
      ensures orphanHeaders == Split(t, t.headers, true)
    {
      plain, orphanHeaders := [], [];
      for i := 0 to |t.headers|
        invariant PlainBlocks(prefixes, Split(t, t.headers[..i], false), plain)
        invariant orphanHeaders == Split(t, t.headers[..i], true)
      {
        assert t.headers[..i + 1][..i] == t.headers[..i];
        var h := t.headers[i];
        if IsOrphan(t, h) {
          orphanHeaders := orphanHeaders + [h];
        } else {
          plain := plain + [Block(h, PrefixFor(prefixes, h), [])];
        }
      }
      assert t.headers[..|t.headers|] == t.headers;
    }

    method PrintTable(prefixes: map<Pid, string>) returns (plain: seq<Block>, orphans: seq<Block>, sorted: seq<Header>)
      requires Consistent(t)
      modifies this`below, this`lines
      ensures PlainBlocks(prefixes, Split(t, t.headers, false), plain)
      ensures SortedPermutation(sorted, Split(t, t.headers, true), InumOrder())
      ensures OrphanBlocks(t, prefixes, sorted, orphans)
      ensures multiset(BlockHeaders(plain + orphans)) == multiset(t.headers)
    {
      var orphanHeaders;
      plain, orphanHeaders := PrintPlain(prefixes);
      sorted := Sort(orphanHeaders, InumOrder());
      PermutationKeeps(orphanHeaders, sorted);
      orphans := PrintOrphans(prefixes, sorted);
      EveryHeaderPrinted(t, prefixes, sorted, plain, orphans);
    }

    method PrintOrphans(prefixes: map<Pid, string>, sorted: seq<Header>) returns (orphans: seq<Block>)
      requires Consistent(t) && forall h :: h in sorted ==> IsOrphan(t, h)
      modifies this`below, this`lines
      ensures OrphanBlocks(t, prefixes, sorted, orphans)
    {
      orphans := [];
      for i := 0 to |sorted|
        invariant OrphanBlocks(t, prefixes, sorted[..i], orphans)
      {
        assert sorted[i] in sorted;
        var b := PrintOrphan(prefixes, sorted[i]);
        OrphanBlocksMore(t, prefixes, sorted[..i], orphans, sorted[i], b);
        Snoc(sorted, i);
        orphans := orphans + [b];
      }
      assert sorted[..|sorted|] == sorted;
    }
  }
}
