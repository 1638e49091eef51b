/**
 The two modes of `lsns` from end to end: from the headers and what /proc said about their
 representatives to what is printed, for any order of the hash tables in between.
 */
module Lsns {
  import opened Seqs
  import opened NsForest
  import opened NsTable
  import opened NsEmit
  import opened NsJson
  import opened Json

  /** An order in which a hash table may give the representatives. */
  ghost predicate RepOrder(headers: seq<Header>, order: seq<Pid>) {
    NoDup(order) && forall x :: x in order <==> x in RepInum(headers)
  }

  /** An order in which a hash table may give those without a parent. */
  ghost predicate RootOrder(headers: seq<Header>, raw: map<Pid, Pid>, order: seq<Pid>) {
    NoDup(order) && forall x :: x in order <==> x in RepInum(headers) && x !in RepParents(RepInum(headers), raw)
  }

  /**
   What text mode prints: every header once as a row of its own with the drawing of its place in
   the forest, first those that hang below no orphan, in table order, then the others by namespace
   number, each followed by the rows of the walks below it.
   */
  ghost predicate TextPrinted(t: Table, raw: map<Pid, Pid>, plain: seq<Block>, orphans: seq<Block>) {
    && multiset(BlockHeaders(plain + orphans)) == multiset(t.headers)
    && (forall b :: b in plain || b in orphans ==> RightPrefix(t.forest, b.h.rep, b.prefix))
    && (forall b :: b in plain ==> !BelowOrphan(t.forest, raw, b.h.rep) && b.below == [])
    && (forall b :: b in orphans ==> BelowOrphan(t.forest, raw, b.h.rep) && TreeBelow(t, b))
    && Subsequence(BlockHeaders(plain), t.headers)
    && (forall i, j :: 0 <= i < j < |orphans| ==> orphans[i].h.inum <= orphans[j].h.inum)
  }

  /** One row for each walk below the block's representative, with the header and the drawing it should have. */
  ghost predicate TreeBelow(t: Table, b: Block) {
    exists q :: IsPath(t.forest, q) && q.node == b.h.rep && TreeRows(t, q, b.below)
  }

  lemma OrphanTree(t: Table, prefixes: map<Pid, string>, h: Header, b: Block)
    requires Consistent(t) && OrphanBlock(t, prefixes, h, b)
    ensures TreeBelow(t, b)
  {
    var q :| IsPath(t.forest, q) && q.node == h.rep && b.below == RowsFor(t, Draw(t.forest, q, "", 0));
    RowsBelow(t, q);
  }

  lemma PlainRight(t: Table, raw: map<Pid, Pid>, prefixes: map<Pid, string>, plain: seq<Block>)
    requires Consistent(t) && OrphansExact(t, raw) && PrefixesExact(t.forest, prefixes)
    requires PlainBlocks(prefixes, Split(t, t.headers, false), plain)
    ensures forall b :: b in plain ==> RightPrefix(t.forest, b.h.rep, b.prefix)
    ensures forall b :: b in plain ==> !BelowOrphan(t.forest, raw, b.h.rep) && b.below == []
    ensures Subsequence(BlockHeaders(plain), t.headers)
  {
    var hs := Split(t, t.headers, false);
    forall b | b in plain
      ensures RightPrefix(t.forest, b.h.rep, b.prefix) && !BelowOrphan(t.forest, raw, b.h.rep) && b.below == []
    {
      var i :| 0 <= i < |plain| && plain[i] == b;
      assert PlainBlock(prefixes, hs[i], plain[i]) && hs[i] in hs;
      PrefixIsRight(t, prefixes, hs[i]);
      OrphanIsBelow(t, raw, hs[i]);
    }
    PlainHeaders(prefixes, hs, plain);
    SplitInOrder(t, t.headers, false);
  }

  lemma OrphansRight(t: Table, raw: map<Pid, Pid>, prefixes: map<Pid, string>, sorted: seq<Header>, orphans: seq<Block>)
    requires Consistent(t) && OrphansExact(t, raw) && PrefixesExact(t.forest, prefixes)
    requires SortedPermutation(sorted, Split(t, t.headers, true), InumOrder()) && OrphanBlocks(t, prefixes, sorted, orphans)
    ensures forall b :: b in orphans ==> RightPrefix(t.forest, b.h.rep, b.prefix)
    ensures forall b :: b in orphans ==> BelowOrphan(t.forest, raw, b.h.rep) && TreeBelow(t, b)
    ensures forall i, j :: 0 <= i < j < |orphans| ==> orphans[i].h.inum <= orphans[j].h.inum
  {
    PermutationKeeps(sorted, Split(t, t.headers, true));
    forall b | b in orphans
      ensures RightPrefix(t.forest, b.h.rep, b.prefix) && BelowOrphan(t.forest, raw, b.h.rep) && TreeBelow(t, b)
    {
      var i :| 0 <= i < |orphans| && orphans[i] == b;
      assert OrphanBlock(t, prefixes, sorted[i], orphans[i]) && sorted[i] in sorted;
      PrefixIsRight(t, prefixes, sorted[i]);
      OrphanIsBelow(t, raw, sorted[i]);
      OrphanTree(t, prefixes, sorted[i], b);
    }
    OrphanHeaders(t, prefixes, sorted, orphans);
    forall i, j | 0 <= i < j < |orphans| ensures orphans[i].h.inum <= orphans[j].h.inum {
      assert BlockHeaders(orphans)[i] == sorted[i] && BlockHeaders(orphans)[j] == sorted[j];
      assert InumOrder()(sorted[i], sorted[j]);
    }
  }

  method TextMode(headers: seq<Header>, order: seq<Pid>, rootOrder: seq<Pid>, raw: map<Pid, Pid>)
    returns (t: Table, plain: seq<Block>, orphans: seq<Block>)
    requires RepOrder(headers, order) && RootOrder(headers, raw, rootOrder) && raw.Keys == RepInum(headers).Keys
    ensures Consistent(t) && OrphansExact(t, raw) && t.headers == headers
    ensures t.forest.inum == RepInum(headers) && t.forest.parent == RepParents(RepInum(headers), raw)
    ensures TextPrinted(t, raw, plain, orphans)
  {
    t := BuildTable(headers, order, raw);
    var prefixMap := new PrefixMap(t.forest);
    prefixMap.BuildAll(rootOrder);
    var prefixes := prefixMap.repPrefix;
    var printer := new TextPrinter(t);
    var sorted;
    plain, orphans, sorted := printer.PrintTable(prefixes);
    PlainRight(t, raw, prefixes, plain);
    OrphansRight(t, raw, prefixes, sorted, orphans);
  }

  /** What JSON mode prints: one JSON text, every namespace once, nested as the parents are. */
  ghost predicate JsonPrinted(t: Table, objs: seq<Obj>, doc: string) {
    && (exists vs :: ParseText(doc) == Ok(Rec([Member("namespaces", Arr(vs))]), []) && Says(objs, vs))
    && DistinctNs(Flat(objs)) && (forall h :: h in t.headers ==> HasNs(Flat(objs), h))
    && (DistinctNs(t.headers) ==> multiset(Flat(objs)) == multiset(t.headers))
    && Nested(t, objs) && TopFresh(t, objs, [])
    && Subsequence(Heads(objs), t.headers) && KidsInOrder(t, objs)
  }

  method JsonMode(headers: seq<Header>, order: seq<Pid>, raw: map<Pid, Pid>)
    returns (t: Table, doc: string, ghost objs: seq<Obj>)
    requires RepOrder(headers, order) && raw.Keys == RepInum(headers).Keys
    requires forall h :: h in headers ==> h.display == DisplayName(h.nsType)
    ensures Consistent(t) && OrphansExact(t, raw) && t.headers == headers
    ensures t.forest.inum == RepInum(headers) && t.forest.parent == RepParents(RepInum(headers), raw)
    ensures JsonPrinted(t, objs, doc)
  {
    t := BuildTable(headers, order, raw);
    var printer := new JsonPrinter(t);
    forall i | 0 <= i < |order| ensures order[i] in RepInum(t.headers) {
      assert order[i] in order;
    }
    doc := printer.PrintDocument(order);
    objs := EmitList(t, t.headers, {}).objs;
    DocumentCorrect(t);
    ValuesSay(objs);
    NestsWhatItCan(t);
    EmitInOrder(t, t.headers, {});
  }
}
