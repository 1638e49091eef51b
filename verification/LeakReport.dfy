/**
 The report of outstanding allocations of `kmemleak`: one pass over the allocation map that
 groups entries by call stack, a sort by size, the top stacks, and a clean-up that gives back
 every list node on every way out.
 */
module LeakReport {
  import opened Seqs
  import opened Basics
  import opened BpfMaps
  import opened Heap

  function Wrap(x: int): U64 {
    x % 0x1_0000_0000_0000_0000
  }

  datatype Info = Info(stackId: int, size: U64, timestamp: U64)

  /** What looking up a key gives: its value and the clock right after, or one of the two failures. */
  datatype Lookup = Found(info: Info, now: U64) | Gone | Failed

  datatype Alloc = Alloc(address: U64, stackId: nat, size: U64)

  /** Old enough, and with a valid stack. The age test is done in unsigned arithmetic. */
  predicate Accepts(info: Info, now: U64, minAge: int) {
    Wrap(now - minAge) >= info.timestamp && info.stackId >= 0
  }

  /** The entries that reach the grouping, in the order they are met. */
  function Accepted(keys: seq<U64>, look: U64 -> Lookup, minAge: int): seq<Alloc> {
    if keys == [] then []
    else
      var before, k := Accepted(keys[..|keys| - 1], look, minAge), keys[|keys| - 1];
      match look(k)
      case Found(info, now) =>
        if Accepts(info, now, minAge) then before + [Alloc(k, info.stackId, info.size)] else before
      case _ => before
  }

  /** The age test in plain arithmetic: as meant for an age up to the clock, and what it wraps to beyond that. */
  predicate OldEnough(timestamp: U64, now: U64, minAge: int) {
    if 0 <= minAge <= now then timestamp + minAge <= now
    else if minAge > now then timestamp + minAge <= now + 0x1_0000_0000_0000_0000
    else if now - minAge < 0x1_0000_0000_0000_0000 then timestamp <= now - minAge
    else timestamp + 0x1_0000_0000_0000_0000 <= now - minAge
  }

  lemma AcceptsExact(info: Info, now: U64, minAge: int)
    requires -0x8000_0000 <= minAge < 0x8000_0000
    ensures Accepts(info, now, minAge) <==> info.stackId >= 0 && OldEnough(info.timestamp, now, minAge)
  {
    var m := 0x1_0000_0000_0000_0000;
    if minAge > now {
      WrapUnique(now - minAge, -1, now - minAge + m);
    } else if now - minAge >= m {
      WrapUnique(now - minAge, 1, now - minAge - m);
    } else {
      WrapUnique(now - minAge, 0, now - minAge);
    }
  }

  /** Exactly the entries that are found, have a valid stack and are old enough are accepted, with what was found of them. */
  lemma {:induction false} AcceptedExact(keys: seq<U64>, look: U64 -> Lookup, minAge: int, e: Alloc)
    requires -0x8000_0000 <= minAge < 0x8000_0000
    ensures e in Accepted(keys, look, minAge) <==>
            && e.address in keys && look(e.address).Found?
            && var info := look(e.address).info;
               && info.stackId >= 0 && e.stackId == info.stackId && e.size == info.size
               && OldEnough(info.timestamp, look(e.address).now, minAge)
  {
    if keys != [] {
      var k := keys[|keys| - 1];
      Snoc(keys, |keys| - 1);
      AcceptedExact(keys[..|keys| - 1], look, minAge, e);
      if look(k).Found? {
        AcceptsExact(look(k).info, look(k).now, minAge);
      }
    }
  }

  const AddressOf := (e: Alloc) => e.address

  /** They come in the order of the keys, and no key gives two of them. */
  lemma {:induction false} AcceptedInOrder(keys: seq<U64>, look: U64 -> Lookup, minAge: int)
    ensures Subsequence(Map(AddressOf, Accepted(keys, look, minAge)), keys)
  {
    if keys == [] {
      SubsequenceEmpty(keys);
    } else {
      var init, k := keys[..|keys| - 1], keys[|keys| - 1];
      assert init + [k] == keys;
      AcceptedInOrder(init, look, minAge);
      var before := Accepted(init, look, minAge);
      SubsequenceMore(Map(AddressOf, before), init, k);
      if look(k).Found? && Accepts(look(k).info, look(k).now, minAge) {
        var e := Alloc(k, look(k).info.stackId, look(k).info.size);
        assert Map(AddressOf, before + [e]) == Map(AddressOf, before) + [k];
        assert Accepted(keys, look, minAge) == before + [e];
      }
    }
  }

  ghost predicate NoneFailed(keys: seq<U64>, look: U64 -> Lookup) {
    forall k :: k in keys ==> look(k) != Failed
  }

  // ---------------------------------------------------------------- list nodes and memory

  /** A singly linked list of nodes; `ptr` is the block that malloc returned for the node. */
  datatype List = Null | Node(ptr: nat, address: U64, size: U64, next: List)

  function Ptrs(l: List): multiset<nat> {
    match l
    case Null => multiset{}
    case Node(p, _, _, next) => multiset{p} + Ptrs(next)
  }

  function Contents(l: List): seq<(U64, U64)> {
    match l
    case Null => []
    case Node(_, a, s, next) => [(a, s)] + Contents(next)
  }

  datatype Group = Group(stackId: nat, size: U64, count: nat, nodes: List)

  function AllPtrs(gs: seq<Group>): multiset<nat> {
    if gs == [] then multiset{} else Ptrs(gs[0].nodes) + AllPtrs(gs[1..])
  }

  lemma {:induction false} AllPtrsConcat(a: seq<Group>, b: seq<Group>)
    ensures AllPtrs(a + b) == AllPtrs(a) + AllPtrs(b)
  {
    if a == [] {
      assert a + b == b;
    } else {
      assert (a + b)[1..] == a[1..] + b;
      AllPtrsConcat(a[1..], b);
    }
  }

  lemma {:induction false} AllPtrsAt(gs: seq<Group>, i: nat)
    requires i < |gs|
    ensures AllPtrs(gs) == AllPtrs(gs[..i] + gs[i + 1..]) + Ptrs(gs[i].nodes)
  {
    assert gs == gs[..i] + gs[i..] && gs[i..][1..] == gs[i + 1..];
    AllPtrsConcat(gs[..i], gs[i..]);
    AllPtrsConcat(gs[..i], gs[i + 1..]);
  }

  /** Sorting the groups moves no node in or out. */
  lemma {:induction false} AllPtrsPermuted(a: seq<Group>, b: seq<Group>)
    requires multiset(a) == multiset(b)
    ensures AllPtrs(a) == AllPtrs(b)
  {
    assert |multiset(a)| == |a| && |multiset(b)| == |b|;
    if a != [] {
      var k := HeadPosition(a, b);
      var rest := b[..k] + b[k + 1..];
      AllPtrsPermuted(a[1..], rest);
      AllPtrsAt(b, k);
    }
  }

  // ---------------------------------------------------------------- grouping

  /** The position of the group for a stack, or the number of groups if there is none. */
  function GroupOf(gs: seq<Group>, stackId: nat): (i: nat)
    ensures i <= |gs|
    ensures i < |gs| ==> gs[i].stackId == stackId
    ensures forall j :: 0 <= j < i ==> gs[j].stackId != stackId
  {
    if gs == [] || gs[0].stackId == stackId then 0 else 1 + GroupOf(gs[1..], stackId)
  }

  function SizeOf(es: seq<Alloc>, stackId: nat): nat {
    if es == [] then 0
    else SizeOf(es[..|es| - 1], stackId) + (if es[|es| - 1].stackId == stackId then es[|es| - 1].size else 0)
  }

  function CountOf(es: seq<Alloc>, stackId: nat): nat {
    if es == [] then 0
    else CountOf(es[..|es| - 1], stackId) + (if es[|es| - 1].stackId == stackId then 1 else 0)
  }

  /** Addresses and sizes of the entries with a stack, newest first. */
  function EntriesOf(es: seq<Alloc>, stackId: nat): seq<(U64, U64)> {
    if es == [] then []
    else
      var before, e := EntriesOf(es[..|es| - 1], stackId), es[|es| - 1];
      if e.stackId == stackId then [(e.address, e.size)] + before else before
  }

  /** The groups are the right summary of the entries seen so far. */
  ghost predicate Summarizes(gs: seq<Group>, es: seq<Alloc>, showAllocs: bool) {
    && (forall i, j :: 0 <= i < j < |gs| ==> gs[i].stackId != gs[j].stackId)
    && (forall i :: 0 <= i < |gs| ==> SummaryOf(gs[i], es, showAllocs))
    && (forall sid: nat :: CountOf(es, sid) > 0 ==> GroupOf(gs, sid) < |gs|)
  }

  ghost predicate SummaryOf(g: Group, es: seq<Alloc>, showAllocs: bool) {
    && g.size == Wrap(SizeOf(es, g.stackId))
    && g.count == CountOf(es, g.stackId) && g.count > 0
    && Contents(g.nodes) == if showAllocs then EntriesOf(es, g.stackId) else []
  }

  lemma WrapAdd(a: nat, b: nat)
    ensures Wrap(Wrap(a) + b) == Wrap(a + b)
  {
    WrapUnique(a, a / 0x1_0000_0000_0000_0000, Wrap(a));
    var q, r := (Wrap(a) + b) / 0x1_0000_0000_0000_0000, Wrap(Wrap(a) + b);
    WrapUnique(Wrap(a) + b, q, r);
    WrapUnique(a + b, a / 0x1_0000_0000_0000_0000 + q, r);
  }

  lemma WrapUnique(a: int, q: int, r: U64)
    requires a == q * 0x1_0000_0000_0000_0000 + r
    ensures Wrap(a) == r
  {
  }

  /** What one more entry does to the group of its own stack, and to every other. */
  lemma SummaryMore(es: seq<Alloc>, e: Alloc, sid: nat)
    ensures SizeOf(es + [e], sid) == SizeOf(es, sid) + (if e.stackId == sid then e.size else 0)
    ensures CountOf(es + [e], sid) == CountOf(es, sid) + (if e.stackId == sid then 1 else 0)
    ensures EntriesOf(es + [e], sid) == (if e.stackId == sid then [(e.address, e.size)] + EntriesOf(es, sid) else EntriesOf(es, sid))
  {
    assert (es + [e])[..|es|] == es;
  }

  lemma {:induction false} NothingOf(es: seq<Alloc>, sid: nat)
    requires CountOf(es, sid) == 0
    ensures SizeOf(es, sid) == 0 && EntriesOf(es, sid) == []
  {
    if es != [] {
      NothingOf(es[..|es| - 1], sid);
    }
  }

  /** The group after adding `e` to it; `node` is the new list node, if lists are kept. */
  function Grown(g: Group, e: Alloc, nodes: List): Group {
    Group(g.stackId, Wrap(g.size + e.size), g.count + 1, nodes)
  }

  lemma GrownSummary(g: Group, es: seq<Alloc>, e: Alloc, nodes: List, showAllocs: bool)
    requires SummaryOf(g, es, showAllocs) && g.stackId == e.stackId
    requires Contents(nodes) == if showAllocs then [(e.address, e.size)] + Contents(g.nodes) else []
    ensures SummaryOf(Grown(g, e, nodes), es + [e], showAllocs)
  {
    SummaryMore(es, e, e.stackId);
    WrapAdd(SizeOf(es, e.stackId), e.size);
  }

  lemma OtherSummary(g: Group, es: seq<Alloc>, e: Alloc, showAllocs: bool)
    requires SummaryOf(g, es, showAllocs) && g.stackId != e.stackId
    ensures SummaryOf(g, es + [e], showAllocs)
  {
    SummaryMore(es, e, g.stackId);
  }

  lemma NewSummary(es: seq<Alloc>, e: Alloc, nodes: List, showAllocs: bool)
    requires CountOf(es, e.stackId) == 0
    requires Contents(nodes) == if showAllocs then [(e.address, e.size)] else []
    ensures SummaryOf(Group(e.stackId, e.size, 1, nodes), es + [e], showAllocs)
  {
    SummaryMore(es, e, e.stackId);
    NothingOf(es, e.stackId);
  }

  lemma AllPtrsUpdate(gs: seq<Group>, i: nat, g: Group)
    requires i < |gs|
    ensures AllPtrs(gs[i := g]) + Ptrs(gs[i].nodes) == AllPtrs(gs) + Ptrs(g.nodes)
  {
    AllPtrsAt(gs, i);
    AllPtrsAt(gs[i := g], i);
    assert gs[i := g][..i] == gs[..i] && gs[i := g][i + 1..] == gs[i + 1..];
  }

  lemma AllPtrsPushed(gs: seq<Group>, i: nat, g: Group)
    requires i < |gs|
    ensures g.nodes == gs[i].nodes ==> AllPtrs(gs[i := g]) == AllPtrs(gs)
    ensures g.nodes.Node? && g.nodes.next == gs[i].nodes ==> AllPtrs(gs[i := g]) == AllPtrs(gs) + multiset{g.nodes.ptr}
  {
    AllPtrsUpdate(gs, i, g);
    if g.nodes == gs[i].nodes {
      Cancel(AllPtrs(gs[i := g]), AllPtrs(gs), Ptrs(g.nodes));
    } else if g.nodes.Node? && g.nodes.next == gs[i].nodes {
      assert AllPtrs(gs) + Ptrs(g.nodes) == AllPtrs(gs) + multiset{g.nodes.ptr} + Ptrs(gs[i].nodes);
      Cancel(AllPtrs(gs[i := g]), AllPtrs(gs) + multiset{g.nodes.ptr}, Ptrs(gs[i].nodes));
    }
  }

  lemma Cancel(a: multiset<nat>, b: multiset<nat>, c: multiset<nat>)
    requires a + c == b + c
    ensures a == b
  {
    assert a == (a + c) - c && b == (b + c) - c;
  }

  lemma TakeOut(keep: multiset<nat>, p: nat, rest: multiset<nat>)
    ensures keep + (multiset{p} + rest) - multiset{p} == keep + rest
  {
  }

  lemma AllPtrsAppend(gs: seq<Group>, g: Group)
    ensures AllPtrs(gs + [g]) == AllPtrs(gs) + Ptrs(g.nodes)
  {
    AllPtrsConcat(gs, [g]);
    assert [g][1..] == [];
  }

  lemma AllPtrsAdded(gs: seq<Group>, g: Group)
    ensures g.nodes == Null ==> AllPtrs(gs + [g]) == AllPtrs(gs)
    ensures g.nodes.Node? && g.nodes.next == Null ==> AllPtrs(gs + [g]) == AllPtrs(gs) + multiset{g.nodes.ptr}
  {
    AllPtrsAppend(gs, g);
    if g.nodes.Node? && g.nodes.next == Null {
      assert Ptrs(g.nodes) == multiset{g.nodes.ptr};
    }
  }

  lemma GrowOne(gs: seq<Group>, i: nat, es: seq<Alloc>, e: Alloc, nodes: List, showAllocs: bool)
    requires Summarizes(gs, es, showAllocs) && i < |gs| && gs[i].stackId == e.stackId
    requires showAllocs ==> Contents(nodes) == [(e.address, e.size)] + Contents(gs[i].nodes)
    requires !showAllocs ==> nodes == gs[i].nodes
    ensures Summarizes(gs[i := Grown(gs[i], e, nodes)], es + [e], showAllocs)
  {
    var now := gs[i := Grown(gs[i], e, nodes)];
    assert SummaryOf(gs[i], es, showAllocs);
    GrownSummary(gs[i], es, e, nodes, showAllocs);
    forall j | 0 <= j < |now| && j != i ensures SummaryOf(now[j], es + [e], showAllocs) {
      OtherSummary(gs[j], es, e, showAllocs);
    }
    forall sid: nat | CountOf(es + [e], sid) > 0 ensures GroupOf(now, sid) < |now| {
      SummaryMore(es, e, sid);
      var k := if sid == e.stackId then i else GroupOf(gs, sid);
      assert now[k].stackId == sid;
    }
  }

  lemma AddOne(gs: seq<Group>, es: seq<Alloc>, e: Alloc, nodes: List, showAllocs: bool)
    requires Summarizes(gs, es, showAllocs) && GroupOf(gs, e.stackId) == |gs|
    requires Contents(nodes) == if showAllocs then [(e.address, e.size)] else []
    ensures Summarizes(gs + [Group(e.stackId, e.size, 1, nodes)], es + [e], showAllocs)
  {
    var now := gs + [Group(e.stackId, e.size, 1, nodes)];
    forall j | 0 <= j < |now| ensures SummaryOf(now[j], es + [e], showAllocs) {
      if j == |gs| {
        NewSummary(es, e, nodes, showAllocs);
      } else {
        OtherSummary(gs[j], es, e, showAllocs);
      }
    }
    forall sid: nat | CountOf(es + [e], sid) > 0 ensures GroupOf(now, sid) < |now| {
      SummaryMore(es, e, sid);
      var k := if sid == e.stackId then |gs| else GroupOf(gs, sid);
      assert now[k].stackId == sid;
    }
  }

  /** A reordering of a right summary is a right summary. */
  lemma SummarizesPermuted(a: seq<Group>, b: seq<Group>, es: seq<Alloc>, showAllocs: bool)
    requires Summarizes(a, es, showAllocs) && multiset(a) == multiset(b)
    ensures Summarizes(b, es, showAllocs)
  {
    PermutationKeeps(a, b);
    StackIdsPermuted(a, b);
    forall i | 0 <= i < |b| ensures SummaryOf(b[i], es, showAllocs) {
      assert b[i] in a;
    }
    forall sid: nat | CountOf(es, sid) > 0 ensures GroupOf(b, sid) < |b| {
      var g := a[GroupOf(a, sid)];
      assert g in b;
      var k :| 0 <= k < |b| && b[k] == g;
    }
  }

  lemma StackIdsPermuted(a: seq<Group>, b: seq<Group>)
    requires forall i, j :: 0 <= i < j < |a| ==> a[i].stackId != a[j].stackId
    requires multiset(a) == multiset(b)
    ensures forall i, j :: 0 <= i < j < |b| ==> b[i].stackId != b[j].stackId
  {
    var id := (g: Group) => g.stackId;
    var ka, kb := Map(id, a), Map(id, b);
    MapMultiset(id, a, b);
    PermutationKeeps(ka, kb);
    forall i, j | 0 <= i < j < |b| ensures b[i].stackId != b[j].stackId {
      assert kb[i] != kb[j];
    }
  }

  // Conservation: every accepted entry is counted in exactly one group.

  function TotalCount(gs: seq<Group>): nat {
    if gs == [] then 0 else gs[0].count + TotalCount(gs[1..])
  }

  /** How many entries have one of the groups' stacks. */
  function Covered(es: seq<Alloc>, gs: seq<Group>): nat {
    if es == [] then 0
    else Covered(es[..|es| - 1], gs) + (if GroupOf(gs, es[|es| - 1].stackId) < |gs| then 1 else 0)
  }

  lemma {:induction false} CoveredSplit(es: seq<Alloc>, gs: seq<Group>)
    requires gs != [] && GroupOf(gs[1..], gs[0].stackId) == |gs| - 1
    ensures Covered(es, gs) == CountOf(es, gs[0].stackId) + Covered(es, gs[1..])
  {
    if es != [] {
      CoveredSplit(es[..|es| - 1], gs);
    }
  }

  lemma {:induction false} CoveredAll(es: seq<Alloc>, gs: seq<Group>)
    requires forall sid: nat :: CountOf(es, sid) > 0 ==> GroupOf(gs, sid) < |gs|
    ensures Covered(es, gs) == |es|
  {
    if es != [] {
      var e := es[|es| - 1];
      assert CountOf(es, e.stackId) > 0;
      forall sid: nat | CountOf(es[..|es| - 1], sid) > 0 ensures GroupOf(gs, sid) < |gs| {
        assert CountOf(es, sid) > 0;
      }
      CoveredAll(es[..|es| - 1], gs);
    }
  }

  lemma {:induction false} CoveredNone(es: seq<Alloc>)
    ensures Covered(es, []) == 0
  {
    if es != [] {
      CoveredNone(es[..|es| - 1]);
    }
  }

  lemma {:induction false} TotalIsCovered(gs: seq<Group>, es: seq<Alloc>)
    requires forall i, j :: 0 <= i < j < |gs| ==> gs[i].stackId != gs[j].stackId
    requires forall i :: 0 <= i < |gs| ==> gs[i].count == CountOf(es, gs[i].stackId)
    ensures TotalCount(gs) == Covered(es, gs)
  {
    if gs == [] {
      CoveredNone(es);
    } else {
      TotalIsCovered(gs[1..], es);
      CoveredSplit(es, gs);
    }
  }

  lemma NothingLost(gs: seq<Group>, es: seq<Alloc>, showAllocs: bool)
    requires Summarizes(gs, es, showAllocs)
    ensures TotalCount(gs) == |es|
  {
    forall i | 0 <= i < |gs| ensures gs[i].count == CountOf(es, gs[i].stackId) {
      assert SummaryOf(gs[i], es, showAllocs);
    }
    TotalIsCovered(gs, es);
    CoveredAll(es, gs);
  }

  // There is one group for each stack, which is what decides whether the array is large enough.

  function Stacks(es: seq<Alloc>): set<nat> {
    if es == [] then {} else Stacks(es[..|es| - 1]) + {es[|es| - 1].stackId}
  }

  function Ids(gs: seq<Group>): set<nat> {
    if gs == [] then {} else {gs[0].stackId} + Ids(gs[1..])
  }

  lemma {:induction false} CountedStacks(es: seq<Alloc>, sid: nat)
    ensures sid in Stacks(es) <==> CountOf(es, sid) > 0
  {
    if es != [] {
      CountedStacks(es[..|es| - 1], sid);
    }
  }

  lemma {:induction false} GroupedIds(gs: seq<Group>, sid: nat)
    ensures sid in Ids(gs) <==> GroupOf(gs, sid) < |gs|
  {
    if gs != [] {
      GroupedIds(gs[1..], sid);
    }
  }

  lemma {:induction false} IdsCount(gs: seq<Group>)
    requires forall i, j :: 0 <= i < j < |gs| ==> gs[i].stackId != gs[j].stackId
    ensures |Ids(gs)| == |gs|
  {
    if gs != [] {
      IdsCount(gs[1..]);
      GroupedIds(gs[1..], gs[0].stackId);
    }
  }

  lemma GroupsAreStacks(gs: seq<Group>, es: seq<Alloc>, showAllocs: bool)
    requires Summarizes(gs, es, showAllocs)
    ensures |gs| == |Stacks(es)|
  {
    forall sid: nat ensures sid in Ids(gs) <==> sid in Stacks(es) {
      CountedStacks(es, sid);
      GroupedIds(gs, sid);
      var i := GroupOf(gs, sid);
      assert i < |gs| ==> SummaryOf(gs[i], es, showAllocs);
    }
    assert Ids(gs) == Stacks(es);
    IdsCount(gs);
  }

  lemma {:induction false} StacksGrow(keys: seq<U64>, i: nat, look: U64 -> Lookup, minAge: int)
    requires i <= |keys|
    ensures Stacks(Accepted(keys[..i], look, minAge)) <= Stacks(Accepted(keys, look, minAge))
    decreases |keys|
  {
    if i == |keys| {
      assert keys[..i] == keys;
    } else {
      var init := keys[..|keys| - 1];
      assert keys[..i] == init[..i];
      StacksGrow(init, i, look, minAge);
      if look(keys[|keys| - 1]).Found? {
        var info := look(keys[|keys| - 1]).info;
        if info.stackId >= 0 {
          StacksMore(Accepted(init, look, minAge), Alloc(keys[|keys| - 1], info.stackId, info.size));
        }
      }
    }
  }

  lemma StacksMore(es: seq<Alloc>, e: Alloc)
    ensures Stacks(es + [e]) == Stacks(es) + {e.stackId}
  {
    assert (es + [e])[..|es|] == es;
  }

  /** A stack without a group, when the array is full: there are more stacks than it has room for. */
  lemma TooManyStacks(gs: seq<Group>, es: seq<Alloc>, e: Alloc, showAllocs: bool)
    requires Summarizes(gs, es, showAllocs) && GroupOf(gs, e.stackId) == |gs|
    ensures |Stacks(es + [e])| == |gs| + 1
  {
    GroupsAreStacks(gs, es, showAllocs);
    CountedStacks(es, e.stackId);
    StacksMore(es, e);
  }

  // ---------------------------------------------------------------- the report

  /** The size of the global array. */
  const AllocsMaxEntries := 1000000

  /** How the pass over the map ends; a group written past the array ends what can be said of the program. */
  datatype Exit = Done | Error | PastEnd

  /** The order of alloc_size_compare. */
  const LargerFirst := (x: Group, y: Group) => x.size >= y.size

  /** How many groups are shown; a negative request wraps and so shows them all. */
  function ShowCount(nr: nat, topStacks: int): (n: nat)
    requires nr <= AllocsMaxEntries && -0x8000_0000 <= topStacks < 0x8000_0000
    ensures n == if 0 <= topStacks < nr then topStacks else nr
  {
    if nr < Wrap(topStacks) then nr else Wrap(topStacks)
  }

  /** No group of `hidden` is larger than any of `shown`. */
  ghost predicate NoneLarger(hidden: seq<Group>, shown: seq<Group>) {
    forall g, h :: g in shown && h in hidden ==> g.size >= h.size
  }

  lemma TopIsLargest(sorted: seq<Group>, n: nat)
    requires Sorted(sorted, LargerFirst) && n <= |sorted|
    ensures Sorted(sorted[..n], LargerFirst) && NoneLarger(sorted[n..], sorted[..n])
  {
    forall g, h | g in sorted[..n] && h in sorted[n..] ensures g.size >= h.size {
      var i :| 0 <= i < n && sorted[..n][i] == g;
      var j :| 0 <= j < |sorted| - n && sorted[n..][j] == h;
      assert LargerFirst(sorted[i], sorted[n + j]);
    }
  }

  /** The report promised: all groups right, the largest of them shown in order, as many as asked for. */
  ghost predicate Reports(shown: seq<Group>, hidden: seq<Group>, es: seq<Alloc>, topStacks: int, showAllocs: bool) {
    && Summarizes(shown + hidden, es, showAllocs)
    && TotalCount(shown + hidden) == |es|
    && NoneLarger(hidden, shown)
    && (forall i, j :: 0 <= i < j < |shown| ==> shown[i].size >= shown[j].size)
    && (hidden == [] || |shown| == topStacks) && (0 <= topStacks ==> |shown| <= topStacks)
  }

  lemma ShownReports(sorted: seq<Group>, es: seq<Alloc>, topStacks: int, showAllocs: bool)
    requires Summarizes(sorted, es, showAllocs) && Sorted(sorted, LargerFirst)
    requires |sorted| <= AllocsMaxEntries && -0x8000_0000 <= topStacks < 0x8000_0000
    ensures var n := ShowCount(|sorted|, topStacks); Reports(sorted[..n], sorted[n..], es, topStacks, showAllocs)
  {
    var n := ShowCount(|sorted|, topStacks);
    assert sorted[..n] + sorted[n..] == sorted;
    NothingLost(sorted, es, showAllocs);
    TopIsLargest(sorted, n);
    forall i, j | 0 <= i < j < n ensures sorted[i].size >= sorted[j].size {
      assert LargerFirst(sorted[i], sorted[j]);
    }
  }

  lemma LargerFirstOrders()
    ensures TotalPreorder(LargerFirst)
  {
  }

  /** The first `n` elements are reset: no stack, and no list if lists are kept. */
  ghost predicate Wiped(gs: seq<Group>, n: nat, showAllocs: bool)
    requires n <= |gs|
  {
    forall i :: 0 <= i < n ==> gs[i].stackId == 0 && (showAllocs ==> gs[i].nodes == Null)
  }

  lemma WipedMore(gs: seq<Group>, i: nat, g: Group, showAllocs: bool)
    requires i < |gs| && Wiped(gs, i, showAllocs) && g.stackId == 0 && (showAllocs ==> g.nodes == Null)
    ensures Wiped(gs[i := g], i + 1, showAllocs) && gs[i := g][i + 1..] == gs[i + 1..]
  {
  }

  lemma AllPtrsDrop(gs: seq<Group>, i: nat)
    requires i < |gs|
    ensures AllPtrs(gs[i..]) == Ptrs(gs[i].nodes) + AllPtrs(gs[i + 1..])
  {
    assert gs[i..][1..] == gs[i + 1..];
  }

  class Report {
    const memory: Memory
    const showAllocs: bool
    /** The first `nr_allocs` elements of the global array. */
    var groups: seq<Group>

    ghost predicate Valid()
      reads this, memory
    {
      && memory.Valid()
      && memory.live == AllPtrs(groups)
      && (!showAllocs ==> memory.live == multiset{})
      && |groups| <= AllocsMaxEntries
    }

    constructor (memory: Memory, showAllocs: bool)
      requires memory.Valid() && memory.live == multiset{}
      ensures Valid() && this.memory == memory && this.showAllocs == showAllocs && groups == []
    {
      this.memory, this.showAllocs, groups := memory, showAllocs, [];
    }

    /** A new node in front of `nodes`, when nodes are kept at all. */
    method Push(e: Alloc, nodes: List) returns (ok: bool, r: List)
      requires memory.Valid()
      modifies memory
      ensures memory.Valid()
      ensures !showAllocs ==> ok
      ensures ok && showAllocs ==> r.Node? && r.next == nodes && memory.live == old(memory.live) + multiset{r.ptr}
      ensures ok && showAllocs ==> Contents(r) == [(e.address, e.size)] + Contents(nodes)
      ensures !ok || !showAllocs ==> r == nodes && memory.live == old(memory.live)
      ensures !ok ==> !memory.succeeds(old(memory.calls))
    {
      ok, r := true, nodes;
      if showAllocs {
        var p := memory.Malloc();
        if p.None? {
          return false, nodes;
        }
        r := Node(p.value, e.address, e.size, nodes);
      }
    }

    /** The groups take in one more entry; a failure leaves nothing behind that clean-up would miss. */
    method Enter(e: Alloc, ghost es: seq<Alloc>) returns (exit: Exit)
      requires Valid() && Summarizes(groups, es, showAllocs)
      modifies memory, this`groups
      ensures exit != PastEnd ==> Valid()
      ensures exit == Done ==> Summarizes(groups, es + [e], showAllocs)
      ensures exit == PastEnd ==> |Stacks(es + [e])| > AllocsMaxEntries
      ensures (forall n :: memory.succeeds(n)) ==> exit != Error
    {
      var i := FindGroup(e.stackId);
      if i < |groups| {
        var ok := Grow(e, i, es);
        exit := if ok then Done else Error;
      } else {
        exit := Append(e, es);
      }
    }

    /** The scan of the array for a stack. */
    method FindGroup(stackId: nat) returns (i: nat)
      ensures i == GroupOf(groups, stackId)
    {
      i := 0;
      while i < |groups| && groups[i].stackId != stackId
        invariant i <= |groups| && forall j :: 0 <= j < i ==> groups[j].stackId != stackId
      {
        i := i + 1;
      }
    }

    method Grow(e: Alloc, i: nat, ghost es: seq<Alloc>) returns (ok: bool)
      requires Valid() && Summarizes(groups, es, showAllocs) && i < |groups| && groups[i].stackId == e.stackId
      modifies memory, this`groups
      ensures Valid()
      ensures ok ==> Summarizes(groups, es + [e], showAllocs)
      ensures (forall n :: memory.succeeds(n)) ==> ok
    {
      var nodes;
      ghost var was := groups;
      ok, nodes := Push(e, groups[i].nodes);
      if ok {
        GrowOne(was, i, es, e, nodes, showAllocs);
      }
      AllPtrsPushed(was, i, Grown(was[i], e, nodes));
      groups := groups[i := Grown(groups[i], e, nodes)];
    }

    method Append(e: Alloc, ghost es: seq<Alloc>) returns (exit: Exit)
      requires Valid() && Summarizes(groups, es, showAllocs) && GroupOf(groups, e.stackId) == |groups|
      modifies memory, this`groups
      ensures exit != PastEnd ==> Valid()
      ensures exit == Done ==> Summarizes(groups, es + [e], showAllocs)
      ensures exit == PastEnd ==> |Stacks(es + [e])| > AllocsMaxEntries
      ensures (forall n :: memory.succeeds(n)) ==> exit != Error
    {
      var ok, nodes := Push(e, Null);
      if !ok {
        return Error;
      }
      if |groups| == AllocsMaxEntries {
        TooManyStacks(groups, es, e, showAllocs);
        return PastEnd;
      }
      AddOne(groups, es, e, nodes, showAllocs);
      AllPtrsAdded(groups, Group(e.stackId, e.size, 1, nodes));
      groups := groups + [Group(e.stackId, e.size, 1, nodes)];
      exit := Done;
    }

    method FreeList(l: List)
      requires memory.Valid() && Ptrs(l) <= memory.live
      modifies memory`live
      ensures memory.Valid() && memory.live == old(memory.live) - Ptrs(l)
    {
      var it := l;
      ghost var keep := memory.live - Ptrs(l);
      while it != Null
        invariant memory.Valid() && memory.live == keep + Ptrs(it)
        decreases it
      {
        var tmp := it;
        it := it.next;
        TakeOut(keep, tmp.ptr, Ptrs(it));
        memory.Free(tmp.ptr);
      }
    }

    method Reset(g: Group, ghost others: multiset<nat>) returns (r: Group)
      requires memory.Valid() && (showAllocs ==> memory.live == Ptrs(g.nodes) + others)
      modifies memory`live
      ensures memory.Valid() && memory.live == if showAllocs then others else old(memory.live)
      ensures r.stackId == 0 && (showAllocs ==> r.nodes == Null)
    {
      r := g.(stackId := 0);
      if showAllocs {
        FreeList(g.nodes);
        r := r.(nodes := Null);
      }
    }

    /** Every node is given back, and the array holds nothing of this report. */
    method Cleanup()
      requires Valid()
      modifies memory`live, this`groups
      ensures memory.Valid() && memory.live == multiset{}
      ensures Wiped(groups, |groups|, showAllocs)
    {
      var i := 0;
      while i < |groups|
        invariant i <= |groups| && memory.Valid() && Wiped(groups, i, showAllocs)
        invariant memory.live == if showAllocs then AllPtrs(groups[i..]) else multiset{}
      {
        ghost var was := groups;
        AllPtrsDrop(was, i);
        var g := Reset(groups[i], AllPtrs(was[i + 1..]));
        WipedMore(was, i, g, showAllocs);
        groups := groups[i := g];
        i := i + 1;
      }
    }

    /** The groups are the right summary of the keys visited so far. */
    ghost predicate Collected(before: seq<U64>, look: U64 -> Lookup, minAge: int)
      reads this, memory
    {
      Valid() && Summarizes(groups, Accepted(before, look, minAge), showAllocs) && NoneFailed(before, look)
    }

    /** The for loop of print_outstanding_allocs over a map whose keys are `keys`. */
    method Collect(keys: seq<U64>, look: U64 -> Lookup, minAge: int) returns (exit: Exit)
      requires Valid() && groups == [] && NoDup(keys)
      modifies memory, this`groups
      ensures exit != PastEnd ==> Valid()
      ensures exit == Done ==> Collected(VisitedFrom(keys, 0), look, minAge)
      ensures exit == PastEnd ==> |Stacks(Accepted(VisitedFrom(keys, 0), look, minAge))| > AllocsMaxEntries
      ensures (forall n :: memory.succeeds(n)) && NoneFailed(VisitedFrom(keys, 0), look) ==> exit != Error
    {
      Traversal(keys, 0 as U64);
      exit := CollectVisited(keys, look, minAge, VisitedFrom(keys, 0));
    }

    method CollectVisited(keys: seq<U64>, look: U64 -> Lookup, minAge: int, ghost visited: seq<U64>) returns (exit: Exit)
      requires Valid() && groups == [] && Traverses(keys, 0 as U64, visited)
      modifies memory, this`groups
      ensures exit != PastEnd ==> Valid()
      ensures exit == Done ==> Collected(visited, look, minAge)
      ensures exit == PastEnd ==> |Stacks(Accepted(visited, look, minAge))| > AllocsMaxEntries
      ensures (forall n :: memory.succeeds(n)) && NoneFailed(visited, look) ==> exit != Error
    {
      ghost var i := 0;
      var cursor: U64 := 0;
      var next := NextKey(keys, Some(cursor));
      while next.Some?
        invariant i <= |visited| && next == At(visited, i)
        invariant Collected(visited[..i], look, minAge)
        decreases |visited| - i
      {
        exit := Visit(next.value, look(next.value), minAge, visited, i, look);
        if exit != Done {
          return;
        }
        cursor := next.value;
        i := i + 1;
        next := NextKey(keys, Some(cursor));
      }
      exit := Done;
      assert visited[..i] == visited;
    }

    method Visit(k: U64, found: Lookup, minAge: int, ghost visited: seq<U64>, ghost i: nat, ghost look: U64 -> Lookup)
      returns (exit: Exit)
      requires i < |visited| && k == visited[i] && found == look(k) && Collected(visited[..i], look, minAge)
      modifies memory, this`groups
      ensures exit != PastEnd ==> Valid()
      ensures exit == Done ==> Collected(visited[..i + 1], look, minAge)
      ensures exit == PastEnd ==> |Stacks(Accepted(visited, look, minAge))| > AllocsMaxEntries
      ensures (forall n :: memory.succeeds(n)) && NoneFailed(visited, look) ==> exit != Error
    {
      ghost var before := visited[..i];
      Snoc(visited, i);
      assert visited[..i + 1][..i] == before;
      assert k in visited;
      match found
      case Failed => exit := Error;
      case Gone => exit := Done;
      case Found(info, now) =>
        exit := Done;
        if Accepts(info, now, minAge) {
          exit := Enter(Alloc(k, info.stackId, info.size), Accepted(before, look, minAge));
          StacksGrow(visited, i + 1, look, minAge);
          SubsetSize(Stacks(Accepted(visited[..i + 1], look, minAge)), Stacks(Accepted(visited, look, minAge)));
        }
    }

    /** print_outstanding_allocs. */
    method Print(keys: seq<U64>, look: U64 -> Lookup, minAge: int, topStacks: int)
      returns (exit: Exit, shown: seq<Group>, ghost hidden: seq<Group>)
      requires memory.Valid() && memory.live == multiset{}
      requires NoDup(keys) && -0x8000_0000 <= topStacks < 0x8000_0000
      modifies memory, this`groups
      ensures exit != PastEnd ==> memory.Valid() && memory.live == multiset{}
      ensures exit == Done ==> Reports(shown, hidden, Accepted(VisitedFrom(keys, 0), look, minAge), topStacks, showAllocs)
      ensures exit == Done ==> NoneFailed(VisitedFrom(keys, 0), look)
      ensures exit != Done ==> shown == []
      ensures exit != Error ==>
                (exit == Done <==> |Stacks(Accepted(VisitedFrom(keys, 0), look, minAge))| <= AllocsMaxEntries)
      ensures (forall n :: memory.succeeds(n)) && NoneFailed(VisitedFrom(keys, 0), look) ==> exit != Error
    {
      groups, shown, hidden := [], [], [];
      exit := Collect(keys, look, minAge);
      if exit == PastEnd {
        return;
      }
      if exit == Done {
        shown, hidden := Show(topStacks, Accepted(VisitedFrom(keys, 0), look, minAge));
      }
      Cleanup();
    }

    /** The sort in place, and what is shown of the result. */
    method Show(topStacks: int, ghost es: seq<Alloc>) returns (shown: seq<Group>, ghost hidden: seq<Group>)
      requires Valid() && Summarizes(groups, es, showAllocs) && -0x8000_0000 <= topStacks < 0x8000_0000
      modifies this`groups
      ensures Valid() && Reports(shown, hidden, es, topStacks, showAllocs) && |Stacks(es)| <= AllocsMaxEntries
    {
      LargerFirstOrders();
      var sorted := Sort(groups, LargerFirst);
      SummarizesPermuted(groups, sorted, es, showAllocs);
      AllPtrsPermuted(groups, sorted);
      GroupsAreStacks(groups, es, showAllocs);
      GroupsAreStacks(sorted, es, showAllocs);
      groups := sorted;
      var n := ShowCount(|groups|, topStacks);
      shown, hidden := groups[..n], groups[n..];
      ShownReports(sorted, es, topStacks, showAllocs);
    }
  }
}
