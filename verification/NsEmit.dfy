/**
 What the JSON mode of `lsns` emits, as objects: the recursion of `build_header_json` with
 its set of already printed namespaces, and what that set guarantees. The parent relation
 between representatives is arbitrary, so the recursion may come back to where it started.
 */
module NsEmit {
  import opened Seqs
  import opened NsForest
  import opened NsTable
  import opened Json

  // ---------------------------------------------------------------- namespace keys

  lemma DecimalInjective(a: nat, b: nat)
    requires Decimal(a) == Decimal(b)
    ensures a == b
  {
    DecimalValue(a);
    DecimalValue(b);
  }

  /** The key under which a namespace is remembered as printed. */
  function Key(h: Header): string {
    Decimal(h.nsType) + ":" + Decimal(h.inum)
  }

  /** Two headers have the same key only if they are the same namespace. */
  lemma KeyInjective(a: Header, b: Header)
    requires Key(a) == Key(b)
    ensures a.nsType == b.nsType && a.inum == b.inum
  {
    var x, y := Decimal(a.nsType), Decimal(b.nsType);
    assert Key(a)[|x|] == ':' && Key(b)[|y|] == ':';
    assert |x| == |y|;
    assert Key(a)[..|x|] == x && Key(b)[..|y|] == y;
    assert Key(a)[|x| + 1..] == Decimal(a.inum) && Key(b)[|y| + 1..] == Decimal(b.inum);
    DecimalInjective(a.nsType, b.nsType);
    DecimalInjective(a.inum, b.inum);
  }

  // ---------------------------------------------------------------- emission

  datatype Obj = Obj(h: Header, kids: seq<Obj>)

  datatype Emitted = Emitted(objs: seq<Obj>, printed: set<string>)

  ghost function AllKeys(t: Table): set<string> {
    set h | h in t.headers :: Key(h)
  }

  /** The headers that the two nested child loops go through, in order. */
  function ChildHeaders(t: Table, kids: seq<Pid>): seq<Header> {
    if kids == [] then [] else HeadersOf(t.headers, kids[0]) + ChildHeaders(t, kids[1..])
  }

  lemma {:induction false} ChildHeadersExact(t: Table, kids: seq<Pid>, h: Header)
    ensures h in ChildHeaders(t, kids) <==> h in t.headers && h.rep in kids && h.rep != 0
  {
    if kids != [] {
      ChildHeadersExact(t, kids[1..], h);
    }
  }

  ghost predicate InTable(t: Table, hs: seq<Header>) {
    forall i :: 0 <= i < |hs| ==> hs[i] in t.headers
  }

  lemma ChildrenInTable(t: Table, rep: Pid)
    ensures InTable(t, ChildHeaders(t, t.forest.Kids(rep)))
  {
    var hs := ChildHeaders(t, t.forest.Kids(rep));
    forall i | 0 <= i < |hs| ensures hs[i] in t.headers {
      ChildHeadersExact(t, t.forest.Kids(rep), hs[i]);
    }
  }

  /** Emitting a list of headers: those not yet printed become objects, each with its children inside. */
  ghost function EmitList(t: Table, hs: seq<Header>, printed: set<string>): (r: Emitted)
    requires InTable(t, hs)
    ensures printed <= r.printed
    decreases AllKeys(t) - printed, |hs|
  {
    if hs == [] then Emitted([], printed)
    else if Key(hs[0]) in printed then EmitList(t, hs[1..], printed)
    else
      var marked := printed + {Key(hs[0])};
      assert hs[0] in t.headers && Key(hs[0]) in AllKeys(t);
      ChildrenInTable(t, hs[0].rep);
      var kids := EmitList(t, ChildHeaders(t, t.forest.Kids(hs[0].rep)), marked);
      assert AllKeys(t) - kids.printed < AllKeys(t) - printed;
      var rest := EmitList(t, hs[1..], kids.printed);
      Emitted([Obj(hs[0], kids.objs)] + rest.objs, rest.printed)
  }

  lemma {:induction false} EmitConcat(t: Table, a: seq<Header>, b: seq<Header>, printed: set<string>)
    requires InTable(t, a) && InTable(t, b)
    ensures InTable(t, a + b)
    ensures var first := EmitList(t, a, printed);
            var second := EmitList(t, b, first.printed);
            EmitList(t, a + b, printed) == Emitted(first.objs + second.objs, second.printed)
    decreases AllKeys(t) - printed, |a|
  {
    if a == [] {
      assert a + b == b;
    } else {
      assert (a + b)[1..] == a[1..] + b;
      if Key(a[0]) in printed {
        EmitConcat(t, a[1..], b, printed);
      } else {
        var marked := printed + {Key(a[0])};
        assert Key(a[0]) in AllKeys(t);
        ChildrenInTable(t, a[0].rep);
        var kids := EmitList(t, ChildHeaders(t, t.forest.Kids(a[0].rep)), marked);
        assert AllKeys(t) - kids.printed < AllKeys(t) - printed;
        EmitConcat(t, a[1..], b, kids.printed);
        Assoc([Obj(a[0], kids.objs)], EmitList(t, a[1..], kids.printed).objs,
              EmitList(t, b, EmitList(t, a[1..], kids.printed).printed).objs);
      }
    }
  }

  // ---------------------------------------------------------------- exactly once

  /** All headers of a forest of objects, in the order they are printed. */
  ghost function Flat(objs: seq<Obj>): seq<Header> {
    if objs == [] then [] else [objs[0].h] + Flat(objs[0].kids) + Flat(objs[1..])
  }

  ghost function KeySet(hs: seq<Header>): set<string> {
    if hs == [] then {} else {Key(hs[0])} + KeySet(hs[1..])
  }

  /** No two of the headers share a key. */
  ghost predicate KeysOnce(hs: seq<Header>) {
    hs == [] || (Key(hs[0]) !in KeySet(hs[1..]) && KeysOnce(hs[1..]))
  }

  lemma {:induction false} KeySetConcat(a: seq<Header>, b: seq<Header>)
    ensures KeySet(a + b) == KeySet(a) + KeySet(b)
    ensures KeysOnce(a) && KeysOnce(b) && KeySet(a) !! KeySet(b) ==> KeysOnce(a + b)
  {
    if a == [] {
      assert a + b == b;
    } else {
      assert (a + b)[1..] == a[1..] + b;
      KeySetConcat(a[1..], b);
    }
  }

  lemma {:induction false} KeySetHolds(hs: seq<Header>, k: string)
    ensures k in KeySet(hs) <==> exists i :: 0 <= i < |hs| && Key(hs[i]) == k
  {
    if hs != [] {
      KeySetHolds(hs[1..], k);
      if i :| 0 <= i < |hs| && Key(hs[i]) == k {
        if i > 0 {
          assert Key(hs[1..][i - 1]) == k;
        }
      }
      if k in KeySet(hs[1..]) {
        var i :| 0 <= i < |hs[1..]| && Key(hs[1..][i]) == k;
        assert Key(hs[i + 1]) == k;
      }
    }
  }

  /** The printed set after emission: what it was, plus the emitted keys, none of them twice or for the second time. */
  ghost predicate EmitsOnce(printed: set<string>, r: Emitted) {
    && KeysOnce(Flat(r.objs))
    && KeySet(Flat(r.objs)) !! printed
    && r.printed == printed + KeySet(Flat(r.objs))
  }

  lemma EmitsOnceCons(printed: set<string>, h: Header, kids: Emitted, rest: Emitted)
    requires Key(h) !in printed
    requires EmitsOnce(printed + {Key(h)}, kids) && EmitsOnce(kids.printed, rest)
    ensures EmitsOnce(printed, Emitted([Obj(h, kids.objs)] + rest.objs, rest.printed))
  {
    var objs := [Obj(h, kids.objs)] + rest.objs;
    assert objs[1..] == rest.objs;
    assert KeySet([h]) == {Key(h)} by { assert [h][1..] == []; }
    assert KeysOnce([h]) by { assert [h][1..] == []; }
    KeySetConcat([h], Flat(kids.objs));
    KeySetConcat([h] + Flat(kids.objs), Flat(rest.objs));
  }

  lemma {:induction false} EmitOnce(t: Table, hs: seq<Header>, printed: set<string>)
    requires InTable(t, hs)
    ensures EmitsOnce(printed, EmitList(t, hs, printed))
    ensures KeySet(hs) <= EmitList(t, hs, printed).printed
    decreases AllKeys(t) - printed, |hs|
  {
    if hs == [] {
    } else if Key(hs[0]) in printed {
      EmitOnce(t, hs[1..], printed);
    } else {
      var marked := printed + {Key(hs[0])};
      assert Key(hs[0]) in AllKeys(t);
      ChildrenInTable(t, hs[0].rep);
      var kids := EmitList(t, ChildHeaders(t, t.forest.Kids(hs[0].rep)), marked);
      assert AllKeys(t) - kids.printed < AllKeys(t) - printed;
      EmitOnce(t, ChildHeaders(t, t.forest.Kids(hs[0].rep)), marked);
      EmitOnce(t, hs[1..], kids.printed);
      EmitsOnceCons(printed, hs[0], kids, EmitList(t, hs[1..], kids.printed));
    }
  }

  lemma {:induction false} EmitFromTable(t: Table, hs: seq<Header>, printed: set<string>)
    requires InTable(t, hs)
    ensures InTable(t, Flat(EmitList(t, hs, printed).objs))
    decreases AllKeys(t) - printed, |hs|
  {
    if hs == [] {
    } else if Key(hs[0]) in printed {
      EmitFromTable(t, hs[1..], printed);
    } else {
      var marked := printed + {Key(hs[0])};
      assert Key(hs[0]) in AllKeys(t);
      ChildrenInTable(t, hs[0].rep);
      var kids := EmitList(t, ChildHeaders(t, t.forest.Kids(hs[0].rep)), marked);
      assert AllKeys(t) - kids.printed < AllKeys(t) - printed;
      EmitFromTable(t, ChildHeaders(t, t.forest.Kids(hs[0].rep)), marked);
      EmitFromTable(t, hs[1..], kids.printed);
      var rest := EmitList(t, hs[1..], kids.printed);
      assert ([Obj(hs[0], kids.objs)] + rest.objs)[1..] == rest.objs;
    }
  }

  /**
   Whatever the parent relation, the whole document holds every namespace of the table
   exactly once. When the table lists each namespace once, as the kernel map that feeds it
   does, the headers printed are exactly the headers listed.
   */
  lemma ExactlyOnce(t: Table)
    ensures InTable(t, t.headers)
    ensures var all := Flat(EmitList(t, t.headers, {}).objs);
            && DistinctNs(all) && InTable(t, all) && (forall h :: h in t.headers ==> HasNs(all, h))
            && (DistinctNs(t.headers) ==> multiset(all) == multiset(t.headers))
  {
    var r := EmitList(t, t.headers, {});
    var all := Flat(r.objs);
    EmitOnce(t, t.headers, {});
    EmitFromTable(t, t.headers, {});
    TableKeys(t, all);
    DistinctIffKeysOnce(all);
    DistinctIffKeysOnce(t.headers);
    if KeysOnce(t.headers) {
      SameHeaders(t, all);
    }
    forall h | h in t.headers ensures HasNs(all, h) {
      KeyedHasNs(t.headers, all, h);
    }
  }

  lemma KeyedHasNs(hs: seq<Header>, all: seq<Header>, h: Header)
    requires h in hs && KeySet(hs) <= KeySet(all)
    ensures HasNs(all, h)
  {
    KeySetHolds(hs, Key(h));
    KeySetHolds(all, Key(h));
    var i :| 0 <= i < |all| && Key(all[i]) == Key(h);
    KeyInjective(all[i], h);
    assert all[i] in all;
  }

  // Namespaces are told apart by type and number; the keys of the printed set do the same.

  predicate SameNs(a: Header, b: Header) {
    a.nsType == b.nsType && a.inum == b.inum
  }

  ghost predicate HasNs(hs: seq<Header>, h: Header) {
    exists o :: o in hs && SameNs(o, h)
  }

  predicate DistinctNs(hs: seq<Header>) {
    forall i, j :: 0 <= i < j < |hs| ==> !SameNs(hs[i], hs[j])
  }

  lemma {:induction false} DistinctIffKeysOnce(hs: seq<Header>)
    ensures DistinctNs(hs) <==> KeysOnce(hs)
  {
    if hs != [] {
      DistinctIffKeysOnce(hs[1..]);
      KeySetHolds(hs[1..], Key(hs[0]));
      if Key(hs[0]) in KeySet(hs[1..]) {
        var i :| 0 <= i < |hs[1..]| && Key(hs[1..][i]) == Key(hs[0]);
        KeyInjective(hs[1..][i], hs[0]);
        assert SameNs(hs[0], hs[i + 1]);
      } else {
        DistinctHead(hs);
      }
    }
  }

  lemma DistinctHead(hs: seq<Header>)
    requires hs != [] && Key(hs[0]) !in KeySet(hs[1..])
    ensures DistinctNs(hs) <==> DistinctNs(hs[1..])
  {
    KeySetHolds(hs[1..], Key(hs[0]));
    forall j | 0 < j < |hs| ensures !SameNs(hs[0], hs[j]) {
      assert hs[j] == hs[1..][j - 1];
    }
    if DistinctNs(hs[1..]) {
      forall i, j | 0 <= i < j < |hs| ensures !SameNs(hs[i], hs[j]) {
        if i > 0 {
          assert hs[i] == hs[1..][i - 1] && hs[j] == hs[1..][j - 1];
        }
      }
    }
    if DistinctNs(hs) {
      forall i, j | 0 <= i < j < |hs[1..]| ensures !SameNs(hs[1..][i], hs[1..][j]) {
        assert hs[1..][i] == hs[i + 1] && hs[1..][j] == hs[j + 1];
      }
    }
  }

  lemma TableKeys(t: Table, all: seq<Header>)
    requires InTable(t, all)
    ensures KeySet(all) <= KeySet(t.headers)
  {
    forall k | k in KeySet(all) ensures k in KeySet(t.headers) {
      KeySetHolds(all, k);
      var i :| 0 <= i < |all| && Key(all[i]) == k;
      var j :| 0 <= j < |t.headers| && t.headers[j] == all[i];
      KeySetHolds(t.headers, k);
    }
  }

  lemma SameHeaders(t: Table, all: seq<Header>)
    requires KeysOnce(all) && KeysOnce(t.headers) && KeySet(all) == KeySet(t.headers) && InTable(t, all)
    ensures multiset(all) == multiset(t.headers)
  {
    KeysOnceNoDup(all);
    KeysOnceNoDup(t.headers);
    forall h ensures multiset(all)[h] == multiset(t.headers)[h] {
      NoDupMultiset(all, h);
      NoDupMultiset(t.headers, h);
      if h in t.headers {
        KeySetHolds(t.headers, Key(h));
        KeySetHolds(all, Key(h));
        var i :| 0 <= i < |all| && Key(all[i]) == Key(h);
        KeysOnceSame(t.headers, all[i], h);
      }
    }
  }

  lemma {:induction false} KeysOnceSame(hs: seq<Header>, a: Header, b: Header)
    requires KeysOnce(hs) && a in hs && b in hs && Key(a) == Key(b)
    ensures a == b
  {
    KeySetHolds(hs[1..], Key(a));
    if a != hs[0] && b != hs[0] {
      KeysOnceSame(hs[1..], a, b);
    }
  }

  lemma {:induction false} KeysOnceNoDup(hs: seq<Header>)
    requires KeysOnce(hs)
    ensures NoDup(hs)
  {
    if hs != [] {
      KeysOnceNoDup(hs[1..]);
      KeySetHolds(hs[1..], Key(hs[0]));
      forall j | 0 < j < |hs| ensures hs[0] != hs[j] {
        assert hs[j] == hs[1..][j - 1];
      }
    }
  }

  // ---------------------------------------------------------------- nesting

  /** Each object sits directly under an object of its representative's parent, all the way down. */
  ghost predicate NestedUnder(t: Table, rep: Pid, objs: seq<Obj>)
    decreases objs
  {
    objs == [] ||
    (&& t.forest.Place(objs[0].h.rep) == ChildOf(rep)
     && NestedUnder(t, objs[0].h.rep, objs[0].kids)
     && NestedUnder(t, rep, objs[1..]))
  }

  ghost predicate Nested(t: Table, objs: seq<Obj>) {
    objs == [] || (NestedUnder(t, objs[0].h.rep, objs[0].kids) && Nested(t, objs[1..]))
  }

  ghost predicate AllUnder(t: Table, rep: Pid, hs: seq<Header>) {
    forall i :: 0 <= i < |hs| ==> t.forest.Place(hs[i].rep) == ChildOf(rep)
  }

  lemma ChildrenUnder(t: Table, rep: Pid)
    ensures AllUnder(t, rep, ChildHeaders(t, t.forest.Kids(rep)))
  {
    var hs := ChildHeaders(t, t.forest.Kids(rep));
    forall i | 0 <= i < |hs| ensures t.forest.Place(hs[i].rep) == ChildOf(rep) {
      ChildHeadersExact(t, t.forest.Kids(rep), hs[i]);
    }
  }

  lemma {:induction false} EmitNested(t: Table, hs: seq<Header>, printed: set<string>, rep: Pid)
    requires InTable(t, hs)
    ensures Nested(t, EmitList(t, hs, printed).objs)
    ensures AllUnder(t, rep, hs) ==> NestedUnder(t, rep, EmitList(t, hs, printed).objs)
    decreases AllKeys(t) - printed, |hs|
  {
    if hs == [] {
    } else if Key(hs[0]) in printed {
      EmitNested(t, hs[1..], printed, rep);
    } else {
      var marked := printed + {Key(hs[0])};
      assert Key(hs[0]) in AllKeys(t);
      ChildrenInTable(t, hs[0].rep);
      ChildrenUnder(t, hs[0].rep);
      var kids := EmitList(t, ChildHeaders(t, t.forest.Kids(hs[0].rep)), marked);
      assert AllKeys(t) - kids.printed < AllKeys(t) - printed;
      EmitNested(t, ChildHeaders(t, t.forest.Kids(hs[0].rep)), marked, hs[0].rep);
      EmitNested(t, hs[1..], kids.printed, rep);
      var rest := EmitList(t, hs[1..], kids.printed);
      assert ([Obj(hs[0], kids.objs)] + rest.objs)[1..] == rest.objs;
    }
  }

  /** The headers of the objects themselves, without those inside. */
  ghost function Heads(objs: seq<Obj>): seq<Header> {
    if objs == [] then [] else [objs[0].h] + Heads(objs[1..])
  }

  /** Inside every object the children stand in the order of the child lists and, for one child, of the table. */
  ghost predicate KidsInOrder(t: Table, objs: seq<Obj>)
    decreases objs
  {
    objs == [] ||
    (&& Subsequence(Heads(objs[0].kids), ChildHeaders(t, t.forest.Kids(objs[0].h.rep)))
     && KidsInOrder(t, objs[0].kids) && KidsInOrder(t, objs[1..]))
  }

  lemma {:induction false} EmitInOrder(t: Table, hs: seq<Header>, printed: set<string>)
    requires InTable(t, hs)
    ensures Subsequence(Heads(EmitList(t, hs, printed).objs), hs) && KidsInOrder(t, EmitList(t, hs, printed).objs)
    decreases AllKeys(t) - printed, |hs|
  {
    if hs == [] {
      SubsequenceEmpty(hs);
    } else if Key(hs[0]) in printed {
      EmitInOrder(t, hs[1..], printed);
      SubsequenceFront(hs[0], Heads(EmitList(t, hs[1..], printed).objs), hs[1..]);
      assert hs == [hs[0]] + hs[1..];
    } else {
      var marked := printed + {Key(hs[0])};
      assert Key(hs[0]) in AllKeys(t);
      ChildrenInTable(t, hs[0].rep);
      var kids := EmitList(t, ChildHeaders(t, t.forest.Kids(hs[0].rep)), marked);
      assert AllKeys(t) - kids.printed < AllKeys(t) - printed;
      EmitInOrder(t, ChildHeaders(t, t.forest.Kids(hs[0].rep)), marked);
      EmitInOrder(t, hs[1..], kids.printed);
      var rest := EmitList(t, hs[1..], kids.printed);
      SubsequenceFront(hs[0], Heads(rest.objs), hs[1..]);
      assert hs == [hs[0]] + hs[1..];
      assert ([Obj(hs[0], kids.objs)] + rest.objs)[1..] == rest.objs;
    }
  }

  // Nesting is complete: a header stays at the top only if no header of its parent came before it.

  /** All children of these headers have been printed. */
  ghost predicate KidsDone(t: Table, gs: seq<Header>, printed: set<string>) {
    forall i :: 0 <= i < |gs| ==> KeySet(ChildHeaders(t, t.forest.Kids(gs[i].rep))) <= printed
  }

  lemma KidsDoneConcat(t: Table, a: seq<Header>, b: seq<Header>, printed: set<string>)
    requires KidsDone(t, a, printed) && KidsDone(t, b, printed)
    ensures KidsDone(t, a + b, printed)
  {
  }

  lemma KidsDoneMore(t: Table, gs: seq<Header>, printed: set<string>, more: set<string>)
    requires KidsDone(t, gs, printed) && printed <= more
    ensures KidsDone(t, gs, more)
  {
  }

  /** What one emitted header leaves: its own children and those of everything inside it are printed. */
  lemma ObjectDone(t: Table, h: Header, printed: set<string>)
    requires InTable(t, ChildHeaders(t, t.forest.Kids(h.rep)))
    requires var kids := EmitList(t, ChildHeaders(t, t.forest.Kids(h.rep)), printed); KidsDone(t, Flat(kids.objs), kids.printed)
    ensures var kids := EmitList(t, ChildHeaders(t, t.forest.Kids(h.rep)), printed); KidsDone(t, [h] + Flat(kids.objs), kids.printed)
  {
    EmitOnce(t, ChildHeaders(t, t.forest.Kids(h.rep)), printed);
    var kids := EmitList(t, ChildHeaders(t, t.forest.Kids(h.rep)), printed);
    KidsDoneConcat(t, [h], Flat(kids.objs), kids.printed);
  }

  lemma {:induction false} EmitKidsDone(t: Table, hs: seq<Header>, printed: set<string>)
    requires InTable(t, hs)
    ensures KidsDone(t, Flat(EmitList(t, hs, printed).objs), EmitList(t, hs, printed).printed)
    decreases AllKeys(t) - printed, |hs|
  {
    if hs == [] {
    } else if Key(hs[0]) in printed {
      EmitKidsDone(t, hs[1..], printed);
    } else {
      var marked := printed + {Key(hs[0])};
      assert Key(hs[0]) in AllKeys(t);
      ChildrenInTable(t, hs[0].rep);
      var kids := EmitList(t, ChildHeaders(t, t.forest.Kids(hs[0].rep)), marked);
      assert AllKeys(t) - kids.printed < AllKeys(t) - printed;
      EmitKidsDone(t, ChildHeaders(t, t.forest.Kids(hs[0].rep)), marked);
      EmitKidsDone(t, hs[1..], kids.printed);
      ObjectDone(t, hs[0], marked);
      var rest := EmitList(t, hs[1..], kids.printed);
      KidsDoneMore(t, [hs[0]] + Flat(kids.objs), kids.printed, rest.printed);
      KidsDoneConcat(t, [hs[0]] + Flat(kids.objs), Flat(rest.objs), rest.printed);
      assert ([Obj(hs[0], kids.objs)] + rest.objs)[1..] == rest.objs;
    }
  }

  /** None of these headers is of the parent of `h`. */
  ghost predicate NoParentIn(t: Table, h: Header, done: seq<Header>) {
    forall i :: 0 <= i < |done| ==> t.forest.Place(h.rep) != ChildOf(done[i].rep)
  }

  /** In front of each of these objects, `done` included, there is no header of its parent. */
  ghost predicate TopFresh(t: Table, objs: seq<Obj>, done: seq<Header>)
    decreases |objs|
  {
    objs == [] ||
    (NoParentIn(t, objs[0].h, done) && TopFresh(t, objs[1..], done + ([objs[0].h] + Flat(objs[0].kids))))
  }

  lemma UnprintedIsFresh(t: Table, h: Header, printed: set<string>, done: seq<Header>)
    requires Consistent(t) && h in t.headers && Key(h) !in printed && KidsDone(t, done, printed)
    ensures NoParentIn(t, h, done)
  {
    forall i | 0 <= i < |done| ensures t.forest.Place(h.rep) != ChildOf(done[i].rep) {
      var kids := t.forest.Kids(done[i].rep);
      if t.forest.Place(h.rep) == ChildOf(done[i].rep) {
        NodeHasHeader(t, h.rep);
        ChildHeadersExact(t, kids, h);
        KeySetHolds(ChildHeaders(t, kids), Key(h));
        assert false;
      }
    }
  }

  lemma {:induction false} EmitTopFresh(t: Table, hs: seq<Header>, printed: set<string>, done: seq<Header>)
    requires Consistent(t) && InTable(t, hs) && KidsDone(t, done, printed)
    ensures TopFresh(t, EmitList(t, hs, printed).objs, done)
    decreases AllKeys(t) - printed, |hs|
  {
    if hs == [] {
    } else if Key(hs[0]) in printed {
      EmitTopFresh(t, hs[1..], printed, done);
    } else {
      var marked := printed + {Key(hs[0])};
      assert Key(hs[0]) in AllKeys(t);
      ChildrenInTable(t, hs[0].rep);
      var kids := EmitList(t, ChildHeaders(t, t.forest.Kids(hs[0].rep)), marked);
      assert AllKeys(t) - kids.printed < AllKeys(t) - printed;
      UnprintedIsFresh(t, hs[0], printed, done);
      EmitKidsDone(t, ChildHeaders(t, t.forest.Kids(hs[0].rep)), marked);
      ObjectDone(t, hs[0], marked);
      KidsDoneMore(t, done, printed, kids.printed);
      KidsDoneConcat(t, done, [hs[0]] + Flat(kids.objs), kids.printed);
      EmitTopFresh(t, hs[1..], kids.printed, done + ([hs[0]] + Flat(kids.objs)));
      var rest := EmitList(t, hs[1..], kids.printed);
      assert ([Obj(hs[0], kids.objs)] + rest.objs)[1..] == rest.objs;
    }
  }

  /** So whatever can be nested is: a header whose parent was emitted before it is not at the top. */
  lemma NestsWhatItCan(t: Table)
    requires Consistent(t)
    ensures InTable(t, t.headers) && TopFresh(t, EmitList(t, t.headers, {}).objs, [])
  {
    EmitTopFresh(t, t.headers, {}, []);
  }

  /** A list of headers comes out empty exactly when all of them were printed before. */
  ghost predicate AllPrinted(hs: seq<Header>, printed: set<string>) {
    forall i :: 0 <= i < |hs| ==> Key(hs[i]) in printed
  }

  lemma {:induction false} EmptyIffPrinted(t: Table, hs: seq<Header>, printed: set<string>)
    requires InTable(t, hs)
    ensures EmitList(t, hs, printed).objs == [] <==> AllPrinted(hs, printed)
    ensures AllPrinted(hs, printed) ==> EmitList(t, hs, printed).printed == printed
  {
    if hs != [] && Key(hs[0]) in printed {
      EmptyIffPrinted(t, hs[1..], printed);
      forall i | 0 < i < |hs| ensures hs[i] == hs[1..][i - 1] {
      }
    }
  }

  /**
   Two runs over the same headers and the same /proc readings end with the same table, and
   so with the same prefixes and the same document, however their hash tables were ordered.
   */
  lemma OrderIndependent(t: Table, t': Table, raw: map<Pid, Pid>)
    requires Consistent(t) && Consistent(t') && OrphansExact(t, raw) && OrphansExact(t', raw)
    requires t.headers == t'.headers && t.forest.inum == t'.forest.inum && t.forest.parent == t'.forest.parent
    ensures t == t'
    ensures EmitList(t, t.headers, {}) == EmitList(t', t'.headers, {})
  {
    ForestUnique(t.forest, t'.forest);
    assert forall x :: x in t.orphans <==> x in t'.orphans;
  }
}
