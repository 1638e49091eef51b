/**
 The kernel symbol table of `kmemleak` and `spinlock_ob`: names in one growing string pool,
 kept as offsets while the pool may still move and turned into pointers afterwards, then
 sorted and searched by address; and the linear scan of `workqueue-snoop` over the same list.
 */
module Ksyms {
  import opened Seqs
  import opened Basics

  /** A symbol as listed in /proc/kallsyms. */
  datatype Symbol = Symbol(addr: nat, name: string)

  const NUL: char := 0 as char

  predicate CName(s: string) {
    NUL !in s
  }

  // ---------------------------------------------------------------- the string pool

  /** The pool after adding the names of `es` in turn, each with its terminating NUL. */
  function Pool(es: seq<Symbol>): string {
    if es == [] then [] else Pool(es[..|es| - 1]) + (es[|es| - 1].name + [NUL])
  }

  /** The C string that starts at `off`. */
  function CString(pool: string, off: nat): string
    decreases |pool| - off
  {
    if off >= |pool| || pool[off] == NUL then [] else [pool[off]] + CString(pool, off + 1)
  }

  lemma {:induction false} CStringAt(before: string, name: string, after: string)
    requires CName(name)
    ensures CString(before + (name + [NUL]) + after, |before|) == name
    decreases |name|
  {
    var pool := before + (name + [NUL]) + after;
    if name != [] {
      assert name == [name[0]] + name[1..];
      assert before + (name + [NUL]) + after == (before + [name[0]]) + (name[1..] + [NUL]) + after;
      CStringAt(before + [name[0]], name[1..], after);
    }
  }

  /** Where the name of entry `i` starts. */
  function Offset(es: seq<Symbol>, i: nat): nat
    requires i <= |es|
  {
    |Pool(es[..i])|
  }

  lemma {:induction false} PoolPrefix(es: seq<Symbol>, i: nat)
    requires i <= |es|
    ensures exists after :: Pool(es) == Pool(es[..i]) + after
  {
    if i == |es| {
      assert es[..i] == es;
      assert Pool(es) == Pool(es[..i]) + "";
    } else {
      var init := es[..|es| - 1];
      PoolPrefix(init, i);
      assert init[..i] == es[..i];
      var after :| Pool(init) == Pool(es[..i]) + after;
      Assoc(Pool(es[..i]), after, es[|es| - 1].name + [NUL]);
      assert Pool(es) == Pool(es[..i]) + (after + (es[|es| - 1].name + [NUL]));
    }
  }

  /** Reading the pool at an entry's offset gives back that entry's name. */
  lemma {:induction false} NameAtOffset(es: seq<Symbol>, i: nat)
    requires i < |es| && CName(es[i].name)
    ensures CString(Pool(es), Offset(es, i)) == es[i].name
  {
    PoolPrefix(es, i + 1);
    var after :| Pool(es) == Pool(es[..i + 1]) + after;
    assert es[..i + 1][..i] == es[..i];
    CStringAt(Pool(es[..i]), es[i].name, after);
  }

  /** The regions of two names, terminators included, do not overlap. */
  lemma {:induction false} RegionsDisjoint(es: seq<Symbol>, i: nat, j: nat)
    requires i < j <= |es|
    ensures Offset(es, i) + |es[i].name| + 1 <= Offset(es, j)
  {
    assert es[..j][..j - 1] == es[..j - 1];
    if i < j - 1 {
      RegionsDisjoint(es, i, j - 1);
    }
  }

  // ---------------------------------------------------------------- the order

  /** `strcmp(a, b) <= 0`. */
  predicate StrLeq(a: string, b: string) {
    a == [] || (b != [] && (a[0] < b[0] || (a[0] == b[0] && StrLeq(a[1..], b[1..]))))
  }

  lemma {:induction false} StrTotal(a: string, b: string)
    ensures StrLeq(a, b) || StrLeq(b, a)
    ensures StrLeq(a, b) && StrLeq(b, a) ==> a == b
  {
    if a != [] && b != [] && a[0] == b[0] {
      StrTotal(a[1..], b[1..]);
      assert a == [a[0]] + a[1..] && b == [b[0]] + b[1..];
    }
  }

  /** One name comes before another if it is a prefix of it or has the smaller character where they first differ. */
  lemma {:induction false} StrExact(a: string, b: string)
    ensures StrLeq(a, b) <==> exists i :: 0 <= i <= |a| && i <= |b| && a[..i] == b[..i] && (i == |a| || (i < |b| && a[i] < b[i]))
  {
    if a != [] && b != [] && a[0] == b[0] {
      StrExact(a[1..], b[1..]);
      if StrLeq(a[1..], b[1..]) {
        var i :| 0 <= i <= |a[1..]| && i <= |b[1..]| && a[1..][..i] == b[1..][..i] && (i == |a[1..]| || (i < |b[1..]| && a[1..][i] < b[1..][i]));
        assert a[..i + 1] == [a[0]] + a[1..][..i] && b[..i + 1] == [b[0]] + b[1..][..i];
      }
      if i :| 0 <= i <= |a| && i <= |b| && a[..i] == b[..i] && (i == |a| || (i < |b| && a[i] < b[i])) {
        assert a[1..][..i - 1] == a[..i][1..] && b[1..][..i - 1] == b[..i][1..];
      }
    } else {
      assert a[..0] == b[..0];
      forall i | 0 < i <= |a| && i <= |b| ensures a[..i] == b[..i] ==> a[0] == b[0] {
        assert a[..i][0] == a[0] && b[..i][0] == b[0];
      }
    }
  }

  lemma {:induction false} StrTransitive(a: string, b: string, c: string)
    requires StrLeq(a, b) && StrLeq(b, c)
    ensures StrLeq(a, c)
  {
    if a != [] && a[0] == b[0] && b[0] == c[0] {
      StrTransitive(a[1..], b[1..], c[1..]);
    }
  }

  /** `ksym_cmp(a, b) <= 0`: by address, then by name. */
  predicate SymLeq(a: Symbol, b: Symbol) {
    if a.addr == b.addr then StrLeq(a.name, b.name) else a.addr < b.addr
  }

  lemma SymOrder()
    ensures TotalPreorder(SymLeq) && Antisymmetric(SymLeq)
  {
    forall x: Symbol, y: Symbol ensures SymLeq(x, y) || SymLeq(y, x) {
      StrTotal(x.name, y.name);
    }
    forall x: Symbol, y: Symbol | SymLeq(x, y) && SymLeq(y, x) ensures x == y {
      StrTotal(x.name, y.name);
    }
    forall x: Symbol, y: Symbol, z: Symbol | SymLeq(x, y) && SymLeq(y, z) ensures SymLeq(x, z) {
      if x.addr == y.addr == z.addr {
        StrTransitive(x.name, y.name, z.name);
      }
    }
  }

  // ---------------------------------------------------------------- the table

  /** A slot: `name` is an offset into the pool while loading, and a pointer afterwards. */
  datatype Ksym = Ksym(name: nat, addr: nat)

  class Table {
    var syms: array<Ksym>
    var symsSz: nat
    var strs: array<char>
    var strsSz: nat
    ghost var entries: seq<Symbol>

    ghost predicate Valid()
      reads this, syms, strs
    {
      && symsSz <= syms.Length && strsSz <= strs.Length
      && (syms.Length == 0 || syms.Length >= 1024)
      && |entries| == symsSz
      && strs[..strsSz] == Pool(entries)
      && forall i :: 0 <= i < symsSz ==> syms[i] == Ksym(Offset(entries, i), entries[i].addr)
    }

    constructor ()
      ensures Valid() && entries == [] && fresh(syms) && fresh(strs)
    {
      syms, symsSz := new Ksym[0], 0;
      strs, strsSz := new char[0], 0;
      entries := [];
    }

    method GrowStrs(nameLen: nat, memory: bool) returns (ok: bool)
      requires Valid()
      modifies this`strs
      ensures Valid()
      ensures strs == old(strs) || fresh(strs)
      ensures ok ==> strsSz + nameLen <= strs.Length
      ensures !ok ==> !memory && strs == old(strs)
    {
      if strsSz + nameLen > strs.Length {
        var newCap := strs.Length * 4 / 3;
        if newCap < strsSz + nameLen {
          newCap := strsSz + nameLen;
        }
        if newCap < 1024 {
          newCap := 1024;
        }
        if !memory {
          return false;
        }
        var tmp := new char[newCap];
        forall i | 0 <= i < strsSz {
          tmp[i] := strs[i];
        }
        assert tmp[..strsSz] == strs[..strsSz];
        strs := tmp;
      }
      ok := true;
    }

    /** A table is either empty or has at least 1024 slots, so a third more always makes room for one. */
    method GrowSyms(memory: bool) returns (ok: bool)
      requires Valid()
      modifies this`syms
      ensures Valid()
      ensures syms == old(syms) || fresh(syms)
      ensures ok ==> symsSz + 1 <= syms.Length
      ensures !ok ==> !memory && syms == old(syms)
    {
      if symsSz + 1 > syms.Length {
        var newCap := syms.Length * 4 / 3;
        if newCap < 1024 {
          newCap := 1024;
        }
        if !memory {
          return false;
        }
        var tmp := new Ksym[newCap];
        forall i | 0 <= i < symsSz {
          tmp[i] := syms[i];
        }
        syms := tmp;
      }
      ok := true;
    }

    /** `ksyms_add`: on success the entry is the last one; on failure nothing is lost. */
    method Add(name: string, addr: nat, strsMemory: bool, symsMemory: bool) returns (ok: bool)
      requires Valid()
      modifies this, syms, strs
      ensures Valid()
      ensures fresh(syms) || syms == old(syms)
      ensures fresh(strs) || strs == old(strs)
      ensures strsMemory && symsMemory ==> ok
      ensures entries == if ok then old(entries) + [Symbol(addr, name)] else old(entries)
    {
      var nameLen := |name| + 1;
      ok := GrowStrs(nameLen, strsMemory);
      if !ok {
        return;
      }
      ok := GrowSyms(symsMemory);
      if !ok {
        return;
      }
      Append(name, addr);
    }

    method Append(name: string, addr: nat)
      requires Valid() && strsSz + |name| + 1 <= strs.Length && symsSz < syms.Length
      modifies this`symsSz, this`strsSz, this`entries, syms, strs
      ensures Valid() && entries == old(entries) + [Symbol(addr, name)]
    {
      AppendKeeps(entries, Symbol(addr, name));
      syms[symsSz] := Ksym(strsSz, addr);
      CopyBytes(strs, strsSz, name + [NUL]);
      strsSz := strsSz + |name + [NUL]|;
      symsSz := symsSz + 1;
      entries := entries + [Symbol(addr, name)];
    }

    /** After loading: the slots, read through the pool, are the entries in order of address and name. */
    ghost predicate Loaded(base: nat)
      reads this, syms, strs
    {
      && symsSz <= syms.Length && strsSz <= strs.Length && strs[..strsSz] == Pool(entries)
      && SortedPermutation(Map(View(Pool(entries), base), syms[..symsSz]), entries, SymLeq)
    }

    /** Turning offsets into pointers: the pool now lives at `base` and will not move again. */
    method Relocate(base: nat)
      requires Valid() && forall i :: 0 <= i < |entries| ==> CName(entries[i].name)
      modifies syms
      ensures strs[..strsSz] == Pool(entries)
      ensures Map(View(Pool(entries), base), syms[..symsSz]) == entries
    {
      ghost var pool := Pool(entries);
      for i := 0 to symsSz
        invariant strs[..strsSz] == pool
        invariant forall k :: 0 <= k < i ==> syms[k] == Ksym(base + Offset(entries, k), entries[k].addr)
        invariant forall k :: i <= k < symsSz ==> syms[k] == Ksym(Offset(entries, k), entries[k].addr)
      {
        syms[i] := Ksym(base + syms[i].name, syms[i].addr);
      }
      RelocatedViews(entries, base, syms[..symsSz]);
    }

    /** The end of `ksyms_load`: relocation and sorting keep exactly the symbols that were added. */
    method Finish(base: nat)
      requires Valid() && forall i :: 0 <= i < |entries| ==> CName(entries[i].name)
      modifies syms
      ensures Loaded(base)
    {
      Relocate(base);
      var sorted := SortSlots(strs[..strsSz], base, syms[..symsSz]);
      StoreSlots(syms, sorted);
    }

    /** `ksyms_find`: the last symbol at or below `addr`, and nothing exactly when there is none. */
    method Find(base: nat, addr: nat) returns (r: Option<nat>)
      requires Loaded(base)
      ensures r.Some? ==> r.value < symsSz && syms[r.value].addr <= addr
      ensures r.Some? ==> forall j :: r.value < j < symsSz ==> syms[j].addr > addr
      ensures r.None? <==> forall j :: 0 <= j < symsSz ==> syms[j].addr > addr
    {
      AddressesSorted(base);
      var start, end := 0, symsSz - 1;
      while start < end
        invariant 0 <= start <= end + 1 <= symsSz && (symsSz > 0 ==> start <= end)
        invariant start > 0 ==> syms[start].addr <= addr
        invariant forall j :: end < j < symsSz ==> syms[j].addr > addr
        decreases end - start
      {
        var mid := start + (end - start + 1) / 2;
        if syms[mid].addr <= addr {
          start := mid;
        } else {
          end := mid - 1;
        }
      }
      if start == end && syms[start].addr <= addr {
        r := Some(start);
      } else {
        r := None;
      }
    }

    lemma AddressesSorted(base: nat)
      requires Loaded(base)
      ensures forall i, j :: 0 <= i < j < symsSz ==> syms[i].addr <= syms[j].addr
    {
      var views := Map(View(Pool(entries), base), syms[..symsSz]);
      forall i, j | 0 <= i < j < symsSz ensures syms[i].addr <= syms[j].addr {
        assert SymLeq(views[i], views[j]);
      }
    }
  }

  /** The symbol that a slot stands for, once its name points into the pool at `base`. */
  function View(pool: string, base: nat): Ksym -> Symbol {
    (k: Ksym) => Symbol(k.addr, CString(pool, if k.name >= base then k.name - base else 0))
  }

  /** `ksym_cmp` on slots. */
  function Compare(pool: string, base: nat): (Ksym, Ksym) -> bool {
    (a: Ksym, b: Ksym) => SymLeq(View(pool, base)(a), View(pool, base)(b))
  }

  lemma CompareOrder(pool: string, base: nat)
    ensures TotalPreorder(Compare(pool, base))
  {
    SymOrder();
    var cmp, view := Compare(pool, base), View(pool, base);
    forall x, y ensures cmp(x, y) || cmp(y, x) {
      assert SymLeq(view(x), view(y)) || SymLeq(view(y), view(x));
    }
    forall x, y, z | cmp(x, y) && cmp(y, z) ensures cmp(x, z) {
      assert SymLeq(view(x), view(y)) && SymLeq(view(y), view(z));
    }
  }

  lemma {:induction false} RelocatedViews(es: seq<Symbol>, base: nat, slots: seq<Ksym>)
    requires |slots| == |es|
    requires forall k :: 0 <= k < |es| ==> CName(es[k].name) && slots[k] == Ksym(base + Offset(es, k), es[k].addr)
    ensures Map(View(Pool(es), base), slots) == es
  {
    var views := Map(View(Pool(es), base), slots);
    forall k | 0 <= k < |es| ensures views[k] == es[k] {
      NameAtOffset(es, k);
    }
  }

  method StoreSlots(syms: array<Ksym>, slots: seq<Ksym>)
    requires |slots| <= syms.Length
    modifies syms
    ensures syms[..|slots|] == slots
  {
    forall i | 0 <= i < |slots| {
      syms[i] := slots[i];
    }
  }

  /** The `memcpy` of a name into the pool. */
  method CopyBytes(strs: array<char>, at: nat, bytes: string)
    requires at + |bytes| <= strs.Length
    modifies strs
    ensures strs[..at + |bytes|] == old(strs[..at]) + bytes
  {
    ghost var before := strs[..at];
    forall i | 0 <= i < |bytes| {
      strs[at + i] := bytes[i];
    }
    assert strs[..at] == before;
  }

  /** `qsort` with `ksym_cmp`, seen through the names. */
  method SortSlots(pool: string, base: nat, slots: seq<Ksym>) returns (sorted: seq<Ksym>)
    ensures |sorted| == |slots|
    ensures SortedPermutation(Map(View(pool, base), sorted), Map(View(pool, base), slots), SymLeq)
  {
    CompareOrder(pool, base);
    sorted := Sort(slots, Compare(pool, base));
    assert |multiset(sorted)| == |sorted| && |multiset(slots)| == |slots|;
    SortedViews(pool, base, sorted);
    MapMultiset(View(pool, base), sorted, slots);
  }

  lemma SortedViews(pool: string, base: nat, slots: seq<Ksym>)
    requires Sorted(slots, Compare(pool, base))
    ensures Sorted(Map(View(pool, base), slots), SymLeq)
  {
    var views := Map(View(pool, base), slots);
    forall i, j | 0 <= i < j < |views| ensures SymLeq(views[i], views[j]) {
      assert Compare(pool, base)(slots[i], slots[j]);
    }
  }

  lemma AppendKeeps(es: seq<Symbol>, e: Symbol)
    ensures Pool(es + [e]) == Pool(es) + (e.name + [NUL])
    ensures forall i :: 0 <= i <= |es| ==> Offset(es + [e], i) == Offset(es, i)
  {
    assert (es + [e])[..|es|] == es;
    forall i | 0 <= i <= |es| ensures Offset(es + [e], i) == Offset(es, i) {
      assert (es + [e])[..i] == es[..i];
    }
  }

  // ---------------------------------------------------------------- the linear scan

  /** What the scan has found after the lines so far: strictly closer symbols replace the best one. */
  function Best(es: seq<Symbol>, addr: nat): Option<Symbol> {
    if es == [] then None
    else
      var best, s := Best(es[..|es| - 1], addr), es[|es| - 1];
      if s.addr <= addr && s.addr > (if best.Some? then best.value.addr else 0) then Some(s) else best
  }

  function Parsed(lines: seq<Option<Symbol>>): seq<Symbol> {
    if lines == [] then []
    else
      var before, l := Parsed(lines[..|lines| - 1]), lines[|lines| - 1];
      if l.Some? then before + [l.value] else before
  }

  /** Lines that do not parse are left out, and the others keep their order. */
  lemma {:induction false} ParsedConcat(a: seq<Option<Symbol>>, b: seq<Option<Symbol>>)
    ensures Parsed(a + b) == Parsed(a) + Parsed(b)
    ensures Parsed([None]) == [] && forall s :: Parsed([Some(s)]) == [s]
  {
    if b == [] {
      assert a + b == a;
    } else {
      assert (a + b)[..|a + b| - 1] == a + b[..|b| - 1];
      ParsedConcat(a, b[..|b| - 1]);
    }
  }

  /** The loop of `resolve_kernel_symbol`; a line that does not parse is None. */
  method ResolveSymbol(lines: seq<Option<Symbol>>, addr: nat) returns (best: Option<Symbol>)
    ensures best == Best(Parsed(lines), addr)
  {
    best := None;
    var bestAddr := 0;
    for i := 0 to |lines|
      invariant best == Best(Parsed(lines[..i]), addr)
      invariant bestAddr == if best.Some? then best.value.addr else 0
    {
      assert lines[..i + 1][..i] == lines[..i];
      if lines[i].Some? {
        var s := lines[i].value;
        ghost var before := Parsed(lines[..i]);
        assert (before + [s])[..|before|] == before;
        if s.addr <= addr && s.addr > bestAddr {
          bestAddr := s.addr;
          best := Some(s);
        }
      }
    }
    assert lines[..|lines|] == lines;
  }

  /** It finds nothing iff no symbol has an address from 1 to `addr`, and otherwise the first listed of the closest. */
  lemma {:induction false} BestExact(es: seq<Symbol>, addr: nat)
    ensures Best(es, addr).None? <==> forall i :: 0 <= i < |es| ==> es[i].addr == 0 || es[i].addr > addr
    ensures Best(es, addr).Some? ==>
              && 0 < Best(es, addr).value.addr <= addr
              && (exists i :: 0 <= i < |es| && es[i] == Best(es, addr).value && forall j :: 0 <= j < i ==> es[j].addr != es[i].addr)
              && forall i :: 0 <= i < |es| && es[i].addr <= addr ==> es[i].addr <= Best(es, addr).value.addr
  {
    if es != [] {
      var init, s := es[..|es| - 1], es[|es| - 1];
      BestExact(init, addr);
      assert forall i :: 0 <= i < |init| ==> es[i] == init[i];
      if Best(es, addr) == Best(init, addr) && Best(es, addr).Some? {
        var i :| 0 <= i < |init| && init[i] == Best(init, addr).value && forall j :: 0 <= j < i ==> init[j].addr != init[i].addr;
        assert es[i] == Best(es, addr).value;
      } else if Best(es, addr).Some? {
        assert es[|es| - 1] == Best(es, addr).value;
      }
    }
  }

  // ---------------------------------------------------------------- both searches

  /** Position `i` is where the binary search ends. */
  ghost predicate LastAtMost(sorted: seq<Symbol>, addr: nat, i: nat) {
    i < |sorted| && sorted[i].addr <= addr && forall j :: i < j < |sorted| ==> sorted[j].addr > addr
  }

  /**
   The two searches find the same address whenever the scan finds anything, which is whenever
   the symbol found by the binary search is not at address 0.
   */
  lemma SameAddress(es: seq<Symbol>, sorted: seq<Symbol>, addr: nat, i: nat)
    requires SortedPermutation(sorted, es, SymLeq) && LastAtMost(sorted, addr, i)
    ensures Best(es, addr).Some? <==> sorted[i].addr > 0
    ensures Best(es, addr).Some? ==> Best(es, addr).value.addr == sorted[i].addr
  {
    BestExact(es, addr);
    PermutationKeeps(sorted, es);
    assert sorted[i] in es;
    var k :| 0 <= k < |es| && es[k] == sorted[i];
    if Best(es, addr).Some? {
      var b := Best(es, addr).value;
      assert b in es && b in sorted;
      var j :| 0 <= j < |sorted| && sorted[j] == b;
      if j < i {
        assert SymLeq(sorted[j], sorted[i]);
      }
    }
  }

  /**
   They find the same name exactly when the first symbol listed at that address is also the
   greatest by name; in particular whenever the address has one symbol.
   */
  lemma SameName(es: seq<Symbol>, sorted: seq<Symbol>, addr: nat, i: nat)
    requires SortedPermutation(sorted, es, SymLeq) && LastAtMost(sorted, addr, i) && Best(es, addr).Some?
    ensures var b := Best(es, addr).value;
            && (sorted[i] == b <==> forall k :: 0 <= k < |es| && es[k].addr == b.addr ==> StrLeq(es[k].name, b.name))
            && (OnlyAt(es, b) ==> sorted[i] == b)
  {
    SameAddress(es, sorted, addr, i);
    BestExact(es, addr);
    PermutationKeeps(sorted, es);
    var b := Best(es, addr).value;
    forall k | 0 <= k < |es| && es[k].addr == b.addr ensures StrLeq(es[k].name, sorted[i].name) {
      GreatestName(sorted, addr, i, es[k]);
    }
    assert sorted[i] in es;
    var k :| 0 <= k < |es| && es[k] == sorted[i];
    StrTotal(b.name, sorted[i].name);
  }

  /** No other symbol is listed at the address of this one. */
  ghost predicate OnlyAt(es: seq<Symbol>, b: Symbol) {
    forall s :: s in es && s.addr == b.addr ==> s == b
  }

  lemma GreatestName(sorted: seq<Symbol>, addr: nat, i: nat, s: Symbol)
    requires Sorted(sorted, SymLeq) && LastAtMost(sorted, addr, i) && s in sorted && s.addr == sorted[i].addr
    ensures StrLeq(s.name, sorted[i].name)
  {
    var j :| 0 <= j < |sorted| && sorted[j] == s;
    if j < i {
      assert SymLeq(sorted[j], sorted[i]);
    } else {
      StrTotal(s.name, s.name);
    }
  }

  /** How the two searches agree, for a list of symbols and its sorted table. */
  ghost predicate Agree(es: seq<Symbol>, sorted: seq<Symbol>, addr: nat, found: Option<nat>, best: Option<Symbol>) {
    && (found.None? <==> forall s :: s in es ==> s.addr > addr)
    && (found.Some? ==> LastAtMost(sorted, addr, found.value))
    && (best.Some? <==> found.Some? && LastAtMost(sorted, addr, found.value) && sorted[found.value].addr > 0)
    && (best.Some? && found.Some? && found.value < |sorted| ==>
          && sorted[found.value].addr == best.value.addr
          && (OnlyAt(es, best.value) ==> sorted[found.value] == best.value))
  }

  lemma SearchesAgree(es: seq<Symbol>, sorted: seq<Symbol>, addr: nat, found: Option<nat>)
    requires SortedPermutation(sorted, es, SymLeq)
    requires found.Some? ==> LastAtMost(sorted, addr, found.value)
    requires found.None? ==> forall j :: 0 <= j < |sorted| ==> sorted[j].addr > addr
    ensures Agree(es, sorted, addr, found, Best(es, addr))
  {
    PermutationKeeps(sorted, es);
    BestExact(es, addr);
    if found.Some? {
      assert sorted[found.value] in es;
      SameAddress(es, sorted, addr, found.value);
      if Best(es, addr).Some? {
        SameName(es, sorted, addr, found.value);
      }
    } else {
      forall s | s in es ensures s.addr > addr {
        assert s in sorted;
      }
    }
  }

  /** `ksyms_load` on the lines of the symbol list, all of which parse; `memory` says which allocations succeed. */
  method Load(es: seq<Symbol>, base: nat, memory: nat -> bool) returns (t: Table, ok: bool)
    requires forall i :: 0 <= i < |es| ==> CName(es[i].name)
    ensures ok ==> t.Loaded(base) && t.entries == es
    ensures (forall n :: memory(n)) ==> ok
  {
    t := new Table();
    for i := 0 to |es|
      invariant t.Valid() && t.entries == es[..i]
      invariant fresh(t) && fresh(t.syms) && fresh(t.strs)
    {
      ok := t.Add(es[i].name, es[i].addr, memory(2 * i), memory(2 * i + 1));
      if !ok {
        return;
      }
      Snoc(es, i);
      assert es[i] == Symbol(es[i].addr, es[i].name);
    }
    assert es[..|es|] == es;
    t.Finish(base);
    ok := true;
  }

  function AllParse(es: seq<Symbol>): (lines: seq<Option<Symbol>>)
    ensures |lines| == |es|
  {
    if es == [] then [] else AllParse(es[..|es| - 1]) + [Some(es[|es| - 1])]
  }

  lemma {:induction false} ParsedBack(es: seq<Symbol>)
    ensures Parsed(AllParse(es)) == es
  {
    if es != [] {
      assert AllParse(es)[..|es| - 1] == AllParse(es[..|es| - 1]);
      ParsedBack(es[..|es| - 1]);
    }
  }

  /** For every list of symbols and every address: load, search both ways, and the two agree. */
  method SearchBoth(es: seq<Symbol>, base: nat, addr: nat, memory: nat -> bool)
    returns (t: Table, ok: bool, found: Option<nat>, best: Option<Symbol>)
    requires forall i :: 0 <= i < |es| ==> CName(es[i].name)
    ensures (forall n :: memory(n)) ==> ok
    ensures ok ==> t.Loaded(base) && t.entries == es
    ensures ok ==> Agree(es, Map(View(Pool(es), base), t.syms[..t.symsSz]), addr, found, best)
  {
    found, best := None, None;
    t, ok := Load(es, base, memory);
    if ok {
      found := t.Find(base, addr);
      ParsedBack(es);
      best := ResolveSymbol(AllParse(es), addr);
      ghost var sorted := Map(View(Pool(es), base), t.syms[..t.symsSz]);
      assert forall j :: 0 <= j < |sorted| ==> sorted[j].addr == t.syms[j].addr;
      SearchesAgree(es, sorted, addr, found);
    }
  }
}
