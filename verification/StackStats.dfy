/**
 The lock report of `spinlock_ob`: a pointer array that doubles up to the size of the map, one
 heap block per entry, a caller filter, two sorts with a top list each, and one release of
 everything on every way out.
 */
module StackStats {
  import opened Seqs
  import opened Basics
  import opened BpfMaps
  import opened Heap

  datatype Stat = Stat(acqMax: nat, acqCount: nat, acqTotal: nat, hldMax: nat, hldCount: nat, hldTotal: nat)

  datatype SortKey = Max | Count | Total

  datatype Env = Env(perThread: bool, caller: Option<string>, nrLocks: U32, reset: bool, sortAcq: SortKey, sortHld: SortKey)

  /** What the two maps and the symbol table answer while the report is made. */
  datatype Answers = Answers(stat: U32 -> Option<Stat>, caller: U32 -> nat, symbol: nat -> Option<string>)

  /** One reported entry. */
  datatype Row = Row(stackId: U32, stat: Stat, caller: nat)

  /** The same, in the block at `ptr`. */
  datatype Entry = Entry(ptr: nat, row: Row)

  const PtrOf := (e: Entry) => e.ptr
  const RowOf := (e: Entry) => e.row

  /** caller_is_traced: unknown callers pass, known ones must have the filter as a prefix. */
  predicate CallerIsTraced(env: Env, symbol: Option<string>) {
    env.caller.None? || symbol.None? || env.caller.value <= symbol.value
  }

  predicate Passes(env: Env, answers: Answers, k: U32) {
    && answers.stat(k).Some?
    && (env.perThread || CallerIsTraced(env, answers.symbol(answers.caller(k))))
  }

  function RowFor(answers: Answers, k: U32): Row
    requires answers.stat(k).Some?
  {
    Row(k, answers.stat(k).value, answers.caller(k))
  }

  /** The rows of the entries that are found and pass the filter, in the order of the keys. */
  function Selected(keys: seq<U32>, env: Env, answers: Answers): seq<Row> {
    if keys == [] then []
    else
      var before, k := Selected(keys[..|keys| - 1], env, answers), keys[|keys| - 1];
      if Passes(env, answers, k) then before + [RowFor(answers, k)] else before
  }

  lemma SelectedMore(keys: seq<U32>, k: U32, env: Env, answers: Answers)
    ensures Selected(keys + [k], env, answers) ==
            Selected(keys, env, answers) + (if Passes(env, answers, k) then [RowFor(answers, k)] else [])
  {
    assert (keys + [k])[..|keys|] == keys;
  }

  /** A caller passes if nothing is asked of it, if it has no name, or if its name begins with what is asked for. */
  lemma PassesExact(env: Env, answers: Answers, k: U32)
    ensures Passes(env, answers, k) <==>
            && answers.stat(k).Some?
            && (env.perThread || env.caller.None? || answers.symbol(answers.caller(k)).None? ||
                exists rest :: answers.symbol(answers.caller(k)).value == env.caller.value + rest)
  {
    var symbol := answers.symbol(answers.caller(k));
    if env.caller.Some? && symbol.Some? && env.caller.value <= symbol.value {
      assert symbol.value == env.caller.value + symbol.value[|env.caller.value|..];
    }
  }

  /** Exactly the entries that are found and whose caller passes are selected, with what was found of them. */
  lemma {:induction false} SelectedExact(keys: seq<U32>, env: Env, answers: Answers, r: Row)
    ensures r in Selected(keys, env, answers) <==>
            && r.stackId in keys && Passes(env, answers, r.stackId)
            && answers.stat(r.stackId) == Some(r.stat) && answers.caller(r.stackId) == r.caller
  {
    if keys != [] {
      SelectedExact(keys[..|keys| - 1], env, answers, r);
      Snoc(keys, |keys| - 1);
    }
  }

  const IdOf := (r: Row) => r.stackId

  /** They come in the order of the keys, and no key gives two of them. */
  lemma {:induction false} SelectedInOrder(keys: seq<U32>, env: Env, answers: Answers)
    ensures Subsequence(Map(IdOf, Selected(keys, env, answers)), keys)
  {
    if keys == [] {
      SubsequenceEmpty(keys);
    } else {
      var init, k := keys[..|keys| - 1], keys[|keys| - 1];
      assert init + [k] == keys;
      SelectedInOrder(init, env, answers);
      var before := Selected(init, env, answers);
      SubsequenceMore(Map(IdOf, before), init, k);
      if Passes(env, answers, k) {
        assert Map(IdOf, before + [RowFor(answers, k)]) == Map(IdOf, before) + [k];
        assert Selected(keys, env, answers) == before + [RowFor(answers, k)];
      }
    }
  }

  // ---------------------------------------------------------------- the two orders

  function AcqValue(key: SortKey, r: Row): nat {
    match key
    case Max => r.stat.acqMax
    case Count => r.stat.acqCount
    case Total => r.stat.acqTotal
  }

  function HldValue(key: SortKey, r: Row): nat {
    match key
    case Max => r.stat.hldMax
    case Count => r.stat.hldCount
    case Total => r.stat.hldTotal
  }

  /** larger_first on some value of the rows. */
  function LargerFirst(value: Row -> nat): (Row, Row) -> bool {
    (x: Row, y: Row) => value(x) >= value(y)
  }

  function ByAcq(env: Env): (Row, Row) -> bool {
    LargerFirst(r => AcqValue(env.sortAcq, r))
  }

  function ByHld(env: Env): (Row, Row) -> bool {
    LargerFirst(r => HldValue(env.sortHld, r))
  }

  function OnEntries(leq: (Row, Row) -> bool): (Entry, Entry) -> bool {
    (a: Entry, b: Entry) => leq(a.row, b.row)
  }

  lemma OnEntriesOrders(leq: (Row, Row) -> bool)
    requires TotalPreorder(leq)
    ensures TotalPreorder(OnEntries(leq))
  {
    var on := OnEntries(leq);
    forall x, y ensures on(x, y) || on(y, x) {
      assert leq(x.row, y.row) || leq(y.row, x.row);
    }
    forall x, y, z | on(x, y) && on(y, z) ensures on(x, z) {
      assert leq(x.row, y.row) && leq(y.row, z.row);
    }
  }

  lemma RowsSorted(es: seq<Entry>, leq: (Row, Row) -> bool)
    requires Sorted(es, OnEntries(leq))
    ensures Sorted(Map(RowOf, es), leq)
  {
    var rows := Map(RowOf, es);
    forall i, j | 0 <= i < j < |rows| ensures leq(rows[i], rows[j]) {
      assert OnEntries(leq)(es[i], es[j]);
    }
  }

  /** `qsort` of the pointer array: blocks and rows are only moved. */
  method SortEntries(es: seq<Entry>, leq: (Row, Row) -> bool) returns (r: seq<Entry>)
    requires TotalPreorder(leq)
    ensures |r| == |es| && SortedPermutation(Map(RowOf, r), Map(RowOf, es), leq)
    ensures Ptrs(r) == Ptrs(es)
  {
    OnEntriesOrders(leq);
    r := Sort(es, OnEntries(leq));
    PermutationLength(r, es);
    RowsSorted(r, leq);
    MapMultiset(RowOf, r, es);
    MapMultiset(PtrOf, r, es);
  }

  // ---------------------------------------------------------------- the blocks

  function Ptrs(es: seq<Entry>): multiset<nat> {
    multiset(Map(PtrOf, es))
  }

  lemma PtrsAppend(es: seq<Entry>, e: Entry)
    ensures Ptrs(es + [e]) == Ptrs(es) + multiset{e.ptr}
  {
    assert Map(PtrOf, es + [e]) == Map(PtrOf, es) + [e.ptr];
  }

  lemma PtrsHead(es: seq<Entry>)
    requires es != []
    ensures Ptrs(es) == Ptrs(es[1..]) + multiset{es[0].ptr}
  {
    MapHead(PtrOf, es);
  }

  lemma RowsAppend(es: seq<Entry>, e: Entry)
    ensures Map(RowOf, es + [e]) == Map(RowOf, es) + [e.row]
  {
  }

  lemma SwapBlock(ps: multiset<nat>, b: nat, p: nat)
    ensures ps + multiset{b} + multiset{p} - multiset{b} == ps + multiset{p}
    ensures ps + multiset{b} + multiset{p} - multiset{p} == ps + multiset{b}
    ensures ps + multiset{b} + multiset{p} == ps + multiset{p} + multiset{b}
  {
  }

  const Unset := Entry(0, Row(0, Stat(0, 0, 0, 0, 0, 0), 0))

  method CopyEntries(from: array<Entry>, n: nat, sz: nat) returns (to: array<Entry>)
    requires n <= from.Length && n <= sz
    ensures fresh(to) && to.Length == sz && to[..n] == from[..n]
  {
    to := new Entry[sz](_ => Unset);
    for i := 0 to n
      invariant to[..i] == from[..i]
    {
      to[i] := from[i];
    }
  }

  lemma LargerFirstOrders(value: Row -> nat)
    ensures TotalPreorder(LargerFirst(value))
  {
  }

  class Stats {
    const memory: Memory
    const cap: nat
    var block: nat
    var stats: array<Entry>
    var idx: nat
    var sz: nat
    /** The entries stored so far. */
    ghost var entries: seq<Entry>

    ghost predicate Stored()
      reads this, stats
    {
      idx <= stats.Length && idx <= sz <= cap && stats[..idx] == entries
    }

    /** The blocks held are the pointer array and one for each stored entry. */
    ghost predicate Owned()
      reads this, stats, memory
    {
      Stored() && memory.Valid() && memory.live == Ptrs(entries) + multiset{block}
    }

    ghost predicate Valid()
      reads this, stats, memory
    {
      Owned() && stats.Length == sz > 0
    }

    ghost function Rows(): seq<Row>
      reads this
    {
      Map(RowOf, entries)
    }

    /** The array of one pointer that the report starts with; `block` is what `calloc` returned for it. */
    constructor (memory: Memory, cap: nat, block: nat)
      requires cap > 0 && memory.Valid() && memory.live == multiset{block}
      ensures Valid() && Rows() == [] && this.memory == memory && this.cap == cap && idx == 0 && fresh(stats)
    {
      this.memory, this.cap, this.block := memory, cap, block;
      stats := new Entry[1][Unset];
      idx, sz, entries := 0, 1, [];
    }

    /** Room for one more pointer, or a failure that keeps the old array. */
    method Reserve() returns (ok: bool)
      requires Valid()
      modifies this`sz, this`stats, this`block, memory
      ensures Owned() && Rows() == old(Rows()) && (fresh(stats) || stats == old(stats))
      ensures ok ==> Valid() && idx < sz
      ensures idx < cap && (forall n :: memory.succeeds(n)) ==> ok
    {
      ok := true;
      if idx == sz {
        if sz == cap {
          return false;
        }
        sz := if sz * 2 > cap then cap else sz * 2;
        ok := Reallocate();
      }
    }

    /** `realloc` to `sz` pointers. */
    method Reallocate() returns (ok: bool)
      requires Owned() && idx == stats.Length < sz
      modifies this`stats, this`block, memory
      ensures Owned() && Rows() == old(Rows()) && (fresh(stats) || stats == old(stats))
      ensures ok ==> stats.Length == sz
      ensures (forall n :: memory.succeeds(n)) ==> ok
    {
      var p := memory.Malloc();
      if p.None? {
        return false;
      }
      SwapBlock(Ptrs(entries), block, p.value);
      var tmp := CopyEntries(stats, idx, sz);
      memory.Free(block);
      stats, block, ok := tmp, p.value, true;
    }

    /** The stored rows are those selected from the keys visited so far. */
    ghost predicate Collected(before: seq<U32>, env: Env, answers: Answers)
      reads this, stats, memory
    {
      Valid() && Rows() == Selected(before, env, answers)
    }

    /** The body of the loop over the map, for the key `k`. */
    method Take(k: U32, env: Env, answers: Answers, ghost visited: seq<U32>, ghost i: nat) returns (ok: bool)
      requires i < |visited| && k == visited[i] && Collected(visited[..i], env, answers)
      modifies this`sz, this`stats, this`block, this`idx, this`entries, stats, memory
      ensures Owned() && (fresh(stats) || stats == old(stats)) && idx <= old(idx) + 1
      ensures ok ==> Collected(visited[..i + 1], env, answers)
      ensures old(idx) < cap && (forall n :: memory.succeeds(n)) ==> ok
    {
      Snoc(visited, i);
      SelectedMore(visited[..i], k, env, answers);
      ok := Reserve();
      if ok {
        ok := Store(k, env, answers);
      }
    }

    method Store(k: U32, env: Env, answers: Answers) returns (ok: bool)
      requires Valid() && idx < sz
      modifies this`idx, this`entries, stats, memory
      ensures Owned() && idx <= old(idx) + 1
      ensures ok ==> Valid() && Rows() == old(Rows()) + if Passes(env, answers, k) then [RowFor(answers, k)] else []
      ensures (forall n :: memory.succeeds(n)) ==> ok
    {
      var p := memory.Malloc();
      if p.None? {
        return false;
      }
      ok := true;
      Fill(p.value, k, env, answers);
    }

    /** What becomes of a new block: freed again, or stored. */
    method Fill(p: nat, k: U32, env: Env, answers: Answers)
      requires Stored() && idx < stats.Length == sz
      requires memory.Valid() && memory.live == Ptrs(entries) + multiset{block} + multiset{p}
      modifies this`idx, this`entries, stats, memory`live
      ensures Valid() && idx <= old(idx) + 1
      ensures Rows() == old(Rows()) + if Passes(env, answers, k) then [RowFor(answers, k)] else []
    {
      SwapBlock(Ptrs(entries), block, p);
      if answers.stat(k).None? {
        memory.Free(p);
        return;
      }
      if !env.perThread && !CallerIsTraced(env, answers.symbol(answers.caller(k))) {
        memory.Free(p);
        return;
      }
      Put(Entry(p, RowFor(answers, k)));
    }

    method Put(e: Entry)
      requires Stored() && idx < stats.Length == sz
      modifies this`idx, this`entries, stats
      ensures Stored() && idx == old(idx) + 1 && entries == old(entries) + [e]
      ensures Ptrs(entries) == old(Ptrs(entries)) + multiset{e.ptr} && Rows() == old(Rows()) + [e.row]
    {
      PtrsAppend(entries, e);
      RowsAppend(entries, e);
      stats[idx] := e;
      idx := idx + 1;
      entries := entries + [e];
    }

    /** The while loop over the map. */
    method Collect(keys: seq<U32>, env: Env, answers: Answers) returns (ok: bool)
      requires Valid() && idx == 0 && NoDup(keys)
      modifies this`sz, this`stats, this`block, this`idx, this`entries, stats, memory
      ensures Owned() && (fresh(stats) || stats == old(stats))
      ensures ok ==> Collected(VisitedFrom(keys, 0), env, answers)
      ensures |keys| <= cap && (forall n :: memory.succeeds(n)) ==> ok
    {
      Traversal(keys, 0 as U32);
      ok := CollectVisited(keys, env, answers, VisitedFrom(keys, 0));
    }

    method CollectVisited(keys: seq<U32>, env: Env, answers: Answers, ghost visited: seq<U32>) returns (ok: bool)
      requires Valid() && idx == 0 && entries == [] && Traverses(keys, 0 as U32, visited)
      modifies this`sz, this`stats, this`block, this`idx, this`entries, stats, memory
      ensures Owned() && (fresh(stats) || stats == old(stats))
      ensures ok ==> Collected(visited, env, answers)
      ensures |visited| <= cap && (forall n :: memory.succeeds(n)) ==> ok
    {
      ghost var i := 0;
      var next := NextKey(keys, Some(0 as U32));
      while next.Some?
        invariant idx <= i <= |visited| && next == At(visited, i)
        invariant Collected(visited[..i], env, answers) && (fresh(stats) || stats == old(stats))
        decreases |visited| - i
      {
        var k := next.value;
        ok := Take(k, env, answers, visited, i);
        if !ok {
          return;
        }
        i := i + 1;
        next := NextKey(keys, Some(k));
      }
      ok := true;
      assert visited[..i] == visited;
    }

    /** Both ways out end here: every entry, then the array. */
    method Release()
      requires Owned()
      modifies memory
      ensures memory.Valid() && memory.live == multiset{}
    {
      for i := 0 to idx
        invariant memory.Valid() && memory.live == Ptrs(entries[i..]) + multiset{block}
      {
        PtrsHead(entries[i..]);
        assert entries[i..][1..] == entries[i + 1..] && stats[i] == stats[..idx][i];
        memory.Free(stats[i].ptr);
      }
      memory.Free(block);
    }

    /** One sort of the array in place, and the rows of its top. */
    method Top(leq: (Row, Row) -> bool, nrLocks: nat) returns (shown: seq<Row>, ghost all: seq<Row>)
      requires Valid() && TotalPreorder(leq)
      modifies this`entries, stats
      ensures Valid() && Rows() == all && SortedPermutation(all, old(Rows()), leq)
      ensures shown == First(all, nrLocks)
    {
      var sorted := SortEntries(stats[..idx], leq);
      forall i | 0 <= i < idx {
        stats[i] := sorted[i];
      }
      entries := sorted;
      all := Map(RowOf, sorted);
      var n := if nrLocks < idx then nrLocks else idx;
      shown := Map(RowOf, stats[..n]);
    }

    /** The two lists, from two sorts of the one array. */
    method Lists(env: Env) returns (acq: seq<Row>, hld: seq<Row>)
      requires Valid()
      modifies this`entries, stats
      ensures Valid() && multiset(Rows()) == old(multiset(Rows()))
      ensures Shows(acq, hld, old(Rows()), env)
    {
      ghost var rows := Rows();
      ghost var all;
      LargerFirstOrders(r => AcqValue(env.sortAcq, r));
      acq, all := Top(ByAcq(env), env.nrLocks);
      AcqShown(all, rows, env);
      LargerFirstOrders(r => HldValue(env.sortHld, r));
      hld, all := Top(ByHld(env), env.nrLocks);
      HldShown(all, rows, env);
    }
  }

  /** The start of a list, at most `n` long. */
  function First(rows: seq<Row>, n: nat): (r: seq<Row>)
    ensures r <= rows && |r| <= n && (|r| < n ==> r == rows)
  {
    if n < |rows| then rows[..n] else rows
  }

  /** The deletions that `env.reset` asks for; the map may refuse some, which goes unnoticed. */
  method DeleteRows(m: BpfMap<U32, Stat>, rows: seq<Row>, refuses: U32 -> bool)
    requires m.Valid()
    modifies m
    ensures m.Valid()
    ensures forall k :: k in m.keys <==> k in old(m.keys) && (HasId(rows, k) ==> refuses(k))
    ensures forall k :: k in m.keys ==> m.vals[k] == old(m.vals)[k]
  {
    for i := 0 to |rows|
      invariant m.Valid()
      invariant forall k :: k in m.keys <==> k in old(m.keys) && (HasId(rows[..i], k) ==> refuses(k))
      invariant forall k :: k in m.keys ==> m.vals[k] == old(m.vals)[k]
    {
      ghost var was := m.keys;
      var id := rows[i].stackId;
      if !refuses(id) {
        m.Delete(id);
      }
      forall k ensures k in m.keys <==> k in old(m.keys) && (HasId(rows[..i + 1], k) ==> refuses(k)) {
        RemoveExact(was, id, k);
        HasIdMore(rows, i, k);
      }
    }
    assert rows[..|rows|] == rows;
  }

  /** Deleting what was selected deletes exactly the keys that were found and passed. */
  method ResetMap(m: BpfMap<U32, Stat>, rows: seq<Row>, ghost visited: seq<U32>, env: Env, answers: Answers, refuses: U32 -> bool)
    requires m.Valid() && multiset(rows) == multiset(Selected(visited, env, answers))
    modifies m
    ensures m.Valid()
    ensures forall k :: k in m.keys <==> k in old(m.keys) && (k in visited && Passes(env, answers, k) ==> refuses(k))
    ensures forall k :: k in m.keys ==> m.vals[k] == old(m.vals)[k]
  {
    DeleteRows(m, rows, refuses);
    forall k ensures HasId(rows, k) <==> k in visited && Passes(env, answers, k) {
      SelectedIds(visited, env, answers, rows, k);
    }
  }

  predicate HasId(rows: seq<Row>, k: U32) {
    exists r :: r in rows && r.stackId == k
  }

  lemma HasIdMore(rows: seq<Row>, i: nat, k: U32)
    requires i < |rows|
    ensures HasId(rows[..i + 1], k) <==> HasId(rows[..i], k) || rows[i].stackId == k
  {
    Snoc(rows, i);
    assert rows[i] in rows[..i + 1];
  }

  lemma SelectedIds(keys: seq<U32>, env: Env, answers: Answers, rows: seq<Row>, k: U32)
    requires multiset(rows) == multiset(Selected(keys, env, answers))
    ensures HasId(rows, k) <==> k in keys && Passes(env, answers, k)
  {
    if HasId(rows, k) {
      var r :| r in rows && r.stackId == k;
      MultisetMember(rows, Selected(keys, env, answers), r);
      SelectedExact(keys, env, answers, r);
    }
    if k in keys && Passes(env, answers, k) {
      var r := RowFor(answers, k);
      MultisetMember(rows, Selected(keys, env, answers), r);
      SelectedExact(keys, env, answers, r);
    }
  }

  /** Of `rows`, `shown` are `n` (or all) with the largest values, in descending order. */
  ghost predicate Largest(shown: seq<Row>, rows: seq<Row>, n: nat, value: Row -> nat) {
    exists hidden :: Shown(shown, hidden, rows, n, value)
  }

  ghost predicate Shown(shown: seq<Row>, hidden: seq<Row>, rows: seq<Row>, n: nat, value: Row -> nat) {
    && multiset(shown + hidden) == multiset(rows) && |shown| <= n && (|shown| < n ==> hidden == [])
    && (forall i, j :: 0 <= i < j < |shown| ==> value(shown[i]) >= value(shown[j]))
    && (forall r, h :: r in shown && h in hidden ==> value(r) >= value(h))
  }

  lemma FirstIsLargest(all: seq<Row>, rows: seq<Row>, n: nat, key: Row -> nat, value: Row -> nat)
    requires SortedPermutation(all, rows, LargerFirst(key)) && forall r :: key(r) == value(r)
    ensures Largest(First(all, n), rows, n, value)
  {
    var shown := First(all, n);
    var hidden := all[|shown|..];
    assert shown + hidden == all;
    forall i, j | 0 <= i < j < |all| ensures value(all[i]) >= value(all[j]) {
      assert LargerFirst(key)(all[i], all[j]);
    }
    forall r, h | r in shown && h in hidden ensures value(r) >= value(h) {
      var i :| 0 <= i < |shown| && shown[i] == r;
      var j :| 0 <= j < |hidden| && hidden[j] == h;
      assert value(all[i]) >= value(all[|shown| + j]);
    }
    assert Shown(shown, hidden, rows, n, value);
  }

  /** What the two lists show of the selected rows: the largest by the times or counts asked for. */
  ghost predicate Shows(acq: seq<Row>, hld: seq<Row>, rows: seq<Row>, env: Env) {
    ShowsAcq(acq, rows, env) && ShowsHld(hld, rows, env)
  }

  ghost predicate ShowsAcq(acq: seq<Row>, rows: seq<Row>, env: Env) {
    match env.sortAcq
    case Max => Largest(acq, rows, env.nrLocks, (r: Row) => r.stat.acqMax)
    case Count => Largest(acq, rows, env.nrLocks, (r: Row) => r.stat.acqCount)
    case Total => Largest(acq, rows, env.nrLocks, (r: Row) => r.stat.acqTotal)
  }

  ghost predicate ShowsHld(hld: seq<Row>, rows: seq<Row>, env: Env) {
    match env.sortHld
    case Max => Largest(hld, rows, env.nrLocks, (r: Row) => r.stat.hldMax)
    case Count => Largest(hld, rows, env.nrLocks, (r: Row) => r.stat.hldCount)
    case Total => Largest(hld, rows, env.nrLocks, (r: Row) => r.stat.hldTotal)
  }

  lemma AcqShown(all: seq<Row>, rows: seq<Row>, env: Env)
    requires SortedPermutation(all, rows, ByAcq(env))
    ensures ShowsAcq(First(all, env.nrLocks), rows, env)
  {
    var key := (r: Row) => AcqValue(env.sortAcq, r);
    match env.sortAcq
    case Max => FirstIsLargest(all, rows, env.nrLocks, key, (r: Row) => r.stat.acqMax);
    case Count => FirstIsLargest(all, rows, env.nrLocks, key, (r: Row) => r.stat.acqCount);
    case Total => FirstIsLargest(all, rows, env.nrLocks, key, (r: Row) => r.stat.acqTotal);
  }

  lemma HldShown(all: seq<Row>, rows: seq<Row>, env: Env)
    requires SortedPermutation(all, rows, ByHld(env))
    ensures ShowsHld(First(all, env.nrLocks), rows, env)
  {
    var key := (r: Row) => HldValue(env.sortHld, r);
    match env.sortHld
    case Max => FirstIsLargest(all, rows, env.nrLocks, key, (r: Row) => r.stat.hldMax);
    case Count => FirstIsLargest(all, rows, env.nrLocks, key, (r: Row) => r.stat.hldCount);
    case Total => FirstIsLargest(all, rows, env.nrLocks, key, (r: Row) => r.stat.hldTotal);
  }

  /** print_stats; `maxEntries` is what the kernel says of the map, if it answers, and `refuses` which deletions it refuses. */
  method PrintStats(memory: Memory, m: BpfMap<U32, Stat>, maxEntries: Option<nat>, env: Env, answers: Answers, refuses: U32 -> bool)
    returns (ok: bool, acq: seq<Row>, hld: seq<Row>)
    requires memory.Valid() && memory.live == multiset{} && m.Valid()
    modifies memory, m
    ensures memory.Valid() && memory.live == multiset{} && m.Valid()
    ensures ok ==> Shows(acq, hld, Selected(VisitedFrom(old(m.keys), 0), env, answers), env)
    ensures forall k :: k in m.keys <==>
              k in old(m.keys) && (ok && env.reset && k in VisitedFrom(old(m.keys), 0) && Passes(env, answers, k) ==> refuses(k))
    ensures forall k :: k in m.keys ==> m.vals[k] == old(m.vals)[k]
    ensures (forall n :: memory.succeeds(n)) && maxEntries.Some? && maxEntries.value > 0 && |old(m.keys)| <= maxEntries.value ==> ok
  {
    ok, acq, hld := false, [], [];
    if maxEntries.None? || maxEntries.value == 0 {
      return;
    }
    var p := memory.Malloc();
    if p.None? {
      return;
    }
    var stats := new Stats(memory, maxEntries.value, p.value);
    ghost var visited := VisitedFrom(m.keys, 0);
    ok := stats.Collect(m.keys, env, answers);
    acq, hld := Report(stats, ok, m, visited, env, answers, refuses);
  }

  /** What follows the loop over the map, on either way out. */
  method Report(stats: Stats, ok: bool, m: BpfMap<U32, Stat>, ghost visited: seq<U32>, env: Env, answers: Answers, refuses: U32 -> bool)
    returns (acq: seq<Row>, hld: seq<Row>)
    requires stats.Owned() && (ok ==> stats.Collected(visited, env, answers)) && m.Valid()
    modifies stats, stats.stats, stats.memory, m
    ensures stats.memory.Valid() && stats.memory.live == multiset{} && m.Valid()
    ensures ok ==> Shows(acq, hld, Selected(visited, env, answers), env)
    ensures forall k :: k in m.keys <==>
              k in old(m.keys) && (ok && env.reset && k in visited && Passes(env, answers, k) ==> refuses(k))
    ensures forall k :: k in m.keys ==> m.vals[k] == old(m.vals)[k]
  {
    acq, hld := [], [];
    if ok {
      acq, hld := stats.Lists(env);
      if env.reset {
        ResetMap(m, Map(RowOf, stats.stats[..stats.idx]), visited, env, answers, refuses);
      }
    }
    stats.Release();
  }
}
