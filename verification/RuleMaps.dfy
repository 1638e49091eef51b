/**
 Loops that delete from a BPF map while they walk over it: the per-target clean-up of
 `net-limit`, which fetches the successor before it deletes, and `clear_rules` of
 `net-filter`, which resumes from the key it has just deleted.
 */
module RuleMaps {
  import opened Seqs
  import opened Basics
  import opened BpfMaps

  // ---------------------------------------------------------------- net-limit

  datatype BucketKey = BucketKey(scope: nat, direction: nat, id: nat)

  predicate Matches(k: BucketKey, scope: nat, id: nat) {
    k.scope == scope && k.id == id
  }

  /** The keys that do not belong to the target, in order. */
  function Others(keys: seq<BucketKey>, scope: nat, id: nat): seq<BucketKey> {
    if keys == [] then []
    else
      var last := keys[|keys| - 1];
      var before := Others(keys[..|keys| - 1], scope, id);
      if Matches(last, scope, id) then before else before + [last]
  }

  lemma {:induction false} OthersExact(keys: seq<BucketKey>, scope: nat, id: nat, k: BucketKey)
    ensures k in Others(keys, scope, id) <==> k in keys && !(k.scope == scope && k.id == id)
  {
    if keys != [] {
      OthersExact(keys[..|keys| - 1], scope, id, k);
      assert keys == keys[..|keys| - 1] + [keys[|keys| - 1]];
    }
  }

  /** Half-way through: the first `i` keys have been dealt with, the rest is untouched. */
  lemma {:induction false} OthersInOrder(keys: seq<BucketKey>, scope: nat, id: nat)
    ensures Subsequence(Others(keys, scope, id), keys)
  {
    if keys == [] {
      SubsequenceEmpty(keys);
    } else {
      var init, k := keys[..|keys| - 1], keys[|keys| - 1];
      assert init + [k] == keys;
      OthersInOrder(init, scope, id);
      SubsequenceMore(Others(init, scope, id), init, k);
    }
  }

  ghost function Remaining(keys: seq<BucketKey>, scope: nat, id: nat, i: nat): seq<BucketKey>
    requires i <= |keys|
  {
    Others(keys[..i], scope, id) + keys[i..]
  }

  lemma {:induction false} OthersNoDup(keys: seq<BucketKey>, scope: nat, id: nat)
    requires NoDup(keys)
    ensures NoDup(Others(keys, scope, id))
  {
    if keys != [] {
      var init, last := keys[..|keys| - 1], keys[|keys| - 1];
      OthersNoDup(init, scope, id);
      OthersExact(init, scope, id, last);
      ConcatNoDup(Others(init, scope, id), [last]);
    }
  }

  lemma RemainingNoDup(keys: seq<BucketKey>, scope: nat, id: nat, i: nat)
    requires NoDup(keys) && i <= |keys|
    ensures NoDup(Remaining(keys, scope, id, i))
  {
    OthersNoDup(keys[..i], scope, id);
    forall k | k in Others(keys[..i], scope, id) ensures k !in keys[i..] {
      OthersExact(keys[..i], scope, id, k);
    }
    ConcatNoDup(Others(keys[..i], scope, id), keys[i..]);
  }

  /** The successor fetched before the deletion is the next key of the original order. */
  lemma RemainingNext(keys: seq<BucketKey>, scope: nat, id: nat, i: nat)
    requires NoDup(keys) && i < |keys|
    ensures NextKey(Remaining(keys, scope, id, i), Some(keys[i])) ==
            if i + 1 < |keys| then Some(keys[i + 1]) else None
  {
    RemainingNoDup(keys, scope, id, i);
    var now, n := Remaining(keys, scope, id, i), |Others(keys[..i], scope, id)|;
    assert now[n] == keys[i];
    assert n + 1 < |now| ==> now[n + 1] == keys[i + 1];
    NextAt(now, n);
  }

  lemma RemainingStep(keys: seq<BucketKey>, scope: nat, id: nat, i: nat)
    requires NoDup(keys) && i < |keys|
    ensures Remaining(keys, scope, id, i + 1) ==
            if Matches(keys[i], scope, id) then Remove(Remaining(keys, scope, id, i), keys[i])
            else Remaining(keys, scope, id, i)
  {
    var before := Others(keys[..i], scope, id);
    assert keys[..i + 1][..i] == keys[..i];
    assert keys[i..] == [keys[i]] + keys[i + 1..];
    if Matches(keys[i], scope, id) {
      OthersExact(keys[..i], scope, id, keys[i]);
      RemoveConcat(before, keys[i..], keys[i]);
      RemoveAbsent(before, keys[i]);
      RemoveConcat([keys[i]], keys[i + 1..], keys[i]);
      assert keys[i] !in keys[i + 1..];
      RemoveAbsent(keys[i + 1..], keys[i]);
      assert Remove([keys[i]], keys[i]) == [];
    } else {
      Assoc(before, [keys[i]], keys[i + 1..]);
    }
  }

  lemma RemainingEnd(keys: seq<BucketKey>, scope: nat, id: nat)
    ensures Remaining(keys, scope, id, |keys|) == Others(keys, scope, id)
    ensures Remaining(keys, scope, id, 0) == keys
  {
    assert keys[..|keys|] == keys && keys[..0] == [];
  }

  lemma OthersAll(keys: seq<BucketKey>, scope: nat, id: nat)
    ensures forall k :: k in Others(keys, scope, id) <==> k in keys && !Matches(k, scope, id)
  {
    forall k ensures k in Others(keys, scope, id) <==> k in keys && !Matches(k, scope, id) {
      OthersExact(keys, scope, id, k);
    }
  }

  ghost predicate Keeps<V>(now: map<BucketKey, V>, before: map<BucketKey, V>) {
    forall k :: k in now ==> k in before && now[k] == before[k]
  }

  /** One round: the successor of `key` is fetched before `key` may go. */
  method DeleteOne<V>(m: BpfMap<BucketKey, V>, key: BucketKey, scope: nat, id: nat, ghost keys: seq<BucketKey>, ghost i: nat)
    returns (next: Option<BucketKey>)
    requires m.Valid() && NoDup(keys) && i < |keys| && key == keys[i]
    requires m.keys == Remaining(keys, scope, id, i)
    modifies m
    ensures m.Valid() && m.keys == Remaining(keys, scope, id, i + 1)
    ensures next == if i + 1 < |keys| then Some(keys[i + 1]) else None
    ensures Keeps(m.vals, old(m.vals))
  {
    RemainingNext(keys, scope, id, i);
    RemainingStep(keys, scope, id, i);
    var isMatch := Matches(key, scope, id);
    next := NextKey(m.keys, Some(key));
    if isMatch {
      m.Delete(key);
    }
  }

  /**
   `delete_stats_for_target` and `delete_buckets_for_target`: all keys of the target go, and
   nothing else changes, neither the other keys, nor their order, nor their values.
   */
  method DeleteForTarget<V>(m: BpfMap<BucketKey, V>, scope: nat, id: nat)
    requires m.Valid()
    modifies m
    ensures m.Valid()
    ensures m.keys == Others(old(m.keys), scope, id)
    ensures forall k :: k in m.vals <==> k in old(m.vals) && !(k.scope == scope && k.id == id)
    ensures Subsequence(m.keys, old(m.keys))
    ensures Keeps(m.vals, old(m.vals))
  {
    ghost var keys := m.keys;
    ghost var i := 0;
    RemainingEnd(keys, scope, id);
    var cursor := NextKey(m.keys, None);
    while cursor.Some?
      invariant m.Valid() && i <= |keys| && NoDup(keys)
      invariant m.keys == Remaining(keys, scope, id, i)
      invariant cursor == if i < |keys| then Some(keys[i]) else None
      invariant Keeps(m.vals, old(m.vals))
      decreases |keys| - i
    {
      cursor := DeleteOne(m, cursor.value, scope, id, keys, i);
      i := i + 1;
    }
    RemainingEnd(keys, scope, id);
    OthersAll(keys, scope, id);
    OthersInOrder(keys, scope, id);
  }

  // ---------------------------------------------------------------- net-filter

  /** Key 0 is in the map and nothing follows it, so a traversal that starts after 0 finds nothing. */
  predicate ZeroLast(keys: seq<U32>) {
    keys != [] && keys[|keys| - 1] == 0
  }

  lemma NothingAfterZero(keys: seq<U32>)
    requires NoDup(keys)
    ensures NextKey(keys, Some(0)) == None <==> keys == [] || ZeroLast(keys)
  {
    if 0 in keys {
      var i := IndexOf(keys, 0);
      NextAt(keys, i);
    }
  }

  class RuleTable<R> {
    const rules: BpfMap<U32, R>
    var keyCnt: U32
    /** Every id handed out so far. */
    ghost var given: seq<U32>

    /** What ids depend on. */
    ghost function Now(): State
      reads this, rules
    {
      State(rules.keys, keyCnt, given)
    }

    ghost predicate Valid()
      reads this, rules
    {
      rules.Valid()
    }

    constructor (first: U32)
      ensures Valid() && fresh(rules) && Now() == State([], first, [])
    {
      rules := new BpfMap();
      keyCnt, given := first, [];
    }

    /**
     `add_rule`: stores under the counter and moves the counter on, unless that id is taken
     or the map refuses (`full`). The counter is 32 bits wide and wraps.
     */
    method AddRule(rule: R, at: nat, full: bool) returns (id: Option<U32>)
      requires Valid() && at <= |rules.keys|
      modifies this`keyCnt, this`given, rules
      ensures Valid() && Now() == Step(old(Now()), Add(at, full))
      ensures id.Some? <==> !full && old(keyCnt) !in old(rules.keys)
      ensures id.Some? ==>
                && id.value == old(keyCnt) && keyCnt == (old(keyCnt) + 1) % 0x1_0000_0000
                && rules.keys == old(rules.keys)[..at] + [id.value] + old(rules.keys)[at..]
                && rules.vals == old(rules.vals)[id.value := rule]
      ensures id.None? ==> keyCnt == old(keyCnt) && rules.keys == old(rules.keys) && rules.vals == old(rules.vals)
    {
      if full || keyCnt in rules.keys {
        return None;
      }
      rules.Insert(keyCnt, rule, at);
      id, given := Some(keyCnt), given + [keyCnt];
      keyCnt := (keyCnt + 1) % 0x1_0000_0000;
    }

    method DelRule(id: U32)
      requires Valid()
      modifies rules
      ensures Valid() && Now() == Step(old(Now()), Del(id))
      ensures rules.keys == Remove(old(rules.keys), id) && rules.vals == old(rules.vals) - {id}
    {
      rules.Delete(id);
    }

    /**
     `clear_rules`: it always ends. It empties the map, except when key 0 is present and last
     in iteration order; then it changes nothing.
     */
    method ClearRules()
      requires Valid()
      modifies rules
      ensures Valid() && Now() == Step(old(Now()), Clear)
      ensures ZeroLast(old(rules.keys)) ==> rules.keys == old(rules.keys) && rules.vals == old(rules.vals)
      ensures !ZeroLast(old(rules.keys)) ==> rules.keys == []
    {
      NothingAfterZero(rules.keys);
      var key: U32 := 0;
      var next := NextKey(rules.keys, Some(key));
      while next.Some?
        invariant Valid()
        invariant next == NextKey(rules.keys, Some(key))
        invariant key !in rules.keys || (key == 0 && rules.keys == old(rules.keys) && rules.vals == old(rules.vals))
        invariant ZeroLast(old(rules.keys)) ==> key == 0 && rules.keys == old(rules.keys) && rules.vals == old(rules.vals)
        decreases |rules.keys|
      {
        var found := next.value;
        assert found in rules.keys;
        RemoveNoDup(rules.keys, found);
        RemoveExact(rules.keys, found, found);
        rules.Delete(found);
        key := found;
        next := NextKey(rules.keys, Some(key));
      }
      if key in rules.keys {
        NothingAfterZero(rules.keys);
      }
    }

    /** `dump_rules`: the rules after key 0 if there is a key 0, and all rules otherwise. */
    method DumpRules() returns (dump: map<U32, R>)
      requires Valid()
      ensures forall k :: k in dump <==> k in VisitedFrom(rules.keys, 0)
      ensures forall k :: k in dump ==> k in rules.vals && dump[k] == rules.vals[k]
      ensures (forall k :: k in rules.keys ==> k in dump) <==> 0 !in rules.keys
    {
      dump := map[];
      var key: U32 := 0;
      ghost var visited := VisitedFrom(rules.keys, 0);
      ghost var i := 0;
      TraversalStep(rules.keys, 0, 0);
      var next := NextKey(rules.keys, Some(key));
      while next.Some?
        invariant i <= |visited| && next == if i < |visited| then Some(visited[i]) else None
        invariant forall k :: k in dump <==> k in visited[..i]
        invariant forall k :: k in dump ==> k in rules.vals && dump[k] == rules.vals[k]
        decreases |visited| - i
      {
        key := next.value;
        assert key in visited && key in rules.keys;
        dump := dump[key := rules.vals[key]];
        assert visited[..i + 1] == visited[..i] + [key];
        i := i + 1;
        TraversalStep(rules.keys, 0, i);
        next := NextKey(rules.keys, Some(key));
      }
      assert visited[..i] == visited;
      TraversalComplete(rules.keys, 0);
    }

    /** Any run of commands on the table is a run of its transition function. */
    method Execute(ops: seq<Op>, rule: R)
      requires Valid()
      modifies this`keyCnt, this`given, rules
      ensures Valid() && Now() == Run(old(Now()), ops)
    {
      ghost var start := Now();
      for i := 0 to |ops|
        invariant Valid() && Now() == Run(start, ops[..i])
      {
        assert ops[..i + 1][..i] == ops[..i];
        match ops[i]
        case Add(at, full) =>
          var n := |rules.keys|;
          StepClamped(Now(), at, full);
          var _ := AddRule(rule, if at <= n then at else n, full);
        case Del(id) => DelRule(id);
        case Clear => ClearRules();
      }
      assert ops[..|ops|] == ops;
    }
  }

  // ---------------------------------------------------------------- rule ids over a run

  datatype Op = Add(at: nat, full: bool) | Del(id: U32) | Clear

  /** The part of a rule table that ids depend on. `given` lists every id handed out so far. */
  datatype State = State(keys: seq<U32>, keyCnt: U32, given: seq<U32>)

  function Step(s: State, op: Op): State {
    match op
    case Add(at, full) =>
      if full || s.keyCnt in s.keys then s
      else
        var i := if at <= |s.keys| then at else |s.keys|;
        State(s.keys[..i] + [s.keyCnt] + s.keys[i..], (s.keyCnt + 1) % 0x1_0000_0000, s.given + [s.keyCnt])
    case Del(id) => s.(keys := Remove(s.keys, id))
    case Clear => if ZeroLast(s.keys) then s else s.(keys := [])
  }

  /** A place past the end of the iteration order is its end. */
  lemma StepClamped(s: State, at: nat, full: bool)
    ensures Step(s, Add(at, full)) == Step(s, Add(if at <= |s.keys| then at else |s.keys|, full))
  {
  }

  function Run(s: State, ops: seq<Op>): State {
    if ops == [] then s else Step(Run(s, ops[..|ops| - 1]), ops[|ops| - 1])
  }

  function Adds(ops: seq<Op>): nat {
    if ops == [] then 0 else Adds(ops[..|ops| - 1]) + (if ops[|ops| - 1].Add? then 1 else 0)
  }

  ghost predicate Counting(s: State, first: U32) {
    && first <= s.keyCnt
    && (forall k :: k in s.keys ==> k in s.given)
    && (forall i :: 0 <= i < |s.given| ==> first <= s.given[i] < s.keyCnt)
    && (forall i, j :: 0 <= i < j < |s.given| ==> s.given[i] < s.given[j])
  }

  lemma StepCounts(s: State, op: Op, first: U32)
    requires Counting(s, first) && s.keyCnt < 0xffff_ffff
    ensures Counting(Step(s, op), first)
    ensures s.keyCnt <= Step(s, op).keyCnt <= s.keyCnt + if op.Add? then 1 else 0
  {
    match op
    case Add(at, full) =>
      if !full && s.keyCnt !in s.keys {
        var i := if at <= |s.keys| then at else |s.keys|;
        forall k | k in s.keys[..i] + [s.keyCnt] + s.keys[i..] ensures k in s.given + [s.keyCnt] {
          assert k in s.keys || k == s.keyCnt;
        }
      }
    case Del(id) =>
      forall k | k in Remove(s.keys, id) ensures k in s.given {
        RemoveExact(s.keys, id, k);
      }
    case Clear =>
  }

  /**
   Over any run of adds, deletes and clears, as long as the counter has not wrapped, rule
   ids are handed out in strictly increasing order: none is ever given twice, not even after
   its rule was deleted.
   */
  lemma {:induction false} IdsNeverReused(first: U32, ops: seq<Op>)
    requires first + Adds(ops) <= 0xffff_ffff
    ensures Counting(Run(State([], first, []), ops), first)
    ensures Run(State([], first, []), ops).keyCnt <= first + Adds(ops)
  {
    if ops != [] {
      IdsNeverReused(first, ops[..|ops| - 1]);
      var s := Run(State([], first, []), ops[..|ops| - 1]);
      if s.keyCnt < 0xffff_ffff {
        StepCounts(s, ops[|ops| - 1], first);
      } else {
        CountingAtEnd(s, ops[|ops| - 1], first);
      }
    }
  }

  lemma CountingAtEnd(s: State, op: Op, first: U32)
    requires Counting(s, first) && !op.Add?
    ensures Counting(Step(s, op), first) && Step(s, op).keyCnt == s.keyCnt
  {
    if op.Del? {
      forall k | k in Remove(s.keys, op.id) ensures k in s.given {
        RemoveExact(s.keys, op.id, k);
      }
    }
  }

  /** So a table that starts counting at 1 or more never holds key 0: `clear_rules` empties it and `dump_rules` shows all of it. */
  lemma ClearAlwaysEmpties(first: U32, ops: seq<Op>)
    requires first > 0 && first + Adds(ops) <= 0xffff_ffff
    ensures 0 !in Run(State([], first, []), ops).keys
    ensures Step(Run(State([], first, []), ops), Clear).keys == []
  {
    IdsNeverReused(first, ops);
  }
}
