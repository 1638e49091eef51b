/**
 Egress shaping of `net-limit`: an HTB class on the device and a rule in the kernel map that
 sends a cgroup's packets to it. Adding creates the class before the rule, deleting removes
 the rule before the class, so that no stored rule points at a class that does not exist,
 whichever step fails.
 */
module Shaping {
  import opened Basics
  import Shell

  /** `(1 << 16) | minor`, with the minor taken from the low 16 bits of the cgroup id. */
  function ClassId(cgid: nat): nat {
    var minor := cgid % 0x1_0000;
    0x1_0000 + (if minor == 0 || minor == 0xffff then 10 else minor)
  }

  /** The minor is never 0 and never that of the default class, and the major is always 1. */
  lemma ClassIdRange(cgid: nat)
    ensures 1 <= ClassId(cgid) % 0x1_0000 <= 0xfffe && ClassId(cgid) / 0x1_0000 == 1
    ensures 1 <= cgid % 0x1_0000 <= 0xfffe ==> ClassId(cgid) % 0x1_0000 == cgid % 0x1_0000
    ensures cgid % 0x1_0000 == 0 || cgid % 0x1_0000 == 0xffff ==> ClassId(cgid) % 0x1_0000 == 10
  {
  }

  predicate FallsBack(cgid: nat) {
    cgid % 0x1_0000 == 0 || cgid % 0x1_0000 == 0xffff || cgid % 0x1_0000 == 10
  }

  /** Two cgroups share a class exactly when their low 16 bits agree or both end up at minor 10. */
  lemma Collide(a: nat, b: nat)
    ensures ClassId(a) == ClassId(b) <==> a % 0x1_0000 == b % 0x1_0000 || (FallsBack(a) && FallsBack(b))
  {
  }

  function Hex(n: nat): string {
    if n < 16 then [HexDigit(n)] else Hex(n / 16) + [HexDigit(n % 16)]
  }

  lemma {:induction false} HexIsWord(n: nat)
    ensures Hex(n) != [] && forall i :: 0 <= i < |Hex(n)| ==> Shell.WordChar(Hex(n)[i])
  {
    if n >= 16 {
      HexIsWord(n / 16);
    }
  }

  /** The number that hexadecimal digits stand for. */
  function HexNumber(s: string): nat {
    if s == [] then 0
    else
      var c := s[|s| - 1];
      16 * HexNumber(s[..|s| - 1]) + (if '0' <= c <= '9' then (c - '0') as nat else if 'a' <= c <= 'f' then 10 + (c - 'a') as nat else 0)
  }

  lemma {:induction false} HexReads(n: nat)
    ensures HexNumber(Hex(n)) == n
  {
    if n >= 16 {
      HexReads(n / 16);
      assert Hex(n)[..|Hex(n)| - 1] == Hex(n / 16);
    } else {
      assert Hex(n)[..0] == [];
    }
  }

  /** The text of a class id is its two halves, which can be read back from it. */
  lemma ClassIdReads(cgid: nat)
    ensures exists minor :: ClassIdText(ClassId(cgid)) == "1:" + minor && HexNumber(minor) == ClassId(cgid) % 0x1_0000
  {
    HexReads(ClassId(cgid) % 0x1_0000);
    ClassIdRange(cgid);
    assert Hex(1) == "1" && "1" + ":" == "1:";
    assert ClassIdText(ClassId(cgid)) == "1:" + Hex(ClassId(cgid) % 0x1_0000);
  }

  function ClassIdText(classid: nat): string {
    Hex(classid / 0x1_0000) + ":" + Hex(classid % 0x1_0000)
  }

  /** The class id printed into a command is one bare word, so the command has the words it should have. */
  lemma AddCommand(dev: string, cgid: nat, rate: string)
    ensures Shell.Words(Shell.AddClass(dev, ClassIdText(ClassId(cgid)), rate)) ==
            Some(["tc", "class", "replace", "dev"] + [dev] +
                 ["parent", "1:", "classid", ClassIdText(ClassId(cgid)), "htb", "rate"] + [rate] + ["ceil"] + [rate])
  {
    var id := ClassId(cgid);
    HexIsWord(id / 0x1_0000);
    HexIsWord(id % 0x1_0000);
    Shell.WordCharsBare(ClassIdText(id));
    Shell.AddClassWords(dev, ClassIdText(id), rate);
  }

  // ---------------------------------------------------------------- the state and its steps

  /** Live classes of the device, and the rules stored in the kernel map by cgroup id. */
  datatype State = State(classes: set<nat>, rules: map<nat, nat>)

  /** A command, with what the outside world answers at each step. */
  datatype Op =
    | Add(cgid: nat, tcOk: bool, mapOpens: bool, updateOk: bool)
    | Del(cgid: nat, mapOpens: bool, deleteOk: bool, tcOk: bool)

  function Step(s: State, op: Op): State {
    match op
    case Add(cgid, tcOk, mapOpens, updateOk) =>
      if !tcOk then s
      else if mapOpens && updateOk then State(s.classes + {ClassId(cgid)}, s.rules[cgid := ClassId(cgid)])
      else State(s.classes + {ClassId(cgid)}, s.rules)
    case Del(cgid, mapOpens, deleteOk, tcOk) =>
      State(if tcOk then s.classes - {ClassId(cgid)} else s.classes,
            if mapOpens && deleteOk then s.rules - {cgid} else s.rules)
  }

  /** No other cgroup gains, loses or changes its rule. */
  ghost predicate SameElsewhere(now: map<nat, nat>, before: map<nat, nat>, cgid: nat) {
    forall k :: k != cgid ==> (k in now <==> k in before) && (k in now ==> now[k] == before[k])
  }

  /** The device and the pinned map, changed one command at a time. */
  class Shaper {
    var classes: set<nat>
    var rules: map<nat, nat>

    function Now(): State
      reads this
    {
      State(classes, rules)
    }

    constructor ()
      ensures Now() == State({}, map[])
    {
      classes, rules := {}, map[];
    }

    /** `do_shape_add`: class first, rule second; the result is the exit status. */
    method ShapeAdd(cgid: nat, tcOk: bool, mapOpens: bool, updateOk: bool) returns (status: nat)
      modifies this
      ensures Now() == Step(old(Now()), Add(cgid, tcOk, mapOpens, updateOk))
      ensures status == 0 <==> tcOk && mapOpens && updateOk
      ensures SameElsewhere(rules, old(rules), cgid) && (forall c :: c != ClassId(cgid) ==> (c in classes <==> c in old(classes)))
      ensures status == 0 ==> cgid in rules && rules[cgid] == ClassId(cgid) && rules[cgid] in classes
      ensures status != 0 ==> rules == old(rules)
      ensures ClassId(cgid) in classes <==> tcOk || ClassId(cgid) in old(classes)
    {
      var minor := cgid % 0x1_0000;
      var classid := 0x1_0000 + minor;
      if classid % 0x1_0000 == 0 || classid % 0x1_0000 == 0xffff {
        classid := 0x1_0000 + 10;
      }
      if !tcOk {
        return 1;
      }
      classes := classes + {classid};
      if !mapOpens || !updateOk {
        return 1;
      }
      rules := rules[cgid := classid];
      return 0;
    }

    /** `do_shape_del`: rule first, class second; it reports success whatever happened. */
    method ShapeDel(cgid: nat, mapOpens: bool, deleteOk: bool, tcOk: bool)
      modifies this
      ensures Now() == Step(old(Now()), Del(cgid, mapOpens, deleteOk, tcOk))
      ensures SameElsewhere(rules, old(rules), cgid) && (forall c :: c != ClassId(cgid) ==> (c in classes <==> c in old(classes)))
      ensures if mapOpens && deleteOk then cgid !in rules else rules == old(rules)
      ensures ClassId(cgid) in classes <==> !tcOk && ClassId(cgid) in old(classes)
    {
      var minor := cgid % 0x1_0000;
      var classid := 0x1_0000 + minor;
      if classid % 0x1_0000 == 0 || classid % 0x1_0000 == 0xffff {
        classid := 0x1_0000 + 10;
      }
      if mapOpens && deleteOk {
        rules := rules - {cgid};
      }
      if tcOk {
        classes := classes - {classid};
      }
    }
  }

  // ---------------------------------------------------------------- safety

  /** Every stored rule names its cgroup's class, and that class is live. */
  ghost predicate Safe(s: State) {
    forall k :: k in s.rules ==> s.rules[k] == ClassId(k) && s.rules[k] in s.classes
  }

  /** Does this delete take its own rule out of the map? */
  predicate TakesRule(op: Op) {
    op.Del? && op.mapOpens && op.deleteOk
  }

  /** The command would delete a class that some rule still needs after it. */
  ghost predicate Orphans(s: State, op: Op) {
    op.Del? && op.tcOk &&
    exists k :: k in s.rules && ClassId(k) == ClassId(op.cgid) && (k != op.cgid || !TakesRule(op))
  }

  /** Exactly when a command keeps the state safe, whatever fails on the way. */
  lemma SafeIff(s: State, op: Op)
    requires Safe(s)
    ensures Safe(Step(s, op)) <==> !Orphans(s, op)
  {
    var t := Step(s, op);
    if Orphans(s, op) {
      var k :| k in s.rules && ClassId(k) == ClassId(op.cgid) && (k != op.cgid || !TakesRule(op));
      assert k in t.rules && t.rules[k] !in t.classes;
    }
  }

  function Run(ops: seq<Op>): State {
    if ops == [] then State({}, map[]) else Step(Run(ops[..|ops| - 1]), ops[|ops| - 1])
  }

  /** Does this command write the cgroup's rule? */
  predicate StoresRule(op: Op) {
    op.Add? && op.tcOk && op.mapOpens && op.updateOk
  }

  /** Some command satisfies `on`, and none after it satisfies `off`. */
  ghost predicate LastIs(ops: seq<Op>, on: Op -> bool, off: Op -> bool) {
    exists i :: 0 <= i < |ops| && on(ops[i]) && forall j :: i < j < |ops| ==> !off(ops[j])
  }

  lemma LastIsMore(ops: seq<Op>, op: Op, on: Op -> bool, off: Op -> bool)
    requires !(on(op) && off(op))
    ensures LastIs(ops + [op], on, off) <==> on(op) || (!off(op) && LastIs(ops, on, off))
  {
    var all := ops + [op];
    if LastIs(all, on, off) && !on(op) {
      var i :| 0 <= i < |all| && on(all[i]) && forall j :: i < j < |all| ==> !off(all[j]);
      assert !off(all[|ops|]);
      assert on(ops[i]) && forall j :: i < j < |ops| ==> !off(ops[j]) by {
        forall j | i < j < |ops| ensures !off(ops[j]) {
          assert ops[j] == all[j];
        }
      }
    }
    if on(op) {
      assert on(all[|ops|]);
    } else if !off(op) && LastIs(ops, on, off) {
      var i :| 0 <= i < |ops| && on(ops[i]) && forall j :: i < j < |ops| ==> !off(ops[j]);
      assert on(all[i]);
    }
  }

  /**
   What a run leaves behind. A cgroup has a rule exactly when the last command on it that got as
   far as the map was an add, and the rule is its own class. A class is there exactly when the
   last command for it that `tc` carried out was an add.
   */
  lemma {:induction false} RunLeaves(ops: seq<Op>, k: nat, c: nat)
    ensures k in Run(ops).rules <==>
            LastIs(ops, (op: Op) => op.cgid == k && StoresRule(op), (op: Op) => op.cgid == k && TakesRule(op))
    ensures k in Run(ops).rules ==> Run(ops).rules[k] == ClassId(k)
    ensures c in Run(ops).classes <==>
            LastIs(ops, (op: Op) => ClassId(op.cgid) == c && op.Add? && op.tcOk, (op: Op) => ClassId(op.cgid) == c && op.Del? && op.tcOk)
  {
    if ops != [] {
      var init, op := ops[..|ops| - 1], ops[|ops| - 1];
      assert init + [op] == ops;
      RunLeaves(init, k, c);
      LastIsMore(init, op, (op: Op) => op.cgid == k && StoresRule(op), (op: Op) => op.cgid == k && TakesRule(op));
      LastIsMore(init, op, (op: Op) => ClassId(op.cgid) == c && op.Add? && op.tcOk, (op: Op) => ClassId(op.cgid) == c && op.Del? && op.tcOk);
    }
  }

  ghost predicate NoCollisions(ops: seq<Op>) {
    forall i, j :: 0 <= i < |ops| && 0 <= j < |ops| && ClassId(ops[i].cgid) == ClassId(ops[j].cgid) ==>
                     ops[i].cgid == ops[j].cgid
  }

  /** No delete gets rid of its class while its rule stays: the map could not be opened, or refused. */
  ghost predicate RulesGoFirst(ops: seq<Op>) {
    forall i :: 0 <= i < |ops| ==> ops[i].Del? && ops[i].tcOk ==> TakesRule(ops[i])
  }

  lemma {:induction false} RulesFromRun(ops: seq<Op>, k: nat)
    requires k in Run(ops).rules
    ensures exists i :: 0 <= i < |ops| && ops[i].cgid == k
  {
    var init, last := ops[..|ops| - 1], ops[|ops| - 1];
    if k in Run(init).rules {
      RulesFromRun(init, k);
      var i :| 0 <= i < |init| && init[i].cgid == k;
      assert ops[i].cgid == k;
    } else {
      assert last.cgid == k;
    }
  }

  /**
   Over any run of adds and deletes whose cgroups have different classes, no stored rule ever
   points at a missing class. Every step may fail, except that a delete which fails on the rule
   must fail on the class too: the code goes on to delete the class in either case.
   */
  lemma {:induction false} AlwaysSafe(ops: seq<Op>)
    requires NoCollisions(ops) && RulesGoFirst(ops)
    ensures Safe(Run(ops))
  {
    if ops != [] {
      var init, last := ops[..|ops| - 1], ops[|ops| - 1];
      AlwaysSafe(init);
      SafeIff(Run(init), last);
      if Orphans(Run(init), last) {
        var k :| k in Run(init).rules && ClassId(k) == ClassId(last.cgid) && (k != last.cgid || !TakesRule(last));
        RulesFromRun(init, k);
        assert false;
      }
    }
  }

  /**
   Both conditions are needed: a delete leaves a rule dangling with a shared class, with a map
   that cannot be opened, and with a map that refuses the deletion.
   */
  lemma CollisionDangles()
    ensures !Safe(Run([Add(10, true, true, true), Add(0x1_000a, true, true, true), Del(10, true, true, true)]))
    ensures !Safe(Run([Add(5, true, true, true), Del(5, false, true, true)]))
    ensures !Safe(Run([Add(5, true, true, true), Del(5, true, false, true)]))
  {
    SharedClassDangles(10, 0x1_000a);
    KeptRuleDangles(5, Del(5, false, true, true));
    KeptRuleDangles(5, Del(5, true, false, true));
  }

  /** Adding two cgroups with one class and deleting the first always leaves the second without its class. */
  lemma SharedClassDangles(x: nat, y: nat)
    requires x != y && ClassId(x) == ClassId(y)
    ensures !Safe(Run([Add(x, true, true, true), Add(y, true, true, true), Del(x, true, true, true)]))
  {
    var a, b, d := Add(x, true, true, true), Add(y, true, true, true), Del(x, true, true, true);
    RunMore([a, b], d);
    RunMore([a], b);
    RunMore([], a);
    assert [] + [a] == [a] && [a] + [b] == [a, b] && [a, b] + [d] == [a, b, d];
    var c := ClassId(x);
    assert Run([a]) == State({c}, map[x := c]);
    assert Run([a, b]) == State({c}, map[x := c, y := c]);
    var s := Run([a, b, d]);
    assert s.classes == {} && y in s.rules;
  }

  /** Adding a cgroup and then deleting its class but not its rule always ends in a dangling rule. */
  lemma KeptRuleDangles(cgid: nat, del: Op)
    requires del.Del? && del.cgid == cgid && del.tcOk && !TakesRule(del)
    ensures !Safe(Run([Add(cgid, true, true, true), del]))
  {
    var a := Add(cgid, true, true, true);
    RunMore([a], del);
    RunMore([], a);
    assert [] + [a] == [a] && [a] + [del] == [a, del];
    var t := Run([a, del]);
    assert cgid in t.rules && t.rules[cgid] !in t.classes;
  }

  lemma RunMore(ops: seq<Op>, op: Op)
    ensures Run(ops + [op]) == Step(Run(ops), op)
  {
    assert (ops + [op])[..|ops|] == ops;
  }
}
