/**
 Orphan subtrees: the representatives below a representative whose parent is alive but
 represents no namespace. `lsns` prints them last, each with the tree below it.
 */
module NsOrphans {
  import opened Seqs
  import opened NsForest

  /** `x` climbs to `r` in `n` parent steps. */
  ghost predicate Climbs(f: Forest, x: Pid, r: Pid, n: nat)
    decreases n
  {
    if n == 0 then x == r else x in f.parent && Climbs(f, f.parent[x], r, n - 1)
  }

  ghost predicate Reaches(f: Forest, r: Pid, x: Pid) {
    exists n: nat :: Climbs(f, x, r, n)
  }

  lemma ReachesChild(f: Forest, r: Pid, x: Pid, c: Pid)
    requires Reaches(f, r, x) && c in f.Kids(x)
    ensures Reaches(f, r, c)
  {
    var n: nat :| Climbs(f, x, r, n);
    assert Climbs(f, c, r, n + 1);
  }

  lemma {:induction false} ReachesThrough(f: Forest, r: Pid, m: Pid, x: Pid)
    requires Reaches(f, r, m) && Reaches(f, m, x)
    ensures Reaches(f, r, x)
  {
    var n: nat :| Climbs(f, x, m, n);
    ClimbOn(f, r, m, x, n);
  }

  lemma {:induction false} ClimbOn(f: Forest, r: Pid, m: Pid, x: Pid, n: nat)
    requires Reaches(f, r, m) && Climbs(f, x, m, n)
    ensures Reaches(f, r, x)
    decreases n
  {
    if n > 0 {
      ClimbOn(f, r, m, f.parent[x], n - 1);
      assert x in f.Kids(f.parent[x]);
      ReachesChild(f, r, f.parent[x], x);
    }
  }

  /** Nobody outside `s` has a parent inside it. */
  ghost predicate Closed(f: Forest, s: set<Pid>) {
    forall x :: x in f.parent && f.parent[x] in s ==> x in s
  }

  lemma {:induction false} ClosedHoldsAll(f: Forest, s: set<Pid>, r: Pid, x: Pid, n: nat)
    requires Closed(f, s) && r in s && Climbs(f, x, r, n)
    ensures x in s
    decreases n
  {
    if n > 0 {
      ClosedHoldsAll(f, s, r, f.parent[x], n - 1);
    }
  }

  /** Below a root, climbing and walking down are the same thing. */
  lemma {:induction false} ClimbToRoot(f: Forest, r: Pid, x: Pid, n: nat) returns (q: Path)
    requires f.Root(r) && Climbs(f, x, r, n)
    ensures IsPath(f, q) && q.node == x && q.Ancestor(0) == Top(r)
    decreases n
  {
    if n == 0 {
      q := Top(x);
    } else {
      q := ClimbToRoot(f, r, f.parent[x], n - 1);
      q := Below(q, x);
    }
  }

  lemma {:induction false} WalkClimbs(f: Forest, q: Path)
    requires IsPath(f, q)
    ensures Climbs(f, q.node, q.Ancestor(0).node, q.Depth())
  {
    if q.Below? {
      WalkClimbs(f, q.up);
    }
  }

  /** Everything in the set is finished (its children are in the set) except what is on the stack. */
  ghost predicate Finished(f: Forest, s: set<Pid>, stack: set<Pid>) {
    forall x, c :: x in s && x !in stack && c in f.Kids(x) ==> c in s
  }

  class OrphanSet {
    const f: Forest
    var members: set<Pid>

    constructor (f: Forest)
      ensures this.f == f && members == {}
    {
      this.f := f;
      members := {};
    }

    /**
     The recursive lambda. It stops at members, so it ends on any parent relation, cyclic
     ones included, and it adds `r` and only what is below `r`.
     */
    method Collect(r: Pid, ghost stack: set<Pid>)
      requires r in f.inum && members <= f.inum.Keys && Finished(f, members, stack)
      modifies this`members
      ensures old(members) + {r} <= members <= f.inum.Keys
      ensures Finished(f, members, stack)
      ensures forall x :: x in members && x !in old(members) ==> Reaches(f, r, x)
      decreases f.inum.Keys - members
    {
      if r in members {
        return;
      }
      members := members + {r};
      assert Climbs(f, r, r, 0);
      var ch := f.Kids(r);
      for i := 0 to |ch|
        invariant old(members) + {r} <= members <= f.inum.Keys
        invariant Finished(f, members, stack + {r})
        invariant forall k :: 0 <= k < i ==> ch[k] in members
        invariant forall x :: x in members && x !in old(members) ==> Reaches(f, r, x)
      {
        assert ch[i] in ch && f.inum.Keys - members < f.inum.Keys - old(members);
        ReachesChild(f, r, r, ch[i]);
        ghost var before := members;
        Collect(ch[i], stack + {r});
        forall x | x in members && x !in before ensures Reaches(f, r, x) {
          ReachesThrough(f, r, ch[i], x);
        }
      }
    }

    /** From every orphan root: exactly the representatives reachable from one of them. */
    method CollectAll(orphanRoots: set<Pid>)
      requires members == {} && orphanRoots <= f.inum.Keys
      modifies this`members
      ensures Closed(f, members)
      ensures forall x :: x in members <==> exists r :: r in orphanRoots && Reaches(f, r, x)
    {
      var todo := orphanRoots;
      while todo != {}
        invariant todo <= orphanRoots
        invariant orphanRoots - todo <= members <= f.inum.Keys
        invariant Finished(f, members, {})
        invariant forall x :: x in members ==> exists r :: r in orphanRoots && Reaches(f, r, x)
        decreases todo
      {
        ghost var some := Member(todo);
        var r :| r in todo;
        Collect(r, {});
        todo := todo - {r};
      }
      forall x | x in f.parent && f.parent[x] in members ensures x in members {
        assert x in f.Kids(f.parent[x]);
      }
      forall x, r | r in orphanRoots && Reaches(f, r, x) ensures x in members {
        var n: nat :| Climbs(f, x, r, n);
        ClosedHoldsAll(f, members, r, x, n);
      }
    }
  }

  /**
   When the orphan roots are roots of the forest, as `BuildForest` leaves them, every orphan
   hangs below exactly one of them, and representatives on a cycle are never orphans.
   */
  lemma OrphansHang(f: Forest, orphanRoots: set<Pid>, members: set<Pid>, x: Pid)
    requires forall r :: r in orphanRoots ==> f.Root(r)
    requires forall y :: y in members <==> exists r :: r in orphanRoots && Reaches(f, r, y)
    ensures x in members <==> exists q :: IsPath(f, q) && q.node == x && q.Ancestor(0).node in orphanRoots
    ensures forall q, q' :: IsPath(f, q) && IsPath(f, q') && q.node == q'.node ==> q == q'
  {
    if x in members {
      var r :| r in orphanRoots && Reaches(f, r, x);
      var n: nat :| Climbs(f, x, r, n);
      var q := ClimbToRoot(f, r, x, n);
    }
    if q :| IsPath(f, q) && q.node == x && q.Ancestor(0).node in orphanRoots {
      WalkClimbs(f, q);
      assert Reaches(f, q.Ancestor(0).node, x);
    }
    forall q, q' | IsPath(f, q) && IsPath(f, q') && q.node == q'.node ensures q == q' {
      PathUnique(f, q, q');
    }
  }
}
