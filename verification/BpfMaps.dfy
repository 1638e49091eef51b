/**
 A BPF hash map as user space sees it: its keys in iteration order, and a value for each.
 `bpf_map_get_next_key` gives the key after the cursor, the first key when the cursor is
 absent from the map (or NULL), and fails when the cursor is the last key.
 */
module BpfMaps {
  import opened Seqs
  import opened Basics

  function IndexOf<K(==)>(keys: seq<K>, k: K): (i: nat)
    requires k in keys
    ensures i < |keys| && keys[i] == k
  {
    if keys[0] == k then 0 else 1 + IndexOf(keys[1..], k)
  }

  function NextKey<K(==)>(keys: seq<K>, cursor: Option<K>): Option<K> {
    if cursor.Some? && cursor.value in keys then
      var i := IndexOf(keys, cursor.value);
      if i + 1 < |keys| then Some(keys[i + 1]) else None
    else if keys == [] then None else Some(keys[0])
  }

  lemma {:induction false} IndexUnique<K>(keys: seq<K>, i: nat)
    requires NoDup(keys) && i < |keys|
    ensures IndexOf(keys, keys[i]) == i
  {
    if i > 0 {
      IndexUnique(keys[1..], i - 1);
      assert keys[0] != keys[i];
      assert keys[1..][i - 1] == keys[i];
    }
  }

  lemma NextAt<K>(keys: seq<K>, i: nat)
    requires NoDup(keys) && i < |keys|
    ensures NextKey(keys, Some(keys[i])) == if i + 1 < |keys| then Some(keys[i + 1]) else None
  {
    IndexUnique(keys, i);
  }

  /** What a traversal that starts at a given cursor key visits: everything, unless the cursor is itself a key. */
  function VisitedFrom<K(==)>(keys: seq<K>, start: K): seq<K> {
    if start in keys then keys[IndexOf(keys, start) + 1..] else keys
  }

  /** The cursor after `i` rounds of `while (get_next_key(&cursor, &next) == 0) cursor = next`. */
  function CursorAt<K(==)>(keys: seq<K>, start: K, i: nat): K
    requires i <= |VisitedFrom(keys, start)|
  {
    if i == 0 then start else VisitedFrom(keys, start)[i - 1]
  }

  /** Such a loop over an unchanging map goes through exactly `VisitedFrom`, in order, and then stops. */
  lemma TraversalStep<K>(keys: seq<K>, start: K, i: nat)
    requires NoDup(keys) && i <= |VisitedFrom(keys, start)|
    ensures var visited := VisitedFrom(keys, start);
            NextKey(keys, Some(CursorAt(keys, start, i))) == if i < |visited| then Some(visited[i]) else None
  {
    var visited := VisitedFrom(keys, start);
    var base := if start in keys then IndexOf(keys, start) + 1 else 0;
    if i > 0 {
      assert visited[i - 1] == keys[base + i - 1];
      NextAt(keys, base + i - 1);
    }
  }

  /** Asking for the next key again and again, from `start`, gives `visited` and then nothing. */
  ghost predicate Traverses<K(!new)>(keys: seq<K>, start: K, visited: seq<K>) {
    && NextKey(keys, Some(start)) == At(visited, 0)
    && forall i :: 0 <= i < |visited| ==> NextKey(keys, Some(visited[i])) == At(visited, i + 1)
  }

  lemma Traversal<K(!new)>(keys: seq<K>, start: K)
    requires NoDup(keys)
    ensures Traverses(keys, start, VisitedFrom(keys, start)) && |VisitedFrom(keys, start)| <= |keys|
  {
    var visited := VisitedFrom(keys, start);
    TraversalStep(keys, start, 0);
    forall i | 0 <= i < |visited| ensures NextKey(keys, Some(visited[i])) == At(visited, i + 1) {
      TraversalStep(keys, start, i + 1);
    }
  }

  /** A traversal from `start` visits every key exactly when `start` is not a key. */
  lemma TraversalComplete<K>(keys: seq<K>, start: K)
    requires NoDup(keys)
    ensures (forall k :: k in keys ==> k in VisitedFrom(keys, start)) <==> start !in keys
  {
    if start in keys {
      var i := IndexOf(keys, start);
      assert start !in keys[i + 1..];
    }
  }

  function Remove<K(==)>(keys: seq<K>, k: K): seq<K> {
    if keys == [] then []
    else if keys[0] == k then Remove(keys[1..], k)
    else [keys[0]] + Remove(keys[1..], k)
  }

  lemma {:induction false} RemoveExact<K>(keys: seq<K>, k: K, x: K)
    ensures x in Remove(keys, k) <==> x in keys && x != k
  {
    if keys != [] {
      RemoveExact(keys[1..], k, x);
    }
  }

  lemma {:induction false} RemoveNoDup<K>(keys: seq<K>, k: K)
    requires NoDup(keys)
    ensures NoDup(Remove(keys, k))
    ensures |Remove(keys, k)| == if k in keys then |keys| - 1 else |keys|
  {
    if keys != [] {
      RemoveNoDup(keys[1..], k);
      RemoveExact(keys[1..], k, keys[0]);
    }
  }

  lemma {:induction false} RemoveConcat<K>(a: seq<K>, b: seq<K>, k: K)
    ensures Remove(a + b, k) == Remove(a, k) + Remove(b, k)
  {
    if a == [] {
      assert a + b == b;
    } else {
      assert (a + b)[1..] == a[1..] + b;
      RemoveConcat(a[1..], b, k);
    }
  }

  lemma {:induction false} RemoveAbsent<K>(keys: seq<K>, k: K)
    requires k !in keys
    ensures Remove(keys, k) == keys
  {
    if keys != [] {
      RemoveAbsent(keys[1..], k);
      assert keys == [keys[0]] + keys[1..];
    }
  }

  class BpfMap<K(==, !new), V> {
    var keys: seq<K>
    var vals: map<K, V>

    ghost predicate Valid()
      reads this
    {
      NoDup(keys) && forall k :: k in vals <==> k in keys
    }

    constructor ()
      ensures Valid() && keys == [] && vals == map[]
    {
      keys, vals := [], map[];
    }

    /** `bpf_map_update_elem` of a new key; `at` is where the hash puts it in the iteration order. */
    method Insert(k: K, v: V, at: nat)
      requires Valid() && k !in keys && at <= |keys|
      modifies this
      ensures Valid()
      ensures keys == old(keys)[..at] + [k] + old(keys)[at..] && vals == old(vals)[k := v]
    {
      var before := keys;
      keys := keys[..at] + [k] + keys[at..];
      vals := vals[k := v];
      assert before == before[..at] + before[at..];
      InsertNoDup(before, k, at);
      forall x ensures x in vals <==> x in keys {
        assert x in before <==> x in before[..at] || x in before[at..];
      }
    }

    /** `bpf_map_delete_elem`: the other keys keep their order. */
    method Delete(k: K)
      requires Valid()
      modifies this
      ensures Valid()
      ensures keys == Remove(old(keys), k) && vals == old(vals) - {k}
    {
      RemoveNoDup(keys, k);
      forall x ensures x in Remove(keys, k) <==> x in keys && x != k {
        RemoveExact(keys, k, x);
      }
      keys := Remove(keys, k);
      vals := vals - {k};
    }
  }

  lemma InsertNoDup<K>(keys: seq<K>, k: K, at: nat)
    requires NoDup(keys) && k !in keys && at <= |keys|
    ensures NoDup(keys[..at] + [k] + keys[at..])
  {
    var r := keys[..at] + [k] + keys[at..];
    forall i, j | 0 <= i < j < |r| ensures r[i] != r[j] {
      assert i < at ==> r[i] == keys[i];
      assert i > at ==> r[i] == keys[i - 1];
      assert j < at ==> r[j] == keys[j];
      assert j > at ==> r[j] == keys[j - 1];
    }
  }
}
