/**
 * The lock table and the two walks over it: `lock_along_the_path`, which
 * takes a lock on every node below the root on a path (shared, except an
 * exclusive lock on the last node of an exclusive request) and does the
 * replica bookkeeping at each node, and `unlock_previous`, which releases
 * them. The table maps a node's path to the state of its lock; a node with
 * no entry yet gets a fresh lock when the lock walk reaches it.
 */
module Walks {
  import opened Wrappers
  import opened Storage
  import opened Paths
  import opened Locks
  import opened Tree
  import opened Replicas
  import opened Effects

  type LockMap = map<Path, LockState>

  /** The lock of a node: its entry, or a fresh lock where the table has none. */
  function LockOf(locks: LockMap, q: Path): LockState
  {
    if q in locks then locks[q] else FRESH
  }

  /** One node's lock after the walk locks it: exclusively if it is the final node of an exclusive walk, shared otherwise. */
  function Locked(s: LockState, final: bool): LockState
  {
    if final then GrantExclusive(RequestExclusive(s)) else AcquireShared(s)
  }

  /** One node's lock after `unlock_previous` releases it. */
  function Released(s: LockState, final: bool): LockState
  {
    if final then ReleaseExclusive(s) else ReleaseShared(s)
  }

  /** The lock can be taken without waiting. */
  predicate CanLock(s: LockState, final: bool)
  {
    if final then CanGrantExclusive(RequestExclusive(s)) else CanShare(s)
  }

  /** Releasing a lock that could be taken and was taken gives back the lock as it was. */
  lemma LockedThenReleased(s: LockState, final: bool)
    requires CanLock(s, final)
    ensures Released(Locked(s, final), final) == s
  {
    if final {
      ExclusiveRoundTrip(s);
    } else {
      SharedRoundTrip(s);
    }
  }

  /** What every lock keeps: no negative count of waiting writers, and mutual exclusion. */
  predicate LockValid(s: LockState)
  {
    s.writeRequests >= 0 && MutualExclusion(s)
  }

  /** Taking a lock that is free to take, and releasing one, keep it valid. */
  lemma LockingKeepsValid(s: LockState, final: bool)
    requires LockValid(s)
    ensures CanLock(s, final) ==> LockValid(Locked(s, final))
    ensures LockValid(Released(s, final))
    ensures LockValid(FRESH)
  {
  }

  ghost predicate TableValid(locks: LockMap)
  {
    forall q | q in locks :: LockValid(locks[q])
  }

  /** The walk's i-th node (1-based) is the final one of an exclusive walk. */
  predicate IsFinal(parts: Path, exclusive: bool, i: nat)
  {
    exclusive && i == |parts|
  }

  /** Every node the walk locks can be locked without waiting, in the table as it was before the walk. */
  predicate LockGuards(locks: LockMap, parts: Path, exclusive: bool)
  {
    forall i | 1 <= i <= |parts| :: CanLock(LockOf(locks, parts[..i]), IsFinal(parts, exclusive, i))
  }

  /** `q` is one of the nodes parts[..1], ..., parts[..k]. */
  predicate OnPath(q: Path, parts: Path, k: nat)
  {
    1 <= |q| <= k && |q| <= |parts| && q == parts[..|q|]
  }

  // ---------------------------------------------------------------------
  // The lock table during `lock_along_the_path`
  // ---------------------------------------------------------------------

  /** The table once the walk has locked parts[..1], ..., parts[..k]. */
  function LockedUpTo(locks: LockMap, parts: Path, exclusive: bool, k: nat): LockMap
    requires k <= |parts|
  {
    if k == 0 then locks
    else
      var prev := LockedUpTo(locks, parts, exclusive, k - 1);
      prev[parts[..k] := Locked(LockOf(prev, parts[..k]), IsFinal(parts, exclusive, k))]
  }

  /**
   * Each node on the path is locked once, from the state it had before the
   * walk; every other entry is left alone.
   */
  lemma {:induction false} LockedUpToAt(locks: LockMap, parts: Path, exclusive: bool, k: nat, q: Path)
    requires k <= |parts|
    ensures LockOf(LockedUpTo(locks, parts, exclusive, k), q) ==
            if OnPath(q, parts, k) then Locked(LockOf(locks, q), IsFinal(parts, exclusive, |q|)) else LockOf(locks, q)
  {
    if k > 0 {
      LockedUpToAt(locks, parts, exclusive, k - 1, q);
    }
  }

  /** The walk adds an entry for every node it locks and drops none. */
  lemma {:induction false} LockedUpToKeys(locks: LockMap, parts: Path, exclusive: bool, k: nat)
    requires k <= |parts|
    ensures LockedUpTo(locks, parts, exclusive, k).Keys == locks.Keys + set i | 1 <= i <= k :: parts[..i]
  {
    if k > 0 {
      LockedUpToKeys(locks, parts, exclusive, k - 1);
    }
  }

  /** With the guards met, locking keeps every lock in the table valid. */
  lemma LockedUpToValid(locks: LockMap, parts: Path, exclusive: bool, k: nat)
    requires k <= |parts| && TableValid(locks) && LockGuards(locks, parts, exclusive)
    ensures TableValid(LockedUpTo(locks, parts, exclusive, k))
  {
    var r := LockedUpTo(locks, parts, exclusive, k);
    forall q | q in r
      ensures LockValid(r[q])
    {
      LockedUpToAt(locks, parts, exclusive, k, q);
      LockingKeepsValid(LockOf(locks, q), IsFinal(parts, exclusive, |q|));
    }
  }

  // ---------------------------------------------------------------------
  // Entries of removed nodes
  // ---------------------------------------------------------------------

  /**
   * The entries of the nodes still in the tree. The server's table is keyed
   * by node objects, so once `delete` unhooks a node its entry can never be
   * looked up again; the model drops it.
   */
  function LiveLocks(locks: LockMap, nodes: Nodes): LockMap
  {
    map q | q in locks && q in nodes :: locks[q]
  }

  /**
   * After the entries of removed nodes are dropped, a node no longer in the
   * tree has no entry, so a node created later at the same path starts with
   * a fresh lock (or, for `unlock`, no entry at all); the nodes still in the
   * tree keep theirs.
   */
  lemma LiveLocksAt(locks: LockMap, nodes: Nodes, q: Path)
    ensures q !in nodes ==> q !in LiveLocks(locks, nodes) && LockOf(LiveLocks(locks, nodes), q) == FRESH
    ensures q in nodes ==> (q in LiveLocks(locks, nodes) <==> q in locks)
                           && LockOf(LiveLocks(locks, nodes), q) == LockOf(locks, q)
  {
  }

  /** Dropping entries keeps every remaining lock valid, and drops nothing when every entry names a node. */
  lemma LiveLocksFacts(locks: LockMap, nodes: Nodes)
    ensures LiveLocks(locks, nodes).Keys <= nodes.Keys
    ensures TableValid(locks) ==> TableValid(LiveLocks(locks, nodes))
    ensures locks.Keys <= nodes.Keys ==> LiveLocks(locks, nodes) == locks
  {
  }

  // ---------------------------------------------------------------------
  // `unlock_previous`
  // ---------------------------------------------------------------------

  /**
   * `unlock_previous` over parts[..1], ..., parts[..k] of a path present in
   * the tree: each entry is released, shared except the final node of an
   * exclusive request; a node with no entry in the table is a null
   * dereference, with the earlier releases kept.
   */
  function UnlockedUpTo(locks: LockMap, parts: Path, exclusive: bool, k: nat): (LockMap, Completion)
    requires k <= |parts|
  {
    if k == 0 then (locks, Normal)
    else
      var prev := UnlockedUpTo(locks, parts, exclusive, k - 1);
      var q := parts[..k];
      if prev.1 == NullDereference then prev
      else if q !in prev.0 then (prev.0, NullDereference)
      else (prev.0[q := Released(prev.0[q], IsFinal(parts, exclusive, k))], Normal)
  }

  /** Unlocking a path whose first node has no lock entry fails, changing nothing. */
  lemma {:induction false} UnlockWithoutEntryFails(locks: LockMap, parts: Path, exclusive: bool, k: nat)
    requires 1 <= k <= |parts| && parts[..1] !in locks
    ensures UnlockedUpTo(locks, parts, exclusive, k) == (locks, NullDereference)
  {
    if k > 1 {
      UnlockWithoutEntryFails(locks, parts, exclusive, k - 1);
    }
  }

  /** Unlocking releases each node on the path once; every other entry is left alone. */
  lemma {:induction false} UnlockedUpToAt(locks: LockMap, parts: Path, exclusive: bool, k: nat, q: Path)
    requires k <= |parts|
    requires forall i | 1 <= i <= k :: parts[..i] in locks
    ensures UnlockedUpTo(locks, parts, exclusive, k).1 == Normal
    ensures UnlockedUpTo(locks, parts, exclusive, k).0.Keys == locks.Keys
    ensures LockOf(UnlockedUpTo(locks, parts, exclusive, k).0, q) ==
            if OnPath(q, parts, k) then Released(LockOf(locks, q), IsFinal(parts, exclusive, |q|)) else LockOf(locks, q)
  {
    if k > 0 {
      UnlockedUpToAt(locks, parts, exclusive, k - 1, q);
      UnlockedUpToAt(locks, parts, exclusive, k - 1, parts[..k]);
      assert parts[..k] in locks;
    }
  }

  /** Unlocking drops no entry and keeps every lock in the table valid. */
  lemma {:induction false} UnlockedUpToValid(locks: LockMap, parts: Path, exclusive: bool, k: nat)
    requires k <= |parts|
    ensures UnlockedUpTo(locks, parts, exclusive, k).0.Keys == locks.Keys
    ensures TableValid(locks) ==> TableValid(UnlockedUpTo(locks, parts, exclusive, k).0)
  {
    if k > 0 {
      UnlockedUpToValid(locks, parts, exclusive, k - 1);
      var prev := UnlockedUpTo(locks, parts, exclusive, k - 1);
      if TableValid(locks) && prev.1 == Normal && parts[..k] in prev.0 {
        LockingKeepsValid(prev.0[parts[..k]], IsFinal(parts, exclusive, k));
      }
    }
  }

  /**
   * Lock then unlock: when every lock on the path could be taken, unlocking
   * the same path with the same mode succeeds and gives back every lock as
   * it was (entries the lock walk created stay, as fresh locks).
   */
  lemma LockThenUnlock(locks: LockMap, parts: Path, exclusive: bool)
    requires LockGuards(locks, parts, exclusive)
    ensures var locked := LockedUpTo(locks, parts, exclusive, |parts|);
            var unlocked := UnlockedUpTo(locked, parts, exclusive, |parts|);
            && unlocked.1 == Normal
            && forall q :: LockOf(unlocked.0, q) == LockOf(locks, q)
  {
    var locked := LockedUpTo(locks, parts, exclusive, |parts|);
    LockedUpToKeys(locks, parts, exclusive, |parts|);
    assert forall i | 1 <= i <= |parts| :: parts[..i] in locked;
    var unlocked := UnlockedUpTo(locked, parts, exclusive, |parts|);
    UnlockedUpToAt(locked, parts, exclusive, |parts|, []);
    forall q
      ensures LockOf(unlocked.0, q) == LockOf(locks, q)
    {
      UnlockedUpToAt(locked, parts, exclusive, |parts|, q);
      LockedUpToAt(locks, parts, exclusive, |parts|, q);
      if OnPath(q, parts, |parts|) {
        assert CanLock(LockOf(locks, parts[..|q|]), IsFinal(parts, exclusive, |q|));
        LockedThenReleased(LockOf(locks, q), IsFinal(parts, exclusive, |q|));
      }
    }
  }

  // ---------------------------------------------------------------------
  // `lock_along_the_path`: locks and replica bookkeeping together
  // ---------------------------------------------------------------------

  /** Every prefix of the path, the root included, is a node. */
  predicate PathPresent(nodes: Nodes, parts: Path)
  {
    forall j | 0 <= j <= |parts| :: parts[..j] in nodes
  }

  /** In a well-formed tree that is the same as the path being present. */
  lemma PathPresentIff(nodes: Nodes, parts: Path)
    requires WellFormed(nodes)
    ensures PathPresent(nodes, parts) <==> parts in nodes
  {
    if parts in nodes {
      forall j | 0 <= j <= |parts|
        ensures parts[..j] in nodes
      {
        PrefixInNodes(nodes, parts, j);
      }
    } else {
      assert parts[..|parts|] == parts;
    }
  }

  /** The tree, the requests sent, the lock table, how many nodes were locked, and how the walk ended. */
  datatype WalkState = WalkState(nodes: Nodes, issued: seq<Command>, locks: LockMap, taken: nat, completion: Completion)

  /**
   * The first k steps of `lock_along_the_path` on a present path: lock the
   * node, then do its bookkeeping. A null dereference in the bookkeeping
   * (replicating a file with no host) ends the walk there.
   */
  function LockWalk(nodes: Nodes, issued: seq<Command>, locks: LockMap, parts: Path, exclusive: bool,
                    registered: seq<StorageInfo>, k: nat): (w: WalkState)
    requires PathPresent(nodes, parts) && k <= |parts|
    ensures PathPresent(w.nodes, parts)
    ensures w.taken <= k && (w.completion == Normal ==> w.taken == k)
    decreases k, 1
  {
    if k == 0 then WalkState(nodes, issued, locks, 0, Normal)
    else
      var w := LockWalk(nodes, issued, locks, parts, exclusive, registered, k - 1);
      if w.completion == NullDereference then w
      else
        var q := parts[..k];
        var o := StepOutcome(nodes, issued, locks, parts, exclusive, registered, k);
        WalkState(o.nodes, o.issued, w.locks[q := Locked(LockOf(w.locks, q), IsFinal(parts, exclusive, k))], k, o.completion)
  }

  /** The bookkeeping of step k: the visit of parts[..k] in the tree the first k - 1 steps left. */
  function StepOutcome(nodes: Nodes, issued: seq<Command>, locks: LockMap, parts: Path, exclusive: bool,
                       registered: seq<StorageInfo>, k: nat): (o: Outcome)
    requires PathPresent(nodes, parts) && 1 <= k <= |parts|
    ensures PathPresent(o.nodes, parts)
    decreases k, 0
  {
    var w := LockWalk(nodes, issued, locks, parts, exclusive, registered, k - 1);
    var q := parts[..k];
    var final := IsFinal(parts, exclusive, k);
    VisitEffectFacts(w.nodes, w.issued, q, final, registered);
    VisitEffect(w.nodes, w.issued, q, final, registered)
  }

  /** Step k's bookkeeping, unfolded: the visit of parts[..k] in the tree the first k - 1 steps left. */
  lemma StepOutcomeIs(nodes: Nodes, issued: seq<Command>, locks: LockMap, parts: Path, exclusive: bool,
                      registered: seq<StorageInfo>, k: nat)
    requires PathPresent(nodes, parts) && 1 <= k <= |parts|
    ensures var w := LockWalk(nodes, issued, locks, parts, exclusive, registered, k - 1);
            && parts[..k] in w.nodes
            && StepOutcome(nodes, issued, locks, parts, exclusive, registered, k)
               == VisitEffect(w.nodes, w.issued, parts[..k], IsFinal(parts, exclusive, k), registered)
  {
  }

  /** A step that completes in a well-formed tree leaves it well formed. */
  lemma StepKeepsWellFormed(nodes: Nodes, issued: seq<Command>, locks: LockMap, parts: Path, exclusive: bool,
                            registered: seq<StorageInfo>, k: nat)
    requires PathPresent(nodes, parts) && 1 <= k <= |parts|
    ensures var w := LockWalk(nodes, issued, locks, parts, exclusive, registered, k - 1);
            WellFormed(w.nodes) ==> WellFormed(LockWalk(nodes, issued, locks, parts, exclusive, registered, k).nodes)
  {
    var w := LockWalk(nodes, issued, locks, parts, exclusive, registered, k - 1);
    if w.completion == Normal {
      StepOutcomeIs(nodes, issued, locks, parts, exclusive, registered, k);
      VisitEffectFacts(w.nodes, w.issued, parts[..k], IsFinal(parts, exclusive, k), registered);
    }
  }

  /** A step only appends requests. */
  lemma StepAppends(nodes: Nodes, issued: seq<Command>, locks: LockMap, parts: Path, exclusive: bool,
                    registered: seq<StorageInfo>, k: nat)
    requires PathPresent(nodes, parts) && 1 <= k <= |parts|
    ensures var w := LockWalk(nodes, issued, locks, parts, exclusive, registered, k - 1);
            var r := LockWalk(nodes, issued, locks, parts, exclusive, registered, k);
            |w.issued| <= |r.issued| && r.issued[..|w.issued|] == w.issued
  {
    var w := LockWalk(nodes, issued, locks, parts, exclusive, registered, k - 1);
    if w.completion == Normal {
      StepOutcomeIs(nodes, issued, locks, parts, exclusive, registered, k);
      VisitEffectFacts(w.nodes, w.issued, parts[..k], IsFinal(parts, exclusive, k), registered);
    }
  }

  /** A step adds or removes no node and changes at most node parts[..k]. */
  lemma StepFrame(nodes: Nodes, issued: seq<Command>, locks: LockMap, parts: Path, exclusive: bool,
                  registered: seq<StorageInfo>, k: nat)
    requires PathPresent(nodes, parts) && 1 <= k <= |parts|
    ensures var w := LockWalk(nodes, issued, locks, parts, exclusive, registered, k - 1);
            var r := LockWalk(nodes, issued, locks, parts, exclusive, registered, k);
            && r.nodes.Keys == w.nodes.Keys
            && forall x | x in w.nodes && x != parts[..k] :: r.nodes[x] == w.nodes[x]
  {
    var w := LockWalk(nodes, issued, locks, parts, exclusive, registered, k - 1);
    if w.completion == Normal {
      StepOutcomeIs(nodes, issued, locks, parts, exclusive, registered, k);
      VisitEffectFacts(w.nodes, w.issued, parts[..k], IsFinal(parts, exclusive, k), registered);
    }
  }

  /** A step fails only on a file, not locked exclusively, without a host. */
  lemma StepFails(nodes: Nodes, issued: seq<Command>, locks: LockMap, parts: Path, exclusive: bool,
                  registered: seq<StorageInfo>, k: nat)
    requires PathPresent(nodes, parts) && 1 <= k <= |parts|
    requires LockWalk(nodes, issued, locks, parts, exclusive, registered, k - 1).completion == Normal
    requires LockWalk(nodes, issued, locks, parts, exclusive, registered, k).completion == NullDereference
    ensures var w := LockWalk(nodes, issued, locks, parts, exclusive, registered, k - 1);
            parts[..k] in w.nodes && !IsFinal(parts, exclusive, k) && w.nodes[parts[..k]].host.None?
  {
    var w := LockWalk(nodes, issued, locks, parts, exclusive, registered, k - 1);
    StepOutcomeIs(nodes, issued, locks, parts, exclusive, registered, k);
    VisitEffectFacts(w.nodes, w.issued, parts[..k], IsFinal(parts, exclusive, k), registered);
  }

  /** The lock table the walk leaves is the table with the nodes it got to locked. */
  lemma {:induction false} LockWalkLocks(nodes: Nodes, issued: seq<Command>, locks: LockMap, parts: Path, exclusive: bool,
                                         registered: seq<StorageInfo>, k: nat)
    requires PathPresent(nodes, parts) && k <= |parts|
    ensures var w := LockWalk(nodes, issued, locks, parts, exclusive, registered, k);
            w.locks == LockedUpTo(locks, parts, exclusive, w.taken)
  {
    if k > 0 {
      LockWalkLocks(nodes, issued, locks, parts, exclusive, registered, k - 1);
      var w := LockWalk(nodes, issued, locks, parts, exclusive, registered, k - 1);
      if w.completion != NullDereference {
        assert w.taken == k - 1;
        assert LockWalk(nodes, issued, locks, parts, exclusive, registered, k).taken == k;
      }
    }
  }

  /** The walk keeps the tree well formed. */
  lemma {:induction false} LockWalkKeepsWellFormed(nodes: Nodes, issued: seq<Command>, locks: LockMap, parts: Path,
                                                   exclusive: bool, registered: seq<StorageInfo>, k: nat)
    requires PathPresent(nodes, parts) && k <= |parts| && WellFormed(nodes)
    ensures WellFormed(LockWalk(nodes, issued, locks, parts, exclusive, registered, k).nodes)
  {
    if k > 0 {
      LockWalkKeepsWellFormed(nodes, issued, locks, parts, exclusive, registered, k - 1);
      StepKeepsWellFormed(nodes, issued, locks, parts, exclusive, registered, k);
    }
  }

  /** The walk only appends requests. */
  lemma {:induction false} LockWalkAppends(nodes: Nodes, issued: seq<Command>, locks: LockMap, parts: Path,
                                           exclusive: bool, registered: seq<StorageInfo>, k: nat)
    requires PathPresent(nodes, parts) && k <= |parts|
    ensures var w := LockWalk(nodes, issued, locks, parts, exclusive, registered, k);
            |issued| <= |w.issued| && w.issued[..|issued|] == issued
  {
    if k > 0 {
      LockWalkAppends(nodes, issued, locks, parts, exclusive, registered, k - 1);
      StepAppends(nodes, issued, locks, parts, exclusive, registered, k);
      var w := LockWalk(nodes, issued, locks, parts, exclusive, registered, k - 1);
      var r := LockWalk(nodes, issued, locks, parts, exclusive, registered, k);
      assert r.issued[..|issued|] == r.issued[..|w.issued|][..|issued|];
    }
  }

  /** The walk adds or removes no node and changes only nodes on the path it has reached. */
  lemma {:induction false} LockWalkFrame(nodes: Nodes, issued: seq<Command>, locks: LockMap, parts: Path,
                                         exclusive: bool, registered: seq<StorageInfo>, k: nat)
    requires PathPresent(nodes, parts) && k <= |parts|
    ensures var w := LockWalk(nodes, issued, locks, parts, exclusive, registered, k);
            && w.nodes.Keys == nodes.Keys
            && forall q | q in nodes && !OnPath(q, parts, k) :: w.nodes[q] == nodes[q]
  {
    if k > 0 {
      LockWalkFrame(nodes, issued, locks, parts, exclusive, registered, k - 1);
      StepFrame(nodes, issued, locks, parts, exclusive, registered, k);
      var w := LockWalk(nodes, issued, locks, parts, exclusive, registered, k - 1);
      var r := LockWalk(nodes, issued, locks, parts, exclusive, registered, k);
      forall x | x in nodes && !OnPath(x, parts, k)
        ensures x in r.nodes && r.nodes[x] == nodes[x]
      {
        assert x != parts[..k];
      }
    }
  }

  /** The walk adds lock entries only for nodes of the tree. */
  lemma LockWalkKeysInTree(nodes: Nodes, issued: seq<Command>, locks: LockMap, parts: Path,
                           exclusive: bool, registered: seq<StorageInfo>, k: nat)
    requires PathPresent(nodes, parts) && k <= |parts| && locks.Keys <= nodes.Keys
    ensures var w := LockWalk(nodes, issued, locks, parts, exclusive, registered, k);
            w.locks.Keys <= w.nodes.Keys
  {
    var w := LockWalk(nodes, issued, locks, parts, exclusive, registered, k);
    LockWalkLocks(nodes, issued, locks, parts, exclusive, registered, k);
    LockedUpToKeys(locks, parts, exclusive, w.taken);
    LockWalkFrame(nodes, issued, locks, parts, exclusive, registered, k);
  }

  /** The walk fails only on a file on the path, not locked exclusively, without a host. */
  lemma {:induction false} LockWalkFails(nodes: Nodes, issued: seq<Command>, locks: LockMap, parts: Path,
                                         exclusive: bool, registered: seq<StorageInfo>, k: nat)
    requires PathPresent(nodes, parts) && k <= |parts|
    requires LockWalk(nodes, issued, locks, parts, exclusive, registered, k).completion == NullDereference
    ensures exists i | 1 <= i <= k :: !IsFinal(parts, exclusive, i) && nodes[parts[..i]].host.None?
  {
    var w := LockWalk(nodes, issued, locks, parts, exclusive, registered, k - 1);
    if w.completion == NullDereference {
      LockWalkFails(nodes, issued, locks, parts, exclusive, registered, k - 1);
    } else {
      StepFails(nodes, issued, locks, parts, exclusive, registered, k);
      LockWalkFrame(nodes, issued, locks, parts, exclusive, registered, k - 1);
      assert !OnPath(parts[..k], parts, k - 1);
      assert !IsFinal(parts, exclusive, k) && nodes[parts[..k]].host.None?;
    }
  }

  /**
   * After an exclusive walk that completes, the locked node's counter is 0
   * and only the replicas the deletion loop skipped are still listed.
   */
  lemma ExclusiveWalkClearsReplicas(nodes: Nodes, issued: seq<Command>, locks: LockMap, parts: Path,
                                     registered: seq<StorageInfo>)
    requires PathPresent(nodes, parts) && parts != []
    requires LockWalk(nodes, issued, locks, parts, true, registered, |parts|).completion == Normal
    ensures parts in nodes && parts in LockWalk(nodes, issued, locks, parts, true, registered, |parts|).nodes
    ensures var w := LockWalk(nodes, issued, locks, parts, true, registered, |parts|);
            w.nodes[parts].accessNum == 0 && w.nodes[parts].replicas == OddIndexed(nodes[parts].replicas)
  {
    assert parts[..|parts|] == parts;
    LockWalkFrame(nodes, issued, locks, parts, true, registered, |parts|);
    var n := |parts|;
    var w := LockWalk(nodes, issued, locks, parts, true, registered, n - 1);
    LockWalkFrame(nodes, issued, locks, parts, true, registered, n - 1);
    assert !OnPath(parts, parts, n - 1);
    StepOutcomeIs(nodes, issued, locks, parts, true, registered, n);
    VisitCounts(w.nodes, w.issued, parts, true, registered);
  }
}
