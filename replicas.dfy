/**
 * Replica bookkeeping of a file node: the access counter that triggers
 * replication, the list of storage nodes that received a copy, and the
 * requests sent to storage nodes when copies are made or dropped.
 */
module Replicas {
  import opened Storage
  import opened Tree

  /** The access count above which a shared lock on a file triggers replication. */
  const ACCESS_LIMIT: int := 20

  // ---------------------------------------------------------------------
  // `incAccessTime`
  // ---------------------------------------------------------------------

  /** `incAccessTime(limit)`: pre-increment, and on passing the limit reset to 0 and report it. */
  function Bump(count: int, limit: int): (int, bool)
  {
    if count + 1 > limit then (0, true) else (count + 1, false)
  }

  /** A counter in 0..limit stays in 0..limit. */
  lemma BumpStaysInRange(count: int, limit: int)
    requires 0 <= count <= limit
    ensures 0 <= Bump(count, limit).0 <= limit
  {
  }

  /** The counter after `n` calls starting from 0. */
  function CounterAfter(limit: int, n: nat): int
  {
    if n == 0 then 0 else Bump(CounterAfter(limit, n - 1), limit).0
  }

  /** Whether the `n`-th call (counting from 1) returns true. */
  predicate CrossesOn(limit: int, n: nat)
    requires n >= 1
  {
    Bump(CounterAfter(limit, n - 1), limit).1
  }

  lemma {:induction false} CounterCounts(limit: nat, n: nat)
    requires n <= limit
    ensures CounterAfter(limit, n) == n
  {
    if n > 0 {
      CounterCounts(limit, n - 1);
    }
  }

  /**
   * From a fresh counter, calls 1..limit return false and call limit + 1 is
   * the first to return true, leaving the counter at 0 again.
   */
  lemma FirstCrossing(limit: nat)
    ensures forall n | 1 <= n <= limit :: !CrossesOn(limit, n)
    ensures CrossesOn(limit, limit + 1) && CounterAfter(limit, limit + 1) == 0
  {
    forall n | 1 <= n <= limit
      ensures !CrossesOn(limit, n)
    {
      CounterCounts(limit, n - 1);
    }
    CounterCounts(limit, limit);
  }

  /** With the limit the lock walk uses, the 21st access is the first to replicate. */
  lemma TwentyFirstAccessReplicates()
    ensures forall n | 1 <= n <= 20 :: !CrossesOn(ACCESS_LIMIT, n)
    ensures CrossesOn(ACCESS_LIMIT, 21)
  {
    FirstCrossing(20);
  }

  // ---------------------------------------------------------------------
  // `replicate`
  // ---------------------------------------------------------------------

  /**
   * The replica list after `replicate` with a host, over the registered
   * servers in order: each one neither listed yet nor equal to the host is
   * appended.
   */
  function AddMissing(replicas: seq<StorageInfo>, host: StorageInfo, registered: seq<StorageInfo>): seq<StorageInfo>
    decreases |registered|
  {
    if registered == [] then replicas
    else
      var acc := AddMissing(replicas, host, registered[..|registered| - 1]);
      var si := registered[|registered| - 1];
      if si !in acc && si != host then acc + [si] else acc
  }

  /** The copy request sent to a new replica: its command port, with the host's address and client port. */
  function CopyCommand(si: StorageInfo, path: string, host: StorageInfo): Command
  {
    StorageCopy(ServerInfo(si.serverIp, si.commandPort), path, host.serverIp, host.clientPort)
  }

  function CopyCommands(added: seq<StorageInfo>, path: string, host: StorageInfo): (cs: seq<Command>)
    ensures |cs| == |added|
  {
    seq(|added|, i requires 0 <= i < |added| => CopyCommand(added[i], path, host))
  }

  lemma CopyCommandsSnoc(added: seq<StorageInfo>, si: StorageInfo, path: string, host: StorageInfo)
    ensures CopyCommands(added + [si], path, host) == CopyCommands(added, path, host) + [CopyCommand(si, path, host)]
  {
  }

  /**
   * `replicate` never removes or reorders a replica, never adds the host,
   * adds only registered servers, covers every registered server other than
   * the host, and never lists a server twice.
   */
  lemma {:induction false} AddMissingFacts(replicas: seq<StorageInfo>, host: StorageInfo, registered: seq<StorageInfo>)
    ensures var r := AddMissing(replicas, host, registered);
            && |replicas| <= |r| && r[..|replicas|] == replicas
            && (host in r ==> host in replicas) && host !in r[|replicas|..]
            && (forall x | x in r :: x in replicas || x in registered)
            && (forall si | si in registered && si != host :: si in r)
            && (NoDups(replicas) ==> NoDups(r))
    decreases |registered|
  {
    if registered != [] {
      var front := registered[..|registered| - 1];
      var si := registered[|registered| - 1];
      AddMissingFacts(replicas, host, front);
      var acc := AddMissing(replicas, host, front);
      var r := AddMissing(replicas, host, registered);
      assert registered == front + [si];
      if si !in acc && si != host {
        assert r[..|acc|] == acc;
        assert r[..|replicas|] == acc[..|replicas|];
        assert r[|replicas|..] == acc[|replicas|..] + [si];
      }
    }
  }

  /** Servers already listed are skipped: replicating twice adds nothing the second time. */
  lemma {:induction false} AddMissingIdempotent(replicas: seq<StorageInfo>, host: StorageInfo, registered: seq<StorageInfo>)
    ensures var r := AddMissing(replicas, host, registered);
            AddMissing(r, host, registered) == r
  {
    var r := AddMissing(replicas, host, registered);
    AddMissingFacts(replicas, host, registered);
    AddMissingCovered(r, host, registered);
  }

  /** A list that already holds every registered server other than the host is left as it is. */
  lemma {:induction false} AddMissingCovered(replicas: seq<StorageInfo>, host: StorageInfo, registered: seq<StorageInfo>)
    requires forall si | si in registered && si != host :: si in replicas
    ensures AddMissing(replicas, host, registered) == replicas
    decreases |registered|
  {
    if registered != [] {
      var front := registered[..|registered| - 1];
      assert forall si | si in front :: si in registered;
      AddMissingCovered(replicas, host, front);
    }
  }

  // ---------------------------------------------------------------------
  // `deleteReplicas`
  // ---------------------------------------------------------------------

  /** The entries at odd positions: what `deleteReplicas` leaves behind. */
  function OddIndexed<T>(s: seq<T>): (r: seq<T>)
    ensures |r| == |s| / 2
  {
    seq(|s| / 2, i requires 0 <= i < |s| / 2 => s[2 * i + 1])
  }

  /** The entries at even positions: the ones `deleteReplicas` sends a delete to and removes. */
  function EvenIndexed<T>(s: seq<T>): (r: seq<T>)
    ensures |r| == (|s| + 1) / 2
  {
    seq((|s| + 1) / 2, i requires 0 <= i < (|s| + 1) / 2 => s[2 * i])
  }

  /** The delete request sent to a replica for the file at `path`. */
  function DeleteCommand(si: StorageInfo, path: string): Command
  {
    StorageDelete(ServerInfo(si.serverIp, si.commandPort), path)
  }

  function DeleteCommands(targets: seq<StorageInfo>, path: string): (cs: seq<Command>)
    ensures |cs| == |targets|
  {
    seq(|targets|, i requires 0 <= i < |targets| => DeleteCommand(targets[i], path))
  }

  lemma DeleteCommandsSnoc(targets: seq<StorageInfo>, si: StorageInfo, path: string)
    ensures DeleteCommands(targets + [si], path) == DeleteCommands(targets, path) + [DeleteCommand(si, path)]
  {
  }

  /**
   * `deleteReplicas` only removes: what it keeps and what it deletes together
   * make up the old list, and a list without duplicates stays so.
   */
  lemma DeleteReplicasSplits<T>(s: seq<T>)
    ensures forall x | x in OddIndexed(s) :: x in s
    ensures forall x | x in EvenIndexed(s) :: x in s
    ensures forall x | x in s :: x in OddIndexed(s) || x in EvenIndexed(s)
    ensures NoDups(s) ==> NoDups(OddIndexed(s)) && forall x | x in OddIndexed(s) :: x !in EvenIndexed(s)
  {
    forall x | x in s
      ensures x in OddIndexed(s) || x in EvenIndexed(s)
    {
      var j :| 0 <= j < |s| && s[j] == x;
      if j % 2 == 0 {
        assert EvenIndexed(s)[j / 2] == x;
      } else {
        assert OddIndexed(s)[j / 2] == x;
      }
    }
    forall x | x in OddIndexed(s)
      ensures x in s
    {
      var i :| 0 <= i < |OddIndexed(s)| && OddIndexed(s)[i] == x;
      assert s[2 * i + 1] == x;
    }
    forall x | x in EvenIndexed(s)
      ensures x in s
    {
      var i :| 0 <= i < |EvenIndexed(s)| && EvenIndexed(s)[i] == x;
      assert s[2 * i] == x;
    }
  }

  /** Lists of at most one replica end empty. */
  lemma ShortReplicaListsEmptied<T>(s: seq<T>)
    requires |s| <= 1
    ensures OddIndexed(s) == [] && EvenIndexed(s) == s
  {
  }

  /**
   * Longer lists keep copies: the second replica, for one, is never sent a
   * delete and stays listed, so "every copy deleted" does not hold.
   */
  lemma LongerReplicaListsKeepCopies<T>(s: seq<T>)
    requires |s| >= 2 && NoDups(s)
    ensures s[1] in OddIndexed(s) && s[1] !in EvenIndexed(s)
  {
    assert OddIndexed(s)[0] == s[1];
    DeleteReplicasSplits(s);
  }

  /**
   * The loop of `deleteReplicas` after `k` removals, on a list without
   * duplicates: the odd entries of the first 2k, then the untouched rest.
   */
  lemma DeleteReplicasStep<T>(orig: seq<T>, k: nat)
    requires 2 * k < |orig|
    ensures var m := if 2 * k + 2 <= |orig| then 2 * k + 2 else |orig|;
            && OddIndexed(orig[..2 * k]) + orig[2 * k + 1..] == OddIndexed(orig[..m]) + orig[m..]
            && EvenIndexed(orig[..2 * k]) + [orig[2 * k]] == EvenIndexed(orig[..m])
  {
    var m := if 2 * k + 2 <= |orig| then 2 * k + 2 else |orig|;
    var a := OddIndexed(orig[..2 * k]) + orig[2 * k + 1..];
    var b := OddIndexed(orig[..m]) + orig[m..];
    assert |a| == |b|;
    forall i | 0 <= i < |a|
      ensures a[i] == b[i]
    {
      if i < k {
        assert a[i] == orig[2 * i + 1];
      } else if m == 2 * k + 2 && i == k {
        assert a[i] == orig[2 * k + 1];
        assert b[i] == orig[..m][2 * k + 1];
      }
    }
  }

  /** The replica list after `k` iterations of the loop of `deleteReplicas`. */
  function Remaining<T>(orig: seq<T>, k: nat): seq<T>
  {
    if 2 * k <= |orig| then OddIndexed(orig[..2 * k]) + orig[2 * k..] else OddIndexed(orig)
  }

  /** The replicas sent a delete in the first `k` iterations. */
  function DeletedSoFar<T>(orig: seq<T>, k: nat): seq<T>
  {
    if 2 * k <= |orig| then EvenIndexed(orig[..2 * k]) else EvenIndexed(orig)
  }

  /** Before the loop nothing is removed; once it stops, the list is the odd-positioned entries. */
  lemma RemainingBounds<T>(orig: seq<T>, k: nat)
    ensures Remaining(orig, 0) == orig && DeletedSoFar(orig, 0) == []
    ensures 2 * k <= |orig| + 1 ==> |Remaining(orig, k)| == |orig| - k
    ensures 2 * k >= |orig| ==> Remaining(orig, k) == OddIndexed(orig) && DeletedSoFar(orig, k) == EvenIndexed(orig)
  {
    assert orig[..0] == [] && orig[0..] == orig;
    if 2 * k == |orig| {
      assert orig[..2 * k] == orig && orig[2 * k..] == [];
    }
  }

  /** After `k` removals, the entry at index `k` is the original entry 2k, with the kept entries before it. */
  lemma RemainingSplit<T>(orig: seq<T>, k: nat)
    requires 2 * k < |orig|
    ensures var rs := Remaining(orig, k);
            && k < |rs| && rs[k] == orig[2 * k]
            && rs[..k] == OddIndexed(orig[..2 * k]) && rs[k + 1..] == orig[2 * k + 1..]
  {
    var rs := Remaining(orig, k);
    assert |OddIndexed(orig[..2 * k])| == k;
    assert rs[k] == orig[2 * k];
  }

  /** Dropping index `k` after `k` removals gives the list, and the deletions, of `k + 1` removals. */
  lemma RemainingNext<T>(orig: seq<T>, k: nat)
    requires 2 * k < |orig|
    ensures OddIndexed(orig[..2 * k]) + orig[2 * k + 1..] == Remaining(orig, k + 1)
    ensures DeletedSoFar(orig, k) + [orig[2 * k]] == DeletedSoFar(orig, k + 1)
  {
    DeleteReplicasStep(orig, k);
    if 2 * k + 2 > |orig| {
      assert orig[..|orig|] == orig && orig[|orig|..] == [];
    }
  }

  /**
   * One iteration of the loop of `deleteReplicas` after `k` removals: the
   * entry at index k is the original entry 2k, and removing it by value
   * leaves the list the next iteration expects.
   */
  lemma DeleteReplicasIteration<T>(orig: seq<T>, k: nat)
    requires 2 * k < |orig| && NoDups(Remaining(orig, k))
    ensures k < |Remaining(orig, k)| && Remaining(orig, k)[k] == orig[2 * k]
    ensures RemoveFirst(Remaining(orig, k), orig[2 * k]) == Remaining(orig, k + 1)
    ensures NoDups(Remaining(orig, k + 1))
    ensures DeletedSoFar(orig, k) + [orig[2 * k]] == DeletedSoFar(orig, k + 1)
  {
    var rs := Remaining(orig, k);
    RemainingSplit(orig, k);
    RemoveFirstAt(rs, k);
    RemoveFirstFacts(rs, rs[k]);
    RemainingNext(orig, k);
  }
}
