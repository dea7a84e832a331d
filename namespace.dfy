/**
 * The namespace as the naming server holds it: the tree rooted at
 * `Address.start`, updated in place, and the requests sent to storage
 * nodes so far. Each method does what the `Address` method of the same name
 * does, with the same loop, and is proved to have the effect the functions
 * of `Tree`, `Effects` and `Walks` describe.
 */
module Namespaces {
  import opened Wrappers
  import opened Storage
  import opened Paths
  import opened Locks
  import opened Tree
  import opened Replicas
  import opened Effects
  import opened Walks

  /** The table of per-node locks, shared by reference between the server and the walks. */
  class LockTable {
    var table: LockMap

    /** The server's table starts with a lock for the root alone. */
    constructor ()
      ensures table == map[[] := FRESH]
    {
      table := map[[] := FRESH];
    }

    /** `if (!map.containsKey(curr)) map.put(curr, new RWLock())`, then take the lock without waiting. */
    method Lock(q: Path, final: bool)
      requires CanLock(LockOf(table, q), final)
      modifies this
      ensures table == old(table)[q := Locked(LockOf(old(table), q), final)]
    {
      if q !in table {
        table := table[q := FRESH];
      }
      if final {
        table := table[q := RequestExclusive(table[q])];
        table := table[q := GrantExclusive(table[q])];
      } else {
        table := table[q := AcquireShared(table[q])];
      }
    }

    /** `map.get(curr).unlockShared()` or `.unlockExclusive()`: a null dereference when there is no entry. */
    method Unlock(q: Path, final: bool) returns (c: Completion)
      modifies this
      ensures c == NullDereference <==> q !in old(table)
      ensures table == if q in old(table) then old(table)[q := Released(old(table)[q], final)] else old(table)
    {
      if q !in table {
        return NullDereference;
      }
      table := table[q := Released(table[q], final)];
      return Normal;
    }

    /** The entries of nodes no longer in the tree are unreachable from now on: they are dropped. */
    method Retain(nodes: Nodes)
      modifies this
      ensures table == LiveLocks(old(table), nodes)
    {
      table := map q | q in table && q in nodes :: table[q];
    }
  }

  class Namespace {
    var nodes: Nodes
    var issued: seq<Command>

    ghost predicate Valid()
      reads this
    {
      WellFormed(nodes)
    }

    /** The root directory alone, and nothing sent yet. */
    constructor ()
      ensures Valid() && nodes == map[[] := NewNode(true)] && issued == []
    {
      nodes := map[[] := NewNode(true)];
      issued := [];
      EmptyTreeWellFormed();
    }

    /** A request sent to a storage server: it is recorded and the tree is left alone. */
    method Send(c: Command)
      requires Valid()
      modifies this
      ensures Valid() && nodes == old(nodes) && issued == old(issued) + [c]
    {
      issued := issued + [c];
    }

    // -------------------------------------------------------------------
    // Read-only walks
    // -------------------------------------------------------------------

    /** `exist`: true exactly when the path's segments lead to a node. */
    method Exist(path: string) returns (b: bool)
      requires Valid()
      ensures b <==> EliminateSpaces(path) in nodes
    {
      var parts := EliminateSpaces(path);
      var cur: Path := [];
      var i := 0;
      while i < |parts|
        invariant 0 <= i <= |parts| && cur == parts[..i] && cur in nodes
      {
        ChildInNodes(nodes, cur, parts[i]);
        if parts[i] !in nodes[cur].children {
          if parts in nodes {
            PrefixInNodes(nodes, parts, i + 1);
            PrefixStep(parts, i + 1);
          }
          return false;
        }
        PrefixStep(parts, i + 1);
        cur := cur + [parts[i]];
        i := i + 1;
      }
      assert parts[..|parts|] == parts;
      return true;
    }

    /** `is_Directory`: the kind of the node the skipping walk ends on. */
    method IsDirectory(path: string) returns (b: bool)
      requires Valid()
      ensures b == Tree.IsDirectory(nodes, EliminateSpaces(path))
      ensures EliminateSpaces(path) in nodes ==> b == nodes[EliminateSpaces(path)].isDir
    {
      var parts := EliminateSpaces(path);
      var cur: Path := [];
      var i := 0;
      while i < |parts|
        invariant 0 <= i <= |parts| && cur in nodes
        invariant SkipWalk(nodes, cur, parts[i..]) == SkipWalk(nodes, [], parts)
      {
        assert parts[i..][1..] == parts[i + 1..];
        if parts[i] in nodes[cur].children {
          cur := cur + [parts[i]];
        }
        i := i + 1;
      }
      assert parts[|parts|..] == [];
      b := nodes[cur].isDir;
      if parts in nodes {
        IsDirectoryOfExisting(nodes, parts);
      }
    }

    /** `get_serverInfo`: the host of the node at the path, null (None) when there is none. */
    method GetServerInfo(path: string) returns (r: Option<StorageInfo>)
      requires Valid()
      ensures r == if EliminateSpaces(path) in nodes then nodes[EliminateSpaces(path)].host else None
    {
      var parts := EliminateSpaces(path);
      GetServerInfoIs(nodes, parts);
      var cur: Path := [];
      var i := 0;
      while i < |parts|
        invariant 0 <= i <= |parts| && cur in nodes
        invariant ServerInfoFrom(nodes, cur, parts[i..]) == Tree.GetServerInfo(nodes, parts)
      {
        assert parts[i..][1..] == parts[i + 1..];
        if parts[i] !in nodes[cur].children {
          return None;
        }
        cur := cur + [parts[i]];
        i := i + 1;
      }
      return nodes[cur].host;
    }

    /** The walk of `list_under_dir`: segments that are not children are skipped. */
    method ListedNode(path: string) returns (cur: Path)
      requires Valid()
      ensures cur == Tree.ListedNode(nodes, path)
    {
      cur := [];
      if path != "/" {
        var parts := EliminateSpaces(path);
        var i := 0;
        while i < |parts|
          invariant 0 <= i <= |parts| && cur in nodes
          invariant SkipWalk(nodes, cur, parts[i..]) == SkipWalk(nodes, [], parts)
        {
          assert parts[i..][1..] == parts[i + 1..];
          if parts[i] in nodes[cur].children {
            cur := cur + [parts[i]];
          }
          i := i + 1;
        }
        assert parts[|parts|..] == [];
      }
    }

    /** `list_under_dir`: the names of the children of the node the walk ends on, in order. */
    method ListUnderDir(path: string) returns (names: seq<string>)
      requires Valid()
      ensures names == Tree.ListUnderDir(nodes, path)
      ensures path == "/" ==> names == nodes[[]].children
      ensures EliminateSpaces(path) in nodes ==> names == nodes[EliminateSpaces(path)].children
    {
      var cur := ListedNode(path);
      var ch := nodes[cur].children;
      names := [];
      var j := 0;
      while j < |ch|
        invariant 0 <= j <= |ch|
        invariant names == Tree.ListUnderDir(nodes, path)[..j]
      {
        assert ch[j] in ch;
        names := names + [NameOf(cur + [ch[j]])];
        j := j + 1;
      }
      assert Tree.ListUnderDir(nodes, path)[..|ch|] == Tree.ListUnderDir(nodes, path);
      if path == "/" {
        EliminateSpacesOfRoot();
      }
      if path == "/" || EliminateSpaces(path) in nodes {
        ListUnderDirIsChildren(nodes, path);
      }
    }

    // -------------------------------------------------------------------
    // Creation and registration
    // -------------------------------------------------------------------

    /** The loop shared by `create_directory` and `create_file`. */
    method CreateNode(path: string, isDir: bool) returns (ok: bool)
      requires Valid()
      modifies this
      ensures Valid() && issued == old(issued)
      ensures (ok, nodes) == Create(old(nodes), EliminateSpaces(path), isDir)
    {
      var parts := EliminateSpaces(path);
      var cur: Path := [];
      var i := 0;
      while i < |parts|
        invariant 0 <= i <= |parts| && cur == parts[..i] && cur in nodes
        invariant DirsAlong(nodes, cur)
        invariant nodes == old(nodes) && issued == old(issued)
      {
        var name := parts[i];
        ChildInNodes(nodes, cur, name);
        PrefixStep(parts, i + 1);
        if name !in nodes[cur].children {
          CreateStopsAtMissing(nodes, parts, i, isDir);
          if i != |parts| - 1 {
            return false;
          }
          CreateKeepsWellFormed(nodes, parts, isDir);
          nodes := Attach(nodes, parts, NewNode(isDir));
          return true;
        }
        var child := cur + [name];
        if !nodes[child].isDir {
          CreateStopsAtFile(nodes, parts, i, isDir);
          return false;
        }
        DirsAlongExtend(nodes, parts, i);
        cur := child;
        i := i + 1;
      }
      assert parts[..|parts|] == parts;
      ok := true;
    }

    /** `create_directory`. */
    method CreateDirectory(path: string) returns (ok: bool)
      requires Valid()
      modifies this
      ensures Valid() && issued == old(issued)
      ensures (ok, nodes) == Create(old(nodes), EliminateSpaces(path), true)
    {
      ok := CreateNode(path, true);
    }

    /** `create_file`. */
    method CreateFile(path: string) returns (ok: bool)
      requires Valid()
      modifies this
      ensures Valid() && issued == old(issued)
      ensures (ok, nodes) == Create(old(nodes), EliminateSpaces(path), false)
    {
      ok := CreateNode(path, false);
    }

    /** `add(si)`: create what is missing along the path and give every node on it the host `si`. */
    method Add(path: string, si: StorageInfo)
      requires Valid()
      modifies this
      ensures issued == old(issued)
      ensures nodes == Tree.Add(old(nodes), EliminateSpaces(path), si)
    {
      var parts := EliminateSpaces(path);
      var t := AddWalk(nodes, parts, si);
      assert parts[..|parts|] == parts;
      nodes := t[parts := t[parts].(host := Some(si))];
    }

    // -------------------------------------------------------------------
    // Replica bookkeeping
    // -------------------------------------------------------------------

    /** `incAccessTime(limit)` on the node at `p`. */
    method IncAccessTime(p: Path, limit: int) returns (crossed: bool)
      requires p in nodes
      modifies this
      ensures issued == old(issued)
      ensures nodes == old(nodes)[p := old(nodes)[p].(accessNum := Bump(old(nodes)[p].accessNum, limit).0)]
      ensures crossed == Bump(old(nodes)[p].accessNum, limit).1
      ensures crossed <==> old(nodes)[p].accessNum + 1 > limit
      ensures nodes[p].accessNum == if crossed then 0 else old(nodes)[p].accessNum + 1
    {
      var n := nodes[p].accessNum + 1;
      crossed := n > limit;
      if crossed {
        n := 0;
      }
      nodes := nodes[p := nodes[p].(accessNum := n)];
    }

    /** `resetAccess` on the node at `p`. */
    method ResetAccess(p: Path)
      requires p in nodes
      modifies this
      ensures issued == old(issued)
      ensures nodes == old(nodes)[p := old(nodes)[p].(accessNum := 0)]
    {
      nodes := nodes[p := nodes[p].(accessNum := 0)];
    }

    /**
     * `deleteReplicas`: send a delete to the replica at index i, remove it
     * by value, advance i; the loop bound is re-read each time.
     */
    method DeleteReplicas(p: Path)
      requires p in nodes && NoDups(nodes[p].replicas)
      modifies this
      ensures Outcome(nodes, issued, Normal) == DeleteReplicasEffect(old(nodes), old(issued), p)
    {
      var rs, sent := DeleteEach(nodes[p].replicas, PathString(p));
      nodes := nodes[p := nodes[p].(replicas := rs)];
      issued := issued + sent;
    }

    /**
     * `replicate`: every registered server that does not yet hold a copy and
     * is not the host is listed and sent a copy request; the host is looked
     * up only for servers not yet listed, so with no host the first such
     * server is a null dereference.
     */
    method Replicate(p: Path, registered: seq<StorageInfo>) returns (c: Completion)
      requires p in nodes
      modifies this
      ensures Outcome(nodes, issued, c) == ReplicateEffect(old(nodes), old(issued), p, registered)
    {
      var h := nodes[p].host;
      var path := PathString(p);
      var rs := nodes[p].replicas;
      var sent: seq<Command> := [];
      ghost var orig := rs;
      var j := 0;
      while j < |registered|
        invariant 0 <= j <= |registered|
        invariant nodes == old(nodes) && issued == old(issued)
        invariant h.None? ==> rs == orig && forall k | 0 <= k < j :: registered[k] in orig
        invariant h.Some? ==>
                    && rs == AddMissing(orig, h.value, registered[..j]) && |orig| <= |rs|
                    && sent == CopyCommands(rs[|orig|..], path, h.value)
      {
        var si := registered[j];
        assert registered[..j + 1] == registered[..j] + [si];
        assert (registered[..j] + [si])[..j] == registered[..j];
        if si !in rs {
          if h.None? {
            return NullDereference;
          }
          if h.value != si {
            assert rs[|orig|..] + [si] == (rs + [si])[|orig|..];
            CopyCommandsSnoc(rs[|orig|..], si, path, h.value);
            rs := rs + [si];
            sent := sent + [CopyCommand(si, path, h.value)];
          }
        }
        j := j + 1;
      }
      assert registered[..j] == registered;
      if h.Some? {
        nodes := nodes[p := nodes[p].(replicas := rs)];
        issued := issued + sent;
      } else {
        assert forall si | si in registered :: si in orig;
      }
      return Normal;
    }

    // -------------------------------------------------------------------
    // `delete`
    // -------------------------------------------------------------------

    /**
     * `delete` on a path the caller has checked exists: remove a file, or
     * a directory through its first file child.
     */
    method Delete(path: string) returns (c: Completion)
      requires Valid() && EliminateSpaces(path) in nodes
      modifies this
      ensures Valid()
      ensures Outcome(nodes, issued, c) == DeleteEffect(old(nodes), old(issued), EliminateSpaces(path))
    {
      var parts := EliminateSpaces(path);
      DeleteKeepsWellFormed(nodes, issued, parts);
      if parts == [] {
        return Normal;
      }
      if !nodes[parts].isDir {
        c := DeleteFileAt(parts);
      } else {
        c := DeleteDirectoryAt(parts);
      }
    }

    /** `delete` on a file: its replicas, then its host, then unhook it. */
    method DeleteFileAt(parts: Path) returns (c: Completion)
      requires Valid() && parts in nodes && parts != [] && !nodes[parts].isDir
      modifies this
      ensures Outcome(nodes, issued, c) == DeleteEffect(old(nodes), old(issued), parts)
    {
      ParentInNodes(nodes, parts);
      var pathString := PathString(parts);
      DeleteReplicas(parts);
      var h := nodes[parts].host;
      if h.None? {
        return NullDereference;
      }
      issued := issued + [DeleteCommand(h.value, pathString)];
      nodes := Detach(nodes, parts);
      return Normal;
    }

    /** `delete` on a directory: through its first file child, if it has one. */
    method DeleteDirectoryAt(parts: Path) returns (c: Completion)
      requires Valid() && parts in nodes && parts != [] && nodes[parts].isDir
      modifies this
      ensures Outcome(nodes, issued, c) == DeleteEffect(old(nodes), old(issued), parts)
    {
      ParentInNodes(nodes, parts);
      var pathString := PathString(parts);
      var ch := nodes[parts].children;
      var j := 0;
      while j < |ch|
        invariant 0 <= j <= |ch| && nodes == old(nodes) && issued == old(issued)
        invariant forall k | 0 <= k < j :: !IsFileAt(nodes, parts + [ch[k]])
      {
        var child := parts + [ch[j]];
        assert ch[j] in ch;
        if !nodes[child].isDir {
          FirstFileAt(nodes, parts, j);
          DeleteReplicas(child);
          var hc := nodes[child].host;
          if hc.None? {
            return NullDereference;
          }
          issued := issued + [DeleteCommand(hc.value, pathString)];
          DeleteReplicas(parts);
          var h := nodes[parts].host;
          if h.None? {
            return NullDereference;
          }
          issued := issued + [DeleteCommand(h.value, pathString)];
          nodes := Detach(nodes, parts);
          return Normal;
        }
        j := j + 1;
      }
      NoFileChild(nodes, parts);
      return Normal;
    }

    // -------------------------------------------------------------------
    // Lock walks
    // -------------------------------------------------------------------

    /**
     * The bookkeeping of `lock_along_the_path` at one node whose lock is
     * held: reset and delete replicas under an exclusive lock, otherwise
     * count an access to a file and replicate it past the limit.
     */
    method Visit(q: Path, final: bool, registered: seq<StorageInfo>) returns (c: Completion)
      requires Valid() && q in nodes
      modifies this
      ensures Outcome(nodes, issued, c) == VisitEffect(old(nodes), old(issued), q, final, registered)
    {
      if final {
        ResetAccess(q);
        DeleteReplicas(q);
        return Normal;
      }
      var isDir := IsDirectory(PathString(q));
      IsDirectoryOfPath(nodes, q);
      if isDir {
        return Normal;
      }
      var crossed := IncAccessTime(q, ACCESS_LIMIT);
      if crossed {
        c := Replicate(q, registered);
      } else {
        c := Normal;
      }
    }

    /** One iteration of `lock_along_the_path`: take the node's lock, then visit it. */
    method LockAndVisit(q: Path, final: bool, locks: LockTable, registered: seq<StorageInfo>) returns (c: Completion)
      requires Valid() && q in nodes && CanLock(LockOf(locks.table, q), final)
      modifies this, locks
      ensures locks.table == old(locks.table)[q := Locked(LockOf(old(locks.table), q), final)]
      ensures Outcome(nodes, issued, c) == VisitEffect(old(nodes), old(issued), q, final, registered)
    {
      locks.Lock(q, final);
      c := Visit(q, final, registered);
    }

    /**
     * `lock_along_the_path` on a path the caller has checked exists: lock
     * each node below the root, then do its replica bookkeeping.
     */
    method LockAlongThePath(path: string, exclusive: bool, locks: LockTable, registered: seq<StorageInfo>)
      returns (c: Completion)
      requires Valid() && EliminateSpaces(path) in nodes
      requires LockGuards(locks.table, EliminateSpaces(path), exclusive)
      modifies this, locks
      ensures PathPresent(old(nodes), EliminateSpaces(path))
      ensures var parts := EliminateSpaces(path);
              var w := LockWalk(old(nodes), old(issued), old(locks.table), parts, exclusive, registered, |parts|);
              nodes == w.nodes && issued == w.issued && locks.table == w.locks && c == w.completion
    {
      var parts := EliminateSpaces(path);
      PathPresentIff(nodes, parts);
      ghost var nodes0, issued0, locks0 := nodes, issued, locks.table;
      ghost var w := LockWalk(nodes0, issued0, locks0, parts, exclusive, registered, 0);
      var cur: Path := [];
      var i := 0;
      assert parts[..0] == [];
      while i < |parts|
        invariant 0 <= i <= |parts| && cur == parts[..i]
        invariant w == LockWalk(nodes0, issued0, locks0, parts, exclusive, registered, i)
        invariant w.completion == Normal && nodes == w.nodes && issued == w.issued && locks.table == w.locks
      {
        LockWalkCanLock(nodes0, issued0, locks0, parts, exclusive, registered, i);
        LockWalkStep(nodes0, issued0, locks0, parts, exclusive, registered, i);
        var q := cur + [parts[i]];
        var final := exclusive && i == |parts| - 1;
        assert q == parts[..i + 1] && final == IsFinal(parts, exclusive, i + 1);
        c := LockAndVisit(q, final, locks, registered);
        w := LockWalk(nodes0, issued0, locks0, parts, exclusive, registered, i + 1);
        if c == NullDereference {
          LockWalkStops(nodes0, issued0, locks0, parts, exclusive, registered, i + 1);
          return;
        }
        cur := q;
        i := i + 1;
      }
      return Normal;
    }

    /**
     * `unlock_previous` on a path the caller has checked exists: release
     * the lock of each node below the root; a node with no lock entry is a
     * null dereference.
     */
    method UnlockPrevious(path: string, exclusive: bool, locks: LockTable) returns (c: Completion)
      requires Valid() && EliminateSpaces(path) in nodes
      modifies locks
      ensures var parts := EliminateSpaces(path);
              (locks.table, c) == UnlockedUpTo(old(locks.table), parts, exclusive, |parts|)
    {
      var parts := EliminateSpaces(path);
      var cur: Path := [];
      var i := 0;
      assert parts[..0] == [];
      while i < |parts|
        invariant 0 <= i <= |parts| && cur == parts[..i]
        invariant UnlockedUpTo(old(locks.table), parts, exclusive, i) == (locks.table, Normal)
      {
        var q := cur + [parts[i]];
        PrefixStep(parts, i + 1);
        UnlockedUpToNext(old(locks.table), parts, exclusive, i);
        c := locks.Unlock(q, exclusive && i == |parts| - 1);
        if c == NullDereference {
          UnlockStops(old(locks.table), parts, exclusive, i + 1);
          return;
        }
        cur := q;
        i := i + 1;
      }
      return Normal;
    }
  }

  // ---------------------------------------------------------------------
  // Proof helpers for the loops above
  // ---------------------------------------------------------------------

  /**
   * The loop of `add(si)`: each segment's child is attached if it is not
   * among the children (a directory, or a file for the last segment), and
   * given the host `si`.
   */
  method AddWalk(nodes: Nodes, parts: Path, si: StorageInfo) returns (t: Nodes)
    requires WellFormed(nodes) && GoodSegments(parts)
    ensures t == AddUpTo(nodes, parts, |parts|, si)
  {
    t := nodes;
    var cur: Path := [];
    var i := 0;
    assert parts[..0] == [];
    while i < |parts|
      invariant 0 <= i <= |parts| && cur == parts[..i]
      invariant t == AddUpTo(nodes, parts, i, si)
    {
      AddUpToKeepsWellFormed(nodes, parts, i, si);
      AddUpToStep(nodes, parts, i, si);
      PrefixStep(parts, i + 1);
      var name := parts[i];
      var child := cur + [name];
      AddStepByChildren(t, cur, name, i + 1 == |parts|, si);
      if name !in t[cur].children {
        t := Attach(t, child, NewNode(i != |parts| - 1));
      }
      t := t[child := t[child].(host := Some(si))];
      cur := child;
      i := i + 1;
    }
  }

  /** One step of `add`, with the child looked up in the children list as the loop does. */
  lemma AddStepByChildren(t: Nodes, cur: Path, name: string, isLast: bool, si: StorageInfo)
    requires WellFormed(t) && cur in t && GoodSegment(name)
    ensures Parent(cur + [name]) == cur
    ensures var a := if name !in t[cur].children then Attach(t, cur + [name], NewNode(!isLast)) else t;
            && cur + [name] in a
            && a[cur + [name] := a[cur + [name]].(host := Some(si))] == AddStep(t, cur, name, isLast, si)
  {
    AddStepShape(t, cur, name);
  }

  /** A path whose k-th prefix is missing is missing. */
  lemma MissingPrefix(nodes: Nodes, parts: Path, k: nat)
    requires WellFormed(nodes) && k <= |parts| && parts[..k] !in nodes
    ensures parts !in nodes
  {
    if parts in nodes {
      PrefixInNodes(nodes, parts, k);
    }
  }

  /**
   * The loop of `deleteReplicas` over a replica list without duplicates:
   * a delete goes to the entry at the index, the entry is removed by value,
   * and the index moves on past the entry that slid into its place.
   */
  method DeleteEach(orig: seq<StorageInfo>, path: string) returns (rs: seq<StorageInfo>, sent: seq<Command>)
    requires NoDups(orig)
    ensures rs == OddIndexed(orig) && sent == DeleteCommands(EvenIndexed(orig), path)
  {
    rs := orig;
    ghost var done: seq<StorageInfo> := [];
    sent := [];
    var i := 0;
    RemainingBounds(orig, 0);
    while i < |rs|
      invariant 2 * i <= |orig| + 1
      invariant rs == Remaining(orig, i) && NoDups(rs)
      invariant done == DeletedSoFar(orig, i) && sent == DeleteCommands(done, path)
    {
      RemainingBounds(orig, i);
      DeleteReplicasIteration(orig, i);
      var si := rs[i];
      DeleteCommandsSnoc(done, si, path);
      sent := sent + [DeleteCommand(si, path)];
      done := done + [si];
      rs := RemoveFirst(rs, si);
      i := i + 1;
    }
    RemainingBounds(orig, i);
  }

  /** The walk of `create` meets a missing segment: only the last one may be attached. */
  lemma CreateStopsAtMissing(nodes: Nodes, parts: Path, i: nat, isDir: bool)
    requires WellFormed(nodes) && GoodSegments(parts) && i < |parts|
    requires parts[..i] in nodes && DirsAlong(nodes, parts[..i]) && parts[i] !in nodes[parts[..i]].children
    ensures i == |parts| - 1 ==> parts !in nodes && Create(nodes, parts, isDir) == (true, Attach(nodes, parts, NewNode(isDir)))
    ensures i < |parts| - 1 ==> Create(nodes, parts, isDir) == (false, nodes)
  {
    PrefixStep(parts, i + 1);
    ChildInNodes(nodes, parts[..i], parts[i]);
    MissingPrefix(nodes, parts, i + 1);
    if i == |parts| - 1 {
      assert parts == parts[..i] + [parts[i]];
      assert Parent(parts) == parts[..i];
    } else {
      assert Parent(parts)[..i + 1] == parts[..i + 1];
      MissingPrefix(nodes, Parent(parts), i + 1);
    }
  }

  /** The walk of `create` meets a file above the end of the path: nothing is created. */
  lemma CreateStopsAtFile(nodes: Nodes, parts: Path, i: nat, isDir: bool)
    requires WellFormed(nodes) && GoodSegments(parts) && i < |parts|
    requires parts[..i + 1] in nodes && !nodes[parts[..i + 1]].isDir
    ensures Create(nodes, parts, isDir) == (false, nodes)
  {
    var q := parts[..i + 1];
    if |parts| == i + 1 {
      assert parts == q;
      assert !DirsAlong(nodes, parts);
    } else if parts in nodes {
      assert parts[..i + 1] == q;
      assert !DirsAlong(nodes, parts);
    } else {
      assert Parent(parts)[..i + 1] == q;
      assert !DirsAlong(nodes, Parent(parts));
    }
  }

  /** One more directory along the path. */
  lemma DirsAlongExtend(nodes: Nodes, parts: Path, i: nat)
    requires i < |parts| && DirsAlong(nodes, parts[..i])
    requires parts[..i + 1] in nodes && nodes[parts[..i + 1]].isDir
    ensures DirsAlong(nodes, parts[..i + 1])
  {
    var q := parts[..i + 1];
    forall k | 0 < k <= i + 1
      ensures q[..k] in nodes && nodes[q[..k]].isDir
    {
      if k <= i {
        assert q[..k] == parts[..i][..k];
      } else {
        assert q[..k] == q;
      }
    }
  }

  /** A child at position j that is a file, after children that are not, is the first file child. */
  lemma FirstFileAt(nodes: Nodes, p: Path, j: nat)
    requires p in nodes && j < |nodes[p].children|
    requires IsFileAt(nodes, p + [nodes[p].children[j]])
    requires forall k | 0 <= k < j :: !IsFileAt(nodes, p + [nodes[p].children[k]])
    ensures FirstFileFrom(nodes, p, 0) == Some(j)
  {
    var r := FirstFileFrom(nodes, p, 0);
  }

  /** No child is a file: there is no first file child. */
  lemma NoFileChild(nodes: Nodes, p: Path)
    requires p in nodes
    requires forall k | 0 <= k < |nodes[p].children| :: !IsFileAt(nodes, p + [nodes[p].children[k]])
    ensures FirstFileFrom(nodes, p, 0) == None
  {
    var r := FirstFileFrom(nodes, p, 0);
  }

  /** `is_Directory` on a node's own path string reports that node's kind. */
  lemma IsDirectoryOfPath(nodes: Nodes, q: Path)
    requires WellFormed(nodes) && q in nodes
    ensures Tree.IsDirectory(nodes, EliminateSpaces(PathString(q))) == nodes[q].isDir
  {
    EliminateSpacesOfPathString(q);
    IsDirectoryOfExisting(nodes, q);
  }

  /** The lock of the next node of the walk may be taken, and the tree there is still well formed. */
  lemma LockWalkCanLock(nodes: Nodes, issued: seq<Command>, locks: LockMap, parts: Path, exclusive: bool,
                        registered: seq<StorageInfo>, i: nat)
    requires WellFormed(nodes) && PathPresent(nodes, parts) && i < |parts|
    requires LockGuards(locks, parts, exclusive)
    requires LockWalk(nodes, issued, locks, parts, exclusive, registered, i).completion == Normal
    ensures var w := LockWalk(nodes, issued, locks, parts, exclusive, registered, i);
            && parts[..i] + [parts[i]] == parts[..i + 1] && parts[..i + 1] in w.nodes && WellFormed(w.nodes)
            && CanLock(LockOf(w.locks, parts[..i + 1]), IsFinal(parts, exclusive, i + 1))
  {
    PrefixStep(parts, i + 1);
    LockWalkKeepsWellFormed(nodes, issued, locks, parts, exclusive, registered, i);
    LockWalkLocks(nodes, issued, locks, parts, exclusive, registered, i);
    LockedUpToAt(locks, parts, exclusive, i, parts[..i + 1]);
    assert !OnPath(parts[..i + 1], parts, i);
  }

  /** One more node of the lock walk: lock it, then visit it. */
  lemma LockWalkStep(nodes: Nodes, issued: seq<Command>, locks: LockMap, parts: Path, exclusive: bool,
                     registered: seq<StorageInfo>, i: nat)
    requires PathPresent(nodes, parts) && i < |parts|
    requires LockWalk(nodes, issued, locks, parts, exclusive, registered, i).completion == Normal
    ensures parts[..i + 1] in LockWalk(nodes, issued, locks, parts, exclusive, registered, i).nodes
    ensures var w := LockWalk(nodes, issued, locks, parts, exclusive, registered, i);
            var q, final := parts[..i + 1], IsFinal(parts, exclusive, i + 1);
            var o := VisitEffect(w.nodes, w.issued, q, final, registered);
            LockWalk(nodes, issued, locks, parts, exclusive, registered, i + 1)
            == WalkState(o.nodes, o.issued, w.locks[q := Locked(LockOf(w.locks, q), final)], i + 1, o.completion)
  {
  }

  /** Once the lock walk fails, later steps change nothing. */
  lemma {:induction false} LockWalkStops(nodes: Nodes, issued: seq<Command>, locks: LockMap, parts: Path, exclusive: bool,
                                         registered: seq<StorageInfo>, k: nat)
    requires PathPresent(nodes, parts) && k <= |parts|
    requires LockWalk(nodes, issued, locks, parts, exclusive, registered, k).completion == NullDereference
    ensures LockWalk(nodes, issued, locks, parts, exclusive, registered, |parts|)
            == LockWalk(nodes, issued, locks, parts, exclusive, registered, k)
    decreases |parts| - k
  {
    if k < |parts| {
      LockWalkStops(nodes, issued, locks, parts, exclusive, registered, k + 1);
    }
  }

  /** One more iteration of the loop of `unlock_previous` after `i` releases that all found an entry. */
  lemma UnlockedUpToNext(locks: LockMap, parts: Path, exclusive: bool, i: nat)
    requires i < |parts| && UnlockedUpTo(locks, parts, exclusive, i).1 == Normal
    ensures var t, q := UnlockedUpTo(locks, parts, exclusive, i).0, parts[..i + 1];
            UnlockedUpTo(locks, parts, exclusive, i + 1) ==
              if q !in t then (t, NullDereference)
              else (t[q := Released(t[q], exclusive && i == |parts| - 1)], Normal)
  {
  }

  lemma {:induction false} UnlockStops(locks: LockMap, parts: Path, exclusive: bool, k: nat)
    requires k <= |parts| && UnlockedUpTo(locks, parts, exclusive, k).1 == NullDereference
    ensures UnlockedUpTo(locks, parts, exclusive, |parts|) == UnlockedUpTo(locks, parts, exclusive, k)
    decreases |parts| - k
  {
    if k < |parts| {
      UnlockStops(locks, parts, exclusive, k + 1);
    }
  }
}
