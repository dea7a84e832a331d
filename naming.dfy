/**
 * The request handlers of the naming server. Each service endpoint first
 * tests the path it is given, then answers an exception name, a boolean,
 * a storage stub or a listing; registration records a storage node and
 * reconciles the files it announces with the tree; lock and unlock take or
 * release the root's lock and then walk the path. The decision chains are
 * functions over a snapshot of the tree; the `NamingServer` class performs
 * them on the namespace and the lock table and is proved to agree.
 */
module Naming {
  import opened Wrappers
  import opened Storage
  import opened Paths
  import opened Locks
  import opened Tree
  import opened Effects
  import opened Walks
  import opened Namespaces

  /**
   * The exception a handler answers with. `NullPointer` stands for a null
   * dereference inside the handler, which ends it without an answer.
   */
  datatype Exception = IllegalArgument | IllegalState | FileNotFound | NullPointer

  /** An endpoint's answer, with the tree and the request log it leaves. */
  datatype Served<T> = Served(reply: Result<T, Exception>, nodes: Nodes, issued: seq<Command>)

  // ---------------------------------------------------------------------
  // Path syntax
  // ---------------------------------------------------------------------

  /** `is_valid_path`, and the test at the head of most endpoints: non-empty, rooted, no ':'. */
  predicate IsValidPath(path: string)
  {
    path != "" && path[0] == '/' && ':' !in path
  }

  lemma {:induction false} ColonFreePathString(p: Path)
    requires forall i | 0 <= i < |p| :: ':' !in p[i]
    ensures ':' !in PathString(p)
    decreases |p|
  {
    if p != [] {
      assert forall i | 0 <= i < |Parent(p)| :: Parent(p)[i] == p[i];
      ColonFreePathString(Parent(p));
      assert PathString(p) == PathString(Parent(p)) + "/" + Last(p);
    }
  }

  /**
   * The path string of every node below the root whose names have no ':'
   * is a valid path, and it names that node again.
   */
  lemma NodePathsAreValid(p: Path)
    requires p != [] && GoodSegments(p)
    requires forall i | 0 <= i < |p| :: ':' !in p[i]
    ensures IsValidPath(PathString(p)) && EliminateSpaces(PathString(p)) == p
  {
    PathStringStartsWithSlash(p);
    ColonFreePathString(p);
    EliminateSpacesOfPathString(p);
  }

  // ---------------------------------------------------------------------
  // Read-only endpoints
  // ---------------------------------------------------------------------

  /** `getstorage`: the client stub of the host of a file. */
  function GetStorageReply(nodes: Nodes, path: string): Result<ServerInfo, Exception>
    requires WellFormed(nodes)
  {
    if !IsValidPath(path) then Err(IllegalArgument)
    else
      var parts := EliminateSpaces(path);
      if !Exist(nodes, parts) || Tree.IsDirectory(nodes, parts) then Err(FileNotFound)
      else match GetServerInfo(nodes, parts)
        case None => Err(NullPointer)
        case Some(h) => Ok(ServerInfo(h.serverIp, h.clientPort))
  }

  /**
   * `getstorage` answers the host's address and client port exactly for a
   * valid path naming a file with a host; a missing path or a directory is
   * FileNotFound, and a file without a host (one made by `create_file`) is
   * a null dereference.
   */
  lemma GetStorageAnswers(nodes: Nodes, path: string)
    requires WellFormed(nodes)
    ensures var parts, r := EliminateSpaces(path), GetStorageReply(nodes, path);
            && (r == Err(IllegalArgument) <==> !IsValidPath(path))
            && (r == Err(FileNotFound) <==> IsValidPath(path) && (parts !in nodes || nodes[parts].isDir))
            && (r == Err(NullPointer) <==>
                  IsValidPath(path) && parts in nodes && !nodes[parts].isDir && nodes[parts].host.None?)
            && (r.Ok? <==> IsValidPath(path) && parts in nodes && !nodes[parts].isDir && nodes[parts].host.Some?)
            && (r.Ok? ==> r.value == ServerInfo(nodes[parts].host.value.serverIp, nodes[parts].host.value.clientPort))
  {
    var parts := EliminateSpaces(path);
    ExistIff(nodes, parts);
    GetServerInfoIs(nodes, parts);
    if parts in nodes {
      IsDirectoryOfExisting(nodes, parts);
    }
  }

  /** `list`: the names under a directory. */
  function ListReply(nodes: Nodes, path: string): Result<seq<string>, Exception>
    requires WellFormed(nodes)
  {
    if !IsValidPath(path) then Err(IllegalArgument)
    else
      var parts := EliminateSpaces(path);
      if !Exist(nodes, parts) || !Tree.IsDirectory(nodes, parts) then Err(FileNotFound)
      else Ok(Tree.ListUnderDir(nodes, path))
  }

  /** `list` answers exactly for a valid path naming a directory, and then its children's names in order. */
  lemma ListAnswers(nodes: Nodes, path: string)
    requires WellFormed(nodes)
    ensures var parts, r := EliminateSpaces(path), ListReply(nodes, path);
            && (r == Err(IllegalArgument) <==> !IsValidPath(path))
            && (r == Err(FileNotFound) <==> IsValidPath(path) && (parts !in nodes || !nodes[parts].isDir))
            && (r.Ok? <==> IsValidPath(path) && parts in nodes && nodes[parts].isDir)
            && (r.Ok? ==> r.value == nodes[parts].children)
  {
    var parts := EliminateSpaces(path);
    ExistIff(nodes, parts);
    if parts in nodes {
      IsDirectoryOfExisting(nodes, parts);
      ListUnderDirIsChildren(nodes, path);
      if path == "/" {
        EliminateSpacesOfRoot();
      }
    }
  }

  /** `is_directory`. */
  function IsDirectoryReply(nodes: Nodes, path: string): Result<bool, Exception>
    requires WellFormed(nodes)
  {
    if !IsValidPath(path) then Err(IllegalArgument)
    else
      var parts := EliminateSpaces(path);
      if !Exist(nodes, parts) then Err(FileNotFound)
      else Ok(Tree.IsDirectory(nodes, parts))
  }

  /** `is_directory` is FileNotFound only for a missing path, and otherwise reports the node's kind. */
  lemma IsDirectoryAnswers(nodes: Nodes, path: string)
    requires WellFormed(nodes)
    ensures var parts, r := EliminateSpaces(path), IsDirectoryReply(nodes, path);
            && (r == Err(IllegalArgument) <==> !IsValidPath(path))
            && (r == Err(FileNotFound) <==> IsValidPath(path) && parts !in nodes)
            && (r.Ok? <==> IsValidPath(path) && parts in nodes)
            && (r.Ok? ==> r.value == nodes[parts].isDir)
  {
    var parts := EliminateSpaces(path);
    ExistIff(nodes, parts);
    if parts in nodes {
      IsDirectoryOfExisting(nodes, parts);
    }
  }

  // ---------------------------------------------------------------------
  // Creation and deletion
  // ---------------------------------------------------------------------

  /** The stub `create_file` sends `storage_create` to: the local host, at the last command port registered. */
  function CreateTarget(stub: ServerInfo): ServerInfo
  {
    ServerInfo("127.0.0.1", stub.serverPort)
  }

  /**
   * `create_directory` (isDir) and `create_file`: false for "/" and for a
   * path that exists, of either kind; true when the tree creates it, and
   * FileNotFound when it cannot. A new file is announced with a
   * `storage_create` to the last registered command stub; with none
   * registered that is a null dereference, after the tree has changed.
   */
  function CreateReply(nodes: Nodes, issued: seq<Command>, path: string, isDir: bool, commandStub: Option<ServerInfo>)
    : Served<bool>
    requires WellFormed(nodes)
  {
    if !IsValidPath(path) then Served(Err(IllegalArgument), nodes, issued)
    else if path == "/" then Served(Ok(false), nodes, issued)
    else
      var parts := EliminateSpaces(path);
      if Exist(nodes, parts) then Served(Ok(false), nodes, issued)
      else
        var c := Create(nodes, parts, isDir);
        if !c.0 then Served(Err(FileNotFound), nodes, issued)
        else if isDir then Served(Ok(true), c.1, issued)
        else match commandStub
          case None => Served(Err(NullPointer), c.1, issued)
          case Some(stub) => Served(Ok(true), c.1, issued + [StorageCreate(CreateTarget(stub), path)])
  }

  /** The parent of the path is present and every node above the path is a directory. */
  predicate ParentReady(nodes: Nodes, parts: Path)
  {
    parts != [] && Parent(parts) in nodes && DirsAlong(nodes, Parent(parts))
  }

  /**
   * Which answer a create gives, and what it does: a new node of the
   * requested kind is attached exactly when the path is valid, not "/",
   * missing, and its parent is ready; every other answer changes nothing.
   */
  lemma CreateAnswers(nodes: Nodes, issued: seq<Command>, path: string, isDir: bool, commandStub: Option<ServerInfo>)
    requires WellFormed(nodes)
    ensures var parts, r := EliminateSpaces(path), CreateReply(nodes, issued, path, isDir, commandStub);
            && WellFormed(r.nodes)
            && (r.reply == Err(IllegalArgument) <==> !IsValidPath(path))
            && (r.reply == Ok(false) <==> IsValidPath(path) && (path == "/" || parts in nodes))
            && (r.reply == Err(FileNotFound) <==>
                  IsValidPath(path) && path != "/" && parts !in nodes && !ParentReady(nodes, parts))
            && (r.reply == Err(NullPointer) <==>
                  IsValidPath(path) && path != "/" && parts !in nodes && ParentReady(nodes, parts)
                  && !isDir && commandStub.None?)
            && (r.nodes != nodes <==> IsValidPath(path) && path != "/" && parts !in nodes && ParentReady(nodes, parts))
            && (r.nodes != nodes ==>
                  && r.nodes.Keys == nodes.Keys + {parts} && r.nodes[parts] == NewNode(isDir)
                  && r.nodes[Parent(parts)].children == nodes[Parent(parts)].children + [Last(parts)]
                  && Exist(r.nodes, parts))
            && (r.issued != issued ==> !isDir && r.reply == Ok(true)
                                       && r.issued == issued + [StorageCreate(CreateTarget(commandStub.value), path)])
  {
    var parts := EliminateSpaces(path);
    var r := CreateReply(nodes, issued, path, isDir, commandStub);
    ExistIff(nodes, parts);
    CreateKeepsWellFormed(nodes, parts, isDir);
    if IsValidPath(path) && path != "/" && parts !in nodes {
      CreateSucceedsIff(nodes, parts, isDir);
      if ParentReady(nodes, parts) {
        CreateAttachesOne(nodes, parts, isDir);
        CreateThenExists(nodes, parts, isDir);
        assert parts in r.nodes && r.nodes != nodes;
      }
    }
  }

  /**
   * At most one create of a path ever succeeds: after a create answers
   * true, every valid request for the same node, of either kind, answers
   * false and changes nothing.
   */
  lemma AtMostOneCreateSucceeds(nodes: Nodes, issued: seq<Command>, path: string, isDir: bool,
                                commandStub: Option<ServerInfo>, again: string, againDir: bool,
                                againStub: Option<ServerInfo>)
    requires WellFormed(nodes) && CreateReply(nodes, issued, path, isDir, commandStub).reply == Ok(true)
    requires IsValidPath(again) && EliminateSpaces(again) == EliminateSpaces(path)
    ensures WellFormed(CreateReply(nodes, issued, path, isDir, commandStub).nodes)
    ensures var r := CreateReply(nodes, issued, path, isDir, commandStub);
            var r2 := CreateReply(r.nodes, r.issued, again, againDir, againStub);
            r2 == Served(Ok(false), r.nodes, r.issued)
  {
    CreateSucceeded(nodes, issued, path, isDir, commandStub);
    var r := CreateReply(nodes, issued, path, isDir, commandStub);
    CreateOnPresent(r.nodes, r.issued, again, againDir, againStub);
  }

  /** A create that answers true leaves a well-formed tree holding the path. */
  lemma CreateSucceeded(nodes: Nodes, issued: seq<Command>, path: string, isDir: bool, commandStub: Option<ServerInfo>)
    requires WellFormed(nodes) && CreateReply(nodes, issued, path, isDir, commandStub).reply == Ok(true)
    ensures var r := CreateReply(nodes, issued, path, isDir, commandStub);
            WellFormed(r.nodes) && EliminateSpaces(path) in r.nodes
  {
    var parts := EliminateSpaces(path);
    CreateKeepsWellFormed(nodes, parts, isDir);
    CreateThenExists(nodes, parts, isDir);
    ExistIff(Create(nodes, parts, isDir).1, parts);
  }

  /** A valid create of a path already present answers false and changes nothing. */
  lemma CreateOnPresent(nodes: Nodes, issued: seq<Command>, path: string, isDir: bool, commandStub: Option<ServerInfo>)
    requires WellFormed(nodes) && IsValidPath(path) && EliminateSpaces(path) in nodes
    ensures CreateReply(nodes, issued, path, isDir, commandStub) == Served(Ok(false), nodes, issued)
  {
    ExistIff(nodes, EliminateSpaces(path));
  }

  /**
   * `delete`: IllegalArgument for "", IllegalState for any other invalid
   * path, FileNotFound for a missing one; otherwise the tree's `delete`,
   * answering true unless it dereferences a missing host.
   */
  function DeleteReply(nodes: Nodes, issued: seq<Command>, path: string): Served<bool>
    requires WellFormed(nodes)
  {
    if path == "" then Served(Err(IllegalArgument), nodes, issued)
    else if !IsValidPath(path) then Served(Err(IllegalState), nodes, issued)
    else
      var parts := EliminateSpaces(path);
      if !Exist(nodes, parts) then Served(Err(FileNotFound), nodes, issued)
      else
        ExistIff(nodes, parts);
        var o := DeleteEffect(nodes, issued, parts);
        Served(if o.completion == Normal then Ok(true) else Err(NullPointer), o.nodes, o.issued)
  }

  /**
   * The order of the checks of `delete`; a rejected request changes
   * nothing, and a file with a host is gone afterwards.
   */
  lemma DeleteAnswers(nodes: Nodes, issued: seq<Command>, path: string)
    requires WellFormed(nodes)
    ensures var parts, r := EliminateSpaces(path), DeleteReply(nodes, issued, path);
            && WellFormed(r.nodes)
            && (r.reply == Err(IllegalArgument) <==> path == "")
            && (r.reply == Err(IllegalState) <==> path != "" && !IsValidPath(path))
            && (r.reply == Err(FileNotFound) <==> IsValidPath(path) && parts !in nodes)
            && (r.reply.Err? && r.reply != Err(NullPointer) ==> r.nodes == nodes && r.issued == issued)
            && (r.reply == Err(NullPointer) ==> parts in nodes && parts != [])
            && (IsValidPath(path) && parts in nodes && parts != [] && !nodes[parts].isDir && nodes[parts].host.Some? ==>
                  r.reply == Ok(true) && !Exist(r.nodes, parts))
  {
    var parts := EliminateSpaces(path);
    ExistIff(nodes, parts);
    if IsValidPath(path) && parts in nodes {
      DeleteKeepsWellFormed(nodes, issued, parts);
      if DeleteEffect(nodes, issued, parts).completion == NullDereference {
        DeleteFailsOnlyOnMissingHost(nodes, issued, parts);
      }
      if parts != [] && !nodes[parts].isDir && nodes[parts].host.Some? {
        DeleteFile(nodes, issued, parts);
      }
    }
  }

  // ---------------------------------------------------------------------
  // Registration
  // ---------------------------------------------------------------------

  /** The tree and the delete list while the announced files are reconciled, and whether one was rejected. */
  datatype Announcement = Announcement(nodes: Nodes, toDelete: seq<string>, rejected: bool)

  /**
   * One announced file: an invalid path rejects the registration, "/" is
   * skipped, a path the tree already has goes on the delete list, and any
   * other is added with the new storage node as host.
   */
  function AnnounceOne(a: Announcement, f: string, si: StorageInfo): (r: Announcement)
    requires WellFormed(a.nodes)
    ensures WellFormed(r.nodes) && a.nodes.Keys <= r.nodes.Keys
  {
    if a.rejected then a
    else if !IsValidPath(f) then a.(rejected := true)
    else if f == "/" then a
    else
      var parts := EliminateSpaces(f);
      if Exist(a.nodes, parts) then a.(toDelete := a.toDelete + [f])
      else
        AddKeepsWellFormed(a.nodes, parts, si);
        a.(nodes := Tree.Add(a.nodes, parts, si))
  }

  /** The loop of `register` over the announced files, in order. */
  function Announce(nodes: Nodes, files: seq<string>, si: StorageInfo): (a: Announcement)
    requires WellFormed(nodes)
    ensures WellFormed(a.nodes) && nodes.Keys <= a.nodes.Keys
    decreases |files|
  {
    if files == [] then Announcement(nodes, [], false)
    else AnnounceOne(Announce(nodes, files[..|files| - 1], si), files[|files| - 1], si)
  }

  lemma AnnounceStep(nodes: Nodes, files: seq<string>, si: StorageInfo, i: nat)
    requires WellFormed(nodes) && i < |files|
    ensures Announce(nodes, files[..i + 1], si) == AnnounceOne(Announce(nodes, files[..i], si), files[i], si)
  {
    assert files[..i + 1][..i] == files[..i];
  }

  /** Once a file is rejected, the files after it are not looked at. */
  lemma {:induction false} AnnounceStops(nodes: Nodes, files: seq<string>, si: StorageInfo, i: nat)
    requires WellFormed(nodes) && i <= |files| && Announce(nodes, files[..i], si).rejected
    ensures Announce(nodes, files, si) == Announce(nodes, files[..i], si)
    decreases |files| - i
  {
    if i < |files| {
      AnnounceStep(nodes, files, si, i);
      AnnounceStops(nodes, files, si, i + 1);
    } else {
      assert files[..i] == files;
    }
  }

  /** One file rejects the registration exactly when it is an invalid path. */
  lemma AnnounceOneRejects(a: Announcement, f: string, si: StorageInfo)
    requires WellFormed(a.nodes)
    ensures AnnounceOne(a, f, si).rejected <==> a.rejected || !IsValidPath(f)
  {
  }

  /** The registration is rejected exactly when some announced path is invalid. */
  lemma {:induction false} AnnounceRejectsIff(nodes: Nodes, files: seq<string>, si: StorageInfo)
    requires WellFormed(nodes)
    ensures !Announce(nodes, files, si).rejected <==> forall f | f in files :: IsValidPath(f)
    decreases |files|
  {
    if files != [] {
      var front, last := files[..|files| - 1], files[|files| - 1];
      assert files == front + [last];
      AnnounceRejectsIff(nodes, front, si);
      AnnounceOneRejects(Announce(nodes, front, si), last, si);
    }
  }

  /**
   * One file and the delete list: the list grows by at most that file,
   * and only when it is a valid path other than "/"; a rejection stays;
   * and unless rejected, a valid path other than "/" exists afterwards and
   * is on the list when the tree already had it.
   */
  lemma AnnounceOneLists(a: Announcement, f: string, si: StorageInfo)
    requires WellFormed(a.nodes)
    ensures var b := AnnounceOne(a, f, si);
            && (b.toDelete == a.toDelete || (b.toDelete == a.toDelete + [f] && IsValidPath(f) && f != "/"))
            && (a.rejected ==> b.rejected)
            && (!b.rejected && IsValidPath(f) && f != "/" ==>
                  EliminateSpaces(f) in b.nodes && (EliminateSpaces(f) in a.nodes ==> f in b.toDelete))
  {
    if !a.rejected && IsValidPath(f) && f != "/" {
      var parts := EliminateSpaces(f);
      ExistIff(a.nodes, parts);
      if parts !in a.nodes {
        AddEstablishes(a.nodes, parts, si);
        ExistIff(Tree.Add(a.nodes, parts, si), parts);
      }
    }
  }

  /** One file and the nodes: kinds are kept, and a node below the root keeps its host or gets the new one. */
  lemma AnnounceOneShape(a: Announcement, f: string, si: StorageInfo)
    requires WellFormed(a.nodes)
    ensures var b := AnnounceOne(a, f, si);
            && (forall q | q in b.nodes && q != [] ::
                  (q in a.nodes && b.nodes[q].host == a.nodes[q].host) || b.nodes[q].host == Some(si))
            && (forall q | q in a.nodes :: b.nodes[q].isDir == a.nodes[q].isDir)
  {
    if !a.rejected && IsValidPath(f) && f != "/" {
      var parts := EliminateSpaces(f);
      ExistIff(a.nodes, parts);
      if parts !in a.nodes {
        var r := Tree.Add(a.nodes, parts, si);
        AddEstablishes(a.nodes, parts, si);
        AddShape(a.nodes, parts, si);
        forall q | q in r && q != []
          ensures (q in a.nodes && r[q].host == a.nodes[q].host) || r[q].host == Some(si)
        {
          if q !in a.nodes || IsPrefix(q, parts) {
            assert q == parts[..|q|];
          }
        }
      }
    }
  }

  /** Only valid announced paths other than "/" go on the delete list. */
  lemma {:induction false} AnnounceDeletesAnnounced(nodes: Nodes, files: seq<string>, si: StorageInfo)
    requires WellFormed(nodes)
    ensures forall f | f in Announce(nodes, files, si).toDelete :: f in files && IsValidPath(f) && f != "/"
    decreases |files|
  {
    if files != [] {
      var front, last := files[..|files| - 1], files[|files| - 1];
      assert files == front + [last];
      AnnounceDeletesAnnounced(nodes, front, si);
      AnnounceOneLists(Announce(nodes, front, si), last, si);
    }
  }

  /** Unless rejected, every valid announced path exists afterwards, and is on the delete list when it existed before. */
  lemma {:induction false} AnnounceCovers(nodes: Nodes, files: seq<string>, si: StorageInfo)
    requires WellFormed(nodes)
    ensures var a := Announce(nodes, files, si);
            !a.rejected ==> forall f | f in files && IsValidPath(f) && f != "/" ::
                              EliminateSpaces(f) in a.nodes && (EliminateSpaces(f) in nodes ==> f in a.toDelete)
    decreases |files|
  {
    if files != [] {
      var front, last := files[..|files| - 1], files[|files| - 1];
      assert files == front + [last];
      AnnounceCovers(nodes, front, si);
      AnnounceOneLists(Announce(nodes, front, si), last, si);
    }
  }

  /** Kinds and hosts after the whole loop. */
  lemma {:induction false} AnnounceShape(nodes: Nodes, files: seq<string>, si: StorageInfo)
    requires WellFormed(nodes)
    ensures var a := Announce(nodes, files, si);
            && (forall q | q in a.nodes && q != [] ::
                  (q in nodes && a.nodes[q].host == nodes[q].host) || a.nodes[q].host == Some(si))
            && (forall q | q in nodes :: a.nodes[q].isDir == nodes[q].isDir)
    decreases |files|
  {
    if files != [] {
      var front, last := files[..|files| - 1], files[|files| - 1];
      AnnounceShape(nodes, front, si);
      AnnounceOneShape(Announce(nodes, front, si), last, si);
    }
  }

  /**
   * What the reconciliation does: every entry of the delete list is a
   * valid announced path other than "/"; a path the tree had before goes
   * on the list; every valid path other than "/" exists afterwards; and
   * every node below the root either keeps the host it had or gets the new
   * storage node.
   */
  lemma AnnounceFacts(nodes: Nodes, files: seq<string>, si: StorageInfo)
    requires WellFormed(nodes)
    ensures var a := Announce(nodes, files, si);
            && (forall f | f in a.toDelete :: f in files && IsValidPath(f) && f != "/")
            && (!a.rejected ==> forall f | f in files && f != "/" && EliminateSpaces(f) in nodes :: f in a.toDelete)
            && (!a.rejected ==> forall f | f in files && f != "/" :: EliminateSpaces(f) in a.nodes)
            && (forall q | q in a.nodes && q != [] ::
                  (q in nodes && a.nodes[q].host == nodes[q].host) || a.nodes[q].host == Some(si))
            && (forall q | q in nodes :: a.nodes[q].isDir == nodes[q].isDir)
  {
    AnnounceDeletesAnnounced(nodes, files, si);
    AnnounceCovers(nodes, files, si);
    AnnounceShape(nodes, files, si);
    AnnounceRejectsIff(nodes, files, si);
  }

  // ---------------------------------------------------------------------
  // Lock and unlock
  // ---------------------------------------------------------------------

  /** The root is locked exclusively exactly for an exclusive request on "/" itself. */
  predicate RootExclusive(path: string, exclusive: bool)
  {
    path == "/" && exclusive
  }

  /** The table once `lock` has taken the root's lock. */
  function RootLocked(table: LockMap, path: string, exclusive: bool): LockMap
  {
    table[[] := Locked(LockOf(table, []), RootExclusive(path, exclusive))]
  }

  /** The table after a `lock` whose walk completes. */
  function LockedTable(table: LockMap, path: string, exclusive: bool): LockMap
  {
    var parts := EliminateSpaces(path);
    LockedUpTo(RootLocked(table, path, exclusive), parts, exclusive, |parts|)
  }

  /** The table after `unlock` on an existing path, and whether a missing entry was dereferenced. */
  function UnlockedTable(table: LockMap, path: string, exclusive: bool): (LockMap, Completion)
  {
    if [] !in table then (table, NullDereference)
    else
      var parts := EliminateSpaces(path);
      UnlockedUpTo(table[[] := Released(table[[]], RootExclusive(path, exclusive))], parts, exclusive, |parts|)
  }

  /** Every lock `lock` takes on an existing path can be taken without waiting. */
  predicate LockEnabled(table: LockMap, nodes: Nodes, path: string, exclusive: bool)
  {
    path != "" && EliminateSpaces(path) in nodes ==>
      CanLock(LockOf(table, []), RootExclusive(path, exclusive)) && LockGuards(table, EliminateSpaces(path), exclusive)
  }

  /** The walk never locks the root, so taking the root's lock first leaves its guards as they were. */
  lemma GuardsIgnoreRoot(table: LockMap, parts: Path, exclusive: bool, s: LockState)
    requires LockGuards(table, parts, exclusive)
    ensures LockGuards(table[[] := s], parts, exclusive)
  {
    forall i | 1 <= i <= |parts|
      ensures LockOf(table[[] := s], parts[..i]) == LockOf(table, parts[..i])
    {
      assert |parts[..i]| == i;
    }
  }

  /**
   * `lock` then `unlock` with the same path and mode, when every lock
   * could be taken: the unlock dereferences nothing and every lock is as
   * it was before (entries the lock walk created stay, as fresh locks).
   */
  lemma LockThenUnlockAtServer(table: LockMap, path: string, exclusive: bool)
    requires [] in table
    requires CanLock(LockOf(table, []), RootExclusive(path, exclusive))
    requires LockGuards(table, EliminateSpaces(path), exclusive)
    ensures var u := UnlockedTable(LockedTable(table, path, exclusive), path, exclusive);
            u.1 == Normal && forall q :: LockOf(u.0, q) == LockOf(table, q)
  {
    var parts := EliminateSpaces(path);
    var root := RootExclusive(path, exclusive);
    var t1 := RootLocked(table, path, exclusive);
    GuardsIgnoreRoot(table, parts, exclusive, t1[[]]);
    var locked := LockedTable(table, path, exclusive);
    LockedUpToKeys(t1, parts, exclusive, |parts|);
    LockedUpToAt(t1, parts, exclusive, |parts|, []);
    assert !OnPath([], parts, |parts|);
    var t3 := locked[[] := Released(locked[[]], root)];
    forall i | 1 <= i <= |parts|
      ensures parts[..i] in t3
    {
      assert parts[..i] in locked;
    }
    LockedThenReleased(LockOf(table, []), root);
    forall q
      ensures LockOf(UnlockedUpTo(t3, parts, exclusive, |parts|).0, q) == LockOf(table, q)
    {
      UnlockedUpToAt(t3, parts, exclusive, |parts|, q);
      if q != [] {
        LockedUpToAt(t1, parts, exclusive, |parts|, q);
        if OnPath(q, parts, |parts|) {
          assert CanLock(LockOf(t1, parts[..|q|]), IsFinal(parts, exclusive, |q|));
          LockedThenReleased(LockOf(table, q), IsFinal(parts, exclusive, |q|));
        }
      }
    }
    UnlockedUpToAt(t3, parts, exclusive, |parts|, []);
  }

  // ---------------------------------------------------------------------
  // The server
  // ---------------------------------------------------------------------

  class NamingServer {
    var tree: Namespace
    var locks: LockTable
    var registeredStorages: seq<StorageInfo>
    var registeredClients: seq<ServerInfo>
    var registeredCommands: seq<ServerInfo>
    /** The client and command stubs of the last registration request, recorded before its checks. */
    var clientStub: Option<ServerInfo>
    var commandStub: Option<ServerInfo>

    /** A well-formed tree, a root lock, valid locks only for nodes in the tree, and no registration listed twice. */
    ghost predicate Valid()
      reads this, tree, locks
    {
      && tree.Valid() && [] in locks.table && TableValid(locks.table) && locks.table.Keys <= tree.nodes.Keys
      && NoDups(registeredStorages) && NoDups(registeredClients) && NoDups(registeredCommands)
    }

    /** An empty namespace, the root's lock, and nothing registered. */
    constructor ()
      ensures Valid() && fresh(tree) && fresh(locks)
      ensures tree.nodes == map[[] := NewNode(true)] && tree.issued == [] && locks.table == map[[] := FRESH]
      ensures registeredStorages == [] && registeredClients == [] && registeredCommands == []
      ensures clientStub == None && commandStub == None
    {
      tree := new Namespace();
      locks := new LockTable();
      registeredStorages, registeredClients, registeredCommands := [], [], [];
      clientStub, commandStub := None, None;
    }

    /** `getstorage`. */
    method GetStorage(path: string) returns (r: Result<ServerInfo, Exception>)
      requires Valid()
      ensures r == GetStorageReply(tree.nodes, path)
    {
      if !IsValidPath(path) {
        return Err(IllegalArgument);
      }
      var parts := EliminateSpaces(path);
      ExistIff(tree.nodes, parts);
      var found := tree.Exist(path);
      if !found {
        return Err(FileNotFound);
      }
      var isDir := tree.IsDirectory(path);
      if isDir {
        return Err(FileNotFound);
      }
      GetServerInfoIs(tree.nodes, parts);
      var h := tree.GetServerInfo(path);
      if h.None? {
        return Err(NullPointer);
      }
      return Ok(ServerInfo(h.value.serverIp, h.value.clientPort));
    }

    /** `list`. */
    method List(path: string) returns (r: Result<seq<string>, Exception>)
      requires Valid()
      ensures r == ListReply(tree.nodes, path)
    {
      if !IsValidPath(path) {
        return Err(IllegalArgument);
      }
      ExistIff(tree.nodes, EliminateSpaces(path));
      var found := tree.Exist(path);
      if !found {
        return Err(FileNotFound);
      }
      var isDir := tree.IsDirectory(path);
      if !isDir {
        return Err(FileNotFound);
      }
      var names := tree.ListUnderDir(path);
      return Ok(names);
    }

    /** `is_directory`. */
    method IsDirectory(path: string) returns (r: Result<bool, Exception>)
      requires Valid()
      ensures r == IsDirectoryReply(tree.nodes, path)
    {
      if !IsValidPath(path) {
        return Err(IllegalArgument);
      }
      ExistIff(tree.nodes, EliminateSpaces(path));
      var found := tree.Exist(path);
      if !found {
        return Err(FileNotFound);
      }
      var isDir := tree.IsDirectory(path);
      return Ok(isDir);
    }

    /** `create_directory`. */
    method CreateDirectory(path: string) returns (r: Result<bool, Exception>)
      requires Valid()
      modifies tree
      ensures Valid()
      ensures var s := CreateReply(old(tree.nodes), old(tree.issued), path, true, commandStub);
              r == s.reply && tree.nodes == s.nodes && tree.issued == s.issued
    {
      if !IsValidPath(path) {
        return Err(IllegalArgument);
      }
      if path == "/" {
        return Ok(false);
      }
      ExistIff(tree.nodes, EliminateSpaces(path));
      var found := tree.Exist(path);
      if found {
        return Ok(false);
      }
      var ok := tree.CreateDirectory(path);
      if !ok {
        return Err(FileNotFound);
      }
      return Ok(true);
    }

    /** `create_file`: a new file is announced to the last registered command port. */
    method CreateFile(path: string) returns (r: Result<bool, Exception>)
      requires Valid()
      modifies tree
      ensures Valid()
      ensures var s := CreateReply(old(tree.nodes), old(tree.issued), path, false, commandStub);
              r == s.reply && tree.nodes == s.nodes && tree.issued == s.issued
    {
      if !IsValidPath(path) {
        return Err(IllegalArgument);
      }
      if path == "/" {
        return Ok(false);
      }
      ExistIff(tree.nodes, EliminateSpaces(path));
      var found := tree.Exist(path);
      if found {
        return Ok(false);
      }
      var ok := tree.CreateFile(path);
      if !ok {
        return Err(FileNotFound);
      }
      if commandStub.None? {
        return Err(NullPointer);
      }
      tree.Send(StorageCreate(CreateTarget(commandStub.value), path));
      return Ok(true);
    }

    /** `delete`: the lock entries of the nodes it removes can never be reached again. */
    method Delete(path: string) returns (r: Result<bool, Exception>)
      requires Valid()
      modifies tree, locks
      ensures Valid()
      ensures var s := DeleteReply(old(tree.nodes), old(tree.issued), path);
              r == s.reply && tree.nodes == s.nodes && tree.issued == s.issued
      ensures locks.table == LiveLocks(old(locks.table), tree.nodes)
    {
      LiveLocksFacts(locks.table, tree.nodes);
      if path == "" {
        return Err(IllegalArgument);
      }
      if !IsValidPath(path) {
        return Err(IllegalState);
      }
      ExistIff(tree.nodes, EliminateSpaces(path));
      var found := tree.Exist(path);
      if !found {
        return Err(FileNotFound);
      }
      var c := tree.Delete(path);
      LiveLocksFacts(locks.table, tree.nodes);
      locks.Retain(tree.nodes);
      if c == NullDereference {
        return Err(NullPointer);
      }
      return Ok(true);
    }

    /**
     * `register`: the client stub, then the command stub, are recorded and
     * checked for an earlier registration; the storage node is listed once;
     * then the announced files are reconciled with the tree.
     */
    method Register(ip: string, clientPort: int, commandPort: int, files: seq<string>)
      returns (r: Result<seq<string>, Exception>)
      requires Valid()
      modifies this, tree
      ensures Valid() && tree.issued == old(tree.issued)
      ensures clientStub == Some(ServerInfo(ip, clientPort))
      ensures ServerInfo(ip, clientPort) in old(registeredClients) ==>
                && r == Err(IllegalState) && registeredClients == old(registeredClients)
                && commandStub == old(commandStub) && registeredCommands == old(registeredCommands)
                && registeredStorages == old(registeredStorages) && tree.nodes == old(tree.nodes)
      ensures ServerInfo(ip, clientPort) !in old(registeredClients) ==>
                && registeredClients == old(registeredClients) + [ServerInfo(ip, clientPort)]
                && commandStub == Some(ServerInfo(ip, commandPort))
      ensures ServerInfo(ip, clientPort) !in old(registeredClients) && ServerInfo(ip, commandPort) in old(registeredCommands) ==>
                && r == Err(IllegalState) && registeredCommands == old(registeredCommands)
                && registeredStorages == old(registeredStorages) && tree.nodes == old(tree.nodes)
      ensures ServerInfo(ip, clientPort) !in old(registeredClients) && ServerInfo(ip, commandPort) !in old(registeredCommands) ==>
                var si := StorageInfo(ip, clientPort, commandPort);
                var a := Announce(old(tree.nodes), files, si);
                && registeredCommands == old(registeredCommands) + [ServerInfo(ip, commandPort)]
                && registeredStorages == (if si in old(registeredStorages) then old(registeredStorages)
                                          else old(registeredStorages) + [si])
                && tree.nodes == a.nodes
                && r == (if a.rejected then Err(IllegalState) else Ok(a.toDelete))
    {
      var client := ServerInfo(ip, clientPort);
      clientStub := Some(client);
      if client in registeredClients {
        return Err(IllegalState);
      }
      NoDupsAppend(registeredClients, client);
      registeredClients := registeredClients + [client];
      var command := ServerInfo(ip, commandPort);
      commandStub := Some(command);
      if command in registeredCommands {
        return Err(IllegalState);
      }
      NoDupsAppend(registeredCommands, command);
      registeredCommands := registeredCommands + [command];
      var si := StorageInfo(ip, clientPort, commandPort);
      if si !in registeredStorages {
        NoDupsAppend(registeredStorages, si);
        registeredStorages := registeredStorages + [si];
      }
      r := Reconcile(files, si);
    }

    /** The loop of `register` over the announced files. */
    method Reconcile(files: seq<string>, si: StorageInfo) returns (r: Result<seq<string>, Exception>)
      requires tree.Valid()
      modifies tree
      ensures tree.Valid() && tree.issued == old(tree.issued)
      ensures var a := Announce(old(tree.nodes), files, si);
              tree.nodes == a.nodes && r == (if a.rejected then Err(IllegalState) else Ok(a.toDelete))
    {
      ghost var nodes0 := tree.nodes;
      var toDelete: seq<string> := [];
      var i := 0;
      while i < |files|
        invariant 0 <= i <= |files|
        invariant tree.Valid() && tree.issued == old(tree.issued)
        invariant Announce(nodes0, files[..i], si) == Announcement(tree.nodes, toDelete, false)
      {
        AnnounceStep(nodes0, files, si, i);
        var rejected;
        toDelete, rejected := AnnounceFile(files[i], si, toDelete);
        if rejected {
          AnnounceStops(nodes0, files, si, i + 1);
          return Err(IllegalState);
        }
        i := i + 1;
      }
      assert files[..i] == files;
      return Ok(toDelete);
    }

    /** One iteration of the loop of `register`. */
    method AnnounceFile(f: string, si: StorageInfo, toDelete: seq<string>) returns (toDelete': seq<string>, rejected: bool)
      requires tree.Valid()
      modifies tree
      ensures tree.Valid() && tree.issued == old(tree.issued)
      ensures AnnounceOne(Announcement(old(tree.nodes), toDelete, false), f, si) == Announcement(tree.nodes, toDelete', rejected)
    {
      toDelete', rejected := toDelete, false;
      if !IsValidPath(f) {
        return toDelete, true;
      }
      if f != "/" {
        ExistIff(tree.nodes, EliminateSpaces(f));
        var found := tree.Exist(f);
        if found {
          toDelete' := toDelete + [f];
        } else {
          AddKeepsWellFormed(tree.nodes, EliminateSpaces(f), si);
          tree.Add(f, si);
        }
      }
    }

    /** `lock`. */
    method Lock(path: string, exclusive: bool) returns (r: Result<(), Exception>)
      requires Valid() && LockEnabled(locks.table, tree.nodes, path, exclusive)
      modifies tree, locks
      ensures Valid()
      ensures path == "" ==> r == Err(IllegalArgument)
      ensures path != "" && EliminateSpaces(path) !in old(tree.nodes) ==> r == Err(FileNotFound)
      ensures r == Err(IllegalArgument) || r == Err(FileNotFound) ==>
                tree.nodes == old(tree.nodes) && tree.issued == old(tree.issued) && locks.table == old(locks.table)
      ensures path != "" && EliminateSpaces(path) in old(tree.nodes) ==> PathPresent(old(tree.nodes), EliminateSpaces(path))
      ensures path != "" && EliminateSpaces(path) in old(tree.nodes) ==>
                var parts := EliminateSpaces(path);
                var w := LockWalk(old(tree.nodes), old(tree.issued), RootLocked(old(locks.table), path, exclusive),
                                  parts, exclusive, registeredStorages, |parts|);
                && tree.nodes == w.nodes && tree.issued == w.issued && locks.table == w.locks
                && r == (if w.completion == Normal then Ok(()) else Err(NullPointer))
      ensures r.Ok? ==> locks.table == LockedTable(old(locks.table), path, exclusive)
    {
      if path == "" {
        return Err(IllegalArgument);
      }
      var parts := EliminateSpaces(path);
      var found := tree.Exist(path);
      if !found {
        return Err(FileNotFound);
      }
      ghost var table0 := locks.table;
      GuardsIgnoreRoot(table0, parts, exclusive, Locked(LockOf(table0, []), RootExclusive(path, exclusive)));
      locks.Lock([], RootExclusive(path, exclusive));
      ghost var nodes0, issued0, table1 := tree.nodes, tree.issued, locks.table;
      var c := tree.LockAlongThePath(path, exclusive, locks, registeredStorages);
      LockWalkKeepsWellFormed(nodes0, issued0, table1, parts, exclusive, registeredStorages, |parts|);
      LockWalkLocks(nodes0, issued0, table1, parts, exclusive, registeredStorages, |parts|);
      var w := LockWalk(nodes0, issued0, table1, parts, exclusive, registeredStorages, |parts|);
      LockingKeepsValid(LockOf(table0, []), RootExclusive(path, exclusive));
      assert TableValid(table1);
      LockedUpToValid(table1, parts, exclusive, w.taken);
      LockedUpToKeys(table1, parts, exclusive, w.taken);
      LockWalkKeysInTree(nodes0, issued0, table1, parts, exclusive, registeredStorages, |parts|);
      if c == NullDereference {
        return Err(NullPointer);
      }
      return Ok(());
    }

    /** `unlock`. */
    method Unlock(path: string, exclusive: bool) returns (r: Result<(), Exception>)
      requires Valid()
      modifies locks
      ensures Valid()
      ensures path == "" || EliminateSpaces(path) !in tree.nodes ==>
                r == Err(IllegalArgument) && locks.table == old(locks.table)
      ensures path != "" && EliminateSpaces(path) in tree.nodes ==>
                var u := UnlockedTable(old(locks.table), path, exclusive);
                locks.table == u.0 && r == (if u.1 == Normal then Ok(()) else Err(NullPointer))
    {
      if path == "" {
        return Err(IllegalArgument);
      }
      var parts := EliminateSpaces(path);
      var found := tree.Exist(path);
      if !found {
        return Err(IllegalArgument);
      }
      ghost var table0 := locks.table;
      var c := locks.Unlock([], RootExclusive(path, exclusive));
      LockingKeepsValid(table0[[]], RootExclusive(path, exclusive));
      ghost var table1 := locks.table;
      c := tree.UnlockPrevious(path, exclusive, locks);
      UnlockedUpToValid(table1, parts, exclusive, |parts|);
      if c == NullDereference {
        return Err(NullPointer);
      }
      return Ok(());
    }
  }
}
