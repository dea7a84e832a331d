/**
 * What the mutating operations of the namespace do, as functions of the
 * tree and of the requests sent so far: `deleteReplicas`, `replicate`, one
 * node of the lock walk, and `delete`. The methods of `Namespaces.Namespace`
 * are proved to have exactly these effects.
 */
module Effects {
  import opened Wrappers
  import opened Storage
  import opened Paths
  import opened Tree
  import opened Replicas

  /** The tree, the requests sent to storage nodes, and how the operation ended. */
  datatype Outcome = Outcome(nodes: Nodes, issued: seq<Command>, completion: Completion)

  /**
   * `deleteReplicas`: the loop sends a delete to the replica at the current
   * index and removes it, then advances the index past the entry that slid
   * into its place, so the even-positioned replicas are deleted and the
   * odd-positioned ones stay listed.
   */
  function DeleteReplicasEffect(nodes: Nodes, issued: seq<Command>, p: Path): Outcome
    requires p in nodes
  {
    var rs := nodes[p].replicas;
    Outcome(nodes[p := nodes[p].(replicas := OddIndexed(rs))],
            issued + DeleteCommands(EvenIndexed(rs), PathString(p)), Normal)
  }

  /**
   * `replicate`: with no host, the first registered server not yet listed
   * dereferences the null host before anything changes; otherwise every
   * registered server that is neither listed nor the host is appended and
   * sent a copy request naming the host.
   */
  function ReplicateEffect(nodes: Nodes, issued: seq<Command>, p: Path, registered: seq<StorageInfo>): Outcome
    requires p in nodes
  {
    var n := nodes[p];
    match n.host
    case None =>
      Outcome(nodes, issued, if forall si | si in registered :: si in n.replicas then Normal else NullDereference)
    case Some(h) =>
      var rs := AddMissing(n.replicas, h, registered);
      AddMissingFacts(n.replicas, h, registered);
      Outcome(nodes[p := n.(replicas := rs)], issued + CopyCommands(rs[|n.replicas|..], PathString(p), h), Normal)
  }

  /**
   * The bookkeeping of `lock_along_the_path` at one node once its lock is
   * held: the node locked exclusively has its counter reset and its
   * replicas deleted; a file locked shared counts the access and is
   * replicated when the count passes the limit.
   */
  function VisitEffect(nodes: Nodes, issued: seq<Command>, q: Path, final: bool, registered: seq<StorageInfo>): Outcome
    requires q in nodes
  {
    if final then
      DeleteReplicasEffect(nodes[q := nodes[q].(accessNum := 0)], issued, q)
    else if nodes[q].isDir then
      Outcome(nodes, issued, Normal)
    else
      var b := Bump(nodes[q].accessNum, ACCESS_LIMIT);
      var bumped := nodes[q := nodes[q].(accessNum := b.0)];
      if b.1 then ReplicateEffect(bumped, issued, q, registered) else Outcome(bumped, issued, Normal)
  }

  /** Only the counter and the replica list of node `p` change; requests are only appended. */
  predicate ChangesOnly(a: Outcome, nodes: Nodes, issued: seq<Command>, p: Path)
  {
    && a.nodes.Keys == nodes.Keys
    && (forall q | q in nodes && q != p :: a.nodes[q] == nodes[q])
    && (p in nodes ==> a.nodes[p].isDir == nodes[p].isDir && a.nodes[p].children == nodes[p].children
                       && a.nodes[p].host == nodes[p].host)
    && |issued| <= |a.issued| && a.issued[..|issued|] == issued
  }

  /** `deleteReplicas` changes only the node's replica list, never lists a replica twice, and keeps the tree well formed. */
  lemma DeleteReplicasEffectFacts(nodes: Nodes, issued: seq<Command>, p: Path)
    requires p in nodes
    ensures var o := DeleteReplicasEffect(nodes, issued, p);
            && ChangesOnly(o, nodes, issued, p) && o.completion == Normal
            && o.nodes[p].accessNum == nodes[p].accessNum
            && (WellFormed(nodes) ==> WellFormed(o.nodes))
  {
    var o := DeleteReplicasEffect(nodes, issued, p);
    assert o.issued[..|issued|] == issued;
    if WellFormed(nodes) {
      DeleteReplicasSplits(nodes[p].replicas);
      UpdateKeepsWellFormed(nodes, p, o.nodes[p]);
    }
  }

  /**
   * `replicate` changes only the node's replica list, never removes a
   * replica, never adds the host, never lists a server twice, and on
   * normal completion every registered server other than the host is
   * listed.
   */
  lemma ReplicateEffectFacts(nodes: Nodes, issued: seq<Command>, p: Path, registered: seq<StorageInfo>)
    requires p in nodes
    ensures var o := ReplicateEffect(nodes, issued, p, registered);
            && ChangesOnly(o, nodes, issued, p)
            && o.nodes[p].accessNum == nodes[p].accessNum
            && |nodes[p].replicas| <= |o.nodes[p].replicas|
            && o.nodes[p].replicas[..|nodes[p].replicas|] == nodes[p].replicas
            && (nodes[p].host.Some? ==> nodes[p].host.value !in o.nodes[p].replicas[|nodes[p].replicas|..])
            && (o.completion == Normal ==>
                  forall si | si in registered && Some(si) != nodes[p].host :: si in o.nodes[p].replicas)
            && (o.completion == NullDereference <==> nodes[p].host.None? && exists si | si in registered :: si !in nodes[p].replicas)
            && (WellFormed(nodes) ==> WellFormed(o.nodes))
  {
    var n := nodes[p];
    var o := ReplicateEffect(nodes, issued, p, registered);
    assert o.issued[..|issued|] == issued;
    match n.host
    case None =>
    case Some(h) =>
      AddMissingFacts(n.replicas, h, registered);
      if WellFormed(nodes) {
        UpdateKeepsWellFormed(nodes, p, o.nodes[p]);
      }
  }

  /** A node's visit changes only that node's counter and replica list. */
  lemma VisitEffectFacts(nodes: Nodes, issued: seq<Command>, q: Path, final: bool, registered: seq<StorageInfo>)
    requires q in nodes
    ensures var o := VisitEffect(nodes, issued, q, final, registered);
            && ChangesOnly(o, nodes, issued, q)
            && (o.completion == NullDereference ==> !final && nodes[q].host.None?)
            && (WellFormed(nodes) ==> WellFormed(o.nodes))
  {
    if final {
      var reset := nodes[q := nodes[q].(accessNum := 0)];
      DeleteReplicasEffectFacts(reset, issued, q);
      if WellFormed(nodes) {
        UpdateKeepsWellFormed(nodes, q, reset[q]);
      }
    } else if !nodes[q].isDir {
      var b := Bump(nodes[q].accessNum, ACCESS_LIMIT);
      var bumped := nodes[q := nodes[q].(accessNum := b.0)];
      if WellFormed(nodes) {
        UpdateKeepsWellFormed(nodes, q, bumped[q]);
      }
      if b.1 {
        ReplicateEffectFacts(bumped, issued, q, registered);
      }
    }
  }

  /**
   * The node locked exclusively ends with a zero counter and only the
   * replicas the deletion loop skipped; a file locked shared either counts
   * one more access or, on passing the limit, is reset and replicated.
   */
  lemma VisitCounts(nodes: Nodes, issued: seq<Command>, q: Path, final: bool, registered: seq<StorageInfo>)
    requires q in nodes
    ensures var o := VisitEffect(nodes, issued, q, final, registered);
            && (final ==> o.nodes[q].accessNum == 0 && o.nodes[q].replicas == OddIndexed(nodes[q].replicas))
            && (!final && nodes[q].isDir ==> o == Outcome(nodes, issued, Normal))
            && (!final && !nodes[q].isDir && nodes[q].accessNum + 1 <= ACCESS_LIMIT ==>
                  o == Outcome(nodes[q := nodes[q].(accessNum := nodes[q].accessNum + 1)], issued, Normal))
            && (!final && !nodes[q].isDir && nodes[q].accessNum + 1 > ACCESS_LIMIT ==>
                  o.nodes[q].accessNum == 0)
  {
    if !final && !nodes[q].isDir {
      var b := Bump(nodes[q].accessNum, ACCESS_LIMIT);
      var bumped := nodes[q := nodes[q].(accessNum := b.0)];
      if b.1 {
        ReplicateEffectFacts(bumped, issued, q, registered);
      }
    }
  }

  // ---------------------------------------------------------------------
  // `delete`
  // ---------------------------------------------------------------------

  predicate IsFileAt(nodes: Nodes, q: Path)
  {
    q in nodes && !nodes[q].isDir
  }

  /** Position of the first child, from position `i` on, that is a file. */
  function FirstFileFrom(nodes: Nodes, p: Path, i: nat): (r: Option<nat>)
    requires p in nodes && i <= |nodes[p].children|
    ensures r.Some? ==> i <= r.value < |nodes[p].children|
                        && IsFileAt(nodes, p + [nodes[p].children[r.value]])
                        && forall k | i <= k < r.value :: !IsFileAt(nodes, p + [nodes[p].children[k]])
    ensures r.None? ==> forall k | i <= k < |nodes[p].children| :: !IsFileAt(nodes, p + [nodes[p].children[k]])
    decreases |nodes[p].children| - i
  {
    var ch := nodes[p].children;
    if i == |ch| then None
    else if IsFileAt(nodes, p + [ch[i]]) then Some(i)
    else FirstFileFrom(nodes, p, i + 1)
  }

  /**
   * `delete` on an existing path. The root is never removed. A file has
   * its replicas deleted, a delete sent to its host, and is unhooked from
   * its parent. A directory is handled only through its first file child:
   * that child's replicas are deleted and its host is sent a delete naming
   * the directory, then the directory's replicas are deleted, its own host
   * is sent the same delete, and the directory is unhooked; a directory with
   * no file child is left alone. Each missing host ends the operation with
   * a null dereference, with what was done before it kept.
   */
  function DeleteEffect(nodes: Nodes, issued: seq<Command>, parts: Path): Outcome
    requires WellFormed(nodes) && parts in nodes
  {
    if parts == [] then Outcome(nodes, issued, Normal)
    else
      ParentInNodes(nodes, parts);
      var path := PathString(parts);
      if !nodes[parts].isDir then
        var o := DeleteReplicasEffect(nodes, issued, parts);
        match nodes[parts].host
        case None => Outcome(o.nodes, o.issued, NullDereference)
        case Some(h) => Outcome(Detach(o.nodes, parts), o.issued + [DeleteCommand(h, path)], Normal)
      else
        match FirstFileFrom(nodes, parts, 0)
        case None => Outcome(nodes, issued, Normal)
        case Some(i) =>
          var child := parts + [nodes[parts].children[i]];
          var o1 := DeleteReplicasEffect(nodes, issued, child);
          match nodes[child].host
          case None => Outcome(o1.nodes, o1.issued, NullDereference)
          case Some(c) =>
            var o2 := DeleteReplicasEffect(o1.nodes, o1.issued + [DeleteCommand(c, path)], parts);
            match nodes[parts].host
            case None => Outcome(o2.nodes, o2.issued, NullDereference)
            case Some(h) => Outcome(Detach(o2.nodes, parts), o2.issued + [DeleteCommand(h, path)], Normal)
  }

  /** Unhooking a node does not look at the node's own record. */
  lemma DetachIgnoresNode(nodes: Nodes, p: Path, n: Node)
    requires p in nodes && p != [] && Parent(p) in nodes
    ensures Detach(nodes[p := n], p) == Detach(nodes, p)
  {
    assert Parent(p) != p;
    assert IsPrefix(p, p);
  }

  /** Deleting a file with a host removes exactly that node; the requests are its replicas' deletes, then its host's. */
  lemma DeleteFile(nodes: Nodes, issued: seq<Command>, parts: Path)
    requires WellFormed(nodes) && parts in nodes && parts != []
    requires !nodes[parts].isDir && nodes[parts].host.Some?
    ensures Parent(parts) in nodes
    ensures var o := DeleteEffect(nodes, issued, parts);
            && o.completion == Normal
            && o.nodes == Detach(nodes, parts)
            && WellFormed(o.nodes) && !Exist(o.nodes, parts)
            && o.nodes[Parent(parts)].children == RemoveFirst(nodes[Parent(parts)].children, Last(parts))
            && o.issued == issued + DeleteCommands(EvenIndexed(nodes[parts].replicas), PathString(parts))
                                 + [DeleteCommand(nodes[parts].host.value, PathString(parts))]
  {
    ParentInNodes(nodes, parts);
    var o := DeleteReplicasEffect(nodes, issued, parts);
    DetachIgnoresNode(nodes, parts, o.nodes[parts]);
    DetachFacts(nodes, parts);
  }

  /** A directory without a file among its direct children is left in place, and nothing is sent. */
  lemma DeleteDirectoryWithoutFileChild(nodes: Nodes, issued: seq<Command>, parts: Path)
    requires WellFormed(nodes) && parts in nodes && nodes[parts].isDir
    requires forall c | c in nodes[parts].children :: !IsFileAt(nodes, parts + [c])
    ensures DeleteEffect(nodes, issued, parts) == Outcome(nodes, issued, Normal)
    ensures Exist(DeleteEffect(nodes, issued, parts).nodes, parts)
  {
    ExistIff(nodes, parts);
  }

  /**
   * A directory with a file among its direct children, where that child
   * and the directory both have hosts, is unhooked with its whole subtree.
   */
  lemma DeleteDirectoryWithFileChild(nodes: Nodes, issued: seq<Command>, parts: Path)
    requires WellFormed(nodes) && parts in nodes && parts != [] && nodes[parts].isDir
    requires FirstFileFrom(nodes, parts, 0).Some?
    requires nodes[parts + [nodes[parts].children[FirstFileFrom(nodes, parts, 0).value]]].host.Some?
    requires nodes[parts].host.Some?
    ensures Parent(parts) in nodes
    ensures var o := DeleteEffect(nodes, issued, parts);
            && o.completion == Normal && WellFormed(o.nodes) && !Exist(o.nodes, parts)
            && (forall x | x in nodes :: x in o.nodes <==> !IsPrefix(parts, x))
  {
    ParentInNodes(nodes, parts);
    var i := FirstFileFrom(nodes, parts, 0).value;
    var child := parts + [nodes[parts].children[i]];
    var o1 := DeleteReplicasEffect(nodes, issued, child);
    DeleteReplicasEffectFacts(nodes, issued, child);
    var c := nodes[child].host.value;
    var o2 := DeleteReplicasEffect(o1.nodes, o1.issued + [DeleteCommand(c, PathString(parts))], parts);
    DeleteReplicasEffectFacts(o1.nodes, o1.issued + [DeleteCommand(c, PathString(parts))], parts);
    assert o2.nodes.Keys == nodes.Keys;
    assert o2.nodes[parts].isDir && o2.nodes[parts].host == nodes[parts].host;
    var h := nodes[parts].host.value;
    assert DeleteEffect(nodes, issued, parts)
        == Outcome(Detach(o2.nodes, parts), o2.issued + [DeleteCommand(h, PathString(parts))], Normal);
    DetachFacts(o2.nodes, parts);
  }

  /** `delete` keeps the tree well formed, whichever way it ends. */
  lemma DeleteKeepsWellFormed(nodes: Nodes, issued: seq<Command>, parts: Path)
    requires WellFormed(nodes) && parts in nodes
    ensures WellFormed(DeleteEffect(nodes, issued, parts).nodes)
  {
    if parts != [] {
      ParentInNodes(nodes, parts);
      if !nodes[parts].isDir {
        DeleteReplicasEffectFacts(nodes, issued, parts);
        var o := DeleteReplicasEffect(nodes, issued, parts);
        if nodes[parts].host.Some? {
          DetachFacts(o.nodes, parts);
        }
      } else if FirstFileFrom(nodes, parts, 0).Some? {
        var i := FirstFileFrom(nodes, parts, 0).value;
        var child := parts + [nodes[parts].children[i]];
        var o1 := DeleteReplicasEffect(nodes, issued, child);
        DeleteReplicasEffectFacts(nodes, issued, child);
        if nodes[child].host.Some? {
          var c := nodes[child].host.value;
          var o2 := DeleteReplicasEffect(o1.nodes, o1.issued + [DeleteCommand(c, PathString(parts))], parts);
          DeleteReplicasEffectFacts(o1.nodes, o1.issued + [DeleteCommand(c, PathString(parts))], parts);
          if nodes[parts].host.Some? {
            DetachFacts(o2.nodes, parts);
          }
        }
      }
    }
  }

  /** `delete` fails only on a missing host: of the file, or of the file child or the directory. */
  lemma DeleteFailsOnlyOnMissingHost(nodes: Nodes, issued: seq<Command>, parts: Path)
    requires WellFormed(nodes) && parts in nodes
    requires DeleteEffect(nodes, issued, parts).completion == NullDereference
    ensures parts != [] && (nodes[parts].host.None? ||
              (nodes[parts].isDir && exists c | c in nodes[parts].children ::
                 IsFileAt(nodes, parts + [c]) && nodes[parts + [c]].host.None?))
  {
    if nodes[parts].isDir && nodes[parts].host.Some? {
      var i := FirstFileFrom(nodes, parts, 0).value;
      var c := nodes[parts].children[i];
      assert c in nodes[parts].children;
    }
  }
}
