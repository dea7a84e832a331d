/**
 * The namespace tree as a value: every `Address` node is stored under the
 * segments of its path, and keeps the names of its children in insertion
 * order. The root is the node under []. A node is a directory or a file, may
 * record the storage node that hosts it, counts accesses and lists the
 * storage nodes that hold replicas of it.
 *
 * Nodes compare by their path strings (`Address.equals`); on well-formed
 * segments that is the same as comparing segment sequences
 * (`Paths.PathStringInjective`), so the walks below compare names.
 */
module Tree {
  import opened Wrappers
  import opened Storage
  import opened Paths

  datatype Node = Node(isDir: bool, children: seq<string>, host: Option<StorageInfo>,
                       accessNum: int, replicas: seq<StorageInfo>)

  /** `new Address(path)`: a directory with no children, no host, no accesses, no replicas. */
  function NewNode(isDir: bool): Node
  {
    Node(isDir, [], None, 0, [])
  }

  /** Requests the naming server sends to storage nodes; their replies are ignored. */
  datatype Command =
    | StorageDelete(to: ServerInfo, path: string)
    | StorageCopy(to: ServerInfo, path: string, sourceIp: string, sourcePort: int)
    | StorageCreate(to: ServerInfo, path: string)

  /** How an operation ends: normally, or by dereferencing a null host or lock. */
  datatype Completion = Normal | NullDereference

  type Nodes = map<Path, Node>

  predicate NoDups<T(==)>(s: seq<T>)
  {
    forall i, j | 0 <= i < j < |s| :: s[i] != s[j]
  }

  /**
   * The shape every operation keeps: the root is a directory, every other
   * node is listed (once) among its parent's children, every listed child
   * is present, and no replica is listed twice.
   */
  ghost predicate WellFormed(nodes: Nodes)
  {
    && [] in nodes && nodes[[]].isDir
    && (forall p | p in nodes :: GoodSegments(p))
    && (forall p, c {:trigger p + [c] in nodes} | p + [c] in nodes :: p in nodes && c in nodes[p].children)
    && (forall p, c {:trigger c in nodes[p].children} | p in nodes && c in nodes[p].children :: p + [c] in nodes)
    && (forall p | p in nodes :: NoDups(nodes[p].children) && NoDups(nodes[p].replicas))
  }

  /** The tree as the naming server starts it: the root directory alone. */
  lemma EmptyTreeWellFormed()
    ensures WellFormed(map[[] := NewNode(true)])
  {
  }

  /** Every node other than the root hangs under its parent. */
  lemma ParentInNodes(nodes: Nodes, p: Path)
    requires WellFormed(nodes) && p in nodes && p != []
    ensures Parent(p) in nodes && Last(p) in nodes[Parent(p)].children
  {
    assert p == Parent(p) + [Last(p)];
  }

  lemma {:induction false} PrefixInNodes(nodes: Nodes, p: Path, k: nat)
    requires WellFormed(nodes) && p in nodes && k <= |p|
    ensures p[..k] in nodes
    decreases |p| - k
  {
    if k < |p| {
      ParentInNodes(nodes, p);
      PrefixInNodes(nodes, Parent(p), k);
      assert Parent(p)[..k] == p[..k];
    } else {
      assert p[..k] == p;
    }
  }

  /** A name is listed among a node's children exactly when the child node is present. */
  lemma ChildInNodes(nodes: Nodes, p: Path, c: string)
    requires WellFormed(nodes) && p in nodes
    ensures c in nodes[p].children <==> p + [c] in nodes
  {
    if p + [c] in nodes {
      assert Parent(p + [c]) == p && Last(p + [c]) == c;
    }
  }

  /**
   * The Java walks build the candidate `curr.path + "/" + parts[i]` and look
   * it up among the children by path string: that finds the child whose name
   * is `parts[i]` and no other.
   */
  lemma CandidateMatchesChild(p: Path, name: string, s: string)
    requires GoodSegments(p + [name]) && GoodSegment(s)
    ensures PathString(p + [name]) == PathString(p) + "/" + s <==> name == s
  {
    assert Parent(p + [name]) == p && Last(p + [name]) == name;
    assert GoodSegments(p + [s]) by {
      assert forall i | 0 <= i < |p| :: (p + [s])[i] == (p + [name])[i];
    }
    assert Parent(p + [s]) == p && Last(p + [s]) == s;
    PathStringInjective(p + [name], p + [s]);
  }

  // ---------------------------------------------------------------------
  // Read-only walks
  // ---------------------------------------------------------------------

  /** The walk of `exist`: follow the segments from `cur`, failing at the first missing child. */
  predicate ExistsFrom(nodes: Nodes, cur: Path, rest: seq<string>)
    requires WellFormed(nodes) && cur in nodes
    decreases |rest|
  {
    rest == [] || (rest[0] in nodes[cur].children && ExistsFrom(nodes, cur + [rest[0]], rest[1..]))
  }

  /** `exist` on a path's segments. */
  predicate Exist(nodes: Nodes, parts: Path)
    requires WellFormed(nodes)
  {
    ExistsFrom(nodes, [], parts)
  }

  lemma {:induction false} ExistsFromIff(nodes: Nodes, cur: Path, rest: seq<string>)
    requires WellFormed(nodes) && cur in nodes
    ensures ExistsFrom(nodes, cur, rest) <==> cur + rest in nodes
    decreases |rest|
  {
    if rest == [] {
      assert cur + rest == cur;
    } else {
      var next := cur + [rest[0]];
      assert next + rest[1..] == cur + rest;
      if rest[0] in nodes[cur].children {
        ExistsFromIff(nodes, next, rest[1..]);
      } else if cur + rest in nodes {
        PrefixInNodes(nodes, cur + rest, |cur| + 1);
      }
    }
  }

  /** `exist` holds exactly for the paths present in the tree. */
  lemma ExistIff(nodes: Nodes, parts: Path)
    requires WellFormed(nodes)
    ensures Exist(nodes, parts) <==> parts in nodes
  {
    ExistsFromIff(nodes, [], parts);
    assert [] + parts == parts;
  }

  /**
   * The walk of `is_Directory` and `list_under_dir`: a segment that is not
   * among the children is skipped and the cursor stays where it is.
   */
  function SkipWalk(nodes: Nodes, cur: Path, rest: seq<string>): (r: Path)
    requires WellFormed(nodes) && cur in nodes
    ensures r in nodes
    decreases |rest|
  {
    if rest == [] then cur
    else if rest[0] in nodes[cur].children then SkipWalk(nodes, cur + [rest[0]], rest[1..])
    else SkipWalk(nodes, cur, rest[1..])
  }

  lemma {:induction false} SkipWalkOfExisting(nodes: Nodes, cur: Path, rest: seq<string>)
    requires WellFormed(nodes) && cur in nodes && cur + rest in nodes
    ensures SkipWalk(nodes, cur, rest) == cur + rest
    decreases |rest|
  {
    if rest == [] {
      assert cur + rest == cur;
    } else {
      var next := cur + [rest[0]];
      assert next + rest[1..] == cur + rest;
      PrefixInNodes(nodes, cur + rest, |cur| + 1);
      assert (cur + rest)[..|cur| + 1] == next;
      ChildInNodes(nodes, cur, rest[0]);
      SkipWalkOfExisting(nodes, next, rest[1..]);
    }
  }

  /** `is_Directory` on a path's segments. */
  predicate IsDirectory(nodes: Nodes, parts: Path)
    requires WellFormed(nodes)
  {
    nodes[SkipWalk(nodes, [], parts)].isDir
  }

  /** On a path that exists, `is_Directory` reports that node's kind. */
  lemma IsDirectoryOfExisting(nodes: Nodes, parts: Path)
    requires WellFormed(nodes) && parts in nodes
    ensures IsDirectory(nodes, parts) == nodes[parts].isDir
  {
    assert [] + parts == parts;
    SkipWalkOfExisting(nodes, [], parts);
  }

  /** The walk of `get_serverInfo`: null (None) as soon as a segment is missing. */
  function ServerInfoFrom(nodes: Nodes, cur: Path, rest: seq<string>): Option<StorageInfo>
    requires WellFormed(nodes) && cur in nodes
    decreases |rest|
  {
    if rest == [] then nodes[cur].host
    else if rest[0] in nodes[cur].children then ServerInfoFrom(nodes, cur + [rest[0]], rest[1..])
    else None
  }

  function GetServerInfo(nodes: Nodes, parts: Path): Option<StorageInfo>
    requires WellFormed(nodes)
  {
    ServerInfoFrom(nodes, [], parts)
  }

  lemma {:induction false} ServerInfoFromIs(nodes: Nodes, cur: Path, rest: seq<string>)
    requires WellFormed(nodes) && cur in nodes
    ensures ServerInfoFrom(nodes, cur, rest) == if cur + rest in nodes then nodes[cur + rest].host else None
    decreases |rest|
  {
    if rest == [] {
      assert cur + rest == cur;
    } else {
      var next := cur + [rest[0]];
      assert next + rest[1..] == cur + rest;
      if rest[0] in nodes[cur].children {
        ServerInfoFromIs(nodes, next, rest[1..]);
      } else if cur + rest in nodes {
        PrefixInNodes(nodes, cur + rest, |cur| + 1);
      }
    }
  }

  /** `get_serverInfo` is the host of the node at the path, or null when there is no node. */
  lemma GetServerInfoIs(nodes: Nodes, parts: Path)
    requires WellFormed(nodes)
    ensures GetServerInfo(nodes, parts) == if parts in nodes then nodes[parts].host else None
  {
    ServerInfoFromIs(nodes, [], parts);
    assert [] + parts == parts;
  }

  /** The last segment of a node's own path string, as `list_under_dir` extracts it. */
  function NameOf(p: Path): (name: string)
    requires p != [] && GoodSegments(p)
    ensures name == Last(p)
  {
    var parts := EliminateSpaces(PathString(p));
    EliminateSpacesOfPathString(p);
    parts[|parts| - 1]
  }

  /** The node `list_under_dir` lists: the root for "/", otherwise the end of the skipping walk. */
  function ListedNode(nodes: Nodes, path: string): (r: Path)
    requires WellFormed(nodes)
    ensures r in nodes
  {
    if path == "/" then [] else SkipWalk(nodes, [], EliminateSpaces(path))
  }

  /** `list_under_dir`: one name per child of the listed node, in the children's order. */
  function ListUnderDir(nodes: Nodes, path: string): (names: seq<string>)
    requires WellFormed(nodes)
    ensures |names| == |nodes[ListedNode(nodes, path)].children|
  {
    var cur := ListedNode(nodes, path);
    var ch := nodes[cur].children;
    seq(|ch|, i requires 0 <= i < |ch| => assert ch[i] in ch; NameOf(cur + [ch[i]]))
  }

  /**
   * On an existing path, and on "/", the listing is exactly the children's
   * names in insertion order.
   */
  lemma ListUnderDirIsChildren(nodes: Nodes, path: string)
    requires WellFormed(nodes)
    requires path == "/" || EliminateSpaces(path) in nodes
    ensures ListedNode(nodes, path) == (if path == "/" then [] else EliminateSpaces(path))
    ensures ListUnderDir(nodes, path) == nodes[ListedNode(nodes, path)].children
  {
    if path != "/" {
      assert [] + EliminateSpaces(path) == EliminateSpaces(path);
      SkipWalkOfExisting(nodes, [], EliminateSpaces(path));
    }
  }

  // ---------------------------------------------------------------------
  // Creation (`create_directory`, `create_file`)
  // ---------------------------------------------------------------------

  /** Every node on the path below the root is present and a directory. */
  predicate DirsAlong(nodes: Nodes, p: Path)
  {
    forall k | 0 < k <= |p| :: p[..k] in nodes && nodes[p[..k]].isDir
  }

  /** Hang `n` under its parent: the name goes at the end of the parent's children. */
  function Attach(nodes: Nodes, p: Path, n: Node): (r: Nodes)
    requires p != [] && Parent(p) in nodes
    ensures r.Keys == nodes.Keys + {p}
  {
    var q := Parent(p);
    nodes[q := nodes[q].(children := nodes[q].children + [Last(p)])][p := n]
  }

  lemma NoDupsAppend<T>(s: seq<T>, x: T)
    requires NoDups(s) && x !in s
    ensures NoDups(s + [x])
  {
  }

  /** Attaching a childless node at a fresh path under a present parent keeps the tree well formed. */
  lemma AttachKeepsWellFormed(nodes: Nodes, p: Path, n: Node)
    requires WellFormed(nodes) && p != [] && Parent(p) in nodes && p !in nodes
    requires GoodSegments(p) && n.children == [] && NoDups(n.replicas)
    ensures WellFormed(Attach(nodes, p, n))
  {
    AttachKeepsParents(nodes, p, n);
    AttachKeepsChildren(nodes, p, n);
    AttachKeepsLists(nodes, p, n);
  }

  /** After attaching a fresh name, no children or replica list has a duplicate. */
  lemma AttachKeepsLists(nodes: Nodes, p: Path, n: Node)
    requires WellFormed(nodes) && p != [] && Parent(p) in nodes && p !in nodes
    requires n.children == [] && NoDups(n.replicas)
    ensures var r := Attach(nodes, p, n);
            forall x | x in r :: NoDups(r[x].children) && NoDups(r[x].replicas)
  {
    var q := Parent(p);
    var r := Attach(nodes, p, n);
    assert p == q + [Last(p)];
    ChildInNodes(nodes, q, Last(p));
    NoDupsAppend(nodes[q].children, Last(p));
    forall x | x in r
      ensures NoDups(r[x].children) && NoDups(r[x].replicas)
    {
      if x != p && x != q {
        assert r[x] == nodes[x];
      }
    }
  }

  /** After attaching, every node below the root is listed by its parent. */
  lemma AttachKeepsParents(nodes: Nodes, p: Path, n: Node)
    requires WellFormed(nodes) && p != [] && Parent(p) in nodes && p !in nodes
    ensures var r := Attach(nodes, p, n);
            forall x, c | x + [c] in r :: x in r && c in r[x].children
  {
    var q := Parent(p);
    var r := Attach(nodes, p, n);
    assert p == q + [Last(p)];
    forall x, c | x + [c] in r
      ensures x in r && c in r[x].children
    {
      SnocInjective(x, c, q, Last(p));
      if x + [c] != p {
        assert x + [c] in nodes;
        assert x in nodes && c in nodes[x].children;
      }
    }
  }

  /** After attaching a childless node, every listed child is present. */
  lemma AttachKeepsChildren(nodes: Nodes, p: Path, n: Node)
    requires WellFormed(nodes) && p != [] && Parent(p) in nodes && p !in nodes && n.children == []
    ensures var r := Attach(nodes, p, n);
            forall x, c | x in r && c in r[x].children :: x + [c] in r
  {
    var q := Parent(p);
    var r := Attach(nodes, p, n);
    assert p == q + [Last(p)];
    forall x, c | x in r && c in r[x].children
      ensures x + [c] in r
    {
      if x == q {
        if c != Last(p) {
          assert c in nodes[q].children;
        }
      } else if x != p {
        assert x in nodes && r[x] == nodes[x];
      }
    }
  }

  /**
   * `create_directory` / `create_file` on a path's segments: the boolean the
   * method returns and the tree it leaves. A missing non-final segment, or a
   * file anywhere on the path, gives false; a path that already exists as
   * directories all the way down gives true with no change; otherwise one new
   * node of the requested kind is attached under its parent.
   */
  function Create(nodes: Nodes, parts: Path, isDir: bool): (bool, Nodes)
    requires WellFormed(nodes) && GoodSegments(parts)
  {
    if parts in nodes then (DirsAlong(nodes, parts), nodes)
    else if parts != [] && Parent(parts) in nodes && DirsAlong(nodes, Parent(parts)) then
      (true, Attach(nodes, parts, NewNode(isDir)))
    else (false, nodes)
  }

  /** What `Create` promises: the resulting tree is well formed, and failure changes nothing. */
  lemma CreateKeepsWellFormed(nodes: Nodes, parts: Path, isDir: bool)
    requires WellFormed(nodes) && GoodSegments(parts)
    ensures WellFormed(Create(nodes, parts, isDir).1)
    ensures !Create(nodes, parts, isDir).0 ==> Create(nodes, parts, isDir).1 == nodes
  {
    if parts !in nodes && parts != [] && Parent(parts) in nodes && DirsAlong(nodes, Parent(parts)) {
      AttachKeepsWellFormed(nodes, parts, NewNode(isDir));
    }
  }

  /**
   * Success exactly when every proper prefix is a present directory and the
   * path itself, if present, is a directory.
   */
  lemma CreateSucceedsIff(nodes: Nodes, parts: Path, isDir: bool)
    requires WellFormed(nodes) && GoodSegments(parts)
    ensures Create(nodes, parts, isDir).0 <==>
            (parts == [] || (Parent(parts) in nodes && DirsAlong(nodes, Parent(parts))))
            && (parts in nodes ==> nodes[parts].isDir)
  {
    if parts != [] && parts in nodes {
      PrefixInNodes(nodes, parts, |parts| - 1);
      if DirsAlong(nodes, parts) {
        assert forall k | 0 < k <= |Parent(parts)| :: Parent(parts)[..k] == parts[..k];
        assert parts[..|parts|] == parts;
      }
      if DirsAlong(nodes, Parent(parts)) && nodes[parts].isDir {
        forall k | 0 < k <= |parts|
          ensures parts[..k] in nodes && nodes[parts[..k]].isDir
        {
          if k < |parts| {
            assert Parent(parts)[..k] == parts[..k];
          } else {
            assert parts[..k] == parts;
          }
        }
      }
    }
  }

  /**
   * A successful creation of a new path attaches exactly one node of the
   * requested kind at the end of its parent's children and changes no other node.
   */
  lemma CreateAttachesOne(nodes: Nodes, parts: Path, isDir: bool)
    requires WellFormed(nodes) && GoodSegments(parts) && parts !in nodes
    requires Create(nodes, parts, isDir).0
    ensures var r := Create(nodes, parts, isDir).1;
            && r.Keys == nodes.Keys + {parts}
            && r[parts] == NewNode(isDir)
            && r[Parent(parts)].children == nodes[Parent(parts)].children + [Last(parts)]
            && (forall q | q in nodes && q != Parent(parts) :: r[q] == nodes[q])
  {
  }

  /** After a successful creation the path exists; a new node has the requested kind. */
  lemma CreateThenExists(nodes: Nodes, parts: Path, isDir: bool)
    requires WellFormed(nodes) && GoodSegments(parts)
    requires Create(nodes, parts, isDir).0
    ensures var r := Create(nodes, parts, isDir).1;
            WellFormed(r) && Exist(r, parts)
            && IsDirectory(r, parts) == (if parts in nodes then true else isDir)
  {
    var r := Create(nodes, parts, isDir).1;
    CreateKeepsWellFormed(nodes, parts, isDir);
    if parts in nodes && parts != [] {
      assert parts[..|parts|] == parts;
    }
    ExistIff(r, parts);
    IsDirectoryOfExisting(r, parts);
  }

  /** Creating a path that already exists never changes the tree. */
  lemma CreateOnExistingChangesNothing(nodes: Nodes, parts: Path, isDir: bool)
    requires WellFormed(nodes) && GoodSegments(parts) && parts in nodes
    ensures Create(nodes, parts, isDir).1 == nodes
  {
  }

  /** Changing a node's host, counter or replicas, but not its kind or children, keeps the tree well formed. */
  lemma UpdateKeepsWellFormed(nodes: Nodes, p: Path, n: Node)
    requires WellFormed(nodes) && p in nodes
    requires n.isDir == nodes[p].isDir && n.children == nodes[p].children && NoDups(n.replicas)
    ensures WellFormed(nodes[p := n])
  {
    var r := nodes[p := n];
    forall x, c | x + [c] in r
      ensures x in r && c in r[x].children
    {
      assert x + [c] in nodes;
    }
  }

  // ---------------------------------------------------------------------
  // Insertion on registration (`add`)
  // ---------------------------------------------------------------------

  /**
   * One iteration of `add`: an existing child is given the new host; a
   * missing one is attached (a directory, or a file if it is the last
   * segment) and given the new host. The child is looked up by key; on a
   * well-formed tree that is the same as `children.contains` (`ChildInNodes`).
   */
  function AddStep(nodes: Nodes, cur: Path, name: string, isLast: bool, si: StorageInfo): (r: Nodes)
    requires cur in nodes
    ensures r.Keys == nodes.Keys + {cur + [name]}
  {
    var c := cur + [name];
    assert Parent(c) == cur;
    if c in nodes then nodes[c := nodes[c].(host := Some(si))]
    else
      var t := Attach(nodes, c, NewNode(!isLast));
      t[c := t[c].(host := Some(si))]
  }

  lemma AddStepShape(nodes: Nodes, cur: Path, name: string)
    requires WellFormed(nodes) && cur in nodes && GoodSegment(name)
    ensures GoodSegments(cur + [name]) && Parent(cur + [name]) == cur && Last(cur + [name]) == name
    ensures name in nodes[cur].children <==> cur + [name] in nodes
  {
    var c := cur + [name];
    assert forall i | 0 <= i < |cur| :: c[i] == cur[i];
    ChildInNodes(nodes, cur, name);
  }

  lemma AddStepKeepsWellFormed(nodes: Nodes, cur: Path, name: string, isLast: bool, si: StorageInfo)
    requires WellFormed(nodes) && cur in nodes && GoodSegment(name)
    ensures WellFormed(AddStep(nodes, cur, name, isLast, si))
  {
    var c := cur + [name];
    AddStepShape(nodes, cur, name);
    if c in nodes {
      UpdateKeepsWellFormed(nodes, c, nodes[c].(host := Some(si)));
    } else {
      AttachKeepsWellFormed(nodes, c, NewNode(!isLast));
      var t := Attach(nodes, c, NewNode(!isLast));
      UpdateKeepsWellFormed(t, c, t[c].(host := Some(si)));
    }
  }

  /** One step of `add` changes the child it reaches, and at most the children of the node it stands on. */
  lemma AddStepFacts(nodes: Nodes, cur: Path, name: string, isLast: bool, si: StorageInfo)
    requires cur in nodes
    ensures var r := AddStep(nodes, cur, name, isLast, si);
            && (cur + [name] in nodes ==> r[cur + [name]] == nodes[cur + [name]].(host := Some(si)))
            && (cur + [name] !in nodes ==> r[cur + [name]] == NewNode(!isLast).(host := Some(si)))
            && r[cur].isDir == nodes[cur].isDir && r[cur].host == nodes[cur].host
            && (forall q | q in nodes && q != cur && q != cur + [name] :: r[q] == nodes[q])
  {
    assert cur != cur + [name] by {
      assert |cur| != |cur + [name]|;
    }
  }

  lemma PrefixStep(parts: Path, k: nat)
    requires 0 < k <= |parts|
    ensures parts[..k - 1] + [parts[k - 1]] == parts[..k]
  {
  }

  /** The first `k` iterations of the loop in `add`. */
  function AddUpTo(nodes: Nodes, parts: Path, k: nat, si: StorageInfo): (r: Nodes)
    requires [] in nodes && k <= |parts|
    ensures forall j | 0 <= j <= k :: parts[..j] in r
    ensures nodes.Keys <= r.Keys
    decreases k
  {
    if k == 0 then
      assert parts[..0] == [];
      nodes
    else
      var t := AddUpTo(nodes, parts, k - 1, si);
      PrefixStep(parts, k);
      AddStep(t, parts[..k - 1], parts[k - 1], k == |parts|, si)
  }

  /** One more iteration of the loop in `add`. */
  lemma AddUpToStep(nodes: Nodes, parts: Path, k: nat, si: StorageInfo)
    requires [] in nodes && k < |parts|
    ensures parts[..k] in AddUpTo(nodes, parts, k, si)
    ensures AddUpTo(nodes, parts, k + 1, si)
            == AddStep(AddUpTo(nodes, parts, k, si), parts[..k], parts[k], k + 1 == |parts|, si)
  {
    PrefixStep(parts, k + 1);
  }

  /** `add(si)`: the loop, then the final assignment of the host to the node reached (the root for []). */
  function Add(nodes: Nodes, parts: Path, si: StorageInfo): (r: Nodes)
    requires [] in nodes
    ensures parts in r && nodes.Keys <= r.Keys
  {
    var t := AddUpTo(nodes, parts, |parts|, si);
    assert parts[..|parts|] == parts;
    t[parts := t[parts].(host := Some(si))]
  }

  lemma {:induction false} AddUpToKeepsWellFormed(nodes: Nodes, parts: Path, k: nat, si: StorageInfo)
    requires WellFormed(nodes) && GoodSegments(parts) && k <= |parts|
    ensures WellFormed(AddUpTo(nodes, parts, k, si))
    decreases k
  {
    if k > 0 {
      AddUpToKeepsWellFormed(nodes, parts, k - 1, si);
      PrefixStep(parts, k);
      AddStepKeepsWellFormed(AddUpTo(nodes, parts, k - 1, si), parts[..k - 1], parts[k - 1], k == |parts|, si);
    }
  }

  /** `add` keeps the tree well formed. */
  lemma AddKeepsWellFormed(nodes: Nodes, parts: Path, si: StorageInfo)
    requires WellFormed(nodes) && GoodSegments(parts)
    ensures WellFormed(Add(nodes, parts, si))
  {
    AddUpToKeepsWellFormed(nodes, parts, |parts|, si);
    var t := AddUpTo(nodes, parts, |parts|, si);
    assert parts[..|parts|] == parts;
    UpdateKeepsWellFormed(t, parts, t[parts].(host := Some(si)));
  }

  /** The first `k` steps of `add` change no node's kind. */
  lemma {:induction false} AddUpToKeepsKinds(nodes: Nodes, parts: Path, k: nat, si: StorageInfo)
    requires [] in nodes && k <= |parts|
    ensures var t := AddUpTo(nodes, parts, k, si);
            forall q | q in nodes :: t[q].isDir == nodes[q].isDir
    decreases k
  {
    if k > 0 {
      AddUpToKeepsKinds(nodes, parts, k - 1, si);
      PrefixStep(parts, k);
      AddStepFacts(AddUpTo(nodes, parts, k - 1, si), parts[..k - 1], parts[k - 1], k == |parts|, si);
    }
  }

  /** The nodes the first `k` steps of `add` create are prefixes of the path of length at most `k`. */
  lemma {:induction false} AddUpToNewOnPath(nodes: Nodes, parts: Path, k: nat, si: StorageInfo)
    requires [] in nodes && k <= |parts|
    ensures var t := AddUpTo(nodes, parts, k, si);
            forall q | q in t && q !in nodes :: IsPrefix(q, parts) && |q| <= k
    decreases k
  {
    if k > 0 {
      AddUpToNewOnPath(nodes, parts, k - 1, si);
      PrefixStep(parts, k);
      assert IsPrefix(parts[..k], parts);
    }
  }

  /** The first `k` steps of `add` leave every node off the path alone. */
  lemma {:induction false} AddUpToOffPath(nodes: Nodes, parts: Path, k: nat, si: StorageInfo)
    requires [] in nodes && k <= |parts|
    ensures var t := AddUpTo(nodes, parts, k, si);
            forall q | q in nodes && !IsPrefix(q, parts) :: t[q] == nodes[q]
    decreases k
  {
    if k > 0 {
      AddUpToOffPath(nodes, parts, k - 1, si);
      var t0, cur := AddUpTo(nodes, parts, k - 1, si), parts[..k - 1];
      PrefixStep(parts, k);
      AddStepFacts(t0, cur, parts[k - 1], k == |parts|, si);
      var t := AddUpTo(nodes, parts, k, si);
      forall q | q in nodes && !IsPrefix(q, parts)
        ensures t[q] == nodes[q]
      {
        assert q != cur && q != parts[..k];
      }
    }
  }

  /** The first `k` steps of `add` give every node they pass the new host. */
  lemma {:induction false} AddUpToHosts(nodes: Nodes, parts: Path, k: nat, si: StorageInfo)
    requires [] in nodes && k <= |parts|
    ensures var t := AddUpTo(nodes, parts, k, si);
            forall j | 0 < j <= k :: t[parts[..j]].host == Some(si)
    decreases k
  {
    if k > 0 {
      AddUpToHosts(nodes, parts, k - 1, si);
      var t0 := AddUpTo(nodes, parts, k - 1, si);
      var cur := parts[..k - 1];
      PrefixStep(parts, k);
      AddStepFacts(t0, cur, parts[k - 1], k == |parts|, si);
      var t := AddUpTo(nodes, parts, k, si);
      forall j | 0 < j < k
        ensures t[parts[..j]].host == Some(si)
      {
        assert |parts[..j]| != |parts[..k]|;
      }
    }
  }

  /** The `k`-th step of `add` creates its node only if the prefix was missing, and then of the kind `add` chooses. */
  lemma AddUpToCreates(nodes: Nodes, parts: Path, k: nat, si: StorageInfo)
    requires [] in nodes && 0 < k <= |parts| && parts[..k] !in nodes
    ensures AddUpTo(nodes, parts, k, si)[parts[..k]].isDir == (k < |parts|)
  {
    AddUpToNewOnPath(nodes, parts, k - 1, si);
    var t0, cur := AddUpTo(nodes, parts, k - 1, si), parts[..k - 1];
    PrefixStep(parts, k);
    AddStepFacts(t0, cur, parts[k - 1], k == |parts|, si);
    assert parts[..k] !in t0 by {
      assert |parts[..k]| > k - 1;
    }
  }

  /** Intermediate nodes created by the first `k` steps of `add` are directories. */
  lemma {:induction false} AddUpToKinds(nodes: Nodes, parts: Path, k: nat, si: StorageInfo)
    requires [] in nodes && k <= |parts|
    ensures var t := AddUpTo(nodes, parts, k, si);
            forall j | 0 < j <= k && j < |parts| && parts[..j] !in nodes :: t[parts[..j]].isDir
    decreases k
  {
    if k > 0 {
      AddUpToKinds(nodes, parts, k - 1, si);
      var t0, cur := AddUpTo(nodes, parts, k - 1, si), parts[..k - 1];
      PrefixStep(parts, k);
      AddStepFacts(t0, cur, parts[k - 1], k == |parts|, si);
      var t := AddUpTo(nodes, parts, k, si);
      forall j | 0 < j <= k && j < |parts| && parts[..j] !in nodes
        ensures t[parts[..j]].isDir
      {
        if j < k - 1 {
          assert |parts[..j]| != |cur| && |parts[..j]| != |parts[..k]|;
          assert parts[..j] in t0 && t[parts[..j]] == t0[parts[..j]];
        } else if j == k - 1 {
          assert t[cur].isDir == t0[cur].isDir;
        } else {
          AddUpToCreates(nodes, parts, k, si);
        }
      }
    }
  }

  /**
   * After `add(si)` the tree is well formed, the path exists and its host is
   * `si`; so is the host of every node on the way, existing intermediate
   * directories included.
   */
  lemma AddEstablishes(nodes: Nodes, parts: Path, si: StorageInfo)
    requires WellFormed(nodes) && GoodSegments(parts)
    ensures var r := Add(nodes, parts, si);
            && WellFormed(r) && Exist(r, parts) && GetServerInfo(r, parts) == Some(si)
            && (forall j | 0 < j <= |parts| :: r[parts[..j]].host == Some(si))
  {
    var r := Add(nodes, parts, si);
    AddKeepsWellFormed(nodes, parts, si);
    AddUpToHosts(nodes, parts, |parts|, si);
    assert parts[..|parts|] == parts;
    GetServerInfoIs(r, parts);
    ExistIff(r, parts);
  }

  /**
   * `add` removes nothing and changes no node's kind; intermediate nodes it
   * creates are directories and a final node it creates is a file; new
   * nodes lie on the path, and nodes off the path are untouched.
   */
  lemma AddShape(nodes: Nodes, parts: Path, si: StorageInfo)
    requires [] in nodes
    ensures var r := Add(nodes, parts, si);
            && nodes.Keys <= r.Keys
            && (forall q | q in nodes :: r[q].isDir == nodes[q].isDir)
            && (forall j | 0 < j < |parts| && parts[..j] !in nodes :: r[parts[..j]].isDir)
            && (parts != [] && parts !in nodes ==> !r[parts].isDir)
            && (forall q | q in r && q !in nodes :: IsPrefix(q, parts))
            && (forall q | q in nodes && !IsPrefix(q, parts) :: r[q] == nodes[q])
  {
    AddUpToKeepsKinds(nodes, parts, |parts|, si);
    AddUpToNewOnPath(nodes, parts, |parts|, si);
    AddUpToOffPath(nodes, parts, |parts|, si);
    AddUpToKinds(nodes, parts, |parts|, si);
    assert parts[..|parts|] == parts;
    if parts != [] && parts !in nodes {
      AddUpToCreates(nodes, parts, |parts|, si);
    }
    assert IsPrefix(parts, parts);
  }

  // ---------------------------------------------------------------------
  // Removal (`List.remove(Object)` on a child list, and `delete`)
  // ---------------------------------------------------------------------

  /** Position of the first occurrence. */
  function IndexOf<T(==)>(s: seq<T>, x: T): (i: nat)
    requires x in s
    ensures i < |s| && s[i] == x && x !in s[..i]
  {
    if s[0] == x then 0 else assert x in s[1..]; 1 + IndexOf(s[1..], x)
  }

  /** `List.remove(Object)`: drop the first occurrence, if any, keeping the rest in order. */
  function RemoveFirst<T(==)>(s: seq<T>, x: T): (r: seq<T>)
  {
    if x in s then s[..IndexOf(s, x)] + s[IndexOf(s, x) + 1..] else s
  }

  /** Removal only removes, keeps every other element, and keeps a list free of duplicates. */
  lemma RemoveFirstFacts<T>(s: seq<T>, x: T)
    ensures forall y | y in RemoveFirst(s, x) :: y in s
    ensures forall y | y in s && y != x :: y in RemoveFirst(s, x)
    ensures NoDups(s) ==> NoDups(RemoveFirst(s, x)) && x !in RemoveFirst(s, x)
    ensures x in s ==> |RemoveFirst(s, x)| == |s| - 1
  {
    if x in s {
      var i := IndexOf(s, x);
      var r := RemoveFirst(s, x);
      assert forall j | 0 <= j < |r| :: r[j] == if j < i then s[j] else s[j + 1];
      forall y | y in s && y != x
        ensures y in r
      {
        var j :| 0 <= j < |s| && s[j] == y;
        if j < i { assert r[j] == y; } else { assert j > i && r[j - 1] == y; }
      }
    }
  }

  /**
   * Unhook the node at `p` from its parent: its name leaves the parent's
   * children and the node, with everything under it, is no longer in the tree.
   */
  function Detach(nodes: Nodes, p: Path): (r: Nodes)
    requires p != [] && Parent(p) in nodes
  {
    var q := Parent(p);
    map x | x in nodes && !IsPrefix(p, x) ::
      if x == q then nodes[q].(children := RemoveFirst(nodes[q].children, Last(p))) else nodes[x]
  }

  lemma SnocInjective(x: Path, c: string, y: Path, d: string)
    ensures x + [c] == y + [d] ==> x == y && c == d
  {
    if x + [c] == y + [d] {
      assert x == (x + [c])[..|x|] && y == (y + [d])[..|y|];
    }
  }

  lemma PrefixOfExtension(p: Path, x: Path, c: string)
    ensures IsPrefix(p, x + [c]) && !IsPrefix(p, x) ==> p == x + [c]
  {
  }

  /** What detaching a node removes and changes: its subtree, and its name in the parent's children. */
  lemma DetachShape(nodes: Nodes, p: Path)
    requires WellFormed(nodes) && p in nodes && p != []
    ensures Parent(p) in nodes
    ensures var r := Detach(nodes, p);
            && p !in r && Parent(p) in r
            && (forall x | x in nodes :: x in r <==> !IsPrefix(p, x))
            && r[Parent(p)].children == RemoveFirst(nodes[Parent(p)].children, Last(p))
            && (forall x | x in r && x != Parent(p) :: r[x] == nodes[x])
  {
    ParentInNodes(nodes, p);
    assert IsPrefix(p, p);
    assert !IsPrefix(p, Parent(p));
  }

  /** After detaching, every node below the root is still listed by its parent. */
  lemma DetachKeepsParents(nodes: Nodes, p: Path)
    requires WellFormed(nodes) && p in nodes && p != []
    ensures Parent(p) in nodes
    ensures var r := Detach(nodes, p);
            forall x, c | x + [c] in r :: x in r && c in r[x].children
  {
    var q := Parent(p);
    DetachShape(nodes, p);
    var r := Detach(nodes, p);
    assert p == q + [Last(p)];
    RemoveFirstFacts(nodes[q].children, Last(p));
    forall x, c | x + [c] in r
      ensures x in r && c in r[x].children
    {
      assert x + [c] in nodes && !IsPrefix(p, x + [c]);
      assert x in nodes && c in nodes[x].children;
      PrefixOfLonger(p, x, c);
      if x == q {
        SnocInjective(x, c, q, Last(p));
        assert c != Last(p);
      } else {
        assert r[x] == nodes[x];
      }
    }
  }

  lemma PrefixOfLonger(p: Path, x: Path, c: string)
    ensures IsPrefix(p, x) ==> IsPrefix(p, x + [c])
  {
    if IsPrefix(p, x) {
      assert (x + [c])[..|p|] == x[..|p|];
    }
  }

  /** After detaching, every listed child is still present. */
  lemma DetachKeepsChildren(nodes: Nodes, p: Path)
    requires WellFormed(nodes) && p in nodes && p != []
    ensures Parent(p) in nodes
    ensures var r := Detach(nodes, p);
            forall x, c | x in r && c in r[x].children :: x + [c] in r
  {
    var q := Parent(p);
    DetachShape(nodes, p);
    var r := Detach(nodes, p);
    assert p == q + [Last(p)];
    RemoveFirstFacts(nodes[q].children, Last(p));
    forall x, c | x in r && c in r[x].children
      ensures x + [c] in r
    {
      assert x in nodes && !IsPrefix(p, x);
      assert c in nodes[x].children && x + [c] in nodes;
      PrefixOfExtension(p, x, c);
      SnocInjective(x, c, q, Last(p));
    }
  }

  /** Detaching a node keeps the tree well formed. */
  lemma DetachKeepsWellFormed(nodes: Nodes, p: Path)
    requires WellFormed(nodes) && p in nodes && p != []
    ensures Parent(p) in nodes && WellFormed(Detach(nodes, p))
  {
    DetachShape(nodes, p);
    DetachKeepsParents(nodes, p);
    DetachKeepsChildren(nodes, p);
    assert !IsPrefix(p, []);
    RemoveFirstFacts(nodes[Parent(p)].children, Last(p));
  }

  /**
   * Detaching a node keeps the tree well formed; the node is gone, nothing
   * outside its subtree is lost, and the parent's children lose exactly that name.
   */
  lemma DetachFacts(nodes: Nodes, p: Path)
    requires WellFormed(nodes) && p in nodes && p != []
    ensures Parent(p) in nodes
    ensures var r := Detach(nodes, p);
            && WellFormed(r) && p !in r && !Exist(r, p)
            && (forall x | x in nodes :: x in r <==> !IsPrefix(p, x))
            && r[Parent(p)].children == RemoveFirst(nodes[Parent(p)].children, Last(p))
            && (forall x | x in r && x != Parent(p) :: r[x] == nodes[x])
  {
    DetachShape(nodes, p);
    DetachKeepsWellFormed(nodes, p);
    ExistIff(Detach(nodes, p), p);
  }

  /** A node strictly below `p` passes through one of the children of `p`. */
  lemma ExtensionHasChild(nodes: Nodes, p: Path, x: Path)
    requires WellFormed(nodes) && x in nodes && IsPrefix(p, x) && |x| > |p|
    ensures p in nodes && x[|p|] in nodes[p].children
  {
    PrefixInNodes(nodes, x, |p| + 1);
    assert x[..|p| + 1] == p + [x[|p|]];
  }

  /** A childless node is removed alone: exactly one path leaves the tree. */
  lemma DetachLeaf(nodes: Nodes, p: Path)
    requires WellFormed(nodes) && p in nodes && p != [] && nodes[p].children == []
    ensures Parent(p) in nodes
    ensures Detach(nodes, p).Keys == nodes.Keys - {p}
  {
    ParentInNodes(nodes, p);
    forall x | x in nodes && IsPrefix(p, x)
      ensures x == p
    {
      if x != p {
        ExtensionHasChild(nodes, p, x);
      }
    }
  }

  /** With no duplicate names, removing a child keeps the others in their order. */
  lemma RemoveFirstKeepsOrder<T>(s: seq<T>, x: T)
    requires x in s
    ensures exists i | 0 <= i < |s| :: s[i] == x && RemoveFirst(s, x) == s[..i] + s[i + 1..]
  {
    var i := IndexOf(s, x);
    assert s[i] == x;
  }

  /** On a list without duplicates, removing the element at `i` by value removes position `i`. */
  lemma RemoveFirstAt<T>(s: seq<T>, i: nat)
    requires NoDups(s) && i < |s|
    ensures RemoveFirst(s, s[i]) == s[..i] + s[i + 1..]
  {
    var j := IndexOf(s, s[i]);
    assert j == i;
  }
}
