/**
 * Paths of the namespace. A request carries a path string; the tree works on
 * its segments, obtained by splitting at '/' and dropping empty pieces
 * (`eliminate_spaces`). A tree node's own path string is built segment by
 * segment as `parent + "/" + name`, so the root's string is "".
 */
module Paths {

  /** The segments of a path from the root; the root is []. */
  type Path = seq<string>

  /** A segment as `eliminate_spaces` produces it: non-empty and free of '/'. */
  predicate GoodSegment(s: string)
  {
    s != [] && '/' !in s
  }

  predicate GoodSegments(p: Path)
  {
    forall i | 0 <= i < |p| :: GoodSegment(p[i])
  }

  function Parent(p: Path): Path
    requires p != []
  {
    p[..|p| - 1]
  }

  function Last(p: Path): string
    requires p != []
  {
    p[|p| - 1]
  }

  predicate IsPrefix(a: Path, b: Path)
  {
    |a| <= |b| && b[..|a|] == a
  }

  /** Position of the first '/', or the length when there is none. */
  function IndexOfSlash(s: string): (k: nat)
    ensures k <= |s|
    ensures k < |s| ==> s[k] == '/'
    ensures forall i | 0 <= i < k :: s[i] != '/'
  {
    if s == [] then 0 else if s[0] == '/' then 0 else 1 + IndexOfSlash(s[1..])
  }

  /**
   * `String.split("/")`: the pieces between separators, empty ones included.
   * Java also drops trailing empty pieces; the filter that follows in
   * `eliminate_spaces` drops every empty piece, so that makes no difference.
   */
  function Split(s: string): (r: seq<string>)
    ensures |r| > 0
    ensures forall i | 0 <= i < |r| :: '/' !in r[i]
    decreases |s|
  {
    var k := IndexOfSlash(s);
    if k == |s| then [s] else [s[..k]] + Split(s[k + 1..])
  }

  /** The filter loop of `eliminate_spaces`: keep the non-empty pieces, in order. */
  function DropEmpty(parts: seq<string>): (r: seq<string>)
    ensures |r| <= |parts|
    ensures forall i | 0 <= i < |r| :: r[i] != [] && r[i] in parts
  {
    if parts == [] then []
    else if parts[0] == "" then DropEmpty(parts[1..])
    else [parts[0]] + DropEmpty(parts[1..])
  }

  /** `eliminate_spaces`: the non-empty '/'-separated segments of a path string, in order. */
  function EliminateSpaces(s: string): (r: Path)
    ensures GoodSegments(r)
  {
    DropEmpty(Split(s))
  }

  /** The path string of a tree node, built as `curr.path + "/" + parts[i]` from the root's "". */
  function PathString(p: Path): string
  {
    if p == [] then "" else PathString(Parent(p)) + "/" + Last(p)
  }

  /** Concatenation of strings, to state that no character other than '/' is lost. */
  function Flatten(parts: seq<string>): string
  {
    if parts == [] then "" else parts[0] + Flatten(parts[1..])
  }

  /** The characters of a string other than '/'. */
  function WithoutSlashes(s: string): string
  {
    if s == [] then "" else (if s[0] == '/' then "" else [s[0]]) + WithoutSlashes(s[1..])
  }

  lemma {:induction false} FlattenAppend(a: seq<string>, b: seq<string>)
    ensures Flatten(a + b) == Flatten(a) + Flatten(b)
    decreases |a|
  {
    if a != [] {
      assert (a + b)[0] == a[0] && (a + b)[1..] == a[1..] + b;
      FlattenAppend(a[1..], b);
      calc {
        Flatten(a + b);
        a[0] + Flatten(a[1..] + b);
        a[0] + (Flatten(a[1..]) + Flatten(b));
        (a[0] + Flatten(a[1..])) + Flatten(b);
        Flatten(a) + Flatten(b);
      }
    } else {
      assert a + b == b;
    }
  }

  lemma {:induction false} WithoutSlashesAppend(a: string, b: string)
    ensures WithoutSlashes(a + b) == WithoutSlashes(a) + WithoutSlashes(b)
    decreases |a|
  {
    if a != [] {
      assert (a + b)[0] == a[0] && (a + b)[1..] == a[1..] + b;
      WithoutSlashesAppend(a[1..], b);
      var h := if a[0] == '/' then "" else [a[0]];
      calc {
        WithoutSlashes(a + b);
        h + WithoutSlashes(a[1..] + b);
        h + (WithoutSlashes(a[1..]) + WithoutSlashes(b));
        (h + WithoutSlashes(a[1..])) + WithoutSlashes(b);
        WithoutSlashes(a) + WithoutSlashes(b);
      }
    } else {
      assert a + b == b;
    }
  }

  lemma {:induction false} WithoutSlashesOfSlashFree(s: string)
    requires '/' !in s
    ensures WithoutSlashes(s) == s
    decreases |s|
  {
    if s != [] {
      assert '/' !in s[1..];
      WithoutSlashesOfSlashFree(s[1..]);
    }
  }

  lemma {:induction false} DropEmptyAppend(a: seq<string>, b: seq<string>)
    ensures DropEmpty(a + b) == DropEmpty(a) + DropEmpty(b)
    decreases |a|
  {
    if a != [] {
      assert (a + b)[0] == a[0] && (a + b)[1..] == a[1..] + b;
      DropEmptyAppend(a[1..], b);
      if a[0] != "" {
        calc {
          DropEmpty(a + b);
          [a[0]] + DropEmpty(a[1..] + b);
          [a[0]] + (DropEmpty(a[1..]) + DropEmpty(b));
          ([a[0]] + DropEmpty(a[1..])) + DropEmpty(b);
        }
      }
    } else {
      assert a + b == b;
    }
  }

  lemma {:induction false} FlattenDropEmpty(parts: seq<string>)
    ensures Flatten(DropEmpty(parts)) == Flatten(parts)
    decreases |parts|
  {
    if parts != [] {
      FlattenDropEmpty(parts[1..]);
    }
  }

  lemma {:induction false} IndexOfSlashAppend(x: string, y: string)
    requires '/' !in x
    ensures IndexOfSlash(x + "/" + y) == |x|
    decreases |x|
  {
    if x != [] {
      assert (x + "/" + y)[1..] == x[1..] + "/" + y;
      IndexOfSlashAppend(x[1..], y);
    }
  }

  /** Splitting at an inserted separator splits both sides independently. */
  lemma {:induction false} SplitAppend(x: string, y: string)
    ensures Split(x + "/" + y) == Split(x) + Split(y)
    decreases |x|
  {
    var s := x + "/" + y;
    var k := IndexOfSlash(x);
    if k == |x| {
      IndexOfSlashAppend(x, y);
      assert s[..|x|] == x;
      assert s[|x| + 1..] == y;
    } else {
      assert IndexOfSlash(s) == k by {
        var j := IndexOfSlash(s);
        assert s[k] == '/';
        assert forall i | 0 <= i < k :: s[i] == x[i];
      }
      assert s[..k] == x[..k];
      assert s[k + 1..] == x[k + 1..] + "/" + y;
      SplitAppend(x[k + 1..], y);
    }
  }

  /** `eliminate_spaces` distributes over a '/' joining two strings. */
  lemma EliminateSpacesAppend(x: string, y: string)
    ensures EliminateSpaces(x + "/" + y) == EliminateSpaces(x) + EliminateSpaces(y)
  {
    SplitAppend(x, y);
    DropEmptyAppend(Split(x), Split(y));
  }

  /** A single segment comes back as itself. */
  lemma EliminateSpacesOfSegment(s: string)
    requires GoodSegment(s)
    ensures EliminateSpaces(s) == [s]
  {
    assert IndexOfSlash(s) == |s|;
  }

  /** Both the empty string and "/" name the root. */
  lemma EliminateSpacesOfRoot()
    ensures EliminateSpaces("") == []
    ensures EliminateSpaces("/") == []
  {
    assert Split("") == [""];
    assert Split("/") == [""] + Split("") by {
      assert IndexOfSlash("/") == 0;
      assert "/"[1..] == "";
    }
  }

  lemma {:induction false} FlattenSplit(s: string)
    ensures Flatten(Split(s)) == WithoutSlashes(s)
    decreases |s|
  {
    var k := IndexOfSlash(s);
    var x := s[..k];
    assert '/' !in x;
    WithoutSlashesOfSlashFree(x);
    if k == |s| {
      assert x == s;
      assert Flatten([s]) == s + Flatten([]);
    } else {
      var rest := s[k + 1..];
      var tail := Split(rest);
      assert Split(s) == [x] + tail;
      assert ([x] + tail)[0] == x && ([x] + tail)[1..] == tail;
      assert Flatten(Split(s)) == x + Flatten(tail);
      assert s == x + ("/" + rest);
      WithoutSlashesAppend(x, "/" + rest);
      assert ("/" + rest)[0] == '/' && ("/" + rest)[1..] == rest;
      assert WithoutSlashes("/" + rest) == WithoutSlashes(rest);
      FlattenSplit(rest);
    }
  }

  /** No character other than '/' is lost or reordered by `eliminate_spaces`. */
  lemma EliminateSpacesKeepsCharacters(s: string)
    ensures Flatten(EliminateSpaces(s)) == WithoutSlashes(s)
  {
    FlattenDropEmpty(Split(s));
    FlattenSplit(s);
  }

  /** Round trip: splitting a node's path string gives back its segments. */
  lemma {:induction false} EliminateSpacesOfPathString(p: Path)
    requires GoodSegments(p)
    ensures EliminateSpaces(PathString(p)) == p
    decreases |p|
  {
    if p == [] {
      EliminateSpacesOfRoot();
    } else {
      EliminateSpacesOfPathString(Parent(p));
      EliminateSpacesAppend(PathString(Parent(p)), Last(p));
      EliminateSpacesOfSegment(Last(p));
    }
  }

  /**
   * Tree nodes are compared by their path strings; on well-formed segments
   * that is the same as comparing segment sequences.
   */
  lemma PathStringInjective(p: Path, q: Path)
    requires GoodSegments(p) && GoodSegments(q)
    ensures PathString(p) == PathString(q) <==> p == q
  {
    if PathString(p) == PathString(q) {
      EliminateSpacesOfPathString(p);
      EliminateSpacesOfPathString(q);
    }
  }

  /** The path string of every node other than the root starts with '/'. */
  lemma {:induction false} PathStringStartsWithSlash(p: Path)
    requires p != []
    ensures |PathString(p)| > 0 && PathString(p)[0] == '/'
    decreases |p|
  {
    if Parent(p) != [] {
      PathStringStartsWithSlash(Parent(p));
    }
  }
}
