/**
  The outliner's hierarchy, as a specification: the parent-to-children
  buckets built from the game objects in discovery order, the pre-order walk
  from the bucket of parentless objects, and what that walk shows.

  An `Entry` is one discovered game object with the parent it reports. Since
  the parent is read from the object itself, an object always reports the same
  parent (`SingleParent`). Under that condition a cycle among parents can never
  be reached from the parentless bucket, so the walk, which has no cycle
  guard, always ends: every step goes down a parent chain from a root, and
  such a chain never repeats an object.
 */
module Outline {
  import opened Scene

  datatype Entry = Entry(obj: GameObject, parent: GameObject?)

  /** One outliner row: an object and its indent level. */
  datatype Row = Row(obj: GameObject, indent: nat)

  /** Some discovery of `x` reports `p` as its parent. */
  ghost predicate Reports(e: seq<Entry>, x: GameObject, p: GameObject?) {
    exists i :: 0 <= i < |e| && e[i] == Entry(x, p)
  }

  /** The first `n` discovered objects whose parent is `p`, in discovery order. */
  function ChildrenUpTo(e: seq<Entry>, n: nat, p: GameObject?): (r: seq<GameObject>)
    requires n <= |e|
    ensures forall k :: 0 <= k < |r| ==> Reports(e, r[k], p)
    ensures |r| <= n
    decreases n
  {
    if n == 0 then []
    else
      var front := ChildrenUpTo(e, n - 1, p);
      if e[n - 1].parent == p then
        assert e[n - 1] == Entry(e[n - 1].obj, p);
        front + [e[n - 1].obj]
      else front
  }

  /** The discovered objects whose parent is `p`, in discovery order: the bucket of `p`. */
  function ChildrenOf(e: seq<Entry>, p: GameObject?): (r: seq<GameObject>)
    ensures forall k :: 0 <= k < |r| ==> Reports(e, r[k], p)
    ensures |r| <= |e|
  {
    ChildrenUpTo(e, |e|, p)
  }

  /** Every object is discovered with one parent only. */
  ghost predicate SingleParent(e: seq<Entry>) {
    forall i, j {:trigger SameObject(e, i, j)} :: SameObject(e, i, j) ==> e[i].parent == e[j].parent
  }

  /** Discoveries `i` and `j` are of the same object. */
  ghost predicate SameObject(e: seq<Entry>, i: int, j: int) {
    0 <= i < |e| && 0 <= j < |e| && e[i].obj == e[j].obj
  }

  ghost function Objects(e: seq<Entry>): set<GameObject> {
    set i | 0 <= i < |e| :: e[i].obj
  }

  /** The bucket a path's children are taken from: the last object's, or the parentless one. */
  function ParentKey(path: seq<GameObject>): GameObject? {
    if path == [] then null else path[|path| - 1]
  }

  /** The object above position `k` of a path: the one before it, or none for the first. */
  function Above(path: seq<GameObject>, k: nat): GameObject?
    requires k <= |path|
  {
    if k == 0 then null else path[k - 1]
  }

  /**
    A path is a chain of discovered objects from a parentless one downward,
    each the child of the one before it.
   */
  ghost predicate ValidPath(e: seq<Entry>, path: seq<GameObject>) {
    forall k {:trigger Above(path, k)} :: 0 <= k < |path| ==> Reports(e, path[k], Above(path, k))
  }

  /** How many discovered objects a path has not visited yet. */
  ghost function Measure(e: seq<Entry>, path: seq<GameObject>): nat {
    |Objects(e) - (set x | x in path)|
  }

  lemma ParentUnique(e: seq<Entry>, x: GameObject, p: GameObject?, q: GameObject?)
    requires SingleParent(e)
    requires Reports(e, x, p) && Reports(e, x, q)
    ensures p == q
  {
    var i :| 0 <= i < |e| && e[i] == Entry(x, p);
    var j :| 0 <= j < |e| && e[j] == Entry(x, q);
    assert SameObject(e, i, j);
  }

  /** A valid path never visits an object twice. */
  lemma {:induction false} PathNoRepeat(e: seq<Entry>, path: seq<GameObject>, i: nat, j: nat)
    requires SingleParent(e) && ValidPath(e, path)
    requires i < j < |path|
    ensures path[i] != path[j]
    decreases i
  {
    if path[i] == path[j] {
      ParentUnique(e, path[i], Above(path, i), Above(path, j));
      if i == 0 {
        assert false;
      } else {
        PathNoRepeat(e, path, i - 1, j - 1);
        assert false;
      }
    }
  }

  /** An object reported under a parent is in that parent's bucket. */
  lemma ReportedIsChild(e: seq<Entry>, x: GameObject, p: GameObject?)
    requires Reports(e, x, p)
    ensures x in ChildrenOf(e, p)
  {
    var i :| 0 <= i < |e| && e[i] == Entry(x, p);
    DiscoveredIsChild(e, |e|, i);
  }

  /** Discovery `i`, among the first `n`, is in the bucket of its parent. */
  lemma {:induction false} DiscoveredIsChild(e: seq<Entry>, n: nat, i: nat)
    requires i < n <= |e|
    ensures e[i].obj in ChildrenUpTo(e, n, e[i].parent)
    decreases n
  {
    if i < n - 1 {
      DiscoveredIsChild(e, n - 1, i);
    }
  }

  /** Every prefix of a valid path is valid. */
  lemma PrefixValid(e: seq<Entry>, path: seq<GameObject>, n: nat)
    requires ValidPath(e, path) && n <= |path|
    ensures ValidPath(e, path[..n])
  {
    forall k | 0 <= k < n
      ensures Reports(e, path[..n][k], Above(path[..n], k))
    {
      assert path[..n][k] == path[k];
      assert Above(path[..n], k) == Above(path, k);
    }
  }

  /** Going down to a child keeps a path valid. */
  lemma ExtendValid(e: seq<Entry>, path: seq<GameObject>, c: GameObject)
    requires ValidPath(e, path)
    requires Reports(e, c, ParentKey(path))
    ensures ValidPath(e, path + [c])
  {
    var q := path + [c];
    forall k | 0 <= k < |q|
      ensures Reports(e, q[k], Above(q, k))
    {
      if k < |path| {
        assert q[k] == path[k] && Above(q, k) == Above(path, k);
      } else {
        assert q[k] == c && Above(q, k) == ParentKey(path);
      }
    }
  }

  /**
    Going down to a child keeps a path valid and strictly decreases the
    number of objects not yet visited: the walk's termination argument.
   */
  lemma Extend(e: seq<Entry>, path: seq<GameObject>, c: GameObject)
    requires SingleParent(e) && ValidPath(e, path)
    requires Reports(e, c, ParentKey(path))
    ensures ValidPath(e, path + [c])
    ensures Measure(e, path + [c]) < Measure(e, path)
  {
    var q := path + [c];
    ExtendValid(e, path, c);
    forall i | 0 <= i < |path| ensures path[i] != c {
      PathNoRepeat(e, q, i, |path|);
    }
    var i :| 0 <= i < |e| && e[i] == Entry(c, ParentKey(path));
    var before := Objects(e) - (set x | x in path);
    var after := Objects(e) - (set x | x in q);
    assert c in before;
    assert after == before - {c};
  }

  /**
    The subtree of the last object of `path`: its row at `indent`, then the
    subtrees of its children one level deeper, in bucket order.
   */
  ghost function Walk(e: seq<Entry>, path: seq<GameObject>, indent: nat): seq<Row>
    requires SingleParent(e) && ValidPath(e, path) && path != []
    decreases Measure(e, path), 1, 0
  {
    [Row(path[|path| - 1], indent)] + Forest(e, path, |ChildrenOf(e, ParentKey(path))|, indent + 1)
  }

  /**
    The subtrees of the first `j` objects in the bucket of `path` (the
    children of its last object, or the parentless objects for the empty
    path), one after another.
   */
  ghost function Forest(e: seq<Entry>, path: seq<GameObject>, j: nat, indent: nat): seq<Row>
    requires SingleParent(e) && ValidPath(e, path)
    requires j <= |ChildrenOf(e, ParentKey(path))|
    decreases Measure(e, path), 0, j
  {
    if j == 0 then []
    else
      var c := ChildrenOf(e, ParentKey(path))[j - 1];
      Extend(e, path, c);
      Forest(e, path, j - 1, indent) + Walk(e, path + [c], indent)
  }

  /** The outliner's rows: the subtrees of the parentless objects, at indent 0. */
  ghost function Rows(e: seq<Entry>): seq<Row>
    requires SingleParent(e)
  {
    Forest(e, [], |ChildrenOf(e, null)|, 0)
  }

  /** Every row of the subtree of one of the first `j` children appears in their forest. */
  lemma {:induction false} ForestHasSubtree(e: seq<Entry>, path: seq<GameObject>, j: nat, indent: nat, k: nat, r: Row)
    requires SingleParent(e) && ValidPath(e, path)
    requires k < j <= |ChildrenOf(e, ParentKey(path))|
    requires ValidPath(e, path + [ChildrenOf(e, ParentKey(path))[k]])
    requires r in Walk(e, path + [ChildrenOf(e, ParentKey(path))[k]], indent)
    ensures r in Forest(e, path, j, indent)
    decreases j
  {
    Extend(e, path, ChildrenOf(e, ParentKey(path))[j - 1]);
    if k < j - 1 {
      ForestHasSubtree(e, path, j - 1, indent, k, r);
    }
  }

  /** An object in a bucket sits at some position of it. */
  lemma IndexInBucket(e: seq<Entry>, x: GameObject, p: GameObject?) returns (k: nat)
    requires Reports(e, x, p)
    ensures k < |ChildrenOf(e, p)| && ChildrenOf(e, p)[k] == x
  {
    ReportedIsChild(e, x, p);
    var cs := ChildrenOf(e, p);
    var i :| 0 <= i < |cs| && cs[i] == x;
    k := i;
  }

  /** Every row of a valid path's subtree, drawn at the path's depth, is a row of the outliner. */
  lemma {:induction false} SubtreeInRows(e: seq<Entry>, path: seq<GameObject>, r: Row)
    requires SingleParent(e) && ValidPath(e, path) && path != []
    requires r in Walk(e, path, |path| - 1)
    ensures r in Rows(e)
    decreases |path|
  {
    var n := |path| - 1;
    var prefix := path[..n];
    PrefixValid(e, path, n);
    assert path == prefix + [path[n]];
    assert Above(path, n) == ParentKey(prefix);
    var k := IndexInBucket(e, path[n], ParentKey(prefix));
    var cs := ChildrenOf(e, ParentKey(prefix));
    if n == 0 {
      ForestHasSubtree(e, [], |cs|, 0, k, r);
    } else {
      assert r in Forest(e, prefix, |cs|, n) by {
        ForestHasSubtree(e, prefix, |cs|, n, k, r);
      }
      assert r in Walk(e, prefix, n - 1);
      SubtreeInRows(e, prefix, r);
    }
  }

  /**
    `q` is a valid path that extends `path` and ends at the object of `r`,
    which is drawn at `indent` plus the depth `q` adds.
   */
  ghost predicate ReachedBelow(e: seq<Entry>, path: seq<GameObject>, q: seq<GameObject>, r: Row, indent: int) {
    ValidPath(e, q) && |q| >= |path| && |q| > 0 && q[..|path|] == path
    && q[|q| - 1] == r.obj && r.indent == indent + |q| - |path|
  }

  /**
    Every row of the subtree of `path` at `indent` is an object reached by a
    valid path that extends `path`, drawn `indent` plus the extra depth.
   */
  lemma {:induction false} WalkRowHasPath(e: seq<Entry>, path: seq<GameObject>, indent: nat, r: Row)
    returns (q: seq<GameObject>)
    requires SingleParent(e) && ValidPath(e, path) && path != []
    requires r in Walk(e, path, indent)
    ensures ReachedBelow(e, path, q, r, indent)
    decreases Measure(e, path), 1, 0
  {
    if r == Row(path[|path| - 1], indent) {
      q := path;
    } else {
      q := ForestRowHasPath(e, path, |ChildrenOf(e, ParentKey(path))|, indent + 1, r);
    }
  }

  /** Every row of a forest is reached by a valid path one or more steps below `path`. */
  lemma {:induction false} ForestRowHasPath(e: seq<Entry>, path: seq<GameObject>, j: nat, indent: nat, r: Row)
    returns (q: seq<GameObject>)
    requires SingleParent(e) && ValidPath(e, path)
    requires j <= |ChildrenOf(e, ParentKey(path))|
    requires r in Forest(e, path, j, indent)
    ensures |q| > |path| && ReachedBelow(e, path, q, r, indent - 1)
    decreases Measure(e, path), 0, j
  {
    var c := ChildrenOf(e, ParentKey(path))[j - 1];
    if r in Forest(e, path, j - 1, indent) {
      q := ForestRowHasPath(e, path, j - 1, indent, r);
    } else {
      Extend(e, path, c);
      q := ChildRowHasPath(e, path, c, indent, r);
    }
  }

  /** Every row of the subtree of a child of `path` is reached by a valid path below `path`. */
  lemma {:induction false} ChildRowHasPath(e: seq<Entry>, path: seq<GameObject>, c: GameObject, indent: nat, r: Row)
    returns (q: seq<GameObject>)
    requires SingleParent(e) && ValidPath(e, path)
    requires Reports(e, c, ParentKey(path))
    requires ValidPath(e, path + [c]) && Measure(e, path + [c]) < Measure(e, path)
    requires r in Walk(e, path + [c], indent)
    ensures |q| > |path| && ReachedBelow(e, path, q, r, indent - 1)
    decreases Measure(e, path), 0, 0
  {
    var p := path + [c];
    q := WalkRowHasPath(e, p, indent, r);
    assert p[..|path|] == path;
    PrefixOfPrefix(q, p, path);
  }

  lemma PrefixOfPrefix(q: seq<GameObject>, p: seq<GameObject>, path: seq<GameObject>)
    requires |q| >= |p| && q[..|p|] == p && |p| >= |path| && p[..|path|] == path
    ensures q[..|path|] == path
  {
    assert q[..|path|] == q[..|p|][..|path|];
  }

  /**
    The outliner shows exactly the objects reachable from the parentless
    bucket: a row (x, d) appears if and only if some chain of d + 1 objects,
    starting from a parentless one and going from parent to child, ends at x.
   */
  lemma RowsAreReachable(e: seq<Entry>, x: GameObject, d: nat)
    requires SingleParent(e)
    ensures Row(x, d) in Rows(e) <==> exists path :: ValidPath(e, path) && |path| == d + 1 && path[d] == x
  {
    if Row(x, d) in Rows(e) {
      var q := ForestRowHasPath(e, [], |ChildrenOf(e, null)|, 0, Row(x, d));
      assert ValidPath(e, q) && |q| == d + 1 && q[d] == x;
    }
    if exists path :: ValidPath(e, path) && |path| == d + 1 && path[d] == x {
      var path :| ValidPath(e, path) && |path| == d + 1 && path[d] == x;
      assert Row(x, d) in Walk(e, path, d);
      SubtreeInRows(e, path, Row(x, d));
    }
  }

  /** Every row shows a discovered object. */
  lemma RowsAreDiscovered(e: seq<Entry>, r: Row)
    requires SingleParent(e) && r in Rows(e)
    ensures r.obj in Objects(e)
  {
    var q := ForestRowHasPath(e, [], |ChildrenOf(e, null)|, 0, r);
    var n := |q| - 1;
    var i :| 0 <= i < |e| && e[i] == Entry(q[n], Above(q, n));
    assert e[i].obj in Objects(e);
  }
}
