/**
  The tree the converter grows: an arena of nodes indexed by integers. Node 0 is
  the root; every other node stores the index of its parent, which is smaller
  than its own. As with `Node(name, parent=p)`, giving a node its parent is what
  makes it a child: the children of a node are the nodes naming it as parent,
  in the order they were attached, which is the order of their indices.
 */
module Tree {
  import opened Json
  import opened Errors

  /** The synthetic root, `Node('root')`. */
  const Root: nat := 0

  /**
    A vertex of the tree: its name (a record's value for one nesting level, or
    "root"), its parent (-1 for the root), and the payload a leaf receives once
    its record is placed.
   */
  datatype Node = Node(name: Json, parent: int, values: Option<seq<Record>>)

  /** Every node but the root hangs below an earlier node. */
  ghost predicate WellFormed(t: seq<Node>)
  {
    |t| > 0 && t[Root].parent == -1 && forall m :: 0 < m < |t| ==> 0 <= t[m].parent < m
  }

  /** No two children of one node share a name. */
  ghost predicate SiblingsUnique(t: seq<Node>)
  {
    forall x, y :: 0 < x < y < |t| && t[x].parent == t[y].parent ==> t[x].name != t[y].name
  }

  /** The tree a converter starts from: the root alone. */
  function EmptyTree(): (t: seq<Node>)
    ensures WellFormed(t) && SiblingsUnique(t) && |t| == 1 && t[Root].values.None?
  {
    [Node(JStr("root"), -1, None)]
  }

  /** The children of `n` among the first `k` nodes, in the order they were attached. */
  function ChildrenBelow(t: seq<Node>, n: nat, k: nat): (cs: seq<nat>)
    requires k <= |t|
    ensures forall x :: x in cs <==> 0 <= x < k && t[x].parent == n
    ensures forall i, j :: 0 <= i < j < |cs| ==> cs[i] < cs[j]
    decreases k
  {
    if k == 0 then []
    else
      var front := ChildrenBelow(t, n, k - 1);
      assert forall i :: 0 <= i < |front| ==> front[i] in front;
      front + (if t[k - 1].parent == n then [k - 1] else [])
  }

  /** `node.children`: the nodes whose parent is `n`, in the order they were attached. */
  function Children(t: seq<Node>, n: nat): (cs: seq<nat>)
    requires WellFormed(t) && n < |t|
    ensures forall x :: x in cs <==> 0 <= x < |t| && t[x].parent == n
    ensures forall x :: x in cs ==> n < x < |t|
    ensures forall i, j :: 0 <= i < j < |cs| ==> cs[i] < cs[j]
  {
    ChildrenBelow(t, n, |t|)
  }

  /** Two neighbours in an ascending list of children are in order. */
  lemma AscendingStep(cs: seq<nat>, i: nat)
    requires forall i, j :: 0 <= i < j < |cs| ==> cs[i] < cs[j]
    requires i + 1 < |cs|
    ensures cs[i] < cs[i + 1]
  {
  }

  /** The children among the first `k` nodes depend only on those nodes' parents. */
  lemma {:induction false} ChildrenBelowAgree(t: seq<Node>, t': seq<Node>, n: nat, k: nat)
    requires k <= |t| && k <= |t'|
    requires forall m :: 0 <= m < k ==> t[m].parent == t'[m].parent
    ensures ChildrenBelow(t, n, k) == ChildrenBelow(t', n, k)
    decreases k
  {
    if k > 0 {
      ChildrenBelowAgree(t, t', n, k - 1);
    }
  }

  /** A node that no node among the first `k` names as parent has no children among them. */
  lemma {:induction false} ChildrenBelowNone(t: seq<Node>, n: nat, k: nat)
    requires k <= |t|
    requires forall m :: 0 <= m < k ==> t[m].parent != n
    ensures ChildrenBelow(t, n, k) == []
    decreases k
  {
    if k > 0 {
      ChildrenBelowNone(t, n, k - 1);
    }
  }

  /** The lone root of a fresh tree has no children. */
  lemma EmptyTreeIsLeaf()
    ensures Children(EmptyTree(), Root) == []
  {
    ChildrenBelowNone(EmptyTree(), Root, 1);
  }

  /** The last node of the arena is a leaf. */
  lemma LastIsLeaf(t: seq<Node>)
    requires WellFormed(t) && |t| > 1
    ensures Children(t, |t| - 1) == []
  {
    ChildrenBelowNone(t, |t| - 1, |t|);
  }

  /** The labels from the root's child down to `m`: `m` is at /root/<Path>. */
  ghost function Path(t: seq<Node>, m: nat): seq<Json>
    requires WellFormed(t) && m < |t|
    decreases m
  {
    if m == Root then [] else Path(t, t[m].parent as nat) + [t[m].name]
  }

  /** The number of edges between the root and `m`. */
  ghost function Depth(t: seq<Node>, m: nat): nat
    requires WellFormed(t) && m < |t|
  {
    |Path(t, m)|
  }

  /** A path depends only on the names and parents of the nodes up to its end. */
  lemma {:induction false} PathAgree(t: seq<Node>, t': seq<Node>, m: nat)
    requires WellFormed(t) && WellFormed(t') && m < |t| && m < |t'|
    requires forall k :: 0 <= k <= m ==> t'[k].name == t[k].name && t'[k].parent == t[k].parent
    ensures Path(t', m) == Path(t, m)
    decreases m
  {
    if m != Root {
      PathAgree(t, t', t[m].parent as nat);
    }
  }

  /** Appending nodes leaves the paths of existing nodes as they were. */
  lemma PathExtends(t: seq<Node>, t': seq<Node>, m: nat)
    requires WellFormed(t) && WellFormed(t') && t <= t' && m < |t|
    ensures Path(t', m) == Path(t, m)
  {
    assert forall k :: 0 <= k <= m ==> t'[k] == t[k];
    PathAgree(t, t', m);
  }

  /** Only the root has the empty path. */
  lemma PathEmptyOnlyAtRoot(t: seq<Node>, m: nat)
    requires WellFormed(t) && m < |t|
    ensures Path(t, m) == [] <==> m == Root
  {
  }

  /** A node's path is its parent's path followed by its own name. */
  lemma PathOfChild(t: seq<Node>, m: nat)
    requires WellFormed(t) && Root < m < |t|
    ensures Path(t, t[m].parent as nat) == Path(t, m)[..|Path(t, m)| - 1]
    ensures t[m].name == Path(t, m)[|Path(t, m)| - 1]
  {
  }

  /** With unique sibling labels, a path names at most one node. */
  lemma {:induction false} PathInjective(t: seq<Node>, a: nat, b: nat)
    requires WellFormed(t) && SiblingsUnique(t) && a < |t| && b < |t|
    requires Path(t, a) == Path(t, b)
    ensures a == b
    decreases a + b
  {
    if a != Root && b != Root {
      PathOfChild(t, a);
      PathOfChild(t, b);
      PathInjective(t, t[a].parent as nat, t[b].parent as nat);
    } else if a != Root {
      PathEmptyOnlyAtRoot(t, a);
    } else if b != Root {
      PathEmptyOnlyAtRoot(t, b);
    }
  }

  /** Every prefix of a node's path is the path of one of its ancestors. */
  lemma {:induction false} PathPrefixIsNode(t: seq<Node>, m: nat, k: nat)
    requires WellFormed(t) && m < |t| && k <= |Path(t, m)|
    ensures exists a :: 0 <= a < |t| && Path(t, a) == Path(t, m)[..k]
    decreases m
  {
    if k == |Path(t, m)| {
      assert Path(t, m)[..k] == Path(t, m);
    } else {
      var p := t[m].parent as nat;
      PathOfChild(t, m);
      PathPrefixIsNode(t, p, k);
      var a :| 0 <= a < |t| && Path(t, a) == Path(t, p)[..k];
      assert Path(t, p)[..k] == Path(t, m)[..k];
    }
  }

  /** Dropping the last element of an ascending list of indices below `bound`. */
  lemma DropLast(cs: seq<nat>, bound: nat)
    requires cs != [] && forall c :: c in cs ==> c < bound
    requires forall j, k :: 0 <= j < k < |cs| ==> cs[j] < cs[k]
    ensures var front := cs[..|cs| - 1];
            && cs == front + [cs[|cs| - 1]] && cs[|cs| - 1] < bound
            && (forall c :: c in front ==> c < cs[|cs| - 1] && c < bound)
            && (forall j, k :: 0 <= j < k < |front| ==> front[j] < front[k])
  {
    var front := cs[..|cs| - 1];
    assert cs[|cs| - 1] in cs;
    forall c | c in front
      ensures c < cs[|cs| - 1] && c < bound
    {
      var j :| 0 <= j < |front| && front[j] == c;
      assert cs[j] in cs;
    }
  }

  /** The elements of `cs` whose node carries `name`, in order. */
  function Matching(t: seq<Node>, cs: seq<nat>, name: Json): (r: seq<nat>)
    requires forall c :: c in cs ==> c < |t|
    requires forall j, k :: 0 <= j < k < |cs| ==> cs[j] < cs[k]
    ensures forall x :: x in r <==> x in cs && t[x].name == name
    ensures forall i, j :: 0 <= i < j < |r| ==> r[i] < r[j]
  {
    if cs == [] then []
    else
      DropLast(cs, |t|);
      var last, front := cs[|cs| - 1], cs[..|cs| - 1];
      var r' := Matching(t, front, name);
      assert forall i :: 0 <= i < |r'| ==> r'[i] in front;
      r' + (if t[last].name == name then [last] else [])
  }

  /** `[node for node in n.children if node.name == name]`. */
  function MatchingChildren(t: seq<Node>, n: nat, name: Json): (r: seq<nat>)
    requires WellFormed(t) && n < |t|
    ensures forall x :: x in r <==> 0 <= x < |t| && t[x].parent == n && t[x].name == name
    ensures forall x :: x in r ==> n < x < |t|
    ensures forall i, j :: 0 <= i < j < |r| ==> r[i] < r[j]
  {
    Matching(t, Children(t, n), name)
  }

  /** Among unique sibling labels, at most one child matches a name. */
  lemma MatchingAtMostOne(t: seq<Node>, n: nat, name: Json)
    requires WellFormed(t) && SiblingsUnique(t) && n < |t|
    ensures |MatchingChildren(t, n, name)| <= 1
  {
    var r := MatchingChildren(t, n, name);
    if r != [] {
      var a, b := r[0], r[|r| - 1];
      assert a in r && b in r;
      assert a == b;
    }
  }

  /** Every child of `n` carrying `name` has `n`'s path followed by `name`. */
  lemma MatchingHasPath(t: seq<Node>, n: nat, name: Json)
    requires WellFormed(t) && n < |t|
    ensures forall x :: x in MatchingChildren(t, n, name) ==> Path(t, x) == Path(t, n) + [name]
  {
  }

  /** A node whose path is `n`'s path followed by `name` is a matching child of `n`. */
  lemma PathIsMatching(t: seq<Node>, n: nat, name: Json, m: nat)
    requires WellFormed(t) && SiblingsUnique(t) && n < |t| && m < |t|
    requires Path(t, m) == Path(t, n) + [name]
    ensures m in MatchingChildren(t, n, name)
  {
    assert m != Root;
    PathOfChild(t, m);
    PathInjective(t, t[m].parent as nat, n);
  }

  /** A child of `n` carries `name` exactly when some node's path is `n`'s path followed by `name`. */
  lemma MatchingIffPath(t: seq<Node>, n: nat, name: Json)
    requires WellFormed(t) && SiblingsUnique(t) && n < |t|
    ensures MatchingChildren(t, n, name) != [] <==>
              exists m :: 0 <= m < |t| && Path(t, m) == Path(t, n) + [name]
    ensures forall x :: x in MatchingChildren(t, n, name) ==> Path(t, x) == Path(t, n) + [name]
  {
    var r := MatchingChildren(t, n, name);
    MatchingHasPath(t, n, name);
    if r != [] {
      assert r[0] in r;
    }
    if m :| 0 <= m < |t| && Path(t, m) == Path(t, n) + [name] {
      PathIsMatching(t, n, name, m);
    }
  }

  /**
    `Node(name, parent=p)`: a new, childless node appended to the arena, which
    makes it the last of `p`'s children (`AddChildChildren`); nothing else changes.
   */
  function AddChild(t: seq<Node>, p: nat, name: Json): (r: (seq<Node>, nat))
    requires WellFormed(t) && p < |t|
    ensures WellFormed(r.0) && t <= r.0
    ensures r.1 == |t| && |r.0| == |t| + 1
    ensures r.0[r.1] == Node(name, p, None)
  {
    var t' := t + [Node(name, p, None)];
    assert forall m :: 0 <= m < |t| ==> t'[m] == t[m];
    (t', |t|)
  }

  /** The new node is a leaf and the last of `p`'s children, which were as before. */
  lemma AddChildChildren(t: seq<Node>, p: nat, name: Json)
    requires WellFormed(t) && p < |t|
    ensures Children(AddChild(t, p, name).0, p) == Children(t, p) + [|t|]
    ensures Children(AddChild(t, p, name).0, |t|) == []
  {
    var t' := AddChild(t, p, name).0;
    assert ChildrenBelow(t', p, |t'|) == ChildrenBelow(t', p, |t|) + [|t|];
    ChildrenBelowAgree(t, t', p, |t|);
    LastIsLeaf(t');
  }

  /** Attaching a child to `p` leaves every other node's children as they were. */
  lemma AddChildOtherChildren(t: seq<Node>, p: nat, name: Json, m: nat)
    requires WellFormed(t) && p < |t| && m < |t| && m != p
    ensures Children(AddChild(t, p, name).0, m) == Children(t, m)
  {
    ChildrenBelowAgree(t, AddChild(t, p, name).0, m, |t|);
  }

  /** Adding a child whose name no sibling carries keeps sibling labels unique. */
  lemma AddChildKeepsSiblingsUnique(t: seq<Node>, p: nat, name: Json)
    requires WellFormed(t) && SiblingsUnique(t) && p < |t|
    requires MatchingChildren(t, p, name) == []
    ensures SiblingsUnique(AddChild(t, p, name).0)
  {
    var t' := AddChild(t, p, name).0;
    forall x | 0 < x < |t| && t'[x].parent == p
      ensures t'[x].name != name
    {
      assert x !in MatchingChildren(t, p, name);
    }
  }

  /** `leaf_node.values = vals`: give node `n` a payload; nothing else changes. */
  function SetValues(t: seq<Node>, n: nat, vals: seq<Record>): (t': seq<Node>)
    requires WellFormed(t) && n < |t|
    ensures WellFormed(t') && |t'| == |t|
    ensures t'[n] == t[n].(values := Some(vals))
    ensures forall m :: 0 <= m < |t| && m != n ==> t'[m] == t[m]
  {
    t[n := t[n].(values := Some(vals))]
  }

  /** Setting a payload keeps sibling labels unique. */
  lemma SetValuesKeepsSiblingsUnique(t: seq<Node>, n: nat, vals: seq<Record>)
    requires WellFormed(t) && SiblingsUnique(t) && n < |t|
    ensures SiblingsUnique(SetValues(t, n, vals))
  {
    var t' := SetValues(t, n, vals);
    assert forall m :: 0 <= m < |t| ==> t'[m].parent == t[m].parent && t'[m].name == t[m].name;
  }

  /** Setting a payload moves no node: children and paths are as they were. */
  lemma SetValuesShape(t: seq<Node>, n: nat, vals: seq<Record>, m: nat)
    requires WellFormed(t) && n < |t| && m < |t|
    ensures Children(SetValues(t, n, vals), m) == Children(t, m)
    ensures Path(SetValues(t, n, vals), m) == Path(t, m)
  {
    var t' := SetValues(t, n, vals);
    assert forall k :: 0 <= k < |t| ==> t'[k].parent == t[k].parent && t'[k].name == t[k].name;
    ChildrenBelowAgree(t, t', m, |t|);
    PathAgree(t, t', m);
  }

  /** Node `m` has at least one child. */
  ghost predicate HasChild(t: seq<Node>, m: nat)
  {
    exists c :: 0 <= c < |t| && t[c].parent == m
  }

  /** Every node but the root that carries no payload has a child: every leaf carries one. */
  ghost predicate PayloadsAtLeaves(t: seq<Node>)
  {
    forall m :: 0 < m < |t| && t[m].values.None? ==> HasChild(t, m)
  }

  /** A node other than the root without a payload is not a leaf. */
  lemma LeafHasPayload(t: seq<Node>, m: nat)
    requires WellFormed(t) && PayloadsAtLeaves(t) && 0 < m < |t|
    ensures t[m].values.None? ==> Children(t, m) != []
  {
    if t[m].values.None? {
      var c :| 0 <= c < |t| && t[c].parent == m;
      assert c in Children(t, m);
    }
  }

  /** No node lies more than `d` edges below the root. */
  ghost predicate DepthAtMost(t: seq<Node>, d: nat)
    requires WellFormed(t)
  {
    forall m :: 0 <= m < |t| ==> Depth(t, m) <= d
  }

  /** In a tree no deeper than `d`, a node at depth `d` is a leaf. */
  lemma DeepestIsLeaf(t: seq<Node>, d: nat, m: nat)
    requires WellFormed(t) && DepthAtMost(t, d) && m < |t| && Depth(t, m) == d
    ensures Children(t, m) == []
  {
    forall c | 0 <= c < |t|
      ensures t[c].parent != m
    {
      if c != Root {
        assert Depth(t, c) <= d;
        assert Depth(t, c) == Depth(t, t[c].parent as nat) + 1;
      }
    }
    ChildrenBelowNone(t, m, |t|);
  }

  /** Every node that carries a payload lies exactly `d` edges below the root. */
  ghost predicate PayloadsAtDepth(t: seq<Node>, d: nat)
    requires WellFormed(t)
  {
    forall m :: 0 <= m < |t| && t[m].values.Some? ==> Depth(t, m) == d
  }

  /** A node that carries a payload has no children. */
  ghost predicate PayloadsOnlyAtLeaves(t: seq<Node>)
    requires WellFormed(t)
  {
    forall m :: 0 <= m < |t| && t[m].values.Some? ==> Children(t, m) == []
  }

  /** Every leaf other than the root lies exactly `d` edges below the root. */
  ghost predicate LeavesAtDepth(t: seq<Node>, d: nat)
    requires WellFormed(t)
  {
    forall m :: 0 < m < |t| && Children(t, m) == [] ==> Depth(t, m) == d
  }

  /**
    In a tree no deeper than `d` whose leaves carry payloads and whose payloads
    sit at depth `d`, the nodes with payloads are exactly the leaves other than
    the root, and they all lie at depth `d`.
   */
  lemma LeafShape(t: seq<Node>, d: nat)
    requires WellFormed(t) && PayloadsAtLeaves(t) && DepthAtMost(t, d) && PayloadsAtDepth(t, d)
    ensures PayloadsOnlyAtLeaves(t) && LeavesAtDepth(t, d)
  {
    forall m | 0 <= m < |t| && t[m].values.Some?
      ensures Children(t, m) == []
    {
      DeepestIsLeaf(t, d, m);
    }
    forall m | 0 < m < |t| && Children(t, m) == []
      ensures Depth(t, m) == d
    {
      LeafHasPayload(t, m);
    }
  }
}
