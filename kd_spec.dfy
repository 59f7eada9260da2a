/** The k-d tree of the Gaussian-process interpolator as values: a table of
    rows `{split dimension, left child, right child, parent}` over a table of
    points, with -1 meaning "none". A node's ancestor path is ghost
    bookkeeping (`anc[i]` lists the nodes from the root down to i's parent);
    it makes the tree shape and the ordering invariant non-recursive. */
module KdSpec {

  /** One row of the tree table; -1 in a link means "none". */
  datatype Node = Node(dim: int, left: int, right: int, parent: int)

  /** The row a fresh storage slot holds before the tree writes it. */
  const Blank := Node(0, -1, -1, -1)

  /** The child in slot `dir` (1 is left, 2 is right, as in the table's columns). */
  function Child(n: Node, dir: int): int
  {
    if dir == 1 then n.left else n.right
  }

  /** Column j of a row: 0 is the split dimension, 1 the left child, 2 the
      right child, 3 the parent. */
  function Column(n: Node, j: int): int
  {
    if j == 0 then n.dim else if j == 1 then n.left else if j == 2 then n.right else n.parent
  }

  function SetChild(n: Node, dir: int, c: int): (r: Node)
    ensures Child(r, dir) == c && r.dim == n.dim && r.parent == n.parent
    ensures dir == 1 ==> r.right == n.right
    ensures dir != 1 ==> r.left == n.left
  {
    if dir == 1 then n.(left := c) else n.(right := c)
  }

  predicate InRange(n: int, i: int)
  {
    0 <= i < n
  }

  /** The indices 0..n-1. */
  ghost function All(n: int): set<int>
  {
    set i | 0 <= i < n && InRange(n, i)
  }

  /** There are n indices below n. */
  lemma {:induction false} AllCard(n: nat)
    ensures |All(n)| == n
  {
    if n > 0 {
      AllCard(n - 1);
      assert All(n) == All(n - 1) + {n - 1};
    }
  }

  /** No index occurs twice in C. */
  ghost predicate Distinct(C: seq<int>)
  {
    forall i, j :: 0 <= i < j < |C| ==> C[i] != C[j]
  }

  /** A table state: tree rows, point rows, ghost ancestor paths, the point
      dimension and the root. */
  datatype Snap = Snap(t: seq<Node>, d: seq<seq<real>>, anc: seq<seq<int>>, dims: int, root: int)

  /** The nodes from the root down to i, i included. */
  function Path(anc: seq<seq<int>>, i: int): seq<int>
    requires 0 <= i < |anc|
  {
    anc[i] + [i]
  }

  /** The node that follows position k on i's path. */
  function Next(anc: seq<seq<int>>, i: int, k: int): int
    requires 0 <= i < |anc| && 0 <= k < |anc[i]|
  {
    Path(anc, i)[k + 1]
  }

  /** Point x lies on the side of node a that leads to c: strictly below a's
      coordinate in a's split dimension when c is a's left child, at or above
      it otherwise. */
  ghost predicate EdgeOk(t: seq<Node>, d: seq<seq<real>>, a: int, c: int, x: seq<real>)
  {
    && 0 <= a < |t| && a < |d| && 0 <= t[a].dim < |d[a]| && t[a].dim < |x|
    && (if t[a].left == c then x[t[a].dim] < d[a][t[a].dim] else d[a][t[a].dim] <= x[t[a].dim])
  }

  ghost predicate LinkIn(M: set<int>, x: int)
  {
    x == -1 || x in M
  }

  /** Table sizes and the point dimension. */
  ghost predicate Sized(s: Snap)
  {
    && |s.t| == |s.d| == |s.anc| && s.dims >= 1
    && (forall i :: 0 <= i < |s.d| ==> |s.d[i]| == s.dims)
  }

  /** Node i is on the correct side of the k-th node of its path. */
  ghost predicate StepOk(s: Snap, i: int, k: int)
  {
    0 <= i < |s.anc| && i < |s.d| && 0 <= k < |s.anc[i]| &&
    EdgeOk(s.t, s.d, s.anc[i][k], Next(s.anc, i, k), s.d[i])
  }

  /** The links of node i of M: its split dimension, its links (inside M,
      with back links, two distinct children) and its ancestor path (its
      parent's path extended by the parent). */
  ghost predicate NodeLinks(s: Snap, M: set<int>, i: int)
  {
    var t, anc := s.t, s.anc;
    && 0 <= i < |t| && i < |anc| && i < |s.d|
    && 0 <= t[i].dim < s.dims
    && LinkIn(M, t[i].left) && LinkIn(M, t[i].right) && LinkIn(M, t[i].parent)
    && (t[i].parent == -1 <==> i == s.root)
    && (t[i].left != -1 ==> 0 <= t[i].left < |t| && t[t[i].left].parent == i && t[i].left != t[i].right)
    && (t[i].right != -1 ==> 0 <= t[i].right < |t| && t[t[i].right].parent == i)
    && (t[i].parent == -1 ==> anc[i] == [])
    && (t[i].parent != -1 ==>
          && 0 <= t[i].parent < |t| && t[i].parent < |anc|
          && (t[t[i].parent].left == i || t[t[i].parent].right == i)
          && anc[i] == Path(anc, t[i].parent))
  }

  /** Node i is on the correct side of every node of its ancestor path. */
  ghost predicate NodeSteps(s: Snap, i: int)
  {
    0 <= i < |s.anc| && forall k {:trigger StepOk(s, i, k)} :: 0 <= k < |s.anc[i]| ==> StepOk(s, i, k)
  }

  /** Everything the invariant says about node i of M. */
  ghost predicate NodeOk(s: Snap, M: set<int>, i: int)
  {
    NodeLinks(s, M, i) && NodeSteps(s, i)
  }

  /** The k-d tree invariant restricted to the nodes of M. */
  ghost predicate ValidOn(s: Snap, M: set<int>)
  {
    && Sized(s)
    && s.root in M
    && (forall i :: i in M ==> 0 <= i < |s.t| && 0 <= s.t[i].dim < s.dims
                               && -1 <= s.t[i].left < |s.t| && -1 <= s.t[i].right < |s.t|
                               && -1 <= s.t[i].parent < |s.t|)
    && (forall i {:trigger NodeOk(s, M, i)} :: i in M ==> NodeOk(s, M, i))
  }

  /** The k-d tree invariant on the whole table. */
  ghost predicate Valid(s: Snap)
  {
    ValidOn(s, All(|s.t|))
  }

  /** The invariant on the whole table, row by row. */
  lemma ValidIntro(s: Snap)
    requires Sized(s) && 0 <= s.root < |s.t|
    requires forall i :: 0 <= i < |s.t| ==>
               && 0 <= s.t[i].dim < s.dims
               && -1 <= s.t[i].left < |s.t| && -1 <= s.t[i].right < |s.t| && -1 <= s.t[i].parent < |s.t|
               && NodeOk(s, All(|s.t|), i)
    ensures Valid(s)
  {
    assert InRange(|s.t|, s.root);
  }

  /** The subtree of c within M: the nodes whose path starts with c's path. */
  ghost function Sub(s: Snap, M: set<int>, c: int): set<int>
  {
    set j | j in M && 0 <= j < |s.anc| && 0 <= c < |s.anc| && Path(s.anc, c) <= Path(s.anc, j)
  }

  /** The subtree hanging in slot `dir` of x, or nothing when the slot is empty. */
  ghost function Below(s: Snap, M: set<int>, x: int, dir: int): set<int>
    requires 0 <= x < |s.t|
  {
    var c := Child(s.t[x], dir);
    if c == -1 then {} else Sub(s, M, c)
  }

  /** x is on the correct side of every ancestor of w. */
  ghost predicate FitsPath(s: Snap, w: int, x: seq<real>)
    requires 0 <= w < |s.anc|
  {
    forall k :: 0 <= k < |s.anc[w]| ==> EdgeOk(s.t, s.d, s.anc[w][k], Next(s.anc, w, k), x)
  }

  /** x may hang below w on side `isLeft`: x is on the correct side of every
      ancestor of w, and on the `isLeft` side of w itself. */
  ghost predicate FitsBelow(s: Snap, w: int, isLeft: bool, x: seq<real>)
    requires 0 <= w < |s.t| == |s.anc| == |s.d|
  {
    && FitsPath(s, w, x)
    && 0 <= s.t[w].dim < |x| && s.t[w].dim < |s.d[w]|
    && (isLeft <==> x[s.t[w].dim] < s.d[w][s.t[w].dim])
  }

  // ---------------------------------------------------------------------
  // Consequences of the invariant

  lemma NodeFacts(s: Snap, M: set<int>, i: int)
    requires ValidOn(s, M) && i in M
    ensures NodeOk(s, M, i)
  {
  }

  /** Every prefix of a path is the path of the node at its end. */
  lemma {:induction false} PathPrefix(s: Snap, M: set<int>, i: int, m: int)
    requires ValidOn(s, M)
    requires i in M && 0 <= m <= |s.anc[i]|
    ensures Path(s.anc, i)[m] in M
    ensures Path(s.anc, Path(s.anc, i)[m]) == Path(s.anc, i)[..m + 1]
    decreases |s.anc[i]|
  {
    NodeFacts(s, M, i);
    if m < |s.anc[i]| {
      var p := s.t[i].parent;
      assert Path(s.anc, i) == Path(s.anc, p) + [i];
      PathPrefix(s, M, p, m);
    }
  }

  /** Only the root has an empty path above it. */
  lemma RootOnly(s: Snap, M: set<int>, i: int)
    requires ValidOn(s, M)
    requires i in M
    ensures s.anc[i] == [] <==> i == s.root
  {
    NodeFacts(s, M, i);
  }

  /** A child's path is its parent's path extended by the child. */
  lemma ChildPath(s: Snap, M: set<int>, x: int, c: int)
    requires ValidOn(s, M)
    requires x in M && c != -1 && (c == s.t[x].left || c == s.t[x].right)
    ensures c in M && s.t[c].parent == x && c != s.root
    ensures s.anc[c] == Path(s.anc, x) && Path(s.anc, c) == Path(s.anc, x) + [c]
  {
    NodeFacts(s, M, x);
    NodeFacts(s, M, c);
  }

  /** The node after position k on i's path is a child of the node at k. */
  lemma NextIsChild(s: Snap, M: set<int>, i: int, k: int)
    requires ValidOn(s, M)
    requires i in M && 0 <= k < |s.anc[i]|
    ensures s.anc[i][k] in M && Next(s.anc, i, k) in M
    ensures s.t[Next(s.anc, i, k)].parent == s.anc[i][k]
    ensures s.t[s.anc[i][k]].left == Next(s.anc, i, k) || s.t[s.anc[i][k]].right == Next(s.anc, i, k)
    ensures Path(s.anc, Next(s.anc, i, k)) == Path(s.anc, i)[..k + 2]
  {
    PathPrefix(s, M, i, k);
    PathPrefix(s, M, i, k + 1);
    var c := Next(s.anc, i, k);
    assert Path(s.anc, i)[k] == s.anc[i][k];
    NodeFacts(s, M, c);
    RootOnly(s, M, c);
    assert |Path(s.anc, c)| == k + 2;
    assert Path(s.anc, c) == Path(s.anc, s.t[c].parent) + [c];
    NodeFacts(s, M, s.t[c].parent);
  }

  /** A subtree is its root, its left subtree and its right subtree, which
      are pairwise disjoint. */
  lemma SubSplit(s: Snap, M: set<int>, x: int)
    requires ValidOn(s, M)
    requires x in M
    ensures x in Sub(s, M, x)
    ensures Sub(s, M, x) == {x} + Below(s, M, x, 1) + Below(s, M, x, 2)
    ensures x !in Below(s, M, x, 1) && x !in Below(s, M, x, 2)
    ensures Below(s, M, x, 1) !! Below(s, M, x, 2)
  {
    NodeFacts(s, M, x);
    var l, r := s.t[x].left, s.t[x].right;
    var S := Sub(s, M, x);
    var px := Path(s.anc, x);
    forall j | j in S && j != x
      ensures j in Below(s, M, x, 1) + Below(s, M, x, 2)
    {
      var pj := Path(s.anc, j);
      assert px <= pj;
      assert pj[|px| - 1] == x && pj[|pj| - 1] == j;
      PathPrefix(s, M, j, |px|);
      var c := pj[|px|];
      assert pj[..|px|] == px;
      assert Path(s.anc, c) == px + [c];
      RootOnly(s, M, c);
      NodeFacts(s, M, c);
      var pc := s.t[c].parent;
      assert Path(s.anc, pc) == px;
      assert Path(s.anc, pc)[|px| - 1] == pc && px[|px| - 1] == x;
      assert Path(s.anc, c) <= pj;
    }
    forall j | j in Below(s, M, x, 1) + Below(s, M, x, 2)
      ensures j in S && j != x
    {
      var c := if j in Below(s, M, x, 1) then l else r;
      ChildPath(s, M, x, c);
      assert Path(s.anc, c) <= Path(s.anc, j);
      assert px <= Path(s.anc, j);
    }
    if l != -1 && r != -1 {
      ChildPath(s, M, x, l);
      ChildPath(s, M, x, r);
      forall j | j in Below(s, M, x, 1)
        ensures j !in Below(s, M, x, 2)
      {
        var pj := Path(s.anc, j);
        var c0 := pj[|px|];
        assert c0 == l;
        assert j in Below(s, M, x, 2) ==> c0 == r;
      }
    }
  }

  /** Rows a and b agree outside X. */
  ghost predicate AgreeOff<T>(a: seq<T>, b: seq<T>, X: set<int>)
  {
    |a| == |b| && forall j :: 0 <= j < |a| && j !in X ==> a[j] == b[j]
  }

  /** Agreement outside X and then outside Y is agreement outside any Z
      holding both. */
  lemma AgreeTrans<T>(a: seq<T>, b: seq<T>, c: seq<T>, X: set<int>, Y: set<int>, Z: set<int>)
    requires AgreeOff(a, b, X) && AgreeOff(b, c, Y) && X <= Z && Y <= Z
    ensures AgreeOff(a, c, Z)
  {
  }

  /** Adding a subtree to X adds its root and its two child subtrees. */
  lemma SubParts(s: Snap, M: set<int>, x: int, X: set<int>)
    requires ValidOn(s, M) && x in M
    ensures X + Below(s, M, x, 1) + Below(s, M, x, 2) + {x} == X + Sub(s, M, x)
  {
    SubSplit(s, M, x);
  }

  /** Every row of X has the same children in t as in u. */
  ghost predicate SameChildren(t: seq<Node>, u: seq<Node>, X: set<int>)
  {
    forall j :: j in X ==> 0 <= j < |t| && 0 <= j < |u| && t[j].left == u[j].left && t[j].right == u[j].right
  }

  /** Re-hanging a subtree of s0 whose rows still carry their old children,
      children before parents, onto a tree on M: the left subtree goes
      first, and once its rows have changed, the right subtree's rows and
      the root's row are still untouched. */
  lemma DescendPlan(s0: Snap, M0: set<int>, r: int, M: set<int>, t0: seq<Node>, t1: seq<Node>)
    requires ValidOn(s0, M0) && r in M0 && Sub(s0, M0, r) !! M
    requires SameChildren(t0, s0.t, Sub(s0, M0, r))
    requires AgreeOff(t1, t0, M + Below(s0, M0, r, 1))
    ensures 0 <= r < |t0| && t1[r] == t0[r]
    ensures t0[r].left == s0.t[r].left && t0[r].right == s0.t[r].right
    ensures -1 <= s0.t[r].left && -1 <= s0.t[r].right
    ensures s0.t[r].left != -1 ==> s0.t[r].left in M0
    ensures s0.t[r].right != -1 ==> s0.t[r].right in M0
    ensures Below(s0, M0, r, 1) !! M && SameChildren(t0, s0.t, Below(s0, M0, r, 1))
    ensures Below(s0, M0, r, 2) !! M + Below(s0, M0, r, 1)
    ensures r !in M + Below(s0, M0, r, 1) + Below(s0, M0, r, 2)
    ensures SameChildren(t1, s0.t, Below(s0, M0, r, 2))
  {
    SubSplit(s0, M0, r);
    NodeFacts(s0, M0, r);
    if s0.t[r].left != -1 {
      ChildPath(s0, M0, r, s0.t[r].left);
    }
    if s0.t[r].right != -1 {
      ChildPath(s0, M0, r, s0.t[r].right);
    }
  }

  /** A root without children is the whole tree. */
  lemma LeafRoot(s: Snap, M: set<int>, x: int)
    requires ValidOn(s, M) && x in M && s.t[x].left == -1 && s.t[x].right == -1
    ensures x == s.root ==> M == {x}
  {
    SubSplit(s, M, x);
    SubRoot(s, M);
  }

  /** A child's subtree is strictly smaller than its parent's. */
  lemma ChildSubSmaller(s: Snap, M: set<int>, x: int, dir: int)
    requires ValidOn(s, M)
    requires x in M && Child(s.t[x], dir) != -1
    ensures Sub(s, M, Child(s.t[x], dir)) < Sub(s, M, x)
  {
    SubSplit(s, M, x);
  }

  /** The root's subtree is the whole tree. */
  lemma SubRoot(s: Snap, M: set<int>)
    requires ValidOn(s, M)
    ensures Sub(s, M, s.root) == M
  {
    forall j | j in M
      ensures j in Sub(s, M, s.root)
    {
      PathPrefix(s, M, j, 0);
      var a := Path(s.anc, j)[0];
      assert Path(s.anc, a) == [a];
      RootOnly(s, M, a);
      NodeFacts(s, M, j);
    }
  }

  /** Every point of x's left subtree is strictly below x in x's split
      dimension; every point of its right subtree is at or above it. */
  lemma SubtreeSide(s: Snap, M: set<int>, x: int, y: int)
    requires ValidOn(s, M)
    requires x in M
    ensures y in Below(s, M, x, 1) ==> s.d[y][s.t[x].dim] < s.d[x][s.t[x].dim]
    ensures y in Below(s, M, x, 2) ==> s.d[x][s.t[x].dim] <= s.d[y][s.t[x].dim]
  {
    NodeFacts(s, M, x);
    SubSplit(s, M, x);
    if y in Below(s, M, x, 1) || y in Below(s, M, x, 2) {
      var dir := if y in Below(s, M, x, 1) then 1 else 2;
      var c := Child(s.t[x], dir);
      ChildPath(s, M, x, c);
      var k := |s.anc[x]|;
      var pc, py := Path(s.anc, c), Path(s.anc, y);
      assert pc <= py && |pc| == k + 2 && pc[k] == x && pc[k + 1] == c;
      assert py[k] == s.anc[y][k];
      assert s.anc[y][k] == x && Next(s.anc, y, k) == c;
      NodeFacts(s, M, y);
      assert StepOk(s, y, k);
      assert dir == 1 <==> s.t[x].left == c;
    }
  }

  /** x fits on the path of a child c of w exactly when it fits below w on
      c's side. */
  lemma FitsPathChild(s: Snap, M: set<int>, w: int, c: int, x: seq<real>)
    requires ValidOn(s, M)
    requires w in M && c != -1 && (c == s.t[w].left || c == s.t[w].right)
    ensures FitsPath(s, c, x) <==> FitsBelow(s, w, c == s.t[w].left, x)
  {
    ChildPath(s, M, w, c);
    NodeFacts(s, M, w);
    var k0 := |s.anc[w]|;
    forall k | 0 <= k < k0
      ensures s.anc[c][k] == s.anc[w][k] && Next(s.anc, c, k) == Next(s.anc, w, k)
    {
      assert Path(s.anc, c) == Path(s.anc, w) + [c];
    }
    assert s.anc[c][k0] == w && Next(s.anc, c, k0) == c by {
      assert Path(s.anc, c) == s.anc[w] + [w] + [c];
    }
    if FitsPath(s, c, x) {
      assert EdgeOk(s.t, s.d, s.anc[c][k0], Next(s.anc, c, k0), x);
    }
    if FitsBelow(s, w, c == s.t[w].left, x) {
      forall k | 0 <= k < |s.anc[c]|
        ensures EdgeOk(s.t, s.d, s.anc[c][k], Next(s.anc, c, k), x)
      {
        if k < k0 {
          assert EdgeOk(s.t, s.d, s.anc[w][k], Next(s.anc, w, k), x);
        }
      }
    }
  }

  /** Every node of the tree fits the path of its own parent chain. */
  lemma NodeFitsPath(s: Snap, M: set<int>, i: int)
    requires ValidOn(s, M) && i in M
    ensures FitsPath(s, i, s.d[i])
  {
    NodeFacts(s, M, i);
    forall k | 0 <= k < |s.anc[i]|
      ensures EdgeOk(s.t, s.d, s.anc[i][k], Next(s.anc, i, k), s.d[i])
    {
      assert StepOk(s, i, k);
    }
  }

  // ---------------------------------------------------------------------
  // Hanging a new leaf below a node

  /** The slot of w that x goes to: 1 (left) when x is strictly below w in
      w's split dimension, 2 (right) otherwise. */
  function Side(isLeft: bool): int
  {
    if isLeft then 1 else 2
  }

  /** The table after node n is hung, as a leaf with split dimension dim and
      point x, in slot `dir` of w. */
  function Attach(s: Snap, w: int, dir: int, n: int, x: seq<real>, dim: int): (r: Snap)
    requires 0 <= w < |s.t| && 0 <= n < |s.t| && |s.t| == |s.d| == |s.anc|
    ensures |r.t| == |s.t| && |r.d| == |s.d| && |r.anc| == |s.anc| && r.dims == s.dims && r.root == s.root
    ensures r.t[n] == Node(dim, -1, -1, w) && r.d[n] == x
  {
    Snap(s.t[w := SetChild(s.t[w], dir, n)][n := Node(dim, -1, -1, w)],
         s.d[n := x], s.anc[n := Path(s.anc, w)], s.dims, s.root)
  }

  /** What AttachLeaf needs: w is in the tree with an empty slot on x's side,
      x fits there, and n is a fresh node. */
  ghost predicate CanAttach(s: Snap, M: set<int>, w: int, isLeft: bool, n: int, x: seq<real>, dim: int)
  {
    && ValidOn(s, M) && w in M && n !in M && 0 <= n < |s.t| && w != n
    && |x| == s.dims && 0 <= dim < s.dims
    && Child(s.t[w], Side(isLeft)) == -1
    && FitsBelow(s, w, isLeft, x)
  }

  /** Hanging a fitting point as a leaf in an empty slot keeps the tree valid. */
  lemma AttachLeaf(s: Snap, M: set<int>, w: int, isLeft: bool, n: int, x: seq<real>, dim: int)
    requires CanAttach(s, M, w, isLeft, n, x, dim)
    ensures ValidOn(Attach(s, w, Side(isLeft), n, x, dim), M + {n})
  {
    var s' := Attach(s, w, Side(isLeft), n, x, dim);
    var M' := M + {n};
    NodeFacts(s, M, w);
    assert s'.t[w] == SetChild(s.t[w], Side(isLeft), n);
    forall i | i in M'
      ensures NodeOk(s', M', i)
    {
      if i == n {
        AttachNewNode(s, M, w, isLeft, n, x, dim);
      } else {
        AttachOldNode(s, M, w, isLeft, n, x, dim, i);
      }
    }
  }

  lemma AttachNewNode(s: Snap, M: set<int>, w: int, isLeft: bool, n: int, x: seq<real>, dim: int)
    requires CanAttach(s, M, w, isLeft, n, x, dim)
    ensures NodeOk(Attach(s, w, Side(isLeft), n, x, dim), M + {n}, n)
  {
    var s' := Attach(s, w, Side(isLeft), n, x, dim);
    var M' := M + {n};
    NodeFacts(s, M, w);
    assert s'.t[w] == SetChild(s.t[w], Side(isLeft), n);
    assert s'.anc[w] == s.anc[w];
    assert s'.anc[n] == Path(s'.anc, w);
    var k0 := |s.anc[w]|;
    forall k | 0 <= k < |s'.anc[n]|
      ensures StepOk(s', n, k)
    {
      if k < k0 {
        var a, c := s.anc[w][k], Next(s.anc, w, k);
        NextIsChild(s, M, w, k);
        assert s'.anc[n][k] == a && Next(s'.anc, n, k) == c;
        assert EdgeOk(s.t, s.d, a, c, x);
        assert s'.t[a].dim == s.t[a].dim && s'.d[a] == s.d[a];
        assert s'.t[a].left == c <==> s.t[a].left == c;
      } else {
        assert s'.anc[n][k] == w && Next(s'.anc, n, k) == n;
      }
    }
  }

  lemma AttachOldNode(s: Snap, M: set<int>, w: int, isLeft: bool, n: int, x: seq<real>, dim: int, i: int)
    requires CanAttach(s, M, w, isLeft, n, x, dim)
    requires i in M
    ensures NodeOk(Attach(s, w, Side(isLeft), n, x, dim), M + {n}, i)
  {
    AttachOldLinks(s, M, w, isLeft, n, x, dim, i);
    AttachOldSteps(s, M, w, isLeft, n, x, dim, i);
  }

  lemma AttachOldLinks(s: Snap, M: set<int>, w: int, isLeft: bool, n: int, x: seq<real>, dim: int, i: int)
    requires CanAttach(s, M, w, isLeft, n, x, dim)
    requires i in M
    ensures NodeLinks(Attach(s, w, Side(isLeft), n, x, dim), M + {n}, i)
  {
    var s' := Attach(s, w, Side(isLeft), n, x, dim);
    var M' := M + {n};
    NodeFacts(s, M, i);
    var t, t' := s.t, s'.t;
    var ti := t[i];
    var ti' := if i == w then SetChild(ti, Side(isLeft), n) else ti;
    assert t'[i] == ti';
    assert s'.anc[i] == s.anc[i];
    assert ti'.dim == ti.dim && ti'.parent == ti.parent;
    assert ti'.left == ti.left || (i == w && ti'.left == n && ti.left == -1);
    assert ti'.right == ti.right || (i == w && ti'.right == n && ti.right == -1);
    if ti'.left != -1 {
      var l := ti'.left;
      if l != n {
        NodeFacts(s, M, l);
        assert t'[l].parent == t[l].parent;
      }
      assert t'[l].parent == i;
      assert l != ti'.right;
    }
    if ti'.right != -1 {
      var r := ti'.right;
      if r != n {
        NodeFacts(s, M, r);
        assert t'[r].parent == t[r].parent;
      }
      assert t'[r].parent == i;
    }
    if ti.parent != -1 {
      var p := ti.parent;
      assert s'.anc[p] == s.anc[p];
      var tp' := if p == w then SetChild(t[w], Side(isLeft), n) else t[p];
      assert t'[p] == tp';
      assert tp'.left == i || tp'.right == i;
      assert s'.anc[i] == Path(s'.anc, p);
    }
    assert LinkIn(M', ti'.left) && LinkIn(M', ti'.right) && LinkIn(M', ti'.parent);
  }

  lemma AttachOldSteps(s: Snap, M: set<int>, w: int, isLeft: bool, n: int, x: seq<real>, dim: int, i: int)
    requires CanAttach(s, M, w, isLeft, n, x, dim)
    requires i in M
    ensures NodeSteps(Attach(s, w, Side(isLeft), n, x, dim), i)
  {
    var s' := Attach(s, w, Side(isLeft), n, x, dim);
    NodeFacts(s, M, i);
    NodeFacts(s, M, w);
    assert s'.t[w] == SetChild(s.t[w], Side(isLeft), n);
    assert s'.anc[i] == s.anc[i];
    forall k | 0 <= k < |s'.anc[i]|
      ensures StepOk(s', i, k)
    {
      var a, c := s.anc[i][k], Next(s.anc, i, k);
      NextIsChild(s, M, i, k);
      assert StepOk(s, i, k);
      assert s'.t[a].dim == s.t[a].dim && s'.d[a] == s.d[a];
      assert s'.t[a].left == c <==> s.t[a].left == c;
    }
  }

  /** Hanging a leaf changes no other node's ancestor path and no test a
      point must pass to fit below an existing node. */
  lemma AttachKeepsFits(s: Snap, M: set<int>, w: int, isLeft: bool, n: int, x: seq<real>, dim: int,
                        u: int, b: bool, y: seq<real>)
    requires CanAttach(s, M, w, isLeft, n, x, dim)
    requires u in M
    ensures FitsBelow(Attach(s, w, Side(isLeft), n, x, dim), u, b, y) == FitsBelow(s, u, b, y)
  {
    var s' := Attach(s, w, Side(isLeft), n, x, dim);
    NodeFacts(s, M, u);
    NodeFacts(s, M, w);
    assert s'.t[w] == SetChild(s.t[w], Side(isLeft), n);
    assert s'.anc[u] == s.anc[u];
    forall k | 0 <= k < |s.anc[u]|
      ensures EdgeOk(s'.t, s'.d, s.anc[u][k], Next(s.anc, u, k), y)
          == EdgeOk(s.t, s.d, s.anc[u][k], Next(s.anc, u, k), y)
    {
      var a, c := s.anc[u][k], Next(s.anc, u, k);
      NextIsChild(s, M, u, k);
      assert s'.t[a].dim == s.t[a].dim && s'.d[a] == s.d[a];
      assert s'.t[a].left == c <==> s.t[a].left == c;
    }
  }

  /** The rows of X in t keep the split dimension, the parent and every
      child they have in u: at most their empty slots were filled. */
  ghost predicate KeepsLinks(t: seq<Node>, u: seq<Node>, X: set<int>)
  {
    forall j :: j in X ==>
      && 0 <= j < |t| && 0 <= j < |u| && t[j].dim == u[j].dim && t[j].parent == u[j].parent
      && (u[j].left != -1 ==> t[j].left == u[j].left)
      && (u[j].right != -1 ==> t[j].right == u[j].right)
  }

  /** Node x hangs below its parent in the slot its own point selects
      there, and splits on the dimension after its parent's. */
  ghost predicate Hung(s: Snap, x: int)
  {
    && 0 <= x < |s.t| && x < |s.d|
    && var p := s.t[x].parent;
       && 0 <= p < |s.t| && p < |s.d| && 0 <= s.t[p].dim < s.dims
       && Child(s.t[p], Side(GoesLeft(s, p, s.d[x]))) == x
       && s.t[x].dim == NextDim(s.t[p].dim, s.dims)
  }

  /** Hanging row n's own point in w's slot on its side, on the dimension
      after w's, fills one empty slot, keeps every other link and leaves n
      hung below w. */
  lemma AttachHangs(s: Snap, M: set<int>, w: int, n: int, dim: int)
    requires ValidOn(s, M) && w in M && 0 <= n < |s.t|
    requires CanAttach(s, M, w, GoesLeft(s, w, s.d[n]), n, s.d[n], dim)
    requires dim == NextDim(s.t[w].dim, s.dims)
    ensures var s' := Attach(s, w, Side(GoesLeft(s, w, s.d[n])), n, s.d[n], dim);
            KeepsLinks(s'.t, s.t, M) && Hung(s', n)
  {
    var s' := Attach(s, w, Side(GoesLeft(s, w, s.d[n])), n, s.d[n], dim);
    assert s'.t[w] == SetChild(s.t[w], Side(GoesLeft(s, w, s.d[n])), n);
    assert s'.d == s.d;
    assert GoesLeft(s', w, s'.d[n]) == GoesLeft(s, w, s.d[n]);
  }

  /** Keeping the links of M keeps every hung node of X inside M hung. */
  lemma HungKept(s: Snap, s': Snap, M: set<int>, X: set<int>)
    requires ValidOn(s, M) && X <= M && KeepsLinks(s'.t, s.t, M)
    requires |s'.t| == |s.t| && s'.d == s.d && s'.dims == s.dims
    requires forall y :: y in X ==> Hung(s, y)
    ensures forall y :: y in X ==> Hung(s', y)
  {
    forall y | y in X
      ensures Hung(s', y)
    {
      NodeFacts(s, M, y);
      var p := s.t[y].parent;
      assert p in M;
      assert GoesLeft(s', p, s'.d[y]) == GoesLeft(s, p, s.d[y]);
    }
  }

  // ---------------------------------------------------------------------
  // Re-inserting a detached subtree

  /** The table after the detached row x is re-inserted: its point walks
      down from the root, and x is hung as a leaf in the empty slot where
      the walk ends, splitting on the dimension after that node's. */
  ghost function Reinsert(s: Snap, M: set<int>, x: int): (r: Snap)
    requires ValidOn(s, M) && 0 <= x < |s.t| && x !in M
    ensures ValidOn(r, M + {x}) && KeepsLinks(r.t, s.t, M) && Hung(r, x)
    ensures |r.t| == |s.t| && r.d == s.d && r.dims == s.dims && r.root == s.root
  {
    RootFits(s, M, s.d[x]);
    var w := Walk(s, M, s.root, s.d[x]);
    var dim := NextDim(s.t[w].dim, s.dims);
    AttachLeaf(s, M, w, GoesLeft(s, w, s.d[x]), x, s.d[x], dim);
    AttachHangs(s, M, w, x, dim);
    assert s.d[x := s.d[x]] == s.d;
    Attach(s, w, Side(GoesLeft(s, w, s.d[x])), x, s.d[x], dim)
  }

  /** The table after every node of r's subtree in s0 is re-inserted into
      the tree on M in post-order: the left subtree first, then the right
      one, then r itself. The tree keeps all its links, and every
      re-inserted node ends up hung in the slot its point selects. */
  ghost function Reinserted(s: Snap, M: set<int>, s0: Snap, M0: set<int>, r: int): (u: Snap)
    requires ValidOn(s, M) && ValidOn(s0, M0) && |s0.t| == |s.t| && r in M0 && Sub(s0, M0, r) !! M
    ensures ValidOn(u, M + Sub(s0, M0, r)) && KeepsLinks(u.t, s.t, M)
    ensures forall y :: y in Sub(s0, M0, r) ==> Hung(u, y)
    ensures |u.t| == |s.t| && u.d == s.d && u.dims == s.dims && u.root == s.root
    decreases Sub(s0, M0, r), 1
  {
    SubSplit(s0, M0, r);
    SubParts(s0, M0, r, M);
    var B1, B2 := Below(s0, M0, r, 1), Below(s0, M0, r, 2);
    var s1 := ReinsertedSide(s, M, s0, M0, r, 1);
    var s2 := ReinsertedSide(s1, M + B1, s0, M0, r, 2);
    HungKept(s1, s2, M + B1, B1);
    var u := Reinsert(s2, M + B1 + B2, r);
    HungKept(s2, u, M + B1 + B2, B1 + B2);
    u
  }

  /** Reinserted, one step at a time: the left subtree, then the right
      subtree, then r. */
  lemma ReinsertedSteps(s: Snap, M: set<int>, s0: Snap, M0: set<int>, r: int)
    requires ValidOn(s, M) && ValidOn(s0, M0) && |s0.t| == |s.t| && r in M0 && Sub(s0, M0, r) !! M
    ensures var B1, B2 := Below(s0, M0, r, 1), Below(s0, M0, r, 2);
            && B1 !! M && B2 !! M + B1 && r !in M + B1 + B2
            && var s1 := ReinsertedSide(s, M, s0, M0, r, 1);
               var s2 := ReinsertedSide(s1, M + B1, s0, M0, r, 2);
               Reinserted(s, M, s0, M0, r) == Reinsert(s2, M + B1 + B2, r)
  {
    SubSplit(s0, M0, r);
  }

  /** Re-inserts the subtree of s0 in slot `dir` of r, if there is one. */
  ghost function ReinsertedSide(s: Snap, M: set<int>, s0: Snap, M0: set<int>, r: int, dir: int): (u: Snap)
    requires ValidOn(s, M) && ValidOn(s0, M0) && |s0.t| == |s.t| && r in M0 && Below(s0, M0, r, dir) !! M
    ensures ValidOn(u, M + Below(s0, M0, r, dir)) && KeepsLinks(u.t, s.t, M)
    ensures forall y :: y in Below(s0, M0, r, dir) ==> Hung(u, y)
    ensures |u.t| == |s.t| && u.d == s.d && u.dims == s.dims && u.root == s.root
    decreases Sub(s0, M0, r), 0
  {
    NodeFacts(s0, M0, r);
    var c := Child(s0.t[r], dir);
    if c == -1 then
      assert M + Below(s0, M0, r, dir) == M;
      s
    else
      ChildSubSmaller(s0, M0, r, dir);
      Reinserted(s, M, s0, M0, c)
  }

  // ---------------------------------------------------------------------
  // Subtree membership

  /** A node's subtree holds every node below it on a path. */
  lemma OnPathInSub(s: Snap, M: set<int>, j: int, m: int)
    requires ValidOn(s, M) && j in M && 0 <= m <= |s.anc[j]|
    ensures Path(s.anc, j)[m] in M && j in Sub(s, M, Path(s.anc, j)[m])
  {
    PathPrefix(s, M, j, m);
  }

  /** Subtrees nest. */
  lemma SubTrans(s: Snap, M: set<int>, x: int, a: int, j: int)
    requires a in Sub(s, M, x) && j in Sub(s, M, a)
    ensures j in Sub(s, M, x)
  {
  }

  /** The parent of a node of x's subtree other than x is in that subtree. */
  lemma ParentInSub(s: Snap, M: set<int>, x: int, j: int)
    requires ValidOn(s, M) && j in Sub(s, M, x) && j != x
    ensures s.t[j].parent != -1 && s.t[j].parent in Sub(s, M, x)
  {
    NodeFacts(s, M, j);
    var px, pj := Path(s.anc, x), Path(s.anc, j);
    assert pj[|pj| - 1] == j && px[|px| - 1] == x;
    assert |px| < |pj|;
    RootOnly(s, M, j);
    var p := s.t[j].parent;
    assert pj == Path(s.anc, p) + [j];
    assert px <= Path(s.anc, p);
  }

  /** The children of a node of x's subtree are in that subtree. */
  lemma ChildInSub(s: Snap, M: set<int>, x: int, j: int, c: int)
    requires ValidOn(s, M) && j in Sub(s, M, x)
    requires c != -1 && (c == s.t[j].left || c == s.t[j].right)
    ensures c in Sub(s, M, x)
  {
    ChildPath(s, M, j, c);
  }

  /** A node outside x's subtree has no node of it on its path. */
  lemma OffSubPath(s: Snap, M: set<int>, x: int, j: int, m: int)
    requires ValidOn(s, M) && j in M && j !in Sub(s, M, x) && 0 <= m <= |s.anc[j]|
    ensures Path(s.anc, j)[m] !in Sub(s, M, x)
  {
    OnPathInSub(s, M, j, m);
    if Path(s.anc, j)[m] in Sub(s, M, x) {
      SubTrans(s, M, x, Path(s.anc, j)[m], j);
    }
  }

  /** A node's parent is not in its subtree. */
  lemma ParentOutsideSub(s: Snap, M: set<int>, x: int)
    requires ValidOn(s, M) && x in M && s.t[x].parent != -1
    ensures s.t[x].parent !in Sub(s, M, x)
  {
    NodeFacts(s, M, x);
    var p := s.t[x].parent;
    assert |Path(s.anc, p)| < |Path(s.anc, x)|;
  }

  // ---------------------------------------------------------------------
  // The descent of a point

  /** x goes to w's left side: it is strictly below w in w's split dimension. */
  ghost predicate GoesLeft(s: Snap, w: int, x: seq<real>)
    requires 0 <= w < |s.t| && w < |s.d|
  {
    0 <= s.t[w].dim < |x| && s.t[w].dim < |s.d[w]| && x[s.t[w].dim] < s.d[w][s.t[w].dim]
  }

  /** The node reached by walking x down from w, always to x's side, until
      that side is empty. */
  ghost function Walk(s: Snap, M: set<int>, w: int, x: seq<real>): (r: int)
    requires ValidOn(s, M) && w in M && |x| == s.dims
    ensures r in Sub(s, M, w) && r in M
    ensures Child(s.t[r], Side(GoesLeft(s, r, x))) == -1
    ensures FitsPath(s, w, x) ==> FitsBelow(s, r, GoesLeft(s, r, x), x)
    decreases Sub(s, M, w)
  {
    NodeFacts(s, M, w);
    SubSplit(s, M, w);
    var dir := Side(GoesLeft(s, w, x));
    var c := Child(s.t[w], dir);
    if c == -1 then w
    else
      ChildSubSmaller(s, M, w, dir);
      FitsPathChild(s, M, w, c, x);
      assert c == s.t[w].left <==> GoesLeft(s, w, x);
      var r := Walk(s, M, c, x);
      SubTrans(s, M, w, c, r);
      r
  }

  /** Two one-dimensional points: row 1 (at 1.0) is the root, row 0 (at
      0.0) its left child, and the root's right slot is empty. */
  function OneSided(): Snap
  {
    Snap([Node(0, -1, -1, 1), Node(0, 0, -1, -1)], [[0.0], [1.0]], [[1], []], 1, 1)
  }

  /** In the valid tree OneSided, the point 2.0 goes to the root's empty
      right slot, and the walk from the root ends at the root itself. */
  lemma OneSidedWalk()
    ensures Valid(OneSided())
    ensures Child(OneSided().t[1], Side(GoesLeft(OneSided(), 1, [2.0]))) == -1
    ensures Walk(OneSided(), All(2), 1, [2.0]) == 1
  {
    var s := OneSided();
    assert All(2) == {0, 1} by {
      assert InRange(2, 0) && InRange(2, 1);
    }
    assert Next(s.anc, 0, 0) == 0;
    assert StepOk(s, 0, 0);
    assert NodeOk(s, All(2), 0);
    assert NodeOk(s, All(2), 1);
    ValidIntro(s);
  }

  /** A walk from the root passes every test on its way. */
  lemma RootFits(s: Snap, M: set<int>, x: seq<real>)
    requires ValidOn(s, M)
    ensures FitsPath(s, s.root, x)
  {
    NodeFacts(s, M, s.root);
  }

  // ---------------------------------------------------------------------
  // Growing the table

  /** Appending a row that is not (yet) in the tree keeps the tree valid. */
  lemma ExtendValid(s: Snap, M: set<int>, n: Node, y: seq<real>, p: seq<int>)
    requires ValidOn(s, M) && |y| == s.dims
    ensures ValidOn(Snap(s.t + [n], s.d + [y], s.anc + [p], s.dims, s.root), M)
  {
    var s' := Snap(s.t + [n], s.d + [y], s.anc + [p], s.dims, s.root);
    forall i | i in M
      ensures NodeOk(s', M, i)
    {
      NodeFacts(s, M, i);
      var ti := s.t[i];
      assert s'.t[i] == ti && s'.anc[i] == s.anc[i];
      if ti.left != -1 { NodeFacts(s, M, ti.left); assert s'.t[ti.left] == s.t[ti.left]; }
      if ti.right != -1 { NodeFacts(s, M, ti.right); assert s'.t[ti.right] == s.t[ti.right]; }
      if ti.parent != -1 {
        NodeFacts(s, M, ti.parent);
        assert s'.t[ti.parent] == s.t[ti.parent] && s'.anc[ti.parent] == s.anc[ti.parent];
      }
      forall k | 0 <= k < |s'.anc[i]|
        ensures StepOk(s', i, k)
      {
        assert StepOk(s, i, k);
        NextIsChild(s, M, i, k);
        var a := s.anc[i][k];
        assert s'.t[a] == s.t[a] && s'.d[a] == s.d[a] && s'.d[i] == s.d[i];
      }
    }
  }

  /** The split dimension of a node hung below a node splitting on `dim`:
      the next dimension, wrapping to 0 after the last. */
  function NextDim(dim: int, dims: int): (r: int)
    requires 0 <= dim < dims
    ensures 0 <= r < dims && (r == 0 || r == dim + 1)
  {
    if dim + 1 == dims then 0 else dim + 1
  }

  /** Appending a row keeps every fitting test of the existing nodes. */
  lemma ExtendFits(s: Snap, M: set<int>, n: Node, y: seq<real>, p: seq<int>, w: int, b: bool, x: seq<real>)
    requires ValidOn(s, M) && w in M
    ensures var s' := Snap(s.t + [n], s.d + [y], s.anc + [p], s.dims, s.root);
            FitsBelow(s', w, b, x) == FitsBelow(s, w, b, x)
  {
    var s' := Snap(s.t + [n], s.d + [y], s.anc + [p], s.dims, s.root);
    NodeFacts(s, M, w);
    assert s'.anc[w] == s.anc[w] && s'.t[w] == s.t[w] && s'.d[w] == s.d[w];
    forall k | 0 <= k < |s.anc[w]|
      ensures EdgeOk(s'.t, s'.d, s.anc[w][k], Next(s.anc, w, k), x)
          == EdgeOk(s.t, s.d, s.anc[w][k], Next(s.anc, w, k), x)
    {
      NextIsChild(s, M, w, k);
      var a := s.anc[w][k];
      assert s'.t[a] == s.t[a] && s'.d[a] == s.d[a];
    }
  }
}
