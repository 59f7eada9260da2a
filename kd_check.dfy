/** The tree's self-check as values: what `testTree` accepts, stated over a
    table of rows that need not be a valid tree (its purpose is to catch
    tables that are not). */
module KdCheck {
  import opened KdSpec
  import KdSearch

  /** The table's links stay inside it (or are -1), every row splits on a
      dimension the points have, and all points have `dims` coordinates. */
  ghost predicate WellLinked(t: seq<Node>, d: seq<seq<real>>, dims: int)
  {
    && |t| == |d|
    && (forall i :: 0 <= i < |d| ==> |d[i]| == dims)
    && (forall i :: 0 <= i < |t| ==>
          && 0 <= t[i].dim < dims
          && -1 <= t[i].left < |t| && -1 <= t[i].right < |t| && -1 <= t[i].parent < |t|)
  }

  /** Following parent links from x reaches a row without a parent in
      exactly n steps. */
  ghost predicate Ends(t: seq<Node>, x: int, n: nat)
    decreases n
  {
    0 <= x < |t| && if t[x].parent < 0 then n == 0 else n > 0 && Ends(t, t[x].parent, n - 1)
  }

  /** The parent chain from row x ends. */
  ghost predicate EndsSome(t: seq<Node>, x: int)
  {
    exists n: nat :: Ends(t, x, n)
  }

  /** Every row's parent chain ends: the parent links have no cycle. */
  ghost predicate Chains(t: seq<Node>)
  {
    forall i :: 0 <= i < |t| ==> EndsSome(t, i)
  }

  /** A parent chain has one length. */
  lemma {:induction false} EndsUnique(t: seq<Node>, x: int, n: nat, m: nat)
    requires Ends(t, x, n) && Ends(t, x, m)
    ensures n == m
    decreases n
  {
    if t[x].parent >= 0 {
      EndsUnique(t, t[x].parent, n - 1, m - 1);
    }
  }

  /** The slot of p that c hangs in, as the check reads it: 1 when c is p's
      left child, 2 otherwise. */
  function DirOf(t: seq<Node>, p: int, c: int): (dir: int)
    requires 0 <= p < |t|
    ensures dir == 1 <==> t[p].left == c
    ensures dir == 1 || dir == 2
  {
    if t[p].left == c then 1 else 2
  }

  /** The point of row x lies on side `dir` of row a: strictly below a's
      coordinate in a's split dimension on the left (1), at or above it on
      the right. */
  ghost predicate SideOk(t: seq<Node>, d: seq<seq<real>>, dims: int, a: int, dir: int, x: int)
    requires WellLinked(t, d, dims) && 0 <= a < |t| && 0 <= x < |t|
  {
    var k := t[a].dim;
    if dir == 1 then d[x][k] < d[a][k] else d[a][k] <= d[x][k]
  }

  /** The point of row x lies on the correct side of a, reached from side
      `dir`, and of every row further up a's parent chain. */
  ghost predicate ChainOk(t: seq<Node>, d: seq<seq<real>>, dims: int, a: int, dir: int, x: int, n: nat)
    requires WellLinked(t, d, dims) && Ends(t, a, n) && 0 <= x < |t|
    decreases n
  {
    && SideOk(t, d, dims, a, dir, x)
    && (t[a].parent >= 0 ==> ChainOk(t, d, dims, t[a].parent, DirOf(t, t[a].parent, a), x, n - 1))
  }

  /** The row without parent at the top of x's parent chain. */
  ghost function Top(t: seq<Node>, x: int, n: nat): (r: int)
    requires Ends(t, x, n)
    ensures 0 <= r < |t| && t[r].parent < 0
    decreases n
  {
    if t[x].parent < 0 then x else Top(t, t[x].parent, n - 1)
  }

  /** What the upward walk from a reports for the point of row x: the top
      of the chain when x fits every row of it, `failure` otherwise. */
  ghost function WalkResult(t: seq<Node>, d: seq<seq<real>>, dims: int, a: int, dir: int, x: int, n: nat, failure: int): int
    requires WellLinked(t, d, dims) && Ends(t, a, n) && 0 <= x < |t|
  {
    if ChainOk(t, d, dims, a, dir, x, n) then Top(t, a, n) else failure
  }

  /** The rows without parent. */
  ghost function Roots(t: seq<Node>): set<int>
  {
    set i | 0 <= i < |t| && t[i].parent < 0
  }

  /** The rows among the first m whose parent is p. */
  ghost function ChildrenBelow(t: seq<Node>, p: int, m: int): set<int>
  {
    set j | 0 <= j < m && j < |t| && t[j].parent == p
  }

  /** Scanning one more row adds that row to the children of its parent
      and to nobody else's. */
  lemma ChildrenStep(t: seq<Node>, i: int)
    requires 0 <= i < |t|
    ensures forall p :: ChildrenBelow(t, p, i + 1) ==
              if p == t[i].parent then ChildrenBelow(t, p, i) + {i} else ChildrenBelow(t, p, i)
    ensures forall p :: |ChildrenBelow(t, p, i + 1)| ==
              if p == t[i].parent then |ChildrenBelow(t, p, i)| + 1 else |ChildrenBelow(t, p, i)|
  {
    forall p ensures ChildrenBelow(t, p, i + 1) ==
              if p == t[i].parent then ChildrenBelow(t, p, i) + {i} else ChildrenBelow(t, p, i)
    {
    }
    forall p ensures |ChildrenBelow(t, p, i + 1)| ==
              if p == t[i].parent then |ChildrenBelow(t, p, i)| + 1 else |ChildrenBelow(t, p, i)|
    {
      assert i !in ChildrenBelow(t, p, i);
    }
  }

  /** What the self-check accepts: exactly one row without parent, no row
      is the parent of more than two rows, and the walk up from the parent
      of every other row reports the master parent mp. */
  ghost predicate Checks(t: seq<Node>, d: seq<seq<real>>, dims: int, mp: int, failure: int)
    requires WellLinked(t, d, dims)
  {
    && |Roots(t)| == 1
    && (forall p :: 0 <= p < |t| ==> |ChildrenBelow(t, p, |t|)| <= 2)
    && (forall i, n: nat :: 0 <= i < |t| && t[i].parent >= 0 && Ends(t, t[i].parent, n) ==>
          WalkResult(t, d, dims, t[i].parent, DirOf(t, t[i].parent, i), i, n, failure) == mp)
  }

  /** With exactly one row without parent, a table of two or more rows has
      a row with a parent. */
  lemma OneRootHasChild(t: seq<Node>)
    requires |t| >= 2 && |Roots(t)| == 1
    ensures exists k :: 0 <= k < |t| && t[k].parent >= 0
  {
    if forall k :: 0 <= k < |t| ==> t[k].parent < 0 {
      assert {0, 1} <= Roots(t);
      assert |{0, 1}| == 2;
      KdSearch.SubsetCard({0, 1}, Roots(t));
    }
  }

  // ---------------------------------------------------------------------
  // A valid tree passes the check

  /** In a valid tree the parent chain of every node ends at the root after
      as many steps as the node has ancestors. */
  lemma {:induction false} ValidEnds(s: Snap, x: int)
    requires Valid(s) && 0 <= x < |s.t|
    ensures Ends(s.t, x, |s.anc[x]|) && Top(s.t, x, |s.anc[x]|) == s.root
    decreases |s.anc[x]|
  {
    assert InRange(|s.t|, x);
    NodeFacts(s, All(|s.t|), x);
    var p := s.t[x].parent;
    if p != -1 {
      assert InRange(|s.t|, p);
      NodeFacts(s, All(|s.t|), p);
      ValidEnds(s, p);
    }
  }

  /** In a valid tree, the point of x fits the chain from its k-th ancestor
      a upwards, reached from the side of a that leads to x. */
  lemma {:induction false} ValidChain(s: Snap, x: int, k: int)
    requires Valid(s) && 0 <= x < |s.t| && 0 <= k < |s.anc[x]|
    ensures var a := s.anc[x][k];
            && 0 <= a < |s.t| && Ends(s.t, a, k) && WellLinked(s.t, s.d, s.dims)
            && ChainOk(s.t, s.d, s.dims, a, DirOf(s.t, a, Next(s.anc, x, k)), x, k)
    decreases k
  {
    var M := All(|s.t|);
    assert InRange(|s.t|, x);
    ValidLinked(s);
    PathPrefix(s, M, x, k);
    var a := s.anc[x][k];
    assert Path(s.anc, x)[k] == a;
    NodeFacts(s, M, x);
    NodeFacts(s, M, a);
    ValidEnds(s, a);
    assert |s.anc[a]| == k;
    assert StepOk(s, x, k);
    NextIsChild(s, M, x, k);
    if k > 0 {
      ValidChain(s, x, k - 1);
      PathPrefix(s, M, x, k - 1);
      assert s.t[a].parent == s.anc[x][k - 1];
      assert Next(s.anc, x, k - 1) == a;
    } else {
      RootOnly(s, M, a);
    }
  }

  /** A valid table is linked. */
  lemma ValidLinked(s: Snap)
    requires Valid(s)
    ensures WellLinked(s.t, s.d, s.dims)
  {
  }

  /** A valid tree meets the self-check's assumptions and passes it,
      whatever value the walk reports on failure. */
  lemma ValidChecks(s: Snap, failure: int)
    requires Valid(s)
    ensures WellLinked(s.t, s.d, s.dims) && Chains(s.t)
    ensures Checks(s.t, s.d, s.dims, s.root, failure)
  {
    var t, M := s.t, All(|s.t|);
    ValidLinked(s);
    forall i | 0 <= i < |t|
      ensures EndsSome(t, i)
    {
      ValidEnds(s, i);
    }
    assert Roots(t) == {s.root} by {
      forall i | i in Roots(t) ensures i == s.root
      {
        assert InRange(|t|, i);
        NodeFacts(s, M, i);
      }
      assert InRange(|t|, s.root);
      NodeFacts(s, M, s.root);
    }
    forall p | 0 <= p < |t|
      ensures |ChildrenBelow(t, p, |t|)| <= 2
    {
      var C := ChildrenBelow(t, p, |t|);
      forall j | j in C ensures j in {t[p].left, t[p].right}
      {
        assert InRange(|t|, j);
        NodeFacts(s, M, j);
      }
      assert C <= {t[p].left, t[p].right};
      PairCard(C, t[p].left, t[p].right);
    }
    forall i, n: nat | 0 <= i < |t| && t[i].parent >= 0 && Ends(t, t[i].parent, n)
      ensures WalkResult(t, s.d, s.dims, t[i].parent, DirOf(t, t[i].parent, i), i, n, failure) == s.root
    {
      WalkFromParent(s, i, n);
    }
  }

  /** A set inside {a, b} has at most two elements. */
  lemma PairCard(C: set<int>, a: int, b: int)
    requires C <= {a, b}
    ensures |C| <= 2
  {
    if a in C && b in C {
      assert C == {a, b};
    } else if a in C {
      assert C == {a};
    } else if b in C {
      assert C == {b};
    } else {
      assert C == {};
    }
  }

  /** The walk up from the parent of a non-root node of a valid tree
      reports the root. */
  lemma WalkFromParent(s: Snap, i: int, n: nat)
    requires Valid(s) && 0 <= i < |s.t| && s.t[i].parent >= 0 && Ends(s.t, s.t[i].parent, n)
    ensures WellLinked(s.t, s.d, s.dims)
    ensures forall failure :: WalkResult(s.t, s.d, s.dims, s.t[i].parent, DirOf(s.t, s.t[i].parent, i), i, n, failure) == s.root
  {
    var M := All(|s.t|);
    assert InRange(|s.t|, i);
    NodeFacts(s, M, i);
    var p := s.t[i].parent;
    var k := |s.anc[i]| - 1;
    assert s.anc[i] == Path(s.anc, p);
    assert s.anc[i][k] == p && Next(s.anc, i, k) == i;
    ValidChain(s, i, k);
    EndsUnique(s.t, p, n, k);
    assert InRange(|s.t|, p);
    ValidEnds(s, p);
  }

  // ---------------------------------------------------------------------
  // The failure value of the walk

  /** A two-row table that is not a k-d tree: row 1 hangs as the left child
      of row 0 although its point lies above row 0's. */
  function Misordered(): Snap
  {
    Snap([Node(0, 1, -1, -1), Node(0, -1, -1, 0)], [[1.0], [5.0]], [[], [0]], 1, 0)
  }

  lemma MisorderedNotValid(anc: seq<seq<int>>)
    ensures var s := Misordered();
            !Valid(Snap(s.t, s.d, anc, s.dims, s.root))
  {
    var s0 := Misordered();
    var s := Snap(s0.t, s0.d, anc, s0.dims, s0.root);
    assert InRange(2, 1) && InRange(2, 0);
    assert Valid(s) ==> NodeOk(s, All(2), 0) && NodeOk(s, All(2), 1);
    assert Valid(s) ==> s.anc == [[], [0]] && StepOk(s, 1, 0);
    assert s.anc == [[], [0]] ==> !StepOk(s, 1, 0);
  }

  /** With the walk reporting 0 on failure, as the source's walk does, the
      check accepts the misordered table, whose master parent is row 0;
      with a failure value that no row can have, it rejects it. */
  lemma MisorderedAccepted()
    ensures var s := Misordered();
            && WellLinked(s.t, s.d, s.dims)
            && Checks(s.t, s.d, s.dims, s.root, 0)
            && !Checks(s.t, s.d, s.dims, s.root, -1)
            && forall anc :: !Valid(Snap(s.t, s.d, anc, s.dims, s.root))
  {
    var s := Misordered();
    var t := s.t;
    assert Roots(t) == {0} by {
      assert forall i :: i in Roots(t) ==> i == 0;
    }
    assert ChildrenBelow(t, 0, 2) == {1} by {
      assert forall j :: j in ChildrenBelow(t, 0, 2) ==> j == 1;
    }
    assert ChildrenBelow(t, 1, 2) == {} by {
      assert forall j :: j !in ChildrenBelow(t, 1, 2);
    }
    assert Ends(t, 0, 0);
    assert !SideOk(t, s.d, 1, 0, 1, 1);
    assert WalkResult(t, s.d, 1, 0, DirOf(t, 0, 1), 1, 0, -1) == -1;
    forall i, n: nat | 0 <= i < 2 && t[i].parent >= 0 && Ends(t, t[i].parent, n)
      ensures WalkResult(t, s.d, 1, t[i].parent, DirOf(t, t[i].parent, i), i, n, 0) == 0
    {
      EndsUnique(t, 0, n, 0);
    }
    forall anc
      ensures !Valid(Snap(s.t, s.d, anc, s.dims, s.root))
    {
      MisorderedNotValid(anc);
    }
  }
}
