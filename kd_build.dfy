/** Facts for building the k-d tree top-down: each node is hung as a leaf
    below its parent, so the tree is valid after every step, and the
    coordinate spread that chooses a node's split dimension. */
module KdBuild {
  import opened KdSpec

  /** The members of a sequence of indices. */
  ghost function Elems(s: seq<int>): set<int>
  {
    set x | x in s
  }

  /** A sequence's members are those before, at and after position j. */
  lemma ElemsSplit(s: seq<int>, j: int)
    requires 0 <= j < |s|
    ensures Elems(s) == Elems(s[..j]) + {s[j]} + Elems(s[j + 1..])
  {
    assert s == s[..j] + [s[j]] + s[j + 1..];
    forall x | x in Elems(s)
      ensures x in Elems(s[..j]) + {s[j]} + Elems(s[j + 1..])
    {
      var k :| 0 <= k < |s| && s[k] == x;
      if k < j { assert s[..j][k] == x; }
      else if k > j { assert s[j + 1..][k - j - 1] == x; }
    }
  }

  /** Adding a member of order and then all of order adds the same as
      adding all of use, when both hold the same members. */
  lemma ElemsJoin(M: set<int>, order: seq<int>, use: seq<int>, j: int)
    requires Elems(order) == Elems(use) && 0 <= j < |order|
    ensures M + {order[j]} + Elems(order) == M + Elems(use)
  {
    assert order[j] in Elems(order);
  }

  /** A root without children, alone in the tree, is a valid tree. */
  lemma SingleValid(s: Snap, n: int)
    requires Sized(s) && s.root == n && 0 <= n < |s.t| && s.anc[n] == []
    requires s.t[n].left == -1 && s.t[n].right == -1 && s.t[n].parent == -1
    requires 0 <= s.t[n].dim < s.dims
    ensures ValidOn(s, {n})
  {
    assert NodeOk(s, {n}, n);
  }

  /** A point that fits below w on n's side fits below n, once n is hung
      there, on the side its coordinate in n's split dimension picks. */
  lemma PlaceFits(s: Snap, M: set<int>, w: int, isLeft: bool, n: int, dim: int, y: seq<real>, b: bool)
    requires 0 <= n < |s.d|
    requires CanAttach(s, M, w, isLeft, n, s.d[n], dim)
    requires FitsBelow(s, w, isLeft, y) && |y| == s.dims
    requires b <==> y[dim] < s.d[n][dim]
    ensures FitsBelow(Attach(s, w, Side(isLeft), n, s.d[n], dim), n, b, y)
  {
    var s1 := Attach(s, w, Side(isLeft), n, s.d[n], dim);
    AttachLeaf(s, M, w, isLeft, n, s.d[n], dim);
    NodeFacts(s, M, w);
    assert s1.t[w] == SetChild(s.t[w], Side(isLeft), n);
    assert n == s1.t[w].left <==> isLeft;
    FitsPathChild(s1, M + {n}, w, n, y);
    AttachKeepsFits(s, M, w, isLeft, n, s.d[n], dim, w, isLeft, y);
  }

  /** Whether a point fits below w depends only on w's split dimension, its
      ancestor path and the rows on it: changing rows outside the tree, and
      w's own links, changes no fitting test at w. */
  lemma FitsFrame(s: Snap, s': Snap, M: set<int>, w: int, U: set<int>)
    requires ValidOn(s, M) && w in M && U !! M
    requires |s'.t| == |s.t| && s'.d == s.d && |s'.anc| == |s.anc| && s'.anc[w] == s.anc[w]
    requires AgreeOff(s'.t, s.t, U + {w}) && s'.t[w].dim == s.t[w].dim
    ensures forall b: bool, y: seq<real> :: FitsBelow(s', w, b, y) == FitsBelow(s, w, b, y)
  {
    forall k | 0 <= k < |s.anc[w]|
      ensures 0 <= s.anc[w][k] < |s.t| && s'.t[s.anc[w][k]] == s.t[s.anc[w][k]]
    {
      PathPrefix(s, M, w, k);
    }
  }

  // ---------------------------------------------------------------------
  // One step of the build

  /** x is a row of s outside the tree M, without children. */
  ghost predicate Fresh(s: Snap, x: int, M: set<int>)
  {
    0 <= x < |s.t| && x !in M && s.t[x].left == -1 && s.t[x].right == -1
  }

  /** What building the subtree of the points `use` in slot `dir` of
      `parent` needs: the points are distinct fresh rows; below a parent
      they all fit in its empty slot `dir`; without one the tree is empty. */
  ghost predicate BuildOn(s: Snap, use: seq<int>, parent: int, dir: int, M: set<int>)
  {
    && Distinct(use) && |s.t| == |s.d| == |s.anc|
    && (forall x :: x in use ==> Fresh(s, x, M))
    && (parent == -1 ==> M == {} && Sized(s))
    && (parent != -1 ==>
          && ValidOn(s, M) && parent in M && (dir == 1 || dir == 2) && Child(s.t[parent], dir) == -1
          && forall x :: x in use ==> FitsBelow(s, parent, dir == 1, s.d[x]))
  }

  /** The indices 0..n-1 in order are distinct and are all of them. */
  lemma IotaElems(inn: seq<int>, n: int)
    requires |inn| == n && forall k :: 0 <= k < n ==> inn[k] == k
    ensures Distinct(inn) && Elems(inn) == All(n)
  {
    forall x
      ensures x in Elems(inn) <==> x in All(n)
    {
      if 0 <= x < n { assert inn[x] == x; }
    }
  }

  /** A table of blank rows is ready to be built over all of its points. */
  lemma StartOn(s: Snap, inn: seq<int>)
    requires Sized(s) && |inn| == |s.t| && forall k :: 0 <= k < |inn| ==> inn[k] == k
    requires forall i :: 0 <= i < |s.t| ==> s.t[i] == Blank
    ensures BuildOn(s, inn, -1, -1, {})
  {
    IotaElems(inn, |s.t|);
    forall x | x in inn
      ensures Fresh(s, x, {})
    {
      var k :| 0 <= k < |inn| && inn[k] == x;
    }
  }

  /** The rows a build starts from are sized, and so are its points. */
  lemma BuildRows(s: Snap, use: seq<int>, parent: int, dir: int, M: set<int>)
    requires BuildOn(s, use, parent, dir, M)
    ensures Sized(s) && (parent != -1 ==> 0 <= parent < |s.t| && 0 <= s.t[parent].dim < s.dims)
    ensures forall k :: 0 <= k < |use| ==> 0 <= use[k] < |s.t| && |s.d[use[k]]| == s.dims
  {
    assert forall k :: 0 <= k < |use| ==> Fresh(s, use[k], M);
  }

  /** The rows after `daughter` takes slot `dir` of `parent` (when there is
      a parent) with split dimension idim. */
  function Linked(t: seq<Node>, daughter: int, parent: int, dir: int, idim: int): (r: seq<Node>)
    requires 0 <= daughter < |t| && -1 <= parent < |t| && parent != daughter
    ensures |r| == |t| && AgreeOff(r, t, {daughter, parent})
    ensures r[daughter] == t[daughter].(dim := idim, parent := parent)
    ensures parent != -1 ==> r[parent] == SetChild(t[parent], dir, daughter)
  {
    var t1 := if parent >= 0 then t[parent := SetChild(t[parent], dir, daughter)] else t;
    t1[daughter := t1[daughter].(dim := idim, parent := parent)]
  }

  /** The table state after that step: `daughter`'s path is its parent's
      path extended by the parent, or empty when it is the root. */
  ghost function LinkedSnap(s: Snap, daughter: int, parent: int, dir: int, idim: int, root: int): Snap
    requires 0 <= daughter < |s.t| && -1 <= parent < |s.t| && parent != daughter && |s.t| == |s.anc|
  {
    Snap(Linked(s.t, daughter, parent, dir, idim), s.d,
         s.anc[daughter := if parent == -1 then [] else Path(s.anc, parent)], s.dims, root)
  }

  /** Linking one of the points keeps the tree valid with that point added
      (as the root when there is no parent); the other points stay fresh
      and each fits below it on the side its coordinate in idim picks. */
  lemma LinkValid(s: Snap, use: seq<int>, parent: int, dir: int, M: set<int>, daughter: int, idim: int)
    requires BuildOn(s, use, parent, dir, M) && daughter in use && 0 <= idim < s.dims
    ensures var r := if parent == -1 then daughter else s.root;
            var s' := LinkedSnap(s, daughter, parent, dir, idim, r);
            && ValidOn(s', M + {daughter}) && s'.t[daughter] == Node(idim, -1, -1, parent)
            && (forall x :: x in use && x != daughter ==> Fresh(s', x, M + {daughter}))
            && forall x :: x in use ==> FitsBelow(s', daughter, s.d[x][idim] < s.d[daughter][idim], s.d[x])
  {
    var r := if parent == -1 then daughter else s.root;
    var s' := LinkedSnap(s, daughter, parent, dir, idim, r);
    if parent == -1 {
      SingleValid(s', daughter);
    } else {
      assert s.d[daughter := s.d[daughter]] == s.d;
      assert Side(dir == 1) == dir;
      assert s' == Attach(s, parent, dir, daughter, s.d[daughter], idim);
      AttachLeaf(s, M, parent, dir == 1, daughter, s.d[daughter], idim);
      forall x | x in use
        ensures FitsBelow(s', daughter, s.d[x][idim] < s.d[daughter][idim], s.d[x])
      {
        PlaceFits(s, M, parent, dir == 1, daughter, idim, s.d[x], s.d[x][idim] < s.d[daughter][idim]);
      }
    }
  }

  /** Linking the last point of a part below its parent completes the part:
      the tree stays valid with the point added as a childless leaf, and
      only the point's row, the parent's slot dir and the point's path
      change. */
  lemma LinkLeaf(s: Snap, use: seq<int>, parent: int, dir: int, M: set<int>, daughter: int, idim: int)
    requires BuildOn(s, use, parent, dir, M) && |use| == 1 && daughter in use && parent != -1 && 0 <= idim < s.dims
    ensures var s' := LinkedSnap(s, daughter, parent, dir, idim, s.root);
            && ValidOn(s', M + Elems(use)) && s'.t[daughter] == Node(idim, -1, -1, parent)
            && AgreeOff(s'.t, s.t, Elems(use) + {parent}) && AgreeOff(s'.anc, s.anc, Elems(use))
            && s'.t[parent].dim == s.t[parent].dim && s'.t[parent].parent == s.t[parent].parent
            && Child(s'.t[parent], 3 - dir) == Child(s.t[parent], 3 - dir)
  {
    LinkValid(s, use, parent, dir, M, daughter, idim);
    assert use == [daughter];
    assert Elems(use) == {daughter};
  }

  /** What building the two subtrees of the pivot order[j] needs: the pivot
      is in the tree M without children, the other points are fresh, those
      before it fit in its left slot and those after it in its right. */
  ghost predicate SubtreesOn(s: Snap, order: seq<int>, j: int, M: set<int>)
  {
    && 0 <= j < |order| && Distinct(order) && ValidOn(s, M) && order[j] in M
    && s.t[order[j]].left == -1 && s.t[order[j]].right == -1
    && forall i :: 0 <= i < |order| && i != j ==>
         Fresh(s, order[i], M) && FitsBelow(s, order[j], i < j, s.d[order[i]])
  }

  /** order[j] is a pivot of the points order in dimension idim: the points
      before it lie strictly below it there, those after it at or above. */
  ghost predicate Pivoted(d: seq<seq<real>>, order: seq<int>, j: int, idim: int)
  {
    && 0 <= j < |order|
    && (forall i :: 0 <= i < |order| ==> 0 <= order[i] < |d| && 0 <= idim < |d[order[i]]|)
    && (forall i :: 0 <= i < j ==> d[order[i]][idim] < d[order[j]][idim])
    && (forall i :: j < i < |order| ==> d[order[j]][idim] <= d[order[i]][idim])
  }

  /** Once a pivot of the points is linked, the other points are ready to
      go into its two subtrees. */
  lemma PivotReady(s: Snap, use: seq<int>, parent: int, dir: int, M: set<int>, order: seq<int>, j: int, idim: int)
    requires BuildOn(s, use, parent, dir, M) && Distinct(order) && Elems(order) == Elems(use)
    requires Pivoted(s.d, order, j, idim) && idim < s.dims && order[j] in use
    ensures var r := if parent == -1 then order[j] else s.root;
            SubtreesOn(LinkedSnap(s, order[j], parent, dir, idim, r), order, j, M + {order[j]})
  {
    var daughter := order[j];
    assert daughter in Elems(use);
    LinkValid(s, use, parent, dir, M, daughter, idim);
    var r := if parent == -1 then daughter else s.root;
    var s1 := LinkedSnap(s, daughter, parent, dir, idim, r);
    forall i | 0 <= i < |order| && i != j
      ensures Fresh(s1, order[i], M + {daughter}) && FitsBelow(s1, daughter, i < j, s1.d[order[i]])
    {
      assert order[i] in Elems(use);
    }
  }

  /** The points after the pivot are ready to go into its right slot. */
  lemma RightReady(s: Snap, order: seq<int>, j: int, M: set<int>)
    requires SubtreesOn(s, order, j, M)
    ensures BuildOn(s, order[j + 1..], order[j], 2, M)
  {
    forall x | x in order[j + 1..]
      ensures Fresh(s, x, M) && FitsBelow(s, order[j], false, s.d[x])
    {
      var k :| 0 <= k < |order[j + 1..]| && order[j + 1..][k] == x;
      assert order[j + 1 + k] == x;
    }
  }

  /** Once the right subtree U is built, the points before the pivot are
      ready to go into its left slot. */
  lemma LeftReady(s: Snap, s': Snap, order: seq<int>, j: int, M: set<int>, U: set<int>)
    requires SubtreesOn(s, order, j, M) && U == Elems(order[j + 1..])
    requires ValidOn(s', M + U) && s'.d == s.d && s'.dims == s.dims
    requires |s'.t| == |s.t| && |s'.anc| == |s.anc|
    requires AgreeOff(s'.t, s.t, U + {order[j]}) && AgreeOff(s'.anc, s.anc, U)
    requires s'.t[order[j]].dim == s.t[order[j]].dim && s'.t[order[j]].left == -1
    ensures BuildOn(s', order[..j], order[j], 1, M + U)
  {
    var w := order[j];
    assert U !! M by {
      forall x | x in U
        ensures x !in M
      {
        var k :| 0 <= k < |order[j + 1..]| && order[j + 1..][k] == x;
        assert order[j + 1 + k] == x;
      }
    }
    FitsFrame(s, s', M, w, U);
    forall x | x in order[..j]
      ensures Fresh(s', x, M + U) && FitsBelow(s', w, true, s'.d[x])
    {
      var k :| 0 <= k < j && order[..j][k] == x;
      assert order[k] == x;
      var after := order[j + 1..];
      assert forall m :: 0 <= m < |after| ==> after[m] != x;
    }
  }

  // ---------------------------------------------------------------------
  // The spread of a coordinate

  /** Every point of `use` is a row of d with a coordinate i. */
  ghost predicate Columns(d: seq<seq<real>>, use: seq<int>, i: int)
  {
    forall k :: 0 <= k < |use| ==> 0 <= use[k] < |d| && 0 <= i < |d[use[k]]|
  }

  /** A prefix of the points keeps the coordinate. */
  lemma ColumnsPrefix(d: seq<seq<real>>, use: seq<int>, i: int, j: int)
    requires Columns(d, use, i) && 0 <= j <= |use|
    ensures Columns(d, use[..j], i)
  {
  }

  /** The sum of coordinate i over the points `use`. */
  function ColSum(d: seq<seq<real>>, use: seq<int>, i: int): real
    requires Columns(d, use, i)
  {
    if |use| == 0 then 0.0 else ColSum(d, use[..|use| - 1], i) + d[use[|use| - 1]][i]
  }

  /** The sum of the squares of coordinate i over the points `use`. */
  function ColSumSq(d: seq<seq<real>>, use: seq<int>, i: int): real
    requires Columns(d, use, i)
  {
    if |use| == 0 then 0.0
    else ColSumSq(d, use[..|use| - 1], i) + d[use[|use| - 1]][i] * d[use[|use| - 1]][i]
  }

  /** The spread of coordinate i over the points `use`: the mean of the
      squares less the square of the mean. */
  function Spread(d: seq<seq<real>>, use: seq<int>, i: int): real
    requires |use| >= 1 && Columns(d, use, i)
  {
    var n := |use| as real;
    var mean := ColSum(d, use, i) / n;
    ColSumSq(d, use, i) / n - mean * mean
  }
}
