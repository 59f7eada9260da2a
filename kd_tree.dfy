/** The k-d tree of the Gaussian-process interpolator: a table of tree rows
    and a table of points, both with room for `room` rows of which the first
    `pts` are in use, grown by `roomStep` rows when full. */
module KdTrees {
  import opened KdSpec
  import opened KdEdits
  import opened KdSearch
  import opened Sorting
  import opened KdBuild
  import opened KdCheck

  /** Squared distance between two points, summed coordinate by coordinate. */
  method Distance(p1: seq<real>, p2: seq<real>) returns (ans: real)
    requires |p1| == |p2|
    ensures ans == Dist2(p1, p2)
  {
    ans := 0.0;
    var i := 0;
    while i < |p1|
      invariant 0 <= i <= |p1| && ans == Dist2(p1[..i], p2[..i])
    {
      assert p1[..i + 1][..i] == p1[..i] && p2[..i + 1][..i] == p2[..i];
      ans := ans + (p1[i] - p2[i]) * (p1[i] - p2[i]);
      i := i + 1;
    }
    assert p1[..i] == p1 && p2[..i] == p2;
  }

  /** The first position of the run of equal keys that position m lies in. */
  function RunStart(keys: seq<real>, m: int): (k: int)
    requires 0 <= m < |keys|
    ensures 0 <= k <= m && (forall i :: k <= i <= m ==> keys[i] == keys[m])
    ensures k == 0 || keys[k - 1] != keys[m]
  {
    if m > 0 && keys[m] == keys[m - 1] then RunStart(keys, m - 1) else m
  }

  /** Where a forward scan from position l stops: the first position from l
      on whose key is not v, or the last position when every key before it
      is v. */
  function ScanEnd(keys: seq<real>, v: real, l: int): (e: int)
    requires 0 <= l < |keys|
    ensures l <= e < |keys| && (forall i :: l <= i < e ==> keys[i] == v)
    ensures e == |keys| - 1 || keys[e] != v
    decreases |keys| - l
  {
    if l < |keys| - 1 && keys[l] == v then ScanEnd(keys, v, l + 1) else l
  }

  /** The pivot position among sorted keys: with m the middle position, the
      start k of the run of keys equal to keys[m], or the position l where
      the scan for its end stops, whichever is nearer m (l on a tie), and k
      whenever that scan reaches the last key. Every key before the pivot is
      strictly smaller than the pivot's. */
  method Pivot(keys: seq<real>) returns (j: int)
    requires |keys| >= 2 && forall a, b :: 0 <= a < b < |keys| ==> keys[a] <= keys[b]
    ensures 0 <= j < |keys|
    ensures forall i :: 0 <= i < j ==> keys[i] < keys[j]
    ensures forall i :: j < i < |keys| ==> keys[j] <= keys[i]
    ensures var m := |keys| / 2;
            && (j <= m ==> keys[j] == keys[m] && (j == 0 || keys[j - 1] < keys[m]))
            && (j > m ==> keys[j - 1] == keys[m] && keys[m] < keys[j])
    ensures var m := |keys| / 2;
            var k, l := RunStart(keys, m), ScanEnd(keys, keys[m], m);
            j == if m - k < l - m || l == |keys| - 1 then k else l
  {
    var ct := |keys|;
    var k, l := ct / 2, ct / 2;
    while k > 0 && keys[k] == keys[k - 1]
      invariant 0 <= k <= ct / 2 && keys[k] == keys[ct / 2]
      invariant RunStart(keys, k) == RunStart(keys, ct / 2)
    {
      k := k - 1;
    }
    while l < ct - 1 && keys[l] == keys[ct / 2]
      invariant ct / 2 <= l <= ct - 1 && forall i :: ct / 2 <= i < l ==> keys[i] == keys[ct / 2]
      invariant ScanEnd(keys, keys[ct / 2], l) == ScanEnd(keys, keys[ct / 2], ct / 2)
    {
      l := l + 1;
    }
    if ct / 2 - k < l - ct / 2 || l == ct - 1 {
      j := k;
    } else {
      j := l;
    }
  }

  /** The candidate list of one neighbour search: the first `found` slots
      hold the points found so far, nearest first. */
  class NeighborList {
    var candidates: array<int>
    var distances: array<real>
    var found: int
    const wanted: int
    /** The points examined so far. */
    ghost var seen: set<int>

    ghost predicate Allocated()
      reads this
    {
      candidates.Length == wanted && distances.Length == wanted && wanted >= 1 && 0 <= found <= wanted
    }

    ghost function Contents(): Neighbors
      reads this, candidates, distances
    {
      Neighbors(candidates[..], distances[..], found)
    }

    constructor(n: int)
      requires n >= 1
      ensures Allocated() && wanted == n && found == 0 && seen == {}
      ensures fresh(candidates) && fresh(distances)
    {
      candidates := new int[n](_ => -1);
      distances := new real[n];
      found := 0;
      wanted := n;
      seen := {};
    }

    /** Offers the point `node` of d, not examined before, at its squared
        distance from v, and counts it as examined; the list stays exactly
        right for the points examined. */
    method Consider(v: seq<real>, d: seq<seq<real>>, node: int)
      requires Allocated() && found >= 1 && ListOk(Contents(), v, d, seen)
      requires node !in seen && 0 <= node < |d| && |d[node]| == |v|
      modifies this`found, this`seen, candidates, distances
      ensures Allocated() && found >= 1 && seen == old(seen) + {node}
      ensures ListOk(Contents(), v, d, seen)
    {
      ghost var after := KdSearch.Offer(Contents(), node, Dist2(v, d[node]));
      OfferOk(Contents(), v, d, seen, node);
      var dd := Distance(v, d[node]);
      Offer(node, dd);
      seen := seen + {node};
      assert Contents() == after;
    }

    /** Marks every distance slot empty (-1). */
    method Clear()
      requires Allocated()
      modifies distances
      ensures Allocated() && forall j :: 0 <= j < wanted ==> distances[j] == -1.0
    {
      var i := 0;
      while i < wanted
        invariant 0 <= i <= wanted && forall j :: 0 <= j < i ==> distances[j] == -1.0
      {
        distances[i] := -1.0;
        i := i + 1;
      }
    }

    /** Puts `node` at distance dd in the first slot of a cleared list. */
    method First(node: int, dd: real)
      requires Allocated() && forall j :: 1 <= j < wanted ==> distances[j] == -1.0
      modifies this`found, this`seen, candidates, distances
      ensures Allocated() && found == 1 && seen == {node}
      ensures candidates[0] == node && distances[0] == dd
      ensures forall j :: 1 <= j < wanted ==> distances[j] == -1.0
    {
      distances[0] := dd;
      candidates[0] := node;
      found := 1;
      seen := {node};
    }

    /** The pruning test: the list is not full, or the branch's gap from the
        query is not positive, or its square is at most the last entry. */
    predicate MayHold(gap: real)
      reads this, distances
      requires Allocated() && found >= 1
      ensures MayHold(gap) == MayHoldCloser(Contents(), gap)
    {
      gap <= 0.0 || gap * gap <= distances[found - 1] || found < wanted
    }

    /** Offers `node` at distance dd: when the list is not full or dd is below
        the last entry, the entries from the first one not below dd move one
        slot down (the last falls off a full list) and the node takes that slot. */
    method Offer(node: int, dd: real)
      requires Allocated()
      modifies this`found, candidates, distances
      ensures Allocated() && Contents() == KdSearch.Offer(old(Contents()), node, dd)
    {
      ghost var nb := Contents();
      if found < wanted || dd < distances[wanted - 1] {
        var j := 0;
        while j < found && distances[j] < dd
          invariant 0 <= j <= found && forall i :: 0 <= i < j ==> distances[i] < dd
        {
          j := j + 1;
        }
        var i := wanted - 1;
        while i > j
          modifies candidates, distances
          invariant j <= i <= wanted - 1
          invariant forall q :: 0 <= q <= i ==> distances[q] == nb.dists[q] && candidates[q] == nb.cands[q]
          invariant forall q :: i < q < wanted ==> distances[q] == nb.dists[q - 1] && candidates[q] == nb.cands[q - 1]
        {
          distances[i] := distances[i - 1];
          candidates[i] := candidates[i - 1];
          i := i - 1;
        }
        distances[j] := dd;
        candidates[j] := node;
        if found < wanted {
          found := found + 1;
        }
        OfferIs(nb, node, dd, j, candidates[..], distances[..], found);
      }
    }
  }

  class KdTree {
    /** Tree rows {split dimension, left child, right child, parent}. */
    var tree: array<Node>
    /** Point rows. */
    var data: array<seq<real>>
    /** Rows in use. */
    var pts: int
    /** Rows allocated. */
    var room: int
    const roomStep: int
    const dims: int
    /** The root. */
    var masterParent: int
    /** Ancestor paths of the rows in use. */
    ghost var anc: seq<seq<int>>

    /** The tables' sizes agree. */
    ghost predicate Stored()
      reads this
    {
      && tree.Length == room && data.Length == room && 0 <= pts <= room
      && |anc| == pts && roomStep == 5000
    }

    /** The rows in use, seen as a table state with the given root. */
    ghost function SnapAt(root: int): Snap
      reads this, tree, data
      requires Stored()
    {
      Snap(tree[..pts], data[..pts], anc, dims, root)
    }

    ghost function S(): Snap
      reads this, tree, data
      requires Stored()
    {
      SnapAt(masterParent)
    }

    /** The rows in use form one k-d tree holding every point. */
    ghost predicate Valid()
      reads this, tree, data
    {
      Stored() && KdSpec.Valid(S())
    }

    // -------------------------------------------------------------------
    // Construction

    /** Builds the tree over the points dt: at least two of them, all of one
        dimension of at least 1. The tables get exactly one row per point. */
    constructor(dt: seq<seq<real>>)
      requires |dt| >= 2 && |dt[0]| >= 1
      requires forall i :: 0 <= i < |dt| ==> |dt[i]| == |dt[0]|
      ensures Valid() && pts == |dt| && room == |dt| && dims == |dt[0]| && data[..pts] == dt
      ensures fresh(tree) && fresh(data)
    {
      pts := |dt|;
      dims := |dt[0]|;
      roomStep := 5000;
      room := |dt|;
      data := new seq<real>[|dt|](i requires 0 <= i < |dt| => dt[i]);
      tree := new Node[|dt|](_ => Blank);
      anc := seq(|dt|, _ => []);
      masterParent := -1;
      new;
      var inn := [];
      var i := 0;
      while i < pts
        invariant 0 <= i <= pts && |inn| == i && forall k :: 0 <= k < i ==> inn[k] == k
      {
        inn := inn + [i];
        i := i + 1;
      }
      assert data[..pts] == dt;
      assert forall k :: 0 <= k < pts ==> tree[..pts][k] == Blank;
      StartOn(SnapAt(0), inn);
      IotaElems(inn, pts);
      Organize(inn, -1, -1, 0, {});
      assert {} + Elems(inn) == All(|S().t|);
    }

    /** Builds the subtree of the points `use` in slot `dir` of `parent`,
        or the whole tree when there is no parent (then from at least two
        points): every point of `use` joins the tree, and nothing changes
        outside `use` and the parent's slot. */
    method Organize(use: seq<int>, parent: int, dir: int, ghost root: int, ghost M: set<int>)
      requires Stored() && |use| >= 1 && (parent == -1 ==> |use| >= 2)
      requires BuildOn(SnapAt(root), use, parent, dir, M)
      modifies tree, this`anc, this`masterParent
      ensures Stored() && ValidOn(SnapAt(if parent == -1 then masterParent else root), M + Elems(use))
      ensures AgreeOff(tree[..pts], old(tree[..pts]), Elems(use) + {parent}) && AgreeOff(anc, old(anc), Elems(use))
      ensures parent != -1 ==> && tree[parent].dim == old(tree[parent].dim)
                               && tree[parent].parent == old(tree[parent].parent)
                               && Child(tree[parent], 3 - dir) == Child(old(tree[parent]), 3 - dir)
      ensures parent != -1 ==> masterParent == old(masterParent)
      decreases |use|, 4
    {
      if |use| > 1 {
        Divide(use, parent, dir, root, M);
      } else {
        Single(use, parent, dir, root, M);
      }
    }

    /** Several points: the pivot in the dimension of greatest spread takes
        the slot; the points after it go to its right, those before it to
        its left. */
    method Divide(use: seq<int>, parent: int, dir: int, ghost root: int, ghost M: set<int>)
      requires Stored() && |use| >= 2 && BuildOn(SnapAt(root), use, parent, dir, M)
      modifies tree, this`anc, this`masterParent
      ensures Stored() && ValidOn(SnapAt(if parent == -1 then masterParent else root), M + Elems(use))
      ensures AgreeOff(tree[..pts], old(tree[..pts]), Elems(use) + {parent}) && AgreeOff(anc, old(anc), Elems(use))
      ensures parent != -1 ==> && tree[parent].dim == old(tree[parent].dim)
                               && tree[parent].parent == old(tree[parent].parent)
                               && Child(tree[parent], 3 - dir) == Child(old(tree[parent]), 3 - dir)
      ensures parent != -1 ==> masterParent == old(masterParent)
      decreases |use|, 3
    {
      BuildRows(SnapAt(root), use, parent, dir, M);
      var order, j, idim := Split(use, parent);
      Settle(use, order, j, idim, parent, dir, root, M);
    }

    /** Links the pivot order[j] of the points, then builds its subtrees. */
    method Settle(use: seq<int>, order: seq<int>, j: int, idim: int, parent: int, dir: int, ghost root: int, ghost M: set<int>)
      requires Stored() && |use| >= 2 && BuildOn(SnapAt(root), use, parent, dir, M)
      requires |order| == |use| && Distinct(order) && Elems(order) == Elems(use)
      requires Pivoted(data[..pts], order, j, idim) && idim < dims
      modifies tree, this`anc, this`masterParent
      ensures Stored() && ValidOn(SnapAt(if parent == -1 then masterParent else root), M + Elems(use))
      ensures AgreeOff(tree[..pts], old(tree[..pts]), Elems(use) + {parent}) && AgreeOff(anc, old(anc), Elems(use))
      ensures parent != -1 ==> && tree[parent].dim == old(tree[parent].dim)
                               && tree[parent].parent == old(tree[parent].parent)
                               && Child(tree[parent], 3 - dir) == Child(old(tree[parent]), 3 - dir)
      ensures parent != -1 ==> masterParent == old(masterParent)
      decreases |use|, 2
    {
      ghost var s0 := SnapAt(root);
      var daughter := order[j];
      assert daughter in Elems(use);
      BuildRows(s0, use, parent, dir, M);
      Place(daughter, parent, dir, idim);
      ghost var r := if parent == -1 then daughter else root;
      ghost var s1 := SnapAt(r);
      ghost var a1 := anc;
      PivotReady(s0, use, parent, dir, M, order, j, idim);
      assert s1 == LinkedSnap(s0, daughter, parent, dir, idim, r);
      Subtrees(order, j, r, M + {daughter});
      ghost var s2 := SnapAt(r);
      ElemsJoin(M, order, use, j);
      AgreeTrans(tree[..pts], s1.t, s0.t, Elems(order), {daughter, parent}, Elems(use) + {parent});
      AgreeTrans(anc, a1, s0.anc, Elems(order), {daughter}, Elems(use));
      if parent == -1 {
        masterParent := daughter;
      }
      assert SnapAt(if parent == -1 then masterParent else root) == s2;
    }

    /** A single point: it takes the slot as a leaf splitting on the
        dimension after its parent's. */
    method Single(use: seq<int>, parent: int, dir: int, ghost root: int, ghost M: set<int>)
      requires Stored() && |use| == 1 && parent != -1 && BuildOn(SnapAt(root), use, parent, dir, M)
      modifies tree, this`anc
      ensures Stored() && ValidOn(SnapAt(root), M + Elems(use))
      ensures AgreeOff(tree[..pts], old(tree[..pts]), Elems(use) + {parent}) && AgreeOff(anc, old(anc), Elems(use))
      ensures && tree[parent].dim == old(tree[parent].dim)
              && tree[parent].parent == old(tree[parent].parent)
              && Child(tree[parent], 3 - dir) == Child(old(tree[parent]), 3 - dir)
    {
      ghost var s0 := SnapAt(root);
      BuildRows(s0, use, parent, dir, M);
      var daughter := use[0];
      var idim := NextDim(tree[parent].dim, dims);
      assert use == [daughter];
      LinkLeaf(s0, use, parent, dir, M, daughter, idim);
      ghost var s1 := LinkedSnap(s0, daughter, parent, dir, idim, root);
      Place(daughter, parent, dir, idim);
      tree[daughter] := tree[daughter].(left := -1, right := -1);
      assert tree[..pts] == s1.t;
      assert SnapAt(root) == s1;
    }

    /** Links `daughter` into slot `dir` of `parent` (when there is a
        parent) and gives it split dimension idim and its parent link. */
    method Place(daughter: int, parent: int, dir: int, idim: int)
      requires Stored() && 0 <= daughter < pts && -1 <= parent < pts && parent != daughter
      modifies tree, this`anc
      ensures Stored()
      ensures tree[..pts] == Linked(old(tree[..pts]), daughter, parent, dir, idim)
      ensures anc == old(anc)[daughter := if parent == -1 then [] else Path(old(anc), parent)]
    {
      if parent >= 0 {
        tree[parent] := SetChild(tree[parent], dir, daughter);
      }
      tree[daughter] := tree[daughter].(dim := idim, parent := parent);
      anc := anc[daughter := if parent == -1 then [] else Path(anc, parent)];
    }

    /** Builds the subtrees of the pivot order[j], already in the tree M:
        the points after it in its right slot, then those before it in its
        left slot. */
    method Subtrees(order: seq<int>, j: int, ghost r: int, ghost M: set<int>)
      requires Stored() && SubtreesOn(SnapAt(r), order, j, M)
      modifies tree, this`anc, this`masterParent
      ensures Stored() && ValidOn(SnapAt(r), M + Elems(order)) && masterParent == old(masterParent)
      ensures AgreeOff(tree[..pts], old(tree[..pts]), Elems(order)) && AgreeOff(anc, old(anc), Elems(order))
      decreases |order|, 0
    {
      var daughter := order[j];
      ghost var s1 := SnapAt(r);
      var right, left := order[j + 1..], order[..j];
      ElemsSplit(order, j);
      RightReady(s1, order, j, M);
      BuildSlot(right, daughter, 2, r, M);
      ghost var s2 := SnapAt(r);
      LeftReady(s1, s2, order, j, M, Elems(right));
      BuildSlot(left, daughter, 1, r, M + Elems(right));
      assert M + Elems(right) + Elems(left) == M + Elems(order);
      AgreeTrans(tree[..pts], s2.t, s1.t, Elems(left) + {daughter}, Elems(right) + {daughter}, Elems(order));
      AgreeTrans(anc, s2.anc, s1.anc, Elems(left), Elems(right), Elems(order));
    }

    /** Builds the subtree of the points `part` in slot `dir` of `parent`,
        or marks that slot empty when there are none. */
    method BuildSlot(part: seq<int>, parent: int, dir: int, ghost r: int, ghost M: set<int>)
      requires Stored() && parent != -1 && BuildOn(SnapAt(r), part, parent, dir, M)
      modifies tree, this`anc, this`masterParent
      ensures Stored() && ValidOn(SnapAt(r), M + Elems(part)) && masterParent == old(masterParent)
      ensures AgreeOff(tree[..pts], old(tree[..pts]), Elems(part) + {parent}) && AgreeOff(anc, old(anc), Elems(part))
      ensures tree[parent].dim == old(tree[parent].dim) && Child(tree[parent], 3 - dir) == Child(old(tree[parent]), 3 - dir)
      decreases |part|, 5
    {
      if |part| > 0 {
        Organize(part, parent, dir, r, M);
      } else {
        tree[parent] := SetChild(tree[parent], dir, -1);
        assert tree[parent] == old(tree[parent]);
        assert tree[..pts] == old(tree[..pts]) && Elems(part) == {};
        assert SnapAt(r) == old(SnapAt(r)) && M + Elems(part) == M;
      }
    }

    /** Chooses the split dimension of the points `use`, orders them by that
        coordinate and picks the pivot position j: the points before it lie
        strictly below the pivot point in that coordinate, those after it at
        or above. */
    method Split(use: seq<int>, parent: int) returns (order: seq<int>, j: int, idim: int)
      requires Stored() && |use| >= 2 && dims >= 1 && Distinct(use)
      requires forall k :: 0 <= k < |use| ==> 0 <= use[k] < pts && |data[use[k]]| == dims
      requires parent != -1 ==> 0 <= parent < pts
      ensures 0 <= idim < dims
      ensures forall i :: 0 <= i < dims ==> Spread(data[..pts], use, i) <= Spread(data[..pts], use, idim)
      ensures |order| == |use| && Distinct(order) && Elems(order) == Elems(use)
      ensures forall i :: 0 <= i < |order| ==> order[i] in use
      ensures Pivoted(data[..pts], order, j, idim)
    {
      idim := SplitDimension(use, parent);
      var keys;
      order, keys := SortByCoordinate(use, idim);
      j := Pivot(keys);
    }

    /** The points `use` ordered by their coordinate idim, with those
        coordinates. */
    method SortByCoordinate(use: seq<int>, idim: int) returns (order: seq<int>, keys: seq<real>)
      requires Stored() && Distinct(use) && 0 <= idim < dims
      requires forall k :: 0 <= k < |use| ==> 0 <= use[k] < pts && |data[use[k]]| == dims
      ensures |order| == |use| == |keys| && Distinct(order) && Elems(order) == Elems(use)
      ensures forall i :: 0 <= i < |order| ==> order[i] in use && keys[i] == data[order[i]][idim]
      ensures forall a, b :: 0 <= a < b < |keys| ==> keys[a] <= keys[b]
    {
      var toSort := [];
      var i := 0;
      while i < |use|
        invariant 0 <= i <= |use| && |toSort| == i
        invariant forall k :: 0 <= k < i ==> toSort[k] == (data[use[k]][idim], use[k])
      {
        toSort := toSort + [(data[use[i]][idim], use[i])];
        i := i + 1;
      }
      var sorted := SortByKey(toSort);
      SortDistinct(toSort);
      order, keys := Payloads(sorted), Keys(sorted);
      forall k | 0 <= k < |sorted|
        ensures sorted[k].0 == data[order[k]][idim] && order[k] in use
      {
        var m :| 0 <= m < |toSort| && toSort[m] == sorted[k];
      }
      forall x | x in use
        ensures x in order
      {
        var m :| 0 <= m < |use| && use[m] == x;
        SortKeepsPairs(toSort, toSort[m]);
        var k :| 0 <= k < |sorted| && sorted[k] == toSort[m];
        assert order[k] == x;
      }
    }

    /** The dimension in which the points `use` spread most; a tie goes to
        the earlier dimension unless the later one comes after the parent's
        split dimension. */
    method SplitDimension(use: seq<int>, parent: int) returns (idim: int)
      requires Stored() && |use| >= 1 && dims >= 1
      requires forall k :: 0 <= k < |use| ==> 0 <= use[k] < pts && |data[use[k]]| == dims
      requires parent != -1 ==> 0 <= parent < pts
      ensures 0 <= idim < dims
      ensures forall i :: 0 <= i < dims ==> Spread(data[..pts], use, i) <= Spread(data[..pts], use, idim)
      ensures forall i :: 0 <= i < idim && Spread(data[..pts], use, i) == Spread(data[..pts], use, idim) ==>
                0 <= parent && tree[parent].dim < idim
      ensures forall i :: idim < i < dims && Spread(data[..pts], use, i) == Spread(data[..pts], use, idim) ==>
                !(0 <= parent && tree[parent].dim < i)
    {
      assert forall a :: 0 <= a < dims ==> Columns(data[..pts], use, a);
      var best := 0.0;
      idim := 0;
      var i := 0;
      while i < dims
        invariant 0 <= i <= dims && 0 <= idim < dims && (i > 0 ==> idim < i)
        invariant i > 0 ==> best == Spread(data[..pts], use, idim)
        invariant forall a :: 0 <= a < i ==> Spread(data[..pts], use, a) <= best
        invariant forall a :: 0 <= a < idim && Spread(data[..pts], use, a) == best ==>
                    0 <= parent && tree[parent].dim < idim
        invariant forall a :: idim < a < i && Spread(data[..pts], use, a) == best ==>
                    !(0 <= parent && tree[parent].dim < a)
      {
        var v := ColumnSpread(use, i);
        if i == 0 || v > best || (v == best && parent >= 0 && i > tree[parent].dim) {
          idim := i;
          best := v;
        }
        i := i + 1;
      }
    }

    /** The spread of coordinate i over the points `use`. */
    method ColumnSpread(use: seq<int>, i: int) returns (v: real)
      requires Stored() && |use| >= 1 && 0 <= i < dims
      requires forall k :: 0 <= k < |use| ==> 0 <= use[k] < pts && |data[use[k]]| == dims
      ensures v == Spread(data[..pts], use, i)
    {
      assert Columns(data[..pts], use, i);
      var mean, sq := 0.0, 0.0;
      var j := 0;
      while j < |use|
        invariant 0 <= j <= |use| && Columns(data[..pts], use[..j], i)
        invariant mean == ColSum(data[..pts], use[..j], i) && sq == ColSumSq(data[..pts], use[..j], i)
      {
        var x := data[use[j]][i];
        assert use[..j + 1][..j] == use[..j];
        ColumnsPrefix(data[..pts], use, i, j + 1);
        mean := mean + x;
        sq := sq + x * x;
        j := j + 1;
      }
      assert use[..|use|] == use;
      mean := mean / |use| as real;
      v := sq / |use| as real - mean * mean;
    }

    // -------------------------------------------------------------------
    // Descent

    /** The walk of x from the master parent down to the node whose slot on
        x's side is empty; `dir` is that slot. */
    method Locate(x: seq<real>, ghost M: set<int>) returns (where: int, dir: int)
      requires Stored() && ValidOn(S(), M) && |x| == dims
      ensures where == Walk(S(), M, masterParent, x) && where in M
      ensures dir == Side(GoesLeft(S(), where, x)) && Child(tree[where], dir) == -1
    {
      ghost var s := S();
      where := masterParent;
      if x[tree[where].dim] < data[where][tree[where].dim] { dir := 1; } else { dir := 2; }
      var k := Child(tree[where], dir);
      while k >= 0
        invariant where in M && dir == Side(GoesLeft(s, where, x)) && k == Child(s.t[where], dir)
        invariant Walk(s, M, where, x) == Walk(s, M, masterParent, x)
        decreases Sub(s, M, where)
      {
        NodeFacts(s, M, where);
        ChildSubSmaller(s, M, where, dir);
        where := k;
        NodeFacts(s, M, where);
        if x[tree[where].dim] < data[where][tree[where].dim] { dir := 1; } else { dir := 2; }
        k := Child(tree[where], dir);
      }
    }

    /** The node below which v belongs: the walk from the master parent ends
        at a node of the tree whose slot on v's side is empty and below
        which v passes every ancestor's test. */
    method FindNode(v: seq<real>) returns (node: int)
      requires Valid() && |v| == dims
      ensures node == Walk(S(), All(pts), masterParent, v)
      ensures 0 <= node < pts && Child(tree[node], Side(GoesLeft(S(), node, v))) == -1
      ensures FitsBelow(S(), node, GoesLeft(S(), node, v), v)
    {
      RootFits(S(), All(pts), v);
      var dir;
      node, dir := Locate(v, All(pts));
    }

    /** The search as written: the walk starts at the master parent's child
        on v's side, so it gives -1 when that slot is empty; otherwise it
        ends where the walk from the master parent ends. */
    method FindNodeAsWritten(v: seq<real>) returns (consider: int)
      requires Valid() && |v| == dims
      ensures consider == -1 <==> Child(tree[masterParent], Side(GoesLeft(S(), masterParent, v))) == -1
      ensures consider != -1 ==> consider == Walk(S(), All(pts), masterParent, v)
    {
      ghost var s, M := S(), All(pts);
      ghost var first := Child(s.t[masterParent], Side(GoesLeft(s, masterParent, v)));
      ghost var w := Walk(s, M, masterParent, v);
      NodeFacts(s, M, masterParent);
      var dim := tree[masterParent].dim;
      if v[dim] < data[masterParent][dim] {
        consider := tree[masterParent].left;
      } else {
        consider := tree[masterParent].right;
      }
      var next := consider;
      while next >= 0
        invariant consider == -1 <==> first == -1
        invariant next != -1 ==> next in M && Walk(s, M, next, v) == w
        invariant next == -1 && consider != -1 ==> consider == w
        decreases if next == -1 then {} else Sub(s, M, next)
      {
        consider := next;
        NodeFacts(s, M, consider);
        SubSplit(s, M, consider);
        dim := tree[consider].dim;
        if v[dim] < data[consider][dim] {
          next := tree[consider].left;
        } else {
          next := tree[consider].right;
        }
        if next != -1 {
          ChildSubSmaller(s, M, consider, Side(GoesLeft(s, consider, v)));
        }
      }
    }

    // -------------------------------------------------------------------
    // Insertion

    /** Stores v as a new leaf: the tables grow by `roomStep` rows when full;
        the new row hangs in the empty slot on v's side of the node the
        descent ends at, splitting on the dimension after that node's; the
        tree stays valid. */
    method AddPoint(v: seq<real>)
      requires Valid() && |v| == dims
      modifies this, tree, data
      ensures Valid() && pts == old(pts) + 1 && masterParent == old(masterParent)
      ensures room == if old(pts) == old(room) then old(room) + roomStep else old(room)
      ensures data[..pts] == old(data[..pts]) + [v]
      ensures (tree == old(tree) && data == old(data)) || (fresh(tree) && fresh(data))
      ensures var node := Walk(old(S()), All(old(pts)), old(masterParent), v);
              var ot := old(tree[..pts]);
              tree[..pts] == ot[node := SetChild(ot[node], Side(GoesLeft(old(S()), node, v)), old(pts))]
                             + [Node(NextDim(ot[node].dim, dims), -1, -1, node)]
    {
      var node := FindNode(v);
      ghost var s0 := S();
      ghost var isLeft := GoesLeft(s0, node, v);
      NodeFacts(s0, All(pts), node);
      var dim := tree[node].dim + 1;
      if dim == dims { dim := 0; }
      if pts == room {
        Grow();
      }
      assert S() == s0;
      Hang(node, dim, v);
      AddPointValid(s0, node, isLeft, v, dim);
    }

    /** Writes v into the first free row and hangs that row as a leaf in
        node's slot on v's side; that slot is empty, so the occupied-slot
        branches are dead. */
    method Hang(node: int, dim: int, v: seq<real>)
      requires Stored() && pts < room && 0 <= node < pts && |v| == dims
      requires 0 <= tree[node].dim < |v| && tree[node].dim < |data[node]|
      requires Child(tree[node], Side(v[tree[node].dim] < data[node][tree[node].dim])) == -1
      modifies this`pts, this`anc, tree, data
      ensures Stored() && pts == old(pts) + 1 && anc == old(anc) + [Path(old(anc), node)]
      ensures data[..pts] == old(data[..pts]) + [v]
      ensures tree[..pts] == old(tree[..pts])[node := SetChild(old(tree[node]), Side(v[old(tree[node]).dim] < data[node][old(tree[node]).dim]), old(pts))]
                             + [Node(dim, -1, -1, node)]
    {
      var p := pts;
      tree[p] := tree[p].(dim := dim, parent := node);
      var i := tree[node].dim;
      if data[node][i] > v[i] {
        if tree[node].left >= 0 {
          assert false;
        }
        tree[node] := tree[node].(left := p);
      } else {
        if tree[node].right >= 0 {
          assert false;
        }
        tree[node] := tree[node].(right := p);
      }
      tree[p] := tree[p].(left := -1, right := -1);
      data[p] := v;
      pts := pts + 1;
      anc := anc + [Path(anc, node)];
    }

    /** Replaces both tables by tables `roomStep` rows larger holding the
        same rows in use. */
    method Grow()
      requires Stored()
      modifies this
      ensures Stored() && fresh(tree) && fresh(data) && room == old(room) + roomStep
      ensures tree[..pts] == old(tree[..pts]) && data[..pts] == old(data[..pts])
      ensures pts == old(pts) && anc == old(anc) && masterParent == old(masterParent)
    {
      var t := new Node[room + roomStep](_ => Blank);
      var d := new seq<real>[room + roomStep](_ => []);
      var i := 0;
      while i < pts
        modifies t, d
        invariant 0 <= i <= pts && t[..i] == tree[..i] && d[..i] == data[..i]
      {
        t[i] := tree[i];
        d[i] := data[i];
        i := i + 1;
      }
      room := room + roomStep;
      tree, data := t, d;
    }

    /** The state after AddPoint is the old table with one row appended and
        that row hung as a leaf. */
    lemma AddPointValid(s0: Snap, node: int, isLeft: bool, v: seq<real>, dim: int)
      requires Stored() && KdSpec.Valid(s0) && |s0.t| == pts - 1 && node in All(pts - 1)
      requires |v| == s0.dims == dims && masterParent == s0.root && 0 <= dim < dims
      requires Child(s0.t[node], Side(isLeft)) == -1 && FitsBelow(s0, node, isLeft, v)
      requires tree[..pts] == s0.t[node := SetChild(s0.t[node], Side(isLeft), pts - 1)] + [Node(dim, -1, -1, node)]
      requires data[..pts] == s0.d + [v] && anc == s0.anc + [Path(s0.anc, node)]
      ensures Valid()
    {
      var p := pts - 1;
      var M := All(p);
      var s1 := Snap(s0.t + [Blank], s0.d + [v], s0.anc + [[]], dims, masterParent);
      ExtendValid(s0, M, Blank, v, []);
      ExtendFits(s0, M, Blank, v, [], node, isLeft, v);
      assert s1.t[node] == s0.t[node];
      AttachLeaf(s1, M, node, isLeft, p, v, dim);
      var s2 := Attach(s1, node, Side(isLeft), p, v, dim);
      assert s2.t == tree[..pts];
      assert s2.d == data[..pts];
      assert s2.anc == anc;
      assert M + {p} == All(pts);
    }
  
    // -------------------------------------------------------------------
    // Removal

    /** ct plus the number of nodes below `where`. */
    method Count(where: int, ct: int) returns (r: int)
      requires Valid() && 0 <= where < pts
      ensures r == ct + |Sub(S(), All(pts), where)| - 1
      decreases Sub(S(), All(pts), where)
    {
      ghost var s, M := S(), All(pts);
      NodeFacts(s, M, where);
      SubSplit(s, M, where);
      r := ct;
      if tree[where].left >= 0 {
        ChildSubSmaller(s, M, where, 1);
        r := r + 1;
        r := Count(tree[where].left, r);
      }
      if tree[where].right >= 0 {
        ChildSubSmaller(s, M, where, 2);
        r := r + 1;
        r := Count(tree[where].right, r);
      }
    }

    /** Takes `target` out of the tree, leaving its row in place: a leaf is
        cut from its parent; a node with one subtree has that subtree take
        its place; a node with two has the larger one (the right one on a
        tie) take its place and every node of the other re-inserted in
        post-order. Every other node stays in the tree. */
    method Unlink(target: int)
      requires Valid() && 0 <= target < pts && pts >= 2
      modifies tree, this`masterParent, this`anc
      ensures Stored() && ValidOn(S(), All(pts) - {target})
      ensures S() == Unlinked(old(S()), All(pts), target)
    {
      ghost var s0, M0 := S(), All(pts);
      NodeFacts(s0, M0, target);
      var nl, nr := Sizes(target);
      if nl == 0 && nr == 0 {
        LeafRoot(s0, M0, target);
        AllCard(pts);
        CutLeaf(target);
      } else if (nl == 0 && nr > 0) || (nr == 0 && nl > 0) {
        var side := if nl == 0 then 2 else 1;
        SplicedOneSide(s0, M0, target, side);
        Promote(target, side);
      } else {
        assert tree[target].left != -1 && tree[target].right != -1;
        var side := if nl > nr then 1 else 2;
        Rehang(target, side);
      }
    }

    /** Puts target's subtree on `side` in its place, then re-inserts every
        node of its subtree on the other side in post-order. */
    method Rehang(target: int, side: int)
      requires Valid() && 0 <= target < pts && (side == 1 || side == 2)
      requires Child(tree[target], 1) != -1 && Child(tree[target], 2) != -1
      modifies tree, this`masterParent, this`anc
      ensures Stored() && ValidOn(S(), All(pts) - {target})
      ensures var s0 := old(S());
              var sp := Splice(s0, All(pts), target, side);
              && S().d == s0.d && S().dims == s0.dims && masterParent == sp.root
              && KeepsLinks(tree[..pts], sp.t, Spliced(s0, All(pts), target, side))
              && forall x :: x in Below(s0, All(pts), target, 3 - side) ==> Hung(S(), x)
      ensures S() == Rehung(old(S()), All(pts), target, side)
    {
      ghost var s0, M0 := S(), All(pts);
      NodeFacts(s0, M0, target);
      Promote(target, side);
      DetachedRows(s0, M0, target, side);
      SplicedPlus(s0, M0, target, side);
      var root := Child(tree[target], 3 - side);
      Descend(root, s0, M0, Spliced(s0, M0, target, side));
    }

    /** The sizes of target's left and right subtrees. */
    method Sizes(target: int) returns (nl: int, nr: int)
      requires Valid() && 0 <= target < pts
      ensures nl == |Below(S(), All(pts), target, 1)| && nr == |Below(S(), All(pts), target, 2)|
      ensures nl == 0 <==> tree[target].left == -1
      ensures nr == 0 <==> tree[target].right == -1
    {
      NodeFacts(S(), All(pts), target);
      nl, nr := 0, 0;
      if tree[target].left >= 0 {
        nl := nl + 1;
        nl := Count(tree[target].left, nl);
        SubSplit(S(), All(pts), tree[target].left);
      }
      if tree[target].right >= 0 {
        nr := nr + 1;
        nr := Count(tree[target].right, nr);
        SubSplit(S(), All(pts), tree[target].right);
      }
    }

    /** Cuts the leaf `target` from its parent's slot. */
    method CutLeaf(target: int)
      requires Stored() && CanSplice(S(), All(pts), target, 1)
      requires tree[target].left == -1 && tree[target].right == -1
      modifies tree, this`anc
      ensures Stored() && S() == Splice(old(S()), All(pts), target, 1)
      ensures ValidOn(S(), All(pts) - {target})
    {
      ghost var s := S();
      SpliceValid(s, All(pts), target, 1);
      SplicedOneSide(s, All(pts), target, 1);
      SpliceLinks(s, All(pts), target, 1);
      var k := tree[target].parent;
      if tree[k].left == target {
        tree[k] := tree[k].(left := -1);
      } else if tree[k].right == target {
        tree[k] := tree[k].(right := -1);
      }
      anc := Splice(s, All(pts), target, 1).anc;
      assert tree[..pts] == Splice(s, All(pts), target, 1).t;
    }

    /** Puts the child in slot `side` of `target` in target's place: in its
        parent's slot, or as the master parent when target was the root. */
    method Promote(target: int, side: int)
      requires Stored() && CanSplice(S(), All(pts), target, side) && Child(tree[target], side) != -1
      modifies tree, this`masterParent, this`anc
      ensures Stored() && S() == Splice(old(S()), All(pts), target, side)
      ensures ValidOn(S(), Spliced(old(S()), All(pts), target, side))
    {
      ghost var s := S();
      SpliceValid(s, All(pts), target, side);
      SpliceLinks(s, All(pts), target, side);
      var k := tree[target].parent;
      if k >= 0 {
        if tree[k].left == target {
          tree[k] := tree[k].(left := Child(tree[target], side));
          tree[tree[k].left] := tree[tree[k].left].(parent := k);
        } else {
          tree[k] := tree[k].(right := Child(tree[target], side));
          tree[tree[k].right] := tree[tree[k].right].(parent := k);
        }
      } else {
        masterParent := Child(tree[target], side);
        tree[masterParent] := tree[masterParent].(parent := -1);
      }
      anc := Splice(s, All(pts), target, side).anc;
      assert tree[..pts] == Splice(s, All(pts), target, side).t;
    }

    /** Re-hangs every node of r's subtree as it was in s0, in post-order
        (left subtree, right subtree, then r): the new state is exactly
        `Reinserted`. The nodes of M stay in the tree, and no row outside M
        and the subtree changes. */
    method Descend(r: int, ghost s0: Snap, ghost M0: set<int>, ghost M: set<int>)
      requires Stored() && ValidOn(S(), M)
      requires ValidOn(s0, M0) && r in M0 && |s0.t| == pts && Sub(s0, M0, r) !! M
      requires SameChildren(tree[..pts], s0.t, Sub(s0, M0, r))
      modifies tree, this`anc
      ensures Stored()
      ensures ValidOn(S(), M + Sub(s0, M0, r))
      ensures AgreeOff(tree[..pts], old(tree[..pts]), M + Sub(s0, M0, r))
      ensures KeepsLinks(tree[..pts], old(tree[..pts]), M)
      ensures forall y :: y in Sub(s0, M0, r) ==> Hung(S(), y)
      ensures S() == Reinserted(old(S()), M, s0, M0, r)
      decreases Sub(s0, M0, r), 1
    {
      ghost var B1, B2 := Below(s0, M0, r, 1), Below(s0, M0, r, 2);
      ghost var Z := M + Sub(s0, M0, r);
      SubParts(s0, M0, r, M);
      ghost var t0, S0 := tree[..pts], S();
      DescendPlan(s0, M0, r, M, t0, t0);
      DescendSide(r, 1, s0, M0, M);
      ghost var t1, S1 := tree[..pts], S();
      DescendPlan(s0, M0, r, M, t0, t1);
      DescendSide(r, 2, s0, M0, M + B1);
      ghost var t2, S2 := tree[..pts], S();
      HungKept(S1, S2, M + B1, B1);
      ghost var N := M + B1 + B2;
      ReinsertedSteps(S0, M, s0, M0, r);
      Reassign(r, N);
      HungKept(S2, S(), N, B1 + B2);
      AgreeTrans(t2, t1, t0, N, M + B1, Z);
      AgreeTrans(tree[..pts], t2, t0, N + {r}, Z, Z);
    }

    /** Re-hangs the subtree of s0 in slot `dir` of r, if there is one. */
    method DescendSide(r: int, dir: int, ghost s0: Snap, ghost M0: set<int>, ghost M: set<int>)
      requires Stored() && ValidOn(S(), M) && (dir == 1 || dir == 2)
      requires ValidOn(s0, M0) && r in M0 && |s0.t| == pts && 0 <= r < pts
      requires Below(s0, M0, r, dir) !! M && SameChildren(tree[..pts], s0.t, Below(s0, M0, r, dir))
      requires Child(tree[r], dir) == Child(s0.t[r], dir)
      modifies tree, this`anc
      ensures Stored()
      ensures ValidOn(S(), M + Below(s0, M0, r, dir))
      ensures AgreeOff(tree[..pts], old(tree[..pts]), M + Below(s0, M0, r, dir))
      ensures KeepsLinks(tree[..pts], old(tree[..pts]), M)
      ensures forall y :: y in Below(s0, M0, r, dir) ==> Hung(S(), y)
      ensures S() == ReinsertedSide(old(S()), M, s0, M0, r, dir)
      decreases Sub(s0, M0, r), 0
    {
      NodeFacts(s0, M0, r);
      var c := Child(tree[r], dir);
      if c >= 0 {
        ChildPath(s0, M0, r, c);
        ChildSubSmaller(s0, M0, r, dir);
        Descend(c, s0, M0, M);
      } else {
        assert M + Below(s0, M0, r, dir) == M;
      }
    }

    /** Hangs the detached row x as a leaf where the descent of its point
        ends, splitting on the dimension after that node's. */
    method Reassign(x: int, ghost M: set<int>)
      requires Stored() && ValidOn(S(), M) && 0 <= x < pts && x !in M
      modifies tree, this`anc
      ensures Stored() && ValidOn(S(), M + {x})
      ensures AgreeOff(tree[..pts], old(tree[..pts]), M + {x})
      ensures var s, w := old(S()), Walk(old(S()), M, masterParent, data[x]);
              S() == Attach(s, w, Side(GoesLeft(s, w, data[x])), x, data[x], NextDim(s.t[w].dim, dims))
      ensures KeepsLinks(tree[..pts], old(tree[..pts]), M) && Hung(S(), x)
      ensures S() == Reinsert(old(S()), M, x)
    {
      ghost var s := S();
      var where, dir := Locate(data[x], M);
      RootFits(s, M, data[x]);
      NodeFacts(s, M, where);
      tree[where] := SetChild(tree[where], dir, x);
      tree[x] := Node(NextDim(tree[where].dim, dims), -1, -1, where);
      anc := anc[x := Path(anc, where)];
      ghost var dim := NextDim(s.t[where].dim, dims);
      AttachLeaf(s, M, where, GoesLeft(s, where, data[x]), x, data[x], dim);
      AttachHangs(s, M, where, x, dim);
      assert data[..pts] == s.d[x := data[x]];
      assert S() == Attach(s, where, dir, x, data[x], dim);
    }

    /** Removes row `target`, which is out of the tree: later rows move up
        one place and every link and the master parent above `target` drop
        by one. */
    method Compact(target: int)
      requires Stored() && 0 <= target < pts && ValidOn(S(), All(pts) - {target})
      modifies tree, data, this`pts, this`masterParent, this`anc
      ensures Stored() && pts == old(pts) - 1 && S() == Compacted(old(S()), target)
      ensures Valid()
    {
      ghost var s := S();
      ghost var n := pts - 1;
      CompactValid(s, All(pts) - {target}, target);
      if target < pts - 1 {
        ShiftRows(target);
        RenumberRows(target);
        if masterParent > target {
          masterParent := masterParent - 1;
        }
        assert tree[..n] == Compacted(s, target).t;
        assert data[..n] == Compacted(s, target).d;
      } else {
        CompactLast(s, All(pts) - {target}, target);
      }
      pts := pts - 1;
      anc := Compacted(s, target).anc;
    }

    /** Moves every row after `target` up one place. */
    method ShiftRows(target: int)
      requires Stored() && 0 <= target < pts
      modifies tree, data
      ensures forall j :: 0 <= j < pts - 1 ==>
                tree[j] == old(tree[Shifted(j, target)]) && data[j] == old(data[Shifted(j, target)])
    {
      var i := target + 1;
      while i < pts
        modifies tree, data
        invariant target + 1 <= i <= pts
        invariant forall j :: 0 <= j < i - 1 ==>
                    tree[j] == old(tree[Shifted(j, target)]) && data[j] == old(data[Shifted(j, target)])
        invariant forall j :: i <= j < pts ==> tree[j] == old(tree[j]) && data[j] == old(data[j])
      {
        tree[i - 1] := tree[i];
        data[i - 1] := data[i];
        i := i + 1;
      }
    }

    /** Lowers by one every link above `target` in the rows in use. */
    method RenumberRows(target: int)
      requires Stored()
      modifies tree
      ensures forall j :: 0 <= j < pts ==> tree[j] == RenumberNode(old(tree[j]), target)
    {
      var i := 0;
      while i < pts
        modifies tree
        invariant 0 <= i <= pts
        invariant forall j :: 0 <= j < i ==> tree[j] == RenumberNode(old(tree[j]), target)
        invariant forall j :: i <= j < pts ==> tree[j] == old(tree[j])
      {
        tree[i] := RenumberNode(tree[i], target);
        i := i + 1;
      }
    }

    /** Deletes the point in row `target`: the node leaves the tree, its row
        is removed, and every other point stays in the tree, which stays
        valid. */
    method Remove(target: int)
      requires Valid() && 0 <= target < pts && pts >= 2
      modifies tree, data, this`pts, this`masterParent, this`anc
      ensures Valid() && pts == old(pts) - 1
      ensures data[..pts] == old(data[..target]) + old(data[target + 1..pts])
      ensures S() == Compacted(Unlinked(old(S()), All(old(pts)), target), target)
    {
      ghost var d0 := data[..pts];
      Unlink(target);
      ghost var s1 := S();
      assert s1.d == d0;
      Compact(target);
      CompactedData(s1, target);
      assert data[..pts] == d0[..target] + d0[target + 1..];
    }

    // -------------------------------------------------------------------
    // Self-check

    /** The self-check as the source writes it: its upward walk reports 0
        on failure, the same value it reports for a master parent at row 0. */
    method TestTreeAsWritten() returns (ok: int)
      requires Stored() && pts >= 2 && WellLinked(tree[..pts], data[..pts], dims)
      requires Chains(tree[..pts])
      ensures ok == 0 || ok == 1
      ensures ok == 1 <==> Checks(tree[..pts], data[..pts], dims, masterParent, 0)
    {
      ok := CheckTree(0);
    }

    /** The self-check with the walk reporting -1, which no row can be, on
        failure: it returns 1 exactly when there is one row without parent,
        no row has more than two children, and every row's point fits the
        whole chain above it, which ends at the master parent. */
    method TestTree() returns (ok: int)
      requires Stored() && pts >= 2 && WellLinked(tree[..pts], data[..pts], dims)
      requires Chains(tree[..pts])
      ensures ok == 0 || ok == 1
      ensures ok == 1 <==> Checks(tree[..pts], data[..pts], dims, masterParent, -1)
    {
      ok := CheckTree(-1);
    }

    /** Counts the rows without parent, then each row's children, then walks
        up from the parent of every other row; `failure` is what the walk
        reports when a point is on the wrong side. */
    method CheckTree(failure: int) returns (ok: int)
      requires Stored() && pts >= 2 && WellLinked(tree[..pts], data[..pts], dims)
      requires Chains(tree[..pts])
      ensures ok == 0 || ok == 1
      ensures ok == 1 <==> Checks(tree[..pts], data[..pts], dims, masterParent, failure)
    {
      ghost var t, d := tree[..pts], data[..pts];
      var roots := CountRoots();
      if roots != 1 {
        return 0;
      }
      var isparent := CountChildren();
      var i := 0;
      while i < pts
        invariant 0 <= i <= pts
        invariant forall p :: 0 <= p < i ==> |ChildrenBelow(t, p, pts)| <= 2
      {
        if isparent[i] > 2 {
          return 0;
        }
        i := i + 1;
      }
      var output := -1;
      var walked := false;
      i := 0;
      while i < pts
        invariant 0 <= i <= pts
        invariant forall k, n: nat :: 0 <= k < i && t[k].parent >= 0 && Ends(t, t[k].parent, n) ==>
                    WalkResult(t, d, dims, t[k].parent, DirOf(t, t[k].parent, k), k, n, failure) == masterParent
        invariant walked ==> output == masterParent
        invariant walked <==> exists k :: 0 <= k < i && t[k].parent >= 0
      {
        if tree[i].parent >= 0 {
          var p := tree[i].parent;
          var j := if tree[p].left == i then 1 else 2;
          assert EndsSome(t, p);
          ghost var n: nat :| Ends(t, p, n);
          output := WalkUpTree(p, j, i, failure, n);
          if output != masterParent {
            return 0;
          }
          walked := true;
          forall m: nat | Ends(t, p, m)
            ensures WalkResult(t, d, dims, p, DirOf(t, p, i), i, m, failure) == masterParent
          {
            EndsUnique(t, p, n, m);
          }
        }
        i := i + 1;
      }
      if !walked {
        OneRootHasChild(t);
      }
      if output != masterParent {
        return 0;
      }
      return 1;
    }

    /** The number of rows without parent. */
    method CountRoots() returns (j: int)
      requires Stored()
      ensures j == |Roots(tree[..pts])|
    {
      ghost var t := tree[..pts];
      j := 0;
      var i := 0;
      while i < pts
        invariant 0 <= i <= pts
        invariant j == |set k | 0 <= k < i && t[k].parent < 0|
      {
        ghost var before := set k | 0 <= k < i && t[k].parent < 0;
        ghost var after := set k | 0 <= k < i + 1 && t[k].parent < 0;
        if tree[i].parent < 0 {
          assert after == before + {i};
          j := j + 1;
        } else {
          assert after == before;
        }
        i := i + 1;
      }
      assert Roots(t) == set k | 0 <= k < pts && t[k].parent < 0;
    }

    /** For every row, the number of rows whose parent it is. A row without
        parent is skipped. */
    method CountChildren() returns (isparent: array<int>)
      requires Stored() && WellLinked(tree[..pts], data[..pts], dims)
      ensures fresh(isparent) && isparent.Length == pts
      ensures forall p :: 0 <= p < pts ==> isparent[p] == |ChildrenBelow(tree[..pts], p, pts)|
    {
      ghost var t := tree[..pts];
      isparent := new int[pts](_ => 0);
      var i := 0;
      while i < pts
        invariant 0 <= i <= pts
        invariant forall p :: 0 <= p < pts ==> isparent[p] == |ChildrenBelow(t, p, i)|
      {
        ChildrenStep(t, i);
        var q := tree[i].parent;
        if q >= 0 {
          isparent[q] := isparent[q] + 1;
        }
        i := i + 1;
      }
    }

    /** Walks up from `target`, reached from side `dir`, checking that the
        point of row `root` lies on that side of every row of the chain;
        reports the row without parent at the top, or `failure`. */
    method WalkUpTree(target: int, dir: int, root: int, failure: int, ghost n: nat) returns (output: int)
      requires Stored() && WellLinked(tree[..pts], data[..pts], dims)
      requires Ends(tree[..pts], target, n) && 0 <= root < pts
      ensures output == WalkResult(tree[..pts], data[..pts], dims, target, dir, root, n, failure)
      decreases n
    {
      var k := tree[target].dim;
      if dir == 1 {
        if data[root][k] >= data[target][k] {
          return failure;
        }
      } else {
        if data[root][k] < data[target][k] {
          return failure;
        }
      }
      if tree[target].parent >= 0 {
        var p := tree[target].parent;
        var i := if tree[p].left == target then 1 else 2;
        output := WalkUpTree(p, i, root, failure, n - 1);
      } else {
        output := target;
      }
    }

    // -------------------------------------------------------------------
    // Neighbour search

    /** A search in progress: the tree is valid and the list is exactly
        right for the points examined so far. */
    ghost predicate Searching(nl: NeighborList, v: seq<real>)
      reads this, tree, data, nl, nl.candidates, nl.distances
    {
      Valid() && |v| == dims && nl.Allocated() && nl.found >= 1 && ListOk(nl.Contents(), v, data[..pts], nl.seen)
    }

    /** One step of the search at `consider`, reached from `from`. Coming
        down from the parent, the step examines consider's whole subtree;
        coming up from a child, it examines everything outside that child's
        subtree. A branch is skipped only when the pruning test shows it
        cannot hold a point nearer than the last entry of the full list. */
    method LookForNeighbors(nl: NeighborList, v: seq<real>, consider: int, from: int)
      requires Searching(nl, v)
      requires 0 <= consider < pts && 0 <= from < pts
      requires tree[consider].parent == from || tree[from].parent == consider
      requires tree[consider].parent == from ==> Sub(S(), All(pts), consider) !! nl.seen
      requires tree[consider].parent != from ==> nl.seen <= Sub(S(), All(pts), from)
      modifies nl`found, nl`seen, nl.candidates, nl.distances
      ensures Searching(nl, v)
      ensures tree[consider].parent == from ==> nl.seen == old(nl.seen) + Sub(S(), All(pts), consider)
      ensures tree[consider].parent != from ==> nl.seen == old(nl.seen) + (All(pts) - Sub(S(), All(pts), from))
      decreases if tree[consider].parent == from then 0 else 1,
                if tree[consider].parent == from then 0 else |anc[consider]|,
                if tree[consider].parent == from then Sub(S(), All(pts), consider) else {},
                1
    {
      ghost var s, M := S(), All(pts);
      ghost var D0 := nl.seen;
      Examine(nl, v, consider, from);
      assert S() == s;
      if tree[consider].parent == from {
        SubSplit(s, M, consider);
        ghost var D1 := nl.seen;
        VisitBranch(nl, v, consider, 1);
        ghost var D2 := nl.seen;
        VisitBranch(nl, v, consider, 2);
        DownRegions(s, M, consider, D0, D1, D2, nl.seen);
      } else {
        Climb(nl, v, consider, from, D0);
      }
    }

    /** Offers `consider` itself to the list and counts it as examined. */
    method Examine(nl: NeighborList, v: seq<real>, consider: int, from: int)
      requires Searching(nl, v)
      requires 0 <= consider < pts && 0 <= from < pts
      requires tree[consider].parent == from || tree[from].parent == consider
      requires tree[consider].parent == from ==> Sub(S(), All(pts), consider) !! nl.seen
      requires tree[consider].parent != from ==> nl.seen <= Sub(S(), All(pts), from)
      modifies nl`found, nl`seen, nl.candidates, nl.distances
      ensures Searching(nl, v) && nl.seen == old(nl.seen) + {consider} && consider !in old(nl.seen)
    {
      ghost var s, M := S(), All(pts);
      ghost var D0 := nl.seen;
      ExaminePlan(s, M, consider, from, D0);
      nl.Consider(v, data[..pts], consider);
      assert S() == s;
    }

    /** Coming up into `consider` from its child `from`, once consider itself
        is examined: the branch on the other side from `from`, then
        everything outside consider's subtree, from its parent up. */
    method Climb(nl: NeighborList, v: seq<real>, consider: int, from: int, ghost D0: set<int>)
      requires Searching(nl, v)
      requires 0 <= consider < pts && 0 <= from < pts && tree[from].parent == consider
      requires nl.seen == D0 + {consider} && D0 <= Sub(S(), All(pts), from)
      modifies nl`found, nl`seen, nl.candidates, nl.distances
      ensures Searching(nl, v)
      ensures nl.seen == D0 + (All(pts) - Sub(S(), All(pts), from))
      decreases 1, |anc[consider]|, All(0), 0
    {
      ghost var s, M := S(), All(pts);
      var going;
      if tree[consider].left == from {
        going := 2;
      } else {
        going := 1;
      }
      ClimbPlan(s, M, consider, from, going, D0);
      VisitBranch(nl, v, consider, going);
      assert S() == s;
      ghost var D1 := nl.seen;
      if tree[consider].parent >= 0 {
        var p := tree[consider].parent;
        LookForNeighbors(nl, v, p, consider);
      }
      UpRegions(s, M, consider, from, going, D0, D1, nl.seen);
    }

    /** The branch in slot `dir` of `consider`: searched from its top when
        the pruning test lets it hold a nearer point, skipped otherwise. */
    method VisitBranch(nl: NeighborList, v: seq<real>, consider: int, dir: int)
      requires Searching(nl, v)
      requires 0 <= consider < pts && (dir == 1 || dir == 2)
      requires Below(S(), All(pts), consider, dir) !! nl.seen
      modifies nl`found, nl`seen, nl.candidates, nl.distances
      ensures Searching(nl, v)
      ensures nl.seen == old(nl.seen) + Below(S(), All(pts), consider, dir)
      decreases 0, 0, Sub(S(), All(pts), consider), 0
    {
      ghost var s, M := S(), All(pts);
      NodeFacts(s, M, consider);
      var c := Child(tree[consider], dir);
      if c >= 0 {
        var i := tree[consider].dim;
        var gap;
        if dir == 1 {
          gap := v[i] - data[consider][i];
        } else {
          gap := data[consider][i] - v[i];
        }
        ChildSubSmaller(s, M, consider, dir);
        NodeFacts(s, M, c);
        assert tree[c].parent == consider && c < pts;
        assert Sub(s, M, c) == Below(s, M, consider, dir);
        if nl.MayHold(gap) {
          LookForNeighbors(nl, v, c, consider);
        } else {
          ghost var D := nl.seen;
          nl.seen := nl.seen + Below(s, M, consider, dir);
          PruneKeepsSearch(nl, v, D, consider, dir, gap);
        }
      }
    }

    /** Counting a skipped branch as examined keeps the list right. */
    lemma PruneKeepsSearch(nl: NeighborList, v: seq<real>, D: set<int>, consider: int, dir: int, gap: real)
      requires Valid() && |v| == dims && nl.Allocated() && nl.found >= 1
      requires 0 <= consider < pts && (dir == 1 || dir == 2)
      requires ListOk(nl.Contents(), v, data[..pts], D)
      requires gap == var i := tree[consider].dim; if dir == 1 then v[i] - data[consider][i] else data[consider][i] - v[i]
      requires !MayHoldCloser(nl.Contents(), gap)
      requires nl.seen == D + Below(S(), All(pts), consider, dir)
      ensures Searching(nl, v)
    {
      NodeFacts(S(), All(pts), consider);
      PruneBranch(nl.Contents(), v, S(), All(pts), D, consider, dir, gap);
    }

    /** The k points nearest to v. The search starts at the node the descent
        of v ends at and leaves it through its children and its parent,
        nearest first. On return the first min(k, pts) slots list distinct
        points by ascending distance with their distances, no point left out
        is nearer than the last slot of a full list, and the unused distance
        slots hold -1. */
    method FindNeighbors(v: seq<real>, k: int) returns (neighdex: seq<int>, dd: seq<real>)
      requires Valid() && |v| == dims && k >= 1
      ensures |neighdex| == |dd| == k
      ensures ListOk(Neighbors(neighdex, dd, if k < pts then k else pts), v, data[..pts], All(pts))
    {
      var nl, start := Seed(v, k);
      var order := BranchOrder(v, start);
      Sweep(nl, v, start, order);
      neighdex := nl.candidates[..];
      dd := nl.distances[..];
      ghost var nb := nl.Contents();
      FoundCount(nb, v, data[..pts], All(pts));
      AllCard(pts);
      assert nb == Neighbors(neighdex, dd, if k < pts then k else pts);
    }

    /** Searches from start through its three links in the given order; once
        all three are done every point of the tree has been considered. */
    method Sweep(nl: NeighborList, v: seq<real>, start: int, order: seq<int>)
      requires Searching(nl, v) && 0 <= start < pts && nl.seen == {start}
      requires |order| == 3 && (forall i :: 0 <= i < 3 ==> 1 <= order[i] <= 3)
      requires order[0] != order[1] && order[0] != order[2] && order[1] != order[2]
      modifies nl`found, nl`seen, nl.candidates, nl.distances
      ensures Searching(nl, v) && nl.seen == All(pts)
    {
      Branch(nl, v, start, order, 0);
      Branch(nl, v, start, order, 1);
      Branch(nl, v, start, order, 2);
    }

    /** Searches from start through the link order[i], when that link is set;
        the region behind it joins what has been considered, and after the
        third link that is the whole tree. */
    method Branch(nl: NeighborList, v: seq<real>, start: int, order: seq<int>, i: int)
      requires Searching(nl, v) && 0 <= start < pts && 0 <= i < 3
      requires |order| == 3 && (forall j :: 0 <= j < 3 ==> 1 <= order[j] <= 3)
      requires order[0] != order[1] && order[0] != order[2] && order[1] != order[2]
      requires nl.seen == Covered(S(), All(pts), start, order[..i])
      modifies nl`found, nl`seen, nl.candidates, nl.distances
      ensures Searching(nl, v) && nl.seen == Covered(S(), All(pts), start, order[..i + 1])
      ensures i == 2 ==> nl.seen == All(pts)
    {
      ghost var s, M := S(), All(pts);
      BranchPlan(s, M, start, order, i, nl.seen);
      var c := Column(tree[start], order[i]);
      if c >= 0 {
        LookForNeighbors(nl, v, c, start);
      }
    }

    /** A fresh list of k slots holding, in its first slot, the node the
        descent of v ends at; every other distance slot holds -1. */
    method Seed(v: seq<real>, k: int) returns (nl: NeighborList, start: int)
      requires Valid() && |v| == dims && k >= 1
      ensures fresh(nl) && fresh(nl.candidates) && fresh(nl.distances)
      ensures Searching(nl, v) && nl.wanted == k && nl.seen == {start} && start in All(pts)
      ensures start == Walk(S(), All(pts), masterParent, v)
    {
      nl := new NeighborList(k);
      nl.Clear();
      start := FindNode(v);
      var d0 := Distance(v, data[start]);
      nl.First(start, d0);
      SeedOk(nl.Contents(), v, data[..pts], start);
    }

    /** The squared distance from v to the point a link names, -1 for a
        missing link. */
    method LinkDistance(v: seq<real>, c: int) returns (d: real)
      requires Stored() && c < pts && (c >= 0 ==> |data[c]| == |v|)
      ensures c >= 0 ==> d == Dist2(v, data[c])
      ensures c < 0 ==> d == -1.0
    {
      d := -1.0;
      if c >= 0 {
        d := Distance(v, data[c]);
      }
    }

    /** The columns of start (1 left, 2 right, 3 parent) ordered by the
        squared distance from v to the node each links to, -1 standing for
        a missing link; ties keep the order left, right, parent. */
    method BranchOrder(v: seq<real>, start: int) returns (order: seq<int>)
      requires Valid() && |v| == dims && 0 <= start < pts
      ensures |order| == 3 && (forall i :: 0 <= i < 3 ==> 1 <= order[i] <= 3)
      ensures order[0] != order[1] && order[0] != order[2] && order[1] != order[2]
      ensures forall i, j :: 0 <= i < j < 3 ==>
                LinkKey(v, start, order[i]) < LinkKey(v, start, order[j]) ||
                (LinkKey(v, start, order[i]) == LinkKey(v, start, order[j]) && order[i] < order[j])
    {
      LinkFact(start, tree[start].left);
      var dl := LinkDistance(v, tree[start].left);
      LinkFact(start, tree[start].right);
      var dr := LinkDistance(v, tree[start].right);
      LinkFact(start, tree[start].parent);
      var dp := LinkDistance(v, tree[start].parent);
      assert dl == LinkKey(v, start, 1) && dr == LinkKey(v, start, 2) && dp == LinkKey(v, start, 3);
      order := SlotOrder(dl, dr, dp);
      SlotKeysAre(dl, dr, dp, v, start);
    }

    /** The three keys handed to SlotOrder are the link keys of start. */
    lemma SlotKeysAre(dl: real, dr: real, dp: real, v: seq<real>, start: int)
      requires Valid() && |v| == dims && 0 <= start < pts
      requires dl == LinkKey(v, start, 1) && dr == LinkKey(v, start, 2) && dp == LinkKey(v, start, 3)
      ensures forall o :: 1 <= o <= 3 ==> SlotKey(dl, dr, dp, o) == LinkKey(v, start, o)
    {
    }

    /** The squared distance from v to the node column `slot` of row n links
        to (1 left, 2 right, 3 parent), -1 when the link is missing. */
    ghost function LinkKey(v: seq<real>, n: int, slot: int): real
      reads this, tree, data
      requires Valid() && |v| == dims && 0 <= n < pts && 1 <= slot <= 3
    {
      var c := Column(tree[n], slot);
      LinkFact(n, c);
      if c < 0 then -1.0 else Dist2(v, data[c])
    }

    /** A link of a stored node names a stored point of the tree's dimension, or nothing. */
    lemma LinkFact(n: int, c: int)
      requires Valid() && 0 <= n < pts
      requires c == tree[n].left || c == tree[n].right || c == tree[n].parent
      ensures c < pts && (c >= 0 ==> |data[c]| == dims)
    {
      var s := S();
      NodeFacts(s, All(pts), n);
      if c >= 0 {
        NodeFacts(s, All(pts), c);
      }
    }

    /** Going down into `consider` examines it and both its branches: its
        whole subtree. */
    lemma DownRegions(s: Snap, M: set<int>, consider: int, D0: set<int>, D1: set<int>, D2: set<int>, D3: set<int>)
      requires ValidOn(s, M) && consider in M
      requires D1 == D0 + {consider} && D2 == D1 + Below(s, M, consider, 1) && D3 == D2 + Below(s, M, consider, 2)
      ensures D3 == D0 + Sub(s, M, consider)
    {
      SubSplit(s, M, consider);
    }

    /** The node a search step examines has not been examined before. */
    lemma ExaminePlan(s: Snap, M: set<int>, consider: int, from: int, D0: set<int>)
      requires ValidOn(s, M) && consider in M && from in M
      requires s.t[consider].parent == from || s.t[from].parent == consider
      requires s.t[consider].parent == from ==> Sub(s, M, consider) !! D0
      requires s.t[consider].parent != from ==> D0 <= Sub(s, M, from)
      ensures consider !in D0 && |s.d[consider]| == s.dims
    {
      NodeFacts(s, M, consider);
      SubSplit(s, M, consider);
      if s.t[consider].parent != from {
        NodeFacts(s, M, from);
        ParentOutsideSub(s, M, from);
      }
    }

    /** What the climb from `from` into `consider` relies on: the branch on
        the other side is still unexamined, everything examined so far lies
        in consider's subtree, and the parent, if any, is one level up. */
    lemma ClimbPlan(s: Snap, M: set<int>, consider: int, from: int, going: int, D0: set<int>)
      requires ValidOn(s, M) && consider in M && from in M && s.t[from].parent == consider
      requires going == (if s.t[consider].left == from then 2 else 1) && D0 <= Sub(s, M, from)
      ensures Below(s, M, consider, going) !! D0 + {consider}
      ensures D0 + {consider} + Below(s, M, consider, going) <= Sub(s, M, consider)
      ensures s.t[consider].parent != -1 ==>
                var p := s.t[consider].parent;
                p in M && 0 <= p < |s.t| && s.t[p].parent != consider && |s.anc[p]| < |s.anc[consider]|
      ensures s.t[consider].parent == -1 ==> Sub(s, M, consider) == M
    {
      NodeFacts(s, M, consider);
      UpFacts(s, M, consider, from, going);
      SubSplit(s, M, consider);
      if s.t[consider].parent == -1 {
        SubRoot(s, M);
      } else {
        NodeFacts(s, M, s.t[consider].parent);
      }
    }

    /** Facts about the step up from child `from` into `consider`: `from`'s
        subtree is consider's branch on the other side from `going`, and
        consider's parent is one level up. */
    lemma UpFacts(s: Snap, M: set<int>, consider: int, from: int, going: int)
      requires ValidOn(s, M) && consider in M && from in M && s.t[from].parent == consider
      requires going == (if s.t[consider].left == from then 2 else 1)
      ensures Sub(s, M, from) == Below(s, M, consider, 3 - going)
      ensures Below(s, M, consider, going) !! Sub(s, M, from) && consider !in Sub(s, M, from)
      ensures Sub(s, M, from) + {consider} + Below(s, M, consider, going) <= Sub(s, M, consider)
      ensures s.t[consider].parent != -1 ==>
                var p := s.t[consider].parent;
                p in M && 0 <= p < |s.anc| && s.t[p].parent != consider && |s.anc[p]| < |s.anc[consider]|
    {
      NodeFacts(s, M, consider);
      NodeFacts(s, M, from);
      SubSplit(s, M, consider);
      ParentOutsideSub(s, M, from);
      if s.t[consider].parent != -1 {
        NodeFacts(s, M, s.t[consider].parent);
      }
    }

    /** Coming up into `consider` from child `from` examines, besides what
        was seen below `from`, consider itself, its other branch and
        everything above it: all the tree outside `from`'s subtree. */
    lemma UpRegions(s: Snap, M: set<int>, consider: int, from: int, going: int,
                    D0: set<int>, D1: set<int>, D2: set<int>)
      requires ValidOn(s, M) && consider in M && from in M && s.t[from].parent == consider
      requires going == (if s.t[consider].left == from then 2 else 1)
      requires D1 == D0 + {consider} + Below(s, M, consider, going)
      requires s.t[consider].parent != -1 ==> D2 == D1 + (M - Sub(s, M, consider))
      requires s.t[consider].parent == -1 ==> D2 == D1 && Sub(s, M, consider) == M
      ensures D2 == D0 + (M - Sub(s, M, from))
    {
      NodeFacts(s, M, consider);
      NodeFacts(s, M, from);
      SubSplit(s, M, consider);
      assert Sub(s, M, from) == Below(s, M, consider, 3 - going);
      ParentOutsideSub(s, M, from);
    }
  }

  /** A tree built over dt, then given one more point: the tables the
      constructor allocates are the caller's to change. */
  method BuildThenAdd(dt: seq<seq<real>>, v: seq<real>) returns (t: KdTree)
    requires |dt| >= 2 && |dt[0]| >= 1 && |v| == |dt[0]|
    requires forall i :: 0 <= i < |dt| ==> |dt[i]| == |dt[0]|
    ensures t.Valid() && t.pts == |dt| + 1 && t.data[..t.pts] == dt + [v]
  {
    t := new KdTree(dt);
    t.AddPoint(v);
  }
}
