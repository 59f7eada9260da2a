/** The two edits by which a node leaves the k-d tree: splicing it out of
    its parent's slot, and compacting the tables over its row. */
module KdEdits {
  import opened KdSpec

  /** The slot of n that holds x: 1 when x is n's left child, else 2. */
  function SlotOf(n: Node, x: int): int
  {
    if n.left == x then 1 else 2
  }

  /** p without its element at position m. */
  function Drop(p: seq<int>, m: int): (r: seq<int>)
    ensures 0 <= m < |p| ==> |r| == |p| - 1
  {
    if 0 <= m < |p| then p[..m] + p[m + 1..] else p
  }

  /** The table after `target` is cut out of the tree and its child in slot
      `side` (or nothing, when that slot is empty) takes its place: the
      parent's slot now holds that child, the child's parent is the target's
      parent, and the child becomes the root when the target was the root.
      The ancestor paths of the promoted subtree lose the target. */
  ghost function Splice(s: Snap, M: set<int>, target: int, side: int): (r: Snap)
    requires ValidOn(s, M) && target in M
  {
    var tt := s.t[target];
    var c := Child(tt, side);
    var k := tt.parent;
    var t1 := if k == -1 then s.t else s.t[k := SetChild(s.t[k], SlotOf(s.t[k], target), c)];
    var t2 := if c == -1 then t1 else t1[c := t1[c].(parent := k)];
    var m := |s.anc[target]|;
    var anc' := seq(|s.anc|, j requires 0 <= j < |s.anc| =>
                      if c != -1 && j in Sub(s, M, c) then Drop(s.anc[j], m) else s.anc[j]);
    Snap(t2, s.d, anc', s.dims, if k == -1 then c else s.root)
  }

  /** What a splice needs: the target is in the tree, and when the slot to
      promote is empty the target is a leaf other than the root. */
  ghost predicate CanSplice(s: Snap, M: set<int>, target: int, side: int)
  {
    && ValidOn(s, M) && target in M && (side == 1 || side == 2)
    && (Child(s.t[target], side) == -1 ==> Child(s.t[target], 3 - side) == -1 && target != s.root)
  }

  /** The nodes left in the tree after a splice: the target and the subtree
      on its other side are gone. */
  ghost function Spliced(s: Snap, M: set<int>, target: int, side: int): set<int>
    requires ValidOn(s, M) && target in M
  {
    M - ({target} + Below(s, M, target, 3 - side))
  }

  lemma SpliceRows(s: Snap, M: set<int>, target: int, side: int, j: int)
    requires CanSplice(s, M, target, side) && 0 <= j < |s.t|
    ensures var s' := Splice(s, M, target, side);
            var c, k := Child(s.t[target], side), s.t[target].parent;
            && |s'.t| == |s.t| && s'.d == s.d && s'.dims == s.dims
            && s'.t[j].dim == s.t[j].dim
            && (j != c ==> s'.t[j].parent == s.t[j].parent)
            && (j == c ==> s'.t[j].parent == k)
            && (j != k ==> s'.t[j].left == s.t[j].left && s'.t[j].right == s.t[j].right)
            && (j == k ==> s'.t[j] == SetChild(s.t[k], SlotOf(s.t[k], target), c).(parent := s.t[k].parent))
  {
    var c, k := Child(s.t[target], side), s.t[target].parent;
    NodeFacts(s, M, target);
    if c != -1 {
      NodeFacts(s, M, c);
      assert c != k by {
        ParentOutsideSub(s, M, c);
        SubSplit(s, M, c);
      }
    }
  }

  /** Splicing a node out keeps the rest of the tree valid. */
  lemma SpliceValid(s: Snap, M: set<int>, target: int, side: int)
    requires CanSplice(s, M, target, side)
    ensures ValidOn(Splice(s, M, target, side), Spliced(s, M, target, side))
  {
    var s' := Splice(s, M, target, side);
    var M' := Spliced(s, M, target, side);
    var c := Child(s.t[target], side);
    NodeFacts(s, M, target);
    SubSplit(s, M, target);
    if s.t[target].parent == -1 {
      SubRoot(s, M);
      assert c in M';
    } else {
      assert s.root !in Sub(s, M, target) by {
        RootOnly(s, M, s.root);
        RootOnly(s, M, target);
        assert |Path(s.anc, target)| > 1;
      }
    }
    assert s'.root in M';
    forall j | j in M'
      ensures 0 <= j < |s'.t| && 0 <= s'.t[j].dim < s'.dims
      ensures -1 <= s'.t[j].left < |s'.t| && -1 <= s'.t[j].right < |s'.t| && -1 <= s'.t[j].parent < |s'.t|
    {
      SpliceRows(s, M, target, side, j);
      NodeFacts(s, M, j);
      if j == s.t[target].parent {
        NodeFacts(s, M, s.t[target].parent);
      }
    }
    forall j | j in M'
      ensures NodeOk(s', M', j)
    {
      if c != -1 && j in Sub(s, M, c) {
        SpliceInside(s, M, target, side, j);
      } else {
        SpliceOutside(s, M, target, side, j);
      }
    }
  }

  /** Nodes of the promoted subtree. */
  lemma SpliceInside(s: Snap, M: set<int>, target: int, side: int, j: int)
    requires CanSplice(s, M, target, side)
    requires Child(s.t[target], side) != -1 && j in Sub(s, M, Child(s.t[target], side))
    ensures NodeOk(Splice(s, M, target, side), Spliced(s, M, target, side), j)
  {
    SpliceInsideLinks(s, M, target, side, j);
    SpliceInsideSteps(s, M, target, side, j);
  }

  lemma SpliceInsideLinks(s: Snap, M: set<int>, target: int, side: int, j: int)
    requires CanSplice(s, M, target, side)
    requires Child(s.t[target], side) != -1 && j in Sub(s, M, Child(s.t[target], side))
    ensures NodeLinks(Splice(s, M, target, side), Spliced(s, M, target, side), j)
  {
    var s' := Splice(s, M, target, side);
    var M' := Spliced(s, M, target, side);
    var c, k := Child(s.t[target], side), s.t[target].parent;
    NodeFacts(s, M, target);
    NodeFacts(s, M, j);
    SubSplit(s, M, target);
    ChildSubSmaller(s, M, target, side);
    SpliceRows(s, M, target, side, j);
    assert j in M';
    assert j != k by { if k != -1 { ParentOutsideSub(s, M, target); } }
    SpliceInsideChild(s, M, target, side, j, s.t[j].left);
    SpliceInsideChild(s, M, target, side, j, s.t[j].right);
    if j == c {
      SpliceInsidePromoted(s, M, target, side);
    } else {
      SpliceInsideDeeper(s, M, target, side, j);
    }
  }

  /** A child of a node of the promoted subtree keeps its row and place. */
  lemma SpliceInsideChild(s: Snap, M: set<int>, target: int, side: int, j: int, ch: int)
    requires CanSplice(s, M, target, side)
    requires Child(s.t[target], side) != -1 && j in Sub(s, M, Child(s.t[target], side))
    requires ch == s.t[j].left || ch == s.t[j].right
    ensures ch != -1 ==> ch in Spliced(s, M, target, side) && Splice(s, M, target, side).t[ch].parent == j
  {
    var c := Child(s.t[target], side);
    if ch != -1 {
      NodeFacts(s, M, j);
      ChildInSub(s, M, c, j, ch);
      ChildPath(s, M, j, ch);
      SubSplit(s, M, target);
      ChildSubSmaller(s, M, target, side);
      SpliceRows(s, M, target, side, ch);
    }
  }

  lemma SpliceInsidePromoted(s: Snap, M: set<int>, target: int, side: int)
    requires CanSplice(s, M, target, side)
    requires Child(s.t[target], side) != -1
    ensures var s' := Splice(s, M, target, side);
            var c, k := Child(s.t[target], side), s.t[target].parent;
            && s'.t[c].parent == k
            && (k == -1 <==> c == s'.root)
            && (k == -1 ==> s'.anc[c] == [])
            && (k != -1 ==> && k in Spliced(s, M, target, side)
                            && (s'.t[k].left == c || s'.t[k].right == c)
                            && s'.anc[c] == Path(s'.anc, k))
  {
    var s' := Splice(s, M, target, side);
    var c, k := Child(s.t[target], side), s.t[target].parent;
    var m := |s.anc[target]|;
    NodeFacts(s, M, target);
    ChildPath(s, M, target, c);
    SubSplit(s, M, c);
    SpliceRows(s, M, target, side, c);
    assert s.anc[c] == s.anc[target] + [target];
    assert s'.anc[c] == Drop(s.anc[c], m) == s.anc[target];
    if k != -1 {
      NodeFacts(s, M, k);
      ParentOutsideSub(s, M, target);
      SubSplit(s, M, target);
      SpliceRows(s, M, target, side, k);
      assert k !in Sub(s, M, c) by { ChildSubSmaller(s, M, target, side); }
      assert s'.anc[k] == s.anc[k];
      assert s'.root == s.root && s.root != c;
    } else {
      RootOnly(s, M, target);
    }
  }

  lemma SpliceInsideDeeper(s: Snap, M: set<int>, target: int, side: int, j: int)
    requires CanSplice(s, M, target, side)
    requires Child(s.t[target], side) != -1 && j in Sub(s, M, Child(s.t[target], side))
    requires j != Child(s.t[target], side)
    ensures var s' := Splice(s, M, target, side);
            var p := s.t[j].parent;
            && p != -1 && s'.t[j].parent == p && p in Spliced(s, M, target, side)
            && (s'.t[p].left == j || s'.t[p].right == j)
            && j != s'.root
            && s'.anc[j] == Path(s'.anc, p)
  {
    SpliceDeeperLinks(s, M, target, side, j);
    SpliceDeeperPath(s, M, target, side, j);
  }

  /** A deeper node of the promoted subtree keeps its parent, which stays
      in the tree and keeps it in a slot. */
  lemma SpliceDeeperLinks(s: Snap, M: set<int>, target: int, side: int, j: int)
    requires CanSplice(s, M, target, side)
    requires Child(s.t[target], side) != -1 && j in Sub(s, M, Child(s.t[target], side))
    requires j != Child(s.t[target], side)
    ensures var s' := Splice(s, M, target, side);
            var p := s.t[j].parent;
            && p != -1 && s'.t[j].parent == p && p in Spliced(s, M, target, side)
            && (s'.t[p].left == j || s'.t[p].right == j)
            && j != s'.root
  {
    var s' := Splice(s, M, target, side);
    var c, k := Child(s.t[target], side), s.t[target].parent;
    NodeFacts(s, M, target);
    NodeFacts(s, M, j);
    ParentInSub(s, M, c, j);
    var p := s.t[j].parent;
    NodeFacts(s, M, p);
    SpliceRows(s, M, target, side, j);
    SpliceRows(s, M, target, side, p);
    SubSplit(s, M, target);
    ChildSubSmaller(s, M, target, side);
    assert p != k by { if k != -1 { ParentOutsideSub(s, M, target); } }
    if k == -1 {
      assert s'.root == c;
    }
  }

  /** A deeper node of the promoted subtree: its path is still its parent's
      path extended by the parent. */
  lemma SpliceDeeperPath(s: Snap, M: set<int>, target: int, side: int, j: int)
    requires CanSplice(s, M, target, side)
    requires Child(s.t[target], side) != -1 && j in Sub(s, M, Child(s.t[target], side))
    requires j != Child(s.t[target], side)
    ensures var s' := Splice(s, M, target, side);
            var p := s.t[j].parent;
            && 0 <= p < |s'.anc| && s'.anc[j] == Path(s'.anc, p)
  {
    var s' := Splice(s, M, target, side);
    var c := Child(s.t[target], side);
    var m := |s.anc[target]|;
    NodeFacts(s, M, j);
    ParentInSub(s, M, c, j);
    var p := s.t[j].parent;
    SpliceInsidePath(s, M, target, side, j);
    SpliceInsidePath(s, M, target, side, p);
    assert s.anc[j] == s.anc[p] + [p];
    assert |s.anc[p]| > m;
    assert Drop(s.anc[j], m) == Drop(s.anc[p], m) + [p];
  }

  /** Position m of a path holds a node whose own path has length m + 1. */
  lemma PathAt(s: Snap, M: set<int>, j: int, m: int)
    requires ValidOn(s, M) && j in M && 0 <= m <= |s.anc[j]|
    ensures Path(s.anc, j)[m] in M && |Path(s.anc, Path(s.anc, j)[m])| == m + 1
  {
    PathPrefix(s, M, j, m);
  }

  lemma SpliceInsideSteps(s: Snap, M: set<int>, target: int, side: int, j: int)
    requires CanSplice(s, M, target, side)
    requires Child(s.t[target], side) != -1 && j in Sub(s, M, Child(s.t[target], side))
    ensures NodeSteps(Splice(s, M, target, side), j)
  {
    var s' := Splice(s, M, target, side);
    SpliceInsidePath(s, M, target, side, j);
    forall q | 0 <= q < |s'.anc[j]|
      ensures StepOk(s', j, q)
    {
      var m := |s.anc[target]|;
      if q + 1 < m {
        SpliceInsideStepAbove(s, M, target, side, j, q);
      } else if q + 1 == m {
        SpliceInsideStepAt(s, M, target, side, j, q);
      } else {
        SpliceInsideStepBelow(s, M, target, side, j, q);
      }
    }
  }

  /** The path of a node of the promoted subtree runs through the target's
      parent (at position m - 1), the target (at m) and the promoted child
      (at m + 1); the splice drops position m. */
  lemma SpliceInsidePath(s: Snap, M: set<int>, target: int, side: int, j: int)
    requires CanSplice(s, M, target, side)
    requires Child(s.t[target], side) != -1 && j in Sub(s, M, Child(s.t[target], side))
    ensures var s' := Splice(s, M, target, side);
            var c, k := Child(s.t[target], side), s.t[target].parent;
            var m, pj := |s.anc[target]|, Path(s.anc, j);
            && m + 1 < |pj| && pj[m] == target && pj[m + 1] == c
            && (k != -1 ==> 0 < m && pj[m - 1] == k && |Path(s.anc, k)| == m)
            && (k == -1 ==> m == 0)
            && s'.anc[j] == Drop(s.anc[j], m) && |s'.anc[j]| == |s.anc[j]| - 1
            && Path(s'.anc, j) == Drop(pj, m)
  {
    var m := |s.anc[target]|;
    InsidePathShape(s, M, target, side, j);
    SpliceAncAt(s, M, target, side, j);
    DropAppend(s.anc[j], m, j);
  }

  /** The shape of the path of a node below the promoted child, before the splice. */
  lemma InsidePathShape(s: Snap, M: set<int>, target: int, side: int, j: int)
    requires CanSplice(s, M, target, side)
    requires Child(s.t[target], side) != -1 && j in Sub(s, M, Child(s.t[target], side))
    ensures var c, k := Child(s.t[target], side), s.t[target].parent;
            var m, pj := |s.anc[target]|, Path(s.anc, j);
            && 0 <= j < |s.anc| && m < |s.anc[j]|
            && m + 1 < |pj| && pj[m] == target && pj[m + 1] == c
            && (k != -1 ==> 0 < m && pj[m - 1] == k && |Path(s.anc, k)| == m)
            && (k == -1 ==> m == 0)
  {
    var c, k := Child(s.t[target], side), s.t[target].parent;
    NodeFacts(s, M, target);
    ChildPath(s, M, target, c);
    var pc, pj := Path(s.anc, c), Path(s.anc, j);
    assert pc <= pj && pc == s.anc[target] + [target, c];
    if k != -1 {
      assert s.anc[target] == Path(s.anc, k);
    } else {
      RootOnly(s, M, target);
    }
  }

  /** The splice drops position m from the ancestry of every node below the
      promoted child. */
  lemma SpliceAncAt(s: Snap, M: set<int>, target: int, side: int, j: int)
    requires CanSplice(s, M, target, side)
    requires Child(s.t[target], side) != -1 && j in Sub(s, M, Child(s.t[target], side))
    ensures 0 <= j < |s.anc| == |Splice(s, M, target, side).anc|
    ensures Splice(s, M, target, side).anc[j] == Drop(s.anc[j], |s.anc[target]|)
  {
  }

  lemma DropAppend(p: seq<int>, m: int, x: int)
    requires 0 <= m < |p|
    ensures Drop(p, m) + [x] == Drop(p + [x], m)
  {
    assert (p + [x])[..m] == p[..m];
    assert (p + [x])[m + 1..] == p[m + 1..] + [x];
  }

  lemma SpliceInsideStepAbove(s: Snap, M: set<int>, target: int, side: int, j: int, q: int)
    requires CanSplice(s, M, target, side)
    requires Child(s.t[target], side) != -1 && j in Sub(s, M, Child(s.t[target], side))
    requires 0 <= q && q + 1 < |s.anc[target]|
    ensures StepOk(Splice(s, M, target, side), j, q)
  {
    var s' := Splice(s, M, target, side);
    var c, k := Child(s.t[target], side), s.t[target].parent;
    var m, pj := |s.anc[target]|, Path(s.anc, j);
    SpliceInsidePath(s, M, target, side, j);
    NodeFacts(s, M, j);
    var a', n' := s'.anc[j][q], Next(s'.anc, j, q);
    assert a' == pj[q] && n' == pj[q + 1];
    assert a' == s.anc[j][q] && n' == Next(s.anc, j, q);
    assert StepOk(s, j, q);
    PathAt(s, M, j, q + 1);
    PathAt(s, M, j, m);
    PathAt(s, M, j, m + 1);
    NextIsChild(s, M, j, q);
    SpliceRows(s, M, target, side, a');
    assert n' != target && n' != c;
  }

  lemma SpliceInsideStepAt(s: Snap, M: set<int>, target: int, side: int, j: int, q: int)
    requires CanSplice(s, M, target, side)
    requires Child(s.t[target], side) != -1 && j in Sub(s, M, Child(s.t[target], side))
    requires 0 <= q && q + 1 == |s.anc[target]|
    ensures StepOk(Splice(s, M, target, side), j, q)
  {
    var s' := Splice(s, M, target, side);
    var c, k := Child(s.t[target], side), s.t[target].parent;
    var m, pj := |s.anc[target]|, Path(s.anc, j);
    SpliceInsidePath(s, M, target, side, j);
    NodeFacts(s, M, j);
    NodeFacts(s, M, target);
    var a', n' := s'.anc[j][q], Next(s'.anc, j, q);
    assert a' == pj[q] && n' == pj[m + 1];
    assert a' == k && n' == c;
    assert Next(s.anc, j, q) == target;
    assert StepOk(s, j, q);
    NodeFacts(s, M, k);
    SpliceRows(s, M, target, side, k);
  }

  lemma SpliceInsideStepBelow(s: Snap, M: set<int>, target: int, side: int, j: int, q: int)
    requires CanSplice(s, M, target, side)
    requires Child(s.t[target], side) != -1 && j in Sub(s, M, Child(s.t[target], side))
    requires |s.anc[target]| <= q < |s.anc[j]| - 1
    ensures StepOk(Splice(s, M, target, side), j, q)
  {
    var s' := Splice(s, M, target, side);
    var c, k := Child(s.t[target], side), s.t[target].parent;
    var m, pj := |s.anc[target]|, Path(s.anc, j);
    SpliceInsidePath(s, M, target, side, j);
    NodeFacts(s, M, j);
    var a', n' := s'.anc[j][q], Next(s'.anc, j, q);
    assert a' == pj[q + 1] && n' == pj[q + 2];
    assert a' == s.anc[j][q + 1] && n' == Next(s.anc, j, q + 1);
    assert StepOk(s, j, q + 1);
    PathAt(s, M, j, q + 1);
    NextIsChild(s, M, j, q + 1);
    SpliceRows(s, M, target, side, a');
    assert a' != k;
  }

  /** Nodes outside the promoted subtree. */
  lemma SpliceOutside(s: Snap, M: set<int>, target: int, side: int, j: int)
    requires CanSplice(s, M, target, side)
    requires j in Spliced(s, M, target, side)
    requires Child(s.t[target], side) == -1 || j !in Sub(s, M, Child(s.t[target], side))
    ensures NodeOk(Splice(s, M, target, side), Spliced(s, M, target, side), j)
  {
    SpliceOutsideLinks(s, M, target, side, j);
    SpliceOutsideSteps(s, M, target, side, j);
  }

  lemma NotInTargetSub(s: Snap, M: set<int>, target: int, side: int, j: int)
    requires CanSplice(s, M, target, side)
    requires j in Spliced(s, M, target, side)
    requires Child(s.t[target], side) == -1 || j !in Sub(s, M, Child(s.t[target], side))
    ensures j !in Sub(s, M, target) && s.t[target].parent != -1
  {
    SubSplit(s, M, target);
    if s.t[target].parent == -1 {
      SubRoot(s, M);
      RootOnly(s, M, target);
      NodeFacts(s, M, target);
    }
  }

  lemma SpliceOutsideLinks(s: Snap, M: set<int>, target: int, side: int, j: int)
    requires CanSplice(s, M, target, side)
    requires j in Spliced(s, M, target, side)
    requires Child(s.t[target], side) == -1 || j !in Sub(s, M, Child(s.t[target], side))
    ensures NodeLinks(Splice(s, M, target, side), Spliced(s, M, target, side), j)
  {
    var s' := Splice(s, M, target, side);
    var M' := Spliced(s, M, target, side);
    var c, k := Child(s.t[target], side), s.t[target].parent;
    NotInTargetSub(s, M, target, side, j);
    NodeFacts(s, M, j);
    NodeFacts(s, M, target);
    SpliceRows(s, M, target, side, j);
    var tj, tj' := s.t[j], s'.t[j];
    assert j != c by {
      if c != -1 {
        SubSplit(s, M, c);
      }
    }
    assert tj'.parent == tj.parent && tj'.dim == tj.dim;
    assert s'.anc[j] == s.anc[j];
    assert s'.root == s.root;
    if j == k {
      SpliceOutsideAtParent(s, M, target, side);
      var o := if tj.left == target then tj.right else tj.left;
      SpliceOutsideChild(s, M, target, side, j, o);
      assert tj'.left == -1 || tj'.left in M';
      assert tj'.right == -1 || tj'.right in M';
      assert tj'.left != -1 ==> s'.t[tj'.left].parent == j;
      assert tj'.right != -1 ==> s'.t[tj'.right].parent == j;
    } else {
      assert tj'.left == tj.left && tj'.right == tj.right;
      assert tj.left != target && tj.right != target;
      SpliceOutsideChild(s, M, target, side, j, tj.left);
      SpliceOutsideChild(s, M, target, side, j, tj.right);
    }
    if tj.parent != -1 {
      SpliceOutsideUp(s, M, target, side, j);
      assert s'.anc[j] == Path(s'.anc, tj.parent);
    }
  }

  /** A child, other than the target, of a node outside the promoted subtree. */
  lemma SpliceOutsideChild(s: Snap, M: set<int>, target: int, side: int, j: int, ch: int)
    requires CanSplice(s, M, target, side)
    requires j in Spliced(s, M, target, side)
    requires Child(s.t[target], side) == -1 || j !in Sub(s, M, Child(s.t[target], side))
    requires ch == s.t[j].left || ch == s.t[j].right
    ensures ch != -1 && ch != target ==>
              ch in Spliced(s, M, target, side) && Splice(s, M, target, side).t[ch].parent == j
  {
    if ch != -1 && ch != target {
      var c := Child(s.t[target], side);
      NotInTargetSub(s, M, target, side, j);
      NodeFacts(s, M, j);
      NodeFacts(s, M, ch);
      ChildPath(s, M, j, ch);
      if ch in Sub(s, M, target) {
        ParentInSub(s, M, target, ch);
      }
      SubSplit(s, M, target);
      SpliceRows(s, M, target, side, ch);
      if c != -1 {
        NodeFacts(s, M, target);
        ChildPath(s, M, target, c);
      }
    }
  }

  /** The target's parent holds the promoted child in the target's slot. */
  lemma SpliceOutsideAtParent(s: Snap, M: set<int>, target: int, side: int)
    requires CanSplice(s, M, target, side) && s.t[target].parent != -1
    ensures var s' := Splice(s, M, target, side);
            var c, k := Child(s.t[target], side), s.t[target].parent;
            && s'.t[k] == SetChild(s.t[k], SlotOf(s.t[k], target), c).(parent := s.t[k].parent)
            && (c != -1 ==> c in Spliced(s, M, target, side) && s'.t[c].parent == k)
            && (s.t[k].left == target || s.t[k].right == target)
            && (s'.t[k].left != -1 ==> s'.t[k].left != s'.t[k].right)
  {
    var c, k := Child(s.t[target], side), s.t[target].parent;
    NodeFacts(s, M, target);
    NodeFacts(s, M, k);
    SpliceRows(s, M, target, side, k);
    var o := if s.t[k].left == target then s.t[k].right else s.t[k].left;
    if o != -1 && c != -1 {
      NodeFacts(s, M, o);
      NodeFacts(s, M, c);
      assert s.t[o].parent == k && s.t[c].parent == target;
    }
    if c != -1 {
      SpliceRows(s, M, target, side, c);
      SubSplit(s, M, target);
      ChildPath(s, M, target, c);
      SubSplit(s, M, c);
    }
  }

  /** The parent of a node outside the promoted subtree keeps it. */
  lemma SpliceOutsideUp(s: Snap, M: set<int>, target: int, side: int, j: int)
    requires CanSplice(s, M, target, side)
    requires j in Spliced(s, M, target, side)
    requires Child(s.t[target], side) == -1 || j !in Sub(s, M, Child(s.t[target], side))
    requires s.t[j].parent != -1
    ensures var s' := Splice(s, M, target, side);
            var p := s.t[j].parent;
            && p in Spliced(s, M, target, side)
            && (s'.t[p].left == j || s'.t[p].right == j)
            && s'.anc[p] == s.anc[p]
  {
    var s' := Splice(s, M, target, side);
    var c, k := Child(s.t[target], side), s.t[target].parent;
    var p := s.t[j].parent;
    NotInTargetSub(s, M, target, side, j);
    NodeFacts(s, M, j);
    NodeFacts(s, M, p);
    SpliceRows(s, M, target, side, p);
    if p in Sub(s, M, target) {
      ChildInSub(s, M, target, p, j);
    }
    SubSplit(s, M, target);
    if c != -1 && p in Sub(s, M, c) {
      ChildInSub(s, M, c, p, j);
    }
    if p == k {
      NodeFacts(s, M, target);
      assert j != target;
      if s.t[k].left == target {
        assert s'.t[k].right == s.t[k].right == j;
      } else {
        assert s.t[k].right == target;
        assert s'.t[k].left == s.t[k].left == j;
      }
    }
  }

  lemma SpliceOutsideSteps(s: Snap, M: set<int>, target: int, side: int, j: int)
    requires CanSplice(s, M, target, side)
    requires j in Spliced(s, M, target, side)
    requires Child(s.t[target], side) == -1 || j !in Sub(s, M, Child(s.t[target], side))
    ensures NodeSteps(Splice(s, M, target, side), j)
  {
    var s' := Splice(s, M, target, side);
    NodeFacts(s, M, j);
    assert s'.anc[j] == s.anc[j];
    forall q | 0 <= q < |s'.anc[j]|
      ensures StepOk(s', j, q)
    {
      SpliceOutsideStep(s, M, target, side, j, q);
    }
  }

  lemma SpliceOutsideStep(s: Snap, M: set<int>, target: int, side: int, j: int, q: int)
    requires CanSplice(s, M, target, side)
    requires j in Spliced(s, M, target, side)
    requires Child(s.t[target], side) == -1 || j !in Sub(s, M, Child(s.t[target], side))
    requires 0 <= q < |s.anc[j]|
    ensures StepOk(Splice(s, M, target, side), j, q)
  {
    var s' := Splice(s, M, target, side);
    var c, k := Child(s.t[target], side), s.t[target].parent;
    NotInTargetSub(s, M, target, side, j);
    NodeFacts(s, M, target);
    NodeFacts(s, M, j);
    SubSplit(s, M, target);
    assert s'.anc[j] == s.anc[j];
    var a, n := s.anc[j][q], Next(s.anc, j, q);
    assert StepOk(s, j, q);
    NextIsChild(s, M, j, q);
    OffSubPath(s, M, target, j, q + 1);
    SpliceRows(s, M, target, side, a);
    assert n != target;
    if c != -1 {
      assert n != c by {
        OffSubPath(s, M, c, j, q + 1);
        SubSplit(s, M, c);
      }
    }
    assert Next(s'.anc, j, q) == n && s'.anc[j][q] == a;
    assert s'.t[a].dim == s.t[a].dim;
    assert s'.t[a].left == n <==> s.t[a].left == n;
    assert EdgeOk(s.t, s.d, a, n, s.d[j]);
    assert EdgeOk(s'.t, s'.d, a, n, s'.d[j]);
  }

  /** The links a splice reads: the promoted child and the parent are
      distinct stored rows, and the parent holds the target in one slot. */
  lemma SpliceLinks(s: Snap, M: set<int>, target: int, side: int)
    requires CanSplice(s, M, target, side)
    ensures var c, k := Child(s.t[target], side), s.t[target].parent;
            && -1 <= c < |s.t| && -1 <= k < |s.t| && (c != -1 ==> c != k)
            && (k == -1 <==> target == s.root)
            && (k != -1 ==> s.t[k].left == target || s.t[k].right == target)
            && (k != -1 && s.t[k].left != target ==> s.t[k].right == target)
  {
    var c, k := Child(s.t[target], side), s.t[target].parent;
    NodeFacts(s, M, target);
    if k != -1 {
      NodeFacts(s, M, k);
    }
    if c != -1 {
      NodeFacts(s, M, c);
      SpliceRows(s, M, target, side, c);
    }
  }

  /** A splice puts the child on `side` in the target's place: in the slot
      of the target's parent that held the target, with that parent as its
      own, or as the root without a parent when the target was the root.
      No row but the parent's and the child's changes. */
  lemma SplicePromotes(s: Snap, M: set<int>, target: int, side: int)
    requires CanSplice(s, M, target, side)
    ensures var s', c, k := Splice(s, M, target, side), Child(s.t[target], side), s.t[target].parent;
            && (k != -1 ==> Child(s'.t[k], SlotOf(s.t[k], target)) == c && s'.root == s.root)
            && (k != -1 ==> Child(s'.t[k], 3 - SlotOf(s.t[k], target)) == Child(s.t[k], 3 - SlotOf(s.t[k], target)))
            && (k == -1 ==> s'.root == c)
            && (c != -1 ==> s'.t[c].parent == k)
            && AgreeOff(s'.t, s.t, {k, c})
  {
    SpliceLinks(s, M, target, side);
  }

  /** With the other side empty, a splice leaves every node but the target. */
  lemma SplicedOneSide(s: Snap, M: set<int>, target: int, side: int)
    requires CanSplice(s, M, target, side) && Child(s.t[target], 3 - side) == -1
    ensures Spliced(s, M, target, side) == M - {target}
  {
  }

  /** The nodes a splice leaves and the detached subtree on the other side
      are every node but the target. */
  lemma SplicedPlus(s: Snap, M: set<int>, target: int, side: int)
    requires CanSplice(s, M, target, side) && Child(s.t[target], 3 - side) != -1
    ensures Spliced(s, M, target, side) + Sub(s, M, Child(s.t[target], 3 - side)) == M - {target}
  {
    SubSplit(s, M, target);
  }

  /** A splice leaves the target's row and the rows of its subtree on the
      other side as they were. */
  lemma DetachedRows(s: Snap, M: set<int>, target: int, side: int)
    requires CanSplice(s, M, target, side)
    ensures var s' := Splice(s, M, target, side);
            && s'.t[target] == s.t[target]
            && SameChildren(s'.t, s.t, Below(s, M, target, 3 - side))
  {
    var s' := Splice(s, M, target, side);
    var k := s.t[target].parent;
    NodeFacts(s, M, target);
    SubSplit(s, M, target);
    if k != -1 {
      ParentOutsideSub(s, M, target);
    }
    SpliceRows(s, M, target, side, target);
    forall j | j in Below(s, M, target, 3 - side)
      ensures s'.t[j].left == s.t[j].left && s'.t[j].right == s.t[j].right
    {
      SpliceRows(s, M, target, side, j);
    }
  }

  /** The side of `target` whose subtree takes its place on removal: the
      non-empty one when only one is, the larger one when both are, the
      right one on a tie; for a leaf, 1, whose splice promotes nothing. */
  ghost function RemoveSide(s: Snap, M: set<int>, target: int): (side: int)
    requires ValidOn(s, M) && target in M
    ensures side == 1 || side == 2
  {
    var nl, nr := |Below(s, M, target, 1)|, |Below(s, M, target, 2)|;
    if nl == 0 && nr == 0 then 1
    else if nl == 0 then 2
    else if nr == 0 then 1
    else if nl > nr then 1 else 2
  }

  /** When removal has no subtree left over to re-insert and another node
      remains, the splice on RemoveSide leaves every other node in a valid
      tree. */
  lemma OneSidedSplice(s: Snap, M: set<int>, target: int)
    requires ValidOn(s, M) && target in M
    ensures var side := RemoveSide(s, M, target);
            Child(s.t[target], 3 - side) == -1 && |M| >= 2 ==>
              && CanSplice(s, M, target, side)
              && ValidOn(Splice(s, M, target, side), M - {target})
  {
    var side := RemoveSide(s, M, target);
    NodeFacts(s, M, target);
    SubSplit(s, M, target);
    if Child(s.t[target], 3 - side) == -1 && |M| >= 2 {
      if Child(s.t[target], side) == -1 {
        LeafRoot(s, M, target);
        assert |{target}| == 1;
      }
      SpliceValid(s, M, target, side);
      SplicedOneSide(s, M, target, side);
    }
  }

  /** When removal has a subtree left over to re-insert, the splice on
      RemoveSide is defined and valid, and the left-over subtree lies
      outside the spliced tree. */
  lemma TwoSidedSplice(s: Snap, M: set<int>, target: int)
    requires ValidOn(s, M) && target in M
    ensures var side := RemoveSide(s, M, target);
            var c := Child(s.t[target], 3 - side);
            c != -1 ==>
              && CanSplice(s, M, target, side) && c in M
              && var sp := Splice(s, M, target, side);
                 && ValidOn(sp, Spliced(s, M, target, side)) && |s.t| == |sp.t|
                 && Sub(s, M, c) !! Spliced(s, M, target, side)
  {
    var side := RemoveSide(s, M, target);
    var c := Child(s.t[target], 3 - side);
    NodeFacts(s, M, target);
    SubSplit(s, M, target);
    if c != -1 {
      assert c in Below(s, M, target, 3 - side);
      assert |Below(s, M, target, 3 - side)| > 0;
      SpliceValid(s, M, target, side);
    }
  }

  /** s with `target` taken out of the tree as removal does it: the
      subtree on RemoveSide is spliced into target's place; when the other
      side holds a subtree too, its nodes are then re-inserted one by one
      into the spliced tree in post-order (`Rehung`), each hung in the slot
      where the walk of its point ends. With another node left, every node
      but the target is then in a valid tree. */
  ghost function Unlinked(s: Snap, M: set<int>, target: int): (s1: Snap)
    requires ValidOn(s, M) && target in M
    ensures |M| >= 2 ==> ValidOn(s1, M - {target})
    ensures s1.d == s.d
  {
    var side := RemoveSide(s, M, target);
    var c := Child(s.t[target], 3 - side);
    if c == -1 then
      OneSidedSplice(s, M, target);
      Splice(s, M, target, side)
    else
      TwoSidedSplice(s, M, target);
      Rehung(s, M, target, side)
  }

  /** The table after the subtree on `side` of the two-sided node `target`
      is spliced into its place and the subtree on the other side is
      re-inserted, node by node in post-order, into the spliced tree. Every
      node but the target is then in a valid tree; the spliced tree keeps
      its links, and every re-inserted node is hung where its point goes. */
  ghost function Rehung(s: Snap, M: set<int>, target: int, side: int): (r: Snap)
    requires CanSplice(s, M, target, side) && Child(s.t[target], 3 - side) != -1
    ensures var sp := Splice(s, M, target, side);
            && ValidOn(r, M - {target}) && KeepsLinks(r.t, sp.t, Spliced(s, M, target, side))
            && (forall x :: x in Below(s, M, target, 3 - side) ==> Hung(r, x))
            && |r.t| == |s.t| && r.d == sp.d && r.dims == sp.dims && r.root == sp.root
  {
    var c := Child(s.t[target], 3 - side);
    NodeFacts(s, M, target);
    SpliceValid(s, M, target, side);
    SplicedPlus(s, M, target, side);
    Reinserted(Splice(s, M, target, side), Spliced(s, M, target, side), s, M, c)
  }

  // ---------------------------------------------------------------------
  // Compaction over a removed row

  /** A stored index after row `target` is removed: indices above it move
      down by one; -1 and indices below it are kept. */
  function Renumber(e: int, target: int): int
  {
    if e > target then e - 1 else e
  }

  /** The old row that lands in row i once row `target` is removed. */
  function Shifted(i: int, target: int): int
  {
    if i < target then i else i + 1
  }

  function RenumberNode(n: Node, target: int): Node
  {
    Node(n.dim, Renumber(n.left, target), Renumber(n.right, target), Renumber(n.parent, target))
  }

  function RenumberPath(p: seq<int>, target: int): (r: seq<int>)
    ensures |r| == |p| && forall q :: 0 <= q < |p| ==> r[q] == Renumber(p[q], target)
  {
    seq(|p|, q requires 0 <= q < |p| => Renumber(p[q], target))
  }

  /** The table after row `target` is removed: every later row moves up one
      place and every stored index above `target` is decremented. */
  ghost function Compacted(s: Snap, target: int): (r: Snap)
    requires 0 <= target < |s.t| == |s.d| == |s.anc|
    ensures |r.t| == |r.d| == |r.anc| == |s.t| - 1
  {
    var n := |s.t| - 1;
    Snap(seq(n, i requires 0 <= i < n => RenumberNode(s.t[Shifted(i, target)], target)),
         seq(n, i requires 0 <= i < n => s.d[Shifted(i, target)]),
         seq(n, i requires 0 <= i < n => RenumberPath(s.anc[Shifted(i, target)], target)),
         s.dims, Renumber(s.root, target))
  }

  /** Compaction removes exactly the target's point. */
  lemma CompactedData(s: Snap, target: int)
    requires 0 <= target < |s.t| == |s.d| == |s.anc|
    ensures Compacted(s, target).d == s.d[..target] + s.d[target + 1..]
  {
  }

  lemma RenumberFacts(s: Snap, M: set<int>, target: int, x: int)
    requires ValidOn(s, M) && M == All(|s.t|) - {target} && 0 <= target < |s.t|
    requires x == -1 || x in M
    ensures x == -1 ==> Renumber(x, target) == -1
    ensures x in M ==> 0 <= Renumber(x, target) < |s.t| - 1 && Shifted(Renumber(x, target), target) == x
  {
  }

  /** Removing the row of a node outside the tree keeps the tree valid. */
  lemma CompactValid(s: Snap, M: set<int>, target: int)
    requires ValidOn(s, M) && 0 <= target < |s.t| && M == All(|s.t|) - {target}
    ensures Valid(Compacted(s, target))
  {
    RenumberFacts(s, M, target, s.root);
    CompactSized(s, M, target);
    CompactNodes(s, M, target);
    ValidIntro(Compacted(s, target));
  }

  /** Every compacted row is in range and satisfies the invariant. */
  lemma CompactNodes(s: Snap, M: set<int>, target: int)
    requires ValidOn(s, M) && 0 <= target < |s.t| && M == All(|s.t|) - {target}
    ensures var s', n := Compacted(s, target), |s.t| - 1;
            forall i :: 0 <= i < n ==>
              && 0 <= s'.t[i].dim < s'.dims
              && -1 <= s'.t[i].left < n && -1 <= s'.t[i].right < n && -1 <= s'.t[i].parent < n
              && NodeOk(s', All(n), i)
  {
    var s', n := Compacted(s, target), |s.t| - 1;
    forall i | 0 <= i < n
      ensures && 0 <= s'.t[i].dim < s'.dims
              && -1 <= s'.t[i].left < n && -1 <= s'.t[i].right < n && -1 <= s'.t[i].parent < n
              && NodeOk(s', All(n), i)
    {
      CompactRowOk(s, M, target, i);
    }
  }

  ghost predicate CompactedRowOk(s: Snap, target: int, i: int)
    requires 0 <= target < |s.t| == |s.d| == |s.anc| && 0 <= i < |s.t| - 1
  {
    var s', n := Compacted(s, target), |s.t| - 1;
    && 0 <= s'.t[i].dim < s'.dims
    && -1 <= s'.t[i].left < n && -1 <= s'.t[i].right < n && -1 <= s'.t[i].parent < n
    && NodeOk(s', All(n), i)
  }

  lemma CompactRowOk(s: Snap, M: set<int>, target: int, i: int)
    requires ValidOn(s, M) && 0 <= target < |s.t| && M == All(|s.t|) - {target}
    requires 0 <= i < |s.t| - 1
    ensures CompactedRowOk(s, target, i)
  {
    CompactLinks(s, M, target, i);
    CompactSteps(s, M, target, i);
    CompactRanges(s, M, target, i);
  }

  /** Compaction keeps every row of the dimension of the tree. */
  lemma CompactSized(s: Snap, M: set<int>, target: int)
    requires ValidOn(s, M) && 0 <= target < |s.t| && M == All(|s.t|) - {target}
    ensures Sized(Compacted(s, target))
  {
    var s' := Compacted(s, target);
    forall i | 0 <= i < |s'.d|
      ensures |s'.d[i]| == s'.dims
    {
      assert s'.d[i] == s.d[Shifted(i, target)];
    }
  }

  /** The links of a compacted row stay within the compacted table. */
  lemma CompactRanges(s: Snap, M: set<int>, target: int, i: int)
    requires ValidOn(s, M) && 0 <= target < |s.t| && M == All(|s.t|) - {target}
    requires 0 <= i < |s.t| - 1
    ensures var s', n := Compacted(s, target), |s.t| - 1;
            && 0 <= s'.t[i].dim < s'.dims
            && -1 <= s'.t[i].left < n && -1 <= s'.t[i].right < n && -1 <= s'.t[i].parent < n
  {
    var j := Shifted(i, target);
    assert j in M;
    NodeFacts(s, M, j);
    RenumberFacts(s, M, target, s.t[j].left);
    RenumberFacts(s, M, target, s.t[j].right);
    RenumberFacts(s, M, target, s.t[j].parent);
  }

  /** Where a kept row lands: row Renumber(j) of the compacted table is row
      j renumbered, with its path renumbered. */
  lemma CompactRow(s: Snap, M: set<int>, target: int, j: int)
    requires ValidOn(s, M) && 0 <= target < |s.t| && M == All(|s.t|) - {target} && j in M
    ensures var s', j' := Compacted(s, target), Renumber(j, target);
            && 0 <= j' < |s.t| - 1 && Shifted(j', target) == j
            && s'.t[j'] == RenumberNode(s.t[j], target)
            && s'.anc[j'] == RenumberPath(s.anc[j], target)
  {
    RenumberFacts(s, M, target, j);
  }

  /** Renumbering a path extended by a node extends the renumbered path. */
  lemma RenumberAppend(p: seq<int>, x: int, target: int)
    ensures RenumberPath(p + [x], target) == RenumberPath(p, target) + [Renumber(x, target)]
  {
  }

  lemma CompactLinks(s: Snap, M: set<int>, target: int, i: int)
    requires ValidOn(s, M) && 0 <= target < |s.t| && M == All(|s.t|) - {target}
    requires 0 <= i < |s.t| - 1
    ensures NodeLinks(Compacted(s, target), All(|s.t| - 1), i)
  {
    CompactChildLinks(s, M, target, i);
    CompactParentLinks(s, M, target, i);
  }

  /** The child links of a compacted row. */
  lemma CompactChildLinks(s: Snap, M: set<int>, target: int, i: int)
    requires ValidOn(s, M) && 0 <= target < |s.t| && M == All(|s.t|) - {target}
    requires 0 <= i < |s.t| - 1
    ensures var s', n := Compacted(s, target), |s.t| - 1;
            var ti := s'.t[i];
            && i < |s'.anc| && i < |s'.d| && 0 <= ti.dim < s'.dims
            && LinkIn(All(n), ti.left) && LinkIn(All(n), ti.right)
            && (ti.left != -1 ==> 0 <= ti.left < n && s'.t[ti.left].parent == i && ti.left != ti.right)
            && (ti.right != -1 ==> 0 <= ti.right < n && s'.t[ti.right].parent == i)
  {
    var j := Shifted(i, target);
    assert j in M;
    CompactRow(s, M, target, j);
    NodeFacts(s, M, j);
    var tj := s.t[j];
    RenumberFacts(s, M, target, tj.left);
    RenumberFacts(s, M, target, tj.right);
    if tj.left != -1 {
      CompactRow(s, M, target, tj.left);
      NodeFacts(s, M, tj.left);
    }
    if tj.right != -1 {
      CompactRow(s, M, target, tj.right);
      NodeFacts(s, M, tj.right);
    }
  }

  /** The parent link and the path of a compacted row. */
  lemma CompactParentLinks(s: Snap, M: set<int>, target: int, i: int)
    requires ValidOn(s, M) && 0 <= target < |s.t| && M == All(|s.t|) - {target}
    requires 0 <= i < |s.t| - 1
    ensures var s', n := Compacted(s, target), |s.t| - 1;
            var ti := s'.t[i];
            && LinkIn(All(n), ti.parent)
            && (ti.parent == -1 <==> i == s'.root)
            && (ti.parent == -1 ==> s'.anc[i] == [])
            && (ti.parent != -1 ==>
                  && 0 <= ti.parent < n && ti.parent < |s'.anc|
                  && (s'.t[ti.parent].left == i || s'.t[ti.parent].right == i)
                  && s'.anc[i] == Path(s'.anc, ti.parent))
  {
    var j := Shifted(i, target);
    assert j in M;
    CompactRow(s, M, target, j);
    NodeFacts(s, M, j);
    var p := s.t[j].parent;
    RenumberFacts(s, M, target, p);
    RenumberFacts(s, M, target, s.root);
    if p != -1 {
      CompactRow(s, M, target, p);
      NodeFacts(s, M, p);
      RenumberAppend(s.anc[p], p, target);
    }
  }

  lemma CompactSteps(s: Snap, M: set<int>, target: int, i: int)
    requires ValidOn(s, M) && 0 <= target < |s.t| && M == All(|s.t|) - {target}
    requires 0 <= i < |s.t| - 1
    ensures NodeSteps(Compacted(s, target), i)
  {
    var s' := Compacted(s, target);
    var j := Shifted(i, target);
    assert j in M && Renumber(j, target) == i;
    NodeFacts(s, M, j);
    assert s'.anc[i] == RenumberPath(s.anc[j], target);
    assert s'.d[i] == s.d[j];
    forall q | 0 <= q < |s'.anc[i]|
      ensures StepOk(s', i, q)
    {
      var a, nx := s.anc[j][q], Next(s.anc, j, q);
      assert StepOk(s, j, q);
      NextIsChild(s, M, j, q);
      RenumberFacts(s, M, target, a);
      RenumberFacts(s, M, target, nx);
      NodeFacts(s, M, a);
      RenumberFacts(s, M, target, s.t[a].left);
      var a' := Renumber(a, target);
      assert s'.anc[i][q] == a';
      assert Next(s'.anc, i, q) == Renumber(nx, target);
      assert s'.t[a'] == RenumberNode(s.t[a], target);
      assert s'.d[a'] == s.d[a];
    }
  }

  /** Removing the last row renumbers nothing: the table just loses that row. */
  lemma CompactLast(s: Snap, M: set<int>, target: int)
    requires ValidOn(s, M) && 0 <= target < |s.t| && M == All(|s.t|) - {target}
    requires target == |s.t| - 1
    ensures Compacted(s, target) == Snap(s.t[..target], s.d[..target], s.anc[..target], s.dims, s.root)
  {
    var s' := Compacted(s, target);
    forall i | 0 <= i < target
      ensures s'.t[i] == s.t[i] && s'.anc[i] == s.anc[i]
    {
      assert i in M;
      NodeFacts(s, M, i);
      RenumberFacts(s, M, target, s.t[i].left);
      RenumberFacts(s, M, target, s.t[i].right);
      RenumberFacts(s, M, target, s.t[i].parent);
      forall m | 0 <= m < |s.anc[i]|
        ensures Renumber(s.anc[i][m], target) == s.anc[i][m]
      {
        PathPrefix(s, M, i, m);
        assert Path(s.anc, i)[m] == s.anc[i][m];
      }
    }
    RenumberFacts(s, M, target, s.root);
  }
}
