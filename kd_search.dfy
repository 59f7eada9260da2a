/** The k-nearest-neighbour search of the k-d tree as values: squared
    distances, the bounded candidate list kept sorted by distance, and the
    facts that make pruning a branch safe. */
module KdSearch {
  import opened KdSpec

  /** Squared Euclidean distance. The search compares distances only with
      each other and with squared coordinate gaps, so the square root the
      tree takes is left out. */
  function Dist2(x: seq<real>, y: seq<real>): (r: real)
    requires |x| == |y|
    ensures r >= 0.0
    decreases |x|
  {
    if |x| == 0 then 0.0
    else
      var a := x[|x| - 1] - y[|y| - 1];
      Dist2(x[..|x| - 1], y[..|y| - 1]) + a * a
  }

  /** The squared distance is at least the squared gap in any one coordinate. */
  lemma {:induction false} Dist2Coordinate(x: seq<real>, y: seq<real>, i: int)
    requires |x| == |y| && 0 <= i < |x|
    ensures Dist2(x, y) >= (x[i] - y[i]) * (x[i] - y[i])
    decreases |x|
  {
    var n := |x| - 1;
    var a := x[n] - y[n];
    var rest := Dist2(x[..n], y[..n]);
    assert Dist2(x, y) == rest + a * a;
    if i < n {
      Dist2Coordinate(x[..n], y[..n], i);
      assert x[..n][i] == x[i] && y[..n][i] == y[i];
      assert rest >= (x[i] - y[i]) * (x[i] - y[i]);
      assert a * a >= 0.0;
    } else {
      assert i == n;
      assert rest >= 0.0;
    }
  }

  /** The candidate list: `cands[..found]` are the points found so far and
      `dists[..found]` their squared distances; the remaining distance slots
      hold -1. */
  datatype Neighbors = Neighbors(cands: seq<int>, dists: seq<real>, found: int)

  ghost predicate Shaped(nb: Neighbors)
  {
    |nb.cands| == |nb.dists| >= 1 && 0 <= nb.found <= |nb.dists|
  }

  /** Every point of D is a row of d of the query's dimension. */
  ghost predicate Rows(v: seq<real>, d: seq<seq<real>>, D: set<int>)
  {
    forall x :: x in D ==> 0 <= x < |d| && |d[x]| == |v|
  }

  /** The list is exactly right for the points D examined so far: its
      entries are distinct points of D with their true distances, sorted
      ascending; and a point of D that is not listed is no closer than the
      last entry of a full list. */
  ghost predicate ListOk(nb: Neighbors, v: seq<real>, d: seq<seq<real>>, D: set<int>)
  {
    var C, Ds, f, w := nb.cands, nb.dists, nb.found, |nb.dists|;
    && Shaped(nb) && Rows(v, d, D)
    && (forall i :: 0 <= i < f ==> C[i] in D && Ds[i] == Dist2(v, d[C[i]]))
    && (forall i, j :: 0 <= i < j < f ==> Ds[i] <= Ds[j] && C[i] != C[j])
    && (forall i :: f <= i < w ==> Ds[i] == -1.0)
    && (forall x :: x in D && x !in C[..f] ==> f == w && Dist2(v, d[x]) >= Ds[w - 1])
  }

  /** The first position, among the found ones, whose distance is not below dd. */
  function FirstNotCloser(Ds: seq<real>, found: int, dd: real): (j: int)
    requires 0 <= found <= |Ds|
    ensures 0 <= j <= found
    ensures forall i :: 0 <= i < j ==> Ds[i] < dd
    ensures j < found ==> dd <= Ds[j]
    decreases found
  {
    if found == 0 then 0
    else
      var j := FirstNotCloser(Ds, found - 1, dd);
      if j < found - 1 || dd <= Ds[found - 1] then j else found
  }

  /** The candidate entering test: the list is not full yet, or the point is
      strictly closer than the current last entry. */
  predicate Enters(nb: Neighbors, dd: real)
    requires |nb.dists| >= 1
  {
    nb.found < |nb.dists| || dd < nb.dists[|nb.dists| - 1]
  }

  /** The list after offering `node` at squared distance dd: an entering
      point goes before the first entry that is not closer, the last entry
      drops off a full list, and the count grows while the list is not full. */
  function Offer(nb: Neighbors, node: int, dd: real): (r: Neighbors)
    requires Shaped(nb)
    ensures Shaped(r) && |r.dists| == |nb.dists|
  {
    var w := |nb.dists|;
    if Enters(nb, dd) then
      var j := FirstNotCloser(nb.dists, nb.found, dd);
      Neighbors(nb.cands[..j] + [node] + nb.cands[j..w - 1],
                nb.dists[..j] + [dd] + nb.dists[j..w - 1],
                if nb.found < w then nb.found + 1 else nb.found)
    else nb
  }

  /** The first position not below dd is the only one with nothing but
      smaller distances before it. */
  lemma FirstNotCloserIs(Ds: seq<real>, found: int, dd: real, j: int)
    requires 0 <= j <= found <= |Ds|
    requires forall i :: 0 <= i < j ==> Ds[i] < dd
    requires j < found ==> dd <= Ds[j]
    ensures j == FirstNotCloser(Ds, found, dd)
  {
  }

  /** a is b with x inserted at position j and its last element dropped. */
  lemma InsertedAt<T>(a: seq<T>, b: seq<T>, j: int, x: T)
    requires |a| == |b| && 0 <= j < |a| && a[j] == x
    requires forall q :: 0 <= q < j ==> a[q] == b[q]
    requires forall q :: j < q < |a| ==> a[q] == b[q - 1]
    ensures a == b[..j] + [x] + b[j..|b| - 1]
  {
  }

  /** The arrays an insertion leaves behind are the list Offer describes. */
  lemma OfferIs(nb: Neighbors, node: int, dd: real, j: int, C: seq<int>, Ds: seq<real>, f: int)
    requires Shaped(nb) && Enters(nb, dd)
    requires 0 <= j <= nb.found && (forall i :: 0 <= i < j ==> nb.dists[i] < dd)
    requires j < nb.found ==> dd <= nb.dists[j]
    requires |C| == |Ds| == |nb.dists| && j < |Ds| && C[j] == node && Ds[j] == dd
    requires forall q :: 0 <= q < j ==> Ds[q] == nb.dists[q] && C[q] == nb.cands[q]
    requires forall q :: j < q < |Ds| ==> Ds[q] == nb.dists[q - 1] && C[q] == nb.cands[q - 1]
    requires f == if nb.found < |nb.dists| then nb.found + 1 else nb.found
    ensures Neighbors(C, Ds, f) == Offer(nb, node, dd)
  {
    FirstNotCloserIs(nb.dists, nb.found, dd, j);
    InsertedAt(Ds, nb.dists, j, dd);
    InsertedAt(C, nb.cands, j, node);
  }

  /** The list seeded with a single point: slot 0 holds it, every other
      distance slot holds -1. */
  lemma SeedOk(nb: Neighbors, v: seq<real>, d: seq<seq<real>>, start: int)
    requires |nb.cands| == |nb.dists| >= 1 && nb.found == 1
    requires 0 <= start < |d| && |d[start]| == |v|
    requires nb.cands[0] == start && nb.dists[0] == Dist2(v, d[start])
    requires forall i :: 1 <= i < |nb.dists| ==> nb.dists[i] == -1.0
    ensures ListOk(nb, v, d, {start})
  {
    assert nb.cands[..1] == [start];
  }

  /** Offering a new point keeps the list exactly right for the points
      examined, the new one included. */
  lemma OfferOk(nb: Neighbors, v: seq<real>, d: seq<seq<real>>, D: set<int>, node: int)
    requires ListOk(nb, v, d, D) && node !in D && 0 <= node < |d| && |d[node]| == |v|
    ensures ListOk(Offer(nb, node, Dist2(v, d[node])), v, d, D + {node})
    ensures Offer(nb, node, Dist2(v, d[node])).found >= nb.found
  {
    var dd := Dist2(v, d[node]);
    if Enters(nb, dd) {
      OfferEnters(nb, v, d, D, node);
    } else {
      assert Offer(nb, node, dd) == nb;
      var E := DistsOf(v, d, D + {node});
      RankedIs(nb, v, d, D, E);
      SkippedOk(nb, E, D, node);
      RankedIs(nb, v, d, D + {node}, E);
    }
  }

  /** The squared distances from v of the points D, as a map. */
  lemma DistsOf(v: seq<real>, d: seq<seq<real>>, D: set<int>) returns (E: map<int, real>)
    requires Rows(v, d, D)
    ensures forall x :: x in D ==> x in E
    ensures forall x :: x in D ==> E[x] == Dist2(v, d[x])
  {
    E := map x | x in D :: Dist2(v, d[x]);
  }

  /** A point that does not enter a full list is no closer than its last
      entry, so the unchanged list is right for it too. */
  lemma SkippedOk(nb: Neighbors, E: map<int, real>, D: set<int>, node: int)
    requires Ranked(nb, E, D) && node !in D && node in E && !Enters(nb, E[node])
    ensures Ranked(nb, E, D + {node})
  {
  }

  /** r is nb with `node` at distance dd entered at position j: the entries
      before j are kept, the entry point is the first found entry not closer
      than dd, the later entries move up one and the last one drops off. */
  ghost predicate EnteredAt(nb: Neighbors, r: Neighbors, node: int, dd: real, j: int)
  {
    var w := |nb.dists|;
    && Shaped(nb) && |r.cands| == |r.dists| == w && 0 <= j <= nb.found && j < w
    && r.found == (if nb.found < w then nb.found + 1 else w)
    && (forall i :: 0 <= i < j ==> nb.dists[i] < dd)
    && (j < nb.found ==> dd <= nb.dists[j])
    && (forall i :: 0 <= i < j ==> r.cands[i] == nb.cands[i] && r.dists[i] == nb.dists[i])
    && r.cands[j] == node && r.dists[j] == dd
    && (forall i :: j < i < w ==> r.cands[i] == nb.cands[i - 1] && r.dists[i] == nb.dists[i - 1])
  }

  /** Where the entries of the list land when a point enters. */
  lemma OfferLayout(nb: Neighbors, node: int, dd: real)
    requires Shaped(nb) && Enters(nb, dd)
    ensures EnteredAt(nb, Offer(nb, node, dd), node, dd, FirstNotCloser(nb.dists, nb.found, dd))
  {
  }

  lemma OfferEnters(nb: Neighbors, v: seq<real>, d: seq<seq<real>>, D: set<int>, node: int)
    requires ListOk(nb, v, d, D) && node !in D && 0 <= node < |d| && |d[node]| == |v|
    requires Enters(nb, Dist2(v, d[node]))
    ensures ListOk(Offer(nb, node, Dist2(v, d[node])), v, d, D + {node})
    ensures Offer(nb, node, Dist2(v, d[node])).found >= nb.found
  {
    var dd := Dist2(v, d[node]);
    var r := Offer(nb, node, dd);
    var E := DistsOf(v, d, D + {node});
    OfferLayout(nb, node, dd);
    RankedIs(nb, v, d, D, E);
    EnteredOk(nb, r, E, D, node, FirstNotCloser(nb.dists, nb.found, dd));
    RankedIs(r, v, d, D + {node}, E);
  }

  /** ListOk with the distances of the examined points given by the map E. */
  ghost predicate Ranked(nb: Neighbors, E: map<int, real>, D: set<int>)
  {
    var C, Ds, f, w := nb.cands, nb.dists, nb.found, |nb.dists|;
    && Shaped(nb) && (forall x :: x in D ==> x in E)
    && (forall i :: 0 <= i < f ==> C[i] in D && Ds[i] == E[C[i]])
    && (forall i, j :: 0 <= i < j < f ==> Ds[i] <= Ds[j] && C[i] != C[j])
    && (forall i :: f <= i < w ==> Ds[i] == -1.0)
    && (forall x :: x in D && x !in C[..f] ==> f == w && E[x] >= Ds[w - 1])
  }

  lemma RankedIs(nb: Neighbors, v: seq<real>, d: seq<seq<real>>, D: set<int>, E: map<int, real>)
    requires Rows(v, d, D) && (forall x :: x in D ==> x in E)
    requires forall x :: x in D ==> E[x] == Dist2(v, d[x])
    ensures ListOk(nb, v, d, D) <==> Ranked(nb, E, D)
  {
    var C, f := nb.cands, nb.found;
    if Shaped(nb) && forall i :: 0 <= i < f ==> C[i] in D {
      forall i | 0 <= i < f
        ensures C[i] in E && (nb.dists[i] == E[C[i]] <==> nb.dists[i] == Dist2(v, d[C[i]]))
      {
        var x := C[i];
        assert x in D;
        assert x in E;
        assert E[x] == Dist2(v, d[x]);
      }
      var last := nb.dists[|nb.dists| - 1];
      assert forall x :: x in D ==> (E[x] >= last <==> Dist2(v, d[x]) >= last);
    }
  }

  /** An entry into a list that is right for D is right for D and the new point. */
  lemma EnteredOk(nb: Neighbors, r: Neighbors, E: map<int, real>, D: set<int>, node: int, j: int)
    requires Ranked(nb, E, D) && node !in D && node in E && EnteredAt(nb, r, node, E[node], j)
    ensures Ranked(r, E, D + {node})
  {
    forall i | 0 <= i < r.found
      ensures r.cands[i] in D + {node} && r.dists[i] == E[r.cands[i]]
    {
    }
    forall i, k | 0 <= i < k < r.found
      ensures r.dists[i] <= r.dists[k] && r.cands[i] != r.cands[k]
    {
      EnteredPair(nb, r, E, D, node, j, i, k);
    }
    forall x | x in D + {node} && x !in r.cands[..r.found]
      ensures r.found == |r.dists| && E[x] >= r.dists[|r.dists| - 1]
    {
      EnteredDropped(nb, r, E, D, node, j, x);
    }
  }

  /** Two entries of the list after an entry are in order and distinct. */
  lemma EnteredPair(nb: Neighbors, r: Neighbors, E: map<int, real>, D: set<int>, node: int, j: int, i: int, k: int)
    requires Ranked(nb, E, D) && node !in D && node in E && EnteredAt(nb, r, node, E[node], j)
    requires 0 <= i < k < r.found
    ensures r.dists[i] <= r.dists[k] && r.cands[i] != r.cands[k]
  {
    var Ds := nb.dists;
    if k == j {
      assert Ds[i] < r.dists[j];
    } else if i == j {
      assert r.dists[j] <= Ds[j];
      assert j == k - 1 || Ds[j] <= Ds[k - 1];
    } else if i < j && j < k {
      assert Ds[i] < r.dists[j] <= Ds[j];
      assert j == k - 1 || Ds[j] <= Ds[k - 1];
    }
  }

  /** The entries that survive an entry: everything before the entry point,
      and everything after it that still fits the list. */
  lemma EnteredKeeps(nb: Neighbors, r: Neighbors, node: int, dd: real, j: int, i: int)
    requires EnteredAt(nb, r, node, dd, j) && 0 <= i < nb.found && (i < j || i + 1 < r.found)
    ensures nb.cands[i] in r.cands[..r.found]
  {
    if i < j {
      assert r.cands[..r.found][i] == nb.cands[i];
    } else {
      assert r.cands[..r.found][i + 1] == nb.cands[i];
    }
  }

  /** The last entry of a full list never grows when a point enters. */
  lemma EnteredTail(nb: Neighbors, r: Neighbors, node: int, dd: real, j: int)
    requires EnteredAt(nb, r, node, dd, j) && nb.found == |nb.dists|
    requires forall i, k :: 0 <= i < k < nb.found ==> nb.dists[i] <= nb.dists[k]
    ensures r.dists[|nb.dists| - 1] <= nb.dists[|nb.dists| - 1]
  {
    var w := |nb.dists|;
    if j < w - 1 {
      assert r.dists[w - 1] == nb.dists[w - 2];
    }
  }

  /** An examined point that the list no longer holds after an entry. */
  lemma EnteredDropped(nb: Neighbors, r: Neighbors, E: map<int, real>, D: set<int>, node: int, j: int, x: int)
    requires Ranked(nb, E, D) && node !in D && node in E && EnteredAt(nb, r, node, E[node], j)
    requires x in D + {node} && x !in r.cands[..r.found]
    ensures r.found == |r.dists| && E[x] >= r.dists[|r.dists| - 1]
  {
    var C, f, w := nb.cands, nb.found, |nb.dists|;
    assert r.cands[..r.found][j] == node;
    if x in C[..f] {
      var i :| 0 <= i < f && C[i] == x;
      if i < j || i + 1 < r.found {
        EnteredKeeps(nb, r, node, E[node], j, i);
      }
      assert i == w - 1 && f == w;
    }
    EnteredTail(nb, r, node, E[node], j);
  }

  /** Adding a set of points that are all farther than the last entry of a
      full list keeps the list exactly right. */
  lemma PruneOk(nb: Neighbors, v: seq<real>, d: seq<seq<real>>, D: set<int>, P: set<int>)
    requires ListOk(nb, v, d, D) && nb.found == |nb.dists| && Rows(v, d, P)
    requires forall x :: x in P ==> Dist2(v, d[x]) > nb.dists[|nb.dists| - 1]
    ensures ListOk(nb, v, d, D + P)
  {
    forall x | x in D + P && x !in nb.cands[..nb.found]
      ensures Dist2(v, d[x]) >= nb.dists[|nb.dists| - 1]
    {
    }
  }

  /** The pruning test of the search: a branch at signed gap `gap` from the
      query is entered while the list is not full, or while the gap is at most
      the distance of the last entry (the gap is not squared when it is not
      positive). */
  predicate MayHoldCloser(nb: Neighbors, gap: real)
    requires Shaped(nb) && nb.found >= 1
  {
    (gap <= 0.0 || gap * gap <= nb.dists[nb.found - 1]) || nb.found < |nb.dists|
  }

  /** A point whose coordinate i lies at least gap > 0 away from v's is at
      squared distance at least gap * gap. */
  lemma GapFar(v: seq<real>, y: seq<real>, i: int, gap: real)
    requires |v| == |y| && 0 <= i < |v| && gap > 0.0
    requires v[i] - y[i] >= gap || y[i] - v[i] >= gap
    ensures Dist2(v, y) >= gap * gap
  {
    Dist2Coordinate(v, y, i);
    AtLeastSquare(Dist2(v, y), v[i] - y[i], gap);
  }

  /** d >= a * a and |a| >= gap > 0 give d >= gap * gap. */
  lemma AtLeastSquare(d: real, a: real, gap: real)
    requires d >= a * a && gap > 0.0 && (a >= gap || -a >= gap)
    ensures d >= gap * gap
  {
    if a >= gap {
      SquareMono(a, gap);
    } else {
      SquareMono(-a, gap);
      NegSquare(a);
    }
  }

  lemma NegSquare(a: real)
    ensures (-a) * (-a) == a * a
  {
  }

  lemma SquareMono(e: real, gap: real)
    requires e >= gap > 0.0
    ensures e * e >= gap * gap
  {
    var u := e - gap;
    assert e * e == gap * gap + u * (e + gap);
    assert u * (e + gap) >= 0.0;
  }

  /** A point below a is a row of the tree's dimension. */
  lemma BelowRow(s: Snap, M: set<int>, a: int, dir: int, x: int)
    requires ValidOn(s, M) && a in M && x in Below(s, M, a, dir)
    ensures 0 <= x < |s.d| && |s.d[x]| == s.dims
  {
    SubSplit(s, M, a);
    assert Sub(s, M, a) <= M;
    SubsetRows(s, M, Sub(s, M, a), x);
  }

  /** Every point of the left subtree of a is at least as far from v as v's
      gap above a in a's split dimension. */
  lemma LeftBranchFar(s: Snap, M: set<int>, a: int, v: seq<real>, x: int)
    requires ValidOn(s, M) && a in M && |v| == s.dims && x in Below(s, M, a, 1)
    ensures var i := s.t[a].dim;
            var gap := v[i] - s.d[a][i];
            gap > 0.0 ==> Dist2(v, s.d[x]) >= gap * gap
  {
    NodeFacts(s, M, a);
    SubtreeSide(s, M, a, x);
    BelowRow(s, M, a, 1, x);
    var i := s.t[a].dim;
    var gap := v[i] - s.d[a][i];
    if gap > 0.0 {
      GapFar(v, s.d[x], i, gap);
    }
  }

  /** Every point of the right subtree of a is at least as far from v as v's
      gap below a in a's split dimension. */
  lemma RightBranchFar(s: Snap, M: set<int>, a: int, v: seq<real>, x: int)
    requires ValidOn(s, M) && a in M && |v| == s.dims && x in Below(s, M, a, 2)
    ensures var i := s.t[a].dim;
            var gap := s.d[a][i] - v[i];
            gap > 0.0 ==> Dist2(v, s.d[x]) >= gap * gap
  {
    NodeFacts(s, M, a);
    SubtreeSide(s, M, a, x);
    BelowRow(s, M, a, 2, x);
    var i := s.t[a].dim;
    var gap := s.d[a][i] - v[i];
    if gap > 0.0 {
      GapFar(v, s.d[x], i, gap);
    }
  }

  lemma SubsetRows(s: Snap, M: set<int>, S: set<int>, x: int)
    requires ValidOn(s, M) && S <= M && x in S
    ensures 0 <= x < |s.d| && |s.d[x]| == s.dims
  {
  }

  /** A pruned branch holds only points farther than the last entry. */
  lemma PrunedFar(nb: Neighbors, gap: real, dist: real)
    requires Shaped(nb) && nb.found >= 1 && !MayHoldCloser(nb, gap)
    requires gap > 0.0 ==> dist >= gap * gap
    ensures nb.found == |nb.dists| && dist > nb.dists[|nb.dists| - 1]
  {
  }

  /** A branch of node a that the pruning test skips holds no point closer
      than the last entry of the full list, so the list stays right when the
      whole branch counts as examined. */
  lemma PruneBranch(nb: Neighbors, v: seq<real>, s: Snap, M: set<int>, D: set<int>, a: int, dir: int, gap: real)
    requires ValidOn(s, M) && a in M && |v| == s.dims && (dir == 1 || dir == 2)
    requires ListOk(nb, v, s.d, D) && nb.found >= 1
    requires gap == var i := s.t[a].dim; if dir == 1 then v[i] - s.d[a][i] else s.d[a][i] - v[i]
    requires !MayHoldCloser(nb, gap)
    ensures ListOk(nb, v, s.d, D + Below(s, M, a, dir))
  {
    NodeFacts(s, M, a);
    SubSplit(s, M, a);
    var P := Below(s, M, a, dir);
    forall x | x in P
      ensures 0 <= x < |s.d| && |s.d[x]| == |v| && Dist2(v, s.d[x]) > nb.dists[|nb.dists| - 1]
    {
      SubsetRows(s, M, P, x);
      if dir == 1 {
        LeftBranchFar(s, M, a, v, x);
      } else {
        RightBranchFar(s, M, a, v, x);
      }
      PrunedFar(nb, gap, Dist2(v, s.d[x]));
    }
    PruneOk(nb, v, s.d, D, P);
  }

  // ---------------------------------------------------------------------
  // The three ways out of the start node

  /** The part of the tree reached through column `slot` of start: its left
      or right subtree, or (through the parent) everything outside start's
      subtree. */
  ghost function Region(s: Snap, M: set<int>, start: int, slot: int): set<int>
    requires 0 <= start < |s.t|
  {
    if slot == 3 then M - Sub(s, M, start) else Below(s, M, start, slot)
  }

  /** The start node and the regions of the columns already searched. */
  ghost function Covered(s: Snap, M: set<int>, start: int, used: seq<int>): set<int>
    requires 0 <= start < |s.t|
  {
    {start} + (if 1 in used then Region(s, M, start, 1) else {})
            + (if 2 in used then Region(s, M, start, 2) else {})
            + (if 3 in used then Region(s, M, start, 3) else {})
  }

  /** What searching through column q of start needs, and what it adds. */
  lemma RegionStep(s: Snap, M: set<int>, start: int, used: seq<int>, q: int)
    requires ValidOn(s, M) && start in M && 1 <= q <= 3 && q !in used
    ensures var c, D := Column(s.t[start], q), Covered(s, M, start, used);
            && (c != -1 ==> c in M && 0 <= c < |s.anc|)
            && (c != -1 && q != 3 ==> s.t[c].parent == start && Sub(s, M, c) !! D && Sub(s, M, c) == Region(s, M, start, q))
            && (c != -1 && q == 3 ==> s.t[start].parent == c && s.t[c].parent != start && D <= Sub(s, M, start))
            && (c == -1 ==> Region(s, M, start, q) == {})
            && Covered(s, M, start, used + [q]) == D + Region(s, M, start, q)
  {
    NodeFacts(s, M, start);
    SubSplit(s, M, start);
    var c := Column(s.t[start], q);
    if c != -1 {
      NodeFacts(s, M, c);
    }
    if q == 3 && c != -1 {
      ParentOutsideSub(s, M, start);
    }
    if q == 3 && c == -1 {
      SubRoot(s, M);
    }
    var used' := used + [q];
    assert forall j :: j in used' <==> j in used || j == q;
  }

  /** Once all three columns are searched, the whole tree is covered. */
  lemma CoveredAll(s: Snap, M: set<int>, start: int, used: seq<int>)
    requires Valid(s) && M == All(|s.t|) && 0 <= start < |s.t|
    requires |used| == 3 && (forall i :: 0 <= i < 3 ==> 1 <= used[i] <= 3)
    requires used[0] != used[1] && used[0] != used[2] && used[1] != used[2]
    ensures Covered(s, M, start, used) == M
  {
    assert 1 in used && 2 in used && 3 in used;
    SubSplit(s, M, start);
  }

  /** What the search through column order[i] of start needs, and that
      what it adds makes up the next covered region; after the third
      column that is the whole tree. */
  lemma BranchPlan(s: Snap, M: set<int>, start: int, order: seq<int>, i: int, D: set<int>)
    requires Valid(s) && M == All(|s.t|) && 0 <= start < |s.t| && 0 <= i < 3
    requires |order| == 3 && (forall j :: 0 <= j < 3 ==> 1 <= order[j] <= 3)
    requires order[0] != order[1] && order[0] != order[2] && order[1] != order[2]
    requires D == Covered(s, M, start, order[..i])
    ensures var c, D' := Column(s.t[start], order[i]), Covered(s, M, start, order[..i + 1]);
            && (c != -1 ==> 0 <= c < |s.t| && (s.t[c].parent == start || s.t[start].parent == c))
            && (c != -1 && s.t[c].parent == start ==> Sub(s, M, c) !! D && D' == D + Sub(s, M, c))
            && (c != -1 && s.t[c].parent != start ==> D <= Sub(s, M, start) && D' == D + (M - Sub(s, M, start)))
            && (c == -1 ==> D' == D)
            && (i == 2 ==> D' == M)
  {
    var q := order[i];
    assert InRange(|s.t|, start);
    assert order[..i + 1] == order[..i] + [q];
    RegionStep(s, M, start, order[..i], q);
    if i == 2 {
      assert order[..i + 1] == order;
      CoveredAll(s, M, start, order);
    }
  }

  // ---------------------------------------------------------------------
  // What a finished search delivers

  lemma {:induction false} DistinctCard(C: seq<int>)
    requires Distinct(C)
    ensures |set x | x in C| == |C|
  {
    if |C| > 0 {
      var C0 := C[..|C| - 1];
      DistinctCard(C0);
      assert (set x | x in C) == (set x | x in C0) + {C[|C| - 1]};
    }
  }

  /** A list that is right for D holds min(k, |D|) points, k being its length. */
  lemma FoundCount(nb: Neighbors, v: seq<real>, d: seq<seq<real>>, D: set<int>)
    requires ListOk(nb, v, d, D)
    ensures nb.found == if |nb.dists| < |D| then |nb.dists| else |D|
  {
    var L := nb.cands[..nb.found];
    assert Distinct(L);
    DistinctCard(L);
    var S := set x | x in L;
    assert S <= D;
    if nb.found < |nb.dists| {
      forall x | x in D
        ensures x in S
      {
      }
      assert S == D;
    } else {
      assert |S| <= |D| by { SubsetCard(S, D); }
    }
  }

  lemma SubsetCard(A: set<int>, B: set<int>)
    requires A <= B
    ensures |A| <= |B|
  {
    assert B == A + (B - A);
  }
}
