/** The bookkeeping of the Gaussian-process interpolator: the sample points
    live in a k-d tree, and the function values observed at them live in a
    table whose rows move in lockstep with the tree's point rows. Points may
    be normalised into the box [min, max] first. The covariogram is an
    arbitrary function of two points; the numerical solve that uses the
    covariance matrix is not part of this model. */
module GaussianProcesses {
  import opened Errors
  import opened KdSpec
  import opened KdSearch
  import opened KdTrees

  // ---------------------------------------------------------------------
  // Normalisation

  /** Every dimension of the box [mn, mx] has a non-zero width. */
  predicate Box(mn: seq<real>, mx: seq<real>, dims: int)
  {
    |mn| == |mx| == dims && forall j :: 0 <= j < dims ==> mx[j] != mn[j]
  }

  /** x rescaled so that mn maps to 0 and mx to 1 in every dimension. */
  function Scaled(x: seq<real>, mn: seq<real>, mx: seq<real>): (r: seq<real>)
    requires Box(mn, mx, |x|)
    ensures |r| == |x|
    ensures forall j :: 0 <= j < |x| ==> r[j] * (mx[j] - mn[j]) + mn[j] == x[j]
  {
    seq(|x|, j requires 0 <= j < |x| => (x[j] - mn[j]) / (mx[j] - mn[j]))
  }

  /** Rescaling is one to one: two points with the same image are equal. */
  lemma ScaledInjective(x: seq<real>, y: seq<real>, mn: seq<real>, mx: seq<real>)
    requires Box(mn, mx, |x|) && |y| == |x| && Scaled(x, mn, mx) == Scaled(y, mn, mx)
    ensures x == y
  {
    var r := Scaled(x, mn, mx);
    forall j | 0 <= j < |x|
      ensures x[j] == y[j]
    {
      assert x[j] == r[j] * (mx[j] - mn[j]) + mn[j];
    }
  }

  /** A point inside the box lands in the unit cube. */
  lemma ScaledInUnitCube(x: seq<real>, mn: seq<real>, mx: seq<real>)
    requires Box(mn, mx, |x|)
    requires forall j :: 0 <= j < |x| ==> mn[j] < mx[j] && mn[j] <= x[j] <= mx[j]
    ensures forall j :: 0 <= j < |x| ==> 0.0 <= Scaled(x, mn, mx)[j] <= 1.0
  {
    forall j | 0 <= j < |x|
      ensures 0.0 <= Scaled(x, mn, mx)[j] <= 1.0
    {
      UnitRatio(x[j] - mn[j], mx[j] - mn[j]);
    }
  }

  lemma UnitRatio(a: real, w: real)
    requires 0.0 <= a <= w && w > 0.0
    ensures 0.0 <= a / w <= 1.0
  {
    assert a / w * w == a;
  }

  /** Rescales every row of rows, one coordinate at a time. */
  method ScaleRows(rows: seq<seq<real>>, mn: seq<real>, mx: seq<real>) returns (out: seq<seq<real>>)
    requires forall i :: 0 <= i < |rows| ==> Box(mn, mx, |rows[i]|)
    ensures |out| == |rows| && forall i :: 0 <= i < |rows| ==> out[i] == Scaled(rows[i], mn, mx)
  {
    out := [];
    var i := 0;
    while i < |rows|
      invariant 0 <= i <= |rows| && |out| == i
      invariant forall k :: 0 <= k < i ==> out[k] == Scaled(rows[k], mn, mx)
    {
      var row := [];
      var j := 0;
      while j < |rows[i]|
        invariant 0 <= j <= |rows[i]| && row == Scaled(rows[i], mn, mx)[..j]
      {
        row := row + [(rows[i][j] - mn[j]) / (mx[j] - mn[j])];
        j := j + 1;
      }
      out := out + [row];
      i := i + 1;
    }
  }

  /** rows without row i. */
  function DropRow(rows: seq<seq<real>>, i: int): seq<seq<real>>
    requires 0 <= i < |rows|
  {
    rows[..i] + rows[i + 1..]
  }

  /** All rows have length dims. */
  predicate Rectangular(rows: seq<seq<real>>, dims: int)
  {
    forall i :: 0 <= i < |rows| ==> |rows[i]| == dims
  }

  // ---------------------------------------------------------------------
  // Self-neighbour selection on values

  /** Every point is at distance 0 from itself. */
  lemma {:induction false} Dist2Self(x: seq<real>)
    ensures Dist2(x, x) == 0.0
    decreases |x|
  {
    if |x| > 0 {
      Dist2Self(x[..|x| - 1]);
    }
  }

  /** In a full, correct list for the query d[dex], the first entry is a
      point at distance 0 from dex: dex itself, or a duplicate of it. */
  lemma FirstIsAtQuery(nb: Neighbors, d: seq<seq<real>>, D: set<int>, dex: int)
    requires 0 <= dex < |d| && dex in D && ListOk(nb, d[dex], d, D) && nb.found == |nb.dists|
    ensures nb.cands[0] in D && Dist2(d[dex], d[nb.cands[0]]) == 0.0
  {
    var v := d[dex];
    Dist2Self(v);
    if dex in nb.cands[..nb.found] {
      var p :| 0 <= p < nb.found && nb.cands[p] == dex;
      if p > 0 {
        assert nb.dists[0] <= nb.dists[p];
      }
    } else {
      assert Dist2(v, d[dex]) >= nb.dists[|nb.dists| - 1];
      if |nb.dists| > 1 {
        assert nb.dists[0] <= nb.dists[|nb.dists| - 1];
      }
    }
  }

  /** A full, correct list for d[dex] that starts with dex, without that
      first entry, is a correct list of the points other than dex. */
  lemma DropSelf(nb: Neighbors, d: seq<seq<real>>, D: set<int>, dex: int)
    requires 0 <= dex < |d| && dex in D && ListOk(nb, d[dex], d, D) && nb.found == |nb.dists| >= 2
    requires nb.cands[0] == dex
    ensures ListOk(Neighbors(nb.cands[1..], nb.dists[1..], nb.found - 1), d[dex], d, D - {dex})
  {
    var r := Neighbors(nb.cands[1..], nb.dists[1..], nb.found - 1);
    var C, Ds, f := nb.cands, nb.dists, nb.found;
    forall x | x in D - {dex} && x !in r.cands[..r.found]
      ensures r.found == |r.dists| && Dist2(d[dex], d[x]) >= r.dists[|r.dists| - 1]
    {
      assert x !in C[1..f] by {
        assert C[1..f] == r.cands[..r.found];
      }
    }
  }

  // ---------------------------------------------------------------------
  // Covariance assembly

  /** Entry (i, j) of the covariance matrix of the points xs: the
      covariogram of the pair, taken with the smaller index first, plus
      lambda on the diagonal. */
  function CovarianceEntry(c: (seq<real>, seq<real>) -> real, lambda: real, xs: seq<seq<real>>, i: int, j: int): real
    requires 0 <= i < |xs| && 0 <= j < |xs|
  {
    if i == j then c(xs[i], xs[i]) + lambda
    else if i < j then c(xs[i], xs[j])
    else c(xs[j], xs[i])
  }

  /** The covariance matrix is symmetric for every covariogram, symmetric
      or not. */
  lemma CovarianceSymmetric(c: (seq<real>, seq<real>) -> real, lambda: real, xs: seq<seq<real>>, i: int, j: int)
    requires 0 <= i < |xs| && 0 <= j < |xs|
    ensures CovarianceEntry(c, lambda, xs, i, j) == CovarianceEntry(c, lambda, xs, j, i)
    ensures i == j ==> CovarianceEntry(c, lambda, xs, i, j) == c(xs[i], xs[i]) + lambda
  {
  }

  /** Entries (a, b) with a or b below i hold their final values. */
  ghost predicate Filled(m: array2<real>, c: (seq<real>, seq<real>) -> real, lambda: real, xs: seq<seq<real>>, i: int)
    reads m
  {
    && m.Length0 == m.Length1 == |xs|
    && forall a, b :: 0 <= a < |xs| && 0 <= b < |xs| && (a < i || b < i) ==>
         m[a, b] == CovarianceEntry(c, lambda, xs, a, b)
  }

  /** The covariance matrix of the points xs and the covariances of x with
      each of them, built as the source does: row by row, the diagonal, then
      each entry right of it, mirrored below. */
  method Assemble(c: (seq<real>, seq<real>) -> real, lambda: real, x: seq<real>, xs: seq<seq<real>>)
    returns (m: array2<real>, test: seq<real>)
    ensures m.Length0 == m.Length1 == |xs| == |test|
    ensures forall i :: 0 <= i < |xs| ==> test[i] == c(x, xs[i])
    ensures forall i, j :: 0 <= i < |xs| && 0 <= j < |xs| ==> m[i, j] == CovarianceEntry(c, lambda, xs, i, j)
  {
    var n := |xs|;
    m := new real[n, n];
    test := [];
    var i := 0;
    while i < n
      invariant 0 <= i <= n && |test| == i && forall a :: 0 <= a < i ==> test[a] == c(x, xs[a])
      invariant Filled(m, c, lambda, xs, i)
    {
      test := test + [c(x, xs[i])];
      FillRow(m, c, lambda, xs, i);
      i := i + 1;
    }
  }

  /** Fills row i from the diagonal rightwards, and column i below it. */
  method FillRow(m: array2<real>, c: (seq<real>, seq<real>) -> real, lambda: real, xs: seq<seq<real>>, i: int)
    requires 0 <= i < |xs| && Filled(m, c, lambda, xs, i)
    modifies m
    ensures Filled(m, c, lambda, xs, i + 1)
  {
    var n := |xs|;
    m[i, i] := c(xs[i], xs[i]) + lambda;
    var j := i + 1;
    while j < n
      invariant i + 1 <= j <= n && Filled(m, c, lambda, xs, i)
      invariant m[i, i] == CovarianceEntry(c, lambda, xs, i, i)
      invariant forall b :: i < b < j ==>
                  m[i, b] == CovarianceEntry(c, lambda, xs, i, b) && m[b, i] == CovarianceEntry(c, lambda, xs, b, i)
    {
      m[i, j] := c(xs[i], xs[j]);
      m[j, i] := m[i, j];
      j := j + 1;
    }
  }

  // ---------------------------------------------------------------------
  // The process

  class GaussianProcess {
    /** The spatial index; its point rows are the process's data. */
    const kd: KdTree
    /** Function values: row i holds the nFunctions values at point i. */
    var values: array<seq<real>>
    /** Rows in use. */
    var pts: int
    /** Rows allocated. */
    var room: int
    const roomStep: int
    const dims: int
    const nFunctions: int
    /** The covariance of two points. */
    var covariogram: (seq<real>, seq<real>) -> real
    /** Added to the diagonal of the covariance matrix. */
    var lambda: real
    /** The factor on the variance. */
    var krigingParameter: real
    /** Whether points are rescaled into the box [minimum, maximum]. */
    const useMaxMin: bool
    const minimum: seq<real>
    const maximum: seq<real>

    /** The tree is valid and holds exactly the rows in use; the value
        table has the tree's capacity and its own storage. */
    ghost predicate Valid()
      reads this, kd, kd.tree, kd.data, values
    {
      && kd.Valid() && pts == kd.pts && room == kd.room && dims == kd.dims
      && roomStep == 5000 && values.Length == room && values != kd.data
      && nFunctions >= 0 && (forall i :: 0 <= i < pts ==> |values[i]| == nFunctions)
      && (useMaxMin ==> Box(minimum, maximum, dims))
    }

    /** The sample points, in row order. */
    ghost function Points(): seq<seq<real>>
      reads this, kd, kd.data
      requires 0 <= kd.pts <= kd.data.Length
    {
      kd.data[..kd.pts]
    }

    /** The function values, in row order. */
    ghost function Values(): seq<seq<real>>
      reads this, values
      requires 0 <= pts <= values.Length
    {
      values[..pts]
    }

    /** Where the point vin is stored: its first dims coordinates, rescaled
        into the box when the process normalises. */
    function Position(vin: seq<real>): (v: seq<real>)
      requires 0 <= dims <= |vin| && (useMaxMin ==> Box(minimum, maximum, dims))
      ensures |v| == dims
    {
      if useMaxMin then Scaled(vin[..dims], minimum, maximum) else vin[..dims]
    }

    /** One function value per point. */
    constructor FromValues(datain: seq<seq<real>>, ff: seq<real>, covarin: (seq<real>, seq<real>) -> real)
      requires |datain| >= 2 && |datain[0]| >= 1 && Rectangular(datain, |datain[0]|)
      requires |ff| >= |datain|
      ensures Valid() && Points() == datain && pts == room == |datain| && nFunctions == 1
      ensures forall i :: 0 <= i < pts ==> values[i] == [ff[i]]
      ensures covariogram == covarin && lambda == 0.00001 && krigingParameter == 1.0 && !useMaxMin
      ensures fresh(kd) && fresh(kd.tree) && fresh(kd.data) && fresh(values)
    {
      var n := |datain|;
      kd := new KdTree(datain);
      values := new seq<real>[n](i requires 0 <= i < n => [ff[i]]);
      pts, room, roomStep := n, n, 5000;
      dims, nFunctions := |datain[0]|, 1;
      covariogram, lambda, krigingParameter := covarin, 0.00001, 1.0;
      useMaxMin, minimum, maximum := false, [], [];
    }

    /** One function value per point; the points are rescaled into the box
        [mn, mx]. */
    constructor FromScaledValues(datain: seq<seq<real>>, mn: seq<real>, mx: seq<real>, ff: seq<real>,
                                 covarin: (seq<real>, seq<real>) -> real)
      requires |datain| >= 2 && |datain[0]| >= 1 && Rectangular(datain, |datain[0]|)
      requires Box(mn, mx, |datain[0]|) && |ff| >= |datain|
      ensures Valid() && pts == room == |datain| && nFunctions == 1
      ensures |Points()| == |datain| && forall i :: 0 <= i < pts ==> Points()[i] == Scaled(datain[i], mn, mx)
      ensures forall i :: 0 <= i < pts ==> values[i] == [ff[i]]
      ensures covariogram == covarin && lambda == 0.00001 && krigingParameter == 1.0
      ensures useMaxMin && minimum == mn && maximum == mx
      ensures fresh(kd) && fresh(kd.tree) && fresh(kd.data) && fresh(values)
    {
      var n := |datain|;
      var rows := ScaleRows(datain, mn, mx);
      kd := new KdTree(rows);
      values := new seq<real>[n](i requires 0 <= i < n => [ff[i]]);
      pts, room, roomStep := n, n, 5000;
      dims, nFunctions := |datain[0]|, 1;
      covariogram, lambda, krigingParameter := covarin, 0.00001, 1.0;
      useMaxMin, minimum, maximum := true, mn, mx;
    }

    /** A row of function values per point. */
    constructor FromRows(datain: seq<seq<real>>, ff: seq<seq<real>>, covarin: (seq<real>, seq<real>) -> real)
      requires |datain| >= 2 && |datain[0]| >= 1 && Rectangular(datain, |datain[0]|)
      requires |ff| == |datain| && Rectangular(ff, |ff[0]|)
      ensures Valid() && Points() == datain && Values() == ff && pts == room == |datain|
      ensures nFunctions == |ff[0]|
      ensures covariogram == covarin && lambda == 0.00001 && krigingParameter == 1.0 && !useMaxMin
      ensures fresh(kd) && fresh(kd.tree) && fresh(kd.data) && fresh(values)
    {
      var n := |datain|;
      kd := new KdTree(datain);
      values := new seq<real>[n](i requires 0 <= i < n => ff[i]);
      pts, room, roomStep := n, n, 5000;
      dims, nFunctions := |datain[0]|, |ff[0]|;
      covariogram, lambda, krigingParameter := covarin, 0.00001, 1.0;
      useMaxMin, minimum, maximum := false, [], [];
      new;
      assert values[..pts] == ff;
    }

    /** A row of function values per point; the points are rescaled into
        the box [mn, mx]. */
    constructor FromScaledRows(datain: seq<seq<real>>, mn: seq<real>, mx: seq<real>, ff: seq<seq<real>>,
                               covarin: (seq<real>, seq<real>) -> real)
      requires |datain| >= 2 && |datain[0]| >= 1 && Rectangular(datain, |datain[0]|)
      requires Box(mn, mx, |datain[0]|) && |ff| == |datain| && Rectangular(ff, |ff[0]|)
      ensures Valid() && Values() == ff && pts == room == |datain| && nFunctions == |ff[0]|
      ensures |Points()| == |datain| && forall i :: 0 <= i < pts ==> Points()[i] == Scaled(datain[i], mn, mx)
      ensures covariogram == covarin && lambda == 0.00001 && krigingParameter == 1.0
      ensures useMaxMin && minimum == mn && maximum == mx
      ensures fresh(kd) && fresh(kd.tree) && fresh(kd.data) && fresh(values)
    {
      var n := |datain|;
      var rows := ScaleRows(datain, mn, mx);
      kd := new KdTree(rows);
      values := new seq<real>[n](i requires 0 <= i < n => ff[i]);
      pts, room, roomStep := n, n, 5000;
      dims, nFunctions := |datain[0]|, |ff[0]|;
      covariogram, lambda, krigingParameter := covarin, 0.00001, 1.0;
      useMaxMin, minimum, maximum := true, mn, mx;
      new;
      assert values[..pts] == ff;
    }

    // -------------------------------------------------------------------
    // Adding and removing points

    /** Adds the point vin with the single function value f. A process with
        other than one function per point is left unchanged. */
    method AddPoint(vin: seq<real>, f: real)
      requires Valid() && |vin| >= dims
      modifies this, values, kd, kd.tree, kd.data
      ensures Valid()
      ensures nFunctions != 1 ==> pts == old(pts) && Points() == old(Points()) && Values() == old(Values())
      ensures nFunctions == 1 ==> && pts == old(pts) + 1
                                  && Points() == old(Points()) + [Position(vin)]
                                  && Values() == old(Values()) + [[f]]
      ensures (values == old(values) || fresh(values)) && (kd.tree == old(kd.tree) || fresh(kd.tree))
      ensures kd.data == old(kd.data) || fresh(kd.data)
    {
      if nFunctions != 1 {
        return;
      }
      Store(vin, [f]);
    }

    /** Adds the point vin with the function values f[..nFunctions]. */
    method AddPointRow(vin: seq<real>, f: seq<real>)
      requires Valid() && |vin| >= dims && |f| >= nFunctions
      modifies this, values, kd, kd.tree, kd.data
      ensures Valid() && pts == old(pts) + 1
      ensures Points() == old(Points()) + [Position(vin)]
      ensures Values() == old(Values()) + [f[..nFunctions]]
      ensures (values == old(values) || fresh(values)) && (kd.tree == old(kd.tree) || fresh(kd.tree))
      ensures kd.data == old(kd.data) || fresh(kd.data)
    {
      Store(vin, f[..nFunctions]);
    }

    /** Writes row into the first free value row, growing the table by
        roomStep rows when it is full, and adds the point to the tree. */
    method Store(vin: seq<real>, row: seq<real>)
      requires Valid() && |vin| >= dims && |row| == nFunctions
      modifies this, values, kd, kd.tree, kd.data
      ensures Valid() && pts == old(pts) + 1
      ensures room == if old(pts) == old(room) then old(room) + roomStep else old(room)
      ensures Points() == old(Points()) + [Position(vin)]
      ensures Values() == old(Values()) + [row]
      ensures (values == old(values) || fresh(values)) && (kd.tree == old(kd.tree) || fresh(kd.tree))
      ensures kd.data == old(kd.data) || fresh(kd.data)
    {
      var v := Prepare(vin);
      Reserve(row);
      ghost var vals := values[..pts + 1];
      Insert(v);
      pts := kd.pts;
      assert values[..pts] == vals;
    }

    /** Adds v to the tree: one more point row, the tree still valid. */
    method Insert(v: seq<real>)
      requires kd.Valid() && |v| == kd.dims
      modifies kd, kd.tree, kd.data
      ensures kd.Valid() && kd.pts == old(kd.pts) + 1 && kd.data[..kd.pts] == old(kd.data[..kd.pts]) + [v]
      ensures kd.room == if old(kd.pts) == old(kd.room) then old(kd.room) + kd.roomStep else old(kd.room)
      ensures (kd.data == old(kd.data) || fresh(kd.data)) && (kd.tree == old(kd.tree) || fresh(kd.tree))
    {
      kd.AddPoint(v);
    }

    /** Writes row into the first free value row, after growing the table
        when it is full. */
    method Reserve(row: seq<real>)
      requires Valid() && |row| == nFunctions
      modifies this`room, this`values, values
      ensures pts < room == values.Length && (values == old(values) || fresh(values))
      ensures room == if pts == old(room) then old(room) + roomStep else old(room)
      ensures values[..pts + 1] == old(values[..pts]) + [row]
      ensures forall i :: 0 <= i <= pts ==> |values[i]| == nFunctions
    {
      if pts == room {
        GrowValues();
      }
      values[pts] := row;
    }

    /** The point vin as it is stored, built one coordinate at a time. */
    method Prepare(vin: seq<real>) returns (v: seq<real>)
      requires 0 <= dims <= |vin| && (useMaxMin ==> Box(minimum, maximum, dims))
      ensures v == Position(vin)
    {
      v := [];
      var i := 0;
      while i < dims
        invariant 0 <= i <= dims && v == Position(vin)[..i]
      {
        var x := vin[i];
        if useMaxMin {
          x := (x - minimum[i]) / (maximum[i] - minimum[i]);
        }
        v := v + [x];
        i := i + 1;
      }
    }

    /** Replaces the value table by one roomStep rows larger holding the
        same rows in use. */
    method GrowValues()
      requires Valid()
      modifies this`room, this`values
      ensures fresh(values) && values.Length == old(room) + roomStep && room == old(room) + roomStep
      ensures values[..pts] == old(values[..pts])
    {
      var buff := new seq<real>[room + roomStep](_ => []);
      var i := 0;
      while i < pts
        modifies buff
        invariant 0 <= i <= pts && buff[..i] == values[..i]
      {
        buff[i] := values[i];
        i := i + 1;
      }
      room := room + roomStep;
      values := buff;
    }

    /** Deletes row dex of the tree's point table. */
    method Delete(dex: int)
      requires kd.Valid() && 0 <= dex < kd.pts && kd.pts >= 2
      modifies kd`pts, kd`masterParent, kd`anc, kd.tree, kd.data
      ensures kd.Valid() && kd.pts == old(kd.pts) - 1
      ensures kd.data[..kd.pts] == DropRow(old(kd.data[..kd.pts]), dex)
    {
      kd.Remove(dex);
    }

    /** Deletes point dex and its function values: the later rows of both
        tables move down by one. */
    method RemovePoint(dex: int)
      requires Valid() && 0 <= dex < pts && pts >= 2
      modifies this`pts, values, kd, kd.tree, kd.data
      ensures Valid() && pts == old(pts) - 1
      ensures Points() == DropRow(old(Points()), dex)
      ensures Values() == DropRow(old(Values()), dex)
    {
      ghost var v0 := values[..pts];
      Delete(dex);
      assert values[..pts] == v0;
      ShiftDown(dex, pts - 1, pts - 1);
      assert values[..pts - 1] == DropRow(v0, dex);
      pts := kd.pts;
    }

    /** The removal as written: the shift runs from dex up to the old last
        row, so it copies down the row after the last one in use, which must
        therefore exist. */
    method RemovePointAsWritten(dex: int)
      requires Valid() && 0 <= dex < pts && pts >= 2 && pts < room
      modifies this`pts, values, kd, kd.tree, kd.data
      ensures Valid() && pts == old(pts) - 1
      ensures Points() == DropRow(old(Points()), dex)
      ensures Values() == DropRow(old(Values()), dex)
    {
      ghost var v0 := values[..pts];
      Delete(dex);
      assert values[..pts] == v0;
      ShiftDown(dex, pts, pts - 1);
      assert values[..pts - 1] == DropRow(v0, dex);
      pts := kd.pts;
    }

    /** Moves rows from + 1 .. last of the value table down by one; the
        first keep rows are then the old ones without row from. */
    method ShiftDown(from: int, last: int, ghost keep: int)
      requires 0 <= from <= keep <= last < values.Length
      modifies values
      ensures values[..keep] == DropRow(old(values[..keep + 1]), from)
      ensures forall i :: 0 <= i < last ==> values[i] == old(values[if i < from then i else i + 1])
    {
      ghost var vals := values[..];
      var i := from;
      while i < last
        invariant from <= i <= last
        invariant forall k :: from <= k < i ==> values[k] == vals[k + 1]
        invariant forall k :: i <= k < values.Length ==> values[k] == vals[k]
        invariant forall k :: 0 <= k < from ==> values[k] == vals[k]
      {
        values[i] := values[i + 1];
        i := i + 1;
      }
      assert values[..keep] == DropRow(vals[..keep + 1], from) by {
        forall k | 0 <= k < keep
          ensures values[..keep][k] == DropRow(vals[..keep + 1], from)[k]
        {
        }
      }
    }

    // -------------------------------------------------------------------
    // Setters

    method SetKrigingParameter(kk: real)
      requires Valid()
      modifies this`krigingParameter
      ensures Valid() && krigingParameter == kk
    {
      krigingParameter := kk;
    }

    method SetCovariogram(covar: (seq<real>, seq<real>) -> real)
      requires Valid()
      modifies this`covariogram
      ensures Valid() && covariogram == covar
    {
      covariogram := covar;
    }

    method SetLambda(l: real)
      requires Valid()
      modifies this`lambda
      ensures Valid() && lambda == l
    {
      lambda := l;
    }

    // -------------------------------------------------------------------
    // Self-interpolation

    /** The k nearest other points of point dex, nearest first, with their
        squared distances. The search asks the tree for k + 1 points; if the
        nearest is not dex itself, which happens only when another point
        lies at distance 0 from it, the process fails. */
    method SelfNeighbors(dex: int, k: int) returns (r: Result<(seq<int>, seq<real>)>)
      requires Valid() && 0 <= dex < pts && 1 <= k < pts
      ensures r.Err? ==> r.error == IndexCorruption &&
                         exists j :: 0 <= j < pts && j != dex && Dist2(kd.data[dex], kd.data[j]) == 0.0
      ensures r.Ok? ==> |r.value.0| == |r.value.1| == k &&
                        ListOk(Neighbors(r.value.0, r.value.1, k), kd.data[dex], kd.data[..pts], All(pts) - {dex})
    {
      var v := kd.data[dex];
      var selfNeighbors, selfDistances := kd.FindNeighbors(v, k + 1);
      ghost var nb := Neighbors(selfNeighbors, selfDistances, k + 1);
      ghost var d := kd.data[..pts];
      assert InRange(pts, dex);
      if selfNeighbors[0] != dex {
        FirstIsAtQuery(nb, d, All(pts), dex);
        return Err(IndexCorruption);
      }
      DropSelf(nb, d, All(pts), dex);
      r := Ok((selfNeighbors[1..], selfDistances[1..]));
    }

    /** The covariance matrix of the points nb and their covariances with
        point dex. */
    method Covariance(dex: int, nb: seq<int>) returns (c: array2<real>, test: seq<real>)
      requires Valid() && 0 <= dex < pts && forall i :: 0 <= i < |nb| ==> 0 <= nb[i] < pts
      ensures c.Length0 == c.Length1 == |nb| == |test|
      ensures forall i :: 0 <= i < |nb| ==> test[i] == covariogram(kd.data[dex], kd.data[nb[i]])
      ensures forall i, j :: 0 <= i < |nb| && 0 <= j < |nb| ==>
                c[i, j] == CovarianceEntry(covariogram, lambda, PointsAt(nb), i, j)
    {
      var d := kd.data;
      var xs := seq(|nb|, i requires 0 <= i < |nb| && 0 <= nb[i] < d.Length reads d => d[nb[i]]);
      assert xs == PointsAt(nb);
      c, test := Assemble(covariogram, lambda, kd.data[dex], xs);
    }

    /** The points of the rows nb. */
    ghost function PointsAt(nb: seq<int>): (xs: seq<seq<real>>)
      reads this, kd, kd.tree, kd.data, values
      requires Valid() && forall i :: 0 <= i < |nb| ==> 0 <= nb[i] < pts
      ensures |xs| == |nb| && forall i :: 0 <= i < |nb| ==> xs[i] == kd.data[nb[i]]
    {
      var d := kd.data[..pts];
      seq(|nb|, i requires 0 <= i < |nb| => d[nb[i]])
    }
  }

  // ---------------------------------------------------------------------
  // Use in sequence

  /** A process built over dt, then given one more point: the tables the
      constructor allocates are the caller's to change. */
  method BuildProcessThenAdd(dt: seq<seq<real>>, ff: seq<real>, v: seq<real>, f: real,
                             covarin: (seq<real>, seq<real>) -> real)
    returns (g: GaussianProcess)
    requires |dt| >= 2 && |dt[0]| >= 1 && Rectangular(dt, |dt[0]|) && |ff| >= |dt| && |v| >= |dt[0]|
    ensures g.Valid() && g.Points() == dt + [v[..|dt[0]|]]
    ensures g.Values() == seq(|dt|, i requires 0 <= i < |dt| => [ff[i]]) + [[f]]
  {
    g := new GaussianProcess.FromValues(dt, ff, covarin);
    assert g.Values() == seq(|dt|, i requires 0 <= i < |dt| => [ff[i]]);
    g.AddPoint(v, f);
  }

  /** Two points added one after the other: whichever tables the first
      insertion reallocates, the second may still change them. */
  method AddTwo(g: GaussianProcess, v: seq<real>, f: real, w: seq<real>, h: real)
    requires g.Valid() && g.nFunctions == 1 && |v| >= g.dims && |w| >= g.dims
    modifies g, g.values, g.kd, g.kd.tree, g.kd.data
    ensures g.Valid() && g.pts == old(g.pts) + 2
    ensures g.Points() == old(g.Points()) + [g.Position(v), g.Position(w)]
    ensures g.Values() == old(g.Values()) + [[f], [h]]
  {
    g.AddPoint(v, f);
    g.AddPoint(w, h);
  }
}
