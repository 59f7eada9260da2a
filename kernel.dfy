/** The parameter plumbing of the convolution-kernel base class: its centre,
    the spatial functions (one per kernel parameter) that make a kernel vary
    over an image, and the setters that validate before they change anything. */
module Kernels {
  import opened Errors

  /** A spatial function f(x, y) with its own parameter vector; `shape` stands
      for the concrete function class, which is not part of this model. */
  datatype SpatialFunction = SpatialFunction(params: seq<real>, shape: (seq<real>, real, real) -> real)

  function Value(f: SpatialFunction, x: real, y: real): real
  {
    f.shape(f.params, x, y)
  }

  /** The spatial-function argument of the first constructor: the null spatial
      function means "not spatially varying". */
  datatype SpatialArg = NullSpatialFunction | Given(f: SpatialFunction)

  /** Integer division as C++ does it for a positive divisor: toward zero. */
  function TruncDiv(a: int, b: int): (q: int)
    requires b > 0
    ensures a >= 0 ==> q * b <= a < q * b + b
    ensures a < 0 ==> q * b - b < a <= q * b
  {
    if a >= 0 then a / b else -((-a) / b)
  }

  /** The centre index of an axis of `size` pixels, `(size - 1) / 2` in C++. */
  function Center(size: int): (c: int)
    ensures size >= 1 ==> 0 <= c < size && (size - 1 == 2 * c || size - 1 == 2 * c + 1)
    ensures size < 1 ==> (size - 1 == 2 * c || size - 1 == 2 * c - 1)
  {
    TruncDiv(size - 1, 2)
  }

  /** The C++ centre agrees with Euclidean division for every non-empty axis
      and for odd non-positive sizes; for even non-positive sizes (an empty
      axis among them: 0 against -1) it is one more. */
  lemma CenterRounding(size: int)
    ensures size >= 1 || (size - 1) % 2 == 0 ==> Center(size) == (size - 1) / 2
    ensures size < 1 && (size - 1) % 2 == 1 ==> Center(size) == (size - 1) / 2 + 1
    ensures Center(0) == 0 && (0 - 1) / 2 == -1
  {
  }

  class Kernel {
    const width: int
    const height: int
    const ctrX: int
    const ctrY: int
    const nKernelParams: nat
    var spatialFunctions: seq<SpatialFunction>

    /** Either not spatially varying, or one spatial function per kernel parameter. */
    ghost predicate Valid()
      reads this
    {
      && ctrX == Center(width) && ctrY == Center(height)
      && (|spatialFunctions| == 0 || |spatialFunctions| == nKernelParams)
    }

    /** The fields every constructor initialises before its body runs. */
    constructor Init(width: int, height: int, nKernelParams: nat)
      ensures this.width == width && this.height == height && this.nKernelParams == nKernelParams
      ensures ctrX == Center(width) && ctrY == Center(height)
      ensures spatialFunctions == []
    {
      this.width, this.height := width, height;
      this.ctrX, this.ctrY := Center(width), Center(height);
      this.nKernelParams := nKernelParams;
      this.spatialFunctions := [];
    }

    /** The first constructor: no spatial functions for the null spatial
        function; otherwise `nKernelParams` copies of the given one, refusing a
        kernel without parameters. */
    static method FromSpatialFunction(width: int, height: int, nKernelParams: nat, sf: SpatialArg)
      returns (r: Result<Kernel>)
      ensures r.Err? <==> sf.Given? && nKernelParams == 0
      ensures r.Err? ==> r.error == InvalidParameterError
      ensures r.Ok? ==> fresh(r.value) && r.value.Valid()
      ensures r.Ok? ==> r.value.width == width && r.value.height == height
      ensures r.Ok? ==> r.value.nKernelParams == nKernelParams
      ensures r.Ok? && sf.NullSpatialFunction? ==> r.value.spatialFunctions == []
      ensures r.Ok? && sf.Given? ==> r.value.spatialFunctions == seq(nKernelParams, _ => sf.f)
    {
      var k := new Kernel.Init(width, height, nKernelParams);
      if sf.Given? {
        if nKernelParams == 0 {
          return Err(InvalidParameterError);
        }
        var ii := 0;
        while ii < nKernelParams
          invariant 0 <= ii <= nKernelParams
          invariant k.spatialFunctions == seq(ii, _ => sf.f)
        {
          k.spatialFunctions := k.spatialFunctions + [sf.f];
          ii := ii + 1;
        }
      }
      return Ok(k);
    }

    /** The second constructor: one copy of each listed spatial function, in
        order; the kernel has as many parameters as the list has entries. */
    constructor FromList(width: int, height: int, list: seq<SpatialFunction>)
      ensures Valid()
      ensures this.width == width && this.height == height
      ensures nKernelParams == |list| && spatialFunctions == list
    {
      this.width, this.height := width, height;
      this.ctrX, this.ctrY := Center(width), Center(height);
      this.nKernelParams := |list|;
      this.spatialFunctions := [];
      new;
      var ii := 0;
      while ii < |list|
        invariant 0 <= ii <= |list|
        invariant spatialFunctions == list[..ii]
      {
        spatialFunctions := spatialFunctions + [list[ii]];
        ii := ii + 1;
      }
    }

    /** How many parameters each spatial function takes (that of the first
        one), or 0 when the kernel is not spatially varying. */
    function NSpatialParameters(): nat
      reads this
    {
      if |spatialFunctions| == 0 then 0 else |spatialFunctions[0].params|
    }

    /** Sets the parameters of every spatial function, `params[ii]` for
        function `ii`, after checking the whole shape first: a wrong shape
        changes nothing. */
    method SetSpatialParameters(params: seq<seq<real>>) returns (o: Outcome)
      requires Valid()
      modifies this
      ensures Valid()
      ensures o.Fail? <==> !ShapeAccepted(nKernelParams, old(spatialFunctions), params)
      ensures o.Fail? ==> o.error == InvalidParameterError && spatialFunctions == old(spatialFunctions)
      ensures o.Pass? ==> spatialFunctions == Reparametrised(old(spatialFunctions), params)
    {
      if |params| != nKernelParams {
        return Fail(InvalidParameterError);
      }
      var nSpatialParams := NSpatialParameters();
      var ii := 0;
      while ii < nKernelParams
        invariant 0 <= ii <= nKernelParams
        invariant forall j :: 0 <= j < ii ==> |params[j]| == nSpatialParams
      {
        if |params[ii]| != nSpatialParams {
          assert !ShapeAccepted(nKernelParams, spatialFunctions, params) by {
            assert params[ii] in params;
          }
          return Fail(InvalidParameterError);
        }
        ii := ii + 1;
      }
      // Not in the source, which goes on to set parameters on spatial
      // functions a non-spatially-varying kernel does not have.
      if |spatialFunctions| != nKernelParams {
        return Fail(InvalidParameterError);
      }
      ghost var before := spatialFunctions;
      ii := 0;
      while ii < nKernelParams
        invariant 0 <= ii <= nKernelParams && |spatialFunctions| == nKernelParams
        invariant forall j :: 0 <= j < ii ==> spatialFunctions[j] == before[j].(params := params[j])
        invariant forall j :: ii <= j < nKernelParams ==> spatialFunctions[j] == before[j]
      {
        spatialFunctions := spatialFunctions[ii := spatialFunctions[ii].(params := params[ii])];
        ii := ii + 1;
      }
      o := Pass;
    }

    /** Writes f_i(x, y) into `kernelParams[i]` for each spatial function, in
        order; the caller supplies a vector long enough. */
    method ComputeKernelParametersFromSpatialModel(kernelParams: array<real>, x: real, y: real)
      requires kernelParams.Length >= |spatialFunctions|
      modifies kernelParams
      ensures forall i :: 0 <= i < |spatialFunctions| ==> kernelParams[i] == Value(spatialFunctions[i], x, y)
      ensures forall i :: |spatialFunctions| <= i < kernelParams.Length ==> kernelParams[i] == old(kernelParams[i])
    {
      var i := 0;
      while i < |spatialFunctions|
        invariant 0 <= i <= |spatialFunctions|
        invariant forall j :: 0 <= j < i ==> kernelParams[j] == Value(spatialFunctions[j], x, y)
        invariant forall j :: i <= j < kernelParams.Length ==> kernelParams[j] == old(kernelParams[j])
      {
        kernelParams[i] := Value(spatialFunctions[i], x, y);
        i := i + 1;
      }
    }

    /** Sets each kernel parameter from its spatial function through the
        (overridable) setter, once per function in index order; the first
        refusal propagates and ends the loop. `calls` records the calls made. */
    method SetKernelParametersFromSpatialModel(setter: (nat, real) -> Outcome, x: real, y: real)
      returns (o: Outcome, calls: seq<(nat, real)>)
      ensures |calls| <= |spatialFunctions|
      ensures forall i :: 0 <= i < |calls| ==> calls[i] == (i, Value(spatialFunctions[i], x, y))
      ensures forall i :: 0 <= i < |calls| - 1 ==> setter(calls[i].0, calls[i].1).Pass?
      ensures o.Pass? <==> |calls| == |spatialFunctions| && (|calls| == 0 || setter(calls[|calls| - 1].0, calls[|calls| - 1].1).Pass?)
      ensures o.Fail? ==> |calls| > 0 && o == setter(calls[|calls| - 1].0, calls[|calls| - 1].1)
    {
      calls := [];
      var ii := 0;
      while ii < |spatialFunctions|
        invariant 0 <= ii <= |spatialFunctions| && |calls| == ii
        invariant forall i :: 0 <= i < ii ==> calls[i] == (i, Value(spatialFunctions[i], x, y))
        invariant forall i :: 0 <= i < ii ==> setter(calls[i].0, calls[i].1).Pass?
      {
        var v := Value(spatialFunctions[ii], x, y);
        calls := calls + [(ii, v)];
        var r := setter(ii, v);
        if r.Fail? {
          return r, calls;
        }
        ii := ii + 1;
      }
      o := Pass;
    }
  }

  /** Whether `setSpatialParameters` accepts the shape of `params`: one entry
      per kernel parameter, each as long as the spatial functions' parameter lists. */
  ghost predicate ShapeAccepted(nKernelParams: nat, fns: seq<SpatialFunction>, params: seq<seq<real>>)
  {
    var nSpatial := if |fns| == 0 then 0 else |fns[0].params|;
    && |params| == nKernelParams
    && (forall ii :: 0 <= ii < |params| ==> |params[ii]| == nSpatial)
    && |fns| == nKernelParams
  }

  /** The checks the source makes before setting parameters: the two above
      without the last conjunct. */
  ghost predicate SourceShapeChecks(nKernelParams: nat, fns: seq<SpatialFunction>, params: seq<seq<real>>)
  {
    var nSpatial := if |fns| == 0 then 0 else |fns[0].params|;
    && |params| == nKernelParams
    && (forall ii :: 0 <= ii < |params| ==> |params[ii]| == nSpatial)
  }

  /** A kernel made by the first constructor with the null spatial function
      and two kernel parameters passes the source's checks with two empty
      parameter lists, after which the source sets the parameters of spatial
      functions 0 and 1 of an empty list. */
  lemma SourceChecksAdmitMissingFunctions()
    ensures SourceShapeChecks(2, [], [[], []]) && !ShapeAccepted(2, [], [[], []])
  {
  }

  /** Every function keeps its shape and takes the parameters of its own entry. */
  ghost function Reparametrised(fns: seq<SpatialFunction>, params: seq<seq<real>>): seq<SpatialFunction>
    requires |fns| == |params|
  {
    seq(|fns|, i requires 0 <= i < |fns| => fns[i].(params := params[i]))
  }

  /** The base class has no kernel parameters: its setter always refuses. */
  function BaseSetKernelParameter(ind: nat, value: real): (o: Outcome)
    ensures o == Fail(InvalidParameterError)
  {
    Fail(InvalidParameterError)
  }

  /** The base class reports no kernel parameters. */
  function BaseGetKernelParameters(): (kp: seq<real>)
    ensures |kp| == 0
  {
    []
  }
}
