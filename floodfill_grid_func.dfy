/** The older `floodfill` variant of the potential wrapper. It shares the
    grid, the NaN filter, the descent, the box resolution and the arg-min
    with the `MinEnergyPath` variant; it differs in `minimize`, which takes
    coordinate indices rather than coordinates, and in the checks of the
    first loop of `g_minimize`, which skip a `(None,)` bound. */
module FloodfillGridFunc {
  import opened Common
  import opened Grid
  import opened GridFunc

  // ---------------------------------------------------------------------
  // `minimize(coords_idx)`

  /** `minimize(coords_idx)`: descend from the node with the given
      coordinate indices, without snapping. The flat index is used to index
      the potential, so one outside the array raises IndexError. */
  method Minimize(f: GridFunc, coordsIdx: seq<int>) returns (r: Result<seq<int>>)
    requires f.Valid()
    ensures r.Ok? <==> 0 <= Idx(f.grid, coordsIdx) < f.grid.nnodes
    ensures r.Err? ==> r.error == IndexError
    ensures InBounds(f.grid.shape, coordsIdx) ==> r.Ok?
    ensures r.Ok? ==> r.value == CoordsOf(f.grid, Descend(f, Idx(f.grid, coordsIdx)))
    ensures r.Ok? ==> InBounds(f.grid.shape, r.value) && IsLocalMin(f, Idx(f.grid, r.value))
    ensures InBounds(f.grid.shape, coordsIdx) && IsLocalMin(f, Idx(f.grid, coordsIdx)) ==> r == Ok(coordsIdx)
  {
    var idx := Idx(f.grid, coordsIdx);
    if !(0 <= idx < f.grid.nnodes) {
      return Err(IndexError);
    }
    var minIdx := MinimizeIdx(f, idx);
    var c := CoordsIdx(f.grid, minIdx);
    if InBounds(f.grid.shape, coordsIdx) && IsLocalMin(f, idx) {
      DescendFixesLocalMin(f, idx);
      CoordsOfIdx(f.grid, coordsIdx);
    }
    r := Ok(c);
  }

  // ---------------------------------------------------------------------
  // The first loop of `g_minimize`

  /** The checks of the first loop exactly as written: `bound[0]` is read
      before a scalar could be promoted, so a scalar raises TypeError (a
      number is not subscriptable) and an empty tuple IndexError; a
      one-element tuple holding None is skipped like None. */
  function CheckArgAsWritten(a: BoundArg): (r: Result<Bound>)
    ensures r.Ok? && r.value.Some? ==> |r.value.value| == 1 || |r.value.value| == 2
  {
    match a
    case NoBound => Ok(None)
    case Number(_) => Err(ImplicitTypeError)
    case Items(s) =>
      if |s| == 0 then Err(IndexError)
      else if |s| == 1 && s[0].None? then Ok(None)
      else if |s| == 1 || |s| == 2 then Ok(Some(s))
      else Err(RuntimeError("encountered invalid bound"))
    case Other => Err(ImplicitTypeError)
  }

  /** The same checks with the scalar promotion made reachable: a scalar is
      the one-element tuple holding it; everything else is as written. */
  function CheckArg(a: BoundArg): (r: Result<Bound>)
    ensures r.Ok? && r.value.Some? ==> |r.value.value| == 1 || |r.value.value| == 2
  {
    match a
    case Number(x) => Ok(Some([Some(x)]))
    case _ => CheckArgAsWritten(a)
  }

  /** As written, any scalar bound makes `g_minimize` raise TypeError,
      although the code goes on to promote scalars to one-element tuples. */
  lemma ScalarRejectedAsWritten(f: GridFunc, x: real)
    requires f.Valid()
    ensures GMinimizeSpec(f, CheckArgAsWritten, [Number(x)]) == Err(ImplicitTypeError)
  {
    assert [Number(x)][..0] == [];
    assert NormalizeAll(CheckArgAsWritten, [Number(x)]) == Err(ImplicitTypeError);
    assert |f.grid.shape| >= 1;
  }

  /** With the promotion reachable, a scalar bound is the one-element
      tuple holding it. */
  lemma GMinimizeScalarPromotion(f: GridFunc, args: seq<BoundArg>, k: nat, x: real)
    requires f.Valid() && k < |args| && args[k] == Number(x)
    ensures GMinimizeSpec(f, CheckArg, args) == GMinimizeSpec(f, CheckArg, args[k := Items([Some(x)])])
  {
    NormalizeAllCongruent(CheckArg, args, args[k := Items([Some(x)])]);
  }

  /** A bound `(None,)` leaves its axis unbounded, exactly as None does. */
  lemma GMinimizeNoneItemIsUnbounded(f: GridFunc, args: seq<BoundArg>, k: nat)
    requires f.Valid() && k < |args| && args[k] == Items([None])
    ensures GMinimizeSpec(f, CheckArg, args) == GMinimizeSpec(f, CheckArg, args[k := NoBound])
  {
    NormalizeAllCongruent(CheckArg, args, args[k := NoBound]);
  }

  /** The first argument that fails its checks decides the error. */
  lemma FirstBadArg(f: GridFunc, args: seq<BoundArg>, k: nat)
    requires f.Valid() && |args| <= |f.grid.shape| && k < |args|
    requires CheckArg(args[k]).Err?
    requires forall j :: 0 <= j < k ==> CheckArg(args[j]).Ok?
    ensures GMinimizeSpec(f, CheckArg, args) == Err(CheckArg(args[k]).error)
  {
    NormalizeAllSpec(CheckArg, args);
    var k' :| && 0 <= k' < |args| && CheckArg(args[k']).Err?
              && (forall j :: 0 <= j < k' ==> CheckArg(args[j]).Ok?)
              && NormalizeAll(CheckArg, args).error == CheckArg(args[k']).error;
    assert k' == k;
  }

  /** A tuple of three or more items is an invalid bound, and an empty
      tuple fails on `bound[0]`, unless an earlier argument raised already. */
  lemma GMinimizeBadLength(f: GridFunc, args: seq<BoundArg>, k: nat)
    requires f.Valid() && |args| <= |f.grid.shape| && k < |args|
    requires args[k].Items? && |args[k].items| != 1 && |args[k].items| != 2
    requires forall j :: 0 <= j < k ==> CheckArg(args[j]).Ok?
    ensures |args[k].items| == 0 ==> GMinimizeSpec(f, CheckArg, args) == Err(IndexError)
    ensures |args[k].items| > 2 ==> GMinimizeSpec(f, CheckArg, args) == Err(RuntimeError("encountered invalid bound"))
  {
    FirstBadArg(f, args, k);
  }

  /** The first loop of `g_minimize` with the skip of `(None,)` and the
      scalar promotion made reachable. */
  method CollectBounds(args: seq<BoundArg>, dim: nat) returns (r: Result<seq<Bound>>)
    requires |args| <= dim
    ensures r == (match NormalizeAll(CheckArg, args) case Err(e) => Err(e) case Ok(bs) => Ok(Padded(bs, dim)))
  {
    var bounds: seq<Bound> := seq(dim, _ => None);
    var i := 0;
    while i < |args|
      invariant 0 <= i <= |args| && |bounds| == dim
      invariant NormalizeAll(CheckArg, args[..i]) == Ok(bounds[..i])
      invariant forall k :: i <= k < dim ==> bounds[k] == None
    {
      assert args[..i + 1][..i] == args[..i];
      var bound := args[i];
      var b: seq<Option<real>>;
      if bound.NoBound? {
        assert bounds[..i + 1] == bounds[..i] + [None];
        i := i + 1;
        continue;
      } else if bound.Number? {
        b := [Some(bound.x)];
      } else if bound.Items? {
        b := bound.items;
        if |b| == 0 {
          assert NormalizeAll(CheckArg, args[..i + 1]) == Err(IndexError);
          NormalizeErrStays(CheckArg, args, i + 1);
          return Err(IndexError);
        }
        if b[0].None? && |b| == 1 {
          assert bounds[..i + 1] == bounds[..i] + [None];
          i := i + 1;
          continue;
        }
      } else {
        assert NormalizeAll(CheckArg, args[..i + 1]) == Err(ImplicitTypeError);
        NormalizeErrStays(CheckArg, args, i + 1);
        return Err(ImplicitTypeError);
      }
      if !(|b| == 1 || |b| == 2) {
        assert NormalizeAll(CheckArg, args[..i + 1]) == Err(RuntimeError("encountered invalid bound"));
        NormalizeErrStays(CheckArg, args, i + 1);
        return Err(RuntimeError("encountered invalid bound"));
      }
      bounds := bounds[i := Some(b)];
      assert bounds[..i + 1] == bounds[..i] + [Some(b)];
      i := i + 1;
    }
    assert args[..i] == args;
    assert bounds == Padded(bounds[..i], dim);
    r := Ok(bounds);
  }

  /** `g_minimize` of the floodfill variant: the argument count, the first
      loop above, the shared box resolution and `_filter_min`. */
  method GMinimize(f: GridFunc, args: seq<BoundArg>) returns (r: Result<seq<int>>)
    requires f.Valid()
    ensures r == GMinimizeSpec(f, CheckArg, args)
  {
    var dim := |f.grid.shape|;
    if |args| > dim {
      return Err(RuntimeError("more arguments than dimensionality"));
    }
    var bounds := CollectBounds(args, dim);
    if bounds.Err? {
      return Err(bounds.error);
    }
    var boxes := ResolveBounds(f.grid, bounds.value);
    if boxes.Err? {
      return Err(boxes.error);
    }
    r := FilterMin(f, boxes.value);
  }
}
