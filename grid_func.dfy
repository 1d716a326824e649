/** A potential on the grid and the searches over it: NaN-free neighbours,
    greedy descent to a local minimum, bound resolution and the box arg-min
    (MinEnergyPath/grid_func.py; floodfill/gridFunc.py shares everything
    here except what FloodfillGridFunc redefines). */
module GridFunc {
  import opened Common
  import opened Grid

  /** A GridFunc object: the grid it extends and the flattened potential
      (`pot_1D`). */
  datatype GridFunc = GridFunc(grid: Grid, pot: seq<Pot>)
  {
    ghost predicate Valid()
    {
      grid.Valid() && |pot| == grid.nnodes
    }
  }

  /** The shape a list of linspace triples gives the grid. */
  function ShapeOf(linspaces: seq<Linspace>): (shape: seq<nat>)
    ensures |shape| == |linspaces|
  {
    seq(|linspaces|, k requires 0 <= k < |linspaces| => linspaces[k].num)
  }

  /** `GridFunc.__init__`: builds the grid, then asserts that the potential
      has one value per node. */
  method NewGridFunc(pot: seq<Pot>, linspaces: seq<Linspace>) returns (r: Result<GridFunc>)
    requires |linspaces| >= 1
    requires forall k :: 0 <= k < |linspaces| ==> linspaces[k].num >= 1
    ensures r.Ok? <==> |pot| == Prod(ShapeOf(linspaces))
    ensures r.Err? ==> r.error == AssertionError
    ensures r.Ok? ==> && r.value.Valid() && r.value.pot == pot
                      && r.value.grid.shape == ShapeOf(linspaces)
                      && forall k :: 0 <= k < |linspaces| ==> r.value.grid.vecs[k] == LinspaceVec(linspaces[k])
  {
    var g := NewGrid(linspaces);
    assert g.shape == ShapeOf(linspaces);
    if |pot| == g.nnodes {
      r := Ok(GridFunc(g, pot));
    } else {
      r := Err(AssertionError);
    }
  }

  // ---------------------------------------------------------------------
  // Neighbours with a valid potential

  /** The entries of s whose potential is not NaN, in their order in s. */
  function FilterValid(pot: seq<Pot>, s: seq<int>): (r: seq<int>)
    requires forall j :: j in s ==> 0 <= j < |pot|
    ensures |r| <= |s|
    ensures forall j :: j in r <==> j in s && pot[j].Val?
  {
    if s == [] then []
    else
      assert s[0] in s && forall j :: j in s[1..] ==> j in s;
      (if pot[s[0]].Val? then [s[0]] else []) + FilterValid(pot, s[1..])
  }

  /** Filtering is done element by element, so it keeps the order of s. */
  lemma {:induction false} FilterValidAppend(pot: seq<Pot>, s: seq<int>, t: seq<int>)
    requires forall j :: j in s ==> 0 <= j < |pot|
    requires forall j :: j in t ==> 0 <= j < |pot|
    ensures FilterValid(pot, s + t) == FilterValid(pot, s) + FilterValid(pot, t)
  {
    if s != [] {
      assert (s + t)[1..] == s[1..] + t;
      assert forall j :: j in s[1..] ==> j in s;
      FilterValidAppend(pot, s[1..], t);
    } else {
      assert s + t == t;
    }
  }

  lemma {:induction false} NeighborsAtInRange(g: Grid, c: seq<int>, offs: seq<seq<int>>)
    requires g.Valid()
    requires forall o :: o in offs ==> |o| == |c|
    ensures forall j :: j in NeighborsAt(g, c, offs) ==> 0 <= j < g.nnodes
  {
    if offs != [] {
      assert forall o :: o in offs[1..] ==> o in offs;
      NeighborsAtInRange(g, c, offs[1..]);
    }
  }

  lemma NeighborsIdxInRange(g: Grid, i: int)
    requires g.Valid()
    ensures forall j :: j in NeighborsIdx(g, i) ==> 0 <= j < g.nnodes
  {
    NeighborOffsetsLength(|g.shape|);
    NeighborsAtInRange(g, CoordsOf(g, i), g.offsets);
  }

  /** `GridFunc.neighbors_idx`: the grid neighbours of node i whose
      potential is not NaN. */
  function ValidNeighbors(f: GridFunc, i: int): (r: seq<int>)
    requires f.Valid()
    ensures forall j :: j in r ==> 0 <= j < |f.pot| && f.pot[j].Val?
  {
    NeighborsIdxInRange(f.grid, i);
    FilterValid(f.pot, NeighborsIdx(f.grid, i))
  }

  /** The filtered list holds exactly the touching nodes with a valid
      potential. */
  lemma ValidNeighborsSpec(f: GridFunc, i: int, j: int)
    requires f.Valid() && 0 <= i < f.grid.nnodes
    ensures j in ValidNeighbors(f, i) <==>
      0 <= j < f.grid.nnodes && Touching(CoordsOf(f.grid, i), CoordsOf(f.grid, j)) && f.pot[j].Val?
  {
    NeighborsIdxSpec(f.grid, i, j);
  }

  // ---------------------------------------------------------------------
  // Greedy descent (`_minimize`)

  /** One pass of the inner `for` loop: walk the neighbour list, moving to
      every node strictly lower than the best so far. */
  function Scan(pot: seq<Pot>, nbrs: seq<int>, cur: int): (r: int)
    requires 0 <= cur < |pot|
    requires forall j :: j in nbrs ==> 0 <= j < |pot|
    ensures 0 <= r < |pot|
    ensures r == cur || (r in nbrs && Lt(pot[r], pot[cur]))
    ensures forall j :: j in nbrs ==> !Lt(pot[j], pot[r])
    decreases |nbrs|
  {
    if nbrs == [] then cur
    else
      assert nbrs[0] in nbrs && forall j :: j in nbrs[1..] ==> j in nbrs;
      Scan(pot, nbrs[1..], if Lt(pot[nbrs[0]], pot[cur]) then nbrs[0] else cur)
  }

  /** A pass that finds nothing strictly lower stays put. */
  lemma {:induction false} ScanStays(pot: seq<Pot>, nbrs: seq<int>, cur: int)
    requires 0 <= cur < |pot|
    requires forall j :: j in nbrs ==> 0 <= j < |pot|
    requires forall j :: j in nbrs ==> !Lt(pot[j], pot[cur])
    ensures Scan(pot, nbrs, cur) == cur
    decreases |nbrs|
  {
    if nbrs != [] {
      assert nbrs[0] in nbrs;
      assert forall j :: j in nbrs[1..] ==> j in nbrs;
      ScanStays(pot, nbrs[1..], cur);
    }
  }

  /** One iteration of the outer loop, from node i. */
  function Step(f: GridFunc, i: int): (r: int)
    requires f.Valid() && 0 <= i < |f.pot|
    ensures 0 <= r < |f.pot|
    ensures r == i || Lt(f.pot[r], f.pot[i])
  {
    Scan(f.pot, ValidNeighbors(f, i), i)
  }

  /** No valid neighbour has a strictly lower potential. */
  ghost predicate IsLocalMin(f: GridFunc, i: int)
    requires f.Valid() && 0 <= i < |f.pot|
  {
    forall j :: j in ValidNeighbors(f, i) ==> !Lt(f.pot[j], f.pot[i])
  }

  /** The nodes strictly below node i: the descent's termination measure. */
  ghost function Below(f: GridFunc, i: int): set<int>
    requires f.Valid() && 0 <= i < |f.pot|
  {
    set k | 0 <= k < |f.pot| && Lt(f.pot[k], f.pot[i])
  }

  lemma BelowShrinks(f: GridFunc, i: int, j: int)
    requires f.Valid() && 0 <= i < |f.pot| && 0 <= j < |f.pot|
    requires Lt(f.pot[j], f.pot[i])
    ensures |Below(f, j)| < |Below(f, i)|
  {
    var bi, bj := Below(f, i), Below(f, j);
    assert j in bi && j !in bj;
    assert bj + {j} <= bi;
    assert bi == (bj + {j}) + (bi - (bj + {j}));
  }

  /** What `_minimize(i)` returns: repeat passes until one moves nowhere. */
  ghost function Descend(f: GridFunc, i: int): (r: int)
    requires f.Valid() && 0 <= i < |f.pot|
    ensures 0 <= r < |f.pot|
    decreases |Below(f, i)|
  {
    var j := Step(f, i);
    if j == i then i
    else
      BelowShrinks(f, i, j);
      Descend(f, j)
  }

  /** `_minimize` ends at a node none of whose valid neighbours is strictly
      lower. */
  lemma {:induction false} DescendIsLocalMin(f: GridFunc, i: int)
    requires f.Valid() && 0 <= i < |f.pot|
    ensures IsLocalMin(f, Descend(f, i))
    decreases |Below(f, i)|
  {
    var j := Step(f, i);
    if j != i {
      BelowShrinks(f, i, j);
      DescendIsLocalMin(f, j);
    }
  }

  /** The potential at `_minimize(i)` is strictly lower than at i, unless
      the descent did not move. */
  lemma {:induction false} DescendNotHigher(f: GridFunc, i: int)
    requires f.Valid() && 0 <= i < |f.pot|
    ensures Descend(f, i) == i || Lt(f.pot[Descend(f, i)], f.pot[i])
    decreases |Below(f, i)|
  {
    var j := Step(f, i);
    if j != i {
      BelowShrinks(f, i, j);
      DescendNotHigher(f, j);
    }
  }

  /** A local minimum is a fixed point of the descent. */
  lemma DescendFixesLocalMin(f: GridFunc, i: int)
    requires f.Valid() && 0 <= i < |f.pot|
    requires IsLocalMin(f, i)
    ensures Descend(f, i) == i
  {
    ScanStays(f.pot, ValidNeighbors(f, i), i);
  }

  /** Descending twice is descending once. */
  lemma DescendIdempotent(f: GridFunc, i: int)
    requires f.Valid() && 0 <= i < |f.pot|
    ensures Descend(f, Descend(f, i)) == Descend(f, i)
  {
    DescendIsLocalMin(f, i);
    DescendFixesLocalMin(f, Descend(f, i));
  }

  /** `_minimize` (and floodfill's `minimize_idx`, the same code). */
  method MinimizeIdx(f: GridFunc, idx: int) returns (minIdx: int)
    requires f.Valid() && 0 <= idx < |f.pot|
    ensures minIdx == Descend(f, idx)
    ensures 0 <= minIdx < |f.pot| && IsLocalMin(f, minIdx)
    ensures minIdx == idx || Lt(f.pot[minIdx], f.pot[idx])
  {
    minIdx := idx;
    var minPot := f.pot[idx];
    var foundMin := false;
    while !foundMin
      invariant 0 <= minIdx < |f.pot| && minPot == f.pot[minIdx]
      invariant Descend(f, minIdx) == Descend(f, idx)
      invariant foundMin ==> minIdx == Descend(f, idx)
      decreases |Below(f, minIdx)| + (if foundMin then 0 else 1)
    {
      foundMin := true;
      var start := minIdx;
      var nbrs := ValidNeighbors(f, start);
      assert nbrs[0..] == nbrs;
      assert Scan(f.pot, nbrs, start) == Step(f, start);
      for k := 0 to |nbrs|
        invariant forall j :: j in nbrs[k..] ==> j in nbrs
        invariant 0 <= minIdx < |f.pot| && minPot == f.pot[minIdx]
        invariant Scan(f.pot, nbrs[k..], minIdx) == Step(f, start)
        invariant foundMin <==> minIdx == start
        invariant minIdx == start || Lt(f.pot[minIdx], f.pot[start])
      {
        assert nbrs[k..][1..] == nbrs[k + 1..];
        var node := nbrs[k];
        if Lt(f.pot[node], minPot) {
          minIdx := node;
          minPot := f.pot[node];
          foundMin := false;
        }
      }
      assert nbrs[|nbrs|..] == [];
      assert minIdx == Step(f, start);
      if !foundMin {
        BelowShrinks(f, start, minIdx);
        assert Descend(f, start) == Descend(f, minIdx);
      } else {
        assert Descend(f, start) == start;
      }
    }
    DescendIsLocalMin(f, idx);
    DescendNotHigher(f, idx);
  }

  /** Flat indices of truncated tuples (zip stops at the shorter) stay in
      range as long as every given coordinate does. */
  lemma {:induction false} PartialDotBound(shape: seq<nat>, c: seq<int>)
    requires forall k :: 0 <= k < |shape| ==> shape[k] >= 1
    requires |c| <= |shape| && forall k :: 0 <= k < |c| ==> 0 <= c[k] < shape[k]
    ensures 0 <= Dot(c, Strides(shape)) < Prod(shape)
  {
    if c == [] {
      ProdPositive(shape);
    } else {
      StridesCons(shape);
      var p := Prod(shape[1..]);
      PartialDotBound(shape[1..], c[1..]);
      var inner := Dot(c[1..], Strides(shape[1..]));
      assert Dot(c, Strides(shape)) == c[0] * p + inner;
      MulMonotone(0, c[0], p);
      MulMonotone(c[0] + 1, shape[0], p);
      assert (c[0] + 1) * p == c[0] * p + p;
    }
  }

  /** `minimize(coords)`: snap to the nearest node, descend, and return the
      coordinate indices of the local minimum reached. */
  method Minimize(f: GridFunc, coords: seq<real>) returns (c: seq<int>)
    requires f.Valid()
    ensures 0 <= Idx(f.grid, MapNearest(f.grid, coords)) < f.grid.nnodes
    ensures c == CoordsOf(f.grid, Descend(f, Idx(f.grid, MapNearest(f.grid, coords))))
    ensures InBounds(f.grid.shape, c) && IsLocalMin(f, Idx(f.grid, c))
  {
    var coordsIdx := MapNearest(f.grid, coords);
    PartialDotBound(f.grid.shape, coordsIdx);
    var idx := Idx(f.grid, coordsIdx);
    var minIdx := MinimizeIdx(f, idx);
    c := CoordsIdx(f.grid, minIdx);
  }

  // ---------------------------------------------------------------------
  // Boxes of coordinate indices and the NaN-ignoring arg-min (`_filter_min`)

  /** Half-open index ranges, one per axis. */
  function Lows(box: Ranges): (l: seq<int>)
    ensures |l| == |box|
  {
    seq(|box|, k requires 0 <= k < |box| => box[k].0)
  }

  /** The extent of each range: `ub - lb`, or 0 for an empty range. */
  function Widths(box: Ranges): (w: seq<nat>)
    ensures |w| == |box|
  {
    seq(|box|, k requires 0 <= k < |box| => if box[k].1 > box[k].0 then box[k].1 - box[k].0 else 0)
  }

  lemma {:induction false} LayersSize(lo: int, hi: int, t: seq<seq<int>>)
    ensures |Layers(lo, hi, t)| == (if hi > lo then hi - lo else 0) * |t|
    decreases hi - lo
  {
    if lo < hi {
      LayersSize(lo + 1, hi, t);
    }
  }

  lemma {:induction false} CartesianSize(box: Ranges)
    ensures |Cartesian(box)| == Prod(Widths(box))
  {
    if box != [] {
      CartesianSize(box[1..]);
      LayersSize(box[0].0, box[0].1, Cartesian(box[1..]));
      assert Widths(box)[1..] == Widths(box[1..]);
    }
  }

  lemma {:induction false} ProdZero(s: seq<nat>)
    requires Prod(s) > 0
    ensures forall k :: 0 <= k < |s| ==> s[k] >= 1
  {
    if s != [] {
      ProdZero(s[1..]);
      forall k | 0 <= k < |s| ensures s[k] >= 1 {
        if k > 0 { assert s[k] == s[1..][k - 1]; }
      }
    }
  }

  /** Entry k of a layer stack: layer k / |t|, tail k % |t|. */
  lemma {:induction false} LayersIndex(lo: int, hi: int, t: seq<seq<int>>, k: int)
    requires |t| >= 1 && lo < hi && 0 <= k < (hi - lo) * |t|
    ensures |Layers(lo, hi, t)| == (hi - lo) * |t|
    ensures Layers(lo, hi, t)[k] == [lo + k / |t|] + t[k % |t|]
    decreases hi - lo
  {
    LayersSize(lo, hi, t);
    var n := |t|;
    if k < n {
      DivModOf(0, k, n);
    } else {
      if lo + 1 >= hi {
        MulMonotone(hi - lo, 1, n);
        assert false;
      }
      assert (hi - lo) * n == (hi - (lo + 1)) * n + n;
      LayersIndex(lo + 1, hi, t, k - n);
      var q, r := (k - n) / n, (k - n) % n;
      assert k == (q + 1) * n + r;
      DivModOf(q + 1, r, n);
    }
  }

  /** Unravelling by the strides of w: the quotient by the product of the
      later widths, then the remainder unravelled by the later strides. */
  lemma UnravelCons(w: seq<nat>, k: int, n: nat, q: int, r: int)
    requires |w| >= 1 && forall a :: 0 <= a < |w| ==> w[a] >= 1
    requires n == Prod(w[1..]) && n >= 1 && q == k / n && r == k % n
    ensures forall a :: 0 <= a < |w| ==> Strides(w)[a] >= 1
    ensures forall a :: 0 <= a < |w| - 1 ==> Strides(w[1..])[a] >= 1
    ensures Unravel(Strides(w), k) == [q] + Unravel(Strides(w[1..]), r)
  {
    StridesPositive(w);
    StridesPositive(w[1..]);
    StridesCons(w);
    ProdPositive(w[1..]);
  }

  lemma AddCons(a: int, l: seq<int>, x: int, u: seq<int>)
    requires |l| == |u|
    ensures Add([a] + l, [x] + u) == [a + x] + Add(l, u)
  {
  }

  /** The k-th tuple of a box whose later axes hold n tuples: the k / n-th
      value of the first axis before the (k % n)-th tuple of the rest. */
  lemma CartesianCons(box: Ranges, k: int, n: nat, q: int, r: int)
    requires |box| >= 1 && box[0].0 < box[0].1
    requires n == |Cartesian(box[1..])| && n >= 1
    requires 0 <= k < (box[0].1 - box[0].0) * n && q == k / n && r == k % n
    ensures 0 <= r < n && |Cartesian(box)| == (box[0].1 - box[0].0) * n
    ensures Cartesian(box)[k] == [box[0].0 + q] + Cartesian(box[1..])[r]
  {
    LayersIndex(box[0].0, box[0].1, Cartesian(box[1..]), k);
  }

  /** The corner and the widths of a box are those of its first axis
      followed by those of the rest. */
  lemma BoxCons(box: Ranges)
    requires |box| >= 1
    ensures Widths(box)[1..] == Widths(box[1..])
    ensures Lows(box) == [box[0].0] + Lows(box[1..])
  {
    var l := [box[0].0] + Lows(box[1..]);
    assert forall a :: 0 <= a < |box| ==> Lows(box)[a] == l[a];
  }

  /** The k-th tuple of a non-empty box in C order is the box's lower corner
      plus `np.unravel_index(k, widths)`. */
  lemma {:induction false} CartesianIndex(box: Ranges, k: int)
    requires forall a :: 0 <= a < |box| ==> box[a].0 < box[a].1
    requires 0 <= k < Prod(Widths(box))
    ensures forall a :: 0 <= a < |box| ==> Strides(Widths(box))[a] >= 1
    ensures |Cartesian(box)| == Prod(Widths(box))
    ensures Cartesian(box)[k] == Add(Lows(box), Unravel(Strides(Widths(box)), k))
  {
    var w := Widths(box);
    StridesPositive(w);
    CartesianSize(box);
    if box != [] {
      var rest := box[1..];
      BoxCons(box);
      CartesianSize(rest);
      var n := Prod(Widths(rest));
      ProdPositive(Widths(rest));
      assert Prod(w) == (box[0].1 - box[0].0) * n;
      var q, r := k / n, k % n;
      CartesianCons(box, k, n, q, r);
      UnravelCons(w, k, n, q, r);
      CartesianIndex(rest, r);
      AddCons(box[0].0, Lows(rest), q, Unravel(Strides(Widths(rest)), r));
    }
  }

  /** Every tuple of a box inside the shape is a node. */
  lemma BoxInBounds(g: Grid, box: Ranges)
    requires g.Valid() && |box| == |g.shape|
    requires forall a :: 0 <= a < |box| ==> 0 <= box[a].0 && box[a].1 <= g.shape[a]
    ensures forall c :: c in Cartesian(box) ==> InBounds(g.shape, c) && InRanges(c, box)
  {
    forall c | c in Cartesian(box) ensures InBounds(g.shape, c) && InRanges(c, box) {
      CartesianMember(box, c);
    }
  }

  /** The potentials at the given nodes, in order. */
  function PotsAt(f: GridFunc, cells: seq<seq<int>>): (v: seq<Pot>)
    requires f.Valid()
    requires forall c :: c in cells ==> InBounds(f.grid.shape, c)
    ensures |v| == |cells|
  {
    seq(|cells|, k requires 0 <= k < |cells| => f.pot[Idx(f.grid, cells[k])])
  }

  predicate HasValid(v: seq<Pot>)
  {
    exists k :: 0 <= k < |v| && v[k].Val?
  }

  /** np.nanargmin: the first position of the least non-NaN value. */
  function NanArgMin(v: seq<Pot>): (p: nat)
    requires HasValid(v)
    ensures p < |v| && v[p].Val?
    ensures forall k :: 0 <= k < |v| && v[k].Val? ==> v[p].v <= v[k].v
    ensures forall k :: 0 <= k < p && v[k].Val? ==> v[k].v > v[p].v
  {
    var init := v[..|v| - 1];
    var last := |v| - 1;
    if HasValid(init) then
      var p := NanArgMin(init);
      assert forall k :: 0 <= k < last ==> init[k] == v[k];
      if v[last].Val? && v[last].v < v[p].v then last else p
    else
      assert forall k :: 0 <= k < last ==> init[k] == v[k] && v[k].NaN?;
      last
  }

  /** Some axis of the box has no index in it. */
  predicate EmptyBox(box: Ranges)
  {
    exists a :: 0 <= a < |box| && box[a].1 <= box[a].0
  }

  /** A zero factor makes the product zero. */
  lemma {:induction false} ProdZeroAt(s: seq<nat>, a: nat)
    requires a < |s| && s[a] == 0
    ensures Prod(s) == 0
  {
    if a > 0 {
      ProdZeroAt(s[1..], a - 1);
    }
  }

  /** A box is empty exactly when one of its axes is. */
  lemma EmptyBoxCells(box: Ranges)
    ensures Cartesian(box) == [] <==> EmptyBox(box)
  {
    CartesianSize(box);
    if EmptyBox(box) {
      var a :| 0 <= a < |box| && box[a].1 <= box[a].0;
      ProdZeroAt(Widths(box), a);
    } else {
      forall a | 0 <= a < |box| ensures Widths(box)[a] >= 1 {
        assert box[a].0 < box[a].1;
      }
      ProdPositive(Widths(box));
    }
  }

  /** `_filter_min`: the node of the box, in C order the first one, holding
      the least non-NaN potential. numpy's `nanargmin` runs `argmin` first,
      which raises ValueError on an empty box; otherwise a box with no
      non-NaN entry raises ValueError too, with its own message. */
  function FilterMin(f: GridFunc, box: Ranges): (r: Result<seq<int>>)
    requires f.Valid() && |box| == |f.grid.shape|
    requires forall a :: 0 <= a < |box| ==> 0 <= box[a].0 && box[a].1 <= f.grid.shape[a]
    ensures r.Ok? ==> |r.value| == |box|
    ensures r.Err? ==> r.error.ValueError?
  {
    BoxInBounds(f.grid, box);
    var cells := Cartesian(box);
    var vals := PotsAt(f, cells);
    if cells == [] then Err(ValueError("attempt to get argmin of an empty sequence"))
    else if !HasValid(vals) then Err(ValueError("All-NaN slice encountered"))
    else
      var m := NanArgMin(vals);
      CartesianSize(box);
      ProdZero(Widths(box));
      StridesPositive(Widths(box));
      Ok(Add(Lows(box), Unravel(Strides(Widths(box)), m)))
  }

  /** `_filter_min` fails exactly when no node of the box has a valid
      potential, with the empty-sequence message exactly when the box is
      empty; otherwise it returns a node of the box whose potential is the
      least valid potential in the box. */
  lemma FilterMinSpec(f: GridFunc, box: Ranges)
    requires f.Valid() && |box| == |f.grid.shape|
    requires forall a :: 0 <= a < |box| ==> 0 <= box[a].0 && box[a].1 <= f.grid.shape[a]
    ensures FilterMin(f, box).Err? ==>
      FilterMin(f, box).error == if EmptyBox(box) then ValueError("attempt to get argmin of an empty sequence")
                                 else ValueError("All-NaN slice encountered")
    ensures FilterMin(f, box).Ok? <==>
      exists c :: InRanges(c, box) && InBounds(f.grid.shape, c) && f.pot[Idx(f.grid, c)].Val?
    ensures FilterMin(f, box).Ok? ==>
      var c := FilterMin(f, box).value;
      && InRanges(c, box) && InBounds(f.grid.shape, c) && f.pot[Idx(f.grid, c)].Val?
      && forall e :: InRanges(e, box) && InBounds(f.grid.shape, e) && f.pot[Idx(f.grid, e)].Val? ==>
           f.pot[Idx(f.grid, c)].v <= f.pot[Idx(f.grid, e)].v
  {
    BoxInBounds(f.grid, box);
    var cells := Cartesian(box);
    var vals := PotsAt(f, cells);
    EmptyBoxCells(box);
    if HasValid(vals) {
      var m := NanArgMin(vals);
      CartesianSize(box);
      ProdZero(Widths(box));
      forall a | 0 <= a < |box| ensures box[a].0 < box[a].1 {
        assert Widths(box)[a] >= 1;
      }
      CartesianIndex(box, m);
      assert FilterMin(f, box).value == cells[m];
      forall e | InRanges(e, box) && InBounds(f.grid.shape, e) && f.pot[Idx(f.grid, e)].Val?
        ensures f.pot[Idx(f.grid, cells[m])].v <= f.pot[Idx(f.grid, e)].v
      {
        CartesianMember(box, e);
        var j :| 0 <= j < |cells| && cells[j] == e;
        assert vals[j] == f.pot[Idx(f.grid, e)];
      }
    } else {
      forall e | InRanges(e, box) && InBounds(f.grid.shape, e)
        ensures f.pot[Idx(f.grid, e)].NaN?
      {
        CartesianMember(box, e);
        var j :| 0 <= j < |cells| && cells[j] == e;
        assert vals[j] == f.pot[Idx(f.grid, e)];
      }
    }
  }

  // ---------------------------------------------------------------------
  // Bound arguments (`g_minimize`)

  /** A positional argument of `g_minimize`: None, a scalar (int or float),
      a tuple or list whose items are numbers or None, or a value of any
      other type (not subscriptable). */
  datatype BoundArg = NoBound | Number(x: real) | Items(items: seq<Option<real>>) | Other

  /** An entry of the `bounds` list: None, or a tuple of one or two items. */
  type Bound = Option<seq<Option<real>>>

  /** The checks of the first loop of `g_minimize` on one argument, with a
      scalar promoted to a one-element tuple. */
  function NormalizeArg(a: BoundArg): (r: Result<Bound>)
    ensures r.Ok? && r.value.Some? ==> |r.value.value| == 1 || |r.value.value| == 2
    ensures r == Err(NotAllowedType) <==> a.Other?
  {
    match a
    case NoBound => Ok(None)
    case Number(x) => Ok(Some([Some(x)]))
    case Items(s) => if |s| == 1 || |s| == 2 then Ok(Some(s)) else Err(RuntimeError("encountered invalid bound"))
    case Other => Err(NotAllowedType)
  }

  /** A per-argument check of the first loop (the two modules differ here). */
  type Checker = BoundArg -> Result<Bound>

  /** The first loop over the arguments, stopping at the first error. */
  function NormalizeAll(norm: Checker, args: seq<BoundArg>): (r: Result<seq<Bound>>)
    ensures r.Ok? ==> |r.value| == |args|
  {
    if args == [] then Ok([])
    else
      match NormalizeAll(norm, args[..|args| - 1])
      case Err(e) => Err(e)
      case Ok(bs) =>
        match norm(args[|args| - 1])
        case Err(e) => Err(e)
        case Ok(b) => Ok(bs + [b])
  }

  /** The first loop succeeds exactly when every argument passes its
      checks; it then holds each argument's bound, and otherwise raises the
      error of the first argument that fails. */
  lemma {:induction false} NormalizeAllSpec(norm: Checker, args: seq<BoundArg>)
    ensures NormalizeAll(norm, args).Ok? <==> forall k :: 0 <= k < |args| ==> norm(args[k]).Ok?
    ensures NormalizeAll(norm, args).Ok? ==>
      forall k :: 0 <= k < |args| ==> NormalizeAll(norm, args).value[k] == norm(args[k]).value
    ensures NormalizeAll(norm, args).Err? ==>
      exists k :: && 0 <= k < |args| && norm(args[k]).Err?
                  && (forall j :: 0 <= j < k ==> norm(args[j]).Ok?)
                  && NormalizeAll(norm, args).error == norm(args[k]).error
  {
    if args != [] {
      var init := args[..|args| - 1];
      NormalizeAllSpec(norm, init);
      assert forall k :: 0 <= k < |init| ==> init[k] == args[k];
    }
  }

  /** numpy's `searchsorted` with side='left': a bisection of [0, |gv|)
      that moves right past every probed value below x. */
  function SearchSorted(gv: seq<real>, x: real): (r: nat)
    ensures r <= |gv|
  {
    Bisect(gv, x, 0, |gv|)
  }

  /** The bisection loop on the half-open window [lo, hi). */
  function Bisect(gv: seq<real>, x: real, lo: nat, hi: nat): (r: nat)
    requires lo <= hi <= |gv|
    ensures lo <= r <= hi
    decreases hi - lo
  {
    if lo < hi then
      var mid := lo + (hi - lo) / 2;
      if gv[mid] < x then Bisect(gv, x, mid + 1, hi) else Bisect(gv, x, lo, mid)
    else lo
  }

  /** The first index whose value is not below x (|gv| when there is
      none), found by scanning. */
  function FirstNotBelow(gv: seq<real>, x: real): (r: nat)
    ensures r <= |gv|
    ensures forall k :: 0 <= k < r ==> gv[k] < x
    ensures r < |gv| ==> gv[r] >= x
  {
    if gv == [] then 0
    else if gv[0] >= x then 0
    else 1 + FirstNotBelow(gv[1..], x)
  }

  ghost predicate Sorted(gv: seq<real>)
  {
    forall i, j :: 0 <= i <= j < |gv| ==> gv[i] <= gv[j]
  }

  /** On a sorted vector a window whose left side lies below x and whose
      right side does not keeps that split through the bisection. */
  lemma {:induction false} BisectSplits(gv: seq<real>, x: real, lo: nat, hi: nat)
    requires Sorted(gv) && lo <= hi <= |gv|
    requires forall k :: 0 <= k < lo ==> gv[k] < x
    requires forall k :: hi <= k < |gv| ==> gv[k] >= x
    ensures forall k :: 0 <= k < |gv| ==> (k < Bisect(gv, x, lo, hi) <==> gv[k] < x)
    decreases hi - lo
  {
    if lo < hi {
      var mid := lo + (hi - lo) / 2;
      if gv[mid] < x {
        BisectSplits(gv, x, mid + 1, hi);
      } else {
        BisectSplits(gv, x, lo, mid);
      }
    }
  }

  /** On a sorted axis the search splits the axis into the values below x
      and the values at or above x, and so agrees with the scan. */
  lemma SearchSortedSplits(gv: seq<real>, x: real)
    requires Sorted(gv)
    ensures forall k :: 0 <= k < |gv| ==> (k < SearchSorted(gv, x) <==> gv[k] < x)
    ensures SearchSorted(gv, x) == FirstNotBelow(gv, x)
  {
    BisectSplits(gv, x, 0, |gv|);
    var r, s := SearchSorted(gv, x), FirstNotBelow(gv, x);
    if s < |gv| {
      assert gv[s] >= x;
    }
    if s > 0 {
      assert gv[s - 1] < x;
    }
  }

  /** On an axis running downwards the bisection and the scan disagree:
      for [5, 4, 3, 2, 1] and 4.5 the probes 3 and 1 are both below 4.5,
      so the bisection answers 5 where the first value not below is at 0. */
  lemma SearchSortedDescending()
    ensures SearchSorted([5.0, 4.0, 3.0, 2.0, 1.0], 4.5) == 5
    ensures FirstNotBelow([5.0, 4.0, 3.0, 2.0, 1.0], 4.5) == 0
  {
    var gv := [5.0, 4.0, 3.0, 2.0, 1.0];
    assert Bisect(gv, 4.5, 3, 5) == Bisect(gv, 4.5, 5, 5);
    assert Bisect(gv, 4.5, 0, 5) == Bisect(gv, 4.5, 3, 5);
  }

  /** An axis running upwards is sorted. */
  lemma LinspaceSorted(l: Linspace)
    requires l.start <= l.stop
    ensures Sorted(LinspaceVec(l))
  {
    var v := LinspaceVec(l);
    if l.num > 1 {
      forall i, j | 0 <= i <= j < |v| ensures v[i] <= v[j] {
        LinspaceAtMonotone(l, i, j);
        assert v[i] == LinspaceAt(l, i) && v[j] == LinspaceAt(l, j);
      }
    }
  }

  lemma LinspaceAtMonotone(l: Linspace, i: nat, j: nat)
    requires l.num > 1 && l.start <= l.stop && i <= j
    ensures LinspaceAt(l, i) <= LinspaceAt(l, j)
  {
    ScaleMonotone(i as real, j as real, l.stop - l.start, (l.num - 1) as real);
  }

  /** Scaling by a non-negative factor and dividing by a positive one keeps
      the order. */
  lemma ScaleMonotone(a: real, b: real, d: real, m: real)
    requires a <= b && d >= 0.0 && m > 0.0
    ensures a * d / m <= b * d / m
  {
    var x, y := a * d, b * d;
    assert y - x == (b - a) * d;
    assert (b - a) * d >= 0.0;
    assert y / m - x / m == (y - x) / m;
  }

  /** One step of the second loop of `g_minimize`: the half-open index range
      for the bound of an axis with grid vector gv of size n. */
  function ResolveBound(gv: seq<real>, n: nat, b: Bound): (r: Result<(int, int)>)
    requires |gv| == n >= 1
    ensures r.Ok? ==> 0 <= r.value.0 && r.value.1 <= n
  {
    match b
    case None => Ok((0, n))
    case Some(s) =>
      if |s| == 1 then
        if s[0].None? then Err(ImplicitTypeError)
        else
          var p := ArgMinAbs(gv, s[0].value);
          Ok((p, p + 1))
      else if |s| == 2 then
        var lb := if s[0].Some? then SearchSorted(gv, s[0].value) else 0;
        var ub := if s[1].Some? then SearchSorted(gv, s[1].value) else n;
        Ok((lb, ub))
      else Err(AssertionError)
  }

  /** What each kind of bound selects: everything; the single nearest node;
      on a sorted axis exactly the grid values in [lower, upper), a missing
      end leaving that side open. A resolved range never leaves the axis. */
  lemma ResolveBoundSpec(gv: seq<real>, b: Bound)
    requires |gv| >= 1
    ensures var r := ResolveBound(gv, |gv|, b);
      && (r.Ok? ==> 0 <= r.value.0 && r.value.1 <= |gv|)
      && (b.None? ==> r == Ok((0, |gv|)))
      && (b.Some? && |b.value| == 1 && b.value[0].None? ==> r == Err(ImplicitTypeError))
      && (b.Some? && |b.value| == 1 && b.value[0].Some? ==>
            r.Ok? && r.value.1 == r.value.0 + 1 && 0 <= r.value.0 < |gv|
            && forall j :: 0 <= j < |gv| ==>
                 Abs(gv[r.value.0] - b.value[0].value) <= Abs(gv[j] - b.value[0].value))
      && (b.Some? && |b.value| == 2 && Sorted(gv) ==>
            r.Ok? && forall k :: 0 <= k < |gv| ==>
              (r.value.0 <= k < r.value.1 <==>
                 (b.value[0].None? || b.value[0].value <= gv[k]) && (b.value[1].None? || gv[k] < b.value[1].value)))
      && (b.Some? && |b.value| != 1 && |b.value| != 2 ==> r == Err(AssertionError))
  {
    if b.Some? && |b.value| == 2 && Sorted(gv) {
      if b.value[0].Some? { SearchSortedSplits(gv, b.value[0].value); }
      if b.value[1].Some? { SearchSortedSplits(gv, b.value[1].value); }
    }
  }

  /** The second loop of `g_minimize` over the first |bs| axes, stopping at
      the first error. */
  function ResolveAll(g: Grid, bs: seq<Bound>): (r: Result<Ranges>)
    requires g.Valid() && |bs| <= |g.shape|
    ensures r.Ok? ==> |r.value| == |bs|
    ensures r.Ok? ==> forall a :: 0 <= a < |bs| ==> 0 <= r.value[a].0 && r.value[a].1 <= g.shape[a]
  {
    if bs == [] then Ok([])
    else
      var a := |bs| - 1;
      match ResolveAll(g, bs[..a])
      case Err(e) => Err(e)
      case Ok(boxes) =>
        ResolveBoundSpec(g.vecs[a], bs[a]);
        match ResolveBound(g.vecs[a], g.shape[a], bs[a])
        case Err(e) => Err(e)
        case Ok(range) => Ok(boxes + [range])
  }

  /** The second loop succeeds exactly when every axis's bound resolves, ... */
  lemma {:induction false} ResolveAllOk(g: Grid, bs: seq<Bound>)
    requires g.Valid() && |bs| <= |g.shape|
    ensures ResolveAll(g, bs).Ok? <==>
      forall a :: 0 <= a < |bs| ==> ResolveBound(g.vecs[a], g.shape[a], bs[a]).Ok?
  {
    if bs != [] {
      var n := |bs| - 1;
      var init := bs[..n];
      ResolveAllOk(g, init);
      assert forall k :: 0 <= k < n ==> init[k] == bs[k];
    }
  }

  /** ... and then holds each axis's range ... */
  lemma {:induction false} ResolveAllValue(g: Grid, bs: seq<Bound>)
    requires g.Valid() && |bs| <= |g.shape|
    ensures ResolveAll(g, bs).Ok? ==>
      forall a :: 0 <= a < |bs| ==>
        ResolveBound(g.vecs[a], g.shape[a], bs[a]).Ok? && ResolveAll(g, bs).value[a] == ResolveBound(g.vecs[a], g.shape[a], bs[a]).value
  {
    if bs != [] && ResolveAll(g, bs).Ok? {
      var n := |bs| - 1;
      var init := bs[..n];
      ResolveAllValue(g, init);
      assert forall k :: 0 <= k < n ==> init[k] == bs[k];
    }
  }

  /** ... and otherwise raises the error of the first axis that fails. */
  lemma {:induction false} ResolveAllErr(g: Grid, bs: seq<Bound>)
    requires g.Valid() && |bs| <= |g.shape|
    ensures ResolveAll(g, bs).Err? ==>
      exists a :: && 0 <= a < |bs| && ResolveBound(g.vecs[a], g.shape[a], bs[a]).Err?
                  && (forall j :: 0 <= j < a ==> ResolveBound(g.vecs[j], g.shape[j], bs[j]).Ok?)
                  && ResolveAll(g, bs).error == ResolveBound(g.vecs[a], g.shape[a], bs[a]).error
  {
    if bs != [] {
      var n := |bs| - 1;
      var init := bs[..n];
      assert forall k :: 0 <= k < n ==> init[k] == bs[k];
      if ResolveAll(g, init).Err? {
        ResolveAllErr(g, init);
        var a :| && 0 <= a < n && ResolveBound(g.vecs[a], g.shape[a], init[a]).Err?
                 && (forall j :: 0 <= j < a ==> ResolveBound(g.vecs[j], g.shape[j], init[j]).Ok?)
                 && ResolveAll(g, init).error == ResolveBound(g.vecs[a], g.shape[a], init[a]).error;
        assert ResolveAll(g, bs).error == ResolveBound(g.vecs[a], g.shape[a], bs[a]).error;
      } else if ResolveAll(g, bs).Err? {
        ResolveAllOk(g, init);
        assert ResolveAll(g, bs).error == ResolveBound(g.vecs[n], g.shape[n], bs[n]).error;
      }
    }
  }

  /** One more axis of the second loop. */
  lemma ResolveAllSnoc(g: Grid, bs: seq<Bound>, a: nat)
    requires g.Valid() && |bs| <= |g.shape| && a < |bs|
    ensures ResolveAll(g, bs[..a + 1]) ==
      match ResolveAll(g, bs[..a])
      case Err(e) => Err(e)
      case Ok(boxes) =>
        match ResolveBound(g.vecs[a], g.shape[a], bs[a])
        case Err(e) => Err(e)
        case Ok(range) => Ok(boxes + [range])
  {
    assert bs[..a + 1][..a] == bs[..a];
  }

  /** Once the first loop has raised on a prefix of the arguments, the later
      arguments change nothing. */
  lemma {:induction false} NormalizeErrStays(norm: Checker, args: seq<BoundArg>, i: nat)
    requires i <= |args| && NormalizeAll(norm, args[..i]).Err?
    ensures NormalizeAll(norm, args) == NormalizeAll(norm, args[..i])
    decreases |args| - i
  {
    if i < |args| {
      assert args[..i + 1][..i] == args[..i];
      NormalizeErrStays(norm, args, i + 1);
    } else {
      assert args[..i] == args;
    }
  }

  /** The same for the second loop over the axes. */
  lemma {:induction false} ResolveErrStays(g: Grid, bs: seq<Bound>, a: nat)
    requires g.Valid() && |bs| <= |g.shape|
    requires a <= |bs| && ResolveAll(g, bs[..a]).Err?
    ensures ResolveAll(g, bs) == ResolveAll(g, bs[..a])
    decreases |bs| - a
  {
    if a < |bs| {
      assert bs[..a + 1][..a] == bs[..a];
      ResolveErrStays(g, bs, a + 1);
    } else {
      assert bs[..a] == bs;
    }
  }

  /** `bounds` after the first loop: the given bounds, then None for the
      remaining axes. */
  function Padded(bs: seq<Bound>, dim: nat): (r: seq<Bound>)
    requires |bs| <= dim
    ensures |r| == dim
  {
    bs + seq(dim - |bs|, _ => None)
  }

  /** The index box `g_minimize` searches, or the error it raises first. */
  function Boxes(f: GridFunc, norm: Checker, args: seq<BoundArg>): (r: Result<Ranges>)
    requires f.Valid()
    ensures r.Ok? ==> |r.value| == |f.grid.shape|
    ensures r.Ok? ==> forall a :: 0 <= a < |r.value| ==> 0 <= r.value[a].0 && r.value[a].1 <= f.grid.shape[a]
  {
    var dim := |f.grid.shape|;
    if |args| > dim then Err(RuntimeError("more arguments than dimensionality"))
    else
      match NormalizeAll(norm, args)
      case Err(e) => Err(e)
      case Ok(bs) => ResolveAll(f.grid, Padded(bs, dim))
  }

  /** What `g_minimize(*args)` returns, given the module's argument check. */
  function GMinimizeSpec(f: GridFunc, norm: Checker, args: seq<BoundArg>): Result<seq<int>>
    requires f.Valid()
  {
    match Boxes(f, norm, args)
    case Err(e) => Err(e)
    case Ok(box) => FilterMin(f, box)
  }

  /** More bound arguments than axes is an error before anything else. */
  lemma GMinimizeTooMany(f: GridFunc, norm: Checker, args: seq<BoundArg>)
    requires f.Valid() && |args| > |f.grid.shape|
    ensures GMinimizeSpec(f, norm, args) == Err(RuntimeError("more arguments than dimensionality"))
  {
  }

  /** A tuple or list bound whose length is neither 1 nor 2 is an error,
      unless an earlier argument raised already. */
  lemma GMinimizeBadLength(f: GridFunc, args: seq<BoundArg>, k: nat)
    requires f.Valid() && |args| <= |f.grid.shape| && k < |args|
    requires args[k].Items? && |args[k].items| != 1 && |args[k].items| != 2
    requires forall j :: 0 <= j < k ==> NormalizeArg(args[j]).Ok?
    ensures GMinimizeSpec(f, NormalizeArg, args) == Err(RuntimeError("encountered invalid bound"))
  {
    NormalizeAllSpec(NormalizeArg, args);
    if NormalizeAll(NormalizeArg, args).Err? {
      var k' :| && 0 <= k' < |args| && NormalizeArg(args[k']).Err?
                && (forall j :: 0 <= j < k' ==> NormalizeArg(args[j]).Ok?)
                && NormalizeAll(NormalizeArg, args).error == NormalizeArg(args[k']).error;
      assert k' == k;
    }
  }

  /** Equal per-argument results give equal results for the whole list. */
  lemma {:induction false} NormalizeAllCongruent(norm: Checker, a: seq<BoundArg>, b: seq<BoundArg>)
    requires |a| == |b| && forall k :: 0 <= k < |a| ==> norm(a[k]) == norm(b[k])
    ensures NormalizeAll(norm, a) == NormalizeAll(norm, b)
  {
    if a != [] {
      var n := |a| - 1;
      assert forall k :: 0 <= k < n ==> a[..n][k] == a[k] && b[..n][k] == b[k];
      NormalizeAllCongruent(norm, a[..n], b[..n]);
    }
  }

  /** A scalar bound behaves exactly as the one-element tuple holding it. */
  lemma GMinimizeScalarPromotion(f: GridFunc, args: seq<BoundArg>, k: nat, x: real)
    requires f.Valid() && k < |args| && args[k] == Number(x)
    ensures GMinimizeSpec(f, NormalizeArg, args) == GMinimizeSpec(f, NormalizeArg, args[k := Items([Some(x)])])
  {
    NormalizeAllCongruent(NormalizeArg, args, args[k := Items([Some(x)])]);
  }

  /** When `g_minimize` returns, its result is a node of the resolved box
      holding the least valid potential in the box. */
  lemma GMinimizeFindsBoxMin(f: GridFunc, norm: Checker, args: seq<BoundArg>)
    requires f.Valid() && GMinimizeSpec(f, norm, args).Ok?
    ensures Boxes(f, norm, args).Ok?
    ensures var c, box := GMinimizeSpec(f, norm, args).value, Boxes(f, norm, args).value;
      && InRanges(c, box) && InBounds(f.grid.shape, c) && f.pot[Idx(f.grid, c)].Val?
      && forall e :: InRanges(e, box) && InBounds(f.grid.shape, e) && f.pot[Idx(f.grid, e)].Val? ==>
           f.pot[Idx(f.grid, c)].v <= f.pot[Idx(f.grid, e)].v
  {
    FilterMinSpec(f, Boxes(f, norm, args).value);
  }

  /** The first loop of `g_minimize`: check each argument, promote a
      scalar, and fill `bounds` (None for the axes without an argument). */
  method CollectBounds(args: seq<BoundArg>, dim: nat) returns (r: Result<seq<Bound>>)
    requires |args| <= dim
    ensures r == (match NormalizeAll(NormalizeArg, args) case Err(e) => Err(e) case Ok(bs) => Ok(Padded(bs, dim)))
  {
    var bounds: seq<Bound> := seq(dim, _ => None);
    var i := 0;
    while i < |args|
      invariant 0 <= i <= |args| && |bounds| == dim
      invariant NormalizeAll(NormalizeArg, args[..i]) == Ok(bounds[..i])
      invariant forall k :: i <= k < dim ==> bounds[k] == None
    {
      assert args[..i + 1][..i] == args[..i];
      var bound := args[i];
      if bound.NoBound? {
        assert bounds[..i + 1] == bounds[..i] + [None];
        i := i + 1;
        continue;
      }
      var b: seq<Option<real>>;
      if bound.Number? {
        b := [Some(bound.x)];
      } else if bound.Items? {
        b := bound.items;
      } else {
        assert NormalizeAll(NormalizeArg, args[..i + 1]) == Err(NotAllowedType);
        NormalizeErrStays(NormalizeArg, args, i + 1);
        return Err(NotAllowedType);
      }
      if !(|b| == 1 || |b| == 2) {
        assert NormalizeAll(NormalizeArg, args[..i + 1]) == Err(RuntimeError("encountered invalid bound"));
        NormalizeErrStays(NormalizeArg, args, i + 1);
        return Err(RuntimeError("encountered invalid bound"));
      }
      bounds := bounds[i := Some(b)];
      assert bounds[..i + 1] == bounds[..i] + [Some(b)];
      i := i + 1;
    }
    assert args[..i] == args;
    assert bounds == Padded(bounds[..i], dim);
    r := Ok(bounds);
  }

  /** The second loop of `g_minimize`: one index range per axis. */
  method ResolveBounds(g: Grid, bounds: seq<Bound>) returns (r: Result<Ranges>)
    requires g.Valid() && |bounds| == |g.shape|
    ensures r == ResolveAll(g, bounds)
  {
    var dim := |g.shape|;
    var boxes: Ranges := [];
    var a := 0;
    while a < dim
      invariant 0 <= a <= dim
      invariant ResolveAll(g, bounds[..a]) == Ok(boxes)
      decreases dim - a
    {
      ResolveAllSnoc(g, bounds, a);
      var maxUb := g.shape[a];
      var gv := g.vecs[a];
      var range: (int, int);
      match bounds[a] {
        case None =>
          range := (0, maxUb);
        case Some(bound) =>
          if |bound| == 1 {
            if bound[0].None? {
              assert ResolveBound(gv, maxUb, bounds[a]) == Err(ImplicitTypeError);
              ResolveErrStays(g, bounds, a + 1);
              return Err(ImplicitTypeError);
            }
            var p := ArgMinAbs(gv, bound[0].value);
            range := (p, p + 1);
          } else if |bound| == 2 {
            var lb := if bound[0].Some? then SearchSorted(gv, bound[0].value) else 0;
            var ub := if bound[1].Some? then SearchSorted(gv, bound[1].value) else maxUb;
            range := (lb, ub);
          } else {
            assert ResolveBound(gv, maxUb, bounds[a]) == Err(AssertionError);
            ResolveErrStays(g, bounds, a + 1);
            return Err(AssertionError);
          }
      }
      assert ResolveBound(gv, maxUb, bounds[a]) == Ok(range);
      boxes := boxes + [range];
      a := a + 1;
    }
    assert bounds[..a] == bounds;
    r := Ok(boxes);
  }

  /** `g_minimize`: check the argument count, run the two loops, then
      `_filter_min` on the resulting box. */
  method GMinimize(f: GridFunc, args: seq<BoundArg>) returns (r: Result<seq<int>>)
    requires f.Valid()
    ensures r == GMinimizeSpec(f, NormalizeArg, args)
  {
    var dim := |f.grid.shape|;
    if |args| > dim {
      return Err(RuntimeError("more arguments than dimensionality"));
    }
    var bounds := CollectBounds(args, dim);
    if bounds.Err? {
      return Err(bounds.error);
    }
    var boxes := ResolveBounds(f.grid, bounds.value);
    if boxes.Err? {
      return Err(boxes.error);
    }
    r := FilterMin(f, boxes.value);
  }
}
