/** The regular n-dimensional grid: row-major flat indices, coordinate-index
    tuples, nearest-point snapping and the neighbour table
    (floodfill/grid.py). */
module Grid {
  import opened Common

  /** One axis as handed to the constructor: np.linspace(start, stop, num). */
  datatype Linspace = Linspace(start: real, stop: real, num: nat)

  /** A constructed grid. The last three fields are the values the Python
      constructor caches (`nnodes`, `_dim_offsets`, `_neigbor_offsets`). */
  datatype Grid = Grid(
    shape: seq<nat>,
    extents: seq<(real, real)>,
    nnodes: nat,
    vecs: seq<seq<real>>,
    strides: seq<nat>,
    offsets: seq<seq<int>>)
  {
    /** What the constructor establishes: at least one axis, at least one node
        on each axis, and the cached values agree with their definitions. */
    ghost predicate Valid()
    {
      && |shape| >= 1
      && (forall k :: 0 <= k < |shape| ==> shape[k] >= 1)
      && |extents| == |shape|
      && |vecs| == |shape|
      && (forall k :: 0 <= k < |shape| ==> |vecs[k]| == shape[k])
      && nnodes == Prod(shape)
      && strides == Strides(shape)
      && offsets == NeighborOffsets(|shape|)
    }
  }

  // ---------------------------------------------------------------------
  // Products and strides

  function Prod(s: seq<nat>): nat
  {
    if s == [] then 1 else s[0] * Prod(s[1..])
  }

  function Pow3(d: nat): nat
  {
    if d == 0 then 1 else 3 * Pow3(d - 1)
  }

  /** Row-major stride of each axis: the product of the later axes' sizes. */
  function Strides(shape: seq<nat>): (st: seq<nat>)
  {
    seq(|shape|, i requires 0 <= i < |shape| => Prod(shape[i + 1..]))
  }

  lemma {:induction false} ProdSnoc(s: seq<nat>, x: nat)
    ensures Prod(s + [x]) == Prod(s) * x
  {
    if s == [] {
      assert s + [x] == [x];
      assert [x][1..] == [];
    } else {
      assert (s + [x])[1..] == s[1..] + [x];
      ProdSnoc(s[1..], x);
      calc {
        Prod(s + [x]);
        s[0] * Prod(s[1..] + [x]);
        s[0] * (Prod(s[1..]) * x);
        (s[0] * Prod(s[1..])) * x;
      }
    }
  }

  lemma {:induction false} ProdPositive(s: seq<nat>)
    requires forall k :: 0 <= k < |s| ==> s[k] >= 1
    ensures Prod(s) >= 1
  {
    if s != [] {
      ProdPositive(s[1..]);
      assert s[0] >= 1;
      assert s[0] * Prod(s[1..]) >= Prod(s[1..]);
    }
  }

  lemma StridesCons(shape: seq<nat>)
    requires |shape| >= 1
    ensures Strides(shape) == [Prod(shape[1..])] + Strides(shape[1..])
  {
    var a := Strides(shape);
    var b := [Prod(shape[1..])] + Strides(shape[1..]);
    assert |a| == |b|;
    forall i | 0 <= i < |a| ensures a[i] == b[i]
    {
      if i > 0 {
        assert a[i] == Prod(shape[i + 1..]);
        assert b[i] == Strides(shape[1..])[i - 1] == Prod(shape[1..][i..]);
        assert shape[1..][i..] == shape[i + 1..];
      }
    }
  }

  lemma StridesPositive(shape: seq<nat>)
    requires forall k :: 0 <= k < |shape| ==> shape[k] >= 1
    ensures forall k :: 0 <= k < |shape| ==> Strides(shape)[k] >= 1
  {
    forall k | 0 <= k < |shape| ensures Strides(shape)[k] >= 1 {
      ProdPositive(shape[k + 1..]);
    }
  }

  /** `_init_nnodes`: the number of nodes is the product of the shape. */
  method InitNnodes(shape: seq<nat>) returns (nnodes: nat)
    ensures nnodes == Prod(shape)
  {
    nnodes := 1;
    var i := 0;
    while i < |shape|
      invariant 0 <= i <= |shape|
      invariant nnodes == Prod(shape[..i])
    {
      assert shape[..i + 1] == shape[..i] + [shape[i]];
      ProdSnoc(shape[..i], shape[i]);
      nnodes := nnodes * shape[i];
      i := i + 1;
    }
    assert shape[..i] == shape;
  }

  /** `_init_dim_offsets`: stride i is the product of shape[i+1:], so the
      last stride is 1. */
  method InitDimOffsets(shape: seq<nat>) returns (offsets: seq<nat>)
    ensures |offsets| == |shape|
    ensures forall i :: 0 <= i < |shape| ==> offsets[i] == Prod(shape[i + 1..])
    ensures |shape| >= 1 ==> offsets[|shape| - 1] == 1
  {
    var dim := |shape|;
    offsets := [];
    var i := 0;
    while i < dim
      invariant 0 <= i <= dim
      invariant |offsets| == i
      invariant forall k :: 0 <= k < i ==> offsets[k] == Prod(shape[k + 1..])
    {
      var offset := 1;
      var j := i + 1;
      while j < dim
        invariant i + 1 <= j <= dim
        invariant offset == Prod(shape[i + 1..j])
      {
        assert shape[i + 1..j + 1] == shape[i + 1..j] + [shape[j]];
        ProdSnoc(shape[i + 1..j], shape[j]);
        offset := offset * shape[j];
        j := j + 1;
      }
      assert shape[i + 1..j] == shape[i + 1..];
      offsets := offsets + [offset];
      i := i + 1;
    }
    if dim >= 1 {
      assert shape[dim..] == [];
    }
  }

  // ---------------------------------------------------------------------
  // Lexicographic products of ranges (itertools.product, row-major boxes)

  /** Half-open integer ranges [lo, hi), one per axis. */
  type Ranges = seq<(int, int)>

  function Prefix(a: int, tails: seq<seq<int>>): seq<seq<int>>
  {
    seq(|tails|, k requires 0 <= k < |tails| => [a] + tails[k])
  }

  function Layers(lo: int, hi: int, tails: seq<seq<int>>): seq<seq<int>>
    decreases hi - lo
  {
    if lo >= hi then [] else Prefix(lo, tails) + Layers(lo + 1, hi, tails)
  }

  /** All integer tuples of the box, first axis varying slowest: the order
      of itertools.product and of a C-order slice of a numpy array. */
  function Cartesian(ranges: Ranges): seq<seq<int>>
  {
    if ranges == [] then [[]]
    else Layers(ranges[0].0, ranges[0].1, Cartesian(ranges[1..]))
  }

  predicate InRanges(v: seq<int>, ranges: Ranges)
  {
    |v| == |ranges| && forall k :: 0 <= k < |v| ==> ranges[k].0 <= v[k] < ranges[k].1
  }

  ghost predicate Distinct<T>(s: seq<T>)
  {
    forall i, j :: 0 <= i < j < |s| ==> s[i] != s[j]
  }

  lemma PrefixMember(a: int, tails: seq<seq<int>>, v: seq<int>)
    ensures v in Prefix(a, tails) <==> |v| > 0 && v[0] == a && v[1..] in tails
  {
    if |v| > 0 && v[0] == a && v[1..] in tails {
      var k :| 0 <= k < |tails| && tails[k] == v[1..];
      assert Prefix(a, tails)[k] == v;
    }
  }

  lemma {:induction false} LayersMember(lo: int, hi: int, tails: seq<seq<int>>, v: seq<int>)
    ensures v in Layers(lo, hi, tails) <==> |v| > 0 && lo <= v[0] < hi && v[1..] in tails
    decreases hi - lo
  {
    if lo < hi {
      PrefixMember(lo, tails, v);
      LayersMember(lo + 1, hi, tails, v);
    }
  }

  lemma {:induction false} CartesianMember(ranges: Ranges, v: seq<int>)
    ensures v in Cartesian(ranges) <==> InRanges(v, ranges)
  {
    if ranges != [] {
      LayersMember(ranges[0].0, ranges[0].1, Cartesian(ranges[1..]), v);
      if |v| > 0 {
        CartesianMember(ranges[1..], v[1..]);
        if InRanges(v[1..], ranges[1..]) && ranges[0].0 <= v[0] < ranges[0].1 {
          forall k | 0 <= k < |v| ensures ranges[k].0 <= v[k] < ranges[k].1 {
            if k > 0 { assert v[k] == v[1..][k - 1]; }
          }
        }
        if InRanges(v, ranges) {
          forall k | 0 <= k < |v| - 1 ensures ranges[1..][k].0 <= v[1..][k] < ranges[1..][k].1 {
            assert v[1..][k] == v[k + 1];
          }
        }
      }
    } else {
      assert v in [[]] <==> v == [];
    }
  }

  lemma {:induction false} LayersDistinct(lo: int, hi: int, tails: seq<seq<int>>)
    requires Distinct(tails)
    ensures Distinct(Layers(lo, hi, tails))
    decreases hi - lo
  {
    if lo < hi {
      var p := Prefix(lo, tails);
      var rest := Layers(lo + 1, hi, tails);
      LayersDistinct(lo + 1, hi, tails);
      forall i, j | 0 <= i < j < |p + rest| ensures (p + rest)[i] != (p + rest)[j] {
        if j < |p| {
          assert p[i][1..] == tails[i] && p[j][1..] == tails[j];
        } else if i < |p| {
          LayersMember(lo + 1, hi, tails, rest[j - |p|]);
          assert rest[j - |p|] in rest;
        }
      }
    }
  }

  lemma {:induction false} CartesianDistinct(ranges: Ranges)
    ensures Distinct(Cartesian(ranges))
  {
    if ranges != [] {
      CartesianDistinct(ranges[1..]);
      LayersDistinct(ranges[0].0, ranges[0].1, Cartesian(ranges[1..]));
    }
  }

  // ---------------------------------------------------------------------
  // The neighbour offset table

  /** The ranges of {-1, 0, 1}^d. */
  function UnitCube(d: nat): (r: Ranges)
    ensures |r| == d
  {
    if d == 0 then [] else [(-1, 2)] + UnitCube(d - 1)
  }

  function Zeros(d: nat): (z: seq<int>)
    ensures |z| == d
  {
    if d == 0 then [] else [0] + Zeros(d - 1)
  }

  /** A non-zero vector of {-1, 0, 1}^d. */
  predicate UnitStep(v: seq<int>, d: nat)
  {
    InRanges(v, UnitCube(d)) && v != Zeros(d)
  }

  /** `_init_neighbor_offsets`: the lexicographic product {-1,0,1}^d with
      the element at position (3^d - 1) / 2 popped. */
  function NeighborOffsets(d: nat): seq<seq<int>>
  {
    var all := Cartesian(UnitCube(d));
    CubeMiddle(d);
    PopAt(all, IdentityIdx(d))
  }

  /** `identiy_idx = (n - 1) / 2` with n = 3^d (integer division): the
      position of the all-zero vector in the product. */
  function IdentityIdx(d: nat): (i: nat)
    ensures i == Mid(d)
  {
    MidHalf(d);
    (Pow3(d) - 1) / 2
  }

  /** `list.pop(m)`'s effect on a list: the element at m removed. */
  function PopAt<T>(s: seq<T>, m: nat): (r: seq<T>)
    requires m < |s|
    ensures |r| == |s| - 1
  {
    s[..m] + s[m + 1..]
  }

  /** Position of the all-zero vector in the lexicographic {-1,0,1}^d. */
  function Mid(d: nat): nat
  {
    if d == 0 then 0 else Pow3(d - 1) + Mid(d - 1)
  }

  lemma {:induction false} MidHalf(d: nat)
    ensures Pow3(d) == 2 * Mid(d) + 1
    ensures (Pow3(d) - 1) / 2 == Mid(d)
  {
    if d > 0 {
      MidHalf(d - 1);
    }
    DivModOf(Mid(d), 0, 2);
  }

  lemma LayersThree(t: seq<seq<int>>)
    ensures |Layers(-1, 2, t)| == 3 * |t|
  {
    assert |Layers(1, 2, t)| == |t|;
    assert |Layers(0, 2, t)| == 2 * |t|;
  }

  lemma MiddleLayer(t: seq<seq<int>>, m: nat)
    requires m < |t|
    ensures Layers(-1, 2, t)[|t| + m] == [0] + t[m]
  {
    var l0 := Layers(0, 2, t);
    assert Layers(-1, 2, t) == Prefix(-1, t) + l0;
    assert l0 == Prefix(0, t) + Layers(1, 2, t);
  }

  /** One more axis prefixes each vector of the smaller cube with -1, then
      with 0, then with 1. */
  lemma CubeCons(d: nat)
    requires d > 0
    ensures Cartesian(UnitCube(d)) == Layers(-1, 2, Cartesian(UnitCube(d - 1)))
  {
    assert UnitCube(d)[1..] == UnitCube(d - 1);
  }

  /** The product {-1,0,1}^d has 3^d entries. */
  lemma {:induction false} CubeSize(d: nat)
    ensures |Cartesian(UnitCube(d))| == Pow3(d)
  {
    if d == 0 {
      assert UnitCube(0) == [];
    } else {
      CubeSize(d - 1);
      CubeCons(d);
      LayersThree(Cartesian(UnitCube(d - 1)));
    }
  }

  lemma {:induction false} MidBelow(d: nat)
    ensures Mid(d) < Pow3(d)
  {
    if d > 0 {
      MidBelow(d - 1);
    }
  }

  /** ... and the all-zero vector sits at position Mid(d). */
  lemma {:induction false} CubeMiddle(d: nat)
    ensures |Cartesian(UnitCube(d))| == Pow3(d)
    ensures Mid(d) < Pow3(d)
    ensures Cartesian(UnitCube(d))[Mid(d)] == Zeros(d)
  {
    CubeSize(d);
    MidBelow(d);
    if d == 0 {
      assert UnitCube(0) == [];
    } else {
      CubeMiddle(d - 1);
      CubeCons(d);
      CubeSize(d - 1);
      var prev := Cartesian(UnitCube(d - 1));
      MiddleLayer(prev, Mid(d - 1));
      assert Mid(d) == |prev| + Mid(d - 1);
      assert Zeros(d) == [0] + Zeros(d - 1);
    }
  }

  /** Popping position m of a sequence without repeats leaves a sequence
      without repeats. */
  lemma RemoveAtDistinct<T>(s: seq<T>, m: nat)
    requires m < |s| && Distinct(s)
    ensures Distinct(PopAt(s, m))
  {
    var r := s[..m] + s[m + 1..];
    forall i, j | 0 <= i < j < |r| ensures r[i] != r[j] {
      var i' := if i < m then i else i + 1;
      var j' := if j < m then j else j + 1;
      assert r[i] == s[i'] && r[j] == s[j'];
    }
  }

  /** ... and holding every element except s[m]. */
  lemma RemoveAtMember<T>(s: seq<T>, m: nat, v: T)
    requires m < |s| && Distinct(s)
    ensures v in PopAt(s, m) <==> v in s && v != s[m]
  {
    var r := s[..m] + s[m + 1..];
    if v in r {
      var i :| 0 <= i < |r| && r[i] == v;
      var i' := if i < m then i else i + 1;
      assert s[i'] == v && i' != m;
    }
    if v in s && v != s[m] {
      var i :| 0 <= i < |s| && s[i] == v;
      if i < m { assert r[i] == v; } else { assert r[i - 1] == v; }
    }
  }

  /** The offset table is the cube with its middle element popped. */
  lemma NeighborOffsetsPop(d: nat)
    ensures Mid(d) < |Cartesian(UnitCube(d))| == Pow3(d)
    ensures Cartesian(UnitCube(d))[Mid(d)] == Zeros(d)
    ensures NeighborOffsets(d) == PopAt(Cartesian(UnitCube(d)), Mid(d))
  {
    CubeMiddle(d);
  }

  lemma NeighborOffsetsDistinct(d: nat)
    ensures Distinct(NeighborOffsets(d))
  {
    NeighborOffsetsPop(d);
    CartesianDistinct(UnitCube(d));
    RemoveAtDistinct(Cartesian(UnitCube(d)), Mid(d));
  }

  lemma NeighborOffsetsMember(d: nat, v: seq<int>)
    ensures v in NeighborOffsets(d) <==> UnitStep(v, d)
  {
    NeighborOffsetsPop(d);
    CartesianDistinct(UnitCube(d));
    RemoveAtMember(Cartesian(UnitCube(d)), Mid(d), v);
    CartesianMember(UnitCube(d), v);
  }

  /** The offset table has exactly 3^d - 1 entries, no repeats, and holds
      exactly the non-zero vectors of {-1, 0, 1}^d. */
  lemma NeighborOffsetsSpec(d: nat)
    ensures |NeighborOffsets(d)| == Pow3(d) - 1
    ensures Distinct(NeighborOffsets(d))
    ensures forall v :: v in NeighborOffsets(d) <==> UnitStep(v, d)
  {
    NeighborOffsetsPop(d);
    NeighborOffsetsDistinct(d);
    forall v ensures v in NeighborOffsets(d) <==> UnitStep(v, d) {
      NeighborOffsetsMember(d, v);
    }
  }

  lemma NeighborOffsetsLength(d: nat)
    ensures forall o :: o in NeighborOffsets(d) ==> |o| == d
  {
    forall o | o in NeighborOffsets(d) ensures |o| == d {
      NeighborOffsetsMember(d, o);
    }
  }

  lemma {:induction false} ZerosIff(d: nat, o: seq<int>)
    requires |o| == d
    ensures o == Zeros(d) <==> forall k :: 0 <= k < d ==> o[k] == 0
  {
    if d > 0 {
      ZerosIff(d - 1, o[1..]);
      if forall k :: 0 <= k < d ==> o[k] == 0 {
        assert forall k :: 0 <= k < d - 1 ==> o[1..][k] == 0 by {
          forall k | 0 <= k < d - 1 ensures o[1..][k] == 0 {
            assert o[1..][k] == o[k + 1];
          }
        }
        assert o == [o[0]] + o[1..];
      }
    }
  }

  lemma {:induction false} UnitCubeAt(d: nat, k: nat)
    requires k < d
    ensures UnitCube(d)[k] == (-1, 2)
  {
    if k > 0 {
      UnitCubeAt(d - 1, k - 1);
    }
  }

  /** A unit step, spelled out: d entries in {-1, 0, 1}, not all zero. */
  lemma UnitStepIff(o: seq<int>, d: nat)
    ensures UnitStep(o, d) <==>
      |o| == d && (forall k :: 0 <= k < d ==> -1 <= o[k] <= 1) && exists k :: 0 <= k < d && o[k] != 0
  {
    if |o| == d {
      ZerosIff(d, o);
      forall k | 0 <= k < d ensures UnitCube(d)[k] == (-1, 2) {
        UnitCubeAt(d, k);
      }
    }
  }

  // ---------------------------------------------------------------------
  // Construction

  /** `Grid.__init__`: shape, extents, node count, grid vectors, strides and
      neighbour offsets from the per-axis linspace triples. */
  method NewGrid(linspaces: seq<Linspace>) returns (g: Grid)
    requires |linspaces| >= 1
    requires forall k :: 0 <= k < |linspaces| ==> linspaces[k].num >= 1
    ensures g.Valid()
    ensures |g.shape| == |linspaces|
    ensures forall k :: 0 <= k < |linspaces| ==>
      && g.shape[k] == linspaces[k].num
      && g.extents[k] == (linspaces[k].start, linspaces[k].stop)
      && g.vecs[k] == LinspaceVec(linspaces[k])
  {
    var shape := seq(|linspaces|, k requires 0 <= k < |linspaces| => linspaces[k].num);
    var extents := seq(|linspaces|, k requires 0 <= k < |linspaces| => (linspaces[k].start, linspaces[k].stop));
    var nnodes := InitNnodes(shape);
    var vecs := seq(|linspaces|, k requires 0 <= k < |linspaces| => LinspaceVec(linspaces[k]));
    var strides := InitDimOffsets(shape);
    var offsets := NeighborOffsets(|strides|);
    g := Grid(shape, extents, nnodes, vecs, strides, offsets);
  }

  /** The values of np.linspace(start, stop, num), in exact arithmetic: evenly
      spaced, starting at `start` and, when num > 1, ending at `stop`. */
  function LinspaceVec(l: Linspace): (v: seq<real>)
    ensures |v| == l.num
    ensures l.num >= 1 ==> v[0] == l.start
    ensures l.num > 1 ==> v[l.num - 1] == l.stop
  {
    if l.num == 1 then [l.start]
    else
      LinspaceLast(l);
      seq(l.num, k requires 0 <= k < l.num => LinspaceAt(l, k))
  }

  /** The last of the values is `stop` itself. */
  lemma LinspaceLast(l: Linspace)
    ensures l.num > 1 ==> LinspaceAt(l, l.num - 1) == l.stop
  {
    if l.num > 1 {
      var m, d := (l.num - 1) as real, l.stop - l.start;
      assert m * d / m == d * (m / m);
      assert m / m == 1.0;
    }
  }

  /** The k-th of num evenly spaced values from start to stop. */
  function LinspaceAt(l: Linspace, k: nat): real
    requires l.num > 1
  {
    l.start + (k as real) * (l.stop - l.start) / ((l.num - 1) as real)
  }

  // ---------------------------------------------------------------------
  // Flat index <-> coordinate-index tuple

  /** sum(c * s for c, s in zip(coords_idx, strides)) */
  function Dot(c: seq<int>, st: seq<nat>): int
  {
    if |c| == 0 || |st| == 0 then 0 else c[0] * st[0] + Dot(c[1..], st[1..])
  }

  predicate InBounds(shape: seq<nat>, c: seq<int>)
  {
    |c| == |shape| && forall k :: 0 <= k < |c| ==> 0 <= c[k] < shape[k]
  }

  /** Successive divmod of r by the strides, most significant axis first. */
  function Unravel(st: seq<nat>, r: int): (c: seq<int>)
    requires forall k :: 0 <= k < |st| ==> st[k] >= 1
    ensures |c| == |st|
  {
    if st == [] then [] else [r / st[0]] + Unravel(st[1..], r % st[0])
  }

  lemma MulMonotone(a: int, b: int, p: int)
    requires a <= b && p >= 0
    ensures a * p <= b * p
  {
    assert b * p - a * p == (b - a) * p;
  }

  lemma SmallMultiple(k: int, p: int)
    requires p >= 1 && -p < k * p < p
    ensures k == 0
  {
    if k >= 1 {
      MulMonotone(1, k, p);
    } else if k <= -1 {
      MulMonotone(k, -1, p);
    }
  }

  lemma DivModOf(q: int, r: int, p: int)
    requires p >= 1 && 0 <= r < p
    ensures (q * p + r) / p == q && (q * p + r) % p == r
  {
    var x := q * p + r;
    var q', r' := x / p, x % p;
    assert x == q' * p + r';
    assert (q - q') * p == r' - r;
    SmallMultiple(q - q', p);
  }

  lemma {:induction false} DotBound(shape: seq<nat>, c: seq<int>)
    requires InBounds(shape, c)
    ensures 0 <= Dot(c, Strides(shape)) < Prod(shape)
  {
    if shape != [] {
      StridesCons(shape);
      var p := Prod(shape[1..]);
      assert InBounds(shape[1..], c[1..]) by {
        forall k | 0 <= k < |c| - 1 ensures 0 <= c[1..][k] < shape[1..][k] {
          assert c[1..][k] == c[k + 1];
        }
      }
      DotBound(shape[1..], c[1..]);
      var inner := Dot(c[1..], Strides(shape[1..]));
      assert Dot(c, Strides(shape)) == c[0] * p + inner;
      MulMonotone(0, c[0], p);
      MulMonotone(c[0] + 1, shape[0], p);
      assert (c[0] + 1) * p == c[0] * p + p;
    }
  }

  lemma {:induction false} UnravelDot(shape: seq<nat>, c: seq<int>)
    requires forall k :: 0 <= k < |shape| ==> shape[k] >= 1
    requires forall k :: 0 <= k < |shape| ==> Strides(shape)[k] >= 1
    requires InBounds(shape, c)
    ensures Unravel(Strides(shape), Dot(c, Strides(shape))) == c
  {
    if shape != [] {
      StridesCons(shape);
      var st := Strides(shape);
      var p := Prod(shape[1..]);
      assert InBounds(shape[1..], c[1..]) by {
        forall k | 0 <= k < |c| - 1 ensures 0 <= c[1..][k] < shape[1..][k] {
          assert c[1..][k] == c[k + 1];
        }
      }
      DotBound(shape[1..], c[1..]);
      StridesPositive(shape[1..]);
      UnravelDot(shape[1..], c[1..]);
      var inner := Dot(c[1..], Strides(shape[1..]));
      assert st[0] == p && st[1..] == Strides(shape[1..]);
      assert Dot(c, st) == c[0] * p + inner;
      DivModOf(c[0], inner, p);
      UnravelStep(st, Dot(c, st), c[0], inner);
      assert c == [c[0]] + c[1..];
    }
  }

  /** The first coordinate of an unravelled index is its quotient by the
      first stride; the rest unravel the remainder. */
  lemma UnravelStep(st: seq<nat>, x: int, q: int, r: int)
    requires |st| >= 1 && forall k :: 0 <= k < |st| ==> st[k] >= 1
    requires x / st[0] == q && x % st[0] == r
    ensures Unravel(st, x) == [q] + Unravel(st[1..], r)
  {
  }

  /** An index below n * p has a quotient by p below n. */
  lemma QuotientInRange(i: int, p: int, n: int)
    requires p >= 1 && 0 <= i < n * p
    ensures 0 <= i / p < n && 0 <= i % p < p && i == (i / p) * p + i % p
  {
    var q := i / p;
    if q < 0 {
      MulMonotone(q, -1, p);
    }
    if q >= n {
      MulMonotone(n, q, p);
    }
  }

  lemma {:induction false} DotUnravel(shape: seq<nat>, i: int)
    requires forall k :: 0 <= k < |shape| ==> shape[k] >= 1
    requires forall k :: 0 <= k < |shape| ==> Strides(shape)[k] >= 1
    requires 0 <= i < Prod(shape)
    ensures InBounds(shape, Unravel(Strides(shape), i))
    ensures Dot(Unravel(Strides(shape), i), Strides(shape)) == i
  {
    if shape != [] {
      StridesCons(shape);
      var st := Strides(shape);
      var p := Prod(shape[1..]);
      ProdPositive(shape[1..]);
      assert st[0] == p && st[1..] == Strides(shape[1..]);
      var q, r := i / p, i % p;
      assert Prod(shape) == shape[0] * p;
      QuotientInRange(i, p, shape[0]);
      StridesPositive(shape[1..]);
      DotUnravel(shape[1..], r);
      var inner := Unravel(Strides(shape[1..]), r);
      var c := Unravel(st, i);
      UnravelStep(st, i, q, r);
      assert c[0] == q && c[1..] == inner;
      assert Dot(c, st) == q * p + r;
      assert InBounds(shape[1..], inner);
      forall k | 0 <= k < |c| ensures 0 <= c[k] < shape[k] {
        if k > 0 { assert c[k] == inner[k - 1]; assert shape[k] == shape[1..][k - 1]; }
      }
    }
  }

  /** `Grid.idx`: the flat index of a coordinate-index tuple; in range for
      every in-bounds tuple. */
  function Idx(g: Grid, c: seq<int>): (i: int)
    requires g.Valid()
    ensures InBounds(g.shape, c) ==> 0 <= i < g.nnodes
  {
    if InBounds(g.shape, c) then DotBound(g.shape, c); Dot(c, g.strides)
    else Dot(c, g.strides)
  }

  /** The tuple `Grid.coords_idx` computes: the inverse of Idx on flat
      indices 0 <= i < nnodes. */
  function CoordsOf(g: Grid, i: int): (c: seq<int>)
    requires g.Valid()
    ensures |c| == |g.shape|
    ensures 0 <= i < g.nnodes ==> InBounds(g.shape, c) && Idx(g, c) == i
  {
    StridesPositive(g.shape);
    if 0 <= i < g.nnodes then DotUnravel(g.shape, i); Unravel(g.strides, i)
    else Unravel(g.strides, i)
  }

  /** For every in-bounds tuple c, coords_idx(idx(c)) == c. */
  lemma CoordsOfIdx(g: Grid, c: seq<int>)
    requires g.Valid() && InBounds(g.shape, c)
    ensures CoordsOf(g, Idx(g, c)) == c
  {
    StridesPositive(g.shape);
    UnravelDot(g.shape, c);
  }

  /** For every flat index, idx(coords_idx(i)) == i. */
  lemma IdxCoordsOf(g: Grid, i: int)
    requires g.Valid() && 0 <= i < g.nnodes
    ensures Idx(g, CoordsOf(g, i)) == i
  {
  }

  /** `Grid.coords_idx`: repeated divmod by the strides. */
  method CoordsIdx(g: Grid, i: int) returns (c: seq<int>)
    requires g.Valid()
    ensures c == CoordsOf(g, i)
    ensures 0 <= i < g.nnodes ==> InBounds(g.shape, c) && Idx(g, c) == i
  {
    StridesPositive(g.shape);
    var r := i;
    c := [];
    var k := 0;
    while k < |g.strides|
      invariant 0 <= k <= |g.strides|
      invariant c + Unravel(g.strides[k..], r) == Unravel(g.strides, i)
    {
      var offset := g.strides[k];
      assert g.strides[k..][1..] == g.strides[k + 1..];
      var coord := r / offset;
      r := r % offset;
      c := c + [coord];
      k := k + 1;
    }
    assert g.strides[k..] == [];
  }

  // ---------------------------------------------------------------------
  // Neighbours

  function Add(c: seq<int>, off: seq<int>): (v: seq<int>)
    requires |c| == |off|
    ensures |v| == |c|
  {
    seq(|c|, k requires 0 <= k < |c| => c[k] + off[k])
  }

  /** Two tuples at Chebyshev distance exactly 1. */
  predicate Touching(a: seq<int>, b: seq<int>)
  {
    |a| == |b| && a != b && forall k :: 0 <= k < |a| ==> -1 <= a[k] - b[k] <= 1
  }

  /** The in-bounds tuples c + off, off taken from offs in order, as flat
      indices. */
  function NeighborsAt(g: Grid, c: seq<int>, offs: seq<seq<int>>): (ns: seq<int>)
    requires g.Valid()
    requires forall o :: o in offs ==> |o| == |c|
    ensures |ns| <= |offs|
  {
    if offs == [] then []
    else
      var v := Add(c, offs[0]);
      (if InBounds(g.shape, v) then [Idx(g, v)] else []) + NeighborsAt(g, c, offs[1..])
  }

  /** `Grid.neighbors_idx`. */
  function NeighborsIdx(g: Grid, i: int): (ns: seq<int>)
    requires g.Valid()
    ensures |ns| <= |g.offsets|
  {
    NeighborOffsetsLength(|g.shape|);
    NeighborsAt(g, CoordsOf(g, i), g.offsets)
  }

  /** A node has at most 3^d - 1 neighbours. */
  lemma NeighborsIdxCount(g: Grid, i: int)
    requires g.Valid()
    ensures |NeighborsIdx(g, i)| <= Pow3(|g.shape|) - 1
  {
    NeighborOffsetsCount(|g.shape|);
  }

  lemma NeighborOffsetsCount(d: nat)
    ensures |NeighborOffsets(d)| == Pow3(d) - 1
  {
    NeighborOffsetsSpec(d);
  }

  lemma {:induction false} NeighborsAtMember(g: Grid, c: seq<int>, offs: seq<seq<int>>, j: int)
    requires g.Valid()
    requires forall o :: o in offs ==> |o| == |c|
    ensures j in NeighborsAt(g, c, offs) <==>
      exists o :: o in offs && InBounds(g.shape, Add(c, o)) && j == Idx(g, Add(c, o))
  {
    if offs != [] {
      NeighborsAtMember(g, c, offs[1..], j);
      if j in NeighborsAt(g, c, offs[1..]) {
        var o :| o in offs[1..] && InBounds(g.shape, Add(c, o)) && j == Idx(g, Add(c, o));
        assert o in offs;
      }
      if exists o :: o in offs && InBounds(g.shape, Add(c, o)) && j == Idx(g, Add(c, o)) {
        var o :| o in offs && InBounds(g.shape, Add(c, o)) && j == Idx(g, Add(c, o));
        if o != offs[0] {
          assert o in offs[1..];
        }
      }
    }
  }

  /** Every entry of `neighbors_idx(i)` is a node touching node i. */
  lemma NeighborsIdxSound(g: Grid, i: int, j: int)
    requires g.Valid() && 0 <= i < g.nnodes
    requires j in NeighborsIdx(g, i)
    ensures 0 <= j < g.nnodes && Touching(CoordsOf(g, i), CoordsOf(g, j))
  {
    var d := |g.shape|;
    var c := CoordsOf(g, i);
    NeighborOffsetsLength(d);
    NeighborsAtMember(g, c, g.offsets, j);
    var o :| o in g.offsets && InBounds(g.shape, Add(c, o)) && j == Idx(g, Add(c, o));
    var v := Add(c, o);
    CoordsOfIdx(g, v);
    OffsetTouching(c, o);
  }

  /** A tuple moved by an entry of the offset table touches where it
      started. */
  lemma OffsetTouching(c: seq<int>, o: seq<int>)
    requires |o| == |c| && o in NeighborOffsets(|c|)
    ensures Touching(c, Add(c, o))
  {
    var d := |c|;
    var v := Add(c, o);
    NeighborOffsetsMember(d, o);
    UnitStepIff(o, d);
    var k :| 0 <= k < d && o[k] != 0;
    assert v[k] != c[k];
  }

  /** Every node touching node i is an entry of `neighbors_idx(i)`. */
  lemma NeighborsIdxComplete(g: Grid, i: int, j: int)
    requires g.Valid() && 0 <= i < g.nnodes
    requires 0 <= j < g.nnodes && Touching(CoordsOf(g, i), CoordsOf(g, j))
    ensures j in NeighborsIdx(g, i)
  {
    var d := |g.shape|;
    var c := CoordsOf(g, i);
    var e := CoordsOf(g, j);
    var o := TouchingOffset(c, e);
    NeighborOffsetsLength(d);
    NeighborsAtMember(g, c, g.offsets, j);
  }

  /** Two touching tuples differ by an entry of the offset table. */
  lemma TouchingOffset(c: seq<int>, e: seq<int>) returns (o: seq<int>)
    requires Touching(c, e)
    ensures |o| == |c| && o in NeighborOffsets(|c|) && Add(c, o) == e
  {
    var d := |c|;
    o := seq(d, k requires 0 <= k < d => e[k] - c[k]);
    assert Add(c, o) == e;
    var k :| 0 <= k < d && c[k] != e[k];
    assert o[k] != 0;
    UnitStepIff(o, d);
    NeighborOffsetsMember(d, o);
  }

  /** `neighbors_idx(i)` holds exactly the flat indices of the in-bounds
      nodes at Chebyshev distance 1 from node i (so never i itself). */
  lemma NeighborsIdxSpec(g: Grid, i: int, j: int)
    requires g.Valid() && 0 <= i < g.nnodes
    ensures j in NeighborsIdx(g, i) <==> 0 <= j < g.nnodes && Touching(CoordsOf(g, i), CoordsOf(g, j))
  {
    if j in NeighborsIdx(g, i) {
      NeighborsIdxSound(g, i, j);
    }
    if 0 <= j < g.nnodes && Touching(CoordsOf(g, i), CoordsOf(g, j)) {
      NeighborsIdxComplete(g, i, j);
    }
  }

  /** The neighbour relation is symmetric. */
  lemma NeighborsSymmetric(g: Grid, i: int, j: int)
    requires g.Valid() && 0 <= i < g.nnodes
    requires j in NeighborsIdx(g, i)
    ensures 0 <= j < g.nnodes && i in NeighborsIdx(g, j)
  {
    NeighborsIdxSpec(g, i, j);
    NeighborsIdxSpec(g, j, i);
  }

  /** Every neighbour is a node of the grid. */
  lemma NeighborsInRange(g: Grid, i: int)
    requires g.Valid() && 0 <= i < g.nnodes
    ensures forall j :: j in NeighborsIdx(g, i) ==> 0 <= j < g.nnodes
  {
    forall j | j in NeighborsIdx(g, i) ensures 0 <= j < g.nnodes {
      NeighborsIdxSpec(g, i, j);
    }
  }

  lemma {:induction false} NeighborsAtAllInside(g: Grid, c: seq<int>, offs: seq<seq<int>>)
    requires g.Valid()
    requires forall o :: o in offs ==> |o| == |c|
    requires forall o :: o in offs ==> InBounds(g.shape, Add(c, o))
    ensures |NeighborsAt(g, c, offs)| == |offs|
  {
    if offs != [] {
      assert forall o :: o in offs[1..] ==> o in offs;
      NeighborsAtAllInside(g, c, offs[1..]);
    }
  }

  /** A node that is not on the boundary of any axis has 3^d - 1 neighbours. */
  lemma InteriorNeighborCount(g: Grid, i: int)
    requires g.Valid() && 0 <= i < g.nnodes
    requires forall k :: 0 <= k < |g.shape| ==> 1 <= CoordsOf(g, i)[k] <= g.shape[k] - 2
    ensures |NeighborsIdx(g, i)| == Pow3(|g.shape|) - 1
  {
    var d := |g.shape|;
    var c := CoordsOf(g, i);
    NeighborOffsetsLength(d);
    forall o | o in g.offsets ensures InBounds(g.shape, Add(c, o)) {
      NeighborOffsetsMember(d, o);
      UnitStepIff(o, d);
    }
    NeighborsAtAllInside(g, c, g.offsets);
    NeighborOffsetsPop(d);
  }

  /** `Grid.neighbors`: the neighbours of an in-bounds tuple, i.e. the nodes
      touching it. */
  function Neighbors(g: Grid, c: seq<int>): (r: seq<int>)
    requires g.Valid()
    ensures InBounds(g.shape, c) ==>
      forall j :: j in r <==> 0 <= j < g.nnodes && Touching(c, CoordsOf(g, j))
  {
    if InBounds(g.shape, c) then TupleNeighbors(g, c); NeighborsIdx(g, Idx(g, c))
    else NeighborsIdx(g, Idx(g, c))
  }

  lemma TupleNeighbors(g: Grid, c: seq<int>)
    requires g.Valid() && InBounds(g.shape, c)
    ensures forall j :: j in NeighborsIdx(g, Idx(g, c)) <==> 0 <= j < g.nnodes && Touching(c, CoordsOf(g, j))
  {
    CoordsOfIdx(g, c);
    forall j ensures j in NeighborsIdx(g, Idx(g, c)) <==> 0 <= j < g.nnodes && Touching(c, CoordsOf(g, j)) {
      NeighborsIdxSpec(g, Idx(g, c), j);
    }
  }

  // ---------------------------------------------------------------------
  // Nearest grid point and real coordinates

  function Abs(x: real): real
  {
    if x < 0.0 then -x else x
  }

  /** np.argmin(np.abs(v - x)): the first index at which v is closest to x. */
  function ArgMinAbs(v: seq<real>, x: real): (p: nat)
    requires |v| > 0
    ensures p < |v|
    ensures forall k :: 0 <= k < |v| ==> Abs(v[p] - x) <= Abs(v[k] - x)
    ensures forall k :: 0 <= k < p ==> Abs(v[k] - x) > Abs(v[p] - x)
  {
    if |v| == 1 then 0
    else
      var p := ArgMinAbs(v[..|v| - 1], x);
      if Abs(v[|v| - 1] - x) < Abs(v[p] - x) then |v| - 1 else p
  }

  /** `Grid.map_nearest`: per axis, independently, the first grid index
      closest to the given coordinate (zip truncates to the shorter). */
  function MapNearest(g: Grid, coords: seq<real>): (c: seq<int>)
    requires g.Valid()
    ensures |c| == if |coords| < |g.shape| then |coords| else |g.shape|
    ensures forall k :: 0 <= k < |c| ==>
      && 0 <= c[k] < g.shape[k]
      && (forall j :: 0 <= j < g.shape[k] ==> Abs(g.vecs[k][c[k]] - coords[k]) <= Abs(g.vecs[k][j] - coords[k]))
      && (forall j :: 0 <= j < c[k] ==> Abs(g.vecs[k][j] - coords[k]) > Abs(g.vecs[k][c[k]] - coords[k]))
  {
    var n := if |coords| < |g.shape| then |coords| else |g.shape|;
    seq(n, k requires 0 <= k < n => ArgMinAbs(g.vecs[k], coords[k]))
  }

  /** `Grid.coords`: the real coordinates of a tuple of in-range indices. */
  function Coords(g: Grid, c: seq<int>): (x: seq<real>)
    requires g.Valid()
    requires |c| <= |g.shape| && forall k :: 0 <= k < |c| ==> 0 <= c[k] < g.shape[k]
    ensures |x| == |c|
    ensures forall k :: 0 <= k < |c| ==> x[k] == g.vecs[k][c[k]]
  {
    seq(|c|, k requires 0 <= k < |c| => g.vecs[k][c[k]])
  }

  /** With one coordinate per axis, map_nearest lands on a node of the grid
      whose real coordinates are, axis by axis, as close to the point as any
      grid coordinate. */
  lemma NearestIsClosest(g: Grid, x: seq<real>)
    requires g.Valid() && |x| == |g.shape|
    ensures InBounds(g.shape, MapNearest(g, x))
    ensures forall k, j :: 0 <= k < |x| && 0 <= j < g.shape[k] ==>
      Abs(Coords(g, MapNearest(g, x))[k] - x[k]) <= Abs(g.vecs[k][j] - x[k])
  {
  }

  /** The example grid of the module's self-test: shape (20, 15, 10) has 3000
      nodes, strides (150, 10, 1), and (9, 6, 7) is flat index 1417. */
  lemma ExampleGrid()
    ensures Prod([20, 15, 10]) == 3000
    ensures Strides([20, 15, 10]) == [150, 10, 1]
    ensures Dot([9, 6, 7], [150, 10, 1]) == 1417
    ensures Unravel([150, 10, 1], 1417) == [9, 6, 7]
  {
    assert [20, 15, 10][1..] == [15, 10] && [20, 15, 10][2..] == [10] && [20, 15, 10][3..] == [];
    assert Prod([10]) == 10;
    assert Prod([15, 10]) == 150;
  }
}
