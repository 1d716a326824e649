/** The two-colour priority flood of `MinEnergyPath/flooder.py`. Two seed
    nodes get colours 1 and 2; the node of least rank is taken from a heap
    again and again, and claims its uncoloured valid neighbours for its
    own colour, recording itself as their parent. The flood stops after
    the first expansion that meets the other colour; the parent chains of
    the two meeting nodes, joined, form a path of adjacent nodes from
    seed 1 to seed 2. */
module Flooding {
  import opened Common
  import opened Grid
  import opened GridFunc
  import opened Ranking
  import opened Paths

  /** Two nodes whose coordinate tuples differ by at most one per axis. */
  predicate Adjacent(g: Grid, i: int, j: int)
    requires g.Valid()
  {
    Touching(CoordsOf(g, i), CoordsOf(g, j))
  }

  lemma AdjacentSymmetric(g: Grid, i: int, j: int)
    requires g.Valid() && Adjacent(g, i, j)
    ensures Adjacent(g, j, i)
  {
    var a, b := CoordsOf(g, i), CoordsOf(g, j);
    assert forall k :: 0 <= k < |b| ==> -1 <= b[k] - a[k] <= 1 by {
      forall k | 0 <= k < |b| ensures -1 <= b[k] - a[k] <= 1 {
        assert -1 <= a[k] - b[k] <= 1;
      }
    }
  }

  /** A valid neighbour of a node is a node adjacent to it whose potential
      is not NaN. */
  lemma ValidNeighborAdjacent(f: GridFunc, c: int, v: int)
    requires f.Valid() && 0 <= c < f.grid.nnodes && v in ValidNeighbors(f, c)
    ensures 0 <= v < f.grid.nnodes && Adjacent(f.grid, c, v) && f.pot[v].Val?
  {
    ValidNeighborsSpec(f, c, v);
  }

  // ---------------------------------------------------------------------
  // The state of a flood, on values

  /** Parent pointers form chains: every node either has no parent (-1)
      or a parent of smaller depth. */
  ghost predicate ParentsDescend(parent: seq<int>, depth: seq<nat>)
  {
    && |depth| == |parent|
    && forall u :: 0 <= u < |parent| ==>
         parent[u] == -1 || (0 <= parent[u] < |parent| && depth[parent[u]] < depth[u])
  }

  /** The valid neighbours of every node, `neighbors_idx` of each flat
      index; the flood state below is stated over such a table. */
  function NeighborTable(f: GridFunc): (nb: seq<seq<int>>)
    requires f.Valid()
    ensures |nb| == f.grid.nnodes
  {
    seq(f.grid.nnodes, i requires 0 <= i < f.grid.nnodes => ValidNeighbors(f, i))
  }

  /** Every listed neighbour is a node. */
  ghost predicate TableOk(nb: seq<seq<int>>)
  {
    forall i, v :: 0 <= i < |nb| && v in nb[i] ==> 0 <= v < |nb|
  }

  lemma NeighborTableOk(f: GridFunc)
    requires f.Valid()
    ensures TableOk(NeighborTable(f))
  {
    var nb := NeighborTable(f);
    forall i, v | 0 <= i < |nb| && v in nb[i] ensures 0 <= v < |nb| {
      ValidNeighborAdjacent(f, i, v);
    }
  }

  /** What a recorded parent promises about its child v: the same colour,
      and v is one of the parent's neighbours. */
  ghost predicate ParentOk(nb: seq<seq<int>>, color: seq<int>, parent: seq<int>, v: int)
    requires |color| == |parent| == |nb| && 0 <= v < |parent|
    requires 0 <= parent[v] < |parent|
  {
    && color[v] != 0
    && color[parent[v]] == color[v]
    && v in nb[parent[v]]
  }

  /** The colour and parent arrays of a flood: colours are 0, 1 or 2; a
      node with a parent has that parent's colour and is its valid
      neighbour; a coloured node without parent is the seed of its colour. */
  ghost predicate Forest(nb: seq<seq<int>>, color: seq<int>, parent: seq<int>, depth: seq<nat>, s1: int, s2: int)
  {
    var n := |nb|;
    && |color| == n && |parent| == n && 0 <= s1 < n && 0 <= s2 < n
    && ParentsDescend(parent, depth)
    && color[s2] == 2 && (s1 != s2 ==> color[s1] == 1)
    && (forall v :: 0 <= v < n ==> 0 <= color[v] <= 2)
    && (forall v :: 0 <= v < n && parent[v] != -1 ==> ParentOk(nb, color, parent, v))
    && (forall v :: 0 <= v < n && parent[v] == -1 && color[v] != 0 ==>
          (v == s1 && color[v] == 1) || (v == s2 && color[v] == 2))
  }

  /** `sidx` and `inv_sidx` as the flood uses them. */
  ghost predicate RankTables(sidx: seq<nat>, inv: seq<nat>, n: nat)
  {
    && |sidx| == n && |inv| == n
    && (forall t :: 0 <= t < n ==> sidx[t] < n)
    && (forall v :: 0 <= v < n ==> inv[v] < n && sidx[inv[v]] == v)
    && (forall t :: 0 <= t < n ==> inv[sidx[t]] == t)
  }

  /** `sidx = argsort(pot_1D)` and `inv_sidx = argsort(sidx)` are such
      tables. */
  lemma RanksOf(pot: seq<Pot>)
    ensures RankTables(ArgSort(pot), Invert(ArgSort(pot)), |pot|)
  {
    var s := ArgSort(pot);
    forall t | 0 <= t < |pot| ensures Invert(s)[s[t]] == t {
      InvertInverse(s, t);
    }
  }

  /** The ranks on the heap belong to coloured nodes, each of them a seed
      or a node claimed by the flood. */
  ghost predicate HeapOk(sidx: seq<nat>, color: seq<int>, heap: seq<nat>, pushed: seq<int>, s1: int, s2: int)
    requires forall t :: 0 <= t < |sidx| ==> sidx[t] < |color|
  {
    forall k :: 0 <= k < |heap| ==>
      && heap[k] < |sidx|
      && color[sidx[heap[k]]] != 0
      && (sidx[heap[k]] in pushed || sidx[heap[k]] == s1 || sidx[heap[k]] == s2)
  }

  /** Each claimed node was pushed exactly once, and the claimed nodes are
      exactly the nodes with a parent. */
  ghost predicate PushedOk(parent: seq<int>, pushed: seq<int>)
  {
    && Distinct(pushed)
    && (forall v :: v in pushed ==> 0 <= v < |parent|)
    && (forall v :: 0 <= v < |parent| ==> (v in pushed <==> parent[v] != -1))
  }

  ghost predicate FloodState(nb: seq<seq<int>>, sidx: seq<nat>, inv: seq<nat>, color: seq<int>, parent: seq<int>,
                             depth: seq<nat>, s1: int, s2: int, heap: seq<nat>, pushed: seq<int>)
  {
    && TableOk(nb)
    && Forest(nb, color, parent, depth, s1, s2)
    && RankTables(sidx, inv, |nb|)
    && HeapOk(sidx, color, heap, pushed, s1, s2)
    && PushedOk(parent, pushed)
  }

  /** The uncoloured nodes. */
  function Uncoloured(color: seq<int>): (u: set<int>)
    ensures forall v :: v in u <==> 0 <= v < |color| && color[v] == 0
  {
    set v | 0 <= v < |color| && color[v] == 0
  }

  /** A recorded parent keeps its promise while neither end changes. */
  lemma ParentOkStays(nb: seq<seq<int>>, color: seq<int>, parent: seq<int>, color': seq<int>, parent': seq<int>, v: int)
    requires |color| == |parent| == |color'| == |parent'| == |nb| && 0 <= v < |parent|
    requires 0 <= parent[v] < |parent| && ParentOk(nb, color, parent, v)
    requires parent'[v] == parent[v] && color'[v] == color[v] && color'[parent[v]] == color[parent[v]]
    ensures ParentOk(nb, color', parent', v)
  {
  }

  /** Giving a node without parent a parent of smaller depth keeps the
      chains finite. */
  lemma ClaimDescends(parent: seq<int>, depth: seq<nat>, c: int, node: int)
    requires ParentsDescend(parent, depth) && 0 <= c < |parent| && 0 <= node < |parent| && c != node
    requires parent[node] == -1 && forall u :: 0 <= u < |parent| ==> parent[u] != node
    ensures ParentsDescend(parent[node := c], depth[node := depth[c] + 1])
  {
  }

  /** Claiming an uncoloured node for the colour of an adjacent parent
      keeps the chains. */
  lemma ClaimForest(nb: seq<seq<int>>, color: seq<int>, parent: seq<int>, depth: seq<nat>, s1: int, s2: int, c: int, node: int)
    requires Forest(nb, color, parent, depth, s1, s2)
    requires 0 <= c < |nb| && color[c] != 0
    requires 0 <= node < |nb| && color[node] == 0 && node in nb[c]
    ensures parent[node] == -1
    ensures Forest(nb, color[node := color[c]], parent[node := c], depth[node := depth[c] + 1], s1, s2)
  {
    var n := |nb|;
    var color', parent' := color[node := color[c]], parent[node := c];
    assert parent[node] != -1 ==> ParentOk(nb, color, parent, node);
    forall u | 0 <= u < n ensures parent[u] != node {
      assert parent[u] != -1 ==> ParentOk(nb, color, parent, u);
    }
    ClaimDescends(parent, depth, c, node);
    forall v | 0 <= v < n && parent'[v] != -1 ensures ParentOk(nb, color', parent', v) {
      if v != node {
        assert ParentOk(nb, color, parent, v);
        ParentOkStays(nb, color, parent, color', parent', v);
      }
    }
  }

  /** Pushing the rank of a node just coloured keeps the heap's promise. */
  lemma ClaimHeap(sidx: seq<nat>, inv: seq<nat>, color: seq<int>, heap: seq<nat>, pushed: seq<int>,
                  s1: int, s2: int, node: int, x: int)
    requires RankTables(sidx, inv, |color|) && HeapOk(sidx, color, heap, pushed, s1, s2)
    requires 0 <= node < |color| && color[node] == 0 && x != 0
    ensures HeapOk(sidx, color[node := x], heap + [inv[node]], pushed + [node], s1, s2)
  {
    var h := heap + [inv[node]];
    forall k | 0 <= k < |h|
      ensures h[k] < |sidx| && color[node := x][sidx[h[k]]] != 0
      ensures sidx[h[k]] in pushed + [node] || sidx[h[k]] == s1 || sidx[h[k]] == s2
    {
      if k < |heap| {
        assert h[k] == heap[k];
      }
    }
  }

  /** A node without parent is not among the pushed ones, and gets pushed
      once when given a parent. */
  lemma ClaimPushed(parent: seq<int>, pushed: seq<int>, node: int, c: int)
    requires PushedOk(parent, pushed) && 0 <= node < |parent| && parent[node] == -1 && c != -1
    ensures PushedOk(parent[node := c], pushed + [node])
  {
    assert node !in pushed;
    var q := pushed + [node];
    forall i, j | 0 <= i < j < |q| ensures q[i] != q[j] {
      if j == |pushed| {
        assert q[i] == pushed[i] && pushed[i] in pushed;
      }
    }
  }

  /** Claiming an uncoloured valid neighbour `node` of a coloured node `c`
      (colour, parent, push) keeps every part of the state, and leaves one
      uncoloured node fewer. */
  lemma Claim(nb: seq<seq<int>>, sidx: seq<nat>, inv: seq<nat>, color: seq<int>, parent: seq<int>,
              depth: seq<nat>, s1: int, s2: int, heap: seq<nat>, pushed: seq<int>, c: int, node: int)
    requires FloodState(nb, sidx, inv, color, parent, depth, s1, s2, heap, pushed)
    requires 0 <= c < |nb| && color[c] != 0
    requires node in nb[c] && color[node] == 0
    ensures 0 <= node < |nb|
    ensures FloodState(nb, sidx, inv, color[node := color[c]], parent[node := c], depth[node := depth[c] + 1],
                       s1, s2, heap + [inv[node]], pushed + [node])
    ensures Uncoloured(color[node := color[c]]) == Uncoloured(color) - {node} && node in Uncoloured(color)
  {
    ClaimForest(nb, color, parent, depth, s1, s2, c, node);
    ClaimHeap(sidx, inv, color, heap, pushed, s1, s2, node, color[c]);
    ClaimPushed(parent, pushed, node, c);
    assert Uncoloured(color[node := color[c]]) == Uncoloured(color) - {node};
  }

  /** Taking an element out of the heap keeps the state. */
  lemma Pop(nb: seq<seq<int>>, sidx: seq<nat>, inv: seq<nat>, color: seq<int>, parent: seq<int>,
            depth: seq<nat>, s1: int, s2: int, heap: seq<nat>, pushed: seq<int>, k: nat)
    requires FloodState(nb, sidx, inv, color, parent, depth, s1, s2, heap, pushed)
    requires k < |heap|
    ensures heap[k] < |sidx| && sidx[heap[k]] < |nb| && color[sidx[heap[k]]] != 0
    ensures FloodState(nb, sidx, inv, color, parent, depth, s1, s2, heap[..k] + heap[k + 1..], pushed)
  {
    var h := heap[..k] + heap[k + 1..];
    forall j | 0 <= j < |h|
      ensures h[j] < |sidx| && color[sidx[h[j]]] != 0
      ensures sidx[h[j]] in pushed || sidx[h[j]] == s1 || sidx[h[j]] == s2
    {
      assert h[j] == heap[if j < k then j else j + 1];
    }
  }

  // ---------------------------------------------------------------------
  // Parent chains and the path (`_follow_path`)

  /** The node, its parent, its parent's parent, ... up to a node without
      parent. */
  function Chain(parent: seq<int>, depth: seq<nat>, v: int): (c: seq<nat>)
    requires ParentsDescend(parent, depth) && 0 <= v < |parent|
    ensures |c| >= 1 && c[0] == v
    ensures forall k :: 0 <= k < |c| ==> c[k] < |parent|
    decreases depth[v]
  {
    if parent[v] > -1 then [v] + Chain(parent, depth, parent[v]) else [v]
  }

  /** A chain stays in its node's colour ... */
  lemma {:induction false} ChainColour(nb: seq<seq<int>>, color: seq<int>, parent: seq<int>, depth: seq<nat>,
                                       s1: int, s2: int, v: int)
    requires Forest(nb, color, parent, depth, s1, s2) && 0 <= v < |nb|
    ensures forall k :: 0 <= k < |Chain(parent, depth, v)| ==> color[Chain(parent, depth, v)[k]] == color[v]
    decreases depth[v]
  {
    if parent[v] > -1 {
      var u := parent[v];
      assert ParentOk(nb, color, parent, v);
      ChainColour(nb, color, parent, depth, s1, s2, u);
      var t := Chain(parent, depth, u);
      var c := Chain(parent, depth, v);
      assert c == [v] + t;
      forall k | 1 <= k < |c| ensures color[c[k]] == color[v] {
        assert c[k] == t[k - 1];
      }
    }
  }

  /** The k-th element of c has the next one as its parent, which lists it
      among its neighbours. */
  ghost predicate ChainLink(nb: seq<seq<int>>, parent: seq<int>, c: seq<nat>, k: int)
    requires 0 <= k < |c| - 1 && forall j :: 0 <= j < |c| ==> c[j] < |parent|
  {
    parent[c[k]] == c[k + 1] && 0 <= parent[c[k]] < |nb| && c[k] in nb[parent[c[k]]]
  }

  /** ... each element is the parent of the one before and lists it among
      its neighbours ... */
  lemma {:induction false} ChainLinks(nb: seq<seq<int>>, color: seq<int>, parent: seq<int>, depth: seq<nat>,
                                      s1: int, s2: int, v: int)
    requires Forest(nb, color, parent, depth, s1, s2) && 0 <= v < |nb|
    ensures forall k :: 0 <= k < |Chain(parent, depth, v)| - 1 ==> ChainLink(nb, parent, Chain(parent, depth, v), k)
    decreases depth[v]
  {
    if parent[v] > -1 {
      var u := parent[v];
      assert ParentOk(nb, color, parent, v);
      ChainLinks(nb, color, parent, depth, s1, s2, u);
      var t := Chain(parent, depth, u);
      var c := Chain(parent, depth, v);
      assert c == [v] + t;
      forall k | 0 <= k < |c| - 1 ensures ChainLink(nb, parent, c, k) {
        if k > 0 {
          assert ChainLink(nb, parent, t, k - 1);
          assert c[k] == t[k - 1] && c[k + 1] == t[k];
        } else {
          assert c[0] == v && c[1] == t[0] == u;
        }
      }
    }
  }

  /** ... and it ends at the seed of that colour. */
  lemma {:induction false} ChainRoot(nb: seq<seq<int>>, color: seq<int>, parent: seq<int>, depth: seq<nat>,
                                     s1: int, s2: int, v: int)
    requires Forest(nb, color, parent, depth, s1, s2) && 0 <= v < |nb| && color[v] != 0
    ensures var c := Chain(parent, depth, v);
      && parent[c[|c| - 1]] == -1
      && (color[v] == 1 ==> c[|c| - 1] == s1)
      && (color[v] == 2 ==> c[|c| - 1] == s2)
    decreases depth[v]
  {
    if parent[v] > -1 {
      var u := parent[v];
      assert ParentOk(nb, color, parent, v);
      ChainRoot(nb, color, parent, depth, s1, s2, u);
      var t := Chain(parent, depth, u);
      assert Chain(parent, depth, v) == [v] + t;
    }
  }

  /** A chain stays in its node's colour, each element is the parent of the
      one before and lists it among its neighbours, and it ends at the seed
      of that colour. */
  lemma ChainSpec(nb: seq<seq<int>>, color: seq<int>, parent: seq<int>, depth: seq<nat>,
                  s1: int, s2: int, v: int)
    requires Forest(nb, color, parent, depth, s1, s2) && 0 <= v < |nb| && color[v] != 0
    ensures forall k :: 0 <= k < |Chain(parent, depth, v)| ==> color[Chain(parent, depth, v)[k]] == color[v]
    ensures forall k :: 0 <= k < |Chain(parent, depth, v)| - 1 ==> ChainLink(nb, parent, Chain(parent, depth, v), k)
    ensures var c := Chain(parent, depth, v);
      && parent[c[|c| - 1]] == -1
      && (color[v] == 1 ==> c[|c| - 1] == s1)
      && (color[v] == 2 ==> c[|c| - 1] == s2)
  {
    ChainColour(nb, color, parent, depth, s1, s2, v);
    ChainLinks(nb, color, parent, depth, s1, s2, v);
    ChainRoot(nb, color, parent, depth, s1, s2, v);
  }

  /** One more step up a chain: the chain of v is the chain walked so far
      followed by what is left of the chain of its last node. */
  lemma ChainStep(parent: seq<int>, depth: seq<nat>, v: int, walked: seq<nat>)
    requires ParentsDescend(parent, depth) && 0 <= v < |parent| && |walked| >= 1
    requires walked[|walked| - 1] < |parent| && parent[walked[|walked| - 1]] > -1
    requires Chain(parent, depth, v) == walked + Chain(parent, depth, walked[|walked| - 1])[1..]
    ensures var u := parent[walked[|walked| - 1]];
      0 <= u < |parent| && Chain(parent, depth, v) == (walked + [u]) + Chain(parent, depth, u)[1..]
  {
    var last := walked[|walked| - 1];
    var u := parent[last];
    var rest := Chain(parent, depth, u);
    assert Chain(parent, depth, last) == [last] + rest;
    assert Chain(parent, depth, last)[1..] == rest;
    assert rest == [u] + rest[1..];
    assert walked + rest == (walked + [u]) + rest[1..];
  }

  /** At a node without parent the walk is the whole chain. */
  lemma ChainEnd(parent: seq<int>, depth: seq<nat>, v: int, walked: seq<nat>)
    requires ParentsDescend(parent, depth) && 0 <= v < |parent| && |walked| >= 1
    requires walked[|walked| - 1] < |parent| && parent[walked[|walked| - 1]] <= -1
    requires Chain(parent, depth, v) == walked + Chain(parent, depth, walked[|walked| - 1])[1..]
    ensures Chain(parent, depth, v) == walked
  {
    assert Chain(parent, depth, walked[|walked| - 1]) == [walked[|walked| - 1]];
  }

  function Reverse<T>(s: seq<T>): (r: seq<T>)
    ensures |r| == |s| && forall k :: 0 <= k < |s| ==> r[k] == s[|s| - 1 - k]
  {
    seq(|s|, k requires 0 <= k < |s| => s[|s| - 1 - k])
  }

  /** The path `_follow_path(a, b)` returns: a's chain reversed, then b's. */
  function Route(parent: seq<int>, depth: seq<nat>, a: int, b: int): seq<nat>
    requires ParentsDescend(parent, depth) && 0 <= a < |parent| && 0 <= b < |parent|
  {
    Reverse(Chain(parent, depth, a)) + Chain(parent, depth, b)
  }

  /** Two nodes one of which lists the other as a neighbour. */
  ghost predicate Linked(nb: seq<seq<int>>, x: int, y: int)
  {
    (0 <= x < |nb| && y in nb[x]) || (0 <= y < |nb| && x in nb[y])
  }

  /** Each step of a reversed chain followed by a chain is a link, when the
      two chains start at linked nodes. */
  lemma JoinSteps(nb: seq<seq<int>>, parent: seq<int>, ca: seq<nat>, cb: seq<nat>)
    requires |ca| >= 1 && |cb| >= 1 && |parent| == |nb|
    requires forall k :: 0 <= k < |ca| ==> ca[k] < |nb|
    requires forall k :: 0 <= k < |cb| ==> cb[k] < |nb|
    requires forall k :: 0 <= k < |ca| - 1 ==> ChainLink(nb, parent, ca, k)
    requires forall k :: 0 <= k < |cb| - 1 ==> ChainLink(nb, parent, cb, k)
    requires Linked(nb, ca[0], cb[0])
    ensures var p := Reverse(ca) + cb; forall k :: 0 <= k < |p| - 1 ==> Linked(nb, p[k], p[k + 1])
    ensures var p := Reverse(ca) + cb; forall k :: 0 < k < |p| - 1 ==> Claimed(nb, parent, p[k])
  {
    var p := Reverse(ca) + cb;
    var m := |ca|;
    forall k | 0 < k < |p| - 1 ensures Claimed(nb, parent, p[k]) {
      if k < m {
        var i := m - 1 - k;
        assert ChainLink(nb, parent, ca, i);
        assert p[k] == ca[i];
      } else {
        var i := k - m;
        assert ChainLink(nb, parent, cb, i);
        assert p[k] == cb[i];
      }
    }
    forall k | 0 <= k < |p| - 1 ensures Linked(nb, p[k], p[k + 1]) {
      if k < m - 1 {
        var i := m - 2 - k;
        assert ChainLink(nb, parent, ca, i);
        assert p[k] == ca[i + 1] && p[k + 1] == ca[i];
      } else if k >= m {
        var i := k - m;
        assert ChainLink(nb, parent, cb, i);
        assert p[k] == cb[i] && p[k + 1] == cb[i + 1];
      } else {
        assert p[k] == ca[0] && p[k + 1] == cb[0];
      }
    }
  }

  /** Where a reversed chain followed by a chain starts, ends and joins,
      and the colour of each of its parts. */
  lemma JoinEnds(color: seq<int>, ca: seq<nat>, cb: seq<nat>)
    requires |ca| >= 1 && |cb| >= 1
    requires forall k :: 0 <= k < |ca| ==> ca[k] < |color| && color[ca[k]] == 1
    requires forall k :: 0 <= k < |cb| ==> cb[k] < |color| && color[cb[k]] == 2
    ensures var p, m := Reverse(ca) + cb, |ca|;
      && |p| >= 2 && p[0] == ca[|ca| - 1] && p[|p| - 1] == cb[|cb| - 1]
      && p[m - 1] == ca[0] && p[m] == cb[0]
      && (forall k :: 0 <= k < |p| ==> (k < m ==> color[p[k]] == 1) && (k >= m ==> color[p[k]] == 2))
  {
    var p, m := Reverse(ca) + cb, |ca|;
    forall k | 0 <= k < m ensures p[k] == ca[m - 1 - k] {
    }
    forall k | m <= k < |p| ensures p[k] == cb[k - m] {
    }
  }

  /** For linked meeting nodes a (colour 1) and b (colour 2), the route
      starts at seed 1, runs through a and then b, ends at seed 2, and every
      step is a link. */
  lemma RouteSpec(nb: seq<seq<int>>, color: seq<int>, parent: seq<int>, depth: seq<nat>, s1: int, s2: int, a: int, b: int)
    requires Forest(nb, color, parent, depth, s1, s2)
    requires 0 <= a < |nb| && 0 <= b < |nb| && color[a] == 1 && color[b] == 2
    requires Linked(nb, a, b)
    ensures var p, m := Route(parent, depth, a, b), |Chain(parent, depth, a)|;
      && |p| >= 2 && p[0] == s1 && p[|p| - 1] == s2
      && p[m - 1] == a && p[m] == b
      && (forall k :: 0 <= k < |p| ==> p[k] < |nb|)
      && (forall k :: 0 <= k < |p| ==> (k < m ==> color[p[k]] == 1) && (k >= m ==> color[p[k]] == 2))
      && (forall k :: 0 <= k < |p| - 1 ==> Linked(nb, p[k], p[k + 1]))
      && (forall k :: 0 < k < |p| - 1 ==> Claimed(nb, parent, p[k]))
  {
    var ca, cb := Chain(parent, depth, a), Chain(parent, depth, b);
    ChainSpec(nb, color, parent, depth, s1, s2, a);
    ChainSpec(nb, color, parent, depth, s1, s2, b);
    JoinSteps(nb, parent, ca, cb);
    JoinEnds(color, ca, cb);
  }

  /** The route a flood traces between linked meeting nodes is a valid
      walk. */
  lemma RouteWalk(f: GridFunc, color: seq<int>, parent: seq<int>, depth: seq<nat>, s1: int, s2: int, a: int, b: int)
    requires f.Valid() && Forest(NeighborTable(f), color, parent, depth, s1, s2)
    requires 0 <= a < |color| && 0 <= b < |color| && color[a] == 1 && color[b] == 2
    requires Linked(NeighborTable(f), a, b)
    ensures ValidWalk(f, Route(parent, depth, a, b))
  {
    RouteSpec(NeighborTable(f), color, parent, depth, s1, s2, a, b);
    RouteIsValidWalk(f, parent, Route(parent, depth, a, b));
  }

  /** On the table of valid neighbours a link is a grid adjacency. */
  lemma LinkedAdjacent(f: GridFunc, x: int, y: int)
    requires f.Valid() && Linked(NeighborTable(f), x, y)
    ensures 0 <= x < f.grid.nnodes && 0 <= y < f.grid.nnodes && Adjacent(f.grid, x, y)
  {
    if 0 <= x < f.grid.nnodes && y in NeighborTable(f)[x] {
      ValidNeighborAdjacent(f, x, y);
    } else {
      ValidNeighborAdjacent(f, y, x);
      AdjacentSymmetric(f.grid, y, x);
    }
  }

  /** The meeting found by the last expansion from c: m is a neighbour of
      c of the other colour, the scan left no neighbour of c uncoloured, and
      m has the least rank among the neighbours of the other colour. */
  ghost predicate Meets(nb: seq<seq<int>>, inv: seq<nat>, color: seq<int>, c: int, m: int)
    requires |color| == |inv| == |nb|
  {
    && 0 <= c < |nb| && 0 <= m < |nb|
    && m in nb[c]
    && color[c] != 0 && color[m] != 0 && color[m] != color[c]
    && (forall v :: v in nb[c] ==> 0 <= v < |nb| && color[v] != 0)
    && (forall v :: v in nb[c] && color[v] != color[c] ==> inv[m] <= inv[v])
  }

  /** Colours only ever go from 0 to a seed's colour: a coloured node
      keeps its colour. */
  ghost predicate Grows(c0: seq<int>, c1: seq<int>)
  {
    |c0| == |c1| && forall v :: 0 <= v < |c0| && c0[v] != 0 ==> c1[v] == c0[v]
  }

  lemma GrowsTrans(c0: seq<int>, c1: seq<int>, c2: seq<int>)
    requires Grows(c0, c1) && Grows(c1, c2)
    ensures Grows(c0, c2)
  {
    forall v | 0 <= v < |c0| && c0[v] != 0 ensures c2[v] == c0[v] {
      assert c1[v] == c0[v];
    }
  }

  /** A recorded parent is never overwritten. */
  ghost predicate KeepsParents(p0: seq<int>, p1: seq<int>)
  {
    |p0| == |p1| && forall v :: 0 <= v < |p0| && p0[v] != -1 ==> p1[v] == p0[v]
  }

  lemma KeepsTrans(p0: seq<int>, p1: seq<int>, p2: seq<int>)
    requires KeepsParents(p0, p1) && KeepsParents(p1, p2)
    ensures KeepsParents(p0, p2)
  {
    forall v | 0 <= v < |p0| && p0[v] != -1 ensures p2[v] == p0[v] {
      assert p1[v] == p0[v];
    }
  }

  /** What a scan of the first j neighbours in `ns` from `cur` (colour
      `cc`) did to the state (c0, p0, h0): nodes not among them are as they
      were, each of them that was uncoloured now has colour `cc` and parent
      `cur`, the old heap is a prefix of the new one, and every node that
      got a colour has its rank on the heap. */
  ghost predicate ScanEffect(c0: seq<int>, p0: seq<int>, h0: seq<nat>, c1: seq<int>, p1: seq<int>, h1: seq<nat>,
                             inv: seq<nat>, ns: seq<int>, j: nat, cur: int, cc: int)
  {
    && |c1| == |c0| && |p0| == |c0| && |p1| == |c0| && j <= |ns|
    && |h0| <= |h1| && h1[..|h0|] == h0
    && (forall v :: 0 <= v < |c0| && v !in ns[..j] ==> c1[v] == c0[v] && p1[v] == p0[v])
    && (forall q :: 0 <= q < j && 0 <= ns[q] < |c0| && c0[ns[q]] == 0 ==> c1[ns[q]] == cc && p1[ns[q]] == cur)
    && (forall v :: 0 <= v < |c0| && v < |inv| && c0[v] == 0 && c1[v] != 0 ==> inv[v] in h1)
  }

  /** One more neighbour scanned, claimed if it was uncoloured and left as
      it is otherwise, extends the effect by one. */
  lemma ScanEffectStep(c0: seq<int>, p0: seq<int>, h0: seq<nat>, cA: seq<int>, pA: seq<int>, hA: seq<nat>,
                       cB: seq<int>, pB: seq<int>, hB: seq<nat>, inv: seq<nat>, ns: seq<int>, j: nat, cur: int, cc: int)
    requires ScanEffect(c0, p0, h0, cA, pA, hA, inv, ns, j, cur, cc) && Grows(c0, cA)
    requires j < |ns| && 0 <= ns[j] < |cA| && ns[j] < |inv| && cc != 0
    requires || (cA[ns[j]] == 0 && cB == cA[ns[j] := cc] && pB == pA[ns[j] := cur] && hB == hA + [inv[ns[j]]])
             || (cA[ns[j]] != 0 && cB == cA && pB == pA && hB == hA)
    ensures ScanEffect(c0, p0, h0, cB, pB, hB, inv, ns, j + 1, cur, cc)
  {
    var x := ns[j];
    assert ns[..j + 1] == ns[..j] + [x];
    assert hB[..|hA|] == hA;
    assert hB[..|h0|] == h0 by {
      assert hB[..|h0|] == hB[..|hA|][..|h0|];
    }
    if x in ns[..j] {
      var q :| 0 <= q < j && ns[..j][q] == x;
      assert ns[q] == x;
      assert c0[x] == 0 ==> cA[x] == cc && pA[x] == cur;
    }
    forall q | 0 <= q < j + 1 && 0 <= ns[q] < |c0| && c0[ns[q]] == 0
      ensures cB[ns[q]] == cc && pB[ns[q]] == cur
    {
      if q < j {
        assert cA[ns[q]] == cc && pA[ns[q]] == cur;
      } else if x !in ns[..j] {
        assert cA[x] == c0[x];
      }
    }
    forall v | 0 <= v < |c0| && v < |inv| && c0[v] == 0 && cB[v] != 0 ensures inv[v] in hB {
      if cA[v] != 0 {
        assert inv[v] in hA;
        var i :| 0 <= i < |hA| && hA[i] == inv[v];
        assert hB[i] == hA[i];
      }
    }
  }

  /** Every valid neighbour of v has v's colour. */
  ghost predicate Closed(nb: seq<seq<int>>, color: seq<int>, v: int)
  {
    0 <= v < |nb| && v < |color| && forall w :: w in nb[v] ==> 0 <= w < |color| && color[w] == color[v]
  }

  /** The fronts so far: every coloured node whose rank has left the heap
      has been expanded, so all its valid neighbours have its colour. */
  ghost predicate FrontsClosed(nb: seq<seq<int>>, inv: seq<nat>, color: seq<int>, heap: seq<nat>)
  {
    forall v :: 0 <= v < |nb| && v < |color| && v < |inv| && color[v] != 0 && inv[v] !in heap ==> Closed(nb, color, v)
  }

  /** Both fronts are closed: no coloured node has a valid neighbour of
      another colour or none. */
  ghost predicate AllClosed(nb: seq<seq<int>>, color: seq<int>)
  {
    forall v :: 0 <= v < |nb| && v < |color| && color[v] != 0 ==> Closed(nb, color, v)
  }

  /** An expansion of the popped node u that met no other colour leaves
      every expanded node closed, u included. */
  lemma CloseAfterExpand(nb: seq<seq<int>>, sidx: seq<nat>, inv: seq<nat>, c0: seq<int>, p0: seq<int>, h0: seq<nat>,
                         c2: seq<int>, p2: seq<int>, h2: seq<nat>, u: int, k: nat)
    requires RankTables(sidx, inv, |nb|) && |c0| == |nb|
    requires FrontsClosed(nb, inv, c0, h0)
    requires k < |h0| && 0 <= u < |nb| && h0[k] == inv[u] && c0[u] != 0
    requires ScanEffect(c0, p0, h0[..k] + h0[k + 1..], c2, p2, h2, inv, nb[u], |nb[u]|, u, c0[u])
    requires Grows(c0, c2) && Scanned(nb[u], c2, inv, [], c0[u], |nb[u]|)
    ensures FrontsClosed(nb, inv, c2, h2)
  {
    var h1 := h0[..k] + h0[k + 1..];
    forall v | 0 <= v < |nb| && v < |c2| && v < |inv| && c2[v] != 0 && inv[v] !in h2
      ensures Closed(nb, c2, v)
    {
      assert c0[v] != 0;
      assert inv[v] !in h1 by {
        forall i | 0 <= i < |h1| ensures h1[i] != inv[v] {
          assert h2[..|h1|][i] == h1[i];
        }
      }
      if v == u {
        forall w | w in nb[u] ensures 0 <= w < |c2| && c2[w] == c2[u] {
          var q :| 0 <= q < |nb[u]| && nb[u][q] == w;
        }
      } else {
        assert inv[v] !in h0 by {
          forall i | 0 <= i < |h0| ensures h0[i] != inv[v] {
            if i < k {
              assert h1[i] == h0[i];
            } else if i > k {
              assert h1[i - 1] == h0[i];
            } else {
              assert sidx[inv[v]] == v && sidx[inv[u]] == u;
            }
          }
        }
        assert Closed(nb, c0, v);
      }
    }
  }

  /** A walk between two nodes along which the flood could pass: each
      step goes to an adjacent node, at least one end of each step has a
      valid potential, and every node strictly inside the walk is valid.
      Only the two ends, the seeds, may be NaN. */
  ghost predicate ValidWalk(f: GridFunc, p: seq<int>)
    requires f.Valid()
  {
    && |p| >= 1
    && (forall k :: 0 <= k < |p| ==> 0 <= p[k] < f.grid.nnodes)
    && (forall k :: 0 <= k < |p| - 1 ==> Adjacent(f.grid, p[k], p[k + 1]) && (f.pot[p[k]].Val? || f.pot[p[k + 1]].Val?))
    && (forall k :: 0 < k < |p| - 1 ==> f.pot[p[k]].Val?)
  }

  /** Two nodes are linked in the table of valid neighbours exactly when
      they are adjacent and one of them is valid. */
  lemma LinkedIff(f: GridFunc, x: int, y: int)
    requires f.Valid() && 0 <= x < f.grid.nnodes && 0 <= y < f.grid.nnodes
    ensures Linked(NeighborTable(f), x, y) <==> Adjacent(f.grid, x, y) && (f.pot[x].Val? || f.pot[y].Val?)
  {
    ValidNeighborsSpec(f, x, y);
    ValidNeighborsSpec(f, y, x);
    if Adjacent(f.grid, y, x) {
      AdjacentSymmetric(f.grid, y, x);
    }
    if Adjacent(f.grid, x, y) {
      AdjacentSymmetric(f.grid, x, y);
    }
  }

  /** With both fronts closed, a walk from a coloured node keeps that
      colour up to its last inner node. */
  lemma {:induction false} WalkColour(f: GridFunc, color: seq<int>, p: seq<int>, j: nat)
    requires f.Valid() && |color| == f.grid.nnodes && AllClosed(NeighborTable(f), color)
    requires ValidWalk(f, p) && color[p[0]] != 0
    requires j < |p| && (j == 0 || j < |p| - 1)
    ensures color[p[j]] == color[p[0]]
    decreases j
  {
    if j > 0 {
      WalkColour(f, color, p, j - 1);
      ValidNeighborsSpec(f, p[j - 1], p[j]);
      assert Closed(NeighborTable(f), color, p[j - 1]);
    }
  }

  /** With both fronts closed, no walk leads from the colour-1 seed to
      the colour-2 seed: the fronts cannot meet. */
  lemma Separated(f: GridFunc, color: seq<int>, s1: int, s2: int, p: seq<int>)
    requires f.Valid() && |color| == f.grid.nnodes && AllClosed(NeighborTable(f), color)
    requires 0 <= s1 < |color| && 0 <= s2 < |color| && color[s1] == 1 && color[s2] == 2
    requires ValidWalk(f, p) && p[0] == s1
    ensures p[|p| - 1] != s2
  {
    if |p| >= 2 {
      var j := |p| - 2;
      WalkColour(f, color, p, j);
      LinkedIff(f, p[j], p[j + 1]);
    }
  }

  /** p is a valid walk of at least two nodes from x to y. */
  ghost predicate WalkBetween(f: GridFunc, p: seq<int>, x: int, y: int)
    requires f.Valid()
  {
    |p| >= 2 && p[0] == x && p[|p| - 1] == y && ValidWalk(f, p)
  }

  /** No valid walk leads from x to y. */
  ghost predicate NoWalk(f: GridFunc, x: int, y: int)
    requires f.Valid()
  {
    forall p :: ValidWalk(f, p) && p[0] == x ==> p[|p| - 1] != y
  }

  /** The same for every walk at once. */
  lemma Disconnected(f: GridFunc, color: seq<int>, s1: int, s2: int)
    requires f.Valid() && |color| == f.grid.nnodes && AllClosed(NeighborTable(f), color)
    requires 0 <= s1 < |color| && 0 <= s2 < |color| && color[s1] == 1 && color[s2] == 2
    ensures NoWalk(f, s1, s2)
  {
    forall p | ValidWalk(f, p) && p[0] == s1 ensures p[|p| - 1] != s2 {
      Separated(f, color, s1, s2, p);
    }
  }

  /** x has a recorded parent that lists it as a valid neighbour. */
  ghost predicate Claimed(nb: seq<seq<int>>, parent: seq<int>, x: int)
  {
    0 <= x < |parent| && 0 <= parent[x] < |nb| && x in nb[parent[x]]
  }

  /** A route of links whose inner nodes were claimed by the flood is a
      walk the flood could pass along. */
  lemma RouteIsValidWalk(f: GridFunc, parent: seq<int>, p: seq<int>)
    requires f.Valid() && |p| >= 1
    requires forall k :: 0 <= k < |p| ==> 0 <= p[k] < f.grid.nnodes
    requires forall k :: 0 <= k < |p| - 1 ==> Linked(NeighborTable(f), p[k], p[k + 1])
    requires forall k :: 0 < k < |p| - 1 ==> Claimed(NeighborTable(f), parent, p[k])
    ensures ValidWalk(f, p)
  {
    forall k | 0 <= k < |p| - 1
      ensures Adjacent(f.grid, p[k], p[k + 1]) && (f.pot[p[k]].Val? || f.pot[p[k + 1]].Val?)
    {
      LinkedIff(f, p[k], p[k + 1]);
    }
    forall k | 0 < k < |p| - 1 ensures f.pot[p[k]].Val? {
      assert Claimed(NeighborTable(f), parent, p[k]);
    }
  }

  /** The ranks collected in `other_color_nodes` belong to neighbours in
      `ns` coloured other than `cc`. */
  ghost predicate OthersOk(sidx: seq<nat>, ns: seq<int>, color: seq<int>, other: seq<nat>, cc: int)
  {
    forall t :: t in other ==>
      t < |sidx| && sidx[t] in ns && 0 <= sidx[t] < |color| && color[sidx[t]] != 0 && color[sidx[t]] != cc
  }

  /** The first j neighbours in `ns` are coloured, and the rank of each of
      them coloured other than `cc` is in `other`. */
  ghost predicate Scanned(ns: seq<int>, color: seq<int>, inv: seq<nat>, other: seq<nat>, cc: int, j: nat)
  {
    && j <= |ns|
    && forall q :: 0 <= q < j ==>
         0 <= ns[q] < |color| && ns[q] < |inv| && color[ns[q]] != 0 && (color[ns[q]] != cc ==> inv[ns[q]] in other)
  }

  /** One more neighbour scanned: colours grew, `other` grew, and the new
      neighbour is now coloured and, if of the other colour, recorded. */
  lemma ScanStep(ns: seq<int>, c0: seq<int>, c1: seq<int>, inv: seq<nat>, o0: seq<nat>, o1: seq<nat>, cc: int, j: nat)
    requires Scanned(ns, c0, inv, o0, cc, j) && j < |ns| && Grows(c0, c1)
    requires forall t :: t in o0 ==> t in o1
    requires 0 <= ns[j] < |c1| && ns[j] < |inv| && c1[ns[j]] != 0 && (c1[ns[j]] != cc ==> inv[ns[j]] in o1)
    ensures Scanned(ns, c1, inv, o1, cc, j + 1)
  {
    forall q | 0 <= q < j + 1
      ensures 0 <= ns[q] < |c1| && ns[q] < |inv| && c1[ns[q]] != 0 && (c1[ns[q]] != cc ==> inv[ns[q]] in o1)
    {
      if q < j {
        assert c1[ns[q]] == c0[ns[q]];
      }
    }
  }

  /** Growing colours keep the collected ranks valid, and so does
      collecting the rank of one more neighbour of the other colour. */
  lemma OthersStep(sidx: seq<nat>, inv: seq<nat>, ns: seq<int>, c0: seq<int>, c1: seq<int>,
                   o0: seq<nat>, o1: seq<nat>, cc: int, node: int)
    requires RankTables(sidx, inv, |c0|) && OthersOk(sidx, ns, c0, o0, cc) && Grows(c0, c1)
    requires node in ns && 0 <= node < |c1|
    requires o1 == o0 || (o1 == o0 + [inv[node]] && c1[node] != 0 && c1[node] != cc)
    ensures OthersOk(sidx, ns, c1, o1, cc)
  {
    forall t | t in o1
      ensures t < |sidx| && sidx[t] in ns && 0 <= sidx[t] < |c1| && c1[sidx[t]] != 0 && c1[sidx[t]] != cc
    {
      if t !in o0 {
        assert t == inv[node] && sidx[t] == node;
      }
    }
  }

  /** After an expansion from `current` that found nodes of the other
      colour, the one of least rank among them is a meeting. */
  lemma ChooseMeeting(nb: seq<seq<int>>, sidx: seq<nat>, inv: seq<nat>, color: seq<int>, current: int, other: seq<nat>)
    requires RankTables(sidx, inv, |nb|) && |color| == |nb|
    requires 0 <= current < |nb| && color[current] != 0 && other != []
    requires OthersOk(sidx, nb[current], color, other, color[current])
    requires Scanned(nb[current], color, inv, other, color[current], |nb[current]|)
    ensures MinOf(other) < |sidx| && Meets(nb, inv, color, current, sidx[MinOf(other)])
  {
    var m := MinOf(other);
    assert inv[sidx[m]] == m;
    forall v | v in nb[current]
      ensures 0 <= v < |nb| && color[v] != 0 && (color[v] != color[current] ==> m <= inv[v])
    {
      var q :| 0 <= q < |nb[current]| && nb[current][q] == v;
      assert 0 <= v < |color| && color[v] != 0 && (color[v] != color[current] ==> inv[v] in other);
    }
  }

  /** The least element of a non-empty list (Python's `min`). */
  function MinOf(s: seq<nat>): (m: nat)
    requires |s| > 0
    ensures m in s && forall x :: x in s ==> m <= x
  {
    if |s| == 1 then s[0]
    else
      var t := MinOf(s[1..]);
      assert forall x :: x in s ==> x == s[0] || x in s[1..];
      if s[0] <= t then s[0] else t
  }

  /** The position of a least element of a non-empty heap (`heappop`). */
  function MinPos(h: seq<nat>): (k: nat)
    requires |h| > 0
    ensures k < |h| && forall j :: 0 <= j < |h| ==> h[k] <= h[j]
  {
    if |h| == 1 then 0
    else
      var t := MinPos(h[1..]);
      assert forall j :: 1 <= j < |h| ==> h[j] == h[1..][j - 1];
      if h[0] <= h[1 + t] then 0 else 1 + t
  }

  /** Whether node `idx` has a grid neighbour whose potential is NaN. */
  predicate NanNeighbor(f: GridFunc, idx: int)
    requires f.Valid()
  {
    NeighborsIdxInRange(f.grid, idx);
    exists v :: v in NeighborsIdx(f.grid, idx) && f.pot[v].NaN?
  }

  /** A node has a NaN neighbour exactly when some node touching it on the
      grid holds NaN. */
  lemma NanNeighborSpec(f: GridFunc, idx: int)
    requires f.Valid() && 0 <= idx < f.grid.nnodes
    ensures NanNeighbor(f, idx) <==>
      exists j :: 0 <= j < f.grid.nnodes && Touching(CoordsOf(f.grid, idx), CoordsOf(f.grid, j)) && f.pot[j].NaN?
  {
    forall j | 0 <= j < f.grid.nnodes
      ensures j in NeighborsIdx(f.grid, idx) <==> Touching(CoordsOf(f.grid, idx), CoordsOf(f.grid, j))
    {
      NeighborsIdxSpec(f.grid, idx, j);
    }
    NeighborsIdxInRange(f.grid, idx);
  }

  /** The record `flood` appends for node `idx`. */
  function Record(f: GridFunc, idx: int): (p: Point)
    requires f.Valid() && 0 <= idx < f.grid.nnodes
    ensures p.attrs.Keys == Defaults.Keys
    ensures p.attrs["coords_idx"].Ints? && Idx(f.grid, p.attrs["coords_idx"].ns) == idx
    ensures p.attrs["pot"] == PotValue(f.pot[idx])
    ensures p.attrs["has_nan_neighbor"] == Flag(NanNeighbor(f, idx))
  {
    var c := CoordsOf(f.grid, idx);
    NewPoint(map["coords_idx" := Ints(c), "coords" := Reals(Coords(f.grid, c)),
                 "pot" := PotValue(f.pot[idx]), "has_nan_neighbor" := Flag(NanNeighbor(f, idx))])
  }

  /** The scan in `flood` for a NaN neighbour as written: it walks the
      neighbours that the potential's `neighbors_idx` has already filtered
      for NaN, so it never finds one. */
  method HasNanNeighborAsWritten(f: GridFunc, idx: int) returns (b: bool)
    requires f.Valid() && 0 <= idx < f.grid.nnodes
    ensures b <==> exists v :: v in ValidNeighbors(f, idx) && 0 <= v < |f.pot| && f.pot[v].NaN?
    ensures !b
  {
    var nbrs := ValidNeighbors(f, idx);
    forall j | 0 <= j < |nbrs| ensures 0 <= nbrs[j] < |f.pot| && f.pot[nbrs[j]].Val? {
      assert nbrs[j] in nbrs;
      ValidNeighborsSpec(f, idx, nbrs[j]);
    }
    b := false;
    var k := 0;
    while k < |nbrs|
      invariant 0 <= k <= |nbrs| && !b
      invariant forall j :: 0 <= j < |nbrs| ==> 0 <= nbrs[j] < |f.pot| && f.pot[nbrs[j]].Val?
    {
      if f.pot[nbrs[k]].NaN? {
        b := true;
        break;
      }
      k := k + 1;
    }
  }

  /** The same scan over the unfiltered grid neighbours, which is what the
      flag is for: it is set exactly when a neighbour holds NaN. */
  method HasNanNeighbor(f: GridFunc, idx: int) returns (b: bool)
    requires f.Valid() && 0 <= idx < f.grid.nnodes
    ensures b == NanNeighbor(f, idx)
  {
    var nbrs := NeighborsIdx(f.grid, idx);
    NeighborsIdxInRange(f.grid, idx);
    forall j | 0 <= j < |nbrs| ensures 0 <= nbrs[j] < |f.pot| {
      assert nbrs[j] in nbrs;
    }
    b := false;
    var k := 0;
    while k < |nbrs|
      invariant 0 <= k <= |nbrs| && !b
      invariant forall j :: 0 <= j < |nbrs| ==> 0 <= nbrs[j] < |f.pot|
      invariant forall j :: 0 <= j < k ==> f.pot[nbrs[j]].Val?
    {
      if f.pot[nbrs[k]].NaN? {
        assert nbrs[k] in nbrs;
        b := true;
        return;
      }
      k := k + 1;
    }
    assert forall v :: v in nbrs ==> exists j :: 0 <= j < |nbrs| && nbrs[j] == v;
  }

  /** The state `_flood_init(idx1, idx2)` leaves. */
  lemma InitState(nb: seq<seq<int>>, sidx: seq<nat>, inv: seq<nat>, color: seq<int>, parent: seq<int>,
                   depth: seq<nat>, s1: int, s2: int, heap: seq<nat>, pushed: seq<int>)
    requires TableOk(nb) && RankTables(sidx, inv, |nb|)
    requires 0 <= s1 < |nb| && 0 <= s2 < |nb|
    requires |color| == |parent| == |depth| == |nb|
    requires forall v :: 0 <= v < |color| ==> color[v] == (if v == s2 then 2 else if v == s1 then 1 else 0)
    requires forall v :: 0 <= v < |parent| ==> parent[v] == -1
    requires heap == [inv[s1], inv[s2]] && pushed == []
    ensures FloodState(nb, sidx, inv, color, parent, depth, s1, s2, heap, pushed)
    ensures FrontsClosed(nb, inv, color, heap)
  {
  }

  /** The records `flood` appends, one per path index. */
  function Records(f: GridFunc, route: seq<nat>): (ps: seq<Point>)
    requires f.Valid() && forall k :: 0 <= k < |route| ==> route[k] < f.grid.nnodes
    ensures |ps| == |route| && forall k :: 0 <= k < |route| ==> ps[k] == Record(f, route[k])
  {
    seq(|route|, k requires 0 <= k < |route| => Record(f, route[k]))
  }

  /** The loop of `flood` that turns the path indices into records. */
  method BuildPath(f: GridFunc, route: seq<nat>) returns (path: Path)
    requires f.Valid() && forall k :: 0 <= k < |route| ==> route[k] < f.grid.nnodes
    ensures fresh(path) && path.points == Records(f, route)
  {
    path := new Path();
    for k := 0 to |route|
      invariant fresh(path) && path.points == Records(f, route[..k])
    {
      var idx := route[k];
      var coordsIdx := CoordsIdx(f.grid, idx);
      var coords := Coords(f.grid, coordsIdx);
      var hasNan := HasNanNeighbor(f, idx);
      path.Append(NewPoint(map["coords_idx" := Ints(coordsIdx), "coords" := Reals(coords),
                               "pot" := PotValue(f.pot[idx]), "has_nan_neighbor" := Flag(hasNan)]));
      assert route[..k + 1] == route[..k] + [idx];
    }
    assert route[..|route|] == route;
  }

  /** A potential field being flooded: the rank tables are computed once,
      the colour and parent arrays and the heap are reset by each flood. */
  class Flooder {
    const gf: GridFunc
    const sidx: seq<nat>
    const inv: seq<nat>
    const color: array<int>
    const pIdx: array<int>
    var heap: seq<nat>
    /** Proof-only: the valid neighbours of every node, the length of each
        node's parent chain, the two seeds, and the nodes claimed so far in
        the order they were pushed. */
    ghost const nbrs: seq<seq<int>>
    ghost var depth: seq<nat>
    ghost var seed1: int
    ghost var seed2: int
    ghost var pushed: seq<int>

    /** One colour and one parent slot per node, in two arrays. */
    ghost predicate Sized()
    {
      color.Length == |nbrs| && pIdx.Length == |nbrs| && color != pIdx
    }

    /** What the constructor fixes for good. */
    ghost predicate Valid()
    {
      && gf.Valid()
      && nbrs == NeighborTable(gf)
      && TableOk(nbrs)
      && RankTables(sidx, inv, |nbrs|)
      && Sized()
    }

    /** The tables are `argsort(pot_1D)` and its inverse. */
    ghost predicate Ranked()
    {
      sidx == ArgSort(gf.pot) && inv == Invert(ArgSort(gf.pot))
    }

    ghost predicate FloodInv()
      reads this, color, pIdx
    {
      && Sized()
      && FloodState(nbrs, sidx, inv, color[..], pIdx[..], depth, seed1, seed2, heap, pushed)
    }

    /** `Flooder(grid_func)`: the ranks, zeroed arrays, an empty heap. */
    constructor(f: GridFunc)
      requires f.Valid()
      ensures Valid() && Ranked() && gf == f && heap == []
      ensures fresh(color) && fresh(pIdx)
      ensures forall v :: 0 <= v < color.Length ==> color[v] == 0 && pIdx[v] == 0
    {
      gf := f;
      sidx := ArgSort(f.pot);
      inv := Invert(ArgSort(f.pot));
      color := new int[f.grid.nnodes](_ => 0);
      pIdx := new int[f.grid.nnodes](_ => 0);
      nbrs := NeighborTable(f);
      heap := [];
      depth := [];
      seed1, seed2, pushed := 0, 0, [];
      RanksOf(f.pot);
      NeighborTableOk(f);
    }

    /** `_flood_init(idx1, idx2)`: every colour 0 but the seeds', every
        parent -1, and the seeds' ranks on the heap. */
    method FloodInit(idx1: int, idx2: int)
      requires Sized() && TableOk(nbrs) && RankTables(sidx, inv, |nbrs|)
      requires 0 <= idx1 < color.Length && 0 <= idx2 < color.Length
      modifies this`heap, this`depth, this`seed1, this`seed2, this`pushed, color, pIdx
      ensures FloodInv() && seed1 == idx1 && seed2 == idx2 && pushed == []
      ensures forall v :: 0 <= v < color.Length ==> color[v] == (if v == idx2 then 2 else if v == idx1 then 1 else 0)
      ensures forall v :: 0 <= v < pIdx.Length ==> pIdx[v] == -1
      ensures heap == [inv[idx1], inv[idx2]]
      ensures FrontsClosed(nbrs, inv, color[..], heap)
    {
      heap := [];
      ClearArrays();
      color[idx1] := 1;
      color[idx2] := 2;
      heap := heap + [inv[idx1]];
      heap := heap + [inv[idx2]];
      depth := seq(color.Length, _ => 0);
      seed1, seed2, pushed := idx1, idx2, [];
      InitState(nbrs, sidx, inv, color[..], pIdx[..], depth, seed1, seed2, heap, pushed);
    }

    /** `self.color[:] = 0` and `self.pIdx[:] = -1`. */
    method ClearArrays()
      requires Sized()
      modifies color, pIdx
      ensures color[..] == seq(color.Length, _ => 0)
      ensures pIdx[..] == seq(pIdx.Length, _ => -1)
    {
      forall v | 0 <= v < color.Length {
        color[v] := 0;
      }
      forall v | 0 <= v < pIdx.Length {
        pIdx[v] := -1;
      }
    }

    /** Colouring `node` with the colour of `c`, recording `c` as its
        parent and pushing its rank. */
    method ClaimNode(c: int, node: int)
      requires FloodInv() && 0 <= c < color.Length && color[c] != 0
      requires node in nbrs[c] && color[node] == 0
      modifies this`heap, this`depth, this`pushed, color, pIdx
      ensures FloodInv() && 0 <= node < color.Length
      ensures color[..] == old(color[..])[node := old(color[c])]
      ensures pIdx[..] == old(pIdx[..])[node := c]
      ensures heap == old(heap) + [inv[node]]
      ensures |Uncoloured(color[..])| == old(|Uncoloured(color[..])|) - 1
    {
      ghost var c0, p0 := color[..], pIdx[..];
      Claim(nbrs, sidx, inv, c0, p0, depth, seed1, seed2, heap, pushed, c, node);
      color[node] := color[c];
      pIdx[node] := c;
      heap := heap + [inv[node]];
      depth := depth[node := depth[c] + 1];
      pushed := pushed + [node];
      assert color[..] == c0[node := c0[c]];
      assert pIdx[..] == p0[node := c];
    }

    /** The scan of the neighbours `ns` of `current` inside `_floodfill`:
        uncoloured ones are claimed, and the ranks of those of the other
        colour collected. */
    method Expand(current: int, ns: seq<int>) returns (other: seq<nat>)
      requires FloodInv() && 0 <= current < color.Length && color[current] != 0 && ns == nbrs[current]
      modifies this`heap, this`depth, this`pushed, color, pIdx
      ensures FloodInv() && color[current] == old(color[current])
      ensures Grows(old(color[..]), color[..]) && KeepsParents(old(pIdx[..]), pIdx[..])
      ensures |Uncoloured(color[..])| <= old(|Uncoloured(color[..])|)
      ensures |Uncoloured(color[..])| + |heap| == old(|Uncoloured(color[..])| + |heap|)
      ensures OthersOk(sidx, ns, color[..], other, color[current])
      ensures Scanned(ns, color[..], inv, other, color[current], |ns|)
      ensures ScanEffect(old(color[..]), old(pIdx[..]), old(heap), color[..], pIdx[..], heap, inv, ns, |ns|, current, color[current])
    {
      var curColor := color[current];
      forall q | 0 <= q < |ns| ensures 0 <= ns[q] < color.Length {
        assert ns[q] in nbrs[current];
      }
      other := [];
      for j := 0 to |ns|
        invariant FloodInv() && color[current] == curColor
        invariant Grows(old(color[..]), color[..]) && KeepsParents(old(pIdx[..]), pIdx[..])
        invariant |Uncoloured(color[..])| <= old(|Uncoloured(color[..])|)
        invariant |Uncoloured(color[..])| + |heap| == old(|Uncoloured(color[..])| + |heap|)
        invariant OthersOk(sidx, ns, color[..], other, curColor)
        invariant Scanned(ns, color[..], inv, other, curColor, j)
        invariant ScanEffect(old(color[..]), old(pIdx[..]), old(heap), color[..], pIdx[..], heap, inv, ns, j, current, curColor)
      {
        ghost var c0, p0, h0 := color[..], pIdx[..], heap;
        other := ScanOne(current, ns, j, other);
        GrowsTrans(old(color[..]), c0, color[..]);
        KeepsTrans(old(pIdx[..]), p0, pIdx[..]);
        ScanEffectStep(old(color[..]), old(pIdx[..]), old(heap), c0, p0, h0, color[..], pIdx[..], heap, inv, ns, j, current, curColor);
      }
    }

    /** One pass of the scan over the neighbours of `current`: the j-th
        neighbour is claimed if uncoloured, recorded in `other` if of the
        other colour, and skipped otherwise. */
    method ScanOne(current: int, ns: seq<int>, j: int, other0: seq<nat>) returns (other: seq<nat>)
      requires FloodInv() && 0 <= current < color.Length && color[current] != 0 && ns == nbrs[current]
      requires 0 <= j < |ns|
      requires OthersOk(sidx, ns, color[..], other0, color[current])
      requires Scanned(ns, color[..], inv, other0, color[current], j)
      modifies this`heap, this`depth, this`pushed, color, pIdx
      ensures FloodInv() && color[current] == old(color[current])
      ensures Grows(old(color[..]), color[..]) && KeepsParents(old(pIdx[..]), pIdx[..])
      ensures |Uncoloured(color[..])| <= old(|Uncoloured(color[..])|)
      ensures |Uncoloured(color[..])| + |heap| == old(|Uncoloured(color[..])| + |heap|)
      ensures OthersOk(sidx, ns, color[..], other, color[current])
      ensures Scanned(ns, color[..], inv, other, color[current], j + 1)
      ensures 0 <= ns[j] < color.Length && ns[j] < |inv|
      ensures old(color[ns[j]]) == old(color[current]) ==>
        color[..] == old(color[..]) && pIdx[..] == old(pIdx[..]) && heap == old(heap) && other == other0
      ensures old(color[ns[j]]) == 0 ==>
        && color[..] == old(color[..])[ns[j] := old(color[current])] && pIdx[..] == old(pIdx[..])[ns[j] := current]
        && heap == old(heap) + [inv[ns[j]]] && other == other0
      ensures old(color[ns[j]]) != 0 && old(color[ns[j]]) != old(color[current]) ==>
        color[..] == old(color[..]) && pIdx[..] == old(pIdx[..]) && heap == old(heap) && other == other0 + [inv[ns[j]]]
    {
      var curColor := color[current];
      var node := ns[j];
      assert node in nbrs[current];
      ghost var c0, p0 := color[..], pIdx[..];
      other := other0;
      var nodeColor := color[node];
      if nodeColor == curColor {
        // already claimed by this colour: skipped
      } else if nodeColor == 0 {
        ClaimNode(current, node);
      } else {
        other := other + [inv[node]];
      }
      assert Grows(c0, color[..]) && KeepsParents(p0, pIdx[..]);
      ScanStep(ns, c0, color[..], inv, other0, other, curColor, j);
      OthersStep(sidx, inv, ns, c0, color[..], other0, other, curColor, node);
    }

    /** `sidx[heappop(heap)]`: the node whose rank is least on the heap. */
    method PopMin() returns (current: int, ghost k: nat)
      requires FloodInv() && heap != []
      modifies this`heap
      ensures FloodInv() && 0 <= current < color.Length && color[current] != 0
      ensures k < |old(heap)| && old(heap)[k] == inv[current]
      ensures heap == old(heap)[..k] + old(heap)[k + 1..]
      ensures forall j :: 0 <= j < |old(heap)| ==> inv[current] <= old(heap)[j]
    {
      var pos := MinPos(heap);
      Pop(nbrs, sidx, inv, color[..], pIdx[..], depth, seed1, seed2, heap, pushed, pos);
      current := sidx[heap[pos]];
      heap := heap[..pos] + heap[pos + 1..];
      k := pos;
    }

    /** `_floodfill`: expand the least rank on the heap until an
        expansion meets the other colour; EmptyHeapError if the heap runs
        out first. The pair is ordered (colour-1 node, colour-2 node). */
    method FloodFill() returns (r: Result<(int, int)>)
      requires Valid() && FloodInv() && FrontsClosed(nbrs, inv, color[..], heap)
      modifies this`heap, this`depth, this`pushed, color, pIdx
      ensures FloodInv()
      ensures Grows(old(color[..]), color[..]) && KeepsParents(old(pIdx[..]), pIdx[..])
      ensures r.Err? ==> r.error == EmptyHeapError && heap == [] && AllClosed(nbrs, color[..])
      ensures r.Err? && seed1 != seed2 ==> NoWalk(gf, seed1, seed2)
      ensures r.Ok? ==> seed1 != seed2
      ensures r.Ok? ==> && 0 <= r.value.0 < color.Length && 0 <= r.value.1 < color.Length
                        && color[r.value.0] == 1 && color[r.value.1] == 2
      ensures r.Ok? ==> Meets(nbrs, inv, color[..], r.value.0, r.value.1) || Meets(nbrs, inv, color[..], r.value.1, r.value.0)
    {
      var current, other := Spread();
      if other == [] {
        if seed1 != seed2 {
          Disconnected(gf, color[..], seed1, seed2);
        }
        return Err(EmptyHeapError);
      }
      ChooseMeeting(nbrs, sidx, inv, color[..], current, other);
      var node := sidx[MinOf(other)];
      if color[current] < color[node] {
        r := Ok((current, node));
      } else {
        r := Ok((node, current));
      }
      ChainRoot(nbrs, color[..], pIdx[..], depth, seed1, seed2, r.value.0);
      ChainColour(nbrs, color[..], pIdx[..], depth, seed1, seed2, r.value.0);
    }

    /** The loop of `_floodfill`: pop the least rank and expand its node
        until an expansion finds neighbours of the other colour, whose
        ranks it returns; an empty list when the heap runs out first. */
    method Spread() returns (current: int, other: seq<nat>)
      requires Valid() && FloodInv() && FrontsClosed(nbrs, inv, color[..], heap)
      modifies this`heap, this`depth, this`pushed, color, pIdx
      ensures FloodInv() && 0 <= current < color.Length
      ensures Grows(old(color[..]), color[..]) && KeepsParents(old(pIdx[..]), pIdx[..])
      ensures other == [] ==> heap == [] && AllClosed(nbrs, color[..])
      ensures other != [] ==> && color[current] != 0
                              && OthersOk(sidx, nbrs[current], color[..], other, color[current])
                              && Scanned(nbrs[current], color[..], inv, other, color[current], |nbrs[current]|)
    {
      var n := color.Length;
      other := [];
      current := 0;
      while other == []
        invariant FloodInv() && 0 <= current < n
        invariant Grows(old(color[..]), color[..]) && KeepsParents(old(pIdx[..]), pIdx[..])
        invariant other != [] ==> color[current] != 0
        invariant OthersOk(sidx, nbrs[current], color[..], other, color[current])
        invariant other != [] ==> Scanned(nbrs[current], color[..], inv, other, color[current], |nbrs[current]|)
        invariant other == [] ==> FrontsClosed(nbrs, inv, color[..], heap)
        decreases |Uncoloured(color[..])|, |heap|
      {
        if heap == [] {
          return;
        }
        ghost var c0, p0 := color[..], pIdx[..];
        ghost var k;
        current, other, k := ExpandMin();
        GrowsTrans(old(color[..]), c0, color[..]);
        KeepsTrans(old(pIdx[..]), p0, pIdx[..]);
      }
    }

    /** One round of the loop of `_floodfill`: the node of least rank is
        popped and its valid neighbours scanned. Either a node was coloured
        or the heap shrank. */
    method ExpandMin() returns (current: int, other: seq<nat>, ghost k: nat)
      requires Valid() && FloodInv() && heap != [] && FrontsClosed(nbrs, inv, color[..], heap)
      modifies this`heap, this`depth, this`pushed, color, pIdx
      ensures FloodInv() && 0 <= current < color.Length && color[current] != 0
      ensures k < |old(heap)| && old(heap)[k] == inv[current]
      ensures forall j :: 0 <= j < |old(heap)| ==> inv[current] <= old(heap)[j]
      ensures Grows(old(color[..]), color[..]) && KeepsParents(old(pIdx[..]), pIdx[..])
      ensures ScanEffect(old(color[..]), old(pIdx[..]), old(heap)[..k] + old(heap)[k + 1..], color[..], pIdx[..], heap,
                         inv, nbrs[current], |nbrs[current]|, current, color[current])
      ensures || |Uncoloured(color[..])| < old(|Uncoloured(color[..])|)
              || (|Uncoloured(color[..])| == old(|Uncoloured(color[..])|) && |heap| < old(|heap|))
      ensures OthersOk(sidx, nbrs[current], color[..], other, color[current])
      ensures Scanned(nbrs[current], color[..], inv, other, color[current], |nbrs[current]|)
      ensures other == [] ==> FrontsClosed(nbrs, inv, color[..], heap)
    {
      ghost var c0, p0, h0 := color[..], pIdx[..], heap;
      current, k := PopMin();
      var ns := ValidNeighbors(gf, current);
      other := Expand(current, ns);
      if other == [] {
        CloseAfterExpand(nbrs, sidx, inv, c0, p0, h0, color[..], pIdx[..], heap, current, k);
      }
    }

    /** `_follow_path(a, b)`: a's parent chain, reversed, then b's. */
    method FollowPath(a: int, b: int) returns (route: seq<nat>)
      requires Sized() && ParentsDescend(pIdx[..], depth) && 0 <= a < pIdx.Length && 0 <= b < pIdx.Length
      ensures route == Route(pIdx[..], depth, a, b)
    {
      ghost var parent := pIdx[..];
      var pathIdx: seq<nat> := [a];
      while pIdx[pathIdx[|pathIdx| - 1]] > -1
        invariant |pathIdx| >= 1 && pathIdx[|pathIdx| - 1] < pIdx.Length
        invariant Chain(parent, depth, a) == pathIdx + Chain(parent, depth, pathIdx[|pathIdx| - 1])[1..]
        decreases depth[pathIdx[|pathIdx| - 1]]
      {
        ChainStep(parent, depth, a, pathIdx);
        pathIdx := pathIdx + [pIdx[pathIdx[|pathIdx| - 1]]];
      }
      ChainEnd(parent, depth, a, pathIdx);
      var front := Reverse(pathIdx);
      var tail: seq<nat> := [b];
      while pIdx[tail[|tail| - 1]] > -1
        invariant |tail| >= 1 && tail[|tail| - 1] < pIdx.Length
        invariant Chain(parent, depth, b) == tail + Chain(parent, depth, tail[|tail| - 1])[1..]
        decreases depth[tail[|tail| - 1]]
      {
        ChainStep(parent, depth, b, tail);
        tail := tail + [pIdx[tail[|tail| - 1]]];
      }
      ChainEnd(parent, depth, b, tail);
      route := front + tail;
    }

    /** `_flood_init`, `_floodfill` and `_follow_path` in turn: a route of
        linked nodes from the first seed to the second. */
    method FindRoute(idx1: int, idx2: int) returns (r: Result<seq<nat>>)
      requires Valid() && 0 <= idx1 < |nbrs| && 0 <= idx2 < |nbrs|
      modifies this`heap, this`depth, this`seed1, this`seed2, this`pushed, color, pIdx
      ensures r.Err? ==> r.error == EmptyHeapError
      ensures r.Err? ==> idx1 == idx2 || NoWalk(gf, idx1, idx2)
      ensures r.Ok? ==> idx1 != idx2 && WalkBetween(gf, r.value, idx1, idx2)
      ensures r.Ok? ==> forall k :: 0 <= k < |r.value| - 1 ==> Linked(nbrs, r.value[k], r.value[k + 1])
    {
      FloodInit(idx1, idx2);
      var meeting := FloodFill();
      if meeting.Err? {
        return Err(meeting.error);
      }
      var a, b := meeting.value.0, meeting.value.1;
      var route := TraceRoute(a, b);
      r := Ok(route);
    }

    /** `_follow_path` on the forest the flood leaves: a route of linked
        nodes from the first seed to the second. */
    method TraceRoute(a: int, b: int) returns (route: seq<nat>)
      requires Valid() && FloodInv() && 0 <= a < pIdx.Length && 0 <= b < pIdx.Length
      requires color[a] == 1 && color[b] == 2
      requires Meets(nbrs, inv, color[..], a, b) || Meets(nbrs, inv, color[..], b, a)
      ensures && |route| >= 2 && route[0] == seed1 && route[|route| - 1] == seed2
              && (forall k :: 0 <= k < |route| ==> route[k] < |nbrs|)
              && (forall k :: 0 <= k < |route| - 1 ==> Linked(nbrs, route[k], route[k + 1]))
              && ValidWalk(gf, route)
    {
      RouteSpec(nbrs, color[..], pIdx[..], depth, seed1, seed2, a, b);
      RouteWalk(gf, color[..], pIdx[..], depth, seed1, seed2, a, b);
      route := FollowPath(a, b);
    }

    /** `flood(p1, p2)`: flood from the two nodes and return the path
        between them as point records. A tuple whose flat index lies
        outside the arrays raises IndexError. */
    method Flood(p1: seq<int>, p2: seq<int>) returns (r: Result<Path>, ghost route: seq<nat>)
      requires Valid()
      modifies this`heap, this`depth, this`seed1, this`seed2, this`pushed, color, pIdx
      ensures !(0 <= Idx(gf.grid, p1) < gf.grid.nnodes && 0 <= Idx(gf.grid, p2) < gf.grid.nnodes) ==> r == Err(IndexError)
      ensures r.Err? ==> r.error == IndexError || r.error == EmptyHeapError
      ensures r == Err(EmptyHeapError) ==>
        || Idx(gf.grid, p1) == Idx(gf.grid, p2)
        || NoWalk(gf, Idx(gf.grid, p1), Idx(gf.grid, p2))
      ensures r.Ok? ==> fresh(r.value)
      ensures r.Ok? ==> Idx(gf.grid, p1) != Idx(gf.grid, p2) && WalkBetween(gf, route, Idx(gf.grid, p1), Idx(gf.grid, p2))
      ensures r.Ok? ==> r.value.points == Records(gf, route)
    {
      route := [];
      var n := gf.grid.nnodes;
      var idx1 := Idx(gf.grid, p1);
      var idx2 := Idx(gf.grid, p2);
      if !(0 <= idx1 < n && 0 <= idx2 < n) {
        return Err(IndexError), route;
      }
      var found := FindRoute(idx1, idx2);
      if found.Err? {
        return Err(found.error), route;
      }
      var pathIdx := found.value;
      assert ValidWalk(gf, pathIdx);
      var path := BuildPath(gf, pathIdx);
      route := pathIdx;
      r := Ok(path);
    }
  }
}
