/** The records a flood produces: a `Point` is a bag of named attributes
    with defaults, and a `Path` is a mutable sequence of points backed by a
    private list, with a column view by attribute name. */
module Paths {
  import opened Common

  /** The attribute values a point holds: NaN, a flag, a number, a tuple of
      coordinates, a tuple of coordinate indices, or Python's None. */
  datatype Value = Nan | Flag(b: bool) | Num(x: real) | Reals(xs: seq<real>) | Ints(ns: seq<int>) | NoneValue

  /** A potential as a point stores it. */
  function PotValue(p: Pot): (v: Value)
    ensures v.Nan? <==> p.NaN?
    ensures p.Val? ==> v == Num(p.v)
  {
    match p
    case NaN => Nan
    case Val(x) => Num(x)
  }

  /** `Point.attribs`: the known attribute names and their defaults. */
  const Defaults: map<string, Value> :=
    map["coords" := Nan, "coords_idx" := Nan, "pot" := Nan, "has_nan_neighbor" := Flag(false)]

  /** A point: its instance dictionary. */
  datatype Point = Point(attrs: map<string, Value>)

  /** `Point(**kwargs)`: the defaults, overridden by the keyword arguments. */
  function NewPoint(kwargs: map<string, Value>): (p: Point)
    ensures p.attrs.Keys == Defaults.Keys + kwargs.Keys
    ensures forall name :: name in kwargs ==> p.attrs[name] == kwargs[name]
    ensures forall name :: name in Defaults && name !in kwargs ==> p.attrs[name] == Defaults[name]
  {
    Point(Defaults + kwargs)
  }

  /** `getattr(point, name, None)`. */
  function GetAttr(p: Point, name: string): (v: Value)
    ensures name in p.attrs ==> v == p.attrs[name]
    ensures name !in p.attrs ==> v == NoneValue
  {
    if name in p.attrs then p.attrs[name] else NoneValue
  }

  /** A point built with no keyword arguments holds NaN for its
      coordinates and potential and False for `has_nan_neighbor`, and every
      known attribute of any built point is set, so `getattr` never falls
      back to None for it. */
  lemma NewPointDefaults(kwargs: map<string, Value>, name: string)
    requires name in Defaults
    ensures name in NewPoint(kwargs).attrs
    ensures name !in kwargs ==> GetAttr(NewPoint(kwargs), name) == (if name == "has_nan_neighbor" then Flag(false) else Nan)
    ensures name in kwargs ==> GetAttr(NewPoint(kwargs), name) == kwargs[name]
  {
  }

  // ---------------------------------------------------------------------
  // Python list indexing

  /** The element a list index refers to: negative indices count from the
      end; anything else outside the list is an IndexError. */
  function NormIndex(index: int, n: nat): (r: Option<nat>)
    ensures r.Some? <==> 0 <= index + n && index < n
    ensures r.Some? ==> r.value < n && (if index >= 0 then r.value == index else r.value == index + n)
  {
    if 0 <= index < n then Some(index)
    else if 0 <= index + n && index < 0 then Some(index + n)
    else None
  }

  /** The position `list.insert(index, v)` uses: negative indices count
      from the end, and the result is clamped into 0 .. n. */
  function InsertPos(index: int, n: nat): (k: nat)
    ensures k <= n
    ensures 0 <= index <= n ==> k == index
    ensures index < 0 <= index + n ==> k == index + n
    ensures index > n ==> k == n
    ensures index + n < 0 ==> k == 0
  {
    if index < 0 then (if index + n < 0 then 0 else index + n)
    else if index > n then n
    else index
  }

  /** The list with v placed at k and the later elements shifted right. */
  function SeqInsert<T>(s: seq<T>, k: nat, v: T): (r: seq<T>)
    requires k <= |s|
    ensures |r| == |s| + 1 && r[k] == v
    ensures forall j :: 0 <= j < k ==> r[j] == s[j]
    ensures forall j :: k < j < |r| ==> r[j] == s[j - 1]
  {
    s[..k] + [v] + s[k..]
  }

  /** The list without its element at k, the later elements shifted left. */
  function SeqRemove<T>(s: seq<T>, k: nat): (r: seq<T>)
    requires k < |s|
    ensures |r| == |s| - 1
    ensures forall j :: 0 <= j < k ==> r[j] == s[j]
    ensures forall j :: k <= j < |r| ==> r[j] == s[j + 1]
  {
    s[..k] + s[k + 1..]
  }

  /** Removing what was just inserted gives the list back. */
  lemma RemoveInsert<T>(s: seq<T>, k: nat, v: T)
    requires k <= |s|
    ensures SeqRemove(SeqInsert(s, k, v), k) == s
  {
    var r := SeqRemove(SeqInsert(s, k, v), k);
    assert forall j :: 0 <= j < |s| ==> r[j] == s[j];
  }

  /** Putting back what was just removed gives the list back. */
  lemma InsertRemove<T>(s: seq<T>, k: nat)
    requires k < |s|
    ensures SeqInsert(SeqRemove(s, k), k, s[k]) == s
  {
    var r := SeqInsert(SeqRemove(s, k), k, s[k]);
    assert forall j :: 0 <= j < |s| ==> r[j] == s[j];
  }

  /** The column view of a list of points. */
  function Column(ps: seq<Point>, name: string): (vals: seq<Value>)
    ensures |vals| == |ps|
    ensures forall k :: 0 <= k < |ps| ==> vals[k] == GetAttr(ps[k], name)
  {
    seq(|ps|, k requires 0 <= k < |ps| => GetAttr(ps[k], name))
  }

  /** On points built by `Point(**kwargs)` the column of a known attribute
      is the attribute itself, never the fallback None. */
  lemma ColumnOfBuiltPoints(ps: seq<Point>, name: string)
    requires name in Defaults
    requires forall k :: 0 <= k < |ps| ==> Defaults.Keys <= ps[k].attrs.Keys
    ensures forall k :: 0 <= k < |ps| ==> name in ps[k].attrs && Column(ps, name)[k] == ps[k].attrs[name]
  {
  }

  class Path {
    /** The private `__points` list. */
    var points: seq<Point>

    /** A new path is empty. */
    constructor()
      ensures points == [] && Len() == 0
    {
      points := [];
    }

    /** `__len__`. */
    function Len(): (n: nat)
      reads this
      ensures n == |points|
    {
      |points|
    }

    /** `__getitem__` with an integer index. */
    method Get(index: int) returns (r: Result<Point>)
      ensures NormIndex(index, |points|).None? ==> r == Err(IndexError)
      ensures NormIndex(index, |points|).Some? ==> r == Ok(points[NormIndex(index, |points|).value])
    {
      var k := NormIndex(index, |points|);
      if k.None? {
        return Err(IndexError);
      }
      r := Ok(points[k.value]);
    }

    /** `__setitem__` with an integer index: one element replaced, the
        length unchanged; an index outside the list changes nothing. */
    method Set(index: int, value: Point) returns (r: Result<()>)
      modifies this
      ensures r.Err? <==> NormIndex(index, |old(points)|).None?
      ensures r.Err? ==> r.error == IndexError && points == old(points)
      ensures r.Ok? ==> points == old(points)[NormIndex(index, |old(points)|).value := value]
      ensures Len() == old(Len())
    {
      var k := NormIndex(index, |points|);
      if k.None? {
        return Err(IndexError);
      }
      points := points[k.value := value];
      r := Ok(());
    }

    /** `__delitem__` with an integer index: one element removed. */
    method Delete(index: int) returns (r: Result<()>)
      modifies this
      ensures r.Err? <==> NormIndex(index, |old(points)|).None?
      ensures r.Err? ==> r.error == IndexError && points == old(points)
      ensures r.Ok? ==> points == SeqRemove(old(points), NormIndex(index, |old(points)|).value)
      ensures r.Ok? ==> Len() == old(Len()) - 1
    {
      var k := NormIndex(index, |points|);
      if k.None? {
        return Err(IndexError);
      }
      points := SeqRemove(points, k.value);
      r := Ok(());
    }

    /** `insert`: never fails; the position is clamped into the list. */
    method Insert(index: int, value: Point)
      modifies this
      ensures points == SeqInsert(old(points), InsertPos(index, |old(points)|), value)
      ensures Len() == old(Len()) + 1
    {
      points := SeqInsert(points, InsertPos(index, |points|), value);
    }

    /** `append`, which the sequence base class defines as an insert at
        the end. */
    method Append(value: Point)
      modifies this
      ensures points == old(points) + [value]
    {
      Insert(|points|, value);
      assert SeqInsert(old(points), |old(points)|, value) == old(points) + [value];
    }

    /** `__getattr__`: the column of a known attribute, in path order, or
        AttributeError for any other name. */
    method Attribute(name: string) returns (r: Result<seq<Value>>)
      ensures name !in Defaults ==> r == Err(AttributeError(name))
      ensures name in Defaults ==> r == Ok(Column(points, name))
    {
      if name !in Defaults {
        return Err(AttributeError(name));
      }
      var vals: seq<Value> := [];
      for k := 0 to |points|
        invariant vals == Column(points[..k], name)
      {
        assert points[..k + 1] == points[..k] + [points[k]];
        vals := vals + [GetAttr(points[k], name)];
      }
      assert points[..|points|] == points;
      r := Ok(vals);
    }
  }
}
