/**
 The live shape collection (main.js, `shapes`, `createRandomShape`,
 `findNearestShape`, and the in-place position and scale writes made
 through shape references). The source identifies shapes by object
 reference; the model gives each shape an `id` drawn from a counter, so
 that "the selected shape" can be named after it leaves the collection.
 */
module ShapeRegistry {
  import opened Wrappers
  import opened Geometry
  import opened Palette

  /** The four geometries `createRandomShape` picks from at random. */
  datatype GeometryKind = Box | Sphere | Cone | Cylinder

  /** One shape: identity, geometry, fill colour, and the transform the
      interaction logic writes (position, uniform scale, visibility). */
  datatype Shape = Shape(id: nat, kind: GeometryKind, color: int, position: Vec3, scale: real, visible: bool)

  /** The live collection together with the colour cursor and the next
      identity to hand out. */
  datatype Registry = Registry(shapes: seq<Shape>, colorIndex: nat, nextId: nat)

  /** The identities of `shapes`, in order. */
  function Ids(shapes: seq<Shape>): (ids: seq<nat>)
    ensures |ids| == |shapes|
    ensures forall i :: 0 <= i < |shapes| ==> ids[i] == shapes[i].id
  {
    seq(|shapes|, i requires 0 <= i < |shapes| => shapes[i].id)
  }

  /** No identity occurs twice, and every identity is below `bound`. */
  predicate FreshIds(ids: seq<nat>, bound: nat)
  {
    && (forall i, j :: 0 <= i < j < |ids| ==> ids[i] != ids[j])
    && (forall i :: 0 <= i < |ids| ==> ids[i] < bound)
  }

  /** Identities of a concatenation. */
  lemma IdsConcat(a: seq<Shape>, b: seq<Shape>)
    ensures Ids(a + b) == Ids(a) + Ids(b)
  {
  }

  /** A fresh identity `n` may be inserted anywhere among identities below `n`. */
  lemma FreshInsert(a: seq<nat>, b: seq<nat>, n: nat)
    requires FreshIds(a + b, n)
    ensures FreshIds(a + [n] + b, n + 1)
  {
    var ab, anb := a + b, a + [n] + b;
    assert forall i :: 0 <= i < |ab| ==> ab[i] < n;
    forall i | 0 <= i < |anb|
      ensures anb[i] == (if i < |a| then ab[i] else if i == |a| then n else ab[i - 1])
      ensures anb[i] <= n
    {
    }
    forall i, j | 0 <= i < j < |anb|
      ensures anb[i] != anb[j]
    {
      if j == |a| {
        assert anb[i] == ab[i];
      } else if i == |a| {
        assert anb[j] == ab[j - 1];
      } else {
        var i', j' := if i < |a| then i else i - 1, if j < |a| then j else j - 1;
        assert anb[i] == ab[i'] && anb[j] == ab[j'] && i' < j';
      }
    }
  }

  /** Result of `createRandomShape`: the new registry and the shape added. */
  datatype Created = Created(registry: Registry, shape: Shape)

  /** `createRandomShape`: appends exactly one new shape at `position`,
      coloured by the round-robin allocator, with unit scale; the geometry
      kind is the caller's stand-in for the source's random choice. */
  function CreateRandomShape(r: Registry, kind: GeometryKind, position: Vec3): (c: Created)
    requires r.colorIndex < |NeonColors|
    ensures c.registry.shapes == r.shapes + [c.shape]
    ensures c.shape == Shape(r.nextId, kind, NeonColors[r.colorIndex], position, 1.0, true)
    ensures c.registry.colorIndex == NextNeonColor(r.colorIndex).next
    ensures c.registry.nextId == r.nextId + 1
    ensures FreshIds(Ids(r.shapes), r.nextId) ==> FreshIds(Ids(c.registry.shapes), c.registry.nextId)
  {
    var draw := NextNeonColor(r.colorIndex);
    var shape := Shape(r.nextId, kind, draw.color, position, 1.0, true);
    IdsConcat(r.shapes, [shape]);
    FreshAppend(Ids(r.shapes), r.nextId);
    Created(Registry(r.shapes + [shape], draw.next, r.nextId + 1), shape)
  }

  /** Appending the next identity keeps identities fresh. */
  lemma FreshAppend(ids: seq<nat>, n: nat)
    ensures FreshIds(ids, n) ==> FreshIds(ids + [n], n + 1)
  {
    if FreshIds(ids, n) {
      FreshInsert(ids, [], n);
      assert ids + [] == ids;
    }
  }

  /** An in-place write through a shape reference. */
  datatype Edit = MoveTo(position: Vec3) | ScaleTo(factor: real) | Hide

  function Apply(s: Shape, e: Edit): (t: Shape)
    ensures t.id == s.id && t.kind == s.kind && t.color == s.color
  {
    match e
    case MoveTo(p) => s.(position := p)
    case ScaleTo(f) => s.(scale := f)
    case Hide => s.(visible := false)
  }

  /** Applies `e` to the shape(s) with identity `id` and leaves every other
      shape, and the order, as it was. */
  function EditShapes(shapes: seq<Shape>, id: nat, e: Edit): (r: seq<Shape>)
    ensures Ids(r) == Ids(shapes)
    ensures forall i :: 0 <= i < |shapes| && shapes[i].id != id ==> r[i] == shapes[i]
    ensures forall i :: 0 <= i < |shapes| && shapes[i].id == id ==> r[i] == Apply(shapes[i], e)
  {
    seq(|shapes|, i requires 0 <= i < |shapes| =>
      if shapes[i].id == id then Apply(shapes[i], e) else shapes[i])
  }

  /** Radius within which `findNearestShape` considers a shape. */
  const NEAR_RADIUS: real := 1.5

  /** Shape `s` lies strictly within the search radius of `p`. */
  predicate Within(s: Shape, p: Vec3)
  {
    SqDist3(s.position, p) < NEAR_RADIUS * NEAR_RADIUS
  }

  /** `findNearestShape`: the index of the shape nearest to `p` among those
      strictly within 1.5, preferring the earliest on ties, or None. The
      source scans forward keeping the best so far with strict `<`; the
      result after the first k shapes is `Nearest` of that prefix, which
      is how the recursion below is arranged. */
  function Nearest(shapes: seq<Shape>, p: Vec3): (r: Option<nat>)
    ensures r.None? <==> forall j :: 0 <= j < |shapes| ==> !Within(shapes[j], p)
    ensures r.Some? ==> r.value < |shapes| && Within(shapes[r.value], p)
    ensures r.Some? ==> (forall j :: 0 <= j < r.value ==>
                           SqDist3(shapes[j].position, p) > SqDist3(shapes[r.value].position, p))
    ensures r.Some? ==> (forall j :: r.value < j < |shapes| ==>
                           SqDist3(shapes[j].position, p) >= SqDist3(shapes[r.value].position, p))
    decreases |shapes|
  {
    if |shapes| == 0 then None
    else
      var last := |shapes| - 1;
      var best := Nearest(shapes[..last], p);
      var d := SqDist3(shapes[last].position, p);
      if Within(shapes[last], p) && (best.None? || d < SqDist3(shapes[best.value].position, p))
      then Some(last)
      else best
  }

  /** The same answer in terms of the source's Euclidean distances `ds`
      (`ds[j]` is the distance from shape j to `p`): None exactly when no
      distance is below 1.5; otherwise a shape within 1.5, strictly nearer
      than every earlier shape and no farther than any later one. */
  lemma NearestByDistance(shapes: seq<Shape>, p: Vec3, ds: seq<real>)
    requires |ds| == |shapes|
    requires forall j :: 0 <= j < |ds| ==> IsRoot(ds[j], SqDist3(shapes[j].position, p))
    ensures Nearest(shapes, p).None? <==> forall j :: 0 <= j < |ds| ==> ds[j] >= NEAR_RADIUS
    ensures Nearest(shapes, p).Some? ==>
      var k := Nearest(shapes, p).value;
      && k < |ds| && ds[k] < NEAR_RADIUS
      && (forall j :: 0 <= j < k ==> ds[j] > ds[k])
      && (forall j :: k < j < |ds| ==> ds[j] >= ds[k])
  {
    var r := Nearest(shapes, p);
    forall j | 0 <= j < |ds|
      ensures ds[j] < NEAR_RADIUS <==> Within(shapes[j], p)
    {
      RootLess(ds[j], SqDist3(shapes[j].position, p), NEAR_RADIUS, NEAR_RADIUS * NEAR_RADIUS);
    }
    if r.Some? {
      var k := r.value;
      var dk := SqDist3(shapes[k].position, p);
      forall j | 0 <= j < |ds|
        ensures ds[j] < ds[k] <==> SqDist3(shapes[j].position, p) < dk
        ensures ds[k] < ds[j] <==> dk < SqDist3(shapes[j].position, p)
      {
        RootLess(ds[j], SqDist3(shapes[j].position, p), ds[k], dk);
        RootLess(ds[k], dk, ds[j], SqDist3(shapes[j].position, p));
      }
    }
  }

  /** Appending a shape never changes which earlier shape is nearest unless
      the new one is within range and strictly nearer: creation cannot
      steal a tie from an older shape. */
  lemma NearestAppend(shapes: seq<Shape>, s: Shape, p: Vec3)
    requires Nearest(shapes, p).Some?
    requires SqDist3(s.position, p) >= SqDist3(shapes[Nearest(shapes, p).value].position, p)
    ensures Nearest(shapes + [s], p) == Nearest(shapes, p)
  {
    assert (shapes + [s])[..|shapes|] == shapes;
  }
}
