/** Axis-aligned boxes over integer voxel coordinates and the dirty-region fold
    performed by the mutation context's `markDirty` (ts/model/work.ts). */
module Region {
  import opened Wrappers

  /** An integer voxel coordinate triple (the source's `vec3`). */
  datatype Vec3 = Vec3(x: int, y: int, z: int)

  /** An axis-aligned box: `min` inclusive, `max` exclusive on every axis. Nothing
      forces `min <= max`; `markDirty` accepts whatever it is given. */
  datatype Aabb = Aabb(min: Vec3, max: Vec3)

  function MinInt(a: int, b: int): int { if a <= b then a else b }

  function MaxInt(a: int, b: int): int { if a >= b then a else b }

  /** The three axes and the two sides of a box, so that the six faces of a box
      can be spoken of uniformly. */
  datatype Axis = X | Y | Z
  datatype Side = Low | High

  function Component(v: Vec3, a: Axis): int
  {
    match a
    case X => v.x
    case Y => v.y
    case Z => v.z
  }

  /** The coordinate of one face of `b`: a min component on the low side, a max
      component on the high side. */
  function Face(b: Aabb, s: Side, a: Axis): int
  {
    if s == Low then Component(b.min, a) else Component(b.max, a)
  }

  /** Coordinate `u` lies at least as far out as `v` on side `s`. */
  predicate Outside(s: Side, u: int, v: int)
  {
    if s == Low then u <= v else v <= u
  }

  /** `outer` reaches at least as far as `inner` in every direction: its mins are
      no larger and its maxes no smaller, component by component. */
  predicate Bounds(outer: Aabb, inner: Aabb)
  {
    forall s, a :: Outside(s, Face(outer, s, a), Face(inner, s, a))
  }

  /** `b` bounds every box of `boxes`. */
  predicate BoundsAll(b: Aabb, boxes: seq<Aabb>)
  {
    forall i :: 0 <= i < |boxes| ==> Bounds(b, boxes[i])
  }

  /** Every one of the six faces of `b` is taken from some box of `boxes`, so `b`
      is no larger than the boxes force it to be. */
  predicate Attained(b: Aabb, boxes: seq<Aabb>)
  {
    forall s, a :: FaceAttained(b, boxes, s, a)
  }

  /** Face `(s, a)` of `b` coincides with the same face of some box of `boxes`. */
  predicate FaceAttained(b: Aabb, boxes: seq<Aabb>, s: Side, a: Axis)
  {
    exists i :: 0 <= i < |boxes| && Face(b, s, a) == Face(boxes[i], s, a)
  }

  /** The smallest box (in the component-wise sense) enclosing every box given. */
  predicate IsEnclosure(b: Aabb, boxes: seq<Aabb>)
  {
    BoundsAll(b, boxes) && Attained(b, boxes)
  }

  /** Two boxes with the same six faces are the same box. */
  lemma FacesDetermineBox(a: Aabb, b: Aabb)
    requires forall s, ax :: Face(a, s, ax) == Face(b, s, ax)
    ensures a == b
  {
    assert Face(a, Low, X) == Face(b, Low, X) && Face(a, Low, Y) == Face(b, Low, Y);
    assert Face(a, Low, Z) == Face(b, Low, Z) && Face(a, High, X) == Face(b, High, X);
    assert Face(a, High, Y) == Face(b, High, Y) && Face(a, High, Z) == Face(b, High, Z);
  }

  /** The boxes a dirty-region accumulator stands for: none, or the one it holds. */
  function Held(acc: Option<Aabb>): seq<Aabb>
  {
    if acc.Some? then [acc.value] else []
  }

  /** One `markDirty(min, max)` call against the context's current dirty region.
      The first call copies `(min, max)`; later calls widen the held box with a
      component-wise min of the mins and max of the maxes. */
  function MarkDirty(acc: Option<Aabb>, min: Vec3, max: Vec3): (r: Aabb)
    ensures acc.None? ==> r == Aabb(min, max)
    ensures IsEnclosure(r, Held(acc) + [Aabb(min, max)])
  {
    match acc
    case None =>
      SingleEnclosure(Aabb(min, max));
      assert Held(acc) + [Aabb(min, max)] == [Aabb(min, max)];
      Aabb(min, max)
    case Some(d) =>
      var r := Aabb(Vec3(MinInt(d.min.x, min.x), MinInt(d.min.y, min.y), MinInt(d.min.z, min.z)),
                    Vec3(MaxInt(d.max.x, max.x), MaxInt(d.max.y, max.y), MaxInt(d.max.z, max.z)));
      PairEnclosure(d, Aabb(min, max), r);
      assert Held(acc) + [Aabb(min, max)] == [d, Aabb(min, max)];
      r
  }

  /** A box is the enclosure of itself alone. */
  lemma SingleEnclosure(b: Aabb)
    ensures IsEnclosure(b, [b])
  {
    forall s, a
      ensures FaceAttained(b, [b], s, a)
    {
      assert Face(b, s, a) == Face([b][0], s, a);
    }
  }

  /** Taking every face from whichever of `d` and `m` lies further out gives
      their enclosure. */
  lemma PairEnclosure(d: Aabb, m: Aabb, r: Aabb)
    requires forall s, a :: Face(r, s, a) == (if Outside(s, Face(d, s, a), Face(m, s, a)) then Face(d, s, a) else Face(m, s, a))
    ensures IsEnclosure(r, [d, m])
  {
    var boxes := [d, m];
    forall s, a
      ensures FaceAttained(r, boxes, s, a)
    {
      if Face(r, s, a) == Face(d, s, a) {
        assert Face(r, s, a) == Face(boxes[0], s, a);
      } else {
        assert Face(r, s, a) == Face(boxes[1], s, a);
      }
    }
  }

  /** The dirty region after `markDirty` is called with each box of `marks` in
      turn, starting from `acc`. */
  function Fold(acc: Option<Aabb>, marks: seq<Aabb>): (r: Option<Aabb>)
    ensures r.None? <==> acc.None? && |marks| == 0
    ensures r.Some? ==> IsEnclosure(r.value, Held(acc) + marks)
    decreases |marks|
  {
    if |marks| == 0 then
      assert Held(acc) + marks == Held(acc);
      if acc.Some? then SingleEnclosure(acc.value); acc else acc
    else
      var next := MarkDirty(acc, marks[0].min, marks[0].max);
      var r := Fold(Some(next), marks[1..]);
      assert Held(Some(next)) + marks[1..] == [next] + marks[1..];
      EnclosureStep(acc, marks, next, r.value);
      r
  }

  /** Enclosing `[next] + rest` where `next` encloses the accumulator and the
      first mark is enclosing the accumulator and every mark. */
  lemma EnclosureStep(acc: Option<Aabb>, marks: seq<Aabb>, next: Aabb, r: Aabb)
    requires |marks| > 0
    requires IsEnclosure(next, Held(acc) + [marks[0]])
    requires IsEnclosure(r, [next] + marks[1..])
    ensures IsEnclosure(r, Held(acc) + marks)
  {
    var all := Held(acc) + marks;
    var first := Held(acc) + [marks[0]];
    var rest := [next] + marks[1..];
    var k := |Held(acc)|;
    assert forall i :: 0 <= i < |first| ==> first[i] == all[i];
    assert forall j :: 1 <= j < |rest| ==> rest[j] == all[k + j];
    assert Bounds(r, rest[0]);
    forall i | 0 <= i < |all|
      ensures Bounds(r, all[i])
    {
      if i <= k {
        assert Bounds(next, first[i]);
      } else {
        assert rest[i - k] == all[i];
      }
    }
    forall s, a
      ensures FaceAttained(r, all, s, a)
    {
      assert FaceAttained(r, rest, s, a);
      var j :| 0 <= j < |rest| && Face(r, s, a) == Face(rest[j], s, a);
      if j == 0 {
        assert FaceAttained(next, first, s, a);
        var i :| 0 <= i < |first| && Face(next, s, a) == Face(first[i], s, a);
        assert Face(r, s, a) == Face(all[i], s, a);
      } else {
        assert Face(r, s, a) == Face(all[k + j], s, a);
      }
    }
  }

  /** The dirty region accumulated by a whole sequence of `markDirty` calls made
      in one mutation: `None` when nothing was marked. */
  function Accumulate(marks: seq<Aabb>): (r: Option<Aabb>)
    ensures r.None? <==> |marks| == 0
    ensures r.Some? ==> IsEnclosure(r.value, marks)
  {
    assert Held(None) + marks == marks;
    Fold(None, marks)
  }

  /** There is at most one smallest enclosing box. */
  lemma EnclosureUnique(a: Aabb, b: Aabb, boxes: seq<Aabb>)
    requires IsEnclosure(a, boxes) && IsEnclosure(b, boxes)
    ensures a == b
  {
    forall s, ax
      ensures Face(a, s, ax) == Face(b, s, ax)
    {
      assert FaceAttained(a, boxes, s, ax) && FaceAttained(b, boxes, s, ax);
      var i :| 0 <= i < |boxes| && Face(a, s, ax) == Face(boxes[i], s, ax);
      var j :| 0 <= j < |boxes| && Face(b, s, ax) == Face(boxes[j], s, ax);
      assert Bounds(a, boxes[j]) && Bounds(b, boxes[i]);
    }
    FacesDetermineBox(a, b);
  }

  /** Enclosure depends only on which boxes occur, not on their order or
      repetition. */
  lemma EnclosureSameElements(b: Aabb, xs: seq<Aabb>, ys: seq<Aabb>)
    requires forall m :: m in xs <==> m in ys
    requires IsEnclosure(b, xs)
    ensures IsEnclosure(b, ys)
  {
    forall j | 0 <= j < |ys|
      ensures Bounds(b, ys[j])
    {
      assert ys[j] in xs;
    }
    forall s, a
      ensures FaceAttained(b, ys, s, a)
    {
      assert FaceAttained(b, xs, s, a);
      var i :| 0 <= i < |xs| && Face(b, s, a) == Face(xs[i], s, a);
      assert xs[i] in ys;
    }
  }

  /** The accumulated dirty region does not depend on the order in which the
      boxes were marked, nor on a box being marked more than once. */
  lemma AccumulateOrderIndependent(xs: seq<Aabb>, ys: seq<Aabb>)
    requires forall m :: m in xs <==> m in ys
    ensures Accumulate(xs) == Accumulate(ys)
  {
    if |ys| > 0 {
      assert ys[0] in xs;
    }
    if |xs| > 0 {
      assert xs[0] in ys;
      var a := Accumulate(xs).value;
      var b := Accumulate(ys).value;
      EnclosureSameElements(a, xs, ys);
      EnclosureUnique(a, b, ys);
    }
  }

  /** The worked example: marking `[0,0,0]-[1,1,1]` and then `[5,5,5]-[6,6,6]`
      gives `[0,0,0]-[6,6,6]`, in either order. */
  lemma AccumulateExample()
    ensures Accumulate([Aabb(Vec3(0, 0, 0), Vec3(1, 1, 1)), Aabb(Vec3(5, 5, 5), Vec3(6, 6, 6))])
         == Some(Aabb(Vec3(0, 0, 0), Vec3(6, 6, 6)))
    ensures Accumulate([Aabb(Vec3(5, 5, 5), Vec3(6, 6, 6)), Aabb(Vec3(0, 0, 0), Vec3(1, 1, 1))])
         == Some(Aabb(Vec3(0, 0, 0), Vec3(6, 6, 6)))
  {
  }
}
