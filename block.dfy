/**
 * `Block` (Source/Model/block.cpp): the cuboid drawn for one node of the treemap.  It knows
 * its origin, its three extents, the origin of the next row of child blocks, how much of
 * its top face is covered, and optionally the 30 vertices and 30 normals of its faces.
 *
 * The constructor fills the vertex list and the two mutators update fields in place, so the
 * block is a class.  Coordinates are `real`.
 */
module Blocks {
  datatype Point = Point(x: real, y: real, z: real)

  function Add(a: Point, b: Point): Point
  {
    Point(a.x + b.x, a.y + b.y, a.z + b.z)
  }

  /** The number of vertices the six faces of a block are drawn with (two triangles per face). */
  const VerticesPerBlock: nat := 30

  class Block {
    var origin: Point
    var nextRowOrigin: Point
    var coverage: real
    var width: real
    var height: real
    var depth: real
    var vertices: seq<Point>

    /**
     * `Block(origin, width, height, depth, generateVertices)`: nothing covered yet, the next row
     * starts right on top of the block, and the vertex list is only filled on request.
     */
    constructor(origin: Point, width: real, height: real, depth: real, generateVertices: bool)
      ensures this.origin == origin && this.width == width && this.height == height && this.depth == depth
      ensures coverage == 0.0
      ensures nextRowOrigin == Point(origin.x, origin.y + height, origin.z)
      ensures !generateVertices ==> vertices == []
      ensures generateVertices ==> vertices == FaceVertices(origin, width, height, depth)
    {
      this.origin := origin;
      nextRowOrigin := Point(origin.x, origin.y + height, origin.z);
      coverage := 0.0;
      this.width := width;
      this.height := height;
      this.depth := depth;
      vertices := if generateVertices then FaceVertices(origin, width, height, depth) else [];
    }

    /** `HasVolume`: none of the three extents is zero. */
    predicate HasVolume()
      reads this
    {
      width != 0.0 && height != 0.0 && depth != 0.0
    }

    /** `ComputeNextChildOrigin`: the origin raised by the block's height. */
    function ComputeNextChildOrigin(): (p: Point)
      reads this
      ensures p == Add(origin, Point(0.0, height, 0.0))
    {
      Point(origin.x, origin.y + height, origin.z)
    }

    /** `SetNextRowOrigin`: only the next-row origin changes. */
    method SetNextRowOrigin(o: Point)
      modifies this
      ensures nextRowOrigin == o
      ensures origin == old(origin) && coverage == old(coverage) && vertices == old(vertices)
      ensures width == old(width) && height == old(height) && depth == old(depth)
    {
      nextRowOrigin := o;
    }

    /** `IncreaseCoverageBy`: only the coverage changes, by the amount given. */
    method IncreaseCoverageBy(additional: real)
      modifies this
      ensures coverage == old(coverage) + additional
      ensures origin == old(origin) && nextRowOrigin == old(nextRowOrigin) && vertices == old(vertices)
      ensures width == old(width) && height == old(height) && depth == old(depth)
    {
      coverage := coverage + additional;
    }
  }

  /** The corners of one face, each followed by the face's normal. */
  function WithNormal(corners: seq<Point>, normal: Point): (v: seq<Point>)
    ensures |v| == 2 * |corners|
  {
    if corners == [] then [] else [corners[0], normal] + WithNormal(corners[1..], normal)
  }

  /** The corners of the front, right, back, left and top faces, two triangles each. */
  function Faces(o: Point, w: real, h: real, d: real): (faces: seq<seq<Point>>)
    ensures |faces| == 5 && forall f :: 0 <= f < 5 ==> |faces[f]| == 6
  {
    var x, y, z := o.x, o.y, o.z;
    [[Point(x, y, z), Point(x + w, y, z), Point(x, y + h, z),
      Point(x + w, y + h, z), Point(x, y + h, z), Point(x + w, y, z)],
     [Point(x + w, y, z), Point(x + w, y, z - d), Point(x + w, y + h, z),
      Point(x + w, y + h, z - d), Point(x + w, y + h, z), Point(x + w, y, z - d)],
     [Point(x + w, y, z - d), Point(x, y, z - d), Point(x + w, y + h, z - d),
      Point(x, y + h, z - d), Point(x + w, y + h, z - d), Point(x, y, z - d)],
     [Point(x, y, z - d), Point(x, y, z), Point(x, y + h, z - d),
      Point(x, y + h, z), Point(x, y + h, z - d), Point(x, y, z)],
     [Point(x, y + h, z), Point(x + w, y + h, z), Point(x, y + h, z - d),
      Point(x + w, y + h, z - d), Point(x, y + h, z - d), Point(x + w, y + h, z)]]
  }

  /** The outward normals of the front, right, back, left and top faces. */
  const Normals: seq<Point> :=
    [Point(0.0, 0.0, 1.0), Point(1.0, 0.0, 0.0), Point(0.0, 0.0, -1.0), Point(-1.0, 0.0, 0.0), Point(0.0, 1.0, 0.0)]

  /** Each face's corners interleaved with its normal, face after face. */
  function Interleave(faces: seq<seq<Point>>, normals: seq<Point>): (v: seq<Point>)
    requires |faces| == |normals|
    ensures (forall f :: 0 <= f < |faces| ==> |faces[f]| == 6) ==> |v| == 12 * |faces|
  {
    if faces == [] then [] else WithNormal(faces[0], normals[0]) + Interleave(faces[1..], normals[1..])
  }

  /** The vertex list of a block: every vertex followed by the normal of its face. */
  function FaceVertices(o: Point, w: real, h: real, d: real): (v: seq<Point>)
    ensures |v| == 2 * VerticesPerBlock
  {
    Interleave(Faces(o, w, h, d), Normals)
  }

  /** With six corners per face, entry k lies in face k / 12 at position k % 12. */
  lemma {:induction false} InterleaveAt(faces: seq<seq<Point>>, normals: seq<Point>, k: nat)
    requires |faces| == |normals| && forall f :: 0 <= f < |faces| ==> |faces[f]| == 6
    requires k < 12 * |faces|
    ensures Interleave(faces, normals)[k] == WithNormal(faces[k / 12], normals[k / 12])[k % 12]
  {
    var head := WithNormal(faces[0], normals[0]);
    var rest := faces[1..];
    assert |head| == 12;
    assert forall f :: 0 <= f < |rest| ==> |rest[f]| == 6 by {
      forall f | 0 <= f < |rest| ensures |rest[f]| == 6 {
        assert rest[f] == faces[f + 1];
      }
    }
    assert Interleave(faces, normals) == head + Interleave(rest, normals[1..]);
    if k >= 12 {
      assert k / 12 == (k - 12) / 12 + 1 && k % 12 == (k - 12) % 12;
      InterleaveAt(rest, normals[1..], k - 12);
    } else {
      assert k / 12 == 0 && k % 12 == k;
    }
  }

  /** Entry 2i of a face's list is its i-th corner, entry 2i+1 its normal. */
  lemma {:induction false} WithNormalAt(corners: seq<Point>, normal: Point, k: nat)
    requires k < 2 * |corners|
    ensures k % 2 == 0 ==> WithNormal(corners, normal)[k] == corners[k / 2]
    ensures k % 2 == 1 ==> WithNormal(corners, normal)[k] == normal
  {
    if k >= 2 {
      WithNormalAt(corners[1..], normal, k - 2);
    }
  }

  /** A corner of the cuboid spanned from `o` by `w` along x, `h` along y and `d` back along z. */
  predicate IsCorner(p: Point, o: Point, w: real, h: real, d: real)
  {
    && (p.x == o.x || p.x == o.x + w)
    && (p.y == o.y || p.y == o.y + h)
    && (p.z == o.z || p.z == o.z - d)
  }

  /** A unit normal along one of the three axes. */
  predicate IsAxisNormal(n: Point)
  {
    n in {Point(0.0, 0.0, 1.0), Point(1.0, 0.0, 0.0), Point(0.0, 0.0, -1.0),
          Point(-1.0, 0.0, 0.0), Point(0.0, 1.0, 0.0)}
  }

  /** The vertex list alternates corners of the block (even positions) and face normals (odd). */
  lemma VerticesAlternate(o: Point, w: real, h: real, d: real, k: nat)
    requires k < 2 * VerticesPerBlock
    ensures k % 2 == 0 ==> IsCorner(FaceVertices(o, w, h, d)[k], o, w, h, d)
    ensures k % 2 == 1 ==> IsAxisNormal(FaceVertices(o, w, h, d)[k])
  {
    var faces := Faces(o, w, h, d);
    var f, i := k / 12, k % 12;
    assert f < 5 && i / 2 < 6 && i % 2 == k % 2;
    InterleaveAt(faces, Normals, k);
    WithNormalAt(faces[f], Normals[f], i);
    if k % 2 == 0 {
      FaceCornersAreCorners(o, w, h, d, f, i / 2);
    } else {
      assert IsAxisNormal(Normals[f]);
    }
  }

  /** Every listed corner of every face is a corner of the block. */
  lemma FaceCornersAreCorners(o: Point, w: real, h: real, d: real, f: nat, c: nat)
    requires f < 5 && c < 6
    ensures IsCorner(Faces(o, w, h, d)[f][c], o, w, h, d)
  {
  }

  /** The unit block at the origin has the vertices the reference block is expected to have. */
  lemma UnitBlockVertices()
    ensures var v := FaceVertices(Point(0.0, 0.0, 0.0), 1.0, 1.0, 1.0);
      && v[0] == Point(0.0, 0.0, 0.0) && v[6] == Point(1.0, 1.0, 0.0) && v[10] == Point(1.0, 0.0, 0.0)
      && v[48] == Point(0.0, 1.0, 0.0) && v[54] == Point(1.0, 1.0, -1.0) && v[58] == Point(1.0, 1.0, 0.0)
  {
    var faces := Faces(Point(0.0, 0.0, 0.0), 1.0, 1.0, 1.0);
    InterleaveAt(faces, Normals, 0);
    WithNormalAt(faces[0], Normals[0], 0);
    InterleaveAt(faces, Normals, 6);
    WithNormalAt(faces[0], Normals[0], 6);
    InterleaveAt(faces, Normals, 10);
    WithNormalAt(faces[0], Normals[0], 10);
    InterleaveAt(faces, Normals, 48);
    WithNormalAt(faces[4], Normals[4], 0);
    InterleaveAt(faces, Normals, 54);
    WithNormalAt(faces[4], Normals[4], 6);
    InterleaveAt(faces, Normals, 58);
    WithNormalAt(faces[4], Normals[4], 10);
  }
}
