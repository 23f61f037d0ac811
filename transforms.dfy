/** 2D affine transforms as fontTools' `Transform` records them, and
    `makeTransform` (project.py), which places a nested component. */
module Transforms {
  import opened Common
  import opened MathDict

  datatype Point = Point(x: real, y: real)

  /** `Transform(xx, xy, yx, yy, dx, dy)`: maps (x, y) to
      (xx*x + yx*y + dx, xy*x + yy*y + dy). */
  datatype Affine = Affine(xx: real, xy: real, yx: real, yy: real, dx: real, dy: real)

  /** A rotation given by its cosine and sine; the conversion from degrees
      (`math.radians`, `math.cos`, `math.sin`) is left to the caller. */
  datatype Rotation = Rotation(cos: real, sin: real)

  const Identity := Affine(1.0, 0.0, 0.0, 1.0, 0.0, 0.0)

  /** `t.transformPoint(p)`. */
  function Apply(t: Affine, p: Point): Point
  {
    Point(t.xx * p.x + t.yx * p.y + t.dx, t.xy * p.x + t.yy * p.y + t.dy)
  }

  /** `t.transform(u)`: the transform that applies `u` first, then `t`. */
  function Compose(t: Affine, u: Affine): Affine
  {
    Affine(
      u.xx * t.xx + u.xy * t.yx,
      u.xx * t.xy + u.xy * t.yy,
      u.yx * t.xx + u.yy * t.yx,
      u.yx * t.xy + u.yy * t.yy,
      t.xx * u.dx + t.yx * u.dy + t.dx,
      t.xy * u.dx + t.yy * u.dy + t.dy)
  }

  /** `t.translate(x, y)`. */
  function Translate(t: Affine, x: real, y: real): Affine
  {
    Compose(t, Affine(1.0, 0.0, 0.0, 1.0, x, y))
  }

  /** `t.rotate(angle)` for an angle with the given cosine and sine. */
  function Rotate(t: Affine, r: Rotation): Affine
  {
    Compose(t, Affine(r.cos, r.sin, -r.sin, r.cos, 0.0, 0.0))
  }

  /** `t.scale(x, y)`. */
  function ScaleBy(t: Affine, x: real, y: real): Affine
  {
    Compose(t, Affine(x, 0.0, 0.0, y, 0.0, 0.0))
  }

  /** `makeTransform`: the rotation centre is scaled first; then translate by
      (x + centre), rotate, translate back by the centre, and scale. */
  function MakeTransform(x: real, y: real, rotation: Rotation, scalex: real, scaley: real,
                         rcenterx: real, rcentery: real): (t: Affine)
    // the linear part is the scale followed by the rotation
    ensures t.xx == rotation.cos * scalex && t.xy == rotation.sin * scalex
    ensures t.yx == -rotation.sin * scaley && t.yy == rotation.cos * scaley
    // the offset moves the rotated scaled centre to (x, y) plus the scaled centre
    ensures var cx, cy := rcenterx * scalex, rcentery * scaley;
            t.dx == x + cx - (rotation.cos * cx - rotation.sin * cy) &&
            t.dy == y + cy - (rotation.sin * cx + rotation.cos * cy)
  {
    var cx := rcenterx * scalex;
    var cy := rcentery * scaley;
    ScaleBy(Translate(Rotate(Translate(Identity, x + cx, y + cy), rotation), -cx, -cy), scalex, scaley)
  }

  /** `makeTransform(**transform)` on a component's transform record: the
      record must hold exactly the seven keyword arguments, each a number;
      anything else makes the call raise TypeError. */
  function MakeTransformFromRecord(record: Dict, trig: real -> Rotation): (r: Result<Affine>)
    // a missing argument, an unexpected keyword or a non-number raises TypeError
    ensures (exists k | k in TransformKeys :: k !in record) ==> r == Err(TypeError)
    ensures (exists k | k in record :: k !in TransformKeys || !record[k].Num?) ==> r == Err(TypeError)
    ensures r.Err? ==> r.error == TypeError
  {
    if record.Keys == TransformKeys && forall k | k in record :: record[k].Num? then
      Ok(MakeTransform(record["x"].n, record["y"].n, trig(record["rotation"].n),
                       record["scalex"].n, record["scaley"].n,
                       record["rcenterx"].n, record["rcentery"].n))
    else
      Err(TypeError)
  }

  const TransformKeys: set<string> := {"x", "y", "rotation", "scalex", "scaley", "rcenterx", "rcentery"}

  /** Composition is application in sequence: `t.transform(u)` applies `u`
      first. */
  lemma ComposeApply(t: Affine, u: Affine, p: Point)
    ensures Apply(Compose(t, u), p) == Apply(t, Apply(u, p))
  {
    var q := Apply(u, p);
    calc {
      Apply(Compose(t, u), p).x;
      (u.xx * t.xx + u.xy * t.yx) * p.x + (u.yx * t.xx + u.yy * t.yx) * p.y + (t.xx * u.dx + t.yx * u.dy + t.dx);
      t.xx * (u.xx * p.x + u.yx * p.y + u.dx) + t.yx * (u.xy * p.x + u.yy * p.y + u.dy) + t.dx;
      t.xx * q.x + t.yx * q.y + t.dx;
      Apply(t, q).x;
    }
    calc {
      Apply(Compose(t, u), p).y;
      (u.xx * t.xy + u.xy * t.yy) * p.x + (u.yx * t.xy + u.yy * t.yy) * p.y + (t.xy * u.dx + t.yy * u.dy + t.dy);
      t.xy * (u.xx * p.x + u.yx * p.y + u.dx) + t.yy * (u.xy * p.x + u.yy * p.y + u.dy) + t.dy;
      t.xy * q.x + t.yy * q.y + t.dy;
      Apply(t, q).y;
    }
  }

  /** The closed form of `makeTransform`: scale the point, move it so the
      scaled centre is at the origin, rotate, then move the origin to
      (x + centre, y + centre). */
  lemma MakeTransformApply(x: real, y: real, r: Rotation, scalex: real, scaley: real,
                           rcenterx: real, rcentery: real, p: Point)
    ensures var cx, cy := rcenterx * scalex, rcentery * scaley;
            var qx, qy := p.x * scalex - cx, p.y * scaley - cy;
            Apply(MakeTransform(x, y, r, scalex, scaley, rcenterx, rcentery), p) ==
              Point(x + cx + r.cos * qx - r.sin * qy, y + cy + r.sin * qx + r.cos * qy)
  {
    var cx, cy := rcenterx * scalex, rcentery * scaley;
    var t1 := Translate(Identity, x + cx, y + cy);
    var t2 := Rotate(t1, r);
    var t3 := Translate(t2, -cx, -cy);
    var sc := Affine(scalex, 0.0, 0.0, scaley, 0.0, 0.0);
    var p1 := Apply(sc, p);
    ComposeApply(t3, sc, p);
    var p2 := Apply(Affine(1.0, 0.0, 0.0, 1.0, -cx, -cy), p1);
    ComposeApply(t2, Affine(1.0, 0.0, 0.0, 1.0, -cx, -cy), p1);
    var p3 := Apply(Affine(r.cos, r.sin, -r.sin, r.cos, 0.0, 0.0), p2);
    ComposeApply(t1, Affine(r.cos, r.sin, -r.sin, r.cos, 0.0, 0.0), p2);
    ComposeApply(Identity, Affine(1.0, 0.0, 0.0, 1.0, x + cx, y + cy), p3);
  }

  /** With no translation, no rotation and unit scale the result is the
      identity, whatever the rotation centre. */
  lemma MakeTransformIdentity(rcenterx: real, rcentery: real)
    ensures MakeTransform(0.0, 0.0, Rotation(1.0, 0.0), 1.0, 1.0, rcenterx, rcentery) == Identity
  {
  }

  /** Under any rotation, the unscaled rotation centre lands on
      (x + rcenterx*scalex, y + rcentery*scaley). */
  lemma MakeTransformPivot(x: real, y: real, r: Rotation, scalex: real, scaley: real,
                           rcenterx: real, rcentery: real)
    ensures Apply(MakeTransform(x, y, r, scalex, scaley, rcenterx, rcentery), Point(rcenterx, rcentery)) ==
              Point(x + rcenterx * scalex, y + rcentery * scaley)
  {
    MakeTransformApply(x, y, r, scalex, scaley, rcenterx, rcentery, Point(rcenterx, rcentery));
  }

  /** A transform record's rotation centre lands at the record's offset plus
      the scaled centre. */
  lemma MakeTransformFromRecordPivot(record: Dict, trig: real -> Rotation)
    requires MakeTransformFromRecord(record, trig).Ok?
    ensures Apply(MakeTransformFromRecord(record, trig).value, Point(record["rcenterx"].n, record["rcentery"].n)) ==
              Point(record["x"].n + record["rcenterx"].n * record["scalex"].n,
                    record["y"].n + record["rcentery"].n * record["scaley"].n)
  {
    MakeTransformPivot(record["x"].n, record["y"].n, trig(record["rotation"].n),
                       record["scalex"].n, record["scaley"].n, record["rcenterx"].n, record["rcentery"].n);
  }
}
