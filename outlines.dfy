/** `MathOutline`: an outline recorded as the point-pen calls that drew it
    (a fontTools `RecordingPointPen`), with point-wise arithmetic on top
    (project.py, class MathOutline). */
module Outlines {
  import opened Common
  import opened Transforms

  /** One recorded pen call. The identifier keyword argument is kept with the
      call; `addComponent` can be recorded too, but neither operation below
      supports it. */
  datatype PenOp =
    | BeginPath(identifier: Option<string>)
    | AddPoint(pt: Point, segmentType: Option<string>, smooth: bool, name: Option<string>,
               identifier: Option<string>)
    | EndPath
    | AddComponent(baseGlyphName: string, transformation: Affine, identifier: Option<string>)

  type Outline = seq<PenOp>

  const IncompatibleOutline := InterpolationError("incompatible outline")

  /** The recorded method name, which is what compatibility compares. */
  function MethodName(op: PenOp): string
  {
    match op
    case BeginPath(_) => "beginPath"
    case AddPoint(_, _, _, _, _) => "addPoint"
    case EndPath => "endPath"
    case AddComponent(_, _, _) => "addComponent"
  }

  /** `isEmpty`: nothing was recorded. */
  predicate IsEmpty(o: Outline)
  {
    |o| == 0
  }

  /** One step of `applyUnaryFunc`: a point goes through `f` with the rest of
      the call kept; the path markers are re-issued without arguments; any
      other call trips `assert False`. */
  function MapOp(op: PenOp, f: Point -> Point): Result<PenOp>
  {
    match op
    case AddPoint(pt, seg, smooth, name, id) => Ok(AddPoint(f(pt), seg, smooth, name, id))
    case BeginPath(_) => Ok(BeginPath(None))
    case EndPath => Ok(EndPath)
    case AddComponent(_, _, _) => Err(AssertionError)
  }

  /** The outline `applyUnaryFunc(f)` records, or the error it stops at. */
  function Mapped(o: Outline, f: Point -> Point): (r: Result<Outline>)
    ensures r.Ok? ==> |r.value| == |o|
    ensures r.Err? ==> r.error == AssertionError
    decreases |o|
  {
    if |o| == 0 then Ok([])
    else
      match Mapped(o[..|o| - 1], f)
      case Err(e) => Err(e)
      case Ok(init) =>
        match MapOp(o[|o| - 1], f)
        case Err(e) => Err(e)
        case Ok(last) => Ok(init + [last])
  }

  /** The point function of `transform(t)`: `t.transformPoint`. */
  function TransformPoint(t: Affine): Point -> Point
  {
    (p: Point) => Apply(t, p)
  }

  /** The point function of `outline * scalar`. */
  function ScalePoint(scalar: real): Point -> Point
  {
    (p: Point) => Point(p.x * scalar, p.y * scalar)
  }

  /** One step of `_doBinaryOperator`: the method names must agree, and two
      points must have the same segment type; coordinates are combined and
      the rest is taken from the left call. */
  function BlendOp(p: PenOp, q: PenOp, op: BinOp): Result<PenOp>
  {
    if MethodName(p) != MethodName(q) then Err(IncompatibleOutline)
    else
      match p
      case AddPoint(pt1, seg1, smooth1, name1, id1) =>
        if seg1 != q.segmentType then Err(IncompatibleOutline)
        else Ok(AddPoint(Point(ApplyOp(op, pt1.x, q.pt.x), ApplyOp(op, pt1.y, q.pt.y)),
                         seg1, smooth1, name1, id1))
      case BeginPath(_) => Ok(BeginPath(None))
      case EndPath => Ok(EndPath)
      case AddComponent(_, _, _) => Err(AssertionError)
  }

  /** The call-by-call pass of `_doBinaryOperator` over two equally long
      recordings, stopping at the first failing pair. */
  function BlendOps(a: Outline, b: Outline, op: BinOp): (r: Result<Outline>)
    requires |a| == |b|
    ensures r.Ok? ==> |r.value| == |a|
    ensures r.Err? ==> r.error == IncompatibleOutline || r.error == AssertionError
    decreases |a|
  {
    if |a| == 0 then Ok([])
    else
      match BlendOps(a[..|a| - 1], b[..|b| - 1], op)
      case Err(e) => Err(e)
      case Ok(init) =>
        match BlendOp(a[|a| - 1], b[|b| - 1], op)
        case Err(e) => Err(e)
        case Ok(last) => Ok(init + [last])
  }

  /** `a + b` / `a - b`: recordings of different lengths never blend. */
  function Blended(a: Outline, b: Outline, op: BinOp): (r: Result<Outline>)
    ensures r.Ok? ==> |r.value| == |a| == |b|
    ensures r.Err? ==> r.error == IncompatibleOutline || r.error == AssertionError
  {
    if |a| != |b| then Err(IncompatibleOutline) else BlendOps(a, b, op)
  }

  /** `applyUnaryFunc`: replays the recording into a fresh one. */
  method ApplyUnaryFunc(o: Outline, f: Point -> Point) returns (r: Result<Outline>)
    ensures r == Mapped(o, f)
  {
    var result: Outline := [];
    var i := 0;
    while i < |o|
      invariant 0 <= i <= |o|
      invariant Mapped(o[..i], f) == Ok(result)
    {
      assert o[..i + 1][..i] == o[..i];
      var m := MapOp(o[i], f);
      if m.Err? {
        MappedErrorPersists(o, f, i + 1, m.error);
        return Err(m.error);
      }
      result := result + [m.value];
      i := i + 1;
    }
    assert o[..|o|] == o;
    r := Ok(result);
  }

  /** `transform(t)`. */
  method Transform(o: Outline, t: Affine) returns (r: Result<Outline>)
    ensures r == Mapped(o, TransformPoint(t))
  {
    r := ApplyUnaryFunc(o, TransformPoint(t));
  }

  /** `_doUnaryOperator` with multiplication: `outline * scalar`. */
  method DoUnaryOperator(o: Outline, scalar: real) returns (r: Result<Outline>)
    ensures r == Mapped(o, ScalePoint(scalar))
  {
    r := ApplyUnaryFunc(o, ScalePoint(scalar));
  }

  /** `_doBinaryOperator`: the length check, then the call-by-call pass. */
  method DoBinaryOperator(a: Outline, b: Outline, op: BinOp) returns (r: Result<Outline>)
    ensures r == Blended(a, b, op)
  {
    if |a| != |b| {
      return Err(IncompatibleOutline);
    }
    var result: Outline := [];
    var i := 0;
    while i < |a|
      invariant 0 <= i <= |a|
      invariant BlendOps(a[..i], b[..i], op) == Ok(result)
    {
      assert a[..i + 1][..i] == a[..i] && b[..i + 1][..i] == b[..i];
      var c := BlendOp(a[i], b[i], op);
      if c.Err? {
        BlendErrorPersists(a, b, op, i + 1, c.error);
        return Err(c.error);
      }
      result := result + [c.value];
      i := i + 1;
    }
    assert a[..|a|] == a && b[..|b|] == b;
    r := Ok(result);
  }

  /** Once a prefix fails, the whole recording fails with the same error. */
  lemma {:induction false} MappedErrorPersists(o: Outline, f: Point -> Point, j: nat, e: Error)
    requires j <= |o| && Mapped(o[..j], f) == Err(e)
    ensures Mapped(o, f) == Err(e)
    decreases |o| - j
  {
    if j < |o| {
      assert o[..j + 1][..j] == o[..j];
      MappedErrorPersists(o, f, j + 1, e);
    } else {
      assert o[..j] == o;
    }
  }

  lemma {:induction false} BlendErrorPersists(a: Outline, b: Outline, op: BinOp, j: nat, e: Error)
    requires |a| == |b| && j <= |a| && BlendOps(a[..j], b[..j], op) == Err(e)
    ensures BlendOps(a, b, op) == Err(e)
    decreases |a| - j
  {
    if j < |a| {
      assert a[..j + 1][..j] == a[..j] && b[..j + 1][..j] == b[..j];
      BlendErrorPersists(a, b, op, j + 1, e);
    } else {
      assert a[..j] == a && b[..j] == b;
    }
  }

  /** Every call of `o` is supported by `applyUnaryFunc`. */
  predicate AllSupported(o: Outline)
  {
    forall i | 0 <= i < |o| :: !o[i].AddComponent?
  }

  /** `r` is `o` with `MapOp` applied call by call. */
  predicate MapsEach(o: Outline, f: Point -> Point, r: Outline)
  {
    |r| == |o| && forall i | 0 <= i < |o| :: Ok(r[i]) == MapOp(o[i], f)
  }

  /** Every pair of calls of `a` and `b` blends. */
  predicate AllBlend(a: Outline, b: Outline, op: BinOp)
    requires |a| == |b|
  {
    forall i | 0 <= i < |a| :: BlendOp(a[i], b[i], op).Ok?
  }

  /** `r` is the call-by-call blend of `a` and `b`. */
  predicate BlendsEach(a: Outline, b: Outline, op: BinOp, r: Outline)
    requires |a| == |b|
  {
    |r| == |a| && forall i | 0 <= i < |a| :: Ok(r[i]) == BlendOp(a[i], b[i], op)
  }

  /** `applyUnaryFunc` succeeds exactly on recordings without unsupported
      calls, and then transforms call by call, keeping the length. */
  lemma {:induction false} MappedSpec(o: Outline, f: Point -> Point)
    ensures Mapped(o, f).Ok? <==> AllSupported(o)
    ensures Mapped(o, f).Ok? ==> MapsEach(o, f, Mapped(o, f).value)
    decreases |o|
  {
    if |o| > 0 {
      var n := |o| - 1;
      var init := o[..n];
      MappedSpec(init, f);
      assert forall i | 0 <= i < n :: init[i] == o[i];
      var last := MapOp(o[n], f);
      if Mapped(init, f).Ok? && last.Ok? {
        var r := Mapped(init, f).value;
        assert Mapped(o, f) == Ok(r + [last.value]);
        assert forall i | 0 <= i < n :: (r + [last.value])[i] == r[i];
      } else if Mapped(init, f).Err? {
        var i :| 0 <= i < n && init[i].AddComponent?;
        assert o[i].AddComponent?;
      }
    }
  }

  /** The structure survives `applyUnaryFunc`/`transform`: every call keeps its
      method, and a point keeps its segment type, smooth flag, name and
      identifier; only its coordinates change, to `f(pt)`. */
  lemma MappedKeepsStructure(o: Outline, f: Point -> Point)
    requires Mapped(o, f).Ok?
    ensures |Mapped(o, f).value| == |o|
    ensures forall i | 0 <= i < |o| ::
              var r := Mapped(o, f).value[i];
              MethodName(r) == MethodName(o[i]) &&
              (o[i].AddPoint? ==>
                 r == AddPoint(f(o[i].pt), o[i].segmentType, o[i].smooth, o[i].name, o[i].identifier))
  {
    MappedSpec(o, f);
  }

  /** `isEmpty` is kept by mapping, and an empty recording blends exactly with
      an empty one. */
  lemma EmptyOutlines(a: Outline, b: Outline, op: BinOp, f: Point -> Point)
    ensures IsEmpty(a) ==> Mapped(a, f) == Ok([])
    ensures Mapped(a, f).Ok? ==> (IsEmpty(Mapped(a, f).value) <==> IsEmpty(a))
    ensures IsEmpty(a) ==> (Blended(a, b, op).Ok? <==> IsEmpty(b))
  {
  }

  /** Scalar multiplication is the special case (x*k, y*k). */
  lemma ScaledPoints(o: Outline, scalar: real)
    requires Mapped(o, ScalePoint(scalar)).Ok?
    ensures |Mapped(o, ScalePoint(scalar)).value| == |o|
    ensures forall i | 0 <= i < |o| && o[i].AddPoint? ::
              Mapped(o, ScalePoint(scalar)).value[i] ==
                AddPoint(Point(o[i].pt.x * scalar, o[i].pt.y * scalar),
                         o[i].segmentType, o[i].smooth, o[i].name, o[i].identifier)
  {
    MappedKeepsStructure(o, ScalePoint(scalar));
  }

  /** Transforming by `u` and then by `t` is transforming by `t.transform(u)`. */
  lemma {:induction false} TransformTwice(o: Outline, t: Affine, u: Affine)
    requires Mapped(o, TransformPoint(u)).Ok?
    ensures Mapped(Mapped(o, TransformPoint(u)).value, TransformPoint(t)) ==
              Mapped(o, TransformPoint(Compose(t, u)))
  {
    var fu, ft, ftu := TransformPoint(u), TransformPoint(t), TransformPoint(Compose(t, u));
    var once := Mapped(o, fu).value;
    MappedSpec(o, fu);
    assert AllSupported(once) by {
      forall i | 0 <= i < |once| ensures !once[i].AddComponent? {
        assert Ok(once[i]) == MapOp(o[i], fu);
      }
    }
    MappedSpec(once, ft);
    MappedSpec(o, ftu);
    var twice := Mapped(once, ft).value;
    var direct := Mapped(o, ftu).value;
    forall i | 0 <= i < |o| ensures twice[i] == direct[i] {
      assert Ok(once[i]) == MapOp(o[i], fu);
      assert Ok(twice[i]) == MapOp(once[i], ft);
      assert Ok(direct[i]) == MapOp(o[i], ftu);
      if o[i].AddPoint? {
        ComposeApply(t, u, o[i].pt);
      }
    }
    assert twice == direct;
  }

  lemma {:induction false} BlendOpsSpec(a: Outline, b: Outline, op: BinOp)
    requires |a| == |b|
    ensures BlendOps(a, b, op).Ok? <==> AllBlend(a, b, op)
    ensures BlendOps(a, b, op).Ok? ==> BlendsEach(a, b, op, BlendOps(a, b, op).value)
    decreases |a|
  {
    if |a| > 0 {
      var n := |a| - 1;
      var a', b' := a[..n], b[..n];
      BlendOpsSpec(a', b', op);
      var last := BlendOp(a[n], b[n], op);
      var init := BlendOps(a', b', op);
      if init.Ok? && last.Ok? {
        BlendOpsStep(a, b, op, init.value, last.value);
      } else if init.Err? {
        assert BlendOps(a, b, op).Err?;
        var i :| 0 <= i < n && !BlendOp(a'[i], b'[i], op).Ok?;
        assert a'[i] == a[i] && b'[i] == b[i];
      } else {
        assert BlendOps(a, b, op).Err?;
      }
    }
  }

  /** The step case of `BlendOpsSpec` when the prefix and the last pair blend. */
  lemma BlendOpsStep(a: Outline, b: Outline, op: BinOp, r: Outline, last: PenOp)
    requires |a| == |b| > 0
    requires BlendOps(a[..|a| - 1], b[..|b| - 1], op) == Ok(r)
    requires BlendsEach(a[..|a| - 1], b[..|b| - 1], op, r)
    requires BlendOp(a[|a| - 1], b[|b| - 1], op) == Ok(last)
    ensures BlendOps(a, b, op) == Ok(r + [last])
    ensures AllBlend(a, b, op) && BlendsEach(a, b, op, r + [last])
  {
    BlendsEachSnoc(a, b, op, r, last);
    BlendsEachAll(a, b, op, r + [last]);
  }

  /** Appending a blended pair extends a call-by-call blend. */
  lemma BlendsEachSnoc(a: Outline, b: Outline, op: BinOp, r: Outline, last: PenOp)
    requires |a| == |b| > 0
    requires BlendsEach(a[..|a| - 1], b[..|b| - 1], op, r)
    requires BlendOp(a[|a| - 1], b[|b| - 1], op) == Ok(last)
    ensures BlendsEach(a, b, op, r + [last])
  {
    var n := |a| - 1;
    var a', b', s := a[..n], b[..n], r + [last];
    forall i | 0 <= i < |a| ensures Ok(s[i]) == BlendOp(a[i], b[i], op) {
      if i < n {
        assert s[i] == r[i] && a'[i] == a[i] && b'[i] == b[i];
      }
    }
  }

  /** A call-by-call blend witnesses that every pair blends. */
  lemma BlendsEachAll(a: Outline, b: Outline, op: BinOp, r: Outline)
    requires |a| == |b| && BlendsEach(a, b, op, r)
    ensures AllBlend(a, b, op)
  {
    forall i | 0 <= i < |a| ensures BlendOp(a[i], b[i], op).Ok? {
      assert Ok(r[i]) == BlendOp(a[i], b[i], op);
    }
  }

  /** A blend succeeds exactly when the recordings have the same length and
      every pair of calls is compatible; the result is the call-by-call blend. */
  lemma BlendedSpec(a: Outline, b: Outline, op: BinOp)
    ensures Blended(a, b, op).Ok? <==> |a| == |b| && AllBlend(a, b, op)
    ensures Blended(a, b, op).Ok? ==> |a| == |b| && BlendsEach(a, b, op, Blended(a, b, op).value)
  {
    if |a| == |b| {
      BlendOpsSpec(a, b, op);
    }
  }

  /** Without components on the left, the pass can only fail on an
      incompatible pair. */
  lemma {:induction false} BlendOpsIncompatible(a: Outline, b: Outline, op: BinOp)
    requires |a| == |b|
    requires forall i | 0 <= i < |a| :: !a[i].AddComponent?
    ensures BlendOps(a, b, op).Err? ==> BlendOps(a, b, op) == Err(IncompatibleOutline)
    decreases |a|
  {
    if |a| > 0 {
      BlendOpsIncompatible(a[..|a| - 1], b[..|b| - 1], op);
    }
  }

  /** The failure conditions: a length mismatch, a method-name mismatch at any
      index, or a segment-type mismatch between two points; and unless the
      left recording holds a component (whose blending trips an assertion),
      every failure is the incompatible-outline error. */
  lemma BlendedFailures(a: Outline, b: Outline, op: BinOp)
    ensures |a| != |b| ==> Blended(a, b, op) == Err(IncompatibleOutline)
    ensures (|a| == |b| && exists i | 0 <= i < |a| :: MethodName(a[i]) != MethodName(b[i])) ==>
              Blended(a, b, op).Err?
    ensures (|a| == |b| && exists i | 0 <= i < |a| ::
               a[i].AddPoint? && b[i].AddPoint? && a[i].segmentType != b[i].segmentType) ==>
              Blended(a, b, op).Err?
    ensures (forall i | 0 <= i < |a| :: !a[i].AddComponent?) && Blended(a, b, op).Err? ==>
              Blended(a, b, op) == Err(IncompatibleOutline)
  {
    BlendedSpec(a, b, op);
    if |a| == |b| && forall i | 0 <= i < |a| :: !a[i].AddComponent? {
      BlendOpsIncompatible(a, b, op);
    }
  }

  /** A successful blend follows the left operand's calls; each point is
      (op(x1, x2), op(y1, y2)) with the left point's segment type, smooth
      flag, name and identifier. */
  lemma BlendedStructure(a: Outline, b: Outline, op: BinOp)
    requires Blended(a, b, op).Ok?
    ensures |Blended(a, b, op).value| == |a| == |b|
    ensures forall i | 0 <= i < |a| ::
              var r := Blended(a, b, op).value[i];
              MethodName(r) == MethodName(a[i]) &&
              (a[i].AddPoint? ==>
                 b[i].AddPoint? &&
                 r == AddPoint(Point(ApplyOp(op, a[i].pt.x, b[i].pt.x), ApplyOp(op, a[i].pt.y, b[i].pt.y)),
                               a[i].segmentType, a[i].smooth, a[i].name, a[i].identifier))
  {
    BlendedSpec(a, b, op);
  }

  /** `(a + b) - b == a` for compatible recordings, provided `a` carries no
      path identifiers (blending re-issues `beginPath` without them). */
  lemma AddThenSubtract(a: Outline, b: Outline)
    requires Blended(a, b, Add).Ok?
    requires forall i | 0 <= i < |a| && a[i].BeginPath? :: a[i].identifier == None
    ensures Blended(Blended(a, b, Add).value, b, Sub) == Ok(a)
  {
    var s := Blended(a, b, Add).value;
    BlendedSpec(a, b, Add);
    assert |s| == |a| == |b|;
    assert forall i | 0 <= i < |a| :: BlendOp(s[i], b[i], Sub) == Ok(a[i]) by {
      forall i | 0 <= i < |a| ensures BlendOp(s[i], b[i], Sub) == Ok(a[i]) {
        assert Ok(s[i]) == BlendOp(a[i], b[i], Add);
      }
    }
    assert AllBlend(s, b, Sub);
    BlendedSpec(s, b, Sub);
    var d := Blended(s, b, Sub).value;
    assert forall i | 0 <= i < |a| :: d[i] == a[i] by {
      forall i | 0 <= i < |a| ensures d[i] == a[i] {
        assert Ok(d[i]) == BlendOp(s[i], b[i], Sub);
      }
    }
    assert d == a;
  }

  /** One call pair: scaling the blend is blending the scaled calls. */
  lemma ScaleDistributesOp(p: PenOp, q: PenOp, scalar: real)
    requires BlendOp(p, q, Add).Ok?
    ensures MapOp(p, ScalePoint(scalar)).Ok? && MapOp(q, ScalePoint(scalar)).Ok?
    ensures BlendOp(MapOp(p, ScalePoint(scalar)).value, MapOp(q, ScalePoint(scalar)).value, Add) ==
              MapOp(BlendOp(p, q, Add).value, ScalePoint(scalar))
  {
    if p.AddPoint? {
      var f := ScalePoint(scalar);
      var x1, y1, x2, y2 := p.pt.x, p.pt.y, q.pt.x, q.pt.y;
      assert f(p.pt) == Point(x1 * scalar, y1 * scalar);
      assert f(q.pt) == Point(x2 * scalar, y2 * scalar);
      assert f(Point(x1 + x2, y1 + y2)) == Point((x1 + x2) * scalar, (y1 + y2) * scalar);
      assert (x1 + x2) * scalar == x1 * scalar + x2 * scalar;
      assert (y1 + y2) * scalar == y1 * scalar + y2 * scalar;
    }
  }

  /** Scaling distributes over addition: `k * (a + b) == k*a + k*b`. */
  lemma ScaleDistributes(a: Outline, b: Outline, scalar: real)
    requires Blended(a, b, Add).Ok?
    ensures Mapped(a, ScalePoint(scalar)).Ok? && Mapped(b, ScalePoint(scalar)).Ok?
    ensures Mapped(Blended(a, b, Add).value, ScalePoint(scalar)).Ok?
    ensures Blended(Mapped(a, ScalePoint(scalar)).value, Mapped(b, ScalePoint(scalar)).value, Add) ==
              Mapped(Blended(a, b, Add).value, ScalePoint(scalar))
  {
    var f := ScalePoint(scalar);
    var s := Blended(a, b, Add).value;
    BlendedSpec(a, b, Add);
    ScaledPairsBlend(a, b, s, scalar);
    var sa, sb, ss := Mapped(a, f).value, Mapped(b, f).value, Mapped(s, f).value;
    BlendsEachAll(sa, sb, Add, ss);
    BlendedSpec(sa, sb, Add);
    BlendsEachUnique(sa, sb, Add, Blended(sa, sb, Add).value, ss);
  }

  /** Scaling a blended pair of recordings call by call blends the scaled pair. */
  lemma ScaledPairsBlend(a: Outline, b: Outline, s: Outline, scalar: real)
    requires |a| == |b| && BlendsEach(a, b, Add, s)
    ensures Mapped(a, ScalePoint(scalar)).Ok? && Mapped(b, ScalePoint(scalar)).Ok?
    ensures Mapped(s, ScalePoint(scalar)).Ok?
    ensures BlendsEach(Mapped(a, ScalePoint(scalar)).value, Mapped(b, ScalePoint(scalar)).value, Add,
                       Mapped(s, ScalePoint(scalar)).value)
  {
    var f := ScalePoint(scalar);
    assert AllSupported(a) && AllSupported(b) && AllSupported(s) by {
      forall i | 0 <= i < |a|
        ensures !a[i].AddComponent? && !b[i].AddComponent? && !s[i].AddComponent?
      {
        assert Ok(s[i]) == BlendOp(a[i], b[i], Add);
      }
    }
    MappedSpec(a, f);
    MappedSpec(b, f);
    MappedSpec(s, f);
    var sa, sb, ss := Mapped(a, f).value, Mapped(b, f).value, Mapped(s, f).value;
    forall i | 0 <= i < |a| ensures Ok(ss[i]) == BlendOp(sa[i], sb[i], Add) {
      assert Ok(s[i]) == BlendOp(a[i], b[i], Add);
      assert Ok(sa[i]) == MapOp(a[i], f) && Ok(sb[i]) == MapOp(b[i], f) && Ok(ss[i]) == MapOp(s[i], f);
      ScaleDistributesOp(a[i], b[i], scalar);
    }
  }

  /** A call-by-call blend is determined by its operands. */
  lemma BlendsEachUnique(a: Outline, b: Outline, op: BinOp, r1: Outline, r2: Outline)
    requires |a| == |b| && BlendsEach(a, b, op, r1) && BlendsEach(a, b, op, r2)
    ensures r1 == r2
  {
    forall i | 0 <= i < |a| ensures r1[i] == r2[i] {
      assert Ok(r1[i]) == BlendOp(a[i], b[i], op) == Ok(r2[i]);
    }
  }
}
