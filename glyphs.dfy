/** Glyph values: deep-component references, the blend arithmetic of
    `Component` and `Glyph`, location clamping, and the records a glyph's lib
    carries (project.py, classes Component and Glyph, `_clampLocation`,
    `_unpackDeepComponent`, `_getVarKey`). */
module Glyphs {
  import opened Common
  import opened MathDict
  import Outlines

  /** `Component(name, coord, transform)`: a reference to another glyph, at a
      design-space coordinate, placed by a transform record. The name is the
      record's "name" entry, which need not be a string. */
  datatype Component = Component(name: Value, coord: Dict, transform: Dict)

  /** The part of a `Glyph` that its arithmetic reads and writes. The result of
      an operation is a fresh `Glyph()` whose lib, location, variations and
      model keep their defaults, so they are not part of the value. */
  datatype GlyphValue = GlyphValue(name: Option<string>, unicodes: seq<int>, width: real,
                                   outline: Outlines.Outline, components: seq<Component>)

  function Min(a: nat, b: nat): nat
  {
    if a <= b then a else b
  }

  // ---------------------------------------------------------------------
  // Component arithmetic

  /** `Component.__add__` / `__sub__`: the left name is kept; the coordinates
      are blended first, then the transform records. */
  function BlendComponent(c1: Component, c2: Component, op: BinOp): (r: Result<Component>)
    ensures r.Ok? ==> r.value.name == c1.name
    ensures r.Ok? ==> r.value.coord.Keys == c1.coord.Keys + c2.coord.Keys &&
                      r.value.transform.Keys == c1.transform.Keys + c2.transform.Keys
    ensures r.Err? ==> r.error == TypeError || r.error == InterpolationError("incompatible dicts")
  {
    match MathDict.Blended(c1.coord, c2.coord, op)
    case Err(e) => Err(e)
    case Ok(coord) =>
      match MathDict.Blended(c1.transform, c2.transform, op)
      case Err(e) => Err(e)
      case Ok(transform) => Ok(Component(c1.name, coord, transform))
  }

  /** `Component.__mul__` / `__rmul__`. */
  function ScaleComponent(c: Component, scalar: real): (r: Component)
    ensures r.name == c.name && r.coord.Keys == c.coord.Keys && r.transform.Keys == c.transform.Keys
    ensures scalar == 1.0 ==> r == c
  {
    Component(c.name, Scaled(c.coord, scalar), Scaled(c.transform, scalar))
  }

  /** `[op(c1, c2) for c1, c2 in zip(a, b)]`: pairs by position, stops at the
      shorter list, and raises at the first pair that does not blend. */
  function BlendComponents(a: seq<Component>, b: seq<Component>, op: BinOp): Result<seq<Component>>
    decreases |a|
  {
    if |a| == 0 || |b| == 0 then Ok([])
    else
      match BlendComponent(a[0], b[0], op)
      case Err(e) => Err(e)
      case Ok(c) =>
        match BlendComponents(a[1..], b[1..], op)
        case Err(e) => Err(e)
        case Ok(rest) => Ok([c] + rest)
  }

  /** `[op(c, scalar) for c in components]`. */
  function ScaleComponents(cs: seq<Component>, scalar: real): seq<Component>
  {
    seq(|cs|, i requires 0 <= i < |cs| => ScaleComponent(cs[i], scalar))
  }

  // ---------------------------------------------------------------------
  // Glyph arithmetic

  /** `Glyph._doBinaryOperator`: name and unicodes from the left operand, the
      operator on the widths, then the outlines, then the components. */
  function BlendGlyph(g1: GlyphValue, g2: GlyphValue, op: BinOp): (r: Result<GlyphValue>)
    ensures r.Ok? ==> r.value.name == g1.name && r.value.unicodes == g1.unicodes
    ensures r.Ok? ==> |r.value.outline| == |g1.outline| == |g2.outline|
    ensures |g1.outline| != |g2.outline| ==> r == Err(Outlines.IncompatibleOutline)
  {
    match Outlines.Blended(g1.outline, g2.outline, op)
    case Err(e) => Err(e)
    case Ok(outline) =>
      match BlendComponents(g1.components, g2.components, op)
      case Err(e) => Err(e)
      case Ok(components) =>
        Ok(GlyphValue(g1.name, g1.unicodes, ApplyOp(op, g1.width, g2.width), outline, components))
  }

  /** `Glyph._doUnaryOperator` with multiplication. */
  function ScaleGlyph(g: GlyphValue, scalar: real): (r: Result<GlyphValue>)
    ensures r.Ok? ==> r.value.name == g.name && r.value.unicodes == g.unicodes
    ensures r.Ok? ==> |r.value.outline| == |g.outline| && |r.value.components| == |g.components|
    ensures r.Err? ==> r == Err(AssertionError)
  {
    match Outlines.Mapped(g.outline, Outlines.ScalePoint(scalar))
    case Err(e) => Err(e)
    case Ok(outline) =>
      Ok(GlyphValue(g.name, g.unicodes, g.width * scalar, outline, ScaleComponents(g.components, scalar)))
  }

  /** Every pair that `zip` forms blends. */
  predicate AllPairsBlend(a: seq<Component>, b: seq<Component>, op: BinOp)
  {
    forall i | 0 <= i < Min(|a|, |b|) :: BlendComponent(a[i], b[i], op).Ok?
  }

  /** `r` holds the blend of each pair that `zip` forms. */
  predicate BlendsPairs(a: seq<Component>, b: seq<Component>, op: BinOp, r: seq<Component>)
  {
    |r| == Min(|a|, |b|) &&
    forall i | 0 <= i < |r| :: Ok(r[i]) == BlendComponent(a[i], b[i], op)
  }

  /** Components are paired by index: the blend succeeds exactly when every
      pair up to the shorter length blends, and then has that many entries,
      each the blend of its pair. Unlike outlines, a length mismatch is not
      an error. */
  lemma {:induction false} BlendComponentsSpec(a: seq<Component>, b: seq<Component>, op: BinOp)
    ensures BlendComponents(a, b, op).Ok? <==> AllPairsBlend(a, b, op)
    ensures BlendComponents(a, b, op).Ok? ==> BlendsPairs(a, b, op, BlendComponents(a, b, op).value)
    decreases |a|
  {
    if |a| > 0 && |b| > 0 {
      BlendComponentsSpec(a[1..], b[1..], op);
      AllPairsCons(a, b, op);
      var first, rest := BlendComponent(a[0], b[0], op), BlendComponents(a[1..], b[1..], op);
      if first.Ok? && rest.Ok? {
        BlendsPairsCons(a, b, op, first.value, rest.value);
      }
    }
  }

  /** Every pair blends exactly when the first does and every later one does. */
  lemma AllPairsCons(a: seq<Component>, b: seq<Component>, op: BinOp)
    requires |a| > 0 && |b| > 0
    ensures AllPairsBlend(a, b, op) <==> BlendComponent(a[0], b[0], op).Ok? && AllPairsBlend(a[1..], b[1..], op)
  {
    var a', b' := a[1..], b[1..];
    assert Min(|a'|, |b'|) + 1 == Min(|a|, |b|);
    if BlendComponent(a[0], b[0], op).Ok? && AllPairsBlend(a', b', op) {
      forall i | 0 <= i < Min(|a|, |b|) ensures BlendComponent(a[i], b[i], op).Ok? {
        if i > 0 {
          assert a'[i - 1] == a[i] && b'[i - 1] == b[i];
        }
      }
    }
    if AllPairsBlend(a, b, op) {
      forall i | 0 <= i < Min(|a'|, |b'|) ensures BlendComponent(a'[i], b'[i], op).Ok? {
        assert a'[i] == a[i + 1] && b'[i] == b[i + 1];
      }
    }
  }

  /** The blend of the first pair followed by the blends of the later ones
      is the blend of every pair. */
  lemma BlendsPairsCons(a: seq<Component>, b: seq<Component>, op: BinOp, c: Component, rest: seq<Component>)
    requires |a| > 0 && |b| > 0
    requires Ok(c) == BlendComponent(a[0], b[0], op)
    requires BlendsPairs(a[1..], b[1..], op, rest)
    ensures BlendsPairs(a, b, op, [c] + rest)
  {
    var a', b', r := a[1..], b[1..], [c] + rest;
    assert Min(|a'|, |b'|) + 1 == Min(|a|, |b|);
    forall i | 0 <= i < |r| ensures Ok(r[i]) == BlendComponent(a[i], b[i], op) {
      if i > 0 {
        assert r[i] == rest[i - 1] && a'[i - 1] == a[i] && b'[i - 1] == b[i];
      }
    }
  }

  /** What a successful glyph blend holds: the left name and unicodes, the
      operator on the widths, the blended outline, and one component per
      position both operands share. It fails exactly when the outlines or
      some shared component position fail. */
  lemma BlendGlyphSpec(g1: GlyphValue, g2: GlyphValue, op: BinOp)
    ensures BlendGlyph(g1, g2, op).Ok? <==>
              Outlines.Blended(g1.outline, g2.outline, op).Ok? && AllPairsBlend(g1.components, g2.components, op)
    ensures BlendGlyph(g1, g2, op).Ok? ==>
              var r := BlendGlyph(g1, g2, op).value;
              r.name == g1.name && r.unicodes == g1.unicodes &&
              r.width == ApplyOp(op, g1.width, g2.width) &&
              Outlines.Blended(g1.outline, g2.outline, op) == Ok(r.outline) &&
              BlendsPairs(g1.components, g2.components, op, r.components)
  {
    BlendComponentsSpec(g1.components, g2.components, op);
  }

  /** Component counts need not agree: `zip` ignores the components beyond
      the shorter list, so the blend is that of the two equally long
      prefixes, failing or not. */
  lemma {:induction false} ComponentsTruncate(a: seq<Component>, b: seq<Component>, op: BinOp)
    ensures BlendComponents(a, b, op) ==
              BlendComponents(a[..Min(|a|, |b|)], b[..Min(|a|, |b|)], op)
    decreases |a|
  {
    var m := Min(|a|, |b|);
    if m > 0 {
      var a', b' := a[..m], b[..m];
      ComponentsTruncate(a[1..], b[1..], op);
      assert a'[1..] == a[1..][..m - 1] && b'[1..] == b[1..][..m - 1];
      assert a'[0] == a[0] && b'[0] == b[0];
      var head, tail := BlendComponent(a[0], b[0], op), BlendComponents(a[1..], b[1..], op);
      var r := if head.Err? then Err(head.error) else if tail.Err? then Err(tail.error)
               else Ok([head.value] + tail.value);
      assert Min(|a[1..]|, |b[1..]|) == m - 1;
      assert tail == BlendComponents(a'[1..], b'[1..], op);
      assert BlendComponents(a, b, op) == r;
      assert BlendComponents(a', b', op) == r;
    }
  }

  /** The two records of a component have the keys of their partners'. */
  predicate SameShape(c1: Component, c2: Component)
  {
    c1.coord.Keys == c2.coord.Keys && c1.transform.Keys == c2.transform.Keys
  }

  /** `(c1 + c2) - c2 == c1` when the records have the same keys. */
  lemma ComponentAddThenSubtract(c1: Component, c2: Component)
    requires SameShape(c1, c2)
    requires BlendComponent(c1, c2, Add).Ok?
    ensures BlendComponent(BlendComponent(c1, c2, Add).value, c2, Sub) == Ok(c1)
  {
    MathDict.AddThenSubtract(c1.coord, c2.coord);
    MathDict.AddThenSubtract(c1.transform, c2.transform);
    MathDict.BlendedEntries(c1.coord, c2.coord, Add);
    MathDict.BlendedEntries(c1.transform, c2.transform, Add);
  }

  /** `(g1 + g2) - g2 == g1` for glyphs with as many components, components of
      the same shape, and an outline without path identifiers (blending
      re-issues `beginPath` without them). */
  lemma GlyphAddThenSubtract(g1: GlyphValue, g2: GlyphValue)
    requires BlendGlyph(g1, g2, Add).Ok?
    requires |g1.components| == |g2.components|
    requires forall i | 0 <= i < |g1.components| :: SameShape(g1.components[i], g2.components[i])
    requires forall i | 0 <= i < |g1.outline| && g1.outline[i].BeginPath? :: g1.outline[i].identifier == None
    ensures BlendGlyph(BlendGlyph(g1, g2, Add).value, g2, Sub) == Ok(g1)
  {
    var s := BlendGlyph(g1, g2, Add).value;
    BlendGlyphSpec(g1, g2, Add);
    Outlines.AddThenSubtract(g1.outline, g2.outline);
    var n := |g1.components|;
    forall i | 0 <= i < n ensures BlendComponent(s.components[i], g2.components[i], Sub) == Ok(g1.components[i]) {
      assert Ok(s.components[i]) == BlendComponent(g1.components[i], g2.components[i], Add);
      ComponentAddThenSubtract(g1.components[i], g2.components[i]);
    }
    BlendGlyphSpec(s, g2, Sub);
    var d := BlendGlyph(s, g2, Sub).value;
    forall i | 0 <= i < n ensures d.components[i] == g1.components[i] {
      assert Ok(d.components[i]) == BlendComponent(s.components[i], g2.components[i], Sub);
    }
    assert d.components == g1.components;
    assert d.width == g1.width;
  }

  /** Scaling a component blend is blending the scaled components. */
  lemma ComponentScaleDistributes(c1: Component, c2: Component, scalar: real)
    requires BlendComponent(c1, c2, Add).Ok?
    ensures BlendComponent(ScaleComponent(c1, scalar), ScaleComponent(c2, scalar), Add) ==
              Ok(ScaleComponent(BlendComponent(c1, c2, Add).value, scalar))
  {
    MathDict.ScaleDistributes(c1.coord, c2.coord, scalar);
    MathDict.ScaleDistributes(c1.transform, c2.transform, scalar);
  }

  /** Scaling a zip of component blends is zipping the scaled lists. */
  lemma ComponentsScaleDistribute(a: seq<Component>, b: seq<Component>, scalar: real)
    requires BlendComponents(a, b, Add).Ok?
    ensures BlendComponents(ScaleComponents(a, scalar), ScaleComponents(b, scalar), Add) ==
              Ok(ScaleComponents(BlendComponents(a, b, Add).value, scalar))
  {
    var s := BlendComponents(a, b, Add).value;
    BlendComponentsSpec(a, b, Add);
    var ka, kb := ScaleComponents(a, scalar), ScaleComponents(b, scalar);
    var n := Min(|a|, |b|);
    forall i | 0 <= i < n
      ensures BlendComponent(ka[i], kb[i], Add) == Ok(ScaleComponent(s[i], scalar))
    {
      assert Ok(s[i]) == BlendComponent(a[i], b[i], Add);
      ComponentScaleDistributes(a[i], b[i], scalar);
    }
    BlendComponentsSpec(ka, kb, Add);
    var r := BlendComponents(ka, kb, Add).value;
    forall i | 0 <= i < n ensures r[i] == ScaleComponent(s[i], scalar) {
      assert Ok(r[i]) == BlendComponent(ka[i], kb[i], Add);
    }
    assert r == ScaleComponents(s, scalar);
  }

  /** Scaling distributes over glyph addition: `k * (g1 + g2) == k*g1 + k*g2`. */
  lemma GlyphScaleDistributes(g1: GlyphValue, g2: GlyphValue, scalar: real)
    requires BlendGlyph(g1, g2, Add).Ok?
    ensures ScaleGlyph(g1, scalar).Ok? && ScaleGlyph(g2, scalar).Ok?
    ensures BlendGlyph(ScaleGlyph(g1, scalar).value, ScaleGlyph(g2, scalar).value, Add) ==
              ScaleGlyph(BlendGlyph(g1, g2, Add).value, scalar)
  {
    var o := Outlines.Blended(g1.outline, g2.outline, Add).value;
    var cs := BlendComponents(g1.components, g2.components, Add).value;
    BlendGlyphOf(g1, g2, Add);
    var s := BlendGlyph(g1, g2, Add).value;
    assert s.width == g1.width + g2.width && s.outline == o && s.components == cs;
    Outlines.ScaleDistributes(g1.outline, g2.outline, scalar);
    ComponentsScaleDistribute(g1.components, g2.components, scalar);
    ScaleGlyphOf(g1, scalar);
    ScaleGlyphOf(g2, scalar);
    ScaleGlyphOf(s, scalar);
    var k1, k2 := ScaleGlyph(g1, scalar).value, ScaleGlyph(g2, scalar).value;
    ScaledWidthsAdd(g1, g2, s, scalar);
    assert ApplyOp(Add, k1.width, k2.width) == ScaleGlyph(s, scalar).value.width;
    assert Outlines.Blended(k1.outline, k2.outline, Add) == Outlines.Mapped(s.outline, Outlines.ScalePoint(scalar));
    assert BlendComponents(k1.components, k2.components, Add) == Ok(ScaleComponents(s.components, scalar));
    BlendGlyphOf(k1, k2, Add);
  }

  /** A glyph blend, field by field, when its outlines and components blend. */
  lemma BlendGlyphOf(g1: GlyphValue, g2: GlyphValue, op: BinOp)
    requires Outlines.Blended(g1.outline, g2.outline, op).Ok?
    requires BlendComponents(g1.components, g2.components, op).Ok?
    ensures BlendGlyph(g1, g2, op) ==
              Ok(GlyphValue(g1.name, g1.unicodes, ApplyOp(op, g1.width, g2.width),
                            Outlines.Blended(g1.outline, g2.outline, op).value,
                            BlendComponents(g1.components, g2.components, op).value))
  {
  }

  /** A glyph scaled, field by field, when its outline can be mapped. */
  lemma ScaleGlyphOf(g: GlyphValue, scalar: real)
    requires Outlines.Mapped(g.outline, Outlines.ScalePoint(scalar)).Ok?
    ensures ScaleGlyph(g, scalar) ==
              Ok(GlyphValue(g.name, g.unicodes, g.width * scalar,
                            Outlines.Mapped(g.outline, Outlines.ScalePoint(scalar)).value,
                            ScaleComponents(g.components, scalar)))
  {
    var o := Outlines.Mapped(g.outline, Outlines.ScalePoint(scalar)).value;
    assert ScaleGlyph(g, scalar).Ok?;
    assert ScaleGlyph(g, scalar).value.outline == o;
    assert ScaleGlyph(g, scalar).value.width == g.width * scalar;
    assert ScaleGlyph(g, scalar).value.components == ScaleComponents(g.components, scalar);
  }

  /** The widths of two scaled glyphs add up to the scaled width of a glyph
      whose width is their sum. */
  lemma ScaledWidthsAdd(g1: GlyphValue, g2: GlyphValue, s: GlyphValue, scalar: real)
    requires s.width == g1.width + g2.width
    requires ScaleGlyph(g1, scalar).Ok? && ScaleGlyph(g2, scalar).Ok? && ScaleGlyph(s, scalar).Ok?
    ensures ScaleGlyph(g1, scalar).value.width + ScaleGlyph(g2, scalar).value.width ==
              ScaleGlyph(s, scalar).value.width
  {
    ScaleGlyphWidth(g1, scalar);
    ScaleGlyphWidth(g2, scalar);
    ScaleGlyphWidth(s, scalar);
    ScaledWidths(s.width, g1.width, g2.width, scalar);
  }

  /** A scaled glyph's width is the width times the scalar. */
  lemma ScaleGlyphWidth(g: GlyphValue, scalar: real)
    ensures ScaleGlyph(g, scalar).Ok? ==> ScaleGlyph(g, scalar).value.width == g.width * scalar
  {
  }

  /** Scaling distributes over the sum of two widths. */
  lemma ScaledWidths(w: real, w1: real, w2: real, scalar: real)
    requires w == w1 + w2
    ensures w1 * scalar + w2 * scalar == w * scalar
  {
  }

  // ---------------------------------------------------------------------
  // Locations

  /** A design-space location: axis name to coordinate. */
  type Location = map<string, real>

  /** `min(1, max(0, v))`. */
  function Clamp01(v: real): real
  {
    if v < 0.0 then 0.0 else if v > 1.0 then 1.0 else v
  }

  /** `_clampLocation`: every coordinate is clamped to [0, 1]; a coordinate
      that is not a number makes `max` raise TypeError. */
  function ClampLocation(d: Dict): (r: Result<Location>)
    ensures r.Ok? <==> forall k | k in d :: d[k].Num?
    ensures r.Err? ==> r.error == TypeError
    ensures r.Ok? ==> r.value.Keys == d.Keys
    ensures r.Ok? ==> forall k | k in d :: 0.0 <= r.value[k] <= 1.0
    ensures r.Ok? ==> forall k | k in d :: 0.0 <= d[k].n <= 1.0 ==> r.value[k] == d[k].n
    ensures r.Ok? ==> forall k | k in d :: (d[k].n < 0.0 ==> r.value[k] == 0.0) && (d[k].n > 1.0 ==> r.value[k] == 1.0)
  {
    if forall k | k in d :: d[k].Num? then Ok(map k | k in d :: Clamp01(d[k].n))
    else Err(TypeError)
  }

  /** Clamping is idempotent. */
  lemma ClampIdempotent(d: Dict)
    requires ClampLocation(d).Ok?
    ensures ClampLocation(map k | k in ClampLocation(d).value :: Num(ClampLocation(d).value[k])) == ClampLocation(d)
  {
    var c := ClampLocation(d).value;
    var d' := map k | k in c :: Num(c[k]);
    assert forall k | k in d' :: d'[k].Num? && Clamp01(d'[k].n) == c[k];
    var c' := ClampLocation(d').value;
    assert c' == c;
  }

  // ---------------------------------------------------------------------
  // Deep-component records

  /** `MathDict(coord)`, i.e. `dict(coord)`: a mapping is copied; a string is
      read as a sequence of key/value pairs, which only the empty string
      satisfies; anything else is not iterable. */
  function AsMapping(v: Value): (r: Result<Dict>)
    ensures v.Table? ==> r == Ok(v.t)
    ensures r.Ok? ==> v.Table? || v == Str("")
  {
    match v
    case Table(t) => Ok(t)
    case Str(s) => if |s| == 0 then Ok(map[]) else Err(ValueError)
    case Num(_) => Err(TypeError)
    case Null => Err(TypeError)
  }

  const CoordKey := "coord"
  const NameKey := "name"

  /** `_unpackDeepComponent`: the name is the "name" entry or None, the
      coordinate is the mandatory "coord" entry, and the transform record is
      every other entry. */
  function UnpackDeepComponent(dc: Dict): (r: Result<Component>)
    ensures CoordKey !in dc ==> r == Err(KeyError(CoordKey))
    ensures r.Ok? <==> CoordKey in dc && AsMapping(dc[CoordKey]).Ok?
    ensures r.Ok? ==> r.value.name == (if NameKey in dc then dc[NameKey] else Null)
    ensures r.Ok? ==> Ok(r.value.coord) == AsMapping(dc[CoordKey])
    ensures r.Ok? ==> r.value.transform.Keys == dc.Keys - {CoordKey, NameKey}
    ensures r.Ok? ==> forall k | k in r.value.transform :: r.value.transform[k] == dc[k]
  {
    var name := if NameKey in dc then dc[NameKey] else Null;
    if CoordKey !in dc then Err(KeyError(CoordKey))
    else
      match AsMapping(dc[CoordKey])
      case Err(e) => Err(e)
      case Ok(coord) =>
        Ok(Component(name, coord, map k | k in dc && k != CoordKey && k != NameKey :: dc[k]))
  }

  /** The components a list of records unpacks to, in record order, or the
      first record's error. */
  function UnpackAll(dcs: seq<Dict>): Result<seq<Component>>
    decreases |dcs|
  {
    if |dcs| == 0 then Ok([])
    else
      match UnpackAll(dcs[..|dcs| - 1])
      case Err(e) => Err(e)
      case Ok(init) =>
        match UnpackDeepComponent(dcs[|dcs| - 1])
        case Err(e) => Err(e)
        case Ok(last) => Ok(init + [last])
  }

  /** Unpacking a list keeps its order: it succeeds exactly when every record
      unpacks, and then the i-th component comes from the i-th record. */
  lemma {:induction false} UnpackAllSpec(dcs: seq<Dict>)
    ensures UnpackAll(dcs).Ok? <==> forall i | 0 <= i < |dcs| :: UnpackDeepComponent(dcs[i]).Ok?
    ensures UnpackAll(dcs).Ok? ==>
              |UnpackAll(dcs).value| == |dcs| &&
              forall i | 0 <= i < |dcs| :: Ok(UnpackAll(dcs).value[i]) == UnpackDeepComponent(dcs[i])
    decreases |dcs|
  {
    if |dcs| > 0 {
      var n := |dcs| - 1;
      var init := dcs[..n];
      UnpackAllSpec(init);
      var last := UnpackDeepComponent(dcs[n]);
      if UnpackAll(init).Ok? && last.Ok? {
        var r := UnpackAll(init).value + [last.value];
        assert UnpackAll(dcs) == Ok(r);
        forall i | 0 <= i < |dcs| ensures Ok(r[i]) == UnpackDeepComponent(dcs[i]) {
          if i < n {
            assert init[i] == dcs[i];
          }
        }
      } else if UnpackAll(init).Err? {
        var i :| 0 <= i < n && !UnpackDeepComponent(init[i]).Ok?;
        assert init[i] == dcs[i];
      }
    }
  }

  /** Once a prefix fails, the whole list fails with the same error. */
  lemma {:induction false} UnpackErrorPersists(dcs: seq<Dict>, j: nat, e: Error)
    requires j <= |dcs| && UnpackAll(dcs[..j]) == Err(e)
    ensures UnpackAll(dcs) == Err(e)
    decreases |dcs| - j
  {
    if j < |dcs| {
      assert dcs[..j + 1][..j] == dcs[..j];
      UnpackErrorPersists(dcs, j + 1, e);
    } else {
      assert dcs[..j] == dcs;
    }
  }

  // ---------------------------------------------------------------------
  // The glyph lib

  /** One entry of a variation-glyph table: the axis it varies, its
      "layerName" entry and its "content" mapping (whose "deepComponents"
      entry lists the layer's component records). */
  datatype VarDecl = VarDecl(axis: string, layerName: Option<string>,
                             content: Option<map<string, seq<Dict>>>)

  /** The lib entries the engine reads: "robocjk.deepComponents" and the two
      variation-glyph tables, each in the order the lib lists them. */
  datatype Lib = Lib(deepComponents: Option<seq<Dict>>,
                     fontVariationGlyphs: Option<seq<VarDecl>>,
                     glyphVariationGlyphs: Option<seq<VarDecl>>)

  const EmptyLib := Lib(None, None, None)

  datatype VarKey = FontVariationGlyphs | GlyphVariationGlyphs

  /** `_getVarKey`: "robocjk.fontVariationGlyphs" wins over
      "robocjk.glyphVariationGlyphs"; with neither there is no key. */
  function GetVarKey(lib: Lib): (r: Option<VarKey>)
    ensures r.None? <==> lib.fontVariationGlyphs.None? && lib.glyphVariationGlyphs.None?
    ensures lib.fontVariationGlyphs.Some? ==> r == Some(FontVariationGlyphs)
    ensures r == Some(GlyphVariationGlyphs) ==> lib.fontVariationGlyphs.None? && lib.glyphVariationGlyphs.Some?
  {
    if lib.fontVariationGlyphs.Some? then Some(FontVariationGlyphs)
    else if lib.glyphVariationGlyphs.Some? then Some(GlyphVariationGlyphs)
    else None
  }

  /** `lib[varKey]` for the key `GetVarKey` chose. */
  function VarDecls(lib: Lib, key: VarKey): seq<VarDecl>
    requires GetVarKey(lib) == Some(key)
  {
    match key
    case FontVariationGlyphs => lib.fontVariationGlyphs.value
    case GlyphVariationGlyphs => lib.glyphVariationGlyphs.value
  }

  /** `lib.get("robocjk.deepComponents", [])`. */
  function OwnRecords(lib: Lib): seq<Dict>
  {
    if lib.deepComponents.Some? then lib.deepComponents.value else []
  }

  // ---------------------------------------------------------------------
  // Sources and the variation model

  /** What `parseGlyph` reads from a .glif file. */
  datatype Source = Source(name: string, width: real, unicodes: seq<int>,
                           outline: Outlines.Outline, lib: Lib)

  /** A glyph-set directory: its .glif files by glyph name, and its
      sub-directories (the layers) by name. */
  datatype Dir = Dir(files: map<string, Source>, subdirs: map<string, Dir>)

  /** The directory `path / layerName`; a missing one holds nothing. */
  function SubDir(d: Dir, layerName: string): (r: Dir)
    ensures layerName !in d.subdirs ==> r.files == map[] && r.subdirs == map[]
  {
    if layerName in d.subdirs then d.subdirs[layerName] else Dir(map[], map[])
  }

  /** A layer that holds a file is a proper part of its parent directory. */
  lemma SubDirSmaller(d: Dir, layerName: string)
    requires SubDir(d, layerName).files != map[]
    ensures SubDir(d, layerName) < d
  {
    assert layerName in d.subdirs;
    assert d.subdirs[layerName] in d.subdirs.Values;
  }

  /** fontTools' `VariationModel`, seen from outside: whether it accepts a
      list of master locations, `getDeltas` over the masters, and
      `interpolateFromDeltas` at a location. The last two do glyph arithmetic
      and can fail like it. */
  datatype ModelOps = ModelOps(
    accepts: seq<Location> -> bool,
    getDeltas: (seq<Location>, seq<GlyphValue>) -> Result<seq<GlyphValue>>,
    interpolateFromDeltas: (seq<Location>, Location, seq<GlyphValue>) -> Result<GlyphValue>)

  /** The interpolation `instantiate` performs once the deltas exist: clamp
      the location, then interpolate. */
  function Interpolated(varLib: ModelOps, locations: seq<Location>, deltas: seq<GlyphValue>,
                        location: Dict): (r: Result<GlyphValue>)
    ensures ClampLocation(location).Err? ==> r == Err(TypeError)
    ensures ClampLocation(location).Ok? ==>
              r == varLib.interpolateFromDeltas(locations, ClampLocation(location).value, deltas)
  {
    match ClampLocation(location)
    case Err(e) => Err(e)
    case Ok(loc) => varLib.interpolateFromDeltas(locations, loc, deltas)
  }
}
