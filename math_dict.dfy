/** `MathDict`: a dictionary whose numeric entries are blended arithmetically
    and whose other entries must agree (project.py, class MathDict). It holds
    a component's design-space coordinate and its transform record. */
module MathDict {
  import opened Common

  /** A dictionary entry: the numbers `isinstance(v, (int, float))` accepts,
      and the opaque values (strings, nested mappings, None) it rejects. */
  datatype Value = Num(n: real) | Str(s: string) | Table(t: map<string, Value>) | Null

  type Dict = map<string, Value>

  /** Unary entry rule: numbers are multiplied, everything else passes through. */
  function ScaleValue(v: Value, scalar: real): Value
  {
    if v.Num? then Num(v.n * scalar) else v
  }

  /** `d * scalar`. */
  function Scaled(d: Dict, scalar: real): (r: Dict)
    ensures r.Keys == d.Keys
    ensures forall k | k in d :: r[k].Num? == d[k].Num?
    ensures scalar == 1.0 ==> r == d
  {
    map k | k in d :: ScaleValue(d[k], scalar)
  }

  /** Binary entry rule: a number is combined with the operator (and a
      non-number on the right makes Python's operator raise TypeError);
      a non-number must equal its partner and is kept. */
  function CombineValues(v1: Value, v2: Value, op: BinOp): Result<Value>
  {
    if v1.Num? then
      if v2.Num? then Ok(Num(ApplyOp(op, v1.n, v2.n))) else Err(TypeError)
    else if v1 != v2 then Err(InterpolationError("incompatible dicts"))
    else Ok(v1)
  }

  predicate Combinable(v1: Value, v2: Value)
  {
    if v1.Num? then v2.Num? else v1 == v2
  }

  /** `a + b` / `a - b`. Every key of either operand is visited; the left entry
      prefers `a` and the right entry prefers `b`, so a key present in only one
      operand is combined with itself. When several keys fail, Python raises
      for the first one in dictionary order; this function reports the
      InterpolationError whenever some non-numeric entry disagrees. */
  function Blended(a: Dict, b: Dict, op: BinOp): (r: Result<Dict>)
    ensures r.Ok? ==> r.value.Keys == a.Keys + b.Keys
    ensures r.Err? ==> r.error == TypeError || r.error == InterpolationError("incompatible dicts")
    // `d + d` doubles every number and keeps everything else
    ensures a == b && op == Add ==> r == Ok(Scaled(a, 2.0))
  {
    SelfSum(a);
    CombineViews(b + a, a + b, op)
  }

  /** Adding a dictionary to itself combines every key with itself. */
  lemma SelfSum(d: Dict)
    ensures CombineViews(d + d, d + d, Add) == Ok(Scaled(d, 2.0))
  {
    assert d + d == d;
    forall k | k in d ensures Combinable(d[k], d[k]) {
    }
    var r := map k | k in d :: CombineValues(d[k], d[k], Add).value;
    assert CombineViews(d, d, Add) == Ok(r);
    forall k | k in d ensures r[k] == ScaleValue(d[k], 2.0) {
      if d[k].Num? {
        assert r[k] == Num(d[k].n + d[k].n);
      }
    }
    assert r == Scaled(d, 2.0);
  }

  /** The key-by-key pass over the two merged views `self_other` and `other_self`. */
  function CombineViews(selfOther: Dict, otherSelf: Dict, op: BinOp): Result<Dict>
    requires selfOther.Keys == otherSelf.Keys
  {
    if forall k | k in selfOther :: Combinable(selfOther[k], otherSelf[k]) then
      Ok(map k | k in selfOther :: CombineValues(selfOther[k], otherSelf[k], op).value)
    else if exists k | k in selfOther :: !selfOther[k].Num? && selfOther[k] != otherSelf[k] then
      Err(InterpolationError("incompatible dicts"))
    else
      Err(TypeError)
  }

  /** `MathDict._doUnaryOperator`, filling the result entry by entry. */
  method DoUnaryOperator(d: Dict, scalar: real) returns (r: Dict)
    ensures r == Scaled(d, scalar)
    ensures r.Keys == d.Keys
    ensures forall k | k in d :: if d[k].Num? then r[k] == Num(d[k].n * scalar) else r[k] == d[k]
  {
    r := map[];
    var todo := d.Keys;
    while todo != {}
      invariant todo <= d.Keys
      invariant r.Keys == d.Keys - todo
      invariant forall k | k in r :: r[k] == ScaleValue(d[k], scalar)
      decreases todo
    {
      var k :| k in todo;
      var v := d[k];
      if v.Num? {
        r := r[k := Num(v.n * scalar)];
      } else {
        r := r[k := v];
      }
      todo := todo - {k};
    }
  }

  /** `MathDict._doBinaryOperator`: builds the two merged views, then fills the
      result key by key, stopping at the first key that cannot be combined. */
  method DoBinaryOperator(a: Dict, b: Dict, op: BinOp) returns (r: Result<Dict>)
    ensures r.Ok? <==> Blended(a, b, op).Ok?
    ensures r.Ok? ==> r == Blended(a, b, op)
    ensures r.Err? ==> exists k | k in a.Keys + b.Keys ::
                         CombineValues((b + a)[k], (a + b)[k], op) == Err(r.error)
  {
    var selfOther := b + a;
    var otherSelf := a + b;
    var result: Dict := map[];
    var todo := selfOther.Keys;
    while todo != {}
      invariant todo <= selfOther.Keys
      invariant result.Keys == selfOther.Keys - todo
      invariant forall k | k in result :: CombineValues(selfOther[k], otherSelf[k], op) == Ok(result[k])
      decreases todo
    {
      var k :| k in todo;
      var c := CombineValues(selfOther[k], otherSelf[k], op);
      if c.Err? {
        assert !Combinable(selfOther[k], otherSelf[k]);
        return Err(c.error);
      }
      result := result[k := c.value];
      todo := todo - {k};
    }
    assert forall k | k in selfOther :: Combinable(selfOther[k], otherSelf[k]) by {
      forall k | k in selfOther ensures Combinable(selfOther[k], otherSelf[k]) {
        assert k in result;
      }
    }
    var expected := map k | k in selfOther :: CombineValues(selfOther[k], otherSelf[k], op).value;
    assert result == expected;
    r := Ok(result);
  }

  /** What a successful blend contains: exactly the union of the keys; a shared
      key combines the two entries; a one-sided key is combined with itself. */
  lemma BlendedEntries(a: Dict, b: Dict, op: BinOp)
    requires Blended(a, b, op).Ok?
    ensures Blended(a, b, op).value.Keys == a.Keys + b.Keys
    ensures forall k | k in a && k in b :: CombineValues(a[k], b[k], op) == Ok(Blended(a, b, op).value[k])
    ensures forall k | k in a && k !in b :: CombineValues(a[k], a[k], op) == Ok(Blended(a, b, op).value[k])
    ensures forall k | k !in a && k in b :: CombineValues(b[k], b[k], op) == Ok(Blended(a, b, op).value[k])
  {
  }

  /** A numeric key held by one operand only doubles under addition and
      vanishes under subtraction. */
  lemma OneSidedKey(a: Dict, b: Dict, op: BinOp, k: string)
    requires Blended(a, b, op).Ok?
    requires k in a && k !in b && a[k].Num?
    ensures Blended(a, b, op).value[k] == Num(if op == Add then 2.0 * a[k].n else 0.0)
  {
    BlendedEntries(a, b, op);
  }

  /** The blend fails exactly when some key's two entries cannot be combined.
      When the only failing keys hold two unequal non-numeric entries, the
      error is InterpolationError; when the only failing keys hold a number
      on the left and a non-number on the right, it is TypeError. */
  lemma BlendedFailure(a: Dict, b: Dict, op: BinOp)
    ensures Blended(a, b, op).Err? <==>
              exists k | k in a.Keys + b.Keys :: !Combinable((b + a)[k], (a + b)[k])
    ensures (exists k | k in a && k in b :: !a[k].Num? && a[k] != b[k]) &&
            (forall k | k in a && k in b && a[k].Num? :: b[k].Num?) ==>
              Blended(a, b, op) == Err(InterpolationError("incompatible dicts"))
    ensures (exists k | k in a && k in b :: a[k].Num? && !b[k].Num?) &&
            (forall k | k in a && k in b && !a[k].Num? :: a[k] == b[k]) ==>
              Blended(a, b, op) == Err(TypeError)
  {
    if exists k | k in a && k in b :: !a[k].Num? && a[k] != b[k] {
      var k :| k in a && k in b && !a[k].Num? && a[k] != b[k];
      assert (b + a)[k] == a[k] && (a + b)[k] == b[k];
    }
    if exists k | k in a && k in b :: a[k].Num? && !b[k].Num? {
      var k :| k in a && k in b && a[k].Num? && !b[k].Num?;
      assert (b + a)[k] == a[k] && (a + b)[k] == b[k];
      if forall k | k in a && k in b && !a[k].Num? :: a[k] == b[k] {
        forall j | j in a.Keys + b.Keys && !(b + a)[j].Num?
          ensures (b + a)[j] == (a + b)[j]
        {
          if j in a && j in b {
            assert (b + a)[j] == a[j] && (a + b)[j] == b[j];
          }
        }
      }
    }
  }

  /** Subtracting what was added gives the left operand back when both
      operands have the same keys. */
  lemma {:induction false} AddThenSubtract(a: Dict, b: Dict)
    requires a.Keys == b.Keys
    requires Blended(a, b, Add).Ok?
    ensures Blended(Blended(a, b, Add).value, b, Sub) == Ok(a)
  {
    var s := Blended(a, b, Add).value;
    BlendedEntries(a, b, Add);
    assert forall k | k in s :: Combinable((b + s)[k], (s + b)[k]) by {
      forall k | k in s ensures Combinable((b + s)[k], (s + b)[k]) {
        assert (b + s)[k] == s[k] && (s + b)[k] == b[k];
        assert CombineValues(a[k], b[k], Add) == Ok(s[k]);
      }
    }
    var d := Blended(s, b, Sub).value;
    assert d.Keys == a.Keys;
    forall k | k in a ensures d[k] == a[k] {
      assert (b + s)[k] == s[k] && (s + b)[k] == b[k];
      assert CombineValues(a[k], b[k], Add) == Ok(s[k]);
    }
    assert d == a;
  }

  /** Merging two dictionaries commutes with scaling them. */
  lemma ScaledMerge(a: Dict, b: Dict, scalar: real)
    ensures Scaled(a, scalar) + Scaled(b, scalar) == Scaled(a + b, scalar)
  {
  }

  /** One key: combining scaled entries is scaling the combined entry. */
  lemma CombineScaled(v1: Value, v2: Value, scalar: real)
    requires Combinable(v1, v2)
    ensures CombineValues(v1, v2, Add).Ok?
    ensures CombineValues(ScaleValue(v1, scalar), ScaleValue(v2, scalar), Add) ==
              Ok(ScaleValue(CombineValues(v1, v2, Add).value, scalar))
  {
    if v1.Num? {
      var x, y := v1.n, v2.n;
      assert CombineValues(v1, v2, Add) == Ok(Num(x + y));
      assert ScaleValue(v1, scalar) == Num(x * scalar) && ScaleValue(v2, scalar) == Num(y * scalar);
      assert CombineValues(Num(x * scalar), Num(y * scalar), Add) == Ok(Num(x * scalar + y * scalar));
      assert x * scalar + y * scalar == (x + y) * scalar;
      assert ScaleValue(Num(x + y), scalar) == Num((x + y) * scalar);
    }
  }

  /** Scaling both merged views scales the combined result. */
  lemma {:induction false} CombineViewsScaled(so: Dict, os: Dict, scalar: real)
    requires so.Keys == os.Keys
    ensures CombineViews(Scaled(so, scalar), Scaled(os, scalar), Add) ==
              match CombineViews(so, os, Add)
              case Ok(r) => Ok(Scaled(r, scalar))
              case Err(e) => Err(e)
  {
    var sso, sos := Scaled(so, scalar), Scaled(os, scalar);
    assert forall k | k in so :: Combinable(sso[k], sos[k]) == Combinable(so[k], os[k]);
    if CombineViews(so, os, Add).Ok? {
      var r := CombineViews(so, os, Add).value;
      var r' := CombineViews(sso, sos, Add).value;
      forall k | k in r ensures r'[k] == ScaleValue(r[k], scalar) {
        assert Combinable(so[k], os[k]);
        CombineScaled(so[k], os[k], scalar);
        assert CombineValues(sso[k], sos[k], Add) == Ok(r'[k]);
        assert CombineValues(so[k], os[k], Add) == Ok(r[k]);
      }
      assert r' == Scaled(r, scalar);
    } else {
      assert (exists k | k in so :: !so[k].Num? && so[k] != os[k]) ==
             (exists k | k in sso :: !sso[k].Num? && sso[k] != sos[k]);
    }
  }

  /** Scaling distributes over addition: `k * (a + b) == k*a + k*b`, and one
      side fails exactly when the other does, with the same error. */
  lemma {:induction false} ScaleDistributes(a: Dict, b: Dict, scalar: real)
    ensures Blended(Scaled(a, scalar), Scaled(b, scalar), Add) ==
              match Blended(a, b, Add)
              case Ok(r) => Ok(Scaled(r, scalar))
              case Err(e) => Err(e)
  {
    ScaledMerge(b, a, scalar);
    ScaledMerge(a, b, scalar);
    CombineViewsScaled(b + a, a + b, scalar);
  }
}
