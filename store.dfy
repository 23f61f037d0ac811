/** The glyph store: `GlyphSet`, which caches parsed glyphs and layer
    sub-stores, and the `Glyph` objects it hands out, whose variation masters
    are assembled right after parsing and whose deltas are computed on first
    use (project.py, classes GlyphSet and Glyph). */
module Store {
  import opened Common
  import opened MathDict
  import Outlines
  import opened Glyphs

  const LayerNameKey := "layerName"
  const ContentKey := "content"
  const DeepComponentsKey := "deepComponents"

  /** The location of each glyph, in order. */
  function Locations(vs: seq<Glyph>): (r: seq<Location>)
    reads vs
    ensures |r| == |vs| && forall i | 0 <= i < |vs| :: r[i] == vs[i].location
    decreases |vs|
  {
    if |vs| == 0 then [] else Locations(vs[..|vs| - 1]) + [vs[|vs| - 1].location]
  }

  /** The value of each glyph, in order: the masters `getDeltas` receives. */
  function Values(vs: seq<Glyph>): (r: seq<GlyphValue>)
    reads vs
    ensures |r| == |vs| && forall i | 0 <= i < |vs| :: r[i] == vs[i].Value()
    decreases |vs|
  {
    if |vs| == 0 then [] else Values(vs[..|vs| - 1]) + [vs[|vs| - 1].Value()]
  }

  /** The `_postParse` pass for `decl` reads its master from a layer file:
      the neutral outline of `src` is not empty and the layer directory
      holds a file of the glyph's name. */
  ghost predicate ReadsLayer(d: Dir, src: Source, decl: VarDecl)
  {
    decl.layerName.Some? && !Outlines.IsEmpty(src.outline) && src.name in SubDir(d, decl.layerName.value).files
  }

  /** What can make the `_postParse` pass for `decl` fail on the file `src`
      of directory `d`, whose neutral has `count` components: no
      "layerName"; a master read from a layer file (whose own assembly may
      fail, and whose components as the layer caches them decide the count);
      no "content" or no "deepComponents"; a record that does not unpack;
      or, for a made-up master, a number of records other than `count`. */
  ghost predicate PassFaults(d: Dir, src: Source, decl: VarDecl, count: nat)
  {
    decl.layerName.None? || ReadsLayer(d, src, decl) ||
    decl.content.None? || DeepComponentsKey !in decl.content.value ||
    UnpackAll(decl.content.value[DeepComponentsKey]).Err? ||
    |UnpackAll(decl.content.value[DeepComponentsKey]).value| != count
  }

  /** `{axis: 1.0}` for each declared axis, in order. */
  function AxisLocations(decls: seq<VarDecl>): seq<Location>
  {
    seq(|decls|, i requires 0 <= i < |decls| => map[decls[i].axis := 1.0])
  }

  /** When each master not read from a layer file sits at its axis, either
      some pass reads a layer file or the masters sit at the axes'
      locations. */
  lemma AxesLocated(vs: seq<Glyph>, d: Dir, src: Source, decls: seq<VarDecl>)
    requires |vs| == |decls|
    requires forall i | 0 <= i < |decls| && !ReadsLayer(d, src, decls[i]) :: vs[i].location == map[decls[i].axis := 1.0]
    ensures (exists i | 0 <= i < |decls| :: ReadsLayer(d, src, decls[i])) || Locations(vs) == AxisLocations(decls)
  {
    if forall i | 0 <= i < |decls| :: !ReadsLayer(d, src, decls[i]) {
      assert forall i | 0 <= i < |decls| :: Locations(vs)[i] == AxisLocations(decls)[i];
    }
  }

  /** What can make `_postParse` fail on the file `src` of directory `d`:
      the neutral's records do not unpack; or it declares variation glyphs
      and some pass may fail, or the variation model rejects `{}` followed
      by the axes' locations. */
  ghost predicate AssemblyFaults(d: Dir, src: Source, varLib: ModelOps)
  {
    var own := UnpackAll(OwnRecords(src.lib));
    own.Err? ||
    (GetVarKey(src.lib).Some? &&
     var decls := VarDecls(src.lib, GetVarKey(src.lib).value);
     (exists j | 0 <= j < |decls| :: PassFaults(d, src, decls[j], |own.value|)) ||
     !varLib.accepts([map[]] + AxisLocations(decls)))
  }

  /** What can make `getGlyph(n).instantiate(location)` fail on the store of
      directory `d`: there is no file, the file does not assemble, or it
      declares variation glyphs, so that the instance comes from the
      variation model (`getDeltas`, the clamp of the location and
      `interpolateFromDeltas` may each raise). */
  ghost predicate LoadFaults(d: Dir, n: string, varLib: ModelOps)
  {
    n !in d.files || AssemblyFaults(d, d.files[n], varLib) || GetVarKey(d.files[n].lib).Some?
  }

  /** A glyph file whose own records unpack and that declares no variation
      glyphs is one `getGlyph(n).instantiate(location)` cannot fail on. */
  lemma PlainFileLoads(d: Dir, n: string, varLib: ModelOps)
    requires n in d.files && UnpackAll(OwnRecords(d.files[n].lib)).Ok? && GetVarKey(d.files[n].lib).None?
    ensures !LoadFaults(d, n, varLib)
  {
  }

  class Glyph {
    const name: Option<string>
    const width: real
    const unicodes: seq<int>
    const outline: Outlines.Outline
    const lib: Lib
    var components: seq<Component>
    var location: Location
    var variations: seq<Glyph>
    var model: Option<seq<Location>>
    var deltas: Option<seq<GlyphValue>>

    /** The state of a glyph before `_postParse`: no components, the neutral
        location, no variations, no model, no deltas. */
    predicate Unassembled()
      reads this
    {
      components == [] && location == map[] && variations == [] && model == None && deltas == None
    }

    /** What a successful `_postParse` leaves: the components are the lib's
        own records, unpacked, there is a variation model exactly when the
        lib declares variation glyphs, and no deltas are computed yet. */
    ghost predicate Assembled()
      reads this
    {
      UnpackAll(OwnRecords(lib)) == Ok(components) && (GetVarKey(lib).None? <==> model.None?) && deltas == None
    }

    /** `Glyph()`. */
    constructor Empty()
      ensures name == None && width == 0.0 && unicodes == [] && outline == [] && lib == EmptyLib
      ensures Unassembled()
    {
      name, width, unicodes, outline, lib := None, 0.0, [], [], EmptyLib;
      components, location, variations, model, deltas := [], map[], [], None, None;
    }

    /** A made-up layer glyph: `Glyph()` given the neutral's width and outline. */
    constructor Synthesized(w: real, o: Outlines.Outline)
      ensures name == None && width == w && unicodes == [] && outline == o && lib == EmptyLib
      ensures Unassembled()
    {
      name, width, unicodes, outline, lib := None, w, [], o, EmptyLib;
      components, location, variations, model, deltas := [], map[], [], None, None;
    }

    /** `parseGlyph`: a glyph holding what its file holds. */
    constructor Parsed(src: Source)
      ensures name == Some(src.name) && width == src.width && unicodes == src.unicodes
      ensures outline == src.outline && lib == src.lib
      ensures Unassembled()
    {
      name, width, unicodes, outline, lib := Some(src.name), src.width, src.unicodes, src.outline, src.lib;
      components, location, variations, model, deltas := [], map[], [], None, None;
    }

    /** What the glyph arithmetic sees of this glyph. */
    function Value(): GlyphValue
      reads this
    {
      GlyphValue(name, unicodes, width, outline, components)
    }

    /** The file contents a named glyph was parsed from, as its fields hold them. */
    function Src(): Source
      requires name.Some?
    {
      Source(name.value, width, unicodes, outline, lib)
    }

    /** `for dc in dcs: self.components.append(_unpackDeepComponent(dc))`. */
    method AppendComponents(dcs: seq<Dict>) returns (s: Status)
      modifies this
      ensures s.Success? <==> UnpackAll(dcs).Ok?
      ensures s.Success? ==> components == old(components) + UnpackAll(dcs).value
      ensures s.Failure? ==> s == Failure(UnpackAll(dcs).error)
      ensures location == old(location) && variations == old(variations)
      ensures model == old(model) && deltas == old(deltas)
    {
      var i := 0;
      while i < |dcs|
        invariant 0 <= i <= |dcs|
        invariant UnpackAll(dcs[..i]).Ok? && components == old(components) + UnpackAll(dcs[..i]).value
        invariant location == old(location) && variations == old(variations)
        invariant model == old(model) && deltas == old(deltas)
      {
        assert dcs[..i + 1][..i] == dcs[..i];
        var c := UnpackDeepComponent(dcs[i]);
        if c.Err? {
          UnpackErrorPersists(dcs, i + 1, c.error);
          return Failure(c.error);
        }
        components := components + [c.value];
        i := i + 1;
      }
      assert dcs[..|dcs|] == dcs;
      s := Success;
    }

    /** The glyph holds what the file `src` holds, as `parseGlyph` reads it. */
    ghost predicate ParsedFrom(src: Source)
    {
      name == Some(src.name) && width == src.width && unicodes == src.unicodes &&
      outline == src.outline && lib == src.lib
    }

    /** What the master for layer `l` holds: with an empty neutral outline,
        nothing (a fresh `Glyph()`); otherwise the layer's file of the same
        name when there is one, and the neutral's width and outline under no
        name when there is none. */
    ghost predicate MasterSource(store: GlyphSet, l: string, v: Glyph)
      requires name.Some?
    {
      if Outlines.IsEmpty(outline) then
        v.name == None && v.width == 0.0 && v.outline == []
      else if name.value in SubDir(store.dir, l).files then
        v.ParsedFrom(SubDir(store.dir, l).files[name.value])
      else
        v.name == None && v.width == width && v.outline == outline
    }

    /** The first `j` variation masters as `_postParse` builds them: one per
        declared axis, in order, each holding what `MasterSource` says. */
    ghost predicate MastersBuilt(store: GlyphSet, decls: seq<VarDecl>, j: nat)
      requires name.Some? && j <= |decls|
      reads this
    {
      |variations| == j &&
      forall i | 0 <= i < j ::
        decls[i].layerName.Some? && MasterSource(store, decls[i].layerName.value, variations[i])
    }

    /** Every master has as many components as the neutral. */
    ghost predicate MastersCounted()
      reads this, variations
    {
      forall i | 0 <= i < |variations| :: |variations[i].components| == |components|
    }

    /** Every master is either a glyph that no layer of `store` holds, or a
        glyph cached at the top of one of its layers. */
    ghost predicate MastersKept(store: GlyphSet)
      reads this, store
    {
      forall i | 0 <= i < |variations| :: variations[i] !in store.Below || variations[i] in store.Tops
    }

    /** One step of the `_postParse` loop: the master glyph for layer `l`.
        With an empty neutral outline it is a fresh `Glyph()`; otherwise the
        layer store is fetched (and created if need be) and, when the layer
        has a file of the same name, that glyph is loaded through the layer's
        cache (so it is the very object cached there), and otherwise a fresh
        glyph is made up from the neutral's width and outline. */
    method FetchMaster(store: GlyphSet, l: string, varLib: ModelOps) returns (r: Result<Glyph>)
      requires store.Valid() && name.Some?
      requires this !in store.Below
      modifies store.Repr, store.Below
      decreases store.dir, 2
      ensures store.Valid()
      ensures old(store.Repr) <= store.Repr && fresh(store.Repr - old(store.Repr))
      ensures old(store.Below) <= store.Below && fresh(store.Below - old(store.Below))
      ensures this !in store.Below
      ensures store.glyphs == old(store.glyphs)
      ensures !Outlines.IsEmpty(outline) ==> l in store.layers
      ensures r.Ok? ==> MasterSource(store, l, r.value) && r.value != this
      ensures r.Ok? ==> r.value in store.Below || fresh(r.value)
      ensures r.Ok? && !Outlines.IsEmpty(outline) && name.value in SubDir(store.dir, l).files ==>
                name.value in store.layers[l].glyphs && r.value == store.layers[l].glyphs[name.value]
      ensures r.Ok? && (Outlines.IsEmpty(outline) || name.value !in SubDir(store.dir, l).files) ==>
                fresh(r.value) && r.value !in store.Below
      ensures r.Err? ==> !Outlines.IsEmpty(outline) && name.value in SubDir(store.dir, l).files
      ensures r.Err? ==>
                (l in old(store.layers) ==> name.value !in old(store.layers[l].glyphs)) &&
                AssemblyFaults(SubDir(store.dir, l), SubDir(store.dir, l).files[name.value], varLib)
      ensures r.Ok? && (Outlines.IsEmpty(outline) || name.value !in SubDir(store.dir, l).files) ==>
                r.value.components == []
      ensures old(store.Tops) <= store.Tops && unchanged(old(store.Tops))
      ensures r.Ok? ==> r.value in store.Tops || (fresh(r.value) && r.value !in store.Below)
    {
      if Outlines.IsEmpty(outline) {
        var g := new Glyph.Empty();
        r := Ok(g);
      } else {
        var layer := store.GetLayer(l);
        layer.ContainsSpec(name.value);
        if !layer.Contains(name.value) {
          var g := new Glyph.Synthesized(width, outline);
          r := Ok(g);
        } else {
          r := store.GetLayerGlyph(l, name.value, varLib);
        }
      }
    }

    /** The rest of a `_postParse` pass on the master: it is moved to
        `{axis: 1.0}`, the component records under `content` /
        `deepComponents` are unpacked onto its components, and it must then
        have `count` components (the neutral's number). */
    method Place(axis: string, content: Option<map<string, seq<Dict>>>, count: nat) returns (s: Status)
      modifies this
      ensures location == map[axis := 1.0]
      ensures variations == old(variations) && model == old(model) && deltas == old(deltas)
      ensures content.None? ==> s == Failure(KeyError(ContentKey))
      ensures content.Some? && DeepComponentsKey !in content.value ==> s == Failure(KeyError(DeepComponentsKey))
      ensures s.Success? <==>
                content.Some? && DeepComponentsKey in content.value &&
                UnpackAll(content.value[DeepComponentsKey]).Ok? &&
                |old(components)| + |UnpackAll(content.value[DeepComponentsKey]).value| == count
      ensures s.Success? ==> components == old(components) + UnpackAll(content.value[DeepComponentsKey]).value
      ensures s.Failure? && content.Some? && DeepComponentsKey in content.value ==>
                UnpackAll(content.value[DeepComponentsKey]).Err? || s == Failure(AssertionError)
    {
      location := map[axis := 1.0];
      if content.None? {
        return Failure(KeyError(ContentKey));
      }
      if DeepComponentsKey !in content.value {
        return Failure(KeyError(DeepComponentsKey));
      }
      s := AppendComponents(content.value[DeepComponentsKey]);
      if s.Success? && |components| != count {
        s := Failure(AssertionError);
      }
    }

    /** One pass of the `_postParse` loop: the master for `decls[j]` is
        fetched, placed at `{axis: 1.0}`, given the components its `content`
        lists, checked to have as many components as the neutral, and
        appended to the variations. */
    method AddMaster(store: GlyphSet, varLib: ModelOps, decls: seq<VarDecl>, j: nat) returns (s: Status)
      requires store.Valid() && name.Some? && j < |decls|
      requires this !in store.Below
      requires MastersBuilt(store, decls, j) && MastersKept(store) && MastersCounted()
      modifies this, store.Repr, store.Below
      decreases store.dir, 3
      ensures store.Valid()
      ensures old(store.Repr) <= store.Repr && fresh(store.Repr - old(store.Repr))
      ensures old(store.Below) <= store.Below && fresh(store.Below - old(store.Below))
      ensures this !in store.Below
      ensures store.glyphs == old(store.glyphs)
      ensures components == old(components) && location == old(location)
      ensures model == old(model) && deltas == old(deltas)
      ensures decls[j].layerName.None? ==> s == Failure(KeyError(LayerNameKey))
      ensures decls[j].content.None? ==> s.Failure?
      ensures s.Failure? ==> PassFaults(store.dir, Src(), decls[j], |components|)
      ensures s.Success? ==>
                decls[j].content.Some? && DeepComponentsKey in decls[j].content.value &&
                UnpackAll(decls[j].content.value[DeepComponentsKey]).Ok? &&
                MastersBuilt(store, decls, j + 1) && variations[..j] == old(variations) &&
                variations[j].location == map[decls[j].axis := 1.0] &&
                MastersKept(store) && MastersCounted() &&
                (variations[j] in store.Below || fresh(variations[j]))
      ensures s.Success? && !ReadsLayer(store.dir, Src(), decls[j]) ==> variations[j] !in store.Below
    {
      var decl := decls[j];
      if decl.layerName.None? {
        s := Failure(KeyError(LayerNameKey));
      } else {
        var fetched := FetchMaster(store, decl.layerName.value, varLib);
        if fetched.Err? {
          s := Failure(fetched.error);
        } else {
          var v := fetched.value;
          forall i | 0 <= i < |variations|
            ensures |variations[i].components| == |components|
            ensures variations[i] !in store.Below || variations[i] in store.Tops
          {
          }
          s := Record(store, decls, j, v);
        }
      }
    }

    /** The end of a `_postParse` pass once the master `v` is fetched: it is
        placed, and appended to the variations if that succeeds. */
    method Record(store: GlyphSet, decls: seq<VarDecl>, j: nat, v: Glyph) returns (s: Status)
      requires j < |decls| && |variations| == j && v != this
      requires MastersKept(store) && MastersCounted()
      requires v !in store.Below || v in store.Tops
      modifies this, v
      ensures components == old(components) && location == old(location)
      ensures model == old(model) && deltas == old(deltas)
      ensures s.Success? <==>
                decls[j].content.Some? && DeepComponentsKey in decls[j].content.value &&
                UnpackAll(decls[j].content.value[DeepComponentsKey]).Ok? &&
                |old(v.components)| + |UnpackAll(decls[j].content.value[DeepComponentsKey]).value| == |components|
      ensures s.Success? ==>
                variations == old(variations) + [v] && v.location == map[decls[j].axis := 1.0] &&
                MastersKept(store) && MastersCounted()
    {
      s := v.Place(decls[j].axis, decls[j].content, |components|);
      if s.Success? {
        variations := variations + [v];
      }
    }

    /** The loop of `_postParse`: one master per declared axis, in order,
        stopping at the first pass that fails. */
    method AddMasters(store: GlyphSet, varLib: ModelOps, decls: seq<VarDecl>) returns (s: Status)
      requires store.Valid() && name.Some? && variations == []
      requires this !in store.Below
      modifies this, store.Repr, store.Below
      decreases store.dir, 4
      ensures store.Valid()
      ensures old(store.Repr) <= store.Repr && fresh(store.Repr - old(store.Repr))
      ensures old(store.Below) <= store.Below && fresh(store.Below - old(store.Below))
      ensures this !in store.Below
      ensures store.glyphs == old(store.glyphs)
      ensures components == old(components) && location == old(location)
      ensures model == old(model) && deltas == old(deltas)
      ensures s.Success? ==> MastersBuilt(store, decls, |decls|) && MastersCounted()
      ensures s.Success? ==> forall i | 0 <= i < |variations| && variations[i] !in store.Below :: fresh(variations[i])
      ensures s.Success? ==>
                forall i | 0 <= i < |decls| && !ReadsLayer(store.dir, Src(), decls[i]) ::
                  variations[i].location == map[decls[i].axis := 1.0]
      ensures s.Failure? ==> exists j | 0 <= j < |decls| :: PassFaults(store.dir, Src(), decls[j], |components|)
    {
      s := Success;
      var j := 0;
      while j < |decls|
        invariant 0 <= j <= |decls| && s == Success
        invariant store.Valid()
        invariant old(store.Repr) <= store.Repr && fresh(store.Repr - old(store.Repr))
        invariant old(store.Below) <= store.Below && fresh(store.Below - old(store.Below))
        invariant this !in store.Below
        invariant store.glyphs == old(store.glyphs)
        invariant components == old(components) && location == old(location)
        invariant model == old(model) && deltas == old(deltas)
        invariant MastersBuilt(store, decls, j) && MastersKept(store) && MastersCounted()
        invariant forall i | 0 <= i < j && variations[i] !in store.Below :: fresh(variations[i])
        invariant forall i | 0 <= i < j && !ReadsLayer(store.dir, Src(), decls[i]) ::
                    variations[i] !in store.Below && variations[i].location == map[decls[i].axis := 1.0]
      {
        s := AddMaster(store, varLib, decls, j);
        if s.Failure? {
          assert PassFaults(store.dir, Src(), decls[j], |components|);
          return;
        }
        j := j + 1;
      }
    }

    /** `_postParse`: unpacks the neutral's component records, then, when the
        lib declares variation glyphs, builds one master per axis and the
        variation model over `[{}]` and the masters' locations. */
    method PostParse(store: GlyphSet, varLib: ModelOps) returns (s: Status)
      requires store.Valid() && name.Some? && Unassembled()
      requires this !in store.Below
      modifies this, store.Repr, store.Below
      decreases store.dir, 5
      ensures store.Valid()
      ensures old(store.Repr) <= store.Repr && fresh(store.Repr - old(store.Repr))
      ensures old(store.Below) <= store.Below && fresh(store.Below - old(store.Below))
      ensures this !in store.Below
      ensures store.glyphs == old(store.glyphs)
      ensures location == map[] && deltas == None
      ensures UnpackAll(OwnRecords(lib)).Err? ==> s == Failure(UnpackAll(OwnRecords(lib)).error)
      ensures s.Success? ==> UnpackAll(OwnRecords(lib)) == Ok(components)
      ensures s.Success? && GetVarKey(lib).None? ==> variations == [] && model == None
      ensures s.Success? && GetVarKey(lib).Some? ==>
                MastersBuilt(store, VarDecls(lib, GetVarKey(lib).value), |VarDecls(lib, GetVarKey(lib).value)|) &&
                model == Some([map[]] + Locations(variations)) &&
                varLib.accepts(model.value)
      ensures s.Success? ==> forall i | 0 <= i < |variations| && variations[i] !in store.Below :: fresh(variations[i])
      ensures s.Success? ==> MastersCounted()
      ensures GetVarKey(lib).None? ==> (s.Success? <==> UnpackAll(OwnRecords(lib)).Ok?)
      ensures s.Failure? ==> AssemblyFaults(store.dir, Src(), varLib)
    {
      s := AppendComponents(OwnRecords(lib));
      if s.Failure? {
        return;
      }
      assert components == UnpackAll(OwnRecords(lib)).value by {
        assert [] + UnpackAll(OwnRecords(lib)).value == UnpackAll(OwnRecords(lib)).value;
      }
      var key := GetVarKey(lib);
      if key.None? {
        return;
      }
      var decls := VarDecls(lib, key.value);
      s := AddMasters(store, varLib, decls);
      if s.Failure? {
        return;
      }
      var locations := [map[]] + Locations(variations);
      if !varLib.accepts(locations) {
        AxesLocated(variations, store.dir, Src(), decls);
        return Failure(VariationModelError);
      }
      model := Some(locations);
    }

    /** The deltas are known, or not needed: `instantiate` has run, or the
        glyph has no variation model. */
    predicate Instantiated()
      reads this
    {
      model.None? || deltas.Some?
    }

    /** What `instantiate(at)` returns once the glyph is `Instantiated`: the
        glyph itself without a model, otherwise the interpolation from the
        kept deltas at the clamped location. */
    function InstanceAt(varLib: ModelOps, at: Dict): Result<GlyphValue>
      requires Instantiated()
      reads this
    {
      if model.None? then Ok(Value()) else Interpolated(varLib, model.value, deltas.value, at)
    }

    /** What `instantiate(at)` returns from the glyph's current state: the
        glyph itself without a model; otherwise the interpolation at the
        clamped location from the kept deltas or, when there are none yet,
        from the deltas `getDeltas` computes over the neutral and the
        masters, whose failure is raised. */
    ghost function Instance(varLib: ModelOps, at: Dict): Result<GlyphValue>
      reads this, variations
    {
      if model.None? then Ok(Value())
      else if deltas.Some? then Interpolated(varLib, model.value, deltas.value, at)
      else
        match varLib.getDeltas(model.value, [Value()] + Values(variations))
        case Err(e) => Err(e)
        case Ok(ds) => Interpolated(varLib, model.value, ds, at)
    }

    /** `instantiate(location)`: a glyph without a variation model is its own
        instance; otherwise the deltas over the neutral and the masters are
        computed on first use and kept, and the instance is interpolated at
        the clamped location. */
    method Instantiate(at: Dict, varLib: ModelOps) returns (r: Result<GlyphValue>)
      modifies this
      ensures components == old(components) && location == old(location)
      ensures variations == old(variations) && model == old(model)
      ensures model.None? ==> r == Ok(Value()) && deltas == old(deltas)
      ensures old(deltas).Some? ==> deltas == old(deltas)
      ensures model.Some? && old(deltas).Some? ==>
                r == Interpolated(varLib, model.value, old(deltas).value, at)
      ensures model.Some? && old(deltas).None? ==>
                var ds := varLib.getDeltas(model.value, [Value()] + old(Values(variations)));
                (ds.Err? ==> r == Err(ds.error) && deltas == None) &&
                (ds.Ok? ==> deltas == Some(ds.value) && r == Interpolated(varLib, model.value, ds.value, at))
      ensures r.Ok? ==> Instantiated()
      ensures Instantiated() ==> r == InstanceAt(varLib, at)
      ensures !Instantiated() ==> unchanged(this) && r.Err?
      ensures r == old(Instance(varLib, at))
    {
      if model.None? {
        return Ok(Value());
      }
      if deltas.None? {
        var ds := varLib.getDeltas(model.value, [Value()] + Values(variations));
        if ds.Err? {
          return Err(ds.error);
        }
        deltas := Some(ds.value);
      }
      var loc := ClampLocation(at);
      if loc.Err? {
        return Err(loc.error);
      }
      r := varLib.interpolateFromDeltas(model.value, loc.value, deltas.value);
    }
  }

  class GlyphSet {
    const dir: Dir
    var glyphs: map<string, Glyph>
    var layers: map<string, GlyphSet>
    /** This store and every layer store below it. */
    ghost var Repr: set<GlyphSet>
    /** Every glyph cached in the layer stores below this one, at any depth. */
    ghost var Below: set<Glyph>
    /** The glyphs cached at the top of the layer stores. */
    ghost var Tops: set<Glyph>

    /** The caches form a tree: every layer sits in the sub-directory of its
        name, layer stores are disjoint, only names with a file are cached,
        each as parsed from that file, a glyph cached here is not held below,
        and a glyph cached in one layer is not held below another. */
    ghost predicate Valid()
      reads this, Repr
      decreases Repr
    {
      this in Repr &&
      (forall n | n in glyphs :: n in dir.files && glyphs[n].ParsedFrom(dir.files[n])) &&
      (forall l | l in layers ::
         layers[l] in Repr && layers[l].Repr <= Repr && this !in layers[l].Repr &&
         layers[l].dir == SubDir(dir, l) &&
         layers[l].Below <= Below && layers[l].CachedWithin(Below) &&
         layers[l].Valid()) &&
      (forall l, m | l in layers && m in layers && l != m :: layers[l].Repr !! layers[m].Repr) &&
      glyphs.Values !! Below &&
      (forall l | l in layers :: layers[l].glyphs.Values <= Tops && Tops !! layers[l].Below)
    }

    /** Every glyph cached here is in `gs`. */
    ghost predicate CachedWithin(gs: set<Glyph>)
      reads this
    {
      forall n | n in glyphs :: glyphs[n] in gs
    }

    /** `GlyphSet(path)`: empty caches. */
    constructor (d: Dir)
      ensures dir == d && glyphs == map[] && layers == map[]
      ensures Repr == {this} && Below == {}
      ensures Valid()
    {
      dir := d;
      glyphs, layers := map[], map[];
      Repr, Below, Tops := {this}, {}, {};
    }

    /** `__contains__`: a cached name, or a name with a file. */
    predicate Contains(n: string)
      reads this
    {
      n in glyphs || n in dir.files
    }

    /** Every cached name is contained, and in a valid store a name is
        contained exactly when its file exists. */
    lemma ContainsSpec(n: string)
      requires Valid()
      ensures n in glyphs ==> Contains(n)
      ensures Contains(n) <==> n in dir.files
    {
    }

    /** `getLayer`: the cached sub-store of that name, or a new one for the
        sub-directory, cached before it is returned. */
    method GetLayer(l: string) returns (layer: GlyphSet)
      requires Valid()
      modifies this
      ensures Valid()
      ensures l in layers && layer == layers[l]
      ensures layer.dir == SubDir(dir, l) && layer.Valid()
      ensures layer in Repr && layer.Repr <= Repr && this !in layer.Repr
      ensures glyphs == old(glyphs) && Below == old(Below) && Tops == old(Tops)
      ensures old(l in layers) ==> layer == old(layers)[l] && layers == old(layers) && Repr == old(Repr)
      ensures old(l !in layers) ==>
                fresh(layer) && layer.glyphs == map[] && layer.layers == map[] &&
                layer.Repr == {layer} && layer.Below == {} &&
                layers == old(layers)[l := layer] && Repr == old(Repr) + {layer}
    {
      if l in layers {
        return layers[l];
      }
      layer := new GlyphSet(SubDir(dir, l));
      CacheLayer(l, layer);
    }

    /** `self._layers[layerName] = layer`, for a new, empty store of the
        layer's sub-directory. */
    method CacheLayer(l: string, layer: GlyphSet)
      requires Valid() && l !in layers && layer !in Repr
      requires layer.Valid() && layer.Repr == {layer} && layer.Below == {} && layer.glyphs == map[]
      requires layer.dir == SubDir(dir, l)
      modifies this
      ensures layers == old(layers)[l := layer] && Repr == old(Repr) + {layer}
      ensures glyphs == old(glyphs) && Below == old(Below) && Tops == old(Tops)
      ensures Valid()
    {
      layers, Repr := layers[l := layer], Repr + {layer};
    }

    /** `layer.getGlyph(name)` for a layer already cached here: the glyph is
        loaded through the layer's cache, and this store's footprint grows by
        what the layer's grew. */
    method GetLayerGlyph(l: string, n: string, varLib: ModelOps) returns (r: Result<Glyph>)
      requires Valid() && l in layers
      modifies Repr, Below
      decreases dir, 1
      ensures Valid()
      ensures old(Repr) <= Repr && fresh(Repr - old(Repr))
      ensures old(Below) <= Below && fresh(Below - old(Below))
      ensures glyphs == old(glyphs) && layers == old(layers)
      ensures n !in SubDir(dir, l).files ==> r == Err(FileNotFound(n))
      ensures r.Err? && n in SubDir(dir, l).files ==>
                n !in old(layers[l].glyphs) && AssemblyFaults(SubDir(dir, l), SubDir(dir, l).files[n], varLib)
      ensures r.Ok? ==> n in layers[l].glyphs && r.value == layers[l].glyphs[n] && r.value in Below
      ensures r.Ok? ==> r.value.ParsedFrom(SubDir(dir, l).files[n])
      ensures old(Tops) <= Tops && unchanged(old(Tops))
      ensures r.Ok? ==> r.value in Tops
    {
      if n !in layers[l].dir.files {
        r := Err(FileNotFound(n));
      } else {
        r := LoadInLayer(l, n, varLib);
        Absorb(l, if r.Ok? then {r.value} else {});
      }
    }

    /** The layer's own `getGlyph`, before this store's footprint takes in
        what the layer's grew: the other layers are untouched, and what is
        new in the layer is new altogether. */
    method LoadInLayer(l: string, n: string, varLib: ModelOps) returns (r: Result<Glyph>)
      requires Valid() && l in layers && n in layers[l].dir.files
      modifies layers[l].Repr, layers[l].Below
      decreases dir, 0
      ensures forall m | m in layers ::
                layers[m].Valid() && old(layers[m].Repr) <= layers[m].Repr && old(layers[m].Below) <= layers[m].Below
      ensures forall m | m in layers && m != l ::
                layers[m].Repr == old(layers[m].Repr) && layers[m].Below == old(layers[m].Below) &&
                layers[m].glyphs == old(layers[m].glyphs)
      ensures fresh(layers[l].Repr - old(layers[l].Repr)) && fresh(layers[l].Below - old(layers[l].Below))
      ensures fresh(layers[l].Below + (if r.Ok? then {r.value} else {}) - old(Below))
      ensures glyphs.Values !! layers[l].Below + (if r.Ok? then {r.value} else {})
      ensures unchanged(this)
      ensures layers[l].glyphs == old(layers[l].glyphs) ||
              (r.Ok? && fresh(r.value) && layers[l].glyphs == old(layers[l].glyphs)[n := r.value])
      ensures r.Ok? ==> n in layers[l].glyphs && r.value == layers[l].glyphs[n]
      ensures r.Ok? ==> r.value.ParsedFrom(SubDir(dir, l).files[n])
      ensures r.Err? ==>
                n !in old(layers[l].glyphs) && AssemblyFaults(SubDir(dir, l), SubDir(dir, l).files[n], varLib)
    {
      SubDirSmaller(dir, l);
      r := layers[l].GetGlyph(n, varLib);
      OtherLayersKept(l);
    }

    /** The layers other than `l` are as they were, and still valid, after
        a step that changed nothing of this store's outside `l`'s footprint. */
    twostate lemma OtherLayersKept(l: string)
      requires old(Valid()) && unchanged(this) && l in layers
      requires forall o: GlyphSet | o in old(Repr) && o !in old(layers[l].Repr) :: unchanged(o)
      ensures forall m | m in layers && m != l ::
                layers[m].Repr == old(layers[m].Repr) && layers[m].Below == old(layers[m].Below) &&
                layers[m].glyphs == old(layers[m].glyphs) && layers[m].Valid()
    {
      forall m | m in layers && m != l
        ensures layers[m].Repr == old(layers[m].Repr) && layers[m].Below == old(layers[m].Below)
        ensures layers[m].glyphs == old(layers[m].glyphs) && layers[m].Valid()
      {
        assert old(layers[m].Repr !! layers[l].Repr);
      }
    }

    /** Grows this store's footprints by what layer `l`'s grew, and by the
        glyphs `gs` now cached in it. */
    ghost method Absorb(l: string, gs: set<Glyph>)
      requires this in Repr && l in layers
      requires forall n | n in glyphs :: n in dir.files && glyphs[n].ParsedFrom(dir.files[n])
      requires forall m | m in layers ::
                 layers[m] in Repr && this !in layers[m].Repr && layers[m].dir == SubDir(dir, m) &&
                 layers[m].Valid()
      requires forall m | m in layers && m != l ::
                 layers[m].Repr <= Repr && layers[m].Below <= Below && layers[m].CachedWithin(Below)
      requires layers[l].CachedWithin(Below + layers[l].Below + gs)
      requires forall m, m' | m in layers && m' in layers && m != m' :: layers[m].Repr !! layers[m'].Repr
      requires glyphs.Values !! Below + layers[l].Below + gs
      requires forall m | m in layers :: layers[m].glyphs.Values <= Tops + gs && Tops + gs !! layers[m].Below
      modifies this`Repr, this`Below, this`Tops
      ensures Repr == old(Repr) + old(layers[l].Repr) && Below == old(Below) + old(layers[l].Below) + gs
      ensures Tops == old(Tops) + gs
      ensures Valid()
    {
      assert forall m | m in layers :: layers[m] != this;
      Repr, Below, Tops := Repr + layers[l].Repr, Below + layers[l].Below + gs, Tops + gs;
    }

    /** `self._glyphs[glyphName] = glyph`, for a glyph parsed from the file
        of that name. */
    method CacheGlyph(n: string, g: Glyph)
      requires Valid() && n in dir.files && g.ParsedFrom(dir.files[n]) && g !in Below
      modifies this
      ensures glyphs == old(glyphs)[n := g]
      ensures layers == old(layers) && Repr == old(Repr) && Below == old(Below) && Tops == old(Tops)
      ensures Valid()
    {
      glyphs := glyphs[n := g];
    }

    /** The glyph cached under `n` is instantiated, and `v` is its instance
        at `at`. */
    ghost predicate Resolves(n: string, at: Dict, varLib: ModelOps, v: GlyphValue)
      reads this, glyphs.Values
    {
      n in glyphs && glyphs[n].Instantiated() && glyphs[n].InstanceAt(varLib, at) == Ok(v)
    }

    /** `r` is what `getGlyph(n).instantiate(at)` returns, given what is
        cached under `n` now: the instance `instantiate` computes for an
        instantiated glyph, a failure for one it could not instantiate, or,
        when nothing is cached, a failure the file explains. A failure is
        always one `LoadFaults` names. */
    ghost predicate Loaded(n: string, at: Dict, varLib: ModelOps, r: Result<GlyphValue>)
      reads this, glyphs.Values
    {
      (n in glyphs && glyphs[n].Instantiated() ==> r == glyphs[n].InstanceAt(varLib, at)) &&
      (n in glyphs && !glyphs[n].Instantiated() ==> r.Err?) &&
      (n !in glyphs ==> r.Err? && (n in dir.files ==> AssemblyFaults(dir, dir.files[n], varLib))) &&
      (r.Err? ==> LoadFaults(dir, n, varLib))
    }

    /** Across a step that only adds to the cache: the models still match
        the libs, and every instance that resolved still does. */
    twostate predicate CacheKept(varLib: ModelOps)
      reads this, glyphs.Values
    {
      (old(ModelsDeclared()) ==> ModelsDeclared()) &&
      forall k, a, v | old(Resolves(k, a, varLib, v)) :: Resolves(k, a, varLib, v)
    }

    /** Every glyph cached here has a variation model exactly when its lib
        declares variation glyphs, as `_postParse` leaves it. */
    ghost predicate ModelsDeclared()
      reads this, glyphs.Values
    {
      forall k | k in glyphs :: glyphs[k].model.None? <==> GetVarKey(glyphs[k].lib).None?
    }

    /** `getGlyph(name).instantiate(location)`: the glyph is loaded through
        the cache and instantiated, and the result is what `instantiate`
        returns for it. Only glyphs in `pool`, which holds every glyph this
        store keeps, and new ones are changed. It fails only for a missing
        file, a file that does not assemble, or a glyph whose instance comes
        from its variation model. */
    method Load(n: string, at: Dict, varLib: ModelOps, ghost pool: set<Glyph>) returns (r: Result<GlyphValue>)
      requires Valid() && CachedWithin(pool) && Below <= pool && ModelsDeclared()
      modifies Repr, pool
      ensures Valid() && ModelsDeclared()
      ensures old(Repr) <= Repr && fresh(Repr - old(Repr))
      ensures old(Below) <= Below && fresh(Below - old(Below))
      ensures n in glyphs ==> glyphs[n] in pool || fresh(glyphs[n])
      ensures CachedWithin(pool + (if n in glyphs then {glyphs[n]} else {}))
      ensures n !in dir.files ==> r == Err(FileNotFound(n))
      ensures r.Ok? ==> Resolves(n, at, varLib, r.value)
      ensures Loaded(n, at, varLib, r)
      ensures n in glyphs && !glyphs[n].Instantiated() ==> r == glyphs[n].Instance(varLib, at)
      ensures forall k, a, v | old(Resolves(k, a, varLib, v)) :: Resolves(k, a, varLib, v)
    {
      var g := GetGlyph(n, varLib);
      if g.Err? {
        r := Err(g.error);
      } else {
        r := InstantiateCached(n, at, varLib);
      }
    }

    /** `glyph.instantiate(location)` for the glyph cached under `n`: the
        result is what `instantiate` returns for it, only that glyph's deltas
        change, and an instance already resolved stays so. */
    method InstantiateCached(n: string, at: Dict, varLib: ModelOps) returns (r: Result<GlyphValue>)
      requires Valid() && n in glyphs && ModelsDeclared()
      modifies glyphs[n]
      ensures Valid() && ModelsDeclared()
      ensures r == old(glyphs[n].Instance(varLib, at))
      ensures glyphs[n].model == old(glyphs[n].model) && glyphs[n].components == old(glyphs[n].components)
      ensures glyphs[n].model.None? ==> r == Ok(glyphs[n].Value())
      ensures r.Err? ==> LoadFaults(dir, n, varLib)
      ensures glyphs[n].Instantiated() ==> r == glyphs[n].InstanceAt(varLib, at)
      ensures !glyphs[n].Instantiated() ==> r.Err? && r == glyphs[n].Instance(varLib, at)
      ensures r.Ok? ==> Resolves(n, at, varLib, r.value)
      ensures forall k, a, v | old(Resolves(k, a, varLib, v)) :: Resolves(k, a, varLib, v)
    {
      r := glyphs[n].Instantiate(at, varLib);
    }

    /** `getGlyph`: the cached glyph of that name; otherwise the glyph is
        parsed from its file, assembled by `_postParse` against this store,
        and cached only if assembly succeeds. */
    method GetGlyph(n: string, varLib: ModelOps) returns (r: Result<Glyph>)
      requires Valid()
      modifies Repr, Below
      decreases dir, 7
      ensures Valid()
      ensures old(Repr) <= Repr && fresh(Repr - old(Repr))
      ensures old(Below) <= Below && fresh(Below - old(Below))
      ensures old(n in glyphs) ==>
                r == Ok(old(glyphs)[n]) && Repr == old(Repr) && Below == old(Below) &&
                unchanged(Repr) && unchanged(Below)
      ensures n !in dir.files ==> r == Err(FileNotFound(n)) && glyphs == old(glyphs)
      ensures r.Ok? ==> n in glyphs && glyphs[n] == r.value && r.value.ParsedFrom(dir.files[n])
      ensures old(n !in glyphs) && r.Err? ==> glyphs == old(glyphs)
      ensures r.Err? && n in dir.files ==> old(n !in glyphs) && AssemblyFaults(dir, dir.files[n], varLib)
      ensures unchanged(old(glyphs.Values)) && CacheKept(varLib)
      ensures old(n !in glyphs) && r.Ok? ==> fresh(r.value) && glyphs == old(glyphs)[n := r.value]
      ensures old(n !in glyphs) && r.Ok? ==> r.value.Assembled()
    {
      if n in glyphs {
        r := Ok(glyphs[n]);
      } else if n !in dir.files {
        r := Err(FileNotFound(n));
      } else {
        r := LoadFile(n, varLib);
      }
    }

    /** The part of `getGlyph` for a name not cached yet whose file exists:
        the glyph is parsed and assembled by `_postParse` against this
        store, and cached only if assembly succeeds, which it does unless
        the file shows one of the faults `AssemblyFaults` lists. */
    method LoadFile(n: string, varLib: ModelOps) returns (r: Result<Glyph>)
      requires Valid() && n !in glyphs && n in dir.files
      modifies Repr, Below
      decreases dir, 6
      ensures Valid()
      ensures old(Repr) <= Repr && fresh(Repr - old(Repr))
      ensures old(Below) <= Below && fresh(Below - old(Below))
      ensures r.Err? ==> glyphs == old(glyphs) && AssemblyFaults(dir, dir.files[n], varLib)
      ensures r.Ok? ==>
                fresh(r.value) && glyphs == old(glyphs)[n := r.value] && r.value.ParsedFrom(dir.files[n]) &&
                r.value.Assembled()
    {
      var g := new Glyph.Parsed(dir.files[n]);
      var s := g.PostParse(this, varLib);
      if s.Failure? {
        r := Err(s.error);
      } else {
        assert UnpackAll(OwnRecords(g.lib)) == Ok(g.components);
        assert GetVarKey(g.lib).None? <==> g.model.None?;
        CacheGlyph(n, g);
        r := Ok(g);
      }
    }
  }
}
