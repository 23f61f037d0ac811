/** `RoboCJKProject`: the three glyph stores of a project directory and the
    three-tier resolver that instantiates a character glyph, its deep
    components and their atomic elements, composing the placement transforms
    on the way down (project.py, class RoboCJKProject). */
module Project {
  import opened Common
  import opened MathDict
  import opened Transforms
  import Outlines
  import opened Glyphs
  import opened Store

  const CharacterGlyphDir := "characterGlyph"
  const DeepComponentDir := "deepComponent"
  const AtomicElementDir := "atomicElement"

  /** A component's name used as a glyph name: looking a dictionary up in
      the cache fails with TypeError (it is unhashable), and deriving a file
      name from anything else but a string fails with ValueError. */
  function GlyphName(v: Value): (r: Result<string>)
    ensures r.Ok? <==> v.Str?
    ensures r.Ok? ==> r.value == v.s
    ensures v.Table? ==> r == Err(TypeError)
    ensures v.Num? || v.Null? ==> r == Err(ValueError)
  {
    match v
    case Str(s) => Ok(s)
    case Table(_) => Err(TypeError)
    case _ => Err(ValueError)
  }

  /** The error the resolver stops at component `c` with, when the component
      alone tells it: its transform is evaluated first, then its name is
      looked up, then the glyph's file in the store of directory `d` is
      needed. `None` when the glyph has to be loaded to know. */
  function ComponentError(c: Component, d: Dir, trig: real -> Rotation): Option<Error>
  {
    if Placement(c, trig).Err? then Some(Placement(c, trig).error)
    else if GlyphName(c.name).Err? then Some(GlyphName(c.name).error)
    else if c.name.s !in d.files then Some(FileNotFound(c.name.s))
    else None
  }

  /** `(component.name, atomicOutline)`. */
  datatype AtomicItem = AtomicItem(name: Value, outline: Outlines.Outline)

  /** `(component.name, deepItem)`. */
  datatype DeepItem = DeepItem(name: Value, atomicElements: seq<AtomicItem>)

  /** `(glyph.outline, deepItems, glyph.width)`. */
  datatype CharacterInstance = CharacterInstance(outline: Outlines.Outline, deepItems: seq<DeepItem>, width: real)

  /** The placement of a component: `makeTransform(**component.transform)`. */
  function Placement(c: Component, trig: real -> Rotation): Result<Affine>
  {
    MakeTransformFromRecord(c.transform, trig)
  }

  /** One item of `instantiateDeepComponent` for a deep-component instance
      placed by `t`: under the component's name, the atomic instance `atom`
      transformed by `t` composed with the component's own placement (which
      is applied first). */
  ghost predicate PlacesAtom(item: AtomicItem, c: Component, atom: GlyphValue, t: Affine, trig: real -> Rotation)
  {
    item.name == c.name && Placement(c, trig).Ok? &&
    Ok(item.outline) == Outlines.Mapped(atom.outline, Outlines.TransformPoint(Compose(t, Placement(c, trig).value)))
  }

  /** The items `instantiateDeepComponent` lists for the components `comps`
      of a deep-component instance: one per component, in order. */
  ghost predicate PlacesAtoms(items: seq<AtomicItem>, comps: seq<Component>, atoms: seq<GlyphValue>,
                              t: Affine, trig: real -> Rotation)
  {
    |items| == |comps| == |atoms| &&
    forall i | 0 <= i < |items| :: PlacesAtom(items[i], comps[i], atoms[i], t, trig)
  }

  lemma PlacesAtomsSnoc(items: seq<AtomicItem>, comps: seq<Component>, i: nat, atoms: seq<GlyphValue>,
                        item: AtomicItem, atom: GlyphValue, t: Affine, trig: real -> Rotation)
    requires i < |comps|
    requires PlacesAtoms(items, comps[..i], atoms, t, trig) && PlacesAtom(item, comps[i], atom, t, trig)
    ensures PlacesAtoms(items + [item], comps[..i + 1], atoms + [atom], t, trig)
  {
    assert comps[..i + 1] == comps[..i] + [comps[i]];
  }

  /** The items `instantiateCharacterGlyph` lists for the components `comps`
      of a character-glyph instance: one per component, in order, under the
      component's name, holding the deep-component instance `deeps[i]`
      resolved with the component's placement. */
  ghost predicate PlacesDeep(items: seq<DeepItem>, comps: seq<Component>, deeps: seq<GlyphValue>,
                             atoms: seq<seq<GlyphValue>>, trig: real -> Rotation)
  {
    |items| == |comps| == |deeps| == |atoms| &&
    forall i | 0 <= i < |items| ::
      items[i].name == comps[i].name && Placement(comps[i], trig).Ok? &&
      PlacesAtoms(items[i].atomicElements, deeps[i].components, atoms[i], Placement(comps[i], trig).value, trig)
  }


  lemma PlacesDeepSnoc(items: seq<DeepItem>, comps: seq<Component>, i: nat, deeps: seq<GlyphValue>,
                       atoms: seq<seq<GlyphValue>>, item: DeepItem, deep: GlyphValue, atom: seq<GlyphValue>,
                       trig: real -> Rotation)
    requires i < |comps|
    requires PlacesDeep(items, comps[..i], deeps, atoms, trig)
    requires item.name == comps[i].name && Placement(comps[i], trig).Ok?
    requires PlacesAtoms(item.atomicElements, deep.components, atom, Placement(comps[i], trig).value, trig)
    ensures PlacesDeep(items + [item], comps[..i + 1], deeps + [deep], atoms + [atom], trig)
  {
    assert comps[..i + 1] == comps[..i] + [comps[i]];
  }

  /** Drawn in a character glyph, an atomic element is its instance
      placed in the deep component and the result placed in the character
      glyph: composing the two transforms before applying them, as the
      resolver does, draws the same outline. */
  lemma {:induction false} PlacedInTwoSteps(items: seq<DeepItem>, comps: seq<Component>, deeps: seq<GlyphValue>,
                                            atoms: seq<seq<GlyphValue>>, trig: real -> Rotation, i: nat, j: nat)
    requires PlacesDeep(items, comps, deeps, atoms, trig)
    requires i < |items| && j < |items[i].atomicElements|
    ensures Placement(comps[i], trig).Ok? && Placement(deeps[i].components[j], trig).Ok?
    ensures var inDeep := Outlines.Mapped(atoms[i][j].outline,
                                          Outlines.TransformPoint(Placement(deeps[i].components[j], trig).value));
            inDeep.Ok? &&
            Ok(items[i].atomicElements[j].outline) ==
              Outlines.Mapped(inDeep.value, Outlines.TransformPoint(Placement(comps[i], trig).value))
  {
    var t := Placement(comps[i], trig).value;
    assert PlacesAtoms(items[i].atomicElements, deeps[i].components, atoms[i], t, trig);
    assert PlacesAtom(items[i].atomicElements[j], deeps[i].components[j], atoms[i][j], t, trig);
    var u := Placement(deeps[i].components[j], trig).value;
    var o := atoms[i][j].outline;
    Outlines.MappedSpec(o, Outlines.TransformPoint(Compose(t, u)));
    Outlines.MappedSpec(o, Outlines.TransformPoint(u));
    Outlines.TransformTwice(o, t, u);
  }

  /** How many atomic outlines the deep items hold. */
  function AtomicCount(items: seq<DeepItem>): nat
    decreases |items|
  {
    if |items| == 0 then 0 else AtomicCount(items[..|items| - 1]) + |items[|items| - 1].atomicElements|
  }

  /** The atomic outlines of the deep items, in the order
      `drawCharacterGlyph` draws them: item by item, and within an item
      atomic element by atomic element. */
  function DrawnAtoms(items: seq<DeepItem>): (r: seq<Outlines.Outline>)
    ensures |r| == AtomicCount(items)
    decreases |items|
  {
    if |items| == 0 then []
    else
      var last := items[|items| - 1].atomicElements;
      DrawnAtoms(items[..|items| - 1]) + seq(|last|, k requires 0 <= k < |last| => last[k].outline)
  }

  /** `drawCharacterGlyph`: the outlines sent to the pen, the character
      glyph's own outline first. */
  function Drawn(ci: CharacterInstance): (r: seq<Outlines.Outline>)
    ensures |r| == 1 + AtomicCount(ci.deepItems) && r[0] == ci.outline
  {
    [ci.outline] + DrawnAtoms(ci.deepItems)
  }

  /** The `j`th atomic element of the `i`th deep item is drawn after the
      atomic elements of the items before it and the `j` before it in its
      own item. */
  lemma {:induction false} DrawnAtomsAt(items: seq<DeepItem>, i: nat, j: nat)
    requires i < |items| && j < |items[i].atomicElements|
    ensures AtomicCount(items[..i]) + j < |DrawnAtoms(items)|
    ensures DrawnAtoms(items)[AtomicCount(items[..i]) + j] == items[i].atomicElements[j].outline
    decreases |items|
  {
    var n := |items| - 1;
    if i == n {
      assert items[..i] == items[..n];
    } else {
      DrawnAtomsAt(items[..n], i, j);
      assert items[..n][..i] == items[..i];
      assert items[..n][i] == items[i];
    }
  }

  class RoboCJKProject {
    const root: Dir
    const characterGlyphSet: GlyphSet
    const deepComponentGlyphSet: GlyphSet
    const atomicElementGlyphSet: GlyphSet
    /** fontTools' `VariationModel`. */
    const varLib: ModelOps
    /** `math.radians` followed by cosine and sine. */
    const trig: real -> Rotation
    /** The glyph objects each store holds, at any depth of its layers. */
    ghost var CharacterGlyphs: set<Glyph>
    ghost var DeepComponentGlyphs: set<Glyph>
    ghost var AtomicElementGlyphs: set<Glyph>

    /** The three stores are valid, each holds only glyphs of its own pool,
        and they share neither layer stores nor glyphs. */
    ghost predicate Valid()
      reads this, characterGlyphSet, deepComponentGlyphSet, atomicElementGlyphSet
      reads characterGlyphSet.Repr, deepComponentGlyphSet.Repr, atomicElementGlyphSet.Repr
    {
      Holds(characterGlyphSet, CharacterGlyphs) && Holds(deepComponentGlyphSet, DeepComponentGlyphs) &&
      Holds(atomicElementGlyphSet, AtomicElementGlyphs) && Apart()
    }

    /** `store` is valid and holds only glyphs of `pool`. */
    ghost predicate Holds(store: GlyphSet, pool: set<Glyph>)
      reads store, store.Repr
    {
      store.Valid() && store.CachedWithin(pool) && store.Below <= pool
    }

    /** The three stores share neither layer stores nor glyphs. */
    ghost predicate Apart()
      reads this, characterGlyphSet, deepComponentGlyphSet, atomicElementGlyphSet
    {
      characterGlyphSet.Repr !! deepComponentGlyphSet.Repr &&
      characterGlyphSet.Repr !! atomicElementGlyphSet.Repr &&
      deepComponentGlyphSet.Repr !! atomicElementGlyphSet.Repr &&
      CharacterGlyphs !! DeepComponentGlyphs && CharacterGlyphs !! AtomicElementGlyphs &&
      DeepComponentGlyphs !! AtomicElementGlyphs
    }

    /** The character-glyph store's footprint and pool only grew, by fresh objects. */
    twostate predicate CharsGrew()
      reads this, characterGlyphSet
    {
      old(characterGlyphSet.Repr) <= characterGlyphSet.Repr && fresh(characterGlyphSet.Repr - old(characterGlyphSet.Repr)) &&
      old(CharacterGlyphs) <= CharacterGlyphs && fresh(CharacterGlyphs - old(CharacterGlyphs))
    }

    /** The deep-component store's footprint and pool only grew, by fresh objects. */
    twostate predicate DeepsGrew()
      reads this, deepComponentGlyphSet
    {
      old(deepComponentGlyphSet.Repr) <= deepComponentGlyphSet.Repr && fresh(deepComponentGlyphSet.Repr - old(deepComponentGlyphSet.Repr)) &&
      old(DeepComponentGlyphs) <= DeepComponentGlyphs && fresh(DeepComponentGlyphs - old(DeepComponentGlyphs))
    }

    /** The atomic-element store's footprint and pool only grew, by fresh objects. */
    twostate predicate AtomsGrew()
      reads this, atomicElementGlyphSet
    {
      old(atomicElementGlyphSet.Repr) <= atomicElementGlyphSet.Repr && fresh(atomicElementGlyphSet.Repr - old(atomicElementGlyphSet.Repr)) &&
      old(AtomicElementGlyphs) <= AtomicElementGlyphs && fresh(AtomicElementGlyphs - old(AtomicElementGlyphs))
    }

    /** Each component names an atomic element the atomic-element store has
        cached and instantiated, and `atoms[i]` is its instance at the
        component's coordinate. */
    ghost predicate AtomsResolved(comps: seq<Component>, atoms: seq<GlyphValue>)
      reads atomicElementGlyphSet, atomicElementGlyphSet.glyphs.Values
    {
      |comps| == |atoms| &&
      forall i | 0 <= i < |comps| ::
        comps[i].name.Str? && atomicElementGlyphSet.Resolves(comps[i].name.s, comps[i].coord, varLib, atoms[i])
    }

    lemma AtomsResolvedSnoc(comps: seq<Component>, i: nat, atoms: seq<GlyphValue>, atom: GlyphValue)
      requires i < |comps| && AtomsResolved(comps[..i], atoms)
      requires comps[i].name.Str? && atomicElementGlyphSet.Resolves(comps[i].name.s, comps[i].coord, varLib, atom)
      ensures AtomsResolved(comps[..i + 1], atoms + [atom])
    {
      assert comps[..i + 1] == comps[..i] + [comps[i]];
    }

    /** Each component names a deep component the deep-component store has
        cached and instantiated, `deeps[i]` is its instance at the
        component's coordinate, and `atoms[i]` resolve that instance's own
        components. */
    ghost predicate DeepsResolved(comps: seq<Component>, deeps: seq<GlyphValue>, atoms: seq<seq<GlyphValue>>)
      reads deepComponentGlyphSet, deepComponentGlyphSet.glyphs.Values
      reads atomicElementGlyphSet, atomicElementGlyphSet.glyphs.Values
    {
      |comps| == |deeps| == |atoms| &&
      forall i | 0 <= i < |comps| ::
        comps[i].name.Str? && deepComponentGlyphSet.Resolves(comps[i].name.s, comps[i].coord, varLib, deeps[i]) &&
        AtomsResolved(deeps[i].components, atoms[i])
    }

    lemma DeepsResolvedSnoc(comps: seq<Component>, i: nat, deeps: seq<GlyphValue>, atoms: seq<seq<GlyphValue>>,
                            deep: GlyphValue, atom: seq<GlyphValue>)
      requires i < |comps| && DeepsResolved(comps[..i], deeps, atoms)
      requires comps[i].name.Str? && deepComponentGlyphSet.Resolves(comps[i].name.s, comps[i].coord, varLib, deep)
      requires AtomsResolved(deep.components, atom)
      ensures DeepsResolved(comps[..i + 1], deeps + [deep], atoms + [atom])
    {
      assert comps[..i + 1] == comps[..i] + [comps[i]];
    }

    /** What makes placing component `c` by `t` fail in
        `instantiateDeepComponent`: a bad transform or name, an atomic
        element the store cannot load, or an instance whose outline the
        placement cannot map. */
    ghost predicate AtomFails(c: Component, t: Affine)
      reads atomicElementGlyphSet, atomicElementGlyphSet.glyphs.Values
    {
      ComponentError(c, atomicElementGlyphSet.dir, trig).Some? ||
      (c.name.Str? &&
       (LoadFaults(atomicElementGlyphSet.dir, c.name.s, varLib) ||
        exists v | atomicElementGlyphSet.Resolves(c.name.s, c.coord, varLib, v) ::
          Outlines.Mapped(v.outline, Outlines.TransformPoint(Compose(t, Placement(c, trig).value))).Err?))
    }

    /** What makes component `c` fail in `instantiateCharacterGlyph`: a bad
        transform or name, a deep component the store cannot load, or one of
        that deep component's own components failing to place. */
    ghost predicate DeepFails(c: Component)
      reads deepComponentGlyphSet, deepComponentGlyphSet.glyphs.Values
      reads atomicElementGlyphSet, atomicElementGlyphSet.glyphs.Values
    {
      ComponentError(c, deepComponentGlyphSet.dir, trig).Some? ||
      (c.name.Str? &&
       (LoadFaults(deepComponentGlyphSet.dir, c.name.s, varLib) ||
        exists v | deepComponentGlyphSet.Resolves(c.name.s, c.coord, varLib, v) ::
          exists k | 0 <= k < |v.components| :: AtomFails(v.components[k], Placement(c, trig).value)))
    }

    /** The outcome of the loop of `instantiateDeepComponent` over
        `components`, placed by `t`: on success the items place every
        component, each resolved; on failure the components before the one
        that failed are resolved, and the failing one errs with its
        `ComponentError` when it has one and fails for a reason `AtomFails`
        names in any case. */
    ghost predicate AtomsPlaced(components: seq<Component>, t: Affine, r: Result<seq<AtomicItem>>, atoms: seq<GlyphValue>)
      reads atomicElementGlyphSet, atomicElementGlyphSet.glyphs.Values
    {
      (r.Ok? ==> PlacesAtoms(r.value, components, atoms, t, trig) && AtomsResolved(components, atoms)) &&
      (r.Err? ==>
         |atoms| < |components| && AtomsResolved(components[..|atoms|], atoms) &&
         (ComponentError(components[|atoms|], atomicElementGlyphSet.dir, trig).Some? ==>
            r == Err(ComponentError(components[|atoms|], atomicElementGlyphSet.dir, trig).value)) &&
         AtomFails(components[|atoms|], t))
    }

    /** The outcome of the loop of `instantiateCharacterGlyph` over
        `components`: on success the items place every component, each
        resolved; on failure the components before the one that failed are
        resolved, and the failing one errs with its `ComponentError` when it
        has one and fails for a reason `DeepFails` names in any case. */
    ghost predicate DeepsPlaced(components: seq<Component>, r: Result<seq<DeepItem>>,
                                deeps: seq<GlyphValue>, atoms: seq<seq<GlyphValue>>)
      reads deepComponentGlyphSet, deepComponentGlyphSet.glyphs.Values
      reads atomicElementGlyphSet, atomicElementGlyphSet.glyphs.Values
    {
      (r.Ok? ==> PlacesDeep(r.value, components, deeps, atoms, trig) && DeepsResolved(components, deeps, atoms)) &&
      (r.Err? ==>
         |deeps| < |components| && DeepsResolved(components[..|deeps|], deeps, atoms) &&
         (ComponentError(components[|deeps|], deepComponentGlyphSet.dir, trig).Some? ==>
            r == Err(ComponentError(components[|deeps|], deepComponentGlyphSet.dir, trig).value)) &&
         DeepFails(components[|deeps|]))
    }

    /** `RoboCJKProject(path)`: one empty store per sub-directory. */
    constructor (d: Dir, ops: ModelOps, radians: real -> Rotation)
      ensures root == d && varLib == ops && trig == radians
      ensures characterGlyphSet.dir == SubDir(d, CharacterGlyphDir)
      ensures deepComponentGlyphSet.dir == SubDir(d, DeepComponentDir)
      ensures atomicElementGlyphSet.dir == SubDir(d, AtomicElementDir)
      ensures characterGlyphSet.glyphs == map[] && deepComponentGlyphSet.glyphs == map[]
      ensures atomicElementGlyphSet.glyphs == map[]
      ensures Valid() && characterGlyphSet.ModelsDeclared()
      ensures deepComponentGlyphSet.ModelsDeclared() && atomicElementGlyphSet.ModelsDeclared()
    {
      root, varLib, trig := d, ops, radians;
      characterGlyphSet := new GlyphSet(SubDir(d, CharacterGlyphDir));
      deepComponentGlyphSet := new GlyphSet(SubDir(d, DeepComponentDir));
      atomicElementGlyphSet := new GlyphSet(SubDir(d, AtomicElementDir));
      CharacterGlyphs, DeepComponentGlyphs, AtomicElementGlyphs := {}, {}, {};
    }

    /** `atomicElementGlyphSet.getGlyph(name).instantiate(location)`. */
    method LoadAtomicElement(name: Value, location: Dict) returns (r: Result<GlyphValue>)
      requires Valid() && atomicElementGlyphSet.ModelsDeclared()
      modifies atomicElementGlyphSet.Repr, AtomicElementGlyphs, this`AtomicElementGlyphs
      ensures Valid() && atomicElementGlyphSet.ModelsDeclared()
      ensures AtomsGrew()
      ensures GlyphName(name).Err? ==> r == Err(GlyphName(name).error)
      ensures name.Str? && name.s !in atomicElementGlyphSet.dir.files ==> r == Err(FileNotFound(name.s))
      ensures r.Ok? ==> name.Str? && atomicElementGlyphSet.Resolves(name.s, location, varLib, r.value)
      ensures r.Err? ==> GlyphName(name).Err? || LoadFaults(atomicElementGlyphSet.dir, name.s, varLib)
      ensures forall k, a, v | old(atomicElementGlyphSet.Resolves(k, a, varLib, v)) ::
                atomicElementGlyphSet.Resolves(k, a, varLib, v)
    {
      var n := GlyphName(name);
      if n.Err? {
        return Err(n.error);
      }
      r := atomicElementGlyphSet.Load(n.value, location, varLib, AtomicElementGlyphs);
      AdoptAtomicElements(atomicElementGlyphSet.Below - old(atomicElementGlyphSet.Below) +
        (if n.value in atomicElementGlyphSet.glyphs then {atomicElementGlyphSet.glyphs[n.value]} else {}));
    }

    /** `instantiateAtomicElement`: the atomic element's instance at
        `location`, its outline transformed by `transform`. The ghost
        `instance` is that instance, as the store now keeps it. */
    method InstantiateAtomicElement(name: Value, location: Dict, transform: Affine)
      returns (r: Result<Outlines.Outline>, ghost instance: Option<GlyphValue>)
      requires Valid() && atomicElementGlyphSet.ModelsDeclared()
      modifies atomicElementGlyphSet.Repr, AtomicElementGlyphs, this`AtomicElementGlyphs
      ensures Valid() && atomicElementGlyphSet.ModelsDeclared()
      ensures AtomsGrew()
      ensures GlyphName(name).Err? ==> r == Err(GlyphName(name).error)
      ensures name.Str? && name.s !in atomicElementGlyphSet.dir.files ==> r == Err(FileNotFound(name.s))
      ensures instance.None? ==> r.Err? && (GlyphName(name).Err? || LoadFaults(atomicElementGlyphSet.dir, name.s, varLib))
      ensures instance.Some? ==>
                name.Str? && atomicElementGlyphSet.Resolves(name.s, location, varLib, instance.value) &&
                r == Outlines.Mapped(instance.value.outline, Outlines.TransformPoint(transform))
      ensures forall k, a, v | old(atomicElementGlyphSet.Resolves(k, a, varLib, v)) ::
                atomicElementGlyphSet.Resolves(k, a, varLib, v)
    {
      var glyph := LoadAtomicElement(name, location);
      if glyph.Err? {
        r, instance := Err(glyph.error), None;
      } else {
        instance := Some(glyph.value);
        r := Outlines.Transform(glyph.value.outline, transform);
      }
    }

    /** Adds the glyphs the atomic-element store has just created to its
        pool. */
    ghost method AdoptAtomicElements(gs: set<Glyph>)
      requires Holds(characterGlyphSet, CharacterGlyphs) && Holds(deepComponentGlyphSet, DeepComponentGlyphs)
      requires Holds(atomicElementGlyphSet, AtomicElementGlyphs + gs) && Apart()
      requires gs !! CharacterGlyphs && gs !! DeepComponentGlyphs
      modifies this`AtomicElementGlyphs
      ensures AtomicElementGlyphs == old(AtomicElementGlyphs) + gs
      ensures Valid()
    {
      AtomicElementGlyphs := AtomicElementGlyphs + gs;
    }

    /** Adds the glyphs the deep-component store has just created to its
        pool. */
    ghost method AdoptDeepComponents(gs: set<Glyph>)
      requires Holds(characterGlyphSet, CharacterGlyphs) && Holds(deepComponentGlyphSet, DeepComponentGlyphs + gs)
      requires Holds(atomicElementGlyphSet, AtomicElementGlyphs) && Apart()
      requires gs !! CharacterGlyphs && gs !! AtomicElementGlyphs
      modifies this`DeepComponentGlyphs
      ensures DeepComponentGlyphs == old(DeepComponentGlyphs) + gs
      ensures Valid()
    {
      DeepComponentGlyphs := DeepComponentGlyphs + gs;
    }

    /** Adds the glyphs the character-glyph store has just created to its
        pool. */
    ghost method AdoptCharacterGlyphs(gs: set<Glyph>)
      requires Holds(characterGlyphSet, CharacterGlyphs + gs) && Holds(deepComponentGlyphSet, DeepComponentGlyphs)
      requires Holds(atomicElementGlyphSet, AtomicElementGlyphs) && Apart()
      requires gs !! DeepComponentGlyphs && gs !! AtomicElementGlyphs
      modifies this`CharacterGlyphs
      ensures CharacterGlyphs == old(CharacterGlyphs) + gs
      ensures Valid()
    {
      CharacterGlyphs := CharacterGlyphs + gs;
    }

    /** One pass of the loop of `instantiateDeepComponent`: the component's
        placement, composed after `transform`, and the atomic element it
        names, instantiated at its coordinate and placed by that. */
    method PlaceAtom(c: Component, transform: Affine) returns (r: Result<AtomicItem>, ghost atom: GlyphValue)
      requires Valid() && atomicElementGlyphSet.ModelsDeclared()
      modifies atomicElementGlyphSet.Repr, AtomicElementGlyphs, this`AtomicElementGlyphs
      ensures Valid() && atomicElementGlyphSet.ModelsDeclared()
      ensures AtomsGrew()
      ensures ComponentError(c, atomicElementGlyphSet.dir, trig).Some? ==>
                r == Err(ComponentError(c, atomicElementGlyphSet.dir, trig).value)
      ensures r.Ok? ==>
                PlacesAtom(r.value, c, atom, transform, trig) &&
                c.name.Str? && atomicElementGlyphSet.Resolves(c.name.s, c.coord, varLib, atom)
      ensures r.Err? ==> AtomFails(c, transform)
      ensures forall k, a, v | old(atomicElementGlyphSet.Resolves(k, a, varLib, v)) ::
                atomicElementGlyphSet.Resolves(k, a, varLib, v)
    {
      var placement := Placement(c, trig);
      if placement.Err? {
        r, atom := Err(placement.error), GlyphValue(None, [], 0.0, [], []);
      } else {
        var outline;
        ghost var instance;
        outline, instance := InstantiateAtomicElement(c.name, c.coord, Compose(transform, placement.value));
        if outline.Err? {
          r, atom := Err(outline.error), GlyphValue(None, [], 0.0, [], []);
        } else {
          r, atom := Ok(AtomicItem(c.name, outline.value)), instance.value;
        }
      }
    }

    /** One pass of the loop of `instantiateDeepComponent`: the items for
        `components[..i]` extended with the one for `components[i]`. */
    method PlaceNextAtom(components: seq<Component>, i: nat, transform: Affine, items: seq<AtomicItem>,
                         ghost atoms: seq<GlyphValue>)
      returns (r: Result<seq<AtomicItem>>, ghost atoms': seq<GlyphValue>)
      requires Valid() && atomicElementGlyphSet.ModelsDeclared() && i < |components|
      requires PlacesAtoms(items, components[..i], atoms, transform, trig) && AtomsResolved(components[..i], atoms)
      modifies atomicElementGlyphSet.Repr, AtomicElementGlyphs, this`AtomicElementGlyphs
      ensures Valid() && atomicElementGlyphSet.ModelsDeclared()
      ensures AtomsGrew()
      ensures r.Ok? ==>
                PlacesAtoms(r.value, components[..i + 1], atoms', transform, trig) &&
                AtomsResolved(components[..i + 1], atoms')
      ensures r.Err? ==>
                atoms' == atoms && AtomsResolved(components[..i], atoms) &&
                (ComponentError(components[i], atomicElementGlyphSet.dir, trig).Some? ==>
                   r == Err(ComponentError(components[i], atomicElementGlyphSet.dir, trig).value)) &&
                AtomFails(components[i], transform)
      ensures forall k, a, v | old(atomicElementGlyphSet.Resolves(k, a, varLib, v)) ::
                atomicElementGlyphSet.Resolves(k, a, varLib, v)
    {
      var item;
      ghost var atom;
      item, atom := PlaceAtom(components[i], transform);
      if item.Err? {
        return Err(item.error), atoms;
      }
      PlacesAtomsSnoc(items, components, i, atoms, item.value, atom, transform, trig);
      AtomsResolvedSnoc(components, i, atoms, atom);
      r, atoms' := Ok(items + [item.value]), atoms + [atom];
    }

    /** The loop of `instantiateDeepComponent`: for each component in order,
        the atomic element it names, instantiated at the component's
        coordinate and placed by `transform` composed with the component's
        own transform (`makeTransform(**component.transform)`, applied
        first). The ghost `atoms` are the atomic instances, one per item,
        or, when a component fails, one per component before it. */
    method PlaceAtoms(components: seq<Component>, transform: Affine)
      returns (r: Result<seq<AtomicItem>>, ghost atoms: seq<GlyphValue>)
      requires Valid() && atomicElementGlyphSet.ModelsDeclared()
      modifies atomicElementGlyphSet.Repr, AtomicElementGlyphs, this`AtomicElementGlyphs
      ensures Valid() && atomicElementGlyphSet.ModelsDeclared()
      ensures AtomsGrew()
      ensures AtomsPlaced(components, transform, r, atoms)
      ensures forall k, a, v | old(atomicElementGlyphSet.Resolves(k, a, varLib, v)) ::
                atomicElementGlyphSet.Resolves(k, a, varLib, v)
      ensures deepComponentGlyphSet.Repr == old(deepComponentGlyphSet.Repr) && DeepComponentGlyphs == old(DeepComponentGlyphs)
      ensures forall k, a, v | old(deepComponentGlyphSet.Resolves(k, a, varLib, v)) ::
                deepComponentGlyphSet.Resolves(k, a, varLib, v)
      ensures old(deepComponentGlyphSet.ModelsDeclared()) ==> deepComponentGlyphSet.ModelsDeclared()
    {
      label Start:
      atoms := [];
      var items := [];
      var i := 0;
      while i < |components|
        invariant 0 <= i <= |components|
        invariant Valid() && atomicElementGlyphSet.ModelsDeclared()
        invariant AtomsGrew()
        invariant PlacesAtoms(items, components[..i], atoms, transform, trig)
        invariant AtomsResolved(components[..i], atoms)
        invariant forall k, a, v | old(atomicElementGlyphSet.Resolves(k, a, varLib, v)) ::
                    atomicElementGlyphSet.Resolves(k, a, varLib, v)
      {
        var next;
        next, atoms := PlaceNextAtom(components, i, transform, items, atoms);
        if next.Err? {
          DeepsKept@Start();
          return Err(next.error), atoms;
        }
        items, i := next.value, i + 1;
      }
      assert components[..i] == components;
      r := Ok(items);
      DeepsKept@Start();
    }
    /** `deepComponentGlyphSet.getGlyph(name).instantiate(location)`. */
    method LoadDeepComponent(name: Value, location: Dict) returns (r: Result<GlyphValue>)
      requires Valid() && deepComponentGlyphSet.ModelsDeclared()
      modifies deepComponentGlyphSet.Repr, DeepComponentGlyphs, this`DeepComponentGlyphs
      ensures Valid() && deepComponentGlyphSet.ModelsDeclared()
      ensures DeepsGrew()
      ensures GlyphName(name).Err? ==> r == Err(GlyphName(name).error)
      ensures name.Str? && name.s !in deepComponentGlyphSet.dir.files ==> r == Err(FileNotFound(name.s))
      ensures r.Ok? ==> name.Str? && deepComponentGlyphSet.Resolves(name.s, location, varLib, r.value)
      ensures r.Err? ==> GlyphName(name).Err? || LoadFaults(deepComponentGlyphSet.dir, name.s, varLib)
      ensures forall k, a, v | old(deepComponentGlyphSet.Resolves(k, a, varLib, v)) ::
                deepComponentGlyphSet.Resolves(k, a, varLib, v)
      ensures atomicElementGlyphSet.Repr == old(atomicElementGlyphSet.Repr) && AtomicElementGlyphs == old(AtomicElementGlyphs)
    {
      var n := GlyphName(name);
      if n.Err? {
        return Err(n.error);
      }
      r := deepComponentGlyphSet.Load(n.value, location, varLib, DeepComponentGlyphs);
      AdoptDeepComponents(deepComponentGlyphSet.Below - old(deepComponentGlyphSet.Below) +
        (if n.value in deepComponentGlyphSet.glyphs then {deepComponentGlyphSet.glyphs[n.value]} else {}));
    }

    /** What the deep-component store resolves survives a step that leaves
        the store and its cached glyphs untouched. */
    twostate lemma DeepsKept()
      requires unchanged(deepComponentGlyphSet) && unchanged(deepComponentGlyphSet.glyphs.Values)
      ensures forall k, a, v | old(deepComponentGlyphSet.Resolves(k, a, varLib, v)) ::
                deepComponentGlyphSet.Resolves(k, a, varLib, v)
      ensures old(deepComponentGlyphSet.ModelsDeclared()) ==> deepComponentGlyphSet.ModelsDeclared()
    {
    }

    /** What the atomic-element store resolves survives a step that leaves
        the store and its cached glyphs untouched. */
    twostate lemma AtomsKept()
      requires unchanged(atomicElementGlyphSet) && unchanged(atomicElementGlyphSet.glyphs.Values)
      ensures forall k, a, v | old(atomicElementGlyphSet.Resolves(k, a, varLib, v)) ::
                atomicElementGlyphSet.Resolves(k, a, varLib, v)
      ensures old(atomicElementGlyphSet.ModelsDeclared()) ==> atomicElementGlyphSet.ModelsDeclared()
    {
    }

    /** What the two component stores resolve survives a step in which
        everything either resolved still resolves. */
    twostate lemma DeepsResolvedKept()
      requires forall k, a, v | old(deepComponentGlyphSet.Resolves(k, a, varLib, v)) ::
                 deepComponentGlyphSet.Resolves(k, a, varLib, v)
      requires forall k, a, v | old(atomicElementGlyphSet.Resolves(k, a, varLib, v)) ::
                 atomicElementGlyphSet.Resolves(k, a, varLib, v)
      ensures forall cs, ds, ats | old(DeepsResolved(cs, ds, ats)) :: DeepsResolved(cs, ds, ats)
    {
    }

    /** `instantiateDeepComponent`: the deep component's instance at
        `location`; then, for each of its components in order, the atomic
        element it names, instantiated at the component's coordinate and
        placed by `transform` composed with the component's own transform.
        The ghost `instance` is the deep component's instance, as its store
        now keeps it, and `atoms` are the atomic instances, one per item or,
        when a component fails, one per component before it. */
    method InstantiateDeepComponent(name: Value, location: Dict, transform: Affine)
      returns (r: Result<seq<AtomicItem>>, ghost instance: Option<GlyphValue>, ghost atoms: seq<GlyphValue>)
      requires Valid() && deepComponentGlyphSet.ModelsDeclared() && atomicElementGlyphSet.ModelsDeclared()
      modifies deepComponentGlyphSet.Repr, DeepComponentGlyphs, this`DeepComponentGlyphs
      modifies atomicElementGlyphSet.Repr, AtomicElementGlyphs, this`AtomicElementGlyphs
      ensures Valid() && deepComponentGlyphSet.ModelsDeclared() && atomicElementGlyphSet.ModelsDeclared()
      ensures DeepsGrew()
      ensures AtomsGrew()
      ensures GlyphName(name).Err? ==> r == Err(GlyphName(name).error)
      ensures name.Str? && name.s !in deepComponentGlyphSet.dir.files ==> r == Err(FileNotFound(name.s))
      ensures instance.None? ==> r.Err? && (GlyphName(name).Err? || LoadFaults(deepComponentGlyphSet.dir, name.s, varLib))
      ensures instance.Some? ==> name.Str? && deepComponentGlyphSet.Resolves(name.s, location, varLib, instance.value)
      ensures r.Ok? ==> instance.Some?
      ensures instance.Some? ==> AtomsPlaced(instance.value.components, transform, r, atoms)
      ensures forall k, a, v | old(deepComponentGlyphSet.Resolves(k, a, varLib, v)) ::
                deepComponentGlyphSet.Resolves(k, a, varLib, v)
      ensures forall k, a, v | old(atomicElementGlyphSet.Resolves(k, a, varLib, v)) ::
                atomicElementGlyphSet.Resolves(k, a, varLib, v)
    {
      label Start:
      var glyph := LoadDeepComponent(name, location);
      AtomsKept@Start();
      if glyph.Err? {
        r, instance, atoms := Err(glyph.error), None, [];
      } else {
        instance := Some(glyph.value);
        r, atoms := PlaceAtoms(glyph.value.components, transform);
      }
    }

    /** One pass of the loop of `instantiateCharacterGlyph`: the deep
        component the component names, instantiated at its coordinate and
        placed by its own transform. */
    method PlaceDeep(c: Component) returns (r: Result<DeepItem>, ghost deep: GlyphValue, ghost atoms: seq<GlyphValue>)
      requires Valid() && deepComponentGlyphSet.ModelsDeclared() && atomicElementGlyphSet.ModelsDeclared()
      modifies deepComponentGlyphSet.Repr, DeepComponentGlyphs, this`DeepComponentGlyphs
      modifies atomicElementGlyphSet.Repr, AtomicElementGlyphs, this`AtomicElementGlyphs
      ensures Valid() && deepComponentGlyphSet.ModelsDeclared() && atomicElementGlyphSet.ModelsDeclared()
      ensures DeepsGrew()
      ensures AtomsGrew()
      ensures ComponentError(c, deepComponentGlyphSet.dir, trig).Some? ==>
                r == Err(ComponentError(c, deepComponentGlyphSet.dir, trig).value)
      ensures r.Ok? ==>
                r.value.name == c.name && Placement(c, trig).Ok? &&
                PlacesAtoms(r.value.atomicElements, deep.components, atoms, Placement(c, trig).value, trig) &&
                c.name.Str? && deepComponentGlyphSet.Resolves(c.name.s, c.coord, varLib, deep) &&
                AtomsResolved(deep.components, atoms)
      ensures r.Err? ==> DeepFails(c)
      ensures forall cs, ds, ats | old(DeepsResolved(cs, ds, ats)) :: DeepsResolved(cs, ds, ats)
    {
      var placement := Placement(c, trig);
      if placement.Err? {
        return Err(placement.error), GlyphValue(None, [], 0.0, [], []), [];
      }
      var items;
      ghost var instance;
      items, instance, atoms := InstantiateDeepComponent(c.name, c.coord, placement.value);
      if items.Err? {
        r, deep := Err(items.error), GlyphValue(None, [], 0.0, [], []);
      } else {
        r, deep := Ok(DeepItem(c.name, items.value)), instance.value;
      }
      DeepsResolvedKept();
    }

    /** One pass of the loop of `instantiateCharacterGlyph`: the items for
        `components[..i]` extended with the one for `components[i]`. */
    method PlaceNextDeep(components: seq<Component>, i: nat, items: seq<DeepItem>,
                         ghost deeps: seq<GlyphValue>, ghost atoms: seq<seq<GlyphValue>>)
      returns (r: Result<seq<DeepItem>>, ghost deeps': seq<GlyphValue>, ghost atoms': seq<seq<GlyphValue>>)
      requires Valid() && deepComponentGlyphSet.ModelsDeclared() && atomicElementGlyphSet.ModelsDeclared() && i < |components|
      requires PlacesDeep(items, components[..i], deeps, atoms, trig) && DeepsResolved(components[..i], deeps, atoms)
      modifies deepComponentGlyphSet.Repr, DeepComponentGlyphs, this`DeepComponentGlyphs
      modifies atomicElementGlyphSet.Repr, AtomicElementGlyphs, this`AtomicElementGlyphs
      ensures Valid() && deepComponentGlyphSet.ModelsDeclared() && atomicElementGlyphSet.ModelsDeclared()
      ensures DeepsGrew()
      ensures AtomsGrew()
      ensures r.Ok? ==>
                PlacesDeep(r.value, components[..i + 1], deeps', atoms', trig) &&
                DeepsResolved(components[..i + 1], deeps', atoms')
      ensures r.Err? ==>
                deeps' == deeps && atoms' == atoms && DeepsResolved(components[..i], deeps, atoms) &&
                (ComponentError(components[i], deepComponentGlyphSet.dir, trig).Some? ==>
                   r == Err(ComponentError(components[i], deepComponentGlyphSet.dir, trig).value)) &&
                DeepFails(components[i])
    {
      var item;
      ghost var deep, atom;
      item, deep, atom := PlaceDeep(components[i]);
      if item.Err? {
        return Err(item.error), deeps, atoms;
      }
      PlacesDeepSnoc(items, components, i, deeps, atoms, item.value, deep, atom, trig);
      DeepsResolvedSnoc(components, i, deeps, atoms, deep, atom);
      r, deeps', atoms' := Ok(items + [item.value]), deeps + [deep], atoms + [atom];
    }

    /** The loop of `instantiateCharacterGlyph`: for each component in
        order, the deep component it names, instantiated at the component's
        coordinate and placed by its own transform. The ghost `deeps` are
        the deep-component instances and `atoms` their atomic instances, one
        per item or, when a component fails, one per component before it. */
    method PlaceDeeps(components: seq<Component>)
      returns (r: Result<seq<DeepItem>>, ghost deeps: seq<GlyphValue>, ghost atoms: seq<seq<GlyphValue>>)
      requires Valid() && deepComponentGlyphSet.ModelsDeclared() && atomicElementGlyphSet.ModelsDeclared()
      modifies deepComponentGlyphSet.Repr, DeepComponentGlyphs, this`DeepComponentGlyphs
      modifies atomicElementGlyphSet.Repr, AtomicElementGlyphs, this`AtomicElementGlyphs
      ensures Valid() && deepComponentGlyphSet.ModelsDeclared() && atomicElementGlyphSet.ModelsDeclared()
      ensures DeepsGrew()
      ensures AtomsGrew()
      ensures DeepsPlaced(components, r, deeps, atoms)
      ensures unchanged(characterGlyphSet) && unchanged(characterGlyphSet.glyphs.Values)
    {
      deeps, atoms := [], [];
      var items := [];
      var i := 0;
      while i < |components|
        invariant 0 <= i <= |components|
        invariant Valid() && deepComponentGlyphSet.ModelsDeclared() && atomicElementGlyphSet.ModelsDeclared()
        invariant DeepsGrew()
        invariant AtomsGrew()
        invariant PlacesDeep(items, components[..i], deeps, atoms, trig)
        invariant DeepsResolved(components[..i], deeps, atoms)
      {
        var next;
        next, deeps, atoms := PlaceNextDeep(components, i, items, deeps, atoms);
        if next.Err? {
          return Err(next.error), deeps, atoms;
        }
        items, i := next.value, i + 1;
      }
      assert components[..i] == components;
      r := Ok(items);
    }

    /** `characterGlyphGlyphSet.getGlyph(name).instantiate(location)`. */
    method LoadCharacterGlyph(name: string, location: Dict) returns (r: Result<GlyphValue>)
      requires Valid() && characterGlyphSet.ModelsDeclared()
      modifies characterGlyphSet.Repr, CharacterGlyphs, this`CharacterGlyphs
      ensures Valid() && characterGlyphSet.ModelsDeclared()
      ensures CharsGrew()
      ensures name !in characterGlyphSet.dir.files ==> r == Err(FileNotFound(name))
      ensures r.Ok? ==> characterGlyphSet.Resolves(name, location, varLib, r.value)
      ensures r.Err? ==> LoadFaults(characterGlyphSet.dir, name, varLib)
      ensures deepComponentGlyphSet.Repr == old(deepComponentGlyphSet.Repr) && DeepComponentGlyphs == old(DeepComponentGlyphs)
      ensures atomicElementGlyphSet.Repr == old(atomicElementGlyphSet.Repr) && AtomicElementGlyphs == old(AtomicElementGlyphs)
      ensures old(deepComponentGlyphSet.ModelsDeclared()) ==> deepComponentGlyphSet.ModelsDeclared()
      ensures old(atomicElementGlyphSet.ModelsDeclared()) ==> atomicElementGlyphSet.ModelsDeclared()
    {
      r := characterGlyphSet.Load(name, location, varLib, CharacterGlyphs);
      AdoptCharacterGlyphs(characterGlyphSet.Below - old(characterGlyphSet.Below) +
        (if name in characterGlyphSet.glyphs then {characterGlyphSet.glyphs[name]} else {}));
    }

    /** `instantiateCharacterGlyph`: the character glyph's instance at
        `location`, with its outline and width, and for each of its
        components in order the deep component it names, resolved down to
        atomic elements. The ghost `instance` is the character glyph's
        instance, as its store now keeps it; `deeps` and `atoms` are the
        deep-component and atomic instances the items were made from, as
        their stores now keep them. */
    method InstantiateCharacterGlyph(name: string, location: Dict)
      returns (r: Result<CharacterInstance>, ghost instance: Option<GlyphValue>,
               ghost deeps: seq<GlyphValue>, ghost atoms: seq<seq<GlyphValue>>)
      requires Valid() && characterGlyphSet.ModelsDeclared() && deepComponentGlyphSet.ModelsDeclared() && atomicElementGlyphSet.ModelsDeclared()
      modifies characterGlyphSet.Repr, CharacterGlyphs, this`CharacterGlyphs
      modifies deepComponentGlyphSet.Repr, DeepComponentGlyphs, this`DeepComponentGlyphs
      modifies atomicElementGlyphSet.Repr, AtomicElementGlyphs, this`AtomicElementGlyphs
      ensures Valid() && characterGlyphSet.ModelsDeclared() && deepComponentGlyphSet.ModelsDeclared() && atomicElementGlyphSet.ModelsDeclared()
      ensures CharsGrew()
      ensures DeepsGrew()
      ensures AtomsGrew()
      ensures name !in characterGlyphSet.dir.files ==> r == Err(FileNotFound(name))
      ensures instance.None? ==> r.Err? && LoadFaults(characterGlyphSet.dir, name, varLib)
      ensures instance.Some? ==> characterGlyphSet.Resolves(name, location, varLib, instance.value)
      ensures r.Ok? ==>
                instance.Some? && r.value.outline == instance.value.outline &&
                r.value.width == instance.value.width
      ensures instance.Some? ==>
                DeepsPlaced(instance.value.components, if r.Ok? then Ok(r.value.deepItems) else Err(r.error), deeps, atoms)
    {
      var glyph := LoadCharacterGlyph(name, location);
      if glyph.Err? {
        return Err(glyph.error), None, [], [];
      }
      label Loaded:
      instance := Some(glyph.value);
      var items;
      items, deeps, atoms := PlaceDeeps(glyph.value.components);
      assert forall o: object | o in deepComponentGlyphSet.Repr - old@Loaded(deepComponentGlyphSet.Repr) :: !old(allocated(o));
      if items.Err? {
        r := Err(items.error);
      } else {
        r := Ok(CharacterInstance(glyph.value.outline, items.value, glyph.value.width));
      }
    }
  }
}
