# rcjk-tools: the glyph composition and interpolation engine, in Dafny

This project models the engine in `Lib/rcjktools/project.py` of rcjk-tools. The engine turns a RoboCJK project directory into drawable character glyphs. It has three tiers:

- A **character glyph** is drawn from its own outline plus a list of **deep components**.
- Each deep component is a list of **atomic elements**.
- Each reference is a `Component` that carries three things: a glyph name, a design-space coordinate at which the referenced glyph is instantiated, and a transform record that places it.

The model covers the following parts of the source:

- **Blend algebra** (`math_dict.dfy`, `outlines.dfy`, `glyphs.dfy`).
  - `MathDict`, `MathOutline`, `Component` and `Glyph` add, subtract and scale.
  - A `MathDict` blend takes the union of keys. A key present on one side only is combined with itself.
  - Unequal non-numeric entries raise `InterpolationError`.
  - Outlines must agree operation by operation. They are combined point by point.
  - Glyphs pair their components by position, as `zip` does.
- **Outline transforms** (`outlines.dfy`). `applyUnaryFunc` and `transform` keep the pen-operation structure and change only the coordinates. Applying two transforms in turn equals applying their composition.
- **`makeTransform`** (`transforms.dfy`).
  - It builds the affine matrix: scale, then translate by minus the scaled rotation centre, then rotate, then translate by (x, y) plus the scaled rotation centre.
  - Its closed form is proved, along with the identity case and the rotation-centre (pivot) property.
- **The glyph store** (`store.dfy`).
  - `GlyphSet` is a class. It has a cache of parsed glyphs and a cache of layer sub-stores. The caches form a tree of disjoint stores.
  - `Glyph` is a class whose `components`, `location`, `variations`, `model` and `deltas` fields are filled in place:
    - `_postParse` decodes the component records and builds one variation master per declared axis.
    - `instantiate` computes the deltas once and interpolates at the clamped location.
- **The three-tier resolver** (`project.dfy`).
  - `RoboCJKProject` holds three stores. `instantiateCharacterGlyph`, `instantiateDeepComponent` and `instantiateAtomicElement` resolve a character glyph down to transformed atomic outlines.
  - The resolvers compose the parent transform with each component's own placement.
  - It is proved that drawing an atomic element this way equals placing it in its deep component and then placing that result in the character glyph.

**How the model represents the source's data:**

- A Python dictionary is a `map` and loses its insertion order.
- A number is a `real`.
- A point-pen recording is a sequence of `PenOp`s.
- The filesystem is a `Dir` value: a map from glyph names to parsed sources, plus a map from layer names to sub-directories.
- fontTools' `VariationModel` is a `ModelOps` value passed as a parameter. It has three parts: whether it accepts the master locations, `getDeltas`, and `interpolateFromDeltas`.
- The conversion from degrees to a rotation is also a parameter, `trig`.

**Aliasing of layer glyphs.** A variation master read from a layer is the very object cached in that layer's store, and `_postParse` appends components to it and sets its location. If two axes name the same layer, both passes work on one object:

- The second pass appends the component records again. When there are any, the component-count assertion fails.
- When there are none, the second axis's location overwrites the first.

The model keeps this behaviour, because the master is the cached object. For the same reason, `Store.Glyph.PostParse` states each master's source and component count after the whole loop, but not its location (see "Left out").

## Model

| member | source | states |
|---|---|---|
| MathDict.DoUnaryOperator | Lib/rcjktools/project.py:307-314 | the result has the same keys; numeric entries are multiplied by the scalar and every other entry is copied unchanged |
| MathDict.Scaled | Lib/rcjktools/project.py:307-314 | `d * k` keeps every key and whether each entry is a number; scaling by 1 gives back d |
| MathDict.Blended | Lib/rcjktools/project.py:316-331 | a successful blend has exactly the union of keys; the only errors are TypeError and InterpolationError("incompatible dicts"); `d + d` doubles every number and keeps every other entry |
| MathDict.DoBinaryOperator | Lib/rcjktools/project.py:316-331 | the loop succeeds exactly when the blend does and then yields it; on failure the error is the one some key of the union raises |
| MathDict.BlendedEntries | Lib/rcjktools/project.py:316-331 | a successful blend has exactly the union of keys; a shared key combines both values; a key on one side only is combined with itself |
| MathDict.OneSidedKey | Lib/rcjktools/project.py:317-326 | a numeric entry present only on the left becomes 2v under addition and 0 under subtraction |
| MathDict.BlendedFailure | Lib/rcjktools/project.py:323-330 | a blend fails exactly when some key's two views cannot be combined; when unequal non-numbers under a shared key fail and no number meets a non-number there, the error is InterpolationError("incompatible dicts"); when a number meets a non-number and no non-numbers disagree, it is TypeError |
| MathDict.AddThenSubtract | Lib/rcjktools/project.py:316-331 | for dictionaries with the same keys, adding b and then subtracting b gives back a |
| MathDict.ScaleDistributes | Lib/rcjktools/project.py:307-331 | scaling both operands and adding them gives the scaled sum, and the same failure when the sum fails |
| Transforms.ComposeApply | Lib/rcjktools/project.py:55 | `t.transform(u)` applies u first, then t |
| Transforms.MakeTransform | Lib/rcjktools/project.py:402-411 | the matrix in closed form: the linear part is the scale followed by the rotation, and the offset is (x, y) plus the scaled centre minus the rotated scaled centre |
| Transforms.MakeTransformFromRecord | Lib/rcjktools/project.py:402-411 | `makeTransform(**record)`: a missing argument, an unexpected keyword or a non-numeric value raises TypeError, and TypeError is the only error |
| Transforms.MakeTransformFromRecordPivot | Lib/rcjktools/project.py:402-411 | a record's rotation centre lands at the record's (x, y) plus the scaled centre |
| Transforms.MakeTransformApply | Lib/rcjktools/project.py:402-411 | closed form: scale, subtract the scaled centre, rotate, then add (x + scaled centre x, y + scaled centre y) |
| Transforms.MakeTransformIdentity | Lib/rcjktools/project.py:402-411 | no translation, no rotation and unit scale give the identity, whatever the rotation centre |
| Transforms.MakeTransformPivot | Lib/rcjktools/project.py:402-411 | the rotation centre (rcx, rcy) maps to (x + rcx·scalex, y + rcy·scaley) for every rotation |
| Outlines.ApplyUnaryFunc | Lib/rcjktools/project.py:350-362 | the loop yields the outline with every operation mapped, or the AssertionError of the first unsupported operation |
| Outlines.Transform | Lib/rcjktools/project.py:345-348 | transforming maps every point through `t.transformPoint` |
| Outlines.DoUnaryOperator | Lib/rcjktools/project.py:364-368 | scaling maps every point to (x·k, y·k) |
| Outlines.DoBinaryOperator | Lib/rcjktools/project.py:370-391 | the loop yields the blend of the two recordings, failing as it does |
| Outlines.Mapped | Lib/rcjktools/project.py:350-362 | a mapped outline has as many operations as the original; the only error is AssertionError |
| Outlines.Blended | Lib/rcjktools/project.py:370-391 | a blend has as many operations as each operand; the only errors are InterpolationError("incompatible outline") and AssertionError |
| Outlines.EmptyOutlines | Lib/rcjktools/project.py:336-337 | `isEmpty` is kept by mapping; an empty outline maps to an empty one and blends exactly with an empty one |
| Outlines.MappedSpec | Lib/rcjktools/project.py:350-362 | mapping succeeds exactly when no operation is an unsupported method, and then maps each operation in place |
| Outlines.MappedKeepsStructure | Lib/rcjktools/project.py:350-362 | the result has the same length and method sequence; each point keeps its segment type, smooth flag, name and identifier and only its coordinates change, to f(pt) |
| Outlines.ScaledPoints | Lib/rcjktools/project.py:364-368 | scaling keeps the length and turns each point into (x·k, y·k) with the same attributes |
| Outlines.TransformTwice | Lib/rcjktools/project.py:345-348 | transforming by u and then by t equals transforming by `t.transform(u)` |
| Outlines.BlendOpsSpec | Lib/rcjktools/project.py:375-390 | the pairwise loop succeeds exactly when every pair of operations blends, and then blends each pair in place |
| Outlines.BlendedSpec | Lib/rcjktools/project.py:370-391 | a blend succeeds exactly when the lengths agree and every pair blends |
| Outlines.BlendedFailures | Lib/rcjktools/project.py:372-382 | different lengths give InterpolationError("incompatible outline"); a method mismatch at some index or a segment-type mismatch at some point makes the blend fail; when the left outline holds no addComponent, every failure is InterpolationError("incompatible outline") |
| Outlines.BlendedStructure | Lib/rcjktools/project.py:375-388 | a successful blend follows the left operand's method sequence; each point is (op(x1,x2), op(y1,y2)) with the left point's segment type, smooth flag, name and identifier |
| Outlines.AddThenSubtract | Lib/rcjktools/project.py:370-391 | adding b and then subtracting b gives back a, when a's beginPath carries no identifier (the result's beginPath drops it) |
| Outlines.ScaleDistributes | Lib/rcjktools/project.py:364-391 | scaling both outlines and adding them equals scaling their sum |
| Glyphs.BlendComponentsSpec | Lib/rcjktools/project.py:263-266 | blending components succeeds exactly when every pair up to the shorter length blends, and the result pairs them by index |
| Glyphs.BlendGlyphSpec | Lib/rcjktools/project.py:257-267 | a glyph blend succeeds exactly when outlines and paired components blend; it keeps the left name and unicodes, combines the widths and blends the outline and the components |
| Glyphs.BlendComponent | Lib/rcjktools/project.py:280-292 | a component blend keeps the left name, and its coordinate and transform have the union of both operands' keys; the only errors are TypeError and InterpolationError("incompatible dicts") |
| Glyphs.ScaleComponent | Lib/rcjktools/project.py:294-302 | scaling keeps the name and the keys of the coordinate and the transform; scaling by 1 gives back the component |
| Glyphs.BlendGlyph | Lib/rcjktools/project.py:257-267 | a glyph blend keeps the left name and unicodes and the outline length; outlines of different lengths give InterpolationError("incompatible outline") |
| Glyphs.ScaleGlyph | Lib/rcjktools/project.py:248-255 | scaling keeps the name, the unicodes, the outline length and the component count; the only error is AssertionError |
| Glyphs.ComponentsTruncate | Lib/rcjktools/project.py:263-266 | component counts need not agree: the blend, failing or not, is that of the two prefixes as long as the shorter list |
| Glyphs.ComponentAddThenSubtract | Lib/rcjktools/project.py:280-292 | adding a component and subtracting it again gives back the original, when each record of c1 has the same keys as the matching record of c2 |
| Glyphs.GlyphAddThenSubtract | Lib/rcjktools/project.py:257-267 | adding a glyph and subtracting it again gives back the original, when both have equally many components with matching record keys and no beginPath carries an identifier |
| Glyphs.ComponentScaleDistributes | Lib/rcjktools/project.py:280-299 | scaling two components and adding them equals scaling their sum |
| Glyphs.ComponentsScaleDistribute | Lib/rcjktools/project.py:254 | scaling distributes over the paired blend of component lists |
| Glyphs.GlyphScaleDistributes | Lib/rcjktools/project.py:248-267 | scaling distributes over the glyph sum: width, outline and components |
| Glyphs.ClampLocation | Lib/rcjktools/project.py:270-271 | the clamped location has the same keys; every value is in [0, 1]; values already in [0, 1] are unchanged; a non-number raises TypeError |
| Glyphs.ClampIdempotent | Lib/rcjktools/project.py:270-271 | clamping a clamped location changes nothing |
| Glyphs.AsMapping | Lib/rcjktools/project.py:418 | `MathDict(coord)` accepts a mapping and copies it; anything else but the empty string fails |
| Glyphs.UnpackDeepComponent | Lib/rcjktools/project.py:414-418 | a missing "coord" raises KeyError; the name is the "name" entry or None; the transform record is every other key with its value |
| Glyphs.UnpackAllSpec | Lib/rcjktools/project.py:192-193 | decoding a record list succeeds exactly when every record decodes, and then gives one component per record in order |
| Glyphs.GetVarKey | Lib/rcjktools/project.py:421-429 | no key exactly when neither table is present; "robocjk.fontVariationGlyphs" wins over "robocjk.glyphVariationGlyphs" |
| Glyphs.Interpolated | Lib/rcjktools/project.py:245-246 | the location is clamped before `interpolateFromDeltas`; a non-numeric location raises TypeError |
| Store.PlainFileLoads | Lib/rcjktools/project.py:187-198 | a file whose own records unpack and that declares no variation glyphs leaves `getGlyph(name).instantiate(location)` no cause to fail |
| Store.AxesLocated | Lib/rcjktools/project.py:217-226 | when every master not read from a layer file sits at its axis, the model's locations after [{}] are {axis: 1.0} per declared axis, unless some pass reads a layer file |
| Store.Glyph.Empty | Lib/rcjktools/project.py:175-185 | `Glyph()`: no name, width 0, empty outline and lib, not yet assembled |
| Store.Glyph.Synthesized | Lib/rcjktools/project.py:211-213 | a made-up master carries the neutral's width and outline and nothing else |
| Store.Glyph.Parsed | Lib/rcjktools/project.py:394-399 | a parsed glyph holds the file's name, width, unicodes, outline and lib, not yet assembled |
| Store.Glyph.AppendComponents | Lib/rcjktools/project.py:192-193 | the decoded records are appended to the components in record order, or the first decoding error is raised |
| Store.Glyph.FetchMaster | Lib/rcjktools/project.py:204-215 | with an empty neutral outline a fresh empty glyph; otherwise the layer store is created if need be and the layer's glyph of the same name is the object cached at the top of that layer, or a fresh glyph with the neutral's width and outline that no layer holds |
| Store.Glyph.Place | Lib/rcjktools/project.py:217-221 | the master's location becomes {axis: 1.0}; its layer records are appended in order; a missing "content" or "deepComponents" raises KeyError; a component count unequal to the neutral's raises AssertionError |
| Store.Glyph.AddMaster | Lib/rcjktools/project.py:199-223 | one pass of the axis loop: a missing "layerName" raises KeyError and a missing "content" fails; on success the master is built from its declared layer at {axis: 1.0} and every master, old and new, has as many components as the neutral; it fails only for a cause `PassFaults` names (no "layerName", a master read from a layer file, no "content" or "deepComponents", records that do not unpack, or a made-up master with the wrong number of records) |
| Store.Glyph.Record | Lib/rcjktools/project.py:217-223 | once the master is fetched, the pass succeeds exactly when "content" and "deepComponents" are present, the records unpack and the master then has as many components as the neutral; on success the master sits at {axis: 1.0} and is appended |
| Store.Glyph.AddMasters | Lib/rcjktools/project.py:199-223 | on success one master per declared axis, in order, each from its declared layer with as many components as the neutral, and each not read from a layer file at {axis: 1.0}; it fails only when some pass has a cause `PassFaults` names |
| Store.Glyph.PostParse | Lib/rcjktools/project.py:187-226 | components decode from the lib, and a record that does not decode raises its error; with no variation key it succeeds exactly when the records decode, and the model stays None; otherwise one master per declared axis in order, each with as many components as the neutral, and the model's locations are [{}] followed by the masters' locations; it fails only for a cause `AssemblyFaults` names, the variation model rejecting the axes' locations among them |
| Store.Glyph.Instantiate | Lib/rcjktools/project.py:240-246 | with no model the glyph itself; deltas are computed from [self] + variations only while still None and kept afterwards; the result interpolates at the clamped location |
| Store.GlyphSet.constructor | Lib/rcjktools/project.py:107-110 | a new store has empty glyph and layer caches |
| Store.GlyphSet.ContainsSpec | Lib/rcjktools/project.py:134-139 | every cached name is contained, and a name is contained exactly when its file exists |
| Store.GlyphSet.GetLayer | Lib/rcjktools/project.py:150-155 | a cached layer store is returned as it is; otherwise a fresh empty store for the sub-directory is cached and returned |
| Store.GlyphSet.GetLayerGlyph | Lib/rcjktools/project.py:205-207 | `layer.getGlyph(name)` returns the glyph cached at the top of that layer, parsed from the layer's file; a name without a file fails with FileNotFound, and a name with one fails only when it was not cached and its file cannot assemble (`AssemblyFaults`); the store's own caches do not change |
| Store.GlyphSet.LoadInLayer | Lib/rcjktools/project.py:141-148 | the layer store's `getGlyph`: on success the glyph is cached in that layer under its name and parsed from its file; it fails only when the name was not cached there and the file cannot assemble (`AssemblyFaults`); other layers and the store's own caches do not change |
| Store.GlyphSet.GetGlyph | Lib/rcjktools/project.py:141-148 | a cached name returns the identical cached object and changes nothing; an uncached name with a file is parsed, assembled (components from the lib, a model exactly when variation glyphs are declared, no deltas yet) and cached as a fresh object, failing only when `AssemblyFaults` names a cause; a missing file fails with FileNotFound; earlier resolutions and the models' agreement with the libs are kept |
| Store.GlyphSet.LoadFile | Lib/rcjktools/project.py:143-147 | parse, assemble, cache: on success a fresh glyph parsed from the file and assembled is cached under the name; on failure the cache is unchanged and the file shows a cause `AssemblyFaults` names |
| Store.GlyphSet.Load | Lib/rcjktools/project.py:64-65 | `getGlyph(name).instantiate(location)`: the result is what `instantiate` returns for the cached glyph (the glyph itself without a model, the instance from kept deltas, or the getDeltas error); a missing file raises FileNotFound; every failure has a cause `LoadFaults` names; earlier resolutions still hold |
| Store.GlyphSet.InstantiateCached | Lib/rcjktools/project.py:240-246 | the result is exactly what `instantiate` returns from the glyph's state before the call; a glyph without a model gives itself and cannot fail; a failure has a cause `LoadFaults` names; the model and components are kept and earlier resolutions still hold |
| Project.GlyphName | Lib/rcjktools/project.py:141-145 | a component name is usable as a glyph name exactly when it is a string; a dictionary raises TypeError (it is unhashable) and any other value ValueError |
| Project.PlacedInTwoSteps | Lib/rcjktools/project.py:38-61 | each atomic outline in a character glyph is its instance placed in the deep component and then in the character glyph |
| Project.DrawnAtoms | Lib/rcjktools/project.py:33-35 | as many outlines are drawn as the deep items hold atomic elements |
| Project.Drawn | Lib/rcjktools/project.py:30-36 | the character glyph's own outline is drawn first, followed by every atomic outline |
| Project.DrawnAtomsAt | Lib/rcjktools/project.py:33-35 | the j-th atomic element of the i-th deep item is drawn after all the atomic elements of earlier items and the j before it |
| Project.RoboCJKProject.constructor | Lib/rcjktools/project.py:21-25 | one empty store for each of the "characterGlyph", "deepComponent" and "atomicElement" sub-directories |
| Project.RoboCJKProject.LoadAtomicElement | Lib/rcjktools/project.py:64-65 | the instance is what the atomic element of that name interpolates to at the location; a bad name raises what GlyphName raises and a name without a file FileNotFound; it fails only for a bad name or a cause `LoadFaults` names (no file, a file that does not assemble, or an instance that comes from a variation model); earlier resolutions still hold |
| Project.RoboCJKProject.InstantiateAtomicElement | Lib/rcjktools/project.py:63-66 | the outline of the named atomic element's instance at the location, transformed by the given transform, which can fail only with the transform's AssertionError; without an instance it fails, and only for a bad name or a cause `LoadFaults` names |
| Project.RoboCJKProject.PlaceAtom | Lib/rcjktools/project.py:54-60 | one item: the component's name and the atomic element it names, instantiated at the component's coordinate and placed by the parent transform composed with the component's own placement; a bad placement, a bad name or a missing file is the error, and it fails only for a cause `AtomFails` names (those, an atomic element that cannot load, or an outline the placement cannot map) |
| Project.RoboCJKProject.PlaceAtoms | Lib/rcjktools/project.py:53-61 | one item per component, in order, each placed as PlaceAtom states from the atomic element the component names at its coordinate; on failure the components before it resolved, the failing one raises its placement, name or file error when it has one, and it fails for a cause `AtomFails` names in any case; the deep-component store and what it resolves are untouched |
| Project.RoboCJKProject.PlaceNextAtom | Lib/rcjktools/project.py:55-60 | one pass of that loop: the items for the components so far extended by the next component's item; it fails only for a cause `AtomFails` names for that component, raising its placement, name or file error when it has one; earlier resolutions still hold |
| Project.RoboCJKProject.LoadDeepComponent | Lib/rcjktools/project.py:52-53 | the instance is what the deep component of that name interpolates to at the location; a bad name raises what GlyphName raises and a name without a file FileNotFound; it fails only for a bad name or a cause `LoadFaults` names; earlier resolutions still hold; the atomic-element store is untouched |
| Project.RoboCJKProject.InstantiateDeepComponent | Lib/rcjktools/project.py:51-61 | the named deep component's instance at the location; its items place its components in order as PlaceAtoms states, failing as PlaceAtoms fails; without an instance it fails, and only for a bad name or a cause `LoadFaults` names |
| Project.RoboCJKProject.PlaceDeep | Lib/rcjktools/project.py:43-48 | one item: the component's name and the deep component it names, instantiated at the component's coordinate and resolved under the component's placement; a bad placement, a bad name or a missing file is the error, and it fails only for a cause `DeepFails` names (those, a deep component that cannot load, or one of its components failing as `AtomFails` states) |
| Project.RoboCJKProject.PlaceDeeps | Lib/rcjktools/project.py:42-48 | one item per component, in order, each placed as PlaceDeep states from the deep component the component names at its coordinate; on failure the components before it resolved, the failing one raises its placement, name or file error when it has one, and it fails for a cause `DeepFails` names in any case; the character-glyph store is untouched |
| Project.RoboCJKProject.PlaceNextDeep | Lib/rcjktools/project.py:43-48 | one pass of that loop: the items for the components so far extended by the next component's item; it fails only for a cause `DeepFails` names for that component, raising its placement, name or file error when it has one |
| Project.RoboCJKProject.LoadCharacterGlyph | Lib/rcjktools/project.py:39-40 | the character glyph's instance is what its cached glyph interpolates to; a missing file raises FileNotFound, and it fails only for a cause `LoadFaults` names; the other two stores are untouched |
| Project.RoboCJKProject.InstantiateCharacterGlyph | Lib/rcjktools/project.py:38-49 | the named character glyph's instance gives the outline and width; its deep items place its components in order as PlaceDeeps states, failing as PlaceDeeps fails; without an instance it fails, and only for a cause `LoadFaults` names for the character glyph |

## Left out

- **File reading.**
  - `parseGlyph` (Lib/rcjktools/project.py:394-399) is not modelled: the parsed content of each `.glif` file is given in the `Dir` value.
  - `userNameToFileName` is not modelled: files are keyed by glyph name.
  - The path-existence test of `__contains__` becomes membership in that map.
- **`getGlyphNamesAndUnicodes`** (Lib/rcjktools/project.py:27-28, 112-132) is not modelled: it is glob, byte-read and regex scanning of the directory.
- **`saveFlattenedUFO` and `addFlattenedGlyphsToUFO`** (Lib/rcjktools/project.py:68-98) are not modelled: they are ufoLib2 export, console output and a catch-and-continue loop.
- **Pen adapters** (`draw`, `drawPoints`, `getPen`, `getPointPen`) are not modelled. `drawCharacterGlyph` is modelled only as the sequence of outlines it draws (`Project.Drawn`), not as pen calls.
- **Trigonometry.** `math.radians` and `Transform.rotate`'s cosine and sine are floating-point functions. They are replaced by the `trig` parameter, which gives the rotation as a (cos, sin) pair.
- **fontTools' `VariationModel`** is foreign code:
  - Its constructor's check of the master locations is the `accepts` parameter.
  - `getDeltas` and `interpolateFromDeltas` are the `ModelOps` functions.
  - Their arithmetic is not modelled.
- **`_MathMixin`'s operator dispatch** (`__add__`, `__sub__`, `__mul__`, `__rmul__`) is not modelled separately. The operator is a `BinOp` parameter, and scaling is its own function.
- **Value types.** Booleans, lists and other non-mapping values in the glyph lib are not modelled. Numbers are `real`, with no distinction between Python `int` and `float` and no floating-point rounding.
- **The `__main__` DrawBot demo** (Lib/rcjktools/project.py:432-462) is not modelled.
- MathDict.DoBinaryOperator: on failure it promises only the error of some key of the union, not the first key in Python's dictionary order, because the model's dictionaries are unordered.
- MathDict.Blended: when one key pairs a number with a non-number and another holds two unequal non-numbers, it reports InterpolationError, while Python raises whichever error its dictionary order meets first. MathDict.BlendedFailure therefore names each error only when the other kind of failing key is absent.
- Store.Glyph.PostParse: after the whole loop it states each master's source and component count, but not its location, because a master read twice from the same layer gets its location overwritten by the later pass. Store.Glyph.AddMaster states the location for the pass that builds the master.
- Store.Glyph.AddMaster: a master read from a layer file is listed among the possible causes of failure without saying whether its pass fails, because that depends on the layer glyph's own assembly and on the components the layer's cache already holds for it.
- Store.Glyph.AddMasters: likewise, a pass that reads its master from a layer file is a possible cause of failure, not a certain one.
- Store.Glyph.PostParse: likewise for a pass that reads a layer file.
- Store.GlyphSet.GetGlyph: likewise, through `_postParse`, for a glyph whose variation glyphs are read from layer files.
- Store.GlyphSet.LoadFile: likewise.
- Store.GlyphSet.GetLayerGlyph: likewise for the layer glyph's own layers.
- Store.GlyphSet.LoadInLayer: likewise.
- Store.GlyphSet.Load: for a name not cached before, a failure is stated as one `AssemblyFaults` explains, not with its exact error.
- Project.RoboCJKProject.LoadAtomicElement: a glyph that declares variation glyphs is counted as a possible failure, without naming which of `getDeltas`, the clamp of the location or `interpolateFromDeltas` raises.
- Project.RoboCJKProject.InstantiateAtomicElement: likewise.
- Project.RoboCJKProject.PlaceAtom: likewise; the error raised while assembling or instantiating an atomic element that has a file is not named.
- Project.RoboCJKProject.PlaceNextAtom: likewise.
- Project.RoboCJKProject.PlaceAtoms: likewise for the failing component.
- Project.RoboCJKProject.LoadDeepComponent: likewise for the deep component.
- Project.RoboCJKProject.InstantiateDeepComponent: likewise for the deep component itself and for its failing component.
- Project.RoboCJKProject.PlaceDeep: likewise.
- Project.RoboCJKProject.PlaceNextDeep: likewise.
- Project.RoboCJKProject.PlaceDeeps: likewise for the failing component, its deep component and that deep component's atomic elements.
- Project.RoboCJKProject.LoadCharacterGlyph: likewise for the character glyph.
- Project.RoboCJKProject.InstantiateCharacterGlyph: likewise for the character glyph and for its failing component.
