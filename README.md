# Points3d_js marker engine, modelled in Dafny

Points3d_js is an Android app whose WebView page shows a 3D model with
coloured spheres ("markers") for a list of inspection points. The page
script `main.js` contains the marker engine. It:

- colours each point by its state through a small state → colour table,
  with a fallback to the `pending` grey;
- creates one sphere mesh per point record and files it in a point map
  keyed by the record's id;
- picks markers under the pointer in "select" mode, emphasises the
  selected one and shows its details in an info panel;
- switches between the "rotate", "pan" and "select" interaction modes;
- recolours the selected marker when a state button is pressed.

The model has six modules:

- `Points` (points.dfy) holds the point record and the info-panel texts.
- `StateColors` (state_colors.dfy) holds the colour table, the fallback
  lookup, and the lookup exactly as the script writes it (see Findings).
- `Modes` (modes.dfy) maps a mode to the orbit-control switches and the
  canvas cursor.
- `Emphasis` (emphasis.dfy) states the selection rule on plain values: the
  selection and the set of emphasised markers.
- `Registry` (registry.dfy) describes the point map that the `addPoints`
  loop fills, and the picking filter over it.
- `Engine` (engine.dfy) holds the mutable state. `Mesh` is a class whose
  fields the handlers update in place. `Session` is a class holding the
  script's globals: the point map, the markers in the scene, the
  selection, the mode, the two orbit switches, the canvas cursor and the
  info text. Each event handler is a method on it. `Session.Valid()` is the
  session invariant: every filed mesh is in the scene; only the selected
  marker is emphasised; the orbit switches agree with the mode. Every
  handler keeps it.

The handlers are tied to the value-level rules, which the lemmas then
characterise:

- `SelectPoint` moves the set of emphasised markers exactly as
  `Emphasis.Select` says.
- `AddPoints` leaves the point map equal to the fold `Registry.Registered`.
- `IntersectPoints` is `Registry.Hits` over the point map's meshes.
- `SetMode` follows `Modes.ControlsFor` and `Modes.CursorFor`.

## Model

| member | source | states |
|---|---|---|
| StateColors.ColorFallback | app/src/main/Assets/www/main.js:115 | the colour is always a table entry; it is the state's own entry when the state is in the table, and `pending` exactly when the state is absent, unknown or "pending" |
| StateColors.PropertyOf | app/src/main/Assets/www/main.js:5-10 | indexing the table object yields a number exactly for the four own keys, and undefined exactly for keys that are neither own keys nor inherited Object.prototype members |
| StateColors.AsWrittenAgreesOffPrototype | app/src/main/Assets/www/main.js:228 | the lookup as written (`?? pending`) gives the corrected colour for every absent state and every state that does not name an Object.prototype member |
| StateColors.PrototypeKeyEscapesFallback | app/src/main/Assets/www/main.js:115 | a state naming an Object.prototype member gets the inherited member instead of the pending colour |
| StateColors.ToStringStateIsNotPending | app/src/main/Assets/www/main.js:115 | the concrete state "toString" is not coloured `pending` as written, while the corrected lookup gives `pending` |
| Modes.ControlsFor | app/src/main/Assets/www/main.js:197-207 | rotation is on iff the mode is "rotate", panning is on iff it is "pan", and never both |
| Modes.CursorFor | app/src/main/Assets/www/main.js:198-207 | the cursor is "grab" exactly when one of the orbit switches is on, and "default" otherwise |
| Modes.PickingLocksCamera | app/src/main/Assets/www/main.js:204-206 | in "select" mode, the only mode where pointer events pick, the camera can neither rotate nor pan and the cursor is "default" |
| Emphasis.Select | app/src/main/Assets/www/main.js:171-176 | after selecting k, k is the selection and is emphasised; another marker stays emphasised iff it was emphasised and was not the previous selection |
| Emphasis.SelectKeepsAtMostOne | app/src/main/Assets/www/main.js:171-176 | from a state with at most one emphasised marker, selecting k leaves exactly k emphasised and selected |
| Emphasis.ReselectIsIdempotent | app/src/main/Assets/www/main.js:172-176 | selecting the selected marker again changes nothing |
| Emphasis.SelectionsLeaveOneLit | app/src/main/Assets/www/main.js:171-176 | after any sequence of selections at most one marker is emphasised; after a non-empty one, exactly the last marker selected |
| Emphasis.FromNothingSelected | app/src/main/Assets/www/main.js:17 | from the initial empty selection, any sequence of selections keeps at most one marker emphasised, and no selection leaves none emphasised |
| Registry.LastIndex | app/src/main/Assets/www/main.js:114-130 | the position of the last record carrying an id: it carries the id and no later record does |
| Registry.RegisteredStep | app/src/main/Assets/www/main.js:130 | filing one more record extends the point map by exactly one `set` of its id |
| Registry.RegisteredAt | app/src/main/Assets/www/main.js:114-131 | after the loop an id is a key iff it was one before or some record carries it; a carried id holds the mesh and record of its last record; other keys keep their old entry |
| Registry.SurvivorRegistered | app/src/main/Assets/www/main.js:130 | a record that no later record overwrites is filed under its id with its own mesh |
| Registry.OverwrittenNeverPicked | app/src/main/Assets/www/main.js:148-151 | the mesh of an overwritten record is in no point-map entry, so picking never offers it |
| Registry.Hits | app/src/main/Assets/www/main.js:149-150 | the hits are exactly the crossed objects that are candidates |
| Registry.NearestHit | app/src/main/Assets/www/main.js:164-166 | the first hit is the first candidate the ray crosses; there is no hit iff the ray crosses no candidate |
| Engine.Mesh.constructor | app/src/main/Assets/www/main.js:115-125 | a new marker is at the record's position, named `pt_<id>`, holds a copy of the record, is coloured by its state and has a black emissive |
| Engine.SetEmphasis | app/src/main/Assets/www/main.js:180-185 | on: cyan emissive 0x38bdf8 at intensity 0.5 and scale 1.35; off: black, 0.0, 1.0; position, name, record and colour untouched; setting the emphasis a mesh already has changes nothing; a missing mesh changes nothing (empty frame) |
| Engine.UpdatePointState | app/src/main/Assets/www/main.js:226-230 | the mesh's own record copy takes the state verbatim; the colour follows the table with the pending fallback; nothing else changes |
| Engine.Session.constructor | app/src/main/Assets/www/main.js:16-18 | the start state: rotate mode with rotation on and panning off, an empty point map, nothing selected; the invariant holds |
| Engine.Session.AddPoint | app/src/main/Assets/www/main.js:115-130 | one loop pass: a fresh marker made for the record is appended to the scene and filed under its id, replacing any entry |
| Engine.Session.AddEach | app/src/main/Assets/www/main.js:114-131 | one fresh, distinct marker per record, in order, each as made for its record; the scene gains them in order; the point map is the fold of all the `set` calls |
| Engine.Session.LoadedValid | app/src/main/Assets/www/main.js:112-131 | after the loop the session invariant still holds, and every overwritten record's marker has left the point map |
| Engine.Session.AddPoints | app/src/main/Assets/www/main.js:112-132 | everything `AddEach` states, plus the invariant is kept; an overwritten record's marker stays in the scene but leaves the point map; selection, mode, switches, cursor and info are unchanged |
| Engine.Session.SelectPoint | app/src/main/Assets/www/main.js:171-178 | the emphasis moves as `Emphasis.Select` says, leaving exactly the new marker emphasised; a different old selection is de-emphasised; reselecting touches no marker; the info names the marker |
| Engine.Session.SetMode | app/src/main/Assets/www/main.js:197-207 | the mode is set verbatim; the switches and cursor follow the mode table; the invariant holds |
| Engine.Session.IntersectPoints | app/src/main/Assets/www/main.js:148-151 | only markers filed in the point map are hit, all of them that the ray crosses, and the first hit is the nearest such marker |
| Engine.Session.OnPointerMove | app/src/main/Assets/www/main.js:153-158 | outside "select" nothing changes; in "select" only the cursor changes, to "pointer" iff a candidate is under the pointer |
| Engine.Session.OnPointerDown | app/src/main/Assets/www/main.js:160-169 | outside "select", or with no candidate under the pointer, nothing changes; otherwise the nearest candidate is selected as by `selectPoint`: a different old selection is de-emphasised, every other marker is unchanged, and only the session and its scene markers may be written |
| Engine.Session.OnStateButton | app/src/main/Assets/www/main.js:212-223 | with no selection only the info text changes, to the fixed hint; otherwise only the selected marker's record copy and colour change, the point map's record is not updated, the emphasis is unchanged and the info reports the update |

The info panel (`setInfo`, main.js:187-189) is the `info` field. The
texts written to it are `Points.SelectedInfo` (main.js:177),
`Points.UpdatedInfo` (main.js:220) and `Points.NO_SELECTION_INFO`
(main.js:216). An absent name or state prints as "undefined", which is how
a template literal renders a missing field. These three carry no contract
of their own; the handler contracts above say when each is written.

Four specification functions carry no contract of their own either; the
lemmas in the table state their properties:

- `StateColors.ColorOf` (main.js:115 and 228, corrected): `ColorFallback`.
- `StateColors.ColorAsWritten` (main.js:115 and 228, as written):
  `AsWrittenAgreesOffPrototype`, `PrototypeKeyEscapesFallback` and
  `ToStringStateIsNotPending`.
- `Registry.Registered` (main.js:114-131, the fold of `pointMap.set`):
  `RegisteredStep`, `RegisteredAt`, `SurvivorRegistered` and
  `OverwrittenNeverPicked`.
- `Registry.Meshes` (main.js:149, the meshes of the point map's values):
  `OverwrittenNeverPicked`, and `Engine.Session.IntersectPoints`, which
  uses it as the candidate set.

## Left out

- Rendering is not modelled: the renderer, camera, lights, grid, GLTF
  model loading, `fitView`, `animate` and window resizing. It draws and
  moves nothing the engine's state depends on. `scene` holds only the
  marker meshes.
- The async start is not modelled: `start`, `fetch("./points.json")` and
  the error text shown when loading fails. `AddPoints` takes the parsed
  point list as a parameter.
- Ray geometry is not modelled: `screenToRay` and the raycaster's distance
  computation. `IntersectPoints` and the pointer handlers take the markers
  the ray crosses, nearest first, as a parameter. The model states only
  how the engine filters and uses that list.
- The DOM is not modelled: button `active` classes, `preventDefault`, and
  how buttons find their `data-mode` / `data-state` values. A mode or
  state button press is a call of `SetMode` or `OnStateButton` with that
  value.
- Unmodelled mesh fields: the sphere geometry, metalness, roughness and
  render order. Colours are modelled as 24-bit integers, not as
  `THREE.Color` objects.
- Point records whose fields are not strings (a numeric `state`, say) are
  not modelled. `PointData` has string ids, optional string names and
  states, and real coordinates.
- Map insertion order is not modelled. The point map is a Dafny `map`, and
  the candidates are a set; the nearest-first order comes from the ray
  parameter.
- The Android host activity that loads the page is not part of this model.
- Engine.Mesh.constructor: the initial emissive intensity of 1.0 is
  three.js's material default and does not appear in the script.
- Engine.Mesh.constructor: it colours with the corrected lookup
  `StateColors.ColorOf`, not the script's `?? pending` lookup. A state that
  names an Object.prototype member (for example "toString") is drawn in
  the `pending` grey here, but not by the script (see Findings).
- Engine.UpdatePointState: it recolours with the corrected lookup
  `StateColors.ColorOf`, so for a state such as "toString" it gives the
  `pending` grey where the script does not (see Findings).
- Engine.Session.SelectPoint: it is stated for markers in the scene. That
  is every mesh `onPointerDown`, its only caller, can pass.
- Engine.Session.AddPoints: the loop collects the new meshes as a ghost
  result `added`. It is for stating the postconditions; the script
  returns nothing.

## Findings

| source | as written | input that shows it | evidently intended | confidence | as-written member | corrected member |
|---|---|---|---|---|---|---|
| app/src/main/Assets/www/main.js:115 | `STATE_COLORS[p.state] ?? STATE_COLORS.pending` (the same at line 228) is a property access on an object literal. It also finds the 12 members every object inherits from Object.prototype, and `??` replaces only undefined | a point whose state is "toString" (or "constructor", "valueOf", "__proto__", …) gets a function or an object as its colour instead of the pending grey | any state outside the four table entries is drawn in the `pending` colour | not executed; follows from ECMAScript property lookup | StateColors.PrototypeKeyEscapesFallback | StateColors.ColorFallback |
