/** The marker engine's mutable state: the marker meshes, and the session
    globals (the point map, the selection, the interaction mode, the orbit
    switches, the canvas cursor and the info text) with the event handlers
    that change them. */
module Engine {
  import opened Points
  import opened StateColors
  import opened Modes
  import opened Emphasis
  import opened Registry

  const EMPHASIS_EMISSIVE: int := 0x38bdf8
  const EMPHASIS_INTENSITY: real := 0.5
  const EMPHASIS_SCALE: real := 1.35

  /** A marker sphere: its placement, label, attribute copy and the material
      fields the engine touches. */
  class Mesh {
    var pos: Vec3
    var name: string
    var userData: PointData
    var color: int
    var emissive: int
    var emissiveIntensity: real
    var scale: real

    /** The marker for record `p`, coloured by its state, not emphasised.
        The emissive intensity is the material's default of 1.0; it is not
        visible while the emissive colour is black. */
    constructor (p: PointData)
      ensures Created(this, p)
    {
      pos := p.pos;
      name := "pt_" + p.id;
      userData := p;
      color := ColorOf(p.state);
      emissive := 0;
      emissiveIntensity := 1.0;
      scale := 1.0;
    }
  }

  /** `m` is the fresh marker `addPoints` makes for record `p`. */
  ghost predicate Created(m: Mesh, p: PointData)
    reads m
  {
    m.pos == p.pos && m.name == "pt_" + p.id && m.userData == p
    && m.color == ColorOf(p.state)
    && m.emissive == 0 && m.emissiveIntensity == 1.0 && m.scale == 1.0
  }

  /** The markers `ms` are, in order, as made for the first records of `ps`. */
  ghost predicate AllCreated(ms: seq<Mesh>, ps: seq<PointData>)
    reads ms
  {
    |ms| <= |ps| && forall k | 0 <= k < |ms| :: Created(ms[k], ps[k])
  }

  /** One more marker made for the next record. */
  lemma AllCreatedSnoc(ms: seq<Mesh>, m: Mesh, ps: seq<PointData>)
    requires AllCreated(ms, ps) && |ms| < |ps| && Created(m, ps[|ms|])
    ensures AllCreated(ms + [m], ps)
  {
    assert forall k | 0 <= k < |ms| :: (ms + [m])[k] == ms[k];
  }

  /** `m` is drawn emphasised: cyan glow at half intensity, scaled up. */
  ghost predicate Emphasised(m: Mesh)
    reads m
  {
    m.emissive == EMPHASIS_EMISSIVE && m.emissiveIntensity == EMPHASIS_INTENSITY && m.scale == EMPHASIS_SCALE
  }

  /** `m` has been explicitly de-emphasised. */
  ghost predicate Plain(m: Mesh)
    reads m
  {
    m.emissive == 0 && m.emissiveIntensity == 0.0 && m.scale == 1.0
  }

  /** The fields of `m` that emphasis never touches are as in the earlier state. */
  twostate predicate SameMarker(m: Mesh)
    reads m
  {
    m.pos == old(m.pos) && m.name == old(m.name) && m.userData == old(m.userData) && m.color == old(m.color)
  }

  /** Turns the emphasis of `m` on or off; no mesh does nothing. */
  method SetEmphasis(m: Mesh?, on: bool)
    modifies m
    ensures m != null ==> (if on then Emphasised(m) else Plain(m)) && SameMarker(m)
    ensures m != null && (if on then old(Emphasised(m)) else old(Plain(m))) ==> unchanged(m)
  {
    if m == null { return; }
    m.emissive := if on then EMPHASIS_EMISSIVE else 0;
    m.emissiveIntensity := if on then EMPHASIS_INTENSITY else 0.0;
    m.scale := if on then EMPHASIS_SCALE else 1.0;
  }

  /** Stores `state` verbatim in the mesh's own attribute copy and recolours
      it, with the fallback to the `pending` colour for unknown states. */
  method UpdatePointState(m: Mesh, state: string)
    modifies m
    ensures m.userData == old(m.userData).(state := Some(state))
    ensures m.color == ColorOf(Some(state))
    ensures m.pos == old(m.pos) && m.name == old(m.name)
    ensures m.emissive == old(m.emissive) && m.emissiveIntensity == old(m.emissiveIntensity) && m.scale == old(m.scale)
  {
    m.userData := m.userData.(state := Some(state));
    m.color := ColorOf(Some(state));
  }

  class Session {
    /** The point map: id -> marker mesh and the record it was made from. */
    var pointMap: map<string, Entry<Mesh>>
    /** The marker meshes added to the scene, in the order they were added. */
    var scene: seq<Mesh>
    var selected: Mesh?
    var mode: string
    var enableRotate: bool
    var enablePan: bool
    /** The canvas cursor style; "" while no handler has set one. */
    var cursor: string
    /** The info panel text; "" until the engine first writes it. */
    var info: string

    /** The session invariant: every registered mesh is in the scene; the
        selection, if any, is a scene marker and is
        emphasised; no other marker is emphasised; the orbit switches agree
        with the mode. */
    ghost predicate Valid()
      reads this, scene
    {
      (forall id | id in pointMap :: pointMap[id].mesh in scene)
      && (selected != null ==> selected in scene && Emphasised(selected))
      && (forall x | x in scene && Emphasised(x) :: x == selected)
      && ControlsFor(mode) == Controls(enableRotate, enablePan)
    }

    /** The selection and the set of emphasised markers. */
    ghost function Highlighted(): (h: Highlight<Mesh>)
      reads this, scene
      requires Valid()
      ensures AtMostOne(h)
    {
      var sel: Option<Mesh> := if selected == null then None else var s: Mesh := selected; Some(s);
      Highlight(sel, set x | x in scene && Emphasised(x))
    }

    /** The state after `init`: rotate mode, nothing loaded, nothing selected. */
    constructor ()
      ensures Valid()
      ensures pointMap == map[] && scene == [] && selected == null
      ensures mode == ROTATE && enableRotate && !enablePan
      ensures cursor == "" && info == ""
    {
      pointMap := map[];
      scene := [];
      selected := null;
      mode := ROTATE;
      enableRotate := true;
      enablePan := false;
      cursor := "";
      info := "";
    }

    /** One pass of the `addPoints` loop: a fresh marker for `p`, added to
        the scene and filed under `p.id`, replacing any entry for that id. */
    method AddPoint(p: PointData) returns (m: Mesh)
      modifies this
      ensures fresh(m) && Created(m, p)
      ensures scene == old(scene) + [m] && pointMap == old(pointMap)[p.id := Entry(m, p)]
      ensures selected == old(selected) && mode == old(mode) && info == old(info) && cursor == old(cursor)
      ensures enableRotate == old(enableRotate) && enablePan == old(enablePan)
    {
      m := new Mesh(p);
      scene := scene + [m];
      pointMap := pointMap[p.id := Entry(m, p)];
    }

    /** What `addPoints` leaves behind keeps the session invariant: the old
        markers are untouched, the new ones are plain and carry their ids. */
    twostate lemma LoadedValid(points: seq<PointData>, new added: seq<Mesh>)
      requires old(Valid())
      requires |added| == |points| && scene == old(scene) + added
      requires forall k | 0 <= k < |added| :: Created(added[k], points[k]) && added[k] !in old(scene)
      requires forall a, b | 0 <= a < b < |added| :: added[a] != added[b]
      requires pointMap == Registered(old(pointMap), points, added)
      requires selected == old(selected) && mode == old(mode)
      requires enableRotate == old(enableRotate) && enablePan == old(enablePan)
      requires forall x | x in old(scene) :: old(allocated(x)) && unchanged(x)
      ensures Valid()
      ensures forall i | 0 <= i < |points| && Overwritten(points, i) :: added[i] !in Meshes(pointMap)
    {
      forall k | 0 <= k < |points| && Overwritten(points, k)
        ensures added[k] !in Meshes(pointMap)
      {
        OverwrittenNeverPicked(old(pointMap), points, added, k);
      }
      forall id | id in pointMap
        ensures pointMap[id].mesh in scene
      {
        RegisteredAt(old(pointMap), points, added, id);
        if id in Ids(points) {
          var k := LastIndex(points, id);
          assert added[k] in scene;
        }
      }
    }

    /** The loop of `addPoints`: one fresh marker per record, in order,
        each added to the scene and filed in the point map under its id, a
        later record replacing the entry of an earlier one with the same id.
        `added` lists the new markers in record order. */
    method AddEach(points: seq<PointData>) returns (ghost added: seq<Mesh>)
      modifies this
      ensures |added| == |points| && scene == old(scene) + added
      ensures forall i | 0 <= i < |points| :: fresh(added[i])
      ensures forall i, j | 0 <= i < j < |points| :: added[i] != added[j]
      ensures AllCreated(added, points)
      ensures pointMap == Registered(old(pointMap), points, added)
      ensures selected == old(selected) && mode == old(mode) && info == old(info) && cursor == old(cursor)
      ensures enableRotate == old(enableRotate) && enablePan == old(enablePan)
    {
      added := [];
      var i := 0;
      assert points[..0] == [];
      while i < |points|
        invariant 0 <= i <= |points| && |added| == i
        invariant scene == old(scene) + added
        invariant forall k | 0 <= k < i :: fresh(added[k])
        invariant forall a, b | 0 <= a < b < i :: added[a] != added[b]
        invariant AllCreated(added, points)
        invariant pointMap == Registered(old(pointMap), points[..i], added)
        invariant selected == old(selected) && mode == old(mode) && info == old(info) && cursor == old(cursor)
        invariant enableRotate == old(enableRotate) && enablePan == old(enablePan)
      {
        var m := AddPoint(points[i]);
        RegisteredStep(old(pointMap), points, added, i, m);
        AllCreatedSnoc(added, m, points);
        added := added + [m];
        i := i + 1;
      }
      assert points[..i] == points;
    }

    /** `addPoints`: the markers are made and filed as `AddEach` says, and
        the session invariant is kept. A marker replaced by a later record
        with the same id stays in the scene but is no longer a picking
        candidate. */
    method AddPoints(points: seq<PointData>) returns (ghost added: seq<Mesh>)
      requires Valid()
      modifies this
      ensures Valid()
      ensures |added| == |points| && scene == old(scene) + added
      ensures forall i | 0 <= i < |points| :: fresh(added[i]) && Created(added[i], points[i])
      ensures forall i, j | 0 <= i < j < |points| :: added[i] != added[j]
      ensures pointMap == Registered(old(pointMap), points, added)
      ensures forall i | 0 <= i < |points| && Overwritten(points, i) :: added[i] in scene && added[i] !in Meshes(pointMap)
      ensures selected == old(selected) && mode == old(mode) && info == old(info) && cursor == old(cursor)
      ensures enableRotate == old(enableRotate) && enablePan == old(enablePan)
    {
      added := AddEach(points);
      LoadedValid(points, added);
    }

    /** `selectPoint`: a different previous selection is de-emphasised, `m`
        becomes the selection and is emphasised, and the info text names it.
        Exactly one marker is emphasised afterwards; selecting the selected
        marker again leaves every marker as it was. */
    method SelectPoint(m: Mesh)
      requires Valid() && m in scene
      modifies this, selected, m
      ensures Valid()
      ensures selected == m && Emphasised(m)
      ensures Highlighted() == Select(old(Highlighted()), m) == Highlight(Some(m), {m})
      ensures old(selected) != null && old(selected) != m ==> Plain(old(selected))
      ensures info == SelectedInfo(m.userData)
      ensures pointMap == old(pointMap) && scene == old(scene) && mode == old(mode) && cursor == old(cursor)
      ensures enableRotate == old(enableRotate) && enablePan == old(enablePan)
      ensures forall x | x in scene :: SameMarker(x)
      ensures forall x | x in old(scene) && x != m && x != old(selected) :: unchanged(x)
      ensures old(selected) == m ==> unchanged(m)
    {
      ghost var before := Highlighted();
      ghost var wasSelected := selected;
      if selected != null && selected != m {
        SetEmphasis(selected, false);
      }
      selected := m;
      SetEmphasis(m, true);
      info := SelectedInfo(m.userData);
      assert Highlighted().lit == {m};
      SelectKeepsAtMostOne(before, m);
      if wasSelected == m {
        assert old(Emphasised(m));
      }
    }

    /** A mode button: the mode is set verbatim, the orbit switches follow
        the mode table and the cursor shows whether the view can be dragged. */
    method SetMode(newMode: string)
      requires Valid()
      modifies this
      ensures Valid()
      ensures mode == newMode
      ensures enableRotate == (newMode == ROTATE) && enablePan == (newMode == PAN)
      ensures cursor == CursorFor(newMode)
      ensures pointMap == old(pointMap) && scene == old(scene) && selected == old(selected) && info == old(info)
    {
      mode := newMode;
      if mode == ROTATE {
        enableRotate, enablePan := true, false;
        cursor := "grab";
      } else if mode == PAN {
        enableRotate, enablePan := false, true;
        cursor := "grab";
      } else {
        enableRotate, enablePan := false, false;
        cursor := "default";
      }
    }

    /** `intersectPoints`, given every marker the pick ray crosses, nearest
        first: only the markers filed in the point map are hit, all of them
        that the ray crosses, and the first hit is the nearest of them; a
        marker replaced in the map is never picked. */
    function IntersectPoints(underRay: seq<Mesh>): (hits: seq<Mesh>)
      reads this
      ensures forall x | x in hits :: x in underRay && x in Meshes(pointMap)
      ensures forall x | x in underRay && x in Meshes(pointMap) :: x in hits
      ensures hits != [] ==> FirstAmong(underRay, Meshes(pointMap), hits[0])
      ensures hits == [] <==> forall k | 0 <= k < |underRay| :: underRay[k] !in Meshes(pointMap)
    {
      NearestHit(underRay, Meshes(pointMap));
      Hits(underRay, Meshes(pointMap))
    }

    /** `onPointerMove`, given the markers the pick ray crosses, nearest
        first: outside select mode nothing happens; in select mode only the
        cursor changes, to show whether a candidate is under the pointer. */
    method OnPointerMove(underRay: seq<Mesh>)
      requires Valid()
      modifies this
      ensures Valid()
      ensures !PicksOnPointer(old(mode)) ==> cursor == old(cursor)
      ensures PicksOnPointer(old(mode)) ==>
        cursor == (if exists k | 0 <= k < |underRay| :: underRay[k] in Meshes(pointMap) then "pointer" else "default")
      ensures pointMap == old(pointMap) && scene == old(scene) && selected == old(selected) && info == old(info)
      ensures mode == old(mode) && enableRotate == old(enableRotate) && enablePan == old(enablePan)
    {
      if mode != SELECT { return; }
      var hits := IntersectPoints(underRay);
      cursor := if |hits| > 0 then "pointer" else "default";
    }

    /** `onPointerDown`, given the markers the pick ray crosses, nearest
        first: outside select mode, or with no candidate under the pointer,
        nothing changes; otherwise the nearest candidate is selected. */
    method OnPointerDown(underRay: seq<Mesh>)
      requires Valid()
      modifies this, scene
      ensures Valid()
      ensures !PicksOnPointer(old(mode)) || (forall k | 0 <= k < |underRay| :: underRay[k] !in Meshes(pointMap)) ==>
        selected == old(selected) && info == old(info) && forall x | x in old(scene) :: unchanged(x)
      ensures PicksOnPointer(old(mode)) && (exists k | 0 <= k < |underRay| :: underRay[k] in Meshes(pointMap)) ==>
        selected != null && FirstAmong(underRay, Meshes(pointMap), selected)
        && Highlighted() == Select(old(Highlighted()), selected)
        && info == SelectedInfo(selected.userData)
        && (old(selected) != null && old(selected) != selected ==> Plain(old(selected)))
        && (forall x | x in old(scene) && x != selected && x != old(selected) :: unchanged(x))
      ensures pointMap == old(pointMap) && scene == old(scene) && cursor == old(cursor)
      ensures mode == old(mode) && enableRotate == old(enableRotate) && enablePan == old(enablePan)
      ensures forall x | x in scene :: SameMarker(x)
    {
      if mode != SELECT { return; }
      var hits := IntersectPoints(underRay);
      if |hits| > 0 {
        var mesh := hits[0];
        assert mesh in Meshes(pointMap);
        SelectPoint(mesh);
      }
    }

    /** A state button: without a selection only the info text changes.
        With one, the selected marker's own attribute copy takes the state
        verbatim and the marker is recoloured; the record in the point map
        is not updated, and the selection and emphasis stay as they were. */
    method OnStateButton(state: string)
      requires Valid()
      modifies this, selected
      ensures Valid()
      ensures selected == old(selected) && pointMap == old(pointMap) && scene == old(scene)
      ensures old(selected) == null ==> info == NO_SELECTION_INFO
      ensures selected != null ==>
        selected.userData == old(selected.userData).(state := Some(state))
        && selected.color == ColorOf(Some(state))
        && selected.pos == old(selected.pos) && selected.name == old(selected.name)
        && info == UpdatedInfo(selected.userData.name, state)
      ensures Highlighted() == old(Highlighted())
      ensures forall x | x in old(scene) && x != old(selected) :: unchanged(x)
      ensures mode == old(mode) && enableRotate == old(enableRotate) && enablePan == old(enablePan) && cursor == old(cursor)
    {
      if selected == null {
        info := NO_SELECTION_INFO;
        return;
      }
      UpdatePointState(selected, state);
      info := UpdatedInfo(selected.userData.name, state);
    }
  }
}
