/** The point records of the marker engine: what `points.json` holds for one
    marker, and the text the info panel shows for it. */
module Points {

  datatype Option<+T> = None | Some(value: T)

  /** A position `[x, y, z]` as the point list gives it. */
  datatype Vec3 = Vec3(x: real, y: real, z: real)

  /** One record of the point list. `name` and `state` may be absent from the
      JSON record; `id` is the key the registry files the marker under. */
  datatype PointData = PointData(id: string, name: Option<string>, pos: Vec3, state: Option<string>)

  /** How a template literal renders an optional field: an absent field
      prints as "undefined". */
  function Show(o: Option<string>): string
  {
    match o
    case Some(s) => s
    case None => "undefined"
  }

  /** The status text published when a marker is selected. */
  function SelectedInfo(d: PointData): string
  {
    "Selected: " + Show(d.name) + " (" + d.id + ") \U{2014} state: " + Show(d.state)
  }

  /** The status text published after a state button recoloured a marker. */
  function UpdatedInfo(name: Option<string>, state: string): string
  {
    "Updated " + Show(name) + " \U{2192} " + state
  }

  /** The status text a state button publishes when nothing is selected. */
  const NO_SELECTION_INFO: string := "Select a point first, then set its state."
}
