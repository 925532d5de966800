/** The state -> colour table of the marker engine, and the fallback to the
    `pending` colour for any state outside the table. */
module StateColors {
  import opened Points

  const PENDING: int := 0x9ca3af      // gray
  const IN_PROGRESS: int := 0xf59e0b  // amber
  const DONE: int := 0x10b981         // green
  const ERROR: int := 0xef4444        // red

  /** The table's own entries. */
  const STATE_COLORS: map<string, int> :=
    map["pending" := PENDING, "in_progress" := IN_PROGRESS, "done" := DONE, "error" := ERROR]

  /** True when `state` names one of the four table entries. */
  predicate Known(state: Option<string>)
  {
    state.Some? && state.value in STATE_COLORS
  }

  /** The colour a marker is drawn in for its (possibly absent) state. */
  function ColorOf(state: Option<string>): int
  {
    if Known(state) then STATE_COLORS[state.value] else PENDING
  }

  /** A marker is always drawn in a table colour: its own state's entry when
      the state is in the table, and the `pending` colour exactly when the
      state is absent, outside the table, or "pending" itself. */
  lemma ColorFallback(state: Option<string>)
    ensures ColorOf(state) in STATE_COLORS.Values
    ensures Known(state) ==> ColorOf(state) == STATE_COLORS[state.value]
    ensures ColorOf(state) == PENDING <==> !Known(state) || state.value == "pending"
  {
    assert STATE_COLORS["pending"] == PENDING;
  }

  // ---------------------------------------------------------------------
  // The lookup as the script writes it: `STATE_COLORS[state] ?? pending` is
  // a JavaScript property access on an object literal, so it also finds the
  // members every object inherits from Object.prototype, and `??` falls
  // back only when the access yields undefined.
  // ---------------------------------------------------------------------

  /** The names an object literal inherits from Object.prototype
      (ECMAScript, "Properties of the Object Prototype Object", together
      with the legacy accessor helpers of Annex B). */
  const OBJECT_PROTOTYPE_KEYS: set<string> := {
    "constructor", "hasOwnProperty", "isPrototypeOf", "propertyIsEnumerable",
    "toLocaleString", "toString", "valueOf", "__proto__",
    "__defineGetter__", "__defineSetter__", "__lookupGetter__", "__lookupSetter__"
  }

  /** What a property access on the colour table yields. */
  datatype JsValue = Undefined | Number(n: int) | Inherited(key: string)

  /** `STATE_COLORS[key]`: an own entry, an inherited member, or undefined. */
  function PropertyOf(key: string): (v: JsValue)
    ensures v.Number? <==> key in STATE_COLORS
    ensures v.Undefined? <==> key !in STATE_COLORS && key !in OBJECT_PROTOTYPE_KEYS
  {
    if key in STATE_COLORS then Number(STATE_COLORS[key])
    else if key in OBJECT_PROTOTYPE_KEYS then Inherited(key)
    else Undefined
  }

  /** `STATE_COLORS[p.state] ?? STATE_COLORS.pending` as written. An absent
      state is converted to the property key "undefined". */
  function ColorAsWritten(state: Option<string>): JsValue
  {
    var key := if state.Some? then state.value else "undefined";
    var v := PropertyOf(key);
    if v.Undefined? then Number(PENDING) else v
  }

  /** The as-written lookup agrees with `ColorOf` on every state that is
      absent or does not name an Object.prototype member. */
  lemma AsWrittenAgreesOffPrototype(state: Option<string>)
    requires state.None? || state.value !in OBJECT_PROTOTYPE_KEYS
    ensures ColorAsWritten(state) == Number(ColorOf(state))
  {
    if state.None? {
      assert "undefined" !in STATE_COLORS && "undefined" !in OBJECT_PROTOTYPE_KEYS;
    }
  }

  /** The discrepancy: every Object.prototype member name as a state escapes
      the fallback, so the marker is given no colour from the table at all. */
  lemma PrototypeKeyEscapesFallback(key: string)
    requires key in OBJECT_PROTOTYPE_KEYS
    ensures ColorAsWritten(Some(key)) == Inherited(key)
    ensures ColorAsWritten(Some(key)) != Number(ColorOf(Some(key)))
  {
    assert key !in STATE_COLORS;
  }

  /** A concrete input: the state "toString". */
  lemma ToStringStateIsNotPending()
    ensures ColorAsWritten(Some("toString")) != Number(PENDING)
    ensures ColorOf(Some("toString")) == PENDING
  {
    PrototypeKeyEscapesFallback("toString");
  }
}
