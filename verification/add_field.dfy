/**
 * The add-field form: its own polygon encoder (closes the ring only when it is
 * open and writes `POLYGON((` without a space), the save handler with its
 * guard, payload and reset, and the form as a sequence of user events.
 */
module AddField {
  import opened Wrappers
  import opened Strings
  import opened Geometry
  import opened ProduceList

  const Prefix := "SRID=4326;POLYGON(("
  const Suffix := "))"

  /** Vertex-level closure: append the first vertex when the last one differs from it. */
  function CloseIfOpen(ring: seq<LatLng>): seq<LatLng> {
    if |ring| > 0 && ring[0] != ring[|ring| - 1] then ring + [ring[0]] else ring
  }

  /**
   * The formatted pairs, with `latlngs[0]` pushed when it differs from the
   * last formatted pair (with no vertices both are `undefined`, so nothing is
   * pushed). The result ends with its first pair, keeps the drawn pairs as a
   * prefix, and has one pair more than the ring exactly when the ring is open.
   */
  function ClosedPairs(ring: seq<LatLng>): (pairs: seq<string>)
    ensures |pairs| == if |ring| > 0 && ring[0] != ring[|ring| - 1] then |ring| + 1 else |ring|
    ensures pairs[..|ring|] == FormatAll(ring)
    ensures |ring| > 0 ==> pairs[|pairs| - 1] == pairs[0]
  {
    var latlngs := FormatAll(ring);
    EndsCompare(ring);
    if |latlngs| > 0 && latlngs[0] != latlngs[|latlngs| - 1] then latlngs + [latlngs[0]] else latlngs
  }

  /** The first and last printed pairs agree exactly when the first and last vertices do. */
  lemma EndsCompare(ring: seq<LatLng>)
    ensures |ring| > 0 ==> (FormatAll(ring)[0] == FormatAll(ring)[|ring| - 1] <==> ring[0] == ring[|ring| - 1])
  {
    if |ring| > 0 {
      FormatPairInjective(ring[0], ring[|ring| - 1]);
    }
  }

  /** The polygon string `SRID=4326;POLYGON((lng lat, ...))`. */
  function EncodeRing(ring: seq<LatLng>): string {
    Prefix + Join(ClosedPairs(ring), ", ") + Suffix
  }

  /** Comparing printed pairs is the same as comparing vertices. */
  lemma ClosedPairsAreClosedRing(ring: seq<LatLng>)
    ensures ClosedPairs(ring) == FormatAll(CloseIfOpen(ring))
  {
    EndsCompare(ring);
  }

  /** Closing is idempotent, so an already-closed ring is encoded exactly as drawn. */
  lemma ClosureIdempotent(ring: seq<LatLng>)
    ensures CloseIfOpen(CloseIfOpen(ring)) == CloseIfOpen(ring)
    ensures EncodeRing(CloseIfOpen(ring)) == EncodeRing(ring)
    ensures |ring| > 0 && ring[0] == ring[|ring| - 1] ==> EncodeRing(ring) == Prefix + Join(FormatAll(ring), ", ") + Suffix
  {
    ClosedPairsAreClosedRing(ring);
    ClosedPairsAreClosedRing(CloseIfOpen(ring));
  }

  /** The form's state variables. */
  datatype State = State(
    drawnCoordinates: string,
    name: string,
    id: string,
    description: string,
    produce: seq<Produce>,
    farmer: string,
    farmArea: string,
    notification: string,
    modalOpen: bool)

  function Initial(): State {
    State("", "", "", "", [Blank], "", "", "", false)
  }

  /** The body of the POST; the identification number the form collects is not part of it. */
  datatype FieldData = FieldData(
    name: string,
    description: string,
    farmArea: string,
    areaAcres: string,
    farmer: string,
    produce: seq<Produce>)

  /** What a save does: the next state, the POST body if one was sent, and the record handed to `onAddField`. */
  datatype Submission = Submission(state: State, posted: Option<FieldData>, handedOn: Option<FieldData>)

  const MissingAreaMessage := "Please draw the farm area on the map and input the area in acres before saving."
  const PostFailedMessage := "Error adding field. Please try again."

  /**
   * `handleFieldAddition`, with the outcome of the POST as a parameter. An
   * empty `drawnCoordinates` or `farmArea` blocks the request; a sent payload
   * carries the drawn polygon as `farm_area` and `farmArea` as `area_acres`; a
   * successful POST resets the form (all but `farmArea`) and opens the modal.
   */
  function HandleFieldAddition(s: State, postSucceeds: bool): (r: Submission)
    ensures r.posted.None? <==> s.drawnCoordinates == "" || s.farmArea == ""
    ensures r.posted.None? ==> r.state == s.(notification := MissingAreaMessage) && r.handedOn.None?
    ensures r.posted.Some? ==> r.posted.value.farmArea == s.drawnCoordinates
    ensures r.posted.Some? ==> r.posted.value.areaAcres == s.farmArea
    ensures r.posted.Some? ==> r.posted.value.name == s.name && r.posted.value.description == s.description
    ensures r.posted.Some? ==> r.posted.value.farmer == s.farmer && r.posted.value.produce == s.produce
    ensures r.posted.Some? && postSucceeds ==>
              r.handedOn == r.posted &&
              r.state == Initial().(farmArea := s.farmArea, notification := s.notification, modalOpen := true)
    ensures r.posted.Some? && !postSucceeds ==>
              r.handedOn.None? && r.state == s.(notification := PostFailedMessage)
  {
    if s.drawnCoordinates == "" || s.farmArea == "" then
      Submission(s.(notification := MissingAreaMessage), None, None)
    else
      var fieldData := FieldData(s.name, s.description, s.drawnCoordinates, s.farmArea, s.farmer, s.produce);
      if postSucceeds then
        var reset := s.(name := "", id := "", description := "", produce := [Blank], farmer := "",
                        drawnCoordinates := "", modalOpen := true);
        Submission(reset, Some(fieldData), Some(fieldData))
      else
        Submission(s.(notification := PostFailedMessage), Some(fieldData), None)
  }

  /** `handleCreated`: only a `"polygon"` layer type replaces the drawn coordinates. */
  function HandleCreated(s: State, layerType: string, ring: seq<LatLng>): (r: State)
    ensures layerType != "polygon" ==> r == s
    ensures layerType == "polygon" ==> r == s.(drawnCoordinates := EncodeRing(ring))
  {
    if layerType == "polygon" then s.(drawnCoordinates := EncodeRing(ring)) else s
  }

  /** Everything the rendered form lets a user do. */
  datatype Event =
    | EditName(value: string)
    | EditId(value: string)
    | EditDescription(value: string)
    | EditFarmer(value: string)
    | EditProduce(index: int, field: Field, value: string)
    | AddProduceRow
    | Created(layerType: string, ring: seq<LatLng>)
    | Save(postSucceeds: bool)
    | CloseModal

  /** One event; a produce edit that throws leaves the state as it was. */
  function Step(s: State, e: Event): Submission {
    match e
    case EditName(v) => Submission(s.(name := v), None, None)
    case EditId(v) => Submission(s.(id := v), None, None)
    case EditDescription(v) => Submission(s.(description := v), None, None)
    case EditFarmer(v) => Submission(s.(farmer := v), None, None)
    case EditProduce(i, f, v) =>
      var next := match ChangeProduce(s.produce, i, f, v)
        case Ok(rows) => s.(produce := rows)
        case Err(_) => s;
      Submission(next, None, None)
    case AddProduceRow => Submission(s.(produce := AddProduce(s.produce)), None, None)
    case Created(t, ring) => Submission(HandleCreated(s, t, ring), None, None)
    case Save(ok) => HandleFieldAddition(s, ok)
    case CloseModal => Submission(s.(modalOpen := false), None, None)
  }

  /** The final state after a run of events, and every POST body sent on the way. */
  function Run(s: State, events: seq<Event>): (State, seq<FieldData>)
    decreases |events|
  {
    if |events| == 0 then (s, [])
    else
      var r := Step(s, events[0]);
      var (last, posts) := Run(r.state, events[1..]);
      (last, (if r.posted.Some? then [r.posted.value] else []) + posts)
  }

  /**
   * No event sets `farmArea`, so it stays empty and every save stops at the
   * guard: from the initial form, no sequence of events ever sends a POST.
   */
  lemma {:induction false} NeverPosts(s: State, events: seq<Event>)
    requires s.farmArea == ""
    ensures Run(s, events).0.farmArea == ""
    ensures Run(s, events).1 == []
    decreases |events|
  {
    if |events| > 0 {
      var r := Step(s, events[0]);
      assert r.state.farmArea == "" && r.posted.None?;
      NeverPosts(r.state, events[1..]);
    }
  }

  lemma InitialFormNeverPosts(events: seq<Event>)
    ensures Run(Initial(), events).1 == []
  {
    NeverPosts(Initial(), events);
  }
}
