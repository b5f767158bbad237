/**
 * The application root: the point and polygon parsers used to place records
 * on the map, and the list updates that follow a POST or PUT.
 */
module App {
  import opened Wrappers
  import opened Strings
  import opened Numbers
  import opened Geometry
  import UpdateFarm

  const PointMarker := "POINT ("
  const PolygonMarker := "POLYGON (("

  /**
   * `parseLocation`: the text after the first `POINT (` (up to any second
   * marker), cut at the first `)`, split on spaces, returned as
   * `[parseFloat(lat), parseFloat(lng)]`. Without the marker, `split(...)[1]`
   * is undefined and calling `split` on it throws.
   */
  function ParseLocation(s: string): (r: Result<Coord>)
    ensures r.Err? <==> Find(s, PointMarker).None?
  {
    match At(Split(s, PointMarker), 1)
    case None => Err(TypeError)
    case Some(afterMarker) =>
      Ok(DecodePair(ParseFloatOf, Split(afterMarker, ")")[0]))
  }

  /**
   * `parsePolygon`: the text after the first `POLYGON ((` (up to any second
   * marker), cut at the first `))`, split on `", "`, each piece decoded in
   * order. Without the marker the call throws.
   */
  function ParsePolygon(s: string): (r: Result<seq<Coord>>)
    ensures r.Err? <==> Find(s, PolygonMarker).None?
    ensures r.Ok? ==> |r.value| >= 1
  {
    match At(Split(s, PolygonMarker), 1)
    case None => Err(TypeError)
    case Some(afterMarker) =>
      Ok(DecodeAll(ParseFloatOf, Split(Split(afterMarker, "))")[0], ", ")))
  }

  /** What `parsePolygon` returns once the text between its delimiters is known. */
  lemma ParsePolygonBetween(s: string, body: string)
    requires At(Split(s, PolygonMarker), 1) == Some(body + "))")
    requires Split(body + "))", "))")[0] == body
    ensures ParsePolygon(s) == Ok(DecodeAll(ParseFloatOf, Split(body, ", ")))
  {
  }

  /** What `parseLocation` returns once the text between its delimiters is known. */
  lemma ParseLocationBetween(s: string, body: string)
    requires At(Split(s, PointMarker), 1) == Some(body + ")")
    requires Split(body + ")", ")")[0] == body
    ensures ParseLocation(s) == Ok(DecodePair(ParseFloatOf, body))
  {
  }

  /** `[...records, res.data]` after a successful POST; a failed POST leaves the list alone. */
  function AppendCreated<T>(records: seq<T>, created: Option<T>): (r: seq<T>)
    ensures created.None? ==> r == records
    ensures created.Some? ==> |r| == |records| + 1 && r[..|records|] == records && r[|records|] == created.value
  {
    match created
    case None => records
    case Some(x) => records + [x]
  }

  /** `records.map(rec => rec.id === id ? updated : rec)`. */
  function ReplaceById<T>(records: seq<T>, id: string, idOf: T -> string, updated: T): (r: seq<T>)
    ensures |r| == |records|
    ensures forall i :: 0 <= i < |records| && idOf(records[i]) == id ==> r[i] == updated
    ensures forall i :: 0 <= i < |records| && idOf(records[i]) != id ==> r[i] == records[i]
    decreases |records|
  {
    if |records| == 0 then []
    else [if idOf(records[0]) == id then updated else records[0]] + ReplaceById(records[1..], id, idOf, updated)
  }

  /** With no record carrying the id, replacing changes nothing. */
  lemma ReplaceAbsentId<T>(records: seq<T>, id: string, idOf: T -> string, updated: T)
    requires forall i :: 0 <= i < |records| ==> idOf(records[i]) != id
    ensures ReplaceById(records, id, idOf, updated) == records
  {
  }

  /** Replacing with a record that carries the id is idempotent. */
  lemma ReplaceIdempotent<T>(records: seq<T>, id: string, idOf: T -> string, updated: T)
    requires idOf(updated) == id
    ensures ReplaceById(ReplaceById(records, id, idOf, updated), id, idOf, updated)
            == ReplaceById(records, id, idOf, updated)
  {
  }

  /** The records carrying other ids are kept, in order: they are exactly the untouched entries. */
  lemma {:induction false} ReplaceKeepsOthers<T>(records: seq<T>, id: string, idOf: T -> string, updated: T)
    requires idOf(updated) == id
    ensures Others(ReplaceById(records, id, idOf, updated), id, idOf) == Others(records, id, idOf)
    decreases |records|
  {
    if |records| > 0 {
      var r := ReplaceById(records, id, idOf, updated);
      assert r[1..] == ReplaceById(records[1..], id, idOf, updated);
      ReplaceKeepsOthers(records[1..], id, idOf, updated);
    }
  }

  /** The records whose id differs from `id`, in order. */
  function Others<T>(records: seq<T>, id: string, idOf: T -> string): seq<T>
    decreases |records|
  {
    if |records| == 0 then []
    else (if idOf(records[0]) == id then [] else [records[0]]) + Others(records[1..], id, idOf)
  }

  function FarmId(f: UpdateFarm.Farm): string {
    f.id
  }

  /** `updateFarm`: after a successful PUT every farm with the id is replaced; on error the list is unchanged. */
  function UpdateFarms(farms: seq<UpdateFarm.Farm>, id: string, updated: UpdateFarm.Farm, putSucceeds: bool): (r: seq<UpdateFarm.Farm>)
    ensures !putSucceeds ==> r == farms
    ensures |r| == |farms|
    ensures putSucceeds ==> forall i :: 0 <= i < |farms| ==> r[i] == (if farms[i].id == id then updated else farms[i])
  {
    if putSucceeds then ReplaceById(farms, id, FarmId, updated) else farms
  }

  /** A location record; `others` holds its remaining fields. */
  datatype Location = Location(id: string, location: string, others: map<string, string>)

  function LocationId(l: Location): string {
    l.id
  }

  /** `handleUpdateLocation`: the same replacement, applied only when the response reports `ok`. */
  function HandleUpdateLocation(locations: seq<Location>, id: string, updated: Location, resOk: bool): (r: seq<Location>)
    ensures !resOk ==> r == locations
    ensures |r| == |locations|
    ensures resOk ==> forall i :: 0 <= i < |locations| ==> r[i] == (if locations[i].id == id then updated else locations[i])
  {
    if resOk then ReplaceById(locations, id, LocationId, updated) else locations
  }

  /**
   * Loading a farm from the list, submitting the form unedited and storing
   * the PUT result gives back the same list, provided no other farm shares its id.
   */
  lemma UneditedUpdateKeepsFarms(farms: seq<UpdateFarm.Farm>, k: nat)
    requires k < |farms|
    requires forall i :: 0 <= i < |farms| && farms[i].id == farms[k].id ==> farms[i] == farms[k]
    ensures UpdateFarms(farms, farms[k].id,
                        UpdateFarm.HandleFieldUpdate(farms[k], UpdateFarm.Load(farms[k])).1, true) == farms
  {
    UpdateFarm.UneditedSubmitIsLoadedFarm(farms[k]);
  }
}
