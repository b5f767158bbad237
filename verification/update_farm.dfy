/**
 * The farm update form: its polygon encoder (used by both `handleEdited` and
 * `handleCreated`), `parseFarmArea`, loading a farm into the form and merging
 * the form back into the submitted record.
 */
module UpdateFarm {
  import opened Wrappers
  import opened Strings
  import opened Numbers
  import opened Geometry
  import opened ProduceList

  const Prefix := "SRID=4326;POLYGON (("
  const Suffix := "))"

  /**
   * The formatted pairs with `latlngs[0]` pushed unconditionally. With no
   * vertices the pushed element is `undefined`, which `join` prints as "".
   */
  function ClosedPairs(ring: seq<LatLng>): (pairs: seq<string>)
    ensures |pairs| == |ring| + 1
    ensures |ring| > 0 ==> pairs == FormatAll(ring + [ring[0]])
  {
    var latlngs := FormatAll(ring);
    latlngs + [if |latlngs| > 0 then latlngs[0] else ""]
  }

  /** The polygon string `SRID=4326;POLYGON ((lng lat, ..., lng0 lat0))`. */
  function EncodeRing(ring: seq<LatLng>): string {
    Prefix + Join(ClosedPairs(ring), ", ") + Suffix
  }

  /**
   * `parseFarmArea`: removes the first occurrence of the prefix and of `))`,
   * wherever they are, splits on `", "` and decodes each piece. It never throws
   * and never returns an empty list.
   */
  function ParseFarmArea(farmArea: string): (coords: seq<Coord>)
    ensures |coords| >= 1
  {
    var coordinatesString := ReplaceFirst(ReplaceFirst(farmArea, Prefix, ""), Suffix, "");
    DecodeAll(NumberOf, Split(coordinatesString, ", "))
  }

  /** What `parseFarmArea` returns once the stripped text is known. */
  lemma ParseFarmAreaStripped(farmArea: string, stripped: string)
    requires ReplaceFirst(ReplaceFirst(farmArea, Prefix, ""), Suffix, "") == stripped
    ensures ParseFarmArea(farmArea) == DecodeAll(NumberOf, Split(stripped, ", "))
  {
  }

  /**
   * `parseFarmArea` on its own format: pieces free of commas and closing
   * parentheses, joined with `", "` between the prefix and the suffix, are
   * split apart again and decoded one by one.
   */
  lemma ParseFarmAreaText(pairs: seq<string>)
    requires |pairs| > 0
    requires forall i :: 0 <= i < |pairs| ==> ',' !in pairs[i] && ')' !in pairs[i]
    ensures ParseFarmArea(Prefix + Join(pairs, ", ") + Suffix) == DecodeAll(NumberOf, pairs)
  {
    var body := Join(pairs, ", ");
    JoinExcludes(pairs, ", ", ')');
    StripAround(Prefix, body, Suffix);
    ParseFarmAreaStripped(Prefix + body + Suffix, body);
    SplitJoin(pairs, ", ");
  }

  /**
   * Round trip: decoding an encoded ring gives every vertex as `[lat, lng]`,
   * in drawing order, followed by the first vertex again.
   */
  lemma ParseFarmAreaRoundTrip(ring: seq<LatLng>)
    requires |ring| > 0
    ensures ParseFarmArea(EncodeRing(ring)) == ExactAll(ring + [ring[0]])
  {
    var closed := ring + [ring[0]];
    PairsClean(closed);
    ParseFarmAreaText(FormatAll(closed));
    DecodeAllFormatted(NumberOf, closed);
  }

  /** An already-closed ring gains a duplicate: the decoded list ends with the closing vertex twice. */
  lemma ClosedRingGainsDuplicate(ring: seq<LatLng>)
    requires |ring| >= 2 && ring[0] == ring[|ring| - 1]
    ensures |ParseFarmArea(EncodeRing(ring))| == |ring| + 1
    ensures ParseFarmArea(EncodeRing(ring))[|ring| - 1] == ParseFarmArea(EncodeRing(ring))[|ring|]
  {
    ParseFarmAreaRoundTrip(ring);
  }

  /**
   * With no vertices the encoder writes `SRID=4326;POLYGON (())`; decoding
   * that splits `""` into one empty token: longitude `Number("")` is 0, and
   * the latitude is `undefined` (modelled as `None`), because `.map(Number)`
   * runs before the destructuring and never sees the missing element.
   */
  lemma EmptyRingDecodes()
    ensures EncodeRing([]) == "SRID=4326;POLYGON (())"
    ensures ParseFarmArea(EncodeRing([])) == [Coord(None, Some("0"))]
  {
    assert ClosedPairs([]) == [""];
    ReplaceAt("", Prefix, Suffix, "");
    assert EncodeRing([]) == "" + Prefix + Suffix;
    ReplaceAt("", Suffix, "", "");
    assert Suffix == "" + Suffix + "";
    SplitWhole("", ", ", 0);
    SplitWhole("", " ", 0);
  }

  /** A farm record as the API returns it; `others` holds every field the form does not edit. */
  datatype Farm = Farm(
    id: string,
    name: string,
    description: string,
    produce: seq<Produce>,
    farmer: string,
    farmArea: string,
    areaAcres: string,
    others: map<string, string>)

  /** The form's state variables. */
  datatype Form = Form(
    name: string,
    description: string,
    produce: seq<Produce>,
    farmer: string,
    farmArea: string,
    area: string)

  /** The effect that copies a fetched farm into the form, field for field. */
  function Load(farm: Farm): Form {
    Form(farm.name, farm.description, farm.produce, farm.farmer, farm.farmArea, farm.areaAcres)
  }

  /**
   * `{ ...farm, name, description, produce, farmer, farm_area: farmArea, area_acres: area }`:
   * the six edited fields come from the form, everything else from the loaded farm.
   */
  function Merge(farm: Farm, form: Form): (updated: Farm)
    ensures updated.id == farm.id && updated.others == farm.others
    ensures Load(updated) == form
  {
    farm.(name := form.name, description := form.description, produce := form.produce,
          farmer := form.farmer, farmArea := form.farmArea, areaAcres := form.area)
  }

  /** Submitting without edits sends back exactly the farm that was loaded. */
  lemma UneditedSubmitIsLoadedFarm(farm: Farm)
    ensures Merge(farm, Load(farm)) == farm
  {
  }

  /** Merging two forms into the same farm gives the same record only if the forms are equal: no edit is lost. */
  lemma MergeDeterminesForm(farm: Farm, f1: Form, f2: Form)
    ensures Merge(farm, f1) == Merge(farm, f2) <==> f1 == f2
  {
  }

  /** `handleSubmit` hands the app the loaded farm's id and the merged record. */
  function HandleFieldUpdate(farm: Farm, form: Form): (call: (string, Farm))
    ensures call.0 == farm.id && call.1.id == farm.id
    ensures Load(call.1) == form && call.1.others == farm.others
  {
    (farm.id, Merge(farm, form))
  }

  /** `handleProduceChange` on the form; a throwing edit leaves the form as it was. */
  function EditProduce(form: Form, index: int, field: Field, value: string): (r: Form)
    ensures r == form.(produce := r.produce) && |r.produce| == |form.produce|
    ensures 0 <= index < |form.produce| ==> Get(r.produce[index], field) == value
    ensures 0 <= index < |form.produce| ==> Get(r.produce[index], Other(field)) == Get(form.produce[index], Other(field))
    ensures forall j :: 0 <= j < |form.produce| && j != index ==> r.produce[j] == form.produce[j]
    ensures !(0 <= index < |form.produce|) ==> r == form
  {
    match ChangeProduce(form.produce, index, field, value)
    case Ok(rows) => form.(produce := rows)
    case Err(_) => form
  }

  /** A layer of an edit or create event; only polygons are encoded. */
  datatype Layer = PolygonLayer(ring: seq<LatLng>) | OtherLayer

  /** The last polygon among the layers, the one whose encoding ends up in the form. */
  function LastPolygon(layers: seq<Layer>): Option<seq<LatLng>>
    decreases |layers|
  {
    if |layers| == 0 then None
    else match layers[|layers| - 1]
      case PolygonLayer(ring) => Some(ring)
      case OtherLayer => LastPolygon(layers[..|layers| - 1])
  }

  lemma {:induction false} LastPolygonCons(layers: seq<Layer>)
    requires |layers| > 0
    ensures LastPolygon(layers) == (match LastPolygon(layers[1..])
                                    case Some(r) => Some(r)
                                    case None => (match layers[0]
                                                  case PolygonLayer(ring) => Some(ring)
                                                  case OtherLayer => None))
    decreases |layers|
  {
    if |layers| > 1 {
      var init := layers[..|layers| - 1];
      assert init[1..] == layers[1..][..|layers[1..]| - 1];
      assert init[0] == layers[0];
      if layers[|layers| - 1].OtherLayer? {
        LastPolygonCons(init);
      }
    }
  }

  /**
   * `handleEdited`: `eachLayer` visits the edited layers in order and every
   * polygon overwrites `farmArea`, so the last polygon wins; nothing else changes.
   */
  function HandleEdited(form: Form, layers: seq<Layer>): (r: Form)
    ensures r == form.(farmArea := r.farmArea)
    ensures LastPolygon(layers).None? ==> r == form
    ensures LastPolygon(layers).Some? ==> r.farmArea == EncodeRing(LastPolygon(layers).value)
    decreases |layers|
  {
    if |layers| == 0 then form
    else
      var next := match layers[0]
        case PolygonLayer(ring) => form.(farmArea := EncodeRing(ring))
        case OtherLayer => form;
      LastPolygonCons(layers);
      HandleEdited(next, layers[1..])
  }

  /** `handleCreated`: a new polygon replaces `farmArea`; any other layer is ignored. */
  function HandleCreated(form: Form, layer: Layer): (r: Form)
    ensures layer.OtherLayer? ==> r == form
    ensures layer.PolygonLayer? ==> r == form.(farmArea := EncodeRing(layer.ring))
  {
    match layer
    case PolygonLayer(ring) => form.(farmArea := EncodeRing(ring))
    case OtherLayer => form
  }

  /** Creating a polygon and editing it as the only layer leave the form in the same state. */
  lemma CreatedMatchesEdited(form: Form, ring: seq<LatLng>)
    ensures HandleCreated(form, PolygonLayer(ring)) == HandleEdited(form, [PolygonLayer(ring)])
  {
    assert LastPolygon([PolygonLayer(ring)]) == Some(ring);
  }
}
