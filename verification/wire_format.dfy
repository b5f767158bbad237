/**
 * How the three inlined copies of the codec fit together: what `parsePolygon`
 * and `parseFarmArea` make of each encoder's output, and the point format.
 */
module WireFormat {
  import opened Wrappers
  import opened Strings
  import opened Numbers
  import opened Geometry
  import UpdateFarm
  import AddField
  import App

  /**
   * The point string of the location forms. Their component is not part of
   * this model; the shape `SRID=4326;POINT (lng lat)` is the one their tests
   * expect.
   */
  function EncodePoint(v: LatLng): (s: string)
    ensures App.ParseLocation(s) == Ok(Exact(v))
  {
    ParseLocationAfterPrefix("SRID=4326;", v);
    "SRID=4326;" + App.PointMarker + FormatPair(v) + ")"
  }

  /** `parseLocation` on text: the piece between the marker and the first `)` is decoded as a pair. */
  lemma ParseLocationText(p: string, body: string)
    requires 'P' !in p && '(' !in body && ')' !in body
    ensures App.ParseLocation(p + App.PointMarker + body + ")") == Ok(DecodePair(ParseFloatOf, body))
  {
    Between(p, App.PointMarker, body, ")", 6);
    App.ParseLocationBetween(p + App.PointMarker + body + ")", body);
  }

  /**
   * `parseLocation` only searches for `POINT (`, so any prefix free of `P`,
   * with or without `SRID=4326;`, decodes to `[lat, lng]`.
   */
  lemma ParseLocationAfterPrefix(p: string, v: LatLng)
    requires 'P' !in p
    ensures App.ParseLocation(p + App.PointMarker + FormatPair(v) + ")") == Ok(Exact(v))
  {
    PairClean(v);
    ParseLocationText(p, FormatPair(v));
    DecodeFormatted(ParseFloatOf, v);
  }

  lemma ParseLocationWithoutSrid(v: LatLng)
    ensures App.ParseLocation(App.PointMarker + FormatPair(v) + ")") == Ok(Exact(v))
  {
    ParseLocationAfterPrefix("", v);
    assert "" + App.PointMarker == App.PointMarker;
  }

  lemma ExampleTokens()
    ensures IsNumeral("8.88") && IsNumeral("9.99")
  {
    assert Scans(Fraction, "8"[1..]) && Scans(Fraction, "9"[1..]);
    assert Scans(Fraction, "88"[1..]) && Scans(Fraction, "99"[1..]);
    assert Scans(Point, ".88"[1..]) && Scans(Point, ".99"[1..]);
    assert Scans(Integer, "8.88"[1..]) && Scans(Integer, "9.99"[1..]);
  }

  lemma ExampleText(lat: Token, lng: Token)
    requires lat == "9.99" && lng == "8.88"
    ensures "SRID=4326;" + App.PointMarker + FormatPair(LatLng(lat, lng)) + ")" == "SRID=4326;POINT (8.88 9.99)"
  {
  }

  /** The stored point of the location tests decodes to latitude 9.99, longitude 8.88. */
  lemma ParseLocationExample()
    ensures App.ParseLocation("SRID=4326;POINT (8.88 9.99)") == Ok(Coord(Some("9.99"), Some("8.88")))
  {
    ExampleTokens();
    var lat: Token := "9.99";
    var lng: Token := "8.88";
    ExampleText(lat, lng);
    ParseLocationAfterPrefix("SRID=4326;", LatLng(lat, lng));
  }

  /** Without `POINT (` the parser throws. */
  lemma ParseLocationNeedsMarker(s: string)
    requires '(' !in s
    ensures App.ParseLocation(s).Err?
  {
    FindNone(s, App.PointMarker, 6);
  }

  /**
   * `parsePolygon` on text: pieces free of commas and parentheses, joined
   * with `", "` after the marker and closed with `))`, are decoded one by one.
   */
  lemma ParsePolygonText(p: string, pairs: seq<string>)
    requires 'P' !in p && |pairs| > 0
    requires forall i :: 0 <= i < |pairs| ==> ',' !in pairs[i] && '(' !in pairs[i] && ')' !in pairs[i]
    ensures App.ParsePolygon(p + App.PolygonMarker + Join(pairs, ", ") + "))") == Ok(DecodeAll(ParseFloatOf, pairs))
  {
    var body := Join(pairs, ", ");
    JoinExcludes(pairs, ", ", '(');
    JoinExcludes(pairs, ", ", ')');
    Between(p, App.PolygonMarker, body, "))", 8);
    App.ParsePolygonBetween(p + App.PolygonMarker + body + "))", body);
    SplitJoin(pairs, ", ");
  }

  /**
   * `parsePolygon` finds `POLYGON ((` after any `P`-free prefix and returns
   * the pairs between it and `))` as `[lat, lng]`, count and order preserved.
   */
  lemma ParsePolygonAfterPrefix(p: string, ring: seq<LatLng>)
    requires 'P' !in p && |ring| > 0
    ensures App.ParsePolygon(p + App.PolygonMarker + Join(FormatAll(ring), ", ") + "))") == Ok(ExactAll(ring))
  {
    PairsClean(ring);
    ParsePolygonText(p, FormatAll(ring));
    DecodeAllFormatted(ParseFloatOf, ring);
  }

  lemma UpdateFarmShape(ring: seq<LatLng>)
    requires |ring| > 0
    ensures UpdateFarm.EncodeRing(ring)
            == "SRID=4326;" + App.PolygonMarker + Join(FormatAll(ring + [ring[0]]), ", ") + "))"
  {
    assert UpdateFarm.Prefix == "SRID=4326;" + App.PolygonMarker;
  }

  /** `parsePolygon` reads the update form's polygon back as the ring plus its first vertex again. */
  lemma ParsePolygonOfUpdateFarm(ring: seq<LatLng>)
    requires |ring| > 0
    ensures App.ParsePolygon(UpdateFarm.EncodeRing(ring)) == Ok(ExactAll(ring + [ring[0]]))
  {
    UpdateFarmShape(ring);
    ParsePolygonAfterPrefix("SRID=4326;", ring + [ring[0]]);
  }

  /** The same polygon without the `SRID=4326;` prefix decodes identically. */
  lemma ParsePolygonWithoutSrid(ring: seq<LatLng>)
    requires |ring| > 0
    ensures App.ParsePolygon(App.PolygonMarker + Join(FormatAll(ring), ", ") + "))") == Ok(ExactAll(ring))
  {
    ParsePolygonAfterPrefix("", ring);
    assert "" + App.PolygonMarker == App.PolygonMarker;
  }

  lemma AddFieldPrefixChars()
    ensures ' ' !in AddField.Prefix && ',' !in AddField.Prefix && ')' !in AddField.Prefix && '(' in AddField.Prefix
  {
    assert AddField.Prefix[17] == '(';
  }

  /** The add form's polygon text: its prefix, the printed closed ring joined with `", "`, and `))`. */
  lemma AddFieldShape(ring: seq<LatLng>)
    ensures AddField.EncodeRing(ring) == AddField.Prefix + Join(FormatAll(AddField.CloseIfOpen(ring)), ", ") + "))"
  {
    AddField.ClosedPairsAreClosedRing(ring);
  }

  /** The app's polygon marker does not occur in text the add form writes. */
  lemma AddFieldTextLacksMarker(body: string)
    requires '(' !in body
    ensures Find(AddField.Prefix + body + "))", App.PolygonMarker) == None
  {
    var q := AddField.Prefix;
    assert q + body + "))" == q + (body + "))");
    FindNone(q, App.PolygonMarker, 7);
    FindNoneAcross(q, body + "))", App.PolygonMarker);
  }

  /** `parseFarmArea`'s prefix does not occur in text the add form writes. */
  lemma AddFieldTextLacksFarmPrefix(body: string)
    requires '(' !in body
    ensures Find(AddField.Prefix + body + "))", UpdateFarm.Prefix) == None
  {
    var q := AddField.Prefix;
    assert q + body + "))" == q + (body + "))");
    FindNone(q, UpdateFarm.Prefix, 17);
    FindNoneAcross(q, body + "))", UpdateFarm.Prefix);
  }

  /**
   * `parsePolygon` throws on the add form's output: it writes `POLYGON((`
   * without the space the parser's marker requires.
   */
  lemma ParsePolygonRejectsAddField(ring: seq<LatLng>)
    ensures App.ParsePolygon(AddField.EncodeRing(ring)).Err?
  {
    var pairs := FormatAll(AddField.CloseIfOpen(ring));
    AddFieldShape(ring);
    PairsClean(AddField.CloseIfOpen(ring));
    JoinExcludes(pairs, ", ", '(');
    AddFieldTextLacksMarker(Join(pairs, ", "));
  }

  /** On text the add form writes, `parseFarmArea` finds no prefix to remove and strips only the closing `))`. */
  lemma StripAddFieldText(body: string)
    requires '(' !in body && ')' !in body
    ensures ReplaceFirst(ReplaceFirst(AddField.Prefix + body + "))", UpdateFarm.Prefix, ""), "))", "")
            == AddField.Prefix + body
  {
    var q := AddField.Prefix;
    var s := q + body + "))";
    AddFieldTextLacksFarmPrefix(body);
    assert ReplaceFirst(s, UpdateFarm.Prefix, "") == s;
    AddFieldPrefixChars();
    assert ')' !in q + body;
    ReplaceAt(q + body, "))", "", "");
    assert s == q + body + "))" + "";
  }

  /** Splitting the stripped text on `", "` gives the prefix glued to the first piece, then the other pieces. */
  lemma SplitAddFieldText(pairs: seq<string>)
    requires |pairs| > 0
    requires forall i :: 0 <= i < |pairs| ==> ',' !in pairs[i]
    ensures Split(AddField.Prefix + Join(pairs, ", "), ", ") == [AddField.Prefix + pairs[0]] + pairs[1..]
  {
    AddFieldPrefixChars();
    SplitJoinAfter(AddField.Prefix, pairs, ", ");
  }

  /** `parseFarmArea` on the add form's text decodes the glued first piece and then the other pieces. */
  lemma ParseFarmAreaAddFieldText(pairs: seq<string>)
    requires |pairs| > 0
    requires forall i :: 0 <= i < |pairs| ==> ',' !in pairs[i] && '(' !in pairs[i] && ')' !in pairs[i]
    ensures UpdateFarm.ParseFarmArea(AddField.Prefix + Join(pairs, ", ") + "))")
         == DecodeAll(NumberOf, [AddField.Prefix + pairs[0]] + pairs[1..])
  {
    var body := Join(pairs, ", ");
    JoinExcludes(pairs, ", ", '(');
    JoinExcludes(pairs, ", ", ')');
    StripAddFieldText(body);
    SplitAddFieldText(pairs);
    UpdateFarm.ParseFarmAreaStripped(AddField.Prefix + body + "))", AddField.Prefix + body);
  }

  /** Text without a space glued in front of a pair stays with the longitude when split on the space. */
  lemma GluedSplit(q: string, v: LatLng)
    requires ' ' !in q
    ensures Split(q + FormatPair(v), " ") == [q + v.lng, v.lat]
  {
    TokenClean(v.lng);
    TokenClean(v.lat);
    assert q + FormatPair(v) == (q + v.lng) + " " + v.lat;
    SplitPair(q + v.lng, " ", v.lat);
  }

  /** The glued first piece reads as a NaN longitude and the first vertex's latitude. */
  lemma GluedPairDecodes(v: LatLng)
    ensures DecodePair(NumberOf, AddField.Prefix + FormatPair(v)) == Coord(Some(v.lat), None)
  {
    var q := AddField.Prefix;
    AddFieldPrefixChars();
    GluedSplit(q, v);
    DecodeSplitPair(NumberOf, q + FormatPair(v), q + v.lng, v.lat);
    ParenIsNaN(q + v.lng);
    TokenReadsBack(v.lat);
  }

  /** The glued first piece gives a NaN longitude; the remaining pairs decode exactly. */
  lemma GluedPiecesDecode(closed: seq<LatLng>)
    requires |closed| > 0
    ensures DecodeAll(NumberOf, [AddField.Prefix + FormatAll(closed)[0]] + FormatAll(closed)[1..])
         == [Coord(Some(closed[0].lat), None)] + ExactAll(closed[1..])
  {
    var pairs := FormatAll(closed);
    DecodeAllCons(NumberOf, AddField.Prefix + pairs[0], pairs[1..]);
    GluedPairDecodes(closed[0]);
    FormatAllTail(closed);
    DecodeAllFormatted(NumberOf, closed[1..]);
  }

  /**
   * `parseFarmArea` on the add form's output: its prefix literal is not found,
   * so the first piece keeps `SRID=4326;POLYGON((` glued to the first
   * longitude, which reads as NaN; the other pairs of the closed ring decode normally.
   */
  lemma ParseFarmAreaOfAddField(ring: seq<LatLng>)
    requires |ring| > 0
    ensures UpdateFarm.ParseFarmArea(AddField.EncodeRing(ring))
         == [Coord(Some(ring[0].lat), None)] + ExactAll(AddField.CloseIfOpen(ring)[1..])
  {
    var closed := AddField.CloseIfOpen(ring);
    AddFieldShape(ring);
    PairsClean(closed);
    ParseFarmAreaAddFieldText(FormatAll(closed));
    GluedPiecesDecode(closed);
  }
}
