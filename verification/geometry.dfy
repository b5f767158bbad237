/**
 * Map vertices and decoded coordinate pairs. The wire format puts longitude
 * first (`lng lat`); the decoders hand Leaflet `[lat, lng]`.
 */
module Geometry {
  import opened Wrappers
  import opened Strings
  import opened Numbers

  /** A drawn vertex as Leaflet's `getLatLngs()[0]` yields it, each coordinate held as its printed text. */
  datatype LatLng = LatLng(lat: Token, lng: Token)

  /** A decoded `[lat, lng]` pair; `None` is NaN, or `undefined` where the piece had no such element. */
  datatype Coord = Coord(lat: Option<Token>, lng: Option<Token>)

  /** The template literal `${latlng.lng} ${latlng.lat}`. */
  function FormatPair(v: LatLng): string {
    v.lng + " " + v.lat
  }

  function FormatAll(ring: seq<LatLng>): (pairs: seq<string>)
    ensures |pairs| == |ring|
    ensures forall i :: 0 <= i < |ring| ==> pairs[i] == FormatPair(ring[i])
  {
    seq(|ring|, i requires 0 <= i < |ring| => FormatPair(ring[i]))
  }

  /** The pair a lossless decoder returns for a vertex. */
  function Exact(v: LatLng): Coord {
    Coord(Some(v.lat), Some(v.lng))
  }

  function ExactAll(ring: seq<LatLng>): (coords: seq<Coord>)
    ensures |coords| == |ring|
    ensures forall i :: 0 <= i < |ring| ==> coords[i] == Exact(ring[i])
  {
    seq(|ring|, i requires 0 <= i < |ring| => Exact(ring[i]))
  }

  /** A formatted pair splits on its space into longitude, then latitude. */
  lemma PairSplit(v: LatLng)
    ensures Split(FormatPair(v), " ") == [v.lng, v.lat]
  {
    TokenClean(v.lng);
    TokenClean(v.lat);
    SplitPair(v.lng, " ", v.lat);
  }

  /** Two vertices print the same iff they are the same vertex. */
  lemma FormatPairInjective(v: LatLng, w: LatLng)
    ensures FormatPair(v) == FormatPair(w) <==> v == w
  {
    PairSplit(v);
    PairSplit(w);
  }

  /** No formatted pair holds a comma or a parenthesis. */
  lemma PairClean(v: LatLng)
    ensures ',' !in FormatPair(v) && '(' !in FormatPair(v) && ')' !in FormatPair(v)
  {
    TokenClean(v.lng);
    TokenClean(v.lat);
  }

  /** No pair of a ring holds a comma or a parenthesis. */
  lemma PairsClean(ring: seq<LatLng>)
    ensures forall i :: 0 <= i < |ring| ==> ',' !in FormatAll(ring)[i] && '(' !in FormatAll(ring)[i] && ')' !in FormatAll(ring)[i]
  {
    forall i | 0 <= i < |ring|
      ensures ',' !in FormatAll(ring)[i] && '(' !in FormatAll(ring)[i] && ')' !in FormatAll(ring)[i]
    {
      PairClean(ring[i]);
    }
  }

  /** The string-to-number conversion a decoder applies: `Number` in `parseFarmArea`, `parseFloat` in the app's parsers. */
  datatype Reader = NumberOf | ParseFloatOf

  function Read(reader: Reader, x: Option<string>): Option<Token> {
    match reader
    case NumberOf => JsNumber(x)
    case ParseFloatOf => ParseFloat(x)
  }

  /**
   * `const [lng, lat] = coord.split(' ')`, each side read as a number and
   * returned as `[lat, lng]`. A missing element is `undefined`: `parseFloat`
   * turns it into NaN, while `parseFarmArea` maps `Number` over the split
   * pieces first and so leaves it `undefined`. Both are `None` here.
   */
  function DecodePair(reader: Reader, coord: string): Coord {
    var xs := Split(coord, " ");
    Coord(Read(reader, At(xs, 1)), Read(reader, At(xs, 0)))
  }

  /** Every piece decoded, in order. */
  function DecodeAll(reader: Reader, parts: seq<string>): (coords: seq<Coord>)
    ensures |coords| == |parts|
    ensures forall i :: 0 <= i < |parts| ==> coords[i] == DecodePair(reader, parts[i])
  {
    seq(|parts|, i requires 0 <= i < |parts| => DecodePair(reader, parts[i]))
  }

  /** Decoding a list decodes its head and then its tail. */
  lemma DecodeAllCons(reader: Reader, x: string, rest: seq<string>)
    ensures DecodeAll(reader, [x] + rest) == [DecodePair(reader, x)] + DecodeAll(reader, rest)
  {
    var xs := [x] + rest;
    var lhs := DecodeAll(reader, xs);
    var rhs := [DecodePair(reader, x)] + DecodeAll(reader, rest);
    forall i | 0 <= i < |xs| ensures lhs[i] == rhs[i] {
      if i > 0 {
        assert xs[i] == rest[i - 1];
      }
    }
  }

  /** Printing a ring's tail prints the tail of its printed pairs. */
  lemma FormatAllTail(ring: seq<LatLng>)
    requires |ring| > 0
    ensures FormatAll(ring)[1..] == FormatAll(ring[1..])
  {
  }

  lemma DecodeSplitPair(reader: Reader, coord: string, lng: string, lat: string)
    requires Split(coord, " ") == [lng, lat]
    ensures DecodePair(reader, coord) == Coord(Read(reader, Some(lat)), Read(reader, Some(lng)))
  {
  }

  /** A formatted pair decodes to its own vertex under either conversion. */
  lemma DecodeFormatted(reader: Reader, v: LatLng)
    ensures DecodePair(reader, FormatPair(v)) == Exact(v)
  {
    PairSplit(v);
    TokenReadsBack(v.lat);
    TokenReadsBack(v.lng);
  }

  /** Decoding formatted vertices gives them back, one for one and in order. */
  lemma DecodeAllFormatted(reader: Reader, ring: seq<LatLng>)
    ensures DecodeAll(reader, FormatAll(ring)) == ExactAll(ring)
  {
    forall i | 0 <= i < |ring| ensures DecodePair(reader, FormatAll(ring)[i]) == Exact(ring[i]) {
      DecodeFormatted(reader, ring[i]);
    }
  }
}
