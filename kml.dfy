/**
 * The markup generator `coords_to_kml` (main.py:65-78): an OGC KML 2.2
 * document whose `Document` holds one `Placemark`/`Point`/`coordinates`
 * element per pair, with the coordinate text `lon,lat,0`. Beside it, a
 * reader for the generated layout, used to prove that a generated
 * document reads back as its coordinate texts, in order.
 */
module Kml {

  import opened Wrappers
  import opened Numbers
  import opened Coordinates
  import Text

  const KmlNamespace := "http://www.opengis.net/kml/2.2"
  const KmlHeader := "<?xml version=\"1.0\" encoding=\"UTF-8\"?>\n<kml xmlns=\"" + KmlNamespace + "\">\n  <Document>\n"
  const KmlFooter := "\n  </Document>\n</kml>\n"
  const PlacemarkOpen := "    <Placemark>\n      <Point><coordinates>"
  const PlacemarkClose := "</coordinates></Point>\n    </Placemark>"
  /** What follows the latitude's comma: the fixed zero altitude and the closing tags. */
  const AltitudeAndClose := "0" + PlacemarkClose

  /** The KML `coordinates` text: longitude, latitude and the fixed altitude 0. */
  function CoordinatesText(lon: string, lat: string): string {
    lon + "," + lat + ",0"
  }

  function Placemark(lon: string, lat: string): string {
    PlacemarkOpen + CoordinatesText(lon, lat) + PlacemarkClose
  }

  /** The two numeric texts found in one `coordinates` element. */
  datatype PointText = PointText(lon: string, lat: string)

  function PointTextOf(c: Coord): PointText {
    PointText(FormatNum(c.lon), FormatNum(c.lat))
  }

  /** The rendered numbers of every pair; none of them holds a comma. */
  function PointTexts(coords: seq<Coord>): (points: seq<PointText>)
    ensures |points| == |coords|
    ensures forall i :: 0 <= i < |coords| ==> points[i] == PointTextOf(coords[i])
    ensures CommaFree(points)
  {
    seq(|coords|, i requires 0 <= i < |coords| => PointTextOf(coords[i]))
  }

  predicate CommaFree(points: seq<PointText>) {
    forall i :: 0 <= i < |points| ==> ',' !in points[i].lon && ',' !in points[i].lat
  }

  /** The generator expression: one placemark block per pair, in order. */
  function PlacemarkTexts(points: seq<PointText>): (blocks: seq<string>)
    ensures |blocks| == |points|
    ensures forall i :: 0 <= i < |points| ==> blocks[i] == Placemark(points[i].lon, points[i].lat)
  {
    seq(|points|, i requires 0 <= i < |points| => Placemark(points[i].lon, points[i].lat))
  }

  /**
   * `coords_to_kml`: total, also on no pairs. A generated document reads
   * back as exactly one `coordinates` element per pair, in input order,
   * the i-th holding the i-th longitude and latitude texts.
   */
  function CoordsToKml(coords: seq<Coord>): (doc: string)
    ensures ReadKml(doc) == Some(PointTexts(coords))
  {
    var points := PointTexts(coords);
    ReadDocumentOf(points);
    KmlHeader + Text.JoinLines(PlacemarkTexts(points)) + KmlFooter
  }

  /** Reads one placemark block from the front of `s`; returns its texts and what follows it. */
  function ReadPlacemark(s: string): (r: Option<(PointText, string)>)
    ensures r.Some? ==> |r.value.1| < |s|
  {
    if !Text.StartsWith(s, PlacemarkOpen) then None
    else match Text.SplitAt(s[|PlacemarkOpen|..], ',')
      case None => None
      case Some((lon, afterLon)) =>
        match Text.SplitAt(afterLon, ',')
        case None => None
        case Some((lat, afterLat)) =>
          if Text.StartsWith(afterLat, AltitudeAndClose)
          then Some((PointText(lon, lat), afterLat[|AltitudeAndClose|..]))
          else None
  }

  /** Reads one or more placemark blocks separated by single newlines, up to the end of `s`. */
  function ReadPlacemarks(s: string): Option<seq<PointText>>
    decreases |s|
  {
    match ReadPlacemark(s)
    case None => None
    case Some((point, rest)) =>
      if rest == [] then Some([point])
      else if rest[0] != '\n' then None
      else match ReadPlacemarks(rest[1..])
        case None => None
        case Some(points) => Some([point] + points)
  }

  /** Reads a whole document of the generated layout back into its coordinate texts. */
  function ReadKml(doc: string): Option<seq<PointText>> {
    if |doc| < |KmlHeader| + |KmlFooter| || !Text.StartsWith(doc, KmlHeader) || !Text.EndsWith(doc, KmlFooter)
    then None
    else
      var body := doc[|KmlHeader|..|doc| - |KmlFooter|];
      if body == [] then Some([]) else ReadPlacemarks(body)
  }

  lemma ReadPlacemarkOfParts(lon: string, lat: string, rest: string)
    requires ',' !in lon && ',' !in lat
    ensures ReadPlacemark(Placemark(lon, lat) + rest) == Some((PointText(lon, lat), rest))
  {
    var s := Placemark(lon, lat) + rest;
    var afterLat := AltitudeAndClose + rest;
    var afterLon := lat + [','] + afterLat;
    assert s == PlacemarkOpen + (lon + [','] + afterLon);
    assert s[|PlacemarkOpen|..] == lon + [','] + afterLon;
    Text.SplitAtFirst(lon, ',', afterLon);
    Text.SplitAtFirst(lat, ',', afterLat);
    assert afterLat[..|AltitudeAndClose|] == AltitudeAndClose;
    assert afterLat[|AltitudeAndClose|..] == rest;
  }

  lemma ReadPlacemarksStep(lon: string, lat: string, restText: string)
    requires ',' !in lon && ',' !in lat
    ensures ReadPlacemarks(Placemark(lon, lat) + "\n" + restText) ==
      match ReadPlacemarks(restText)
      case None => None
      case Some(points) => Some([PointText(lon, lat)] + points)
  {
    var rest := "\n" + restText;
    ReadPlacemarkOfParts(lon, lat, rest);
    assert Placemark(lon, lat) + "\n" + restText == Placemark(lon, lat) + rest;
    assert rest[1..] == restText;
  }

  lemma {:induction false} ReadPlacemarksOfJoin(points: seq<PointText>)
    requires |points| >= 1 && CommaFree(points)
    ensures ReadPlacemarks(Text.JoinLines(PlacemarkTexts(points))) == Some(points)
  {
    var blocks := PlacemarkTexts(points);
    var p := points[0];
    if |points| == 1 {
      ReadPlacemarkOfParts(p.lon, p.lat, "");
      assert Placemark(p.lon, p.lat) + "" == Placemark(p.lon, p.lat);
      assert points == [p];
    } else {
      var tail := points[1..];
      assert blocks[1..] == PlacemarkTexts(tail);
      assert CommaFree(tail);
      var restText := Text.JoinLines(PlacemarkTexts(tail));
      assert Text.JoinLines(blocks) == Placemark(p.lon, p.lat) + "\n" + restText;
      ReadPlacemarksOfJoin(tail);
      ReadPlacemarksStep(p.lon, p.lat, restText);
      assert points == [p] + tail;
    }
  }

  /** The reader strips the fixed header and footer and reads the body between them. */
  lemma ReadKmlOfBody(body: string)
    ensures ReadKml(KmlHeader + body + KmlFooter) ==
      if body == [] then Some([]) else ReadPlacemarks(body)
  {
    var doc := KmlHeader + body + KmlFooter;
    assert doc[..|KmlHeader|] == KmlHeader;
    assert doc[|doc| - |KmlFooter|..] == KmlFooter;
    assert doc[|KmlHeader|..|doc| - |KmlFooter|] == body;
  }

  /** A document laid out from comma-free texts reads back as those texts, in order. */
  lemma ReadDocumentOf(points: seq<PointText>)
    requires CommaFree(points)
    ensures ReadKml(KmlHeader + Text.JoinLines(PlacemarkTexts(points)) + KmlFooter) == Some(points)
  {
    var body := Text.JoinLines(PlacemarkTexts(points));
    ReadKmlOfBody(body);
    if points != [] {
      ReadPlacemarksOfJoin(points);
      assert |Placemark(points[0].lon, points[0].lat)| > 0;
    }
  }

  /** On no pairs the document is the header and an empty `Document`, with no placemark. */
  lemma KmlOfNoCoords()
    ensures CoordsToKml([]) == KmlHeader + KmlFooter
    ensures ReadKml(CoordsToKml([])) == Some([])
  {
  }
}
