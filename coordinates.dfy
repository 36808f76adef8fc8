/**
 * The coordinate extractor `fetch_coordinates` (main.py:41-62): the
 * campaign filter value, the per-record normalisation of the `Coordinates`
 * field over its three accepted shapes, and the loop that collects the
 * usable pairs in store order.
 */
module Coordinates {

  import opened Wrappers
  import opened Numbers
  import Text

  /**
   * A stored field value, as far as the extractor distinguishes it: a
   * native geo-point (an object with `longitude`/`latitude` attributes), a
   * mapping (`None` stands for a `None` value), a list or tuple, any other
   * value, or `None` itself (which is also what a missing key reads as).
   */
  datatype FieldValue =
    | GeoPoint(longitude: Num, latitude: Num)
    | Mapping(entries: map<string, Option<Num>>)
    | Seq(items: seq<Option<Num>>)
    | Other
    | Missing

  /** A streamed document: the result of its `to_dict()`, which may be `None`. */
  datatype Record = Record(data: Option<map<string, FieldValue>>)

  /** A normalised pair, longitude first. */
  datatype Coord = Coord(lon: Num, lat: Num)

  const CoordinatesKey := "Coordinates"

  /** The value the `campanaID` equality filter uses: the id with every surrounding `"` removed. */
  function FilterValue(campanaId: string): (v: string)
    ensures v == [] || (v[0] != '"' && v[|v| - 1] != '"')
    ensures |v| <= |campanaId|
  {
    Text.Strip(campanaId, '"')
  }

  lemma FilterValueIdempotent(campanaId: string)
    ensures FilterValue(FilterValue(campanaId)) == FilterValue(campanaId)
  {
    Text.StripIdempotent(campanaId, '"');
  }

  /**
   * `(d.to_dict() or {}).get("Coordinates")`: a value other than `None`
   * comes from exactly the `Coordinates` key, case included.
   */
  function CoordinatesOf(r: Record): (v: FieldValue)
    ensures v != Missing ==> r.data.Some? && CoordinatesKey in r.data.value && r.data.value[CoordinatesKey] == v
    ensures r.data.Some? && CoordinatesKey in r.data.value ==> v == r.data.value[CoordinatesKey]
  {
    match r.data
    case None => Missing
    case Some(fields) => if CoordinatesKey in fields then fields[CoordinatesKey] else Missing
  }

  /** `dict.get(key)`: an absent key and a `None` value both read as `None`. */
  function Lookup(entries: map<string, Option<Num>>, key: string): Option<Num> {
    if key in entries then entries[key] else None
  }

  /**
   * The shape dispatch of the `try`/`except` block: the `(lon, lat)` it
   * reads, or `None` for the `continue` branch. Geo-point attributes are
   * tried first, then a mapping, then a two-element sequence read as
   * `(lat, lon)`.
   */
  function ReadLonLat(v: FieldValue): (r: Option<(Option<Num>, Option<Num>)>)
    ensures r.None? <==> (v.Other? || v.Missing? || (v.Seq? && |v.items| != 2))
    ensures v.GeoPoint? ==> r == Some((Some(v.longitude), Some(v.latitude)))
    ensures v.Mapping? ==> r == Some((Lookup(v.entries, "longitude"), Lookup(v.entries, "latitude")))
    ensures v.Seq? && |v.items| == 2 ==> r == Some((v.items[1], v.items[0]))
  {
    match v
    case GeoPoint(lon, lat) => Some((Some(lon), Some(lat)))
    case Mapping(entries) => Some((Lookup(entries, "longitude"), Lookup(entries, "latitude")))
    case Seq(items) => if |items| == 2 then Some((items[1], items[0])) else None
    case Other => None
    case Missing => None
  }

  /** One field value normalised: the `(lon, lat)` pair it contributes, if any. */
  function NormalizeValue(v: FieldValue): (c: Option<Coord>)
    ensures v.GeoPoint? ==> c == Some(Coord(v.longitude, v.latitude))
    ensures v.Mapping? ==>
      (c.Some? <==> ("longitude" in v.entries && v.entries["longitude"].Some? &&
                     "latitude" in v.entries && v.entries["latitude"].Some?))
    ensures v.Mapping? && c.Some? ==>
      c.value == Coord(v.entries["longitude"].value, v.entries["latitude"].value)
    ensures v.Seq? ==> (c.Some? <==> (|v.items| == 2 && v.items[0].Some? && v.items[1].Some?))
    ensures v.Seq? && c.Some? ==> c.value == Coord(v.items[1].value, v.items[0].value)
    ensures v.Other? || v.Missing? ==> c.None?
  {
    match ReadLonLat(v)
    case None => None
    case Some((lon, lat)) =>
      if lon.Some? && lat.Some? then Some(Coord(lon.value, lat.value)) else None
  }

  /** One streamed record normalised; a record without a `Coordinates` field is skipped. */
  function NormalizeRecord(r: Record): (c: Option<Coord>)
    ensures c.Some? ==> r.data.Some? && CoordinatesKey in r.data.value
    ensures c.Some? ==> NormalizeValue(r.data.value[CoordinatesKey]) == c
    ensures r.data.Some? && CoordinatesKey in r.data.value ==>
      c == NormalizeValue(r.data.value[CoordinatesKey])
  {
    NormalizeValue(CoordinatesOf(r))
  }

  /** The pairs `fetch_coordinates` collects from `records`, in their order. */
  function NormalizeAll(records: seq<Record>): (coords: seq<Coord>)
    ensures |coords| <= |records|
  {
    if records == [] then []
    else
      var init := NormalizeAll(records[..|records| - 1]);
      match NormalizeRecord(records[|records| - 1])
      case None => init
      case Some(c) => init + [c]
  }

  /** The positions of the records that contribute a pair, in increasing order. */
  function KeptIndices(records: seq<Record>): seq<nat> {
    if records == [] then []
    else
      var init := KeptIndices(records[..|records| - 1]);
      if NormalizeRecord(records[|records| - 1]).Some? then init + [|records| - 1] else init
  }

  /**
   * The collected pairs are exactly the normalisations of the usable
   * records, in store order: the i-th pair comes from the i-th usable
   * record, the positions increase, and every usable record is among them.
   */
  lemma {:induction false} NormalizeAllIsOrderedSelection(records: seq<Record>)
    ensures |KeptIndices(records)| == |NormalizeAll(records)|
    ensures forall k :: 0 <= k < |KeptIndices(records)| ==>
      KeptIndices(records)[k] < |records| &&
      NormalizeRecord(records[KeptIndices(records)[k]]) == Some(NormalizeAll(records)[k])
    ensures forall k, l :: 0 <= k < l < |KeptIndices(records)| ==>
      KeptIndices(records)[k] < KeptIndices(records)[l]
    ensures forall j :: 0 <= j < |records| && NormalizeRecord(records[j]).Some? ==>
      j in KeptIndices(records)
  {
    if records != [] {
      var n := |records| - 1;
      var init := records[..n];
      NormalizeAllIsOrderedSelection(init);
      assert forall j :: 0 <= j < n ==> init[j] == records[j];
    }
  }

  /** No pair is collected exactly when no record has a usable `Coordinates` value. */
  lemma {:induction false} NormalizeAllEmpty(records: seq<Record>)
    ensures NormalizeAll(records) == [] <==>
      forall j :: 0 <= j < |records| ==> NormalizeRecord(records[j]).None?
  {
    if records != [] {
      var n := |records| - 1;
      NormalizeAllEmpty(records[..n]);
      assert forall j :: 0 <= j < n ==> records[..n][j] == records[j];
    }
  }

  /**
   * `fetch_coordinates`: reads the records the store streams for the
   * filter value and appends each usable pair to the accumulator.
   */
  method FetchCoordinates(store: string -> seq<Record>, campanaId: string) returns (coords: seq<Coord>)
    ensures coords == NormalizeAll(store(FilterValue(campanaId)))
  {
    var records := store(FilterValue(campanaId));
    coords := [];
    var i := 0;
    while i < |records|
      invariant 0 <= i <= |records|
      invariant coords == NormalizeAll(records[..i])
    {
      assert records[..i + 1][..i] == records[..i];
      var c := NormalizeRecord(records[i]);
      if c.Some? {
        coords := coords + [c.value];
      }
      i := i + 1;
    }
    assert records[..i] == records;
  }

  /** A two-element list `[10.5, 20.1]` is read as latitude first. */
  lemma ListIsLatitudeFirst()
    ensures NormalizeValue(Seq([Some(Decimal(false, 10, [5])), Some(Decimal(false, 20, [1]))]))
         == Some(Coord(Decimal(false, 20, [1]), Decimal(false, 10, [5])))
  {
  }

  /** A quoted campaign id filters on the unquoted value. */
  lemma QuotedIdFiltersUnquoted()
    ensures FilterValue("\"CAMP1\"") == "CAMP1"
    ensures FilterValue("\"\"CAMP1\"\"") == "CAMP1"
  {
    var once, twice := "\"CAMP1\"", "\"\"CAMP1\"\"";
    assert once[1..6] == "CAMP1";
    Text.StripIsMiddle(once, '"', 1, 6);
    assert twice[2..7] == "CAMP1";
    Text.StripIsMiddle(twice, '"', 2, 7);
  }
}
