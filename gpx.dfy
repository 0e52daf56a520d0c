/**
 * The GPX renderer of internal/output/gpx.go: one waypoint slot per record,
 * filled in place, then the XML header followed by the marshalled document.
 * Creating the output file and marshalling are external: the creation
 * error (if any) and the marshaller are parameters.
 */
module Gpx {
  import opened Wrappers
  import opened Geo
  import opened Paths
  import opened Extract

  /** The fields of go-gpx's WptType that the renderer sets. */
  datatype Wpt = Wpt(lat: Float64, lon: Float64, name: string)

  /** go-gpx's GPX document: version, creator and the waypoint slots (None is a nil pointer). */
  datatype GpxDoc = GpxDoc(version: string, creator: string, wpt: seq<Option<Wpt>>)

  /** What xml.MarshalIndent returns: the encoded bytes, or an error (and no bytes). */
  datatype MarshalResult = Marshalled(bytes: seq<bv8>) | MarshalError(msg: string)

  /** The end of GenerateGPX: log.Fatalf on a creation error, or the bytes handed to file.Write. */
  datatype GpxOutcome = CreateFailed(err: string) | Written(content: seq<bv8>)

  const GpxVersion: string := "1.1"
  const GpxCreator: string := "photos2map"

  /** The text of encoding/xml's Header constant. */
  const XmlHeaderText: string := "<?xml version=\"1.0\" encoding=\"UTF-8\"?>\n"

  /** The bytes of an ASCII string (UTF-8 encoding leaves ASCII unchanged). */
  function AsciiBytes(s: string): (b: seq<bv8>)
    ensures |b| == |s|
  {
    seq(|s|, i requires 0 <= i < |s| => ((s[i] as int) % 256) as bv8)
  }

  const XmlHeader: seq<bv8> := AsciiBytes(XmlHeaderText)

  /** A record's value passes the renderer's check: a []float64 of exactly two elements. */
  predicate WellFormed(v: GeoValue)
  {
    v.FloatList? && |v.coords| == 2
  }

  /** The slot a record yields: [lon, lat] swapped back to lat/lon, or nil for a malformed value. */
  function Slot(d: GeoData): (w: Option<Wpt>)
    ensures w.Some? <==> WellFormed(d.value)
    ensures w.Some? ==> w.value.lat == d.value.coords[1] && w.value.lon == d.value.coords[0]
                        && w.value.name == d.name
  {
    match d.value
    case FloatList(coords) =>
      if |coords| != 2 then None else Some(Wpt(coords[1], coords[0], d.name))
    case OtherValue => None
  }

  /** The document GenerateGPX marshals for `gpsData`. */
  function Document(gpsData: seq<GeoData>): (g: GpxDoc)
    ensures g.version == "1.1" && g.creator == "photos2map"
    ensures |g.wpt| == |gpsData|
    ensures forall i :: 0 <= i < |gpsData| ==> (g.wpt[i] == None <==> !WellFormed(gpsData[i].value))
  {
    GpxDoc(GpxVersion, GpxCreator, seq(|gpsData|, i requires 0 <= i < |gpsData| => Slot(gpsData[i])))
  }

  /** The bytes GenerateGPX writes once the file exists: the header, then whatever marshalling produced. */
  function Content(m: MarshalResult): (b: seq<bv8>)
    ensures |b| >= |XmlHeader| && b[..|XmlHeader|] == XmlHeader
    ensures m.Marshalled? ==> b[|XmlHeader|..] == m.bytes
    ensures m.MarshalError? ==> b == XmlHeader
  {
    match m
    case Marshalled(bytes) => XmlHeader + bytes
    case MarshalError(_) => XmlHeader
  }

  /**
   * The waypoint array: preallocated with one nil slot per record, then slot
   * i filled from record i; malformed records leave their slot nil and
   * nothing shifts.
   */
  method FillWaypoints(gpsData: seq<GeoData>) returns (wpt: array<Option<Wpt>>)
    ensures fresh(wpt)
    ensures wpt.Length == |gpsData|
    ensures forall i :: 0 <= i < |gpsData| && !WellFormed(gpsData[i].value) ==> wpt[i] == None
    ensures forall i :: 0 <= i < |gpsData| && WellFormed(gpsData[i].value) ==>
              wpt[i] == Some(Wpt(gpsData[i].value.coords[1], gpsData[i].value.coords[0], gpsData[i].name))
  {
    wpt := new Option<Wpt>[|gpsData|](_ => None);
    for i := 0 to |gpsData|
      invariant forall k :: 0 <= k < i ==> wpt[k] == Slot(gpsData[k])
      invariant forall k :: i <= k < |gpsData| ==> wpt[k] == None
    {
      var data := gpsData[i];
      if !data.value.FloatList? || |data.value.coords| != 2 {
        continue;
      }
      var coords := data.value.coords;
      var lat, lon := coords[1], coords[0];
      wpt[i] := Some(Wpt(lat, lon, data.name));
    }
  }

  /**
   * GenerateGPX: build the document, create the file (fatal on failure,
   * before anything is written), marshal, and write header ++ marshalled bytes.
   */
  method GenerateGPX(gpsData: seq<GeoData>, createErr: Option<string>, marshal: GpxDoc -> MarshalResult)
    returns (out: GpxOutcome)
    ensures createErr.Some? ==> out == CreateFailed(createErr.value)
    ensures createErr.None? ==> out == Written(Content(marshal(Document(gpsData))))
  {
    var wpt := FillWaypoints(gpsData);
    var g := GpxDoc(GpxVersion, GpxCreator, wpt[..]);
    assert g == Document(gpsData);
    if createErr.Some? {
      return CreateFailed(createErr.value);
    }
    var gpxData: seq<bv8> := match marshal(g)
      case Marshalled(bytes) => bytes
      case MarshalError(_) => [];
    out := Written(XmlHeader + gpxData);
  }

  // ---------------------------------------------------------------------
  // The coordinate swap round-trips with the scanner

  /** A record the scanner built from (lat, lon) becomes a waypoint with that lat and lon. */
  lemma ScannedRecordRoundTrip(e: Entry)
    requires Contributes(e)
    ensures Slot(GeoOf(e)) == Some(Wpt(e.exif.lat, e.exif.lon, EntryName(e.path)))
  {
  }

  /** A filled slot holding the latitude, longitude and name of an entry whose extraction succeeded. */
  predicate WaypointOfSomeEntry(w: Option<Wpt>, es: seq<Entry>)
  {
    w.Some? &&
    exists j :: 0 <= j < |es| && Contributes(es[j]) &&
      w.value == Wpt(es[j].exif.lat, es[j].exif.lon, EntryName(es[j].path))
  }

  /**
   * Rendering a scan's result as GPX: every slot is filled, and each
   * waypoint carries the latitude, longitude and name of some entry whose
   * extraction succeeded.
   */
  lemma ScanThenGpx(es: seq<Entry>, r: seq<GeoData>)
    requires Scan(es) == Found(r)
    ensures |Document(r).wpt| == |r|
    ensures forall i :: 0 <= i < |r| ==> WaypointOfSomeEntry(Document(r).wpt[i], es)
  {
    ScanFoundRecords(es, r);
    forall i | 0 <= i < |r| ensures WaypointOfSomeEntry(Document(r).wpt[i], es) {
      assert r[i] in r;
      var j :| 0 <= j < |es| && Contributes(es[j]) && GeoOf(es[j]) == r[i];
      ScannedRecordRoundTrip(es[j]);
    }
  }

  /** The fixture of the renderer's test: two records in, two waypoints out, coordinates swapped back. */
  lemma FixtureDocument(lon1: Float64, lat1: Float64, lon2: Float64, lat2: Float64)
    ensures Document([GeoData("Image1", FloatList([lon1, lat1])), GeoData("Image2", FloatList([lon2, lat2]))]).wpt
            == [Some(Wpt(lat1, lon1, "Image1")), Some(Wpt(lat2, lon2, "Image2"))]
  {
  }
}
