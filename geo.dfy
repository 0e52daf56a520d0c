/**
 * The hand-off record between the scanner and the renderers: go-echarts'
 * opts.GeoData, a name plus an untyped Value that the scanner fills with a
 * two-element []float64.
 */
module Geo {
  /** A float64 carried as its 64-bit pattern: coordinates are only ever copied. */
  type Float64 = bv64

  /** The dynamic type of GeoData.Value: a []float64, or anything else. */
  datatype GeoValue = FloatList(coords: seq<Float64>) | OtherValue

  datatype GeoData = GeoData(name: string, value: GeoValue)
}
