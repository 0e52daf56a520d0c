# photos2map — a Dafny model of the scan, the GPX renderer and the run

photos2map walks a directory of photographs, reads the GPS position out of
each image's EXIF block, and writes the positions either as a GPX waypoint
file or as an HTML map. This project models, in Dafny, the three pieces of
its own logic:

* **The scan** (`internal/extract/gps.go`, module `Extract` in
  `extract.dfy`). The filesystem walk is given as the sequence of entries it
  visits. Each `Entry` holds its path, its file kind, the walk error passed to
  the callback (if any) and what the EXIF reader would return for the path.
  `WalkCallback` is one callback invocation, written as the Go closure is.
  It derives the base name, the display name and the lower-cased extension.
  For `.jpg`, `.jpeg` or `.png` it asks the reader and appends
  `{name, [lon, lat]}` when the reader succeeds. `Visit` states the same
  decision as a function, and `Steps` lists it for every visited entry.
  `Collect` is the walk driving the callback: the first walk error ends the
  scan as fatal (`CollectCons` and `ThenThen` are proof helpers that unfold
  it one step). `ExtractGPSData` is the loop that
  runs the callback on every entry, and it is proved equal to `Scan`. The Go
  path helpers (`filepath.Base`, `filepath.Ext`, `strings.TrimSuffix`,
  `strings.ToLower`) are in module `Paths` (`paths.dfy`), for `/`-separated
  paths.
* **The GPX renderer** (`internal/output/gpx.go`, module `Gpx` in
  `gpx.dfy`). `FillWaypoints` preallocates one nil slot per record and fills
  slot `i` from record `i` with the coordinates swapped back to lat/lon. A
  malformed record leaves its slot nil. `GenerateGPX` then creates the file
  (a creation error is fatal before anything is written), marshals the
  document, and writes the XML header followed by the marshalled bytes. The
  file creation error and the XML marshaller are parameters.
* **The run** (`cmd/photos2map/root.go`, module `Root` in `root.dfy`). It
  covers the precedence of flags over configuration for the directory and the
  output type, the debug rule of the pre-run hook, and the three-way end of a
  run: the "no GPS data" message, the GPX renderer, or the map renderer.

Coordinates are `float64` values that the code only copies. They are carried
as their 64-bit pattern (`Geo.Float64 = bv64`) and never interpreted.

Behaviour of the code worth knowing, which the model follows:

* The scan has no file-kind check. A directory whose name ends in `.jpg` is
  also handed to the EXIF reader (`ScanIgnoresKindAndUnattemptedExif`).
* The accepted extensions are exactly `.jpg`, `.jpeg` and `.png`. The doc
  comment of `ExtractGPSData` (gps.go:15-16) also lists RAW, DNG and HEIF,
  but those branches are commented out (gps.go:34-44).
* When marshalling fails, the file holds exactly the XML header:
  `xml.MarshalIndent` returns no bytes with its error, and the header is
  written before the marshalled bytes are.
* The extension is taken from the whole path (gps.go:27) and the name from
  its base (gps.go:25-26). For a path without a trailing `/` these agree
  (`Paths.ExtOfBase`). For a walk root given with a trailing `/` they differ:
  `pics.jpg/` has no extension and is not handed to the reader
  (`Paths.TrailingSeparatorHidesExt`).
* In `run`, the guard "the configured value differs from the default" is
  redundant. When the flag is unset the result is always the configured value
  (`Root.ResolveDir`, `Root.ResolveOutput`).

## Model

| member | source | states |
|---|---|---|
| `Paths.Ext` | internal/extract/gps.go:26-27 | the extension is the suffix of the path from the last dot of its final element; it is empty exactly when that element has no dot |
| `Paths.Base` | internal/extract/gps.go:25 | the base is never empty: "." for the empty path, "/" for a path of separators only, otherwise the final element once trailing separators are dropped, which holds no separator |
| `Paths.BaseIgnoresTrailingSeparator` | internal/extract/gps.go:25 | a trailing separator does not change the base of a non-empty path, so `a/b/` has the base of `a/b` |
| `Paths.ToLower` | internal/extract/gps.go:27 | lower-casing keeps the length, leaves no upper-case ASCII letter, and changes a character only from an upper-case letter to its lower-case form |
| `Paths.TrimSuffix` | internal/extract/gps.go:26 | the suffix is removed exactly when the string ends with it, so the result followed by the suffix is the string |
| `Paths.ExtOfDotSuffix` | internal/extract/gps.go:26-27 | a dot followed by characters that are neither dots nor separators is exactly the extension of any path ending in it |
| `Paths.ExtOfDotlessName` | internal/extract/gps.go:27 | a final element without a dot gives the empty extension |
| `Paths.LastElementOfName` | internal/extract/gps.go:25 | the final element of a directory part followed by a separator-free name is that name |
| `Paths.BaseOfName` | internal/extract/gps.go:25 | the base of a directory part followed by a non-empty, separator-free name is that name |
| `Paths.ExtOfLastElement` | internal/extract/gps.go:27 | the extension of a path equals the extension of its final element |
| `Paths.ExtOfBase` | internal/extract/gps.go:25-27 | for a path not ending in a separator, the extension used for filtering equals the extension trimmed from the base |
| `Paths.TrailingSeparatorHidesExt` | internal/extract/gps.go:25-27 | for the root `pics.jpg/` the filter sees no extension, although its base has `.jpg` |
| `Extract.EntryName` | internal/extract/gps.go:25-26 | the display name followed by the base's extension is the base: only the last extension is removed |
| `Extract.WalkCallback` | internal/extract/gps.go:20-33 | a walk error is handed back and nothing is appended; otherwise exactly one record, the name with `[lon, lat]`, is appended iff the lower-cased extension is accepted and the reader succeeds |
| `Extract.GeoOf` | internal/extract/gps.go:32 | the record of an entry whose extraction succeeded is its display name with the two-element value `[lon, lat]` |
| `Extract.Visit` | internal/extract/gps.go:20-33 | the callback stops the walk with the walk error exactly when one is passed, appends exactly when the entry is accepted and its extraction succeeds, and then appends that entry's record |
| `Extract.Collect` | internal/extract/gps.go:20-23 | the walk ends fatally only with the error of some aborting callback, and otherwise returns no more records than callbacks ran |
| `Extract.Scan` | internal/extract/gps.go:17-54 | the scan is fatal only with the walk error of some visited entry, and otherwise returns at most one record per entry |
| `Extract.Appended` | internal/extract/gps.go:32 | the records a sequence of callback outcomes appends number at most the outcomes |
| `Extract.ExtractGPSData` | internal/extract/gps.go:17-55 | running the callback on every visited entry and stopping on the first walk error returns exactly the scan's result |
| `Extract.CollectOutcome` | internal/extract/gps.go:20-23 | the walk is fatal iff some callback aborts; otherwise it returns every appended record in order |
| `Extract.CollectFirstAbort` | internal/extract/gps.go:21-23 | the walk reports the error of the first aborting callback |
| `Extract.AppendedConcat` | internal/extract/gps.go:32 | the records of two walks one after the other are the first's records followed by the second's |
| `Extract.AppendedMember` | internal/extract/gps.go:32 | a record is collected iff some callback appended exactly it |
| `Extract.CollectSnoc` | internal/extract/gps.go:32 | one more callback after a clean walk aborts, leaves the list unchanged, or adds one record at the end |
| `Extract.ScanFatalIffWalkError` | internal/extract/gps.go:20-52 | the scan is fatal, returning no list, iff some visited entry has a walk error |
| `Extract.ScanFoundRecords` | internal/extract/gps.go:20-54 | a scan that is not fatal returns at most one record per entry, and a record is in the result iff some entry's extraction produced exactly it |
| `Extract.ScanStopsAtFirstWalkError` | internal/extract/gps.go:21-23 | a scan reports exactly the first entry's walk error, whatever follows |
| `Extract.ScanAppendEntry` | internal/extract/gps.go:18-33 | after a clean prefix, the next entry aborts, adds nothing (extraction failed or extension rejected) or appends one record at the end; earlier records never change |
| `Extract.StepsSnoc` | internal/extract/gps.go:20 | visiting one more entry adds its callback outcome at the end |
| `Extract.ScanIgnoresKindAndUnattemptedExif` | internal/extract/gps.go:20-30 | walks that agree on paths, walk errors and the reader's result for accepted entries scan alike: file kind is never consulted, nor the reader for other extensions |
| `Extract.AcceptedIffCaseVariant` | internal/extract/gps.go:27-29 | an extension is accepted iff it equals `.jpg`, `.jpeg` or `.png` up to letter case |
| `Extract.AttemptIsCaseInsensitive` | internal/extract/gps.go:27 | two entries whose extensions differ only in letter case are both handed to the reader or both not |
| `Extract.UpperCaseJpgAccepted` | internal/extract/gps.go:27-29 | every path ending in `.JPG`, such as `IMG_1.JPG`, is handed to the reader |
| `Extract.MixedCaseJpegAccepted` | internal/extract/gps.go:27-29 | every path ending in `.Jpeg`, such as `a.Jpeg`, is handed to the reader |
| `Extract.InnerJpgNotAccepted` | internal/extract/gps.go:27-29 | no path ending in `.jpg.txt` is handed to the reader: only the last extension counts |
| `Extract.NoExtensionNotAccepted` | internal/extract/gps.go:27-29 | a path whose final element has no dot, such as `photos/README`, is not handed to the reader |
| `Extract.EntryNameOfFile` | internal/extract/gps.go:25-26 | the name of `stem + ext` in any directory is `stem`: `a.tar.jpg` gives `a.tar` and `.jpg` gives the empty name |
| `Gpx.Slot` | internal/output/gpx.go:22-35 | a slot is filled iff the value is a two-element float list; it then has lat = coords[1], lon = coords[0] and the record's name |
| `Gpx.Document` | internal/output/gpx.go:16-19 | the document has version "1.1", creator "photos2map", and one slot per record, nil exactly for malformed records |
| `Gpx.Content` | internal/output/gpx.go:46-53 | the bytes written are the XML header followed by exactly the marshalled bytes, and exactly the header when marshalling fails |
| `Gpx.FillWaypoints` | internal/output/gpx.go:19-36 | the array is new and has as many slots as records; slot i is nil for a malformed record i and otherwise holds record i's coordinates swapped back and its name; nothing shifts |
| `Gpx.GenerateGPX` | internal/output/gpx.go:15-62 | a creation error is fatal and nothing is written; otherwise the XML header followed by the marshalled document is written |
| `Gpx.ScannedRecordRoundTrip` | internal/output/gpx.go:30-35 | a record the scanner built from the reader's (lat, lon) yields a waypoint with that latitude and longitude |
| `Gpx.ScanThenGpx` | internal/output/gpx.go:19-35 | rendering a scan result fills every slot, each with the latitude, longitude and name of an entry whose extraction succeeded |
| `Gpx.FixtureDocument` | internal/output/gpx_test.go:12-15 | the test's two records become two waypoints with their coordinates swapped back |
| `Root.FlagValue` | cmd/photos2map/root.go:218-219 | reading a flag gives the user's value when it was set, and the flag's default otherwise |
| `Root.ResolveDir` | cmd/photos2map/root.go:218-224 | the directory is the flag's value when the user set it, otherwise the configured directory (whose own default is ".") |
| `Root.ResolveOutput` | cmd/photos2map/root.go:219-227 | the output type is the flag's value when the user set it, otherwise the configured output (whose own default is "html") |
| `Root.PreRunLevel` | cmd/photos2map/root.go:111-119 | the hook sets the debug level iff the debug flag or the debug setting is on, and leaves the level alone otherwise |
| `Root.DebugLoggingIffRequested` | cmd/photos2map/root.go:116-118 | from the default level, debug messages are emitted iff the flag or the setting asks for them |
| `Root.Run` | cmd/photos2map/root.go:213-240 | a walk error is fatal; an empty result only prints the message; otherwise exactly one renderer runs, GPX iff the output type is exactly "gpx" |
| `Root.UpperCaseGpxSelectsMap` | cmd/photos2map/root.go:232 | an output flag of "GPX" does not select the GPX renderer |

## Left out

- internal/exif/standard.go (EXIF decoding, rational-to-degree conversion, hemisphere sign) is not part of this model: its result for each path is a field of the walk entry.
- The filesystem walk itself (`filepath.Walk` order, `os.FileInfo`, opening files) is an input: the sequence of visited entries, and for `Run` a function from directory to that sequence.
- `GenerateMap` (internal/output/map.go) is not part of this model: a run that picks it ends in `MapRendered` with the records it would draw.
- XML encoding is a function parameter; only the waypoint array, the fixed header fields and the header concatenation are modelled.
- The write of the bytes: a write error is only logged, so the model records the bytes handed to `Write`, not whether the write succeeded. The fixed output path `out/output.gpx`, closing the file and all log messages are not modelled.
- pkg/config/config.go (reading the environment and `.env`) is not part of this model: the configuration is an input, and its defaults "." and "html" are constants.
- Command-line parsing by cobra (including the no-positional-arguments rule) and `Execute`'s exit status: flags are inputs, `Some(value)` when the user set them.
- Paths and names are sequences of Unicode characters; Go's strings are bytes, and invalid UTF-8 is not modelled.
- Paths.ToLower: folds only the ASCII letters A-Z, where Go lower-cases every Unicode letter. No non-ASCII letter lower-cases to a character of ".jpg", ".jpeg" or ".png", so the acceptance decision is the same.
- Floating point: coordinates are only copied, so they are opaque 64-bit patterns.
