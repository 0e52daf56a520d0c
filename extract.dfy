/**
 * The photo scan of internal/extract/gps.go. The filesystem walk is given as
 * the sequence of entries it visits, in visiting order; each entry carries
 * the walk error reported for it, if any, and what the EXIF reader would
 * return for its path.
 */
module Extract {
  import opened Wrappers
  import opened Geo
  import opened Paths

  /** What exif.ExtractEXIF returns for a path: (lat, lon), or an error. */
  datatype ExifResult = LatLong(lat: Float64, lon: Float64) | ExifError(msg: string)

  /** One call of the walk callback: the path, its file kind, the walk error passed in, the EXIF oracle. */
  datatype Entry = Entry(path: string, isDir: bool, walkErr: Option<string>, exif: ExifResult)

  /** What one callback invocation does: stop the walk, do nothing, or append one record. */
  datatype Step = Abort(err: string) | Skip | Append(geo: GeoData)

  /** The outcome of the scan: log.Fatalf with the walk error, or the collected records. */
  datatype ScanResult = Fatal(err: string) | Found(gpsData: seq<GeoData>)

  /** The extensions handed to the EXIF reader (after lower-casing). */
  predicate IsAccepted(ext: string)
  {
    ext == ".jpg" || ext == ".jpeg" || ext == ".png"
  }

  /** The display name of a path: its base with the last extension trimmed. */
  function EntryName(path: string): (name: string)
    ensures name + Ext(Base(path)) == Base(path)
  {
    var base := Base(path);
    TrimSuffix(base, Ext(base))
  }

  /** The callback asks the EXIF reader about this entry. */
  predicate Attempted(e: Entry)
  {
    e.walkErr.None? && IsAccepted(ToLower(Ext(e.path)))
  }

  /** The callback appends a record for this entry. */
  predicate Contributes(e: Entry)
  {
    Attempted(e) && e.exif.LatLong?
  }

  /** The record appended for an entry whose extraction succeeded: [lon, lat]. */
  function GeoOf(e: Entry): (g: GeoData)
    requires e.exif.LatLong?
    ensures g.name + Ext(Base(e.path)) == Base(e.path)
    ensures g.value.FloatList? && |g.value.coords| == 2
    ensures g.value.coords[0] == e.exif.lon && g.value.coords[1] == e.exif.lat
  {
    GeoData(EntryName(e.path), FloatList([e.exif.lon, e.exif.lat]))
  }

  /** What one invocation of the walk callback does with an entry. */
  function Visit(e: Entry): (step: Step)
    ensures step.Abort? <==> e.walkErr.Some?
    ensures step.Abort? ==> Some(step.err) == e.walkErr
    ensures step.Append? <==> Contributes(e)
    ensures step.Append? ==> step.geo == GeoOf(e)
  {
    if e.walkErr.Some? then Abort(e.walkErr.value)
    else if Contributes(e) then Append(GeoOf(e))
    else Skip
  }

  /** The callback outcomes of a walk, in visiting order. */
  function Steps(es: seq<Entry>): (ss: seq<Step>)
    ensures |ss| == |es|
    ensures forall i :: 0 <= i < |es| ==> ss[i] == Visit(es[i])
  {
    seq(|es|, i requires 0 <= i < |es| => Visit(es[i]))
  }

  /** `acc` followed by the outcome of the rest of the walk. */
  function Then(acc: seq<GeoData>, r: ScanResult): ScanResult
  {
    match r
    case Fatal(err) => Fatal(err)
    case Found(rest) => Found(acc + rest)
  }

  /** filepath.Walk driving the callback: the first Abort ends the walk with its error. */
  function Collect(ss: seq<Step>): (r: ScanResult)
    ensures r.Fatal? ==> Abort(r.err) in ss
    ensures r.Found? ==> |r.gpsData| <= |ss|
  {
    if ss == [] then
      Found([])
    else
      match ss[0]
      case Abort(err) => Fatal(err)
      case Skip => Collect(ss[1..])
      case Append(g) => Then([g], Collect(ss[1..]))
  }

  /** ExtractGPSData's result for a walk that visits `es`. */
  function Scan(es: seq<Entry>): (r: ScanResult)
    ensures r.Fatal? ==> exists i :: 0 <= i < |es| && es[i].walkErr == Some(r.err)
    ensures r.Found? ==> |r.gpsData| <= |es|
  {
    Collect(Steps(es))
  }

  /** Unfolding the walk by one callback outcome. */
  lemma CollectCons(ss: seq<Step>)
    requires ss != []
    ensures Collect(ss) == match ss[0]
                           case Abort(err) => Fatal(err)
                           case Skip => Collect(ss[1..])
                           case Append(g) => Then([g], Collect(ss[1..]))
  {
  }

  lemma ThenThen(a: seq<GeoData>, b: seq<GeoData>, r: ScanResult)
    ensures Then(a, Then(b, r)) == Then(a + b, r)
  {
    if r.Found? {
      assert a + (b + r.gpsData) == (a + b) + r.gpsData;
    }
  }

  /**
   * The walk callback: hand a walk error back (which stops the walk), or
   * derive name and extension and, for an accepted extension whose
   * extraction succeeds, append `{name, [lon, lat]}` to the captured list.
   */
  method WalkCallback(e: Entry, gpsData: seq<GeoData>) returns (err: Option<string>, next: seq<GeoData>)
    ensures err == e.walkErr
    ensures err.Some? ==> next == gpsData
    ensures err.None? ==> next == gpsData + (if Contributes(e) then [GeoOf(e)] else [])
  {
    next := gpsData;
    if e.walkErr.Some? {
      return e.walkErr, next;
    }
    var base := Base(e.path);
    var name := TrimSuffix(base, Ext(base));
    var ext := ToLower(Ext(e.path));
    if ext == ".jpg" || ext == ".jpeg" || ext == ".png" {
      assert Attempted(e);
      match e.exif
      case LatLong(lat, lon) =>
        next := next + [GeoData(name, FloatList([lon, lat]))];
      case ExifError(_) =>
    } else {
      assert !Attempted(e);
    }
    err := None;
  }

  /** ExtractGPSData: run the callback on every visited entry; a walk error is fatal. */
  method ExtractGPSData(entries: seq<Entry>) returns (r: ScanResult)
    ensures r == Scan(entries)
  {
    ghost var ss := Steps(entries);
    var gpsData: seq<GeoData> := [];
    var i := 0;
    assert ss[i..] == ss;
    ThenThen([], [], Scan(entries));
    while i < |entries|
      invariant 0 <= i <= |entries|
      invariant Scan(entries) == Then(gpsData, Collect(ss[i..]))
    {
      ghost var step := ss[i];
      CollectCons(ss[i..]);
      assert ss[i..][0] == step && ss[i..][1..] == ss[i + 1..];
      var err, next := WalkCallback(entries[i], gpsData);
      if err.Some? {
        return Fatal(err.value);
      }
      if step.Append? {
        ThenThen(gpsData, [step.geo], Collect(ss[i + 1..]));
      } else {
        assert next == gpsData;
      }
      gpsData := next;
      i := i + 1;
    }
    assert ss[i..] == [];
    r := Found(gpsData);
  }

  // ---------------------------------------------------------------------
  // Properties of the walk over callback outcomes

  /** The records a sequence of callback outcomes appends, ignoring aborts. */
  function Appended(ss: seq<Step>): (gs: seq<GeoData>)
    ensures |gs| <= |ss|
  {
    if ss == [] then []
    else (if ss[0].Append? then [ss[0].geo] else []) + Appended(ss[1..])
  }

  predicate HasAbort(ss: seq<Step>)
  {
    exists i :: 0 <= i < |ss| && ss[i].Abort?
  }

  lemma {:induction false} CollectOutcome(ss: seq<Step>)
    ensures Collect(ss).Fatal? <==> HasAbort(ss)
    ensures !HasAbort(ss) ==> Collect(ss) == Found(Appended(ss))
  {
    if ss != [] {
      CollectOutcome(ss[1..]);
      if HasAbort(ss[1..]) {
        var i :| 0 <= i < |ss[1..]| && ss[1..][i].Abort?;
        assert ss[i + 1] == ss[1..][i];
      }
      if HasAbort(ss) && !ss[0].Abort? {
        var i :| 0 <= i < |ss| && ss[i].Abort?;
        assert ss[1..][i - 1] == ss[i];
      }
    }
  }

  lemma {:induction false} CollectFirstAbort(ss: seq<Step>, i: nat)
    requires i < |ss| && ss[i].Abort?
    requires forall j :: 0 <= j < i ==> !ss[j].Abort?
    ensures Collect(ss) == Fatal(ss[i].err)
  {
    if i > 0 {
      CollectFirstAbort(ss[1..], i - 1);
    }
  }

  lemma {:induction false} AppendedConcat(a: seq<Step>, b: seq<Step>)
    ensures Appended(a + b) == Appended(a) + Appended(b)
  {
    if a == [] {
      assert a + b == b;
    } else {
      assert (a + b)[0] == a[0];
      assert (a + b)[1..] == a[1..] + b;
      AppendedConcat(a[1..], b);
    }
  }

  lemma {:induction false} AppendedMember(ss: seq<Step>, g: GeoData)
    ensures g in Appended(ss) <==> exists i :: 0 <= i < |ss| && ss[i] == Append(g)
  {
    if ss != [] {
      AppendedMember(ss[1..], g);
      if g in Appended(ss[1..]) {
        var i :| 0 <= i < |ss[1..]| && ss[1..][i] == Append(g);
        assert ss[i + 1] == ss[1..][i];
      }
      if exists i :: 0 <= i < |ss| && ss[i] == Append(g) {
        var i :| 0 <= i < |ss| && ss[i] == Append(g);
        if i > 0 {
          assert ss[1..][i - 1] == ss[i];
        }
      }
    }
  }

  lemma CollectSnoc(ss: seq<Step>, s: Step, r: seq<GeoData>)
    requires Collect(ss) == Found(r)
    ensures Collect(ss + [s]) == match s
                                 case Abort(err) => Fatal(err)
                                 case Skip => Found(r)
                                 case Append(g) => Found(r + [g])
  {
    CollectOutcome(ss);
    if s.Abort? {
      CollectFirstAbort(ss + [s], |ss|);
    } else {
      assert !HasAbort(ss + [s]) by {
        forall i | 0 <= i < |ss + [s]| ensures !(ss + [s])[i].Abort? {
          if i < |ss| {
            assert (ss + [s])[i] == ss[i];
          }
        }
      }
      CollectOutcome(ss + [s]);
      AppendedConcat(ss, [s]);
      assert Appended([s]) == (if s.Append? then [s.geo] else []) + Appended([]);
    }
  }

  // ---------------------------------------------------------------------
  // Properties of the scan

  predicate HasWalkError(es: seq<Entry>)
  {
    exists i :: 0 <= i < |es| && es[i].walkErr.Some?
  }

  /** The scan is fatal, and returns no list at all, iff some visited entry carries a walk error. */
  lemma ScanFatalIffWalkError(es: seq<Entry>)
    ensures Scan(es).Fatal? <==> HasWalkError(es)
  {
    var ss := Steps(es);
    CollectOutcome(ss);
    if HasAbort(ss) {
      var i :| 0 <= i < |ss| && ss[i].Abort?;
      assert es[i].walkErr.Some?;
    }
    if HasWalkError(es) {
      var i :| 0 <= i < |es| && es[i].walkErr.Some?;
      assert ss[i].Abort?;
    }
  }

  /**
   * A scan that is not fatal returns no more records than entries, and a
   * record is in it iff some entry's extraction produced exactly it.
   */
  lemma ScanFoundRecords(es: seq<Entry>, r: seq<GeoData>)
    requires Scan(es) == Found(r)
    ensures |r| <= |es|
    ensures forall g :: g in r <==> exists i :: 0 <= i < |es| && Contributes(es[i]) && GeoOf(es[i]) == g
  {
    var ss := Steps(es);
    CollectOutcome(ss);
    forall g ensures g in r <==> exists i :: 0 <= i < |es| && Contributes(es[i]) && GeoOf(es[i]) == g {
      AppendedMember(ss, g);
      if exists i :: 0 <= i < |ss| && ss[i] == Append(g) {
        var i :| 0 <= i < |ss| && ss[i] == Append(g);
        assert Contributes(es[i]) && GeoOf(es[i]) == g;
      }
      if exists i :: 0 <= i < |es| && Contributes(es[i]) && GeoOf(es[i]) == g {
        var i :| 0 <= i < |es| && Contributes(es[i]) && GeoOf(es[i]) == g;
        assert ss[i] == Append(g);
      }
    }
  }

  /** The scan stops at the first entry carrying a walk error and reports exactly that error. */
  lemma ScanStopsAtFirstWalkError(es: seq<Entry>, i: nat)
    requires i < |es| && es[i].walkErr.Some?
    requires forall j :: 0 <= j < i ==> es[j].walkErr.None?
    ensures Scan(es) == Fatal(es[i].walkErr.value)
  {
    CollectFirstAbort(Steps(es), i);
  }

  /**
   * Visiting one more entry after a clean walk either stops with its walk
   * error, leaves the list as it was, or appends one record at the end;
   * earlier records never change.
   */
  lemma ScanAppendEntry(es: seq<Entry>, e: Entry, r: seq<GeoData>)
    requires Scan(es) == Found(r)
    ensures Scan(es + [e]) == match Visit(e)
                              case Abort(err) => Fatal(err)
                              case Skip => Found(r)
                              case Append(g) => Found(r + [g])
  {
    StepsSnoc(es, e);
    CollectSnoc(Steps(es), Visit(e), r);
  }

  lemma StepsSnoc(es: seq<Entry>, e: Entry)
    ensures Steps(es + [e]) == Steps(es) + [Visit(e)]
  {
    var l, r := Steps(es + [e]), Steps(es) + [Visit(e)];
    forall i | 0 <= i < |l| ensures l[i] == r[i] {
      if i < |es| {
        assert (es + [e])[i] == es[i];
      }
    }
  }

  /**
   * Two walks that agree on every path and walk error, and on the EXIF result
   * of every entry the scan hands to the reader, scan alike: the file kind is
   * never looked at, and the reader is consulted only for accepted extensions.
   */
  predicate SameForScan(a: Entry, b: Entry)
  {
    a.path == b.path && a.walkErr == b.walkErr && (Attempted(a) ==> a.exif == b.exif)
  }

  lemma ScanIgnoresKindAndUnattemptedExif(es1: seq<Entry>, es2: seq<Entry>)
    requires |es1| == |es2|
    requires forall i :: 0 <= i < |es1| ==> SameForScan(es1[i], es2[i])
    ensures Scan(es1) == Scan(es2)
  {
    forall i | 0 <= i < |es1| ensures Visit(es1[i]) == Visit(es2[i]) {
      assert SameForScan(es1[i], es2[i]);
    }
    assert Steps(es1) == Steps(es2);
  }

  // ---------------------------------------------------------------------
  // Properties of the extension filter and the display name

  /** `s` and `t` are equal up to ASCII letter case. */
  predicate EqualIgnoringCase(s: string, t: string)
  {
    |s| == |t| && forall k :: 0 <= k < |s| ==> LowerChar(s[k]) == LowerChar(t[k])
  }

  /** The filter accepts an extension iff it spells .jpg, .jpeg or .png in any letter case. */
  lemma AcceptedIffCaseVariant(ext: string)
    ensures IsAccepted(ToLower(ext)) <==>
      EqualIgnoringCase(ext, ".jpg") || EqualIgnoringCase(ext, ".jpeg") || EqualIgnoringCase(ext, ".png")
  {
    forall t: string | t == ".jpg" || t == ".jpeg" || t == ".png"
      ensures ToLower(ext) == t <==> EqualIgnoringCase(ext, t)
    {
      assert ToLower(t) == t;
      if EqualIgnoringCase(ext, t) {
        assert forall k :: 0 <= k < |t| ==> ToLower(ext)[k] == t[k];
      }
    }
  }

  /** Paths whose extensions differ only in letter case are treated alike. */
  lemma AttemptIsCaseInsensitive(e1: Entry, e2: Entry)
    requires e1.walkErr == e2.walkErr
    requires EqualIgnoringCase(Ext(e1.path), Ext(e2.path))
    ensures Attempted(e1) <==> Attempted(e2)
  {
    assert ToLower(Ext(e1.path)) == ToLower(Ext(e2.path));
  }

  /** Any path ending in `.JPG` is handed to the reader (`IMG_1.JPG`, say). */
  lemma UpperCaseJpgAccepted(e: Entry, stem: string)
    requires e.path == stem + ".JPG" && e.walkErr.None?
    ensures Attempted(e)
  {
    ExtOfDotSuffix(stem, ".JPG");
    assert ToLower(".JPG") == ".jpg" by {
      assert forall k :: 0 <= k < 4 ==> ToLower(".JPG")[k] == ".jpg"[k];
    }
  }

  /** Any path ending in `.Jpeg` is handed to the reader (`a.Jpeg`, say). */
  lemma MixedCaseJpegAccepted(e: Entry, stem: string)
    requires e.path == stem + ".Jpeg" && e.walkErr.None?
    ensures Attempted(e)
  {
    ExtOfDotSuffix(stem, ".Jpeg");
    assert ToLower(".Jpeg") == ".jpeg" by {
      assert forall k :: 0 <= k < 5 ==> ToLower(".Jpeg")[k] == ".jpeg"[k];
    }
  }

  /** Only the last extension counts: `b.jpg.txt` is not handed to the reader. */
  lemma InnerJpgNotAccepted(e: Entry, stem: string)
    requires e.path == stem + ".jpg" + ".txt"
    ensures !Attempted(e)
  {
    ExtOfDotSuffix(stem + ".jpg", ".txt");
    assert ToLower(".txt")[1] == 't';
  }

  /** A final element without a dot (`README`, say) is not handed to the reader. */
  lemma NoExtensionNotAccepted(e: Entry, dir: string, name: string)
    requires e.path == dir + name && IsDirPrefix(dir) && '.' !in name && Separator !in name
    ensures !Attempted(e)
  {
    ExtOfDotlessName(dir, name);
  }

  /** A string that filepath.Ext returns whole: a dot, then neither dots nor separators. */
  predicate IsExtension(ext: string)
  {
    ext != [] && ext[0] == '.' && forall k :: 1 <= k < |ext| ==> ext[k] != '.' && ext[k] != Separator
  }

  /**
   * The name of a file `stem + ext` in any directory is `stem`: only the last
   * extension is removed, so `a.tar.jpg` gives `a.tar` and `.jpg` gives "".
   */
  lemma EntryNameOfFile(dir: string, stem: string, ext: string)
    requires IsDirPrefix(dir) && Separator !in stem && IsExtension(ext)
    ensures EntryName(dir + stem + ext) == stem
  {
    assert Separator !in stem + ext by {
      forall k | 0 <= k < |stem + ext| ensures (stem + ext)[k] != Separator {
        if k >= |stem| {
          assert (stem + ext)[k] == ext[k - |stem|];
        }
      }
    }
    assert dir + stem + ext == dir + (stem + ext);
    BaseOfName(dir, stem + ext);
    ExtOfDotSuffix(stem, ext);
    assert IsSuffix(ext, stem + ext);
    assert (stem + ext)[..|stem + ext| - |ext|] == stem;
  }
}
