/** src/core.py `_update_media_metadata_pyexiftool` and the row filter of
    `_update_memories_metadata`: the tags each media file is given and the
    time its access and modification times are set to. ExifTool, `os.utime`
    and the existence test are abstract; the stage yields, per row, what it
    would apply. */
module Metadata {
  import opened Wrappers
  import opened Text
  import opened Paths
  import opened Timestamps
  import opened Utils
  import opened Manifest

  /** A tag's value: a string, a signed coordinate (the float ExifTool gets),
      a hemisphere letter, or the combined "lat hemi lon hemi" string, kept
      as its four parts (`abs(lat)` and `abs(lon)` as their magnitudes). */
  datatype TagValue =
    | Text(text: string)
    | Degrees(degrees: Decimal)
    | Ref(ref: char)
    | Combined(latMagnitude: Decimal, latRef: char, lonMagnitude: Decimal, lonRef: char)

  /** The keys of `metadata_tags`; `Name()` is the key ExifTool is given. */
  datatype Tag =
    | XmpDateTimeOriginal | XmpCreateDate | DateTimeOriginal | CreateDate | ModifyDate
    | XmpGpsLatitude | XmpGpsLongitude | GpsLatitude | GpsLongitude
    | GpsLatitudeRef | GpsLongitudeRef | GpsCoordinates | Location
  {
    /** One of the five date tags. */
    predicate IsDate() {
      XmpDateTimeOriginal? || XmpCreateDate? || DateTimeOriginal? || CreateDate? || ModifyDate?
    }

    function Name(): string {
      match this
      case XmpDateTimeOriginal => "XMP:DateTimeOriginal"
      case XmpCreateDate => "XMP:CreateDate"
      case DateTimeOriginal => "DateTimeOriginal"
      case CreateDate => "CreateDate"
      case ModifyDate => "ModifyDate"
      case XmpGpsLatitude => "XMP:GPSLatitude"
      case XmpGpsLongitude => "XMP:GPSLongitude"
      case GpsLatitude => "GPSLatitude"
      case GpsLongitude => "GPSLongitude"
      case GpsLatitudeRef => "GPSLatitudeRef"
      case GpsLongitudeRef => "GPSLongitudeRef"
      case GpsCoordinates => "GPSCoordinates"
      case Location => "Location"
    }
  }

  /** `abs(x)` on a captured number: the same digits without the sign. */
  function Magnitude(d: Decimal): (r: Decimal)
    requires d.Valid()
    ensures r.Valid() && !r.negative
    ensures r.Value() == if d.Value() >= 0.0 then d.Value() else -d.Value()
  {
    d.(negative := false)
  }

  /** `'N' if lat >= 0 else 'S'`. */
  function LatRef(lat: Decimal): char
    requires lat.Valid()
  {
    if lat.Value() >= 0.0 then 'N' else 'S'
  }

  /** `'E' if lon >= 0 else 'W'`. */
  function LonRef(lon: Decimal): char
    requires lon.Valid()
  {
    if lon.Value() >= 0.0 then 'E' else 'W'
  }

  /** The `metadata_tags` dictionary for an Exif time and a coordinate pair:
      every tag present, the date tags all holding the time. */
  function MetadataTags(exifTime: string, lat: Decimal, lon: Decimal): (tags: map<Tag, TagValue>)
    requires lat.Valid() && lon.Valid()
    ensures forall t: Tag :: t in tags
    ensures forall t: Tag :: t.IsDate() ==> tags[t] == Text(exifTime)
    ensures tags[XmpGpsLatitude] == tags[GpsLatitude] == Degrees(lat)
    ensures tags[XmpGpsLongitude] == tags[GpsLongitude] == Degrees(lon)
    ensures tags[GpsLatitudeRef] == Ref('N') <==> lat.Value() >= 0.0
    ensures tags[GpsLatitudeRef] == Ref('S') <==> lat.Value() < 0.0
    ensures tags[GpsLongitudeRef] == Ref('E') <==> lon.Value() >= 0.0
    ensures tags[GpsLongitudeRef] == Ref('W') <==> lon.Value() < 0.0
    ensures tags[GpsCoordinates] == tags[Location]
    ensures tags[GpsCoordinates].Combined?
      && tags[GpsCoordinates].latRef == tags[GpsLatitudeRef].ref
      && tags[GpsCoordinates].lonRef == tags[GpsLongitudeRef].ref
      && tags[GpsCoordinates].latMagnitude == Magnitude(lat)
      && tags[GpsCoordinates].lonMagnitude == Magnitude(lon)
  {
    var combined := Combined(Magnitude(lat), LatRef(lat), Magnitude(lon), LonRef(lon));
    var tags := map[
      XmpDateTimeOriginal := Text(exifTime),
      XmpCreateDate := Text(exifTime),
      DateTimeOriginal := Text(exifTime),
      CreateDate := Text(exifTime),
      ModifyDate := Text(exifTime),
      XmpGpsLatitude := Degrees(lat),
      XmpGpsLongitude := Degrees(lon),
      GpsLatitude := Degrees(lat),
      GpsLongitude := Degrees(lon),
      GpsLatitudeRef := Ref(LatRef(lat)),
      GpsLongitudeRef := Ref(LonRef(lon)),
      GpsCoordinates := combined,
      Location := combined
    ];
    assert forall t: Tag :: t in tags by {
      forall t: Tag
        ensures t in tags
      {
        TagCases(t);
      }
    }
    tags
  }

  lemma TagCases(t: Tag)
    ensures t.IsDate() || t in {XmpGpsLatitude, XmpGpsLongitude, GpsLatitude, GpsLongitude,
                                GpsLatitudeRef, GpsLongitudeRef, GpsCoordinates, Location}
  {
  }

  /** The hemisphere letters read off the captured text: south (west) exactly
      when the number has a minus sign and a non-zero digit, so "-0.0" is
      north (east), as `-0.0 >= 0` holds. */
  lemma HemispheresBySign(lat: Decimal, lon: Decimal)
    requires lat.Valid() && lon.Valid()
    ensures LatRef(lat) == 'S' <==> lat.negative && !(AllZeros(lat.whole) && AllZeros(lat.frac))
    ensures LonRef(lon) == 'W' <==> lon.negative && !(AllZeros(lon.whole) && AllZeros(lon.frac))
  {
    NonNegativeIffUnsignedOrZero(lat);
    NonNegativeIffUnsignedOrZero(lon);
  }

  // ---------------------------------------------------------------------------
  // One file
  // ---------------------------------------------------------------------------

  /** What the function does for one file: return early because the file is
      missing, return early because the timestamp does not parse, or hand
      these tags to ExifTool and then set the file's times to `mtime`
      (seconds since the epoch). ExifTool's and `utime`'s own failures are
      caught and logged, so they do not change this. */
  datatype MetadataUpdate =
    | FileMissing
    | TimestampInvalid
    | Apply(tags: map<Tag, TagValue>, mtime: int)

  /** `_update_media_metadata_pyexiftool(file_path, timestamp_str, lat, lon)`;
      `onDisk` stands for `os.path.exists`. */
  function UpdateMediaMetadata(filePath: string, timestampStr: string, lat: Decimal, lon: Decimal,
                               onDisk: string -> bool): (r: MetadataUpdate)
    requires lat.Valid() && lon.Valid()
    ensures r.FileMissing? <==> !onDisk(filePath)
    ensures r.TimestampInvalid? <==> onDisk(filePath) && ParseUtc(timestampStr).None?
    ensures r.Apply? ==>
      var s := timestampStr;
      && (forall t: Tag :: t in r.tags)
      && (forall t: Tag :: t.IsDate() ==>
            r.tags[t] == Text(s[..4] + ":" + s[5..7] + ":" + s[8..10] + " " + s[11..19]))
      && r.tags[GpsLatitude] == Degrees(lat) && r.tags[GpsLongitude] == Degrees(lon)
      && (r.tags[GpsLatitudeRef] == Ref('N') <==> lat.Value() >= 0.0)
      && (r.tags[GpsLongitudeRef] == Ref('E') <==> lon.Value() >= 0.0)
      && r.tags[GpsCoordinates] == r.tags[Location]
    ensures r.Apply? ==>
      && ParseUtc(timestampStr).Some?
      && r.tags == MetadataTags(ExifFormat(ParseUtc(timestampStr).value), lat, lon)
      && r.mtime == EpochSeconds(ParseUtc(timestampStr).value)
  {
    if !onDisk(filePath) then FileMissing
    else
      match ParseUtc(timestampStr)
      case None => TimestampInvalid
      case Some(dt) =>
        ExifFormatOfParsed(timestampStr);
        Apply(MetadataTags(ExifFormat(dt), lat, lon), EpochSeconds(dt))
  }

  /** The file times agree with the manifest's `timestamp` column: for a row
      built from a record, the seconds given to `utime` are that column's
      milliseconds divided by 1000. */
  lemma {:induction false} FileTimeMatchesTimestampColumn(rec: TableRecord, dt: DateTime, link: Option<string>,
                                                          flag: Option<bool>, path: string, onDisk: string -> bool)
    requires ParseUtc(rec.timestampStr) == Some(dt)
    requires onDisk(path)
    ensures var row := MakeRow(rec, dt, link, flag);
      var u := UpdateMediaMetadata(path, row.timestampStr, row.lat, row.lon, onDisk);
      u.Apply? && u.mtime * 1000 == row.timestamp
  {
  }

  // ---------------------------------------------------------------------------
  // The stage
  // ---------------------------------------------------------------------------

  /** The rows `_update_memories_metadata` hands on, in frame order: every
      row with `is_zip == False`, stopping with a crash at the first such row
      without a path (`os.path.basename(None)` raises, outside any `try`).
      The result is the rows updated and whether the stage crashed. */
  function StageRows(rows: seq<Row>): (r: (seq<Row>, bool))
    ensures forall k :: 0 <= k < |r.0| ==> r.0[k].filePath.Some?
    decreases |rows|
  {
    if rows == [] then ([], false)
    else
      var n := |rows| - 1;
      var prev := StageRows(rows[..n]);
      var row := rows[n];
      if prev.1 || row.isZip then prev
      else if row.filePath.None? then (prev.0, true)
      else (prev.0 + [row], false)
  }

  /** What updating these rows does, one row after another. */
  function UpdatesOf(targets: seq<Row>, onDisk: string -> bool): (r: seq<MetadataUpdate>)
    requires forall k :: 0 <= k < |targets| ==> targets[k].filePath.Some?
    ensures |r| == |targets|
  {
    seq(|targets|, k requires 0 <= k < |targets| =>
      UpdateMediaMetadata(targets[k].filePath.value, targets[k].timestampStr, targets[k].lat, targets[k].lon, onDisk))
  }

  /** The stage: the updates made, in frame order, and whether it crashed. */
  function MetadataStage(rows: seq<Row>, onDisk: string -> bool): (seq<MetadataUpdate>, bool) {
    var stage := StageRows(rows);
    (UpdatesOf(stage.0, onDisk), stage.1)
  }

  /** One more row: skipped when the stage has crashed or the row is an
      archive, a crash when it has no path, and otherwise one more update. */
  lemma StageRowsStep(rows: seq<Row>, i: nat)
    requires i < |rows|
    ensures var prev := StageRows(rows[..i]);
      var row := rows[i];
      StageRows(rows[..i + 1]) ==
        if prev.1 || row.isZip then prev
        else if row.filePath.None? then (prev.0, true)
        else (prev.0 + [row], false)
  {
    assert rows[..i + 1][..i] == rows[..i];
  }

  lemma UpdatesOfSnoc(targets: seq<Row>, row: Row, onDisk: string -> bool)
    requires forall k :: 0 <= k < |targets| ==> targets[k].filePath.Some?
    requires row.filePath.Some?
    ensures UpdatesOf(targets + [row], onDisk) ==
      UpdatesOf(targets, onDisk) + [UpdateMediaMetadata(row.filePath.value, row.timestampStr, row.lat, row.lon, onDisk)]
  {
    var all := targets + [row];
    assert forall k :: 0 <= k < |targets| ==> all[k] == targets[k];
  }

  /** The rows the stage updates: the non-archive rows, all of which must have a path. */
  predicate Updatable(rows: seq<Row>) {
    forall k :: 0 <= k < |rows| && !rows[k].isZip ==> rows[k].filePath.Some?
  }

  /** `non_zip_df`: the rows with `is_zip == False`, in frame order. */
  function NonZipRows(rows: seq<Row>): (r: seq<Row>)
    ensures |r| <= |rows|
    ensures forall k :: 0 <= k < |r| ==> !r[k].isZip
    decreases |rows|
  {
    if rows == [] then []
    else
      var n := |rows| - 1;
      NonZipRows(rows[..n]) + (if rows[n].isZip then [] else [rows[n]])
  }

  /** `non_zip_df` is a filter: it distributes over concatenation ... */
  lemma {:induction false} NonZipRowsAppend(a: seq<Row>, b: seq<Row>)
    ensures NonZipRows(a + b) == NonZipRows(a) + NonZipRows(b)
    decreases |b|
  {
    if b == [] {
      assert a + b == a;
    } else {
      var n := |b| - 1;
      assert (a + b)[..|a| + n] == a + b[..n];
      assert (a + b)[|a| + n] == b[n];
      NonZipRowsAppend(a, b[..n]);
    }
  }

  /** ... and keeps a single row exactly when it is not an archive. */
  lemma NonZipRowsSingle(row: Row)
    ensures NonZipRows([row]) == if row.isZip then [] else [row]
  {
    assert [row][..0] == [];
  }

  /** The stage crashes exactly when a non-archive row has no path; when it
      does not, it updates exactly `non_zip_df`, in order, so `total_updates`
      updates are made; when it does, the rows it updated are the leading
      part of `non_zip_df`. */
  lemma {:induction false} MetadataStageCrash(rows: seq<Row>, onDisk: string -> bool)
    ensures MetadataStage(rows, onDisk).1 <==> !Updatable(rows)
    ensures !MetadataStage(rows, onDisk).1 ==> StageRows(rows).0 == NonZipRows(rows)
    ensures |MetadataStage(rows, onDisk).0| == |StageRows(rows).0| <= |NonZipRows(rows)|
    ensures StageRows(rows).0 <= NonZipRows(rows)
  {
    StageRowsCrash(rows);
  }

  lemma {:induction false} StageRowsCrash(rows: seq<Row>)
    ensures StageRows(rows).1 <==> !Updatable(rows)
    ensures !StageRows(rows).1 ==> StageRows(rows).0 == NonZipRows(rows)
    ensures StageRows(rows).0 <= NonZipRows(rows)
    decreases |rows|
  {
    if rows != [] {
      var n := |rows| - 1;
      var init := rows[..n];
      StageRowsCrash(init);
      if !Updatable(init) {
        var k :| 0 <= k < |init| && !init[k].isZip && init[k].filePath.None?;
        assert rows[k] == init[k];
      }
      if Updatable(init) && (rows[n].isZip || rows[n].filePath.Some?) {
        forall k | 0 <= k < |rows| && !rows[k].isZip
          ensures rows[k].filePath.Some?
        {
          if k < n {
            assert rows[k] == init[k];
          }
        }
      }
    }
  }

  /** Once crashed, later rows change nothing. */
  lemma {:induction false} StageRowsCrashSticks(rows: seq<Row>, i: nat)
    requires i <= |rows| && StageRows(rows[..i]).1
    ensures StageRows(rows) == StageRows(rows[..i])
    decreases |rows| - i
  {
    if i < |rows| {
      StageRowsStep(rows, i);
      StageRowsCrashSticks(rows, i + 1);
    } else {
      assert rows[..i] == rows;
    }
  }
}
