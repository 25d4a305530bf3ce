/** src/core.py `_construct_dataframe`: one row per memory with its epoch
    timestamp, normalised media type, file name and coordinates, plus the
    download call found in the row's anchor. The HTML is already reduced to
    the table's text cells and to the `onclick` text of each table row. */
module Manifest {
  import opened Wrappers
  import opened Text
  import opened Paths
  import opened Timestamps
  import opened Utils

  /** The three text cells `read_html` yields for one data row. */
  datatype TableRecord = TableRecord(timestampStr: string, mediaType: string, coordinates: string)

  /** One row of the memories frame. `filePath` and `isZip` are the columns
      the download stage adds; a constructed row has them unset. */
  datatype Row = Row(
    timestampStr: string, timestamp: int, mediaType: string, coordinates: string,
    lat: Coordinate, lon: Coordinate, fileName: string, isExtracted: bool,
    downloadLink: Option<string>, isGetRequest: Option<bool>,
    filePath: Option<string>, isZip: bool)

  // ---------------------------------------------------------------------------
  // Media type and file name
  // ---------------------------------------------------------------------------

  /** `s.replace(from, to)` for single characters. */
  function ReplaceChar(s: string, from: char, to: char): (r: string)
    ensures |r| == |s|
    ensures forall k :: 0 <= k < |s| ==> r[k] == if s[k] == from then to else s[k]
  {
    seq(|s|, k requires 0 <= k < |s| => if s[k] == from then to else s[k])
  }

  /** `media_type.replace(' ', '_').lower()`. */
  function NormalizeMediaType(m: string): (r: string)
    ensures |r| == |m|
    ensures ' ' !in r
    ensures forall k :: 0 <= k < |m| ==> r[k] == if m[k] == ' ' then '_' else LowerChar(m[k])
  {
    Lower(ReplaceChar(m, ' ', '_'))
  }

  /** Normalising twice changes nothing more. */
  lemma NormalizeMediaTypeIdempotent(m: string)
    ensures NormalizeMediaType(NormalizeMediaType(m)) == NormalizeMediaType(m)
  {
    var once := NormalizeMediaType(m);
    forall k | 0 <= k < |once|
      ensures NormalizeMediaType(once)[k] == once[k]
    {
      assert once[k] != ' ';
    }
  }

  /** `f"{timestamp}_{media_type}"`. */
  function FileName(timestamp: int, mediaType: string): string {
    IntToString(timestamp) + "_" + mediaType
  }

  /** A file name starts with the timestamp's sign or first digit, so the
      resume index never drops it as a system file, and it carries no
      separator unless the media type does. */
  lemma FileNameIsPlain(timestamp: int, mediaType: string)
    ensures !IsSystemFile(FileName(timestamp, mediaType))
    ensures '/' !in mediaType ==> PlainName(FileName(timestamp, mediaType))
  {
    var r := FileName(timestamp, mediaType);
    var p := IntToString(timestamp);
    assert r[0] == p[0];
    assert !StartsWith(r, ".");
    assert !StartsWith(r, "__MACOSX") by {
      if |r| >= 8 {
        assert r[0] != "__MACOSX"[0];
      }
    }
    if '/' !in mediaType {
      forall k | 0 <= k < |r|
        ensures r[k] != '/'
      {
        if k < |p| {
          assert r[k] == p[k];
        } else if k > |p| {
          assert r[k] == mediaType[k - |p| - 1];
        }
      }
    }
  }

  /** The word "extracted" occurs in a file name exactly when it occurs in
      its media type: the timestamp part holds only digits, a sign and `_`. */
  lemma FileNameMentionsExtracted(timestamp: int, mediaType: string)
    ensures Contains(FileName(timestamp, mediaType), "extracted") <==> Contains(mediaType, "extracted")
  {
    var head := IntToString(timestamp) + "_";
    assert FileName(timestamp, mediaType) == head + mediaType;
    assert forall k :: 0 <= k < |head| ==> head[k] != 'e' by {
      forall k | 0 <= k < |head|
        ensures head[k] != 'e'
      {
        if k < |head| - 1 {
          assert head[k] == IntToString(timestamp)[k];
        }
      }
    }
    ContainsAfterHead(head, mediaType, "extracted");
  }

  // ---------------------------------------------------------------------------
  // The onclick recogniser `downloadMemories\('(.*?)', this, (true|false)\);`
  // ---------------------------------------------------------------------------

  const CALL_OPEN := "downloadMemories('"
  const CALL_TRUE := "', this, true);"
  const CALL_FALSE := "', this, false);"

  /** The closing text `', this, (true|false)\);` at `e`, and which word it has
      (the alternation tries "true" first; both cannot match at once). */
  function CloseAt(s: string, e: nat): Option<bool> {
    if OccursAt(s, CALL_TRUE, e) then Some(true)
    else if OccursAt(s, CALL_FALSE, e) then Some(false)
    else None
  }

  /** The lazy group `(.*?)` started at `j`, with the ends before `e` already
      rejected: the first end from `e` on, before any newline, that the closing
      text follows. */
  function LazyCall(s: string, j: nat, e: nat): (r: Option<(string, bool)>)
    requires j <= e <= |s|
    ensures r.Some? ==>
      && e <= j + |r.value.0| <= |s|
      && r.value.0 == s[j..j + |r.value.0|]
      && CloseAt(s, j + |r.value.0|) == Some(r.value.1)
    decreases |s| - e
  {
    match CloseAt(s, e)
    case Some(flag) => Some((s[j..e], flag))
    case None => if e < |s| && s[e] != '\n' then LazyCall(s, j, e + 1) else None
  }

  /** The group the lazy quantifier takes is the shortest: no end before it
      is followed by the closing text, and it holds no newline. */
  lemma {:induction false} LazyCallShortest(s: string, j: nat, e: nat)
    requires j <= e <= |s|
    ensures var r := LazyCall(s, j, e);
      r.Some? ==> forall k :: e <= k < j + |r.value.0| ==> s[k] != '\n'
    ensures var r := LazyCall(s, j, e);
      r.Some? ==> forall k :: e <= k < j + |r.value.0| ==> CloseAt(s, k).None?
    decreases |s| - e
  {
    var r := LazyCall(s, j, e);
    if CloseAt(s, e).None? && e < |s| && s[e] != '\n' {
      LazyCallShortest(s, j, e + 1);
      assert r == LazyCall(s, j, e + 1);
      if r.Some? {
        forall k | e <= k < j + |r.value.0|
          ensures s[k] != '\n' && CloseAt(s, k).None?
        {
          if k > e {
            assert e + 1 <= k;
          }
        }
      }
    }
  }

  /** When the lazy group finds no end, no end before a newline is followed
      by the closing text. */
  lemma {:induction false} LazyCallNone(s: string, j: nat, e: nat, end: nat)
    requires j <= e <= end <= |s|
    requires LazyCall(s, j, e).None?
    requires forall k :: e <= k < end ==> s[k] != '\n'
    ensures CloseAt(s, end).None?
    decreases end - e
  {
    if e < end {
      LazyCallNone(s, j, e + 1, end);
    }
  }

  /** The whole pattern matched at `i`: the URL group and the flag. */
  function CallAt(s: string, i: nat): Option<(string, bool)> {
    if !OccursAt(s, CALL_OPEN, i) then None
    else LazyCall(s, i + |CALL_OPEN|, i + |CALL_OPEN|)
  }

  function CallMatcher(s: string): (m: nat -> Option<(string, bool)>)
    ensures forall i: nat :: m(i) == CallAt(s, i)
  {
    (i: nat) => CallAt(s, i)
  }

  /** `re.search(pattern, onclick)`: group 1 and whether group 2 is "true",
      from the leftmost match. */
  function FindDownloadCall(onclick: string): (r: Option<(string, bool)>)
    ensures r.None? <==> forall i: nat :: i <= |onclick| ==> CallAt(onclick, i).None?
    ensures r.Some? ==> '\n' !in r.value.0
    ensures r.Some? ==> exists i: nat :: (i <= |onclick| && CallAt(onclick, i) == r
      && forall k: nat :: k < i ==> CallAt(onclick, k).None?)
  {
    match FirstMatch(CallMatcher(onclick), 0, |onclick|)
    case None => None
    case Some((i, call)) =>
      assert CallAt(onclick, i) == Some(call);
      LazyCallShortest(onclick, i + |CALL_OPEN|, i + |CALL_OPEN|);
      assert forall k: nat :: k > |onclick| ==> CallAt(onclick, k).None?;
      Some(call)
  }

  /** The attribute text the export writes for a link and its flag. */
  function CallText(url: string, flag: bool): string {
    CALL_OPEN + url + (if flag then CALL_TRUE else CALL_FALSE)
  }

  /** The recogniser reads back any URL free of quotes and newlines, and the flag. */
  lemma {:induction false} FindDownloadCallOfCallText(url: string, flag: bool)
    requires '\'' !in url && '\n' !in url
    ensures FindDownloadCall(CallText(url, flag)) == Some((url, flag))
  {
    var s := CallText(url, flag);
    var close := if flag then CALL_TRUE else CALL_FALSE;
    var j := |CALL_OPEN|;
    assert s[0..j] == CALL_OPEN;
    assert s[j..j + |url|] == url;
    assert s[j + |url|..j + |url| + |close|] == close;
    assert s[j + |url| + 9] == close[9];
    assert CloseAt(s, j + |url|) == Some(flag);
    forall k | j <= k < j + |url|
      ensures s[k] != '\'' && s[k] != '\n'
    {
      assert s[k] == url[k - j];
    }
    LazyCallSkips(s, j, j, j + |url|);
    assert CallAt(s, 0) == Some((url, flag));
    FirstMatchIsLeftmost(CallMatcher(s), |s|, 0);
  }

  /** With neither quotes nor newlines before `end`, the lazy group runs to `end`. */
  lemma {:induction false} LazyCallSkips(s: string, j: nat, e: nat, end: nat)
    requires j <= e <= end <= |s|
    requires forall k :: e <= k < end ==> s[k] != '\'' && s[k] != '\n'
    requires CloseAt(s, end).Some?
    ensures LazyCall(s, j, e) == Some((s[j..end], CloseAt(s, end).value))
    decreases end - e
  {
    if e < end {
      assert s[e] != CALL_TRUE[0] && s[e] != CALL_FALSE[0];
      assert CloseAt(s, e).None?;
      LazyCallSkips(s, j, e + 1, end);
    }
  }

  // ---------------------------------------------------------------------------
  // The link and flag columns
  // ---------------------------------------------------------------------------

  /** What the loop appends for one data row, given the `onclick` text of the
      row's first anchor that has one: the link and the flag, or
      `(None, None)` when there is no such anchor or no match. */
  function LinkAndFlag(onclick: Option<string>): (r: (Option<string>, Option<bool>))
    ensures r.0.None? <==> r.1.None?
    ensures r.0.Some? <==> onclick.Some? && FindDownloadCall(onclick.value).Some?
    ensures r.0.Some? ==> (r.0.value, r.1.value) == FindDownloadCall(onclick.value).value
  {
    if onclick.None? then (None, None)
    else match FindDownloadCall(onclick.value)
      case None => (None, None)
      case Some((url, flag)) => (Some(url), Some(flag))
  }

  /** The number of table rows after the header row. */
  function DataRowCount(onclicks: seq<Option<string>>): nat {
    if |onclicks| == 0 then 0 else |onclicks| - 1
  }

  function LinkColumn(onclicks: seq<Option<string>>): seq<Option<string>> {
    seq(DataRowCount(onclicks), k requires 0 <= k < DataRowCount(onclicks) => LinkAndFlag(onclicks[k + 1]).0)
  }

  function FlagColumn(onclicks: seq<Option<string>>): seq<Option<bool>> {
    seq(DataRowCount(onclicks), k requires 0 <= k < DataRowCount(onclicks) => LinkAndFlag(onclicks[k + 1]).1)
  }

  /** The loop over `rows[1:]` filling `extracted_links` and
      `extracted_booleans`, one entry each per data row. */
  method ExtractLinks(onclicks: seq<Option<string>>) returns (links: seq<Option<string>>, flags: seq<Option<bool>>)
    ensures links == LinkColumn(onclicks) && flags == FlagColumn(onclicks)
  {
    links, flags := [], [];
    var dataRows := if |onclicks| == 0 then [] else onclicks[1..];
    ghost var linkColumn, flagColumn := LinkColumn(onclicks), FlagColumn(onclicks);
    for i := 0 to |dataRows|
      invariant links == linkColumn[..i] && flags == flagColumn[..i]
    {
      var onclick := dataRows[i];
      var link: Option<string>, flag: Option<bool> := None, None;
      if onclick.Some? {
        var found := FindDownloadCall(onclick.value);
        if found.Some? {
          link, flag := Some(found.value.0), Some(found.value.1);
        }
      }
      assert onclick == onclicks[i + 1] && (link, flag) == LinkAndFlag(onclick);
      assert linkColumn[i] == link && flagColumn[i] == flag;
      PrefixSnoc(linkColumn, i);
      PrefixSnoc(flagColumn, i);
      links, flags := links + [link], flags + [flag];
    }
    assert linkColumn[..|dataRows|] == linkColumn;
    assert flagColumn[..|dataRows|] == flagColumn;
  }

  // ---------------------------------------------------------------------------
  // The frame
  // ---------------------------------------------------------------------------

  /** Why construction raises: `pd.to_datetime` rejects a timestamp, or the
      link column's length differs from the number of table rows. */
  datatype ConstructError = BadTimestamp(row: nat) | LengthMismatch(rows: nat, links: nat)

  /** The row the column lambdas derive from one record and its link cells. */
  function MakeRow(rec: TableRecord, dt: DateTime, link: Option<string>, flag: Option<bool>): (r: Row)
    requires ValidDateTime(dt)
    ensures r.timestampStr == rec.timestampStr && r.coordinates == rec.coordinates
    ensures r.timestamp == EpochMillis(dt)
    ensures r.mediaType == NormalizeMediaType(rec.mediaType)
    ensures r.fileName == FileName(r.timestamp, r.mediaType)
    ensures (r.lat, r.lon) == ExtractLatitudeLongitude(rec.coordinates)
    ensures !r.isExtracted && r.filePath.None? && !r.isZip
    ensures r.downloadLink == link && r.isGetRequest == flag
  {
    var media := NormalizeMediaType(rec.mediaType);
    var ts := EpochMillis(dt);
    var coords := ExtractLatitudeLongitude(rec.coordinates);
    Row(rec.timestampStr, ts, media, rec.coordinates, coords.0, coords.1,
        FileName(ts, media), false, link, flag, None, false)
  }

  function BadTimestampMatcher(records: seq<TableRecord>): (m: nat -> Option<()>)
    ensures forall k: nat :: m(k).Some? <==> k < |records| && ParseUtc(records[k].timestampStr).None?
  {
    (k: nat) => if k < |records| && ParseUtc(records[k].timestampStr).None? then Some(()) else None
  }

  /** The frame: the timestamp column fails on the first unparseable
      timestamp; otherwise the link columns must have one entry per row. */
  function Tabulate(records: seq<TableRecord>, links: seq<Option<string>>, flags: seq<Option<bool>>)
    : (r: Result<seq<Row>, ConstructError>)
    requires |flags| == |links|
    ensures r.Success? <==>
      (forall k :: 0 <= k < |records| ==> ParseUtc(records[k].timestampStr).Some?) && |links| == |records|
    ensures r.Success? ==> |r.value| == |records| && forall k :: 0 <= k < |records| ==>
      r.value[k] == MakeRow(records[k], ParseUtc(records[k].timestampStr).value, links[k], flags[k])
    ensures r.Failure? && r.error.BadTimestamp? ==>
      && r.error.row < |records| && ParseUtc(records[r.error.row].timestampStr).None?
      && forall k :: 0 <= k < r.error.row ==> ParseUtc(records[k].timestampStr).Some?
    ensures r.Failure? && r.error.LengthMismatch? ==> r.error == LengthMismatch(|records|, |links|)
  {
    match FirstMatch(BadTimestampMatcher(records), 0, |records|)
    case Some((k, _)) => Failure(BadTimestamp(k))
    case None =>
      if |links| != |records| then Failure(LengthMismatch(|records|, |links|))
      else Success(seq(|records|, k requires 0 <= k < |records| =>
        MakeRow(records[k], ParseUtc(records[k].timestampStr).value, links[k], flags[k])))
  }

  /** `_construct_dataframe` over the table's text cells and the per-row
      `onclick` texts (the header row included, as `find_all("tr")` returns it). */
  method ConstructDataframe(records: seq<TableRecord>, onclicks: seq<Option<string>>)
    returns (r: Result<seq<Row>, ConstructError>)
    ensures r == Tabulate(records, LinkColumn(onclicks), FlagColumn(onclicks))
  {
    var links, flags := ExtractLinks(onclicks);
    r := Tabulate(records, links, flags);
  }

  /** Every constructed row is named after its own timestamp and media type,
      is not taken for a system file, and carries its record's link cells. */
  lemma ConstructedRow(records: seq<TableRecord>, links: seq<Option<string>>, flags: seq<Option<bool>>, k: nat)
    requires |flags| == |links|
    requires Tabulate(records, links, flags).Success?
    requires k < |records|
    ensures var row := Tabulate(records, links, flags).value[k];
      && row.fileName == FileName(row.timestamp, row.mediaType)
      && !IsSystemFile(row.fileName)
      && ' ' !in row.mediaType
      && row.downloadLink == links[k] && row.isGetRequest == flags[k]
  {
    var row := Tabulate(records, links, flags).value[k];
    FileNameIsPlain(row.timestamp, row.mediaType);
  }

  /** A data row has a link exactly when it has a flag. */
  lemma LinkColumnsAgree(onclicks: seq<Option<string>>, k: nat)
    requires k < DataRowCount(onclicks)
    ensures LinkColumn(onclicks)[k].None? <==> FlagColumn(onclicks)[k].None?
  {
    var cells := LinkAndFlag(onclicks[k + 1]);
    assert LinkColumn(onclicks)[k] == cells.0 && FlagColumn(onclicks)[k] == cells.1;
  }
}
