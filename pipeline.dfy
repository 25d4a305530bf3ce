/** src/core.py: the frame the stages share, the stages that change it in
    place, and `download_memories`, which runs them in order. */
module Pipeline {
  import opened Wrappers
  import opened Text
  import opened Paths
  import opened Utils
  import opened Manifest
  import opened Download
  import opened Archives
  import opened Metadata

  /** The DataFrame: its rows, whose columns the stages update and to which
      `_handle_zips` appends. */
  class MemoryTable {
    var rows: seq<Row>

    constructor (rows0: seq<Row>)
      ensures rows == rows0
    {
      rows := rows0;
    }

    /** `_download_memories`: read the resume index, reset the path and
      archive columns, then handle the rows in order, counting saved rows
      and the delays. `written(i)` says whether writing row `i`'s body works. */
    method DownloadMemories(dir: string, listing: seq<string>, maxRetries: int, server: Server, written: nat -> bool)
      returns (completed: nat, delays: nat)
      modifies this
      ensures rows == DownloadedRows(old(rows), dir, ResumeIndex(dir, listing), maxRetries, server, written)
      ensures completed == SavedCount(Outcomes(old(rows), dir, ResumeIndex(dir, listing), maxRetries, server, written))
      ensures delays == DelayCount(Outcomes(old(rows), dir, ResumeIndex(dir, listing), maxRetries, server, written), |old(rows)|)
    {
      var index := GetAlreadyDownloadedFiles(dir, listing);
      var total := |rows|;
      var original := rows;
      ghost var target := DownloadedRows(original, dir, index, maxRetries, server, written);
      ghost var all := Outcomes(original, dir, index, maxRetries, server, written);
      var reset := seq(total, k requires 0 <= k < total => Reset(original[k]));
      rows := reset;
      ghost var outcomes: seq<Outcome> := [];
      completed, delays := 0, 0;
      for i := 0 to total
        invariant rows == target[..i] + reset[i..]
        invariant outcomes == all[..i]
        invariant completed == SavedCount(outcomes)
        invariant delays == DelayCount(outcomes, total)
      {
        var row, outcome := DownloadRowAt(original, i, dir, index, maxRetries, server, written);
        SpliceStep(target, reset, i, row);
        PrefixSnoc(all, i);
        CountersSnoc(outcomes, outcome, total);
        rows := rows[i := row];
        outcomes := outcomes + [outcome];
        if outcome.Saved? {
          completed := completed + 1;
        }
        if outcome.Fetched() && completed < total {
          delays := delays + 1;
        }
      }
      SpliceDone(target, reset);
      PrefixWhole(all);
    }

    /** `_handle_zips`: expand every archive row in frame order, collecting
      the member rows, then append them. `extract(i)` is what extracting
      row `i`'s archive gives. */
    method HandleZips(dir: string, extract: nat -> Extraction) returns (completed: nat)
      modifies this
      ensures rows == old(rows) + NewRows(old(rows), dir, extract)
      ensures completed == CompletedUnzips(old(rows), dir, extract)
    {
      var newRows: seq<Row> := [];
      completed := 0;
      var frame := rows;
      for i := 0 to |frame|
        invariant rows == frame
        invariant newRows == NewRows(frame[..i], dir, extract)
        invariant completed == CompletedUnzips(frame[..i], dir, extract)
      {
        StageStep(frame, i, dir, extract);
        if frame[i].isZip {
          var more, ok := ExpandArchive(frame[i], dir, extract(i));
          newRows := newRows + more;
          if ok {
            completed := completed + 1;
          }
        }
      }
      PrefixWhole(frame);
      for j := 0 to |newRows|
        invariant rows == frame + newRows[..j]
      {
        PrefixSnoc(newRows, j);
        rows := rows + [newRows[j]];
      }
      PrefixWhole(newRows);
    }

    /** `_update_memories_metadata`: the non-archive rows in frame order,
      crashing at the first one without a path. */
    method UpdateMemoriesMetadata(onDisk: string -> bool) returns (updates: seq<MetadataUpdate>, crashed: bool)
      ensures (updates, crashed) == MetadataStage(rows, onDisk)
    {
      updates, crashed := [], false;
      ghost var targets: seq<Row> := [];
      for i := 0 to |rows|
        invariant (targets, crashed) == StageRows(rows[..i])
        invariant updates == UpdatesOf(targets, onDisk)
        invariant !crashed
      {
        StageRowsStep(rows, i);
        var row := rows[i];
        if !row.isZip {
          if row.filePath.None? {
            crashed := true;
            StageRowsCrashSticks(rows, i + 1);
            return;
          }
          var update := UpdateMediaMetadata(row.filePath.value, row.timestampStr, row.lat, row.lon, onDisk);
          UpdatesOfSnoc(targets, row, onDisk);
          updates := updates + [update];
          targets := targets + [row];
        }
      }
      PrefixWhole(rows);
    }
  }

  /** Row `i` of the frame after the reset, handled by one iteration. */
  method DownloadRowAt(original: seq<Row>, i: nat, dir: string, index: map<string, string>,
                       maxRetries: int, server: Server, written: nat -> bool)
    returns (r: Row, outcome: Outcome)
    requires i < |original|
    ensures r == DownloadedRows(original, dir, index, maxRetries, server, written)[i]
    ensures outcome == Outcomes(original, dir, index, maxRetries, server, written)[i]
  {
    r, outcome := DownloadRowStep(Reset(original[i]), i, dir, index, maxRetries, server, written(i));
  }

  /** One iteration of `_download_memories` on row `i`: resume from the
    index, skip a missing link, or fetch through the retry wrapper, store the
    sniffed extension and path, and write the body. It takes the steps of
    `DownloadRow` one by one so that the fetch runs the `Retry` loop itself,
    not its specification `RetrySpec`. */
  method DownloadRowStep(row: Row, i: nat, dir: string, index: map<string, string>,
                         maxRetries: int, server: Server, written: bool)
    returns (r: Row, outcome: Outcome)
    ensures (r, outcome) == DownloadRow(row, i, dir, index, maxRetries, server, written)
  {
    r := row;
    if row.fileName in index {
      var path := index[row.fileName];
      var extension := Ext(Basename(path));
      r := r.(filePath := Some(path));
      r := r.(isZip := extension == ".zip");
      r := r.(isExtracted := Contains(row.fileName, "extracted"));
      return r, Resumed;
    }
    if row.downloadLink.None? || row.downloadLink.value == [] {
      return r, NoLink;
    }
    var request := RequestFor(row.downloadLink.value, row.isGetRequest);
    var run := Retry(maxRetries, server(i)(request));
    if run.result.None? {
      return r, FetchFailed(request, run.calls);
    }
    var extension := GetExtension(run.result.value.contentDisposition);
    if extension == ".zip" {
      r := r.(isZip := true);
    }
    r := r.(filePath := Some(Join(dir, row.fileName + extension)));
    if written {
      outcome := Saved(request, run.calls, extension);
    } else {
      outcome := WriteFailed(request, run.calls, extension);
    }
  }

  // ---------------------------------------------------------------------------
  // download_memories
  // ---------------------------------------------------------------------------

  /** What a run leaves: the final frame, `completed_downloads`, the delays,
      `completed_unzips`, the metadata updates made and whether that stage
      crashed. */
  datatype PipelineRun = PipelineRun(rows: seq<Row>, completedDownloads: nat, delays: nat,
                                     completedUnzips: nat, updates: seq<MetadataUpdate>, crashed: bool)

  /** The inputs a run depends on besides the manifest. */
  datatype Environment = Environment(dir: string, listing: seq<string>, maxRetries: int, server: Server,
                                     written: nat -> bool, extract: nat -> Extraction, onDisk: string -> bool)

  /** The stages composed: construct (a failure aborts the run), download,
      expand archives, update metadata. */
  function RunSpec(records: seq<TableRecord>, onclicks: seq<Option<string>>, env: Environment)
    : Result<PipelineRun, ConstructError>
  {
    match Tabulate(records, LinkColumn(onclicks), FlagColumn(onclicks))
    case Failure(e) => Failure(e)
    case Success(rows0) =>
      var index := ResumeIndex(env.dir, env.listing);
      var outcomes := Outcomes(rows0, env.dir, index, env.maxRetries, env.server, env.written);
      var rows1 := DownloadedRows(rows0, env.dir, index, env.maxRetries, env.server, env.written);
      var rows2 := rows1 + NewRows(rows1, env.dir, env.extract);
      var stage := MetadataStage(rows2, env.onDisk);
      Success(PipelineRun(rows2, SavedCount(outcomes), DelayCount(outcomes, |rows0|),
                          CompletedUnzips(rows1, env.dir, env.extract), stage.0, stage.1))
  }

  /** `download_memories`. */
  method DownloadMemoriesPipeline(records: seq<TableRecord>, onclicks: seq<Option<string>>, env: Environment)
    returns (r: Result<PipelineRun, ConstructError>)
    ensures r == RunSpec(records, onclicks, env)
  {
    var constructed := ConstructDataframe(records, onclicks);
    if constructed.Failure? {
      return Failure(constructed.error);
    }
    var table := new MemoryTable(constructed.value);
    var completedDownloads, delays := table.DownloadMemories(env.dir, env.listing, env.maxRetries, env.server, env.written);
    var completedUnzips := table.HandleZips(env.dir, env.extract);
    var updates, crashed := table.UpdateMemoriesMetadata(env.onDisk);
    r := Success(PipelineRun(table.rows, completedDownloads, delays, completedUnzips, updates, crashed));
  }

  /** The run crashes in the metadata stage exactly when some manifest row
      was left without a path: it had no link, or its fetch failed. (Resumed
      rows, fetched rows and archive members all carry a path, and the reset
      made every row a non-archive.) */
  lemma RunCrashesIffRowWithoutPath(records: seq<TableRecord>, onclicks: seq<Option<string>>, env: Environment)
    requires RunSpec(records, onclicks, env).Success?
    ensures var rows0 := Tabulate(records, LinkColumn(onclicks), FlagColumn(onclicks)).value;
      var outcomes := Outcomes(rows0, env.dir, ResumeIndex(env.dir, env.listing), env.maxRetries, env.server, env.written);
      RunSpec(records, onclicks, env).value.crashed <==>
        exists k :: 0 <= k < |outcomes| && (outcomes[k].NoLink? || outcomes[k].FetchFailed?)
  {
    var rows0 := Tabulate(records, LinkColumn(onclicks), FlagColumn(onclicks)).value;
    var index := ResumeIndex(env.dir, env.listing);
    var rows1 := DownloadedRows(rows0, env.dir, index, env.maxRetries, env.server, env.written);
    StagesCrashIffRowWithoutPath(rows0, env.dir, index, env.maxRetries, env.server, env.written, env.extract, env.onDisk);
    assert RunSpec(records, onclicks, env).value.crashed ==
      MetadataStage(rows1 + NewRows(rows1, env.dir, env.extract), env.onDisk).1;
  }

  /** The same, stage by stage: after downloading and expanding, the
      metadata stage crashes exactly when a row had no link or failed to fetch. */
  lemma {:induction false} StagesCrashIffRowWithoutPath(rows0: seq<Row>, dir: string, index: map<string, string>,
                                                        maxRetries: int, server: Server, written: nat -> bool,
                                                        extract: nat -> Extraction, onDisk: string -> bool)
    ensures var outcomes := Outcomes(rows0, dir, index, maxRetries, server, written);
      var rows1 := DownloadedRows(rows0, dir, index, maxRetries, server, written);
      MetadataStage(rows1 + NewRows(rows1, dir, extract), onDisk).1 <==>
        exists k :: 0 <= k < |outcomes| && (outcomes[k].NoLink? || outcomes[k].FetchFailed?)
  {
    var outcomes := Outcomes(rows0, dir, index, maxRetries, server, written);
    var rows1 := DownloadedRows(rows0, dir, index, maxRetries, server, written);
    var added := NewRows(rows1, dir, extract);
    var rows2 := rows1 + added;
    MetadataStageCrash(rows2, onDisk);
    NewRowsAreMembers(rows1, dir, extract);
    forall m | |rows1| <= m < |rows2|
      ensures rows2[m].filePath.Some?
    {
      assert rows2[m] == added[m - |rows1|];
      assert rows2[m] in added;
    }
    if exists k :: 0 <= k < |outcomes| && (outcomes[k].NoLink? || outcomes[k].FetchFailed?) {
      var k :| 0 <= k < |outcomes| && (outcomes[k].NoLink? || outcomes[k].FetchFailed?);
      DownloadedRowPath(rows0, dir, index, maxRetries, server, written, k);
      assert rows2[k] == rows1[k];
    }
    if !Updatable(rows2) {
      var j :| 0 <= j < |rows2| && !rows2[j].isZip && rows2[j].filePath.None?;
      DownloadedRowPath(rows0, dir, index, maxRetries, server, written, j);
      assert rows2[j] == rows1[j];
    }
  }
}
