/** src/core.py `_fetch_response` and one iteration of `_download_memories`:
    the request a row sends and what its columns become. Transport,
    streaming and the file write are abstract: a server function answers
    every attempt, and a flag per row says whether writing the body works. */
module Download {
  import opened Wrappers
  import opened Text
  import opened Paths
  import opened Utils
  import opened Manifest

  // ---------------------------------------------------------------------------
  // The request shape of `_fetch_response`
  // ---------------------------------------------------------------------------

  datatype Request =
    | Get(url: string, headers: map<string, string>)
    | Post(url: string, body: string, headers: map<string, string>)

  const GET_HEADERS: map<string, string> :=
    map["X-Snap-Route-Tag" := "mem-dmd", "User-Agent" := "Mozilla/5.0"]

  const POST_HEADERS: map<string, string> :=
    map["Content-type" := "application/x-www-form-urlencoded", "User-Agent" := "Mozilla/5.0"]

  /** `link.split("?", 1)`: the text before the first `?` and the text after
      it, or the whole link and "" when there is no `?`. */
  function SplitQuery(link: string): (r: (string, string))
    ensures '?' !in r.0
    ensures '?' in link ==> r.0 + "?" + r.1 == link
    ensures '?' !in link ==> r == (link, "")
  {
    var q := IndexOf(link, '?');
    if q < 0 then (link, "")
    else
      assert link[..q] + "?" + link[q + 1..] == link by {
        assert link == link[..q] + link[q..];
        assert link[q..] == "?" + link[q + 1..];
      }
      (link[..q], link[q + 1..])
  }

  /** Splitting a base without `?` joined to a query gives both back. */
  lemma SplitQueryOfJoined(base: string, query: string)
    requires '?' !in base
    ensures SplitQuery(base + "?" + query) == (base, query)
  {
    var link := base + "?" + query;
    var q := IndexOf(link, '?');
    assert link[|base|] == '?';
    assert q == |base|;
    assert link[..q] == base;
    assert link[q + 1..] == query;
  }

  /** A true flag sends a GET to the whole link with the route tag; anything
      else (false, or no flag at all) sends a form POST to the text before the
      first `?`, with the text after it as the body. */
  function RequestFor(link: string, isGet: Option<bool>): (r: Request)
    ensures r.Get? <==> isGet == Some(true)
    ensures r.Get? ==> r.url == link && r.headers == GET_HEADERS
    ensures r.Post? ==> r.headers == POST_HEADERS && '?' !in r.url
    ensures r.Post? && '?' in link ==> r.url + "?" + r.body == link
    ensures r.Post? && '?' !in link ==> r.url == link && r.body == ""
  {
    if isGet == Some(true) then Get(link, GET_HEADERS)
    else
      var parts := SplitQuery(link);
      Post(parts.0, parts.1, POST_HEADERS)
  }

  // ---------------------------------------------------------------------------
  // One row of `_download_memories`
  // ---------------------------------------------------------------------------

  /** The part of a response the loop reads: its Content-Disposition header. */
  datatype Response = Response(contentDisposition: Option<string>)

  /** What the `k`-th attempt at a request made for row `i` does: returns a
      response, or raises (a transport error or `raise_for_status`). */
  type Server = nat -> Request -> nat -> Attempt<Response>

  /** What happened to one row. A fetch that exhausts its retries ends in the
      wrapper's generic exception (`FetchFailed`), never in an `HTTPError`. */
  datatype Outcome =
    | Resumed
    | NoLink
    | Saved(request: Request, calls: nat, extension: string)
    | FetchFailed(request: Request, calls: nat)
    | WriteFailed(request: Request, calls: nat, extension: string)
  {
    /** The row reached `_fetch_response`. */
    predicate Fetched() { Saved? || FetchFailed? || WriteFailed? }
  }

  /** The columns the stage resets before its loop. */
  function Reset(row: Row): Row {
    row.(filePath := None, isZip := false)
  }

  /** One iteration on row `i`, given the resume index, the server and whether
      writing the body works. The extension and the path are stored before
      the write, so they stay when it fails. */
  function DownloadRow(row: Row, i: nat, dir: string, index: map<string, string>,
                       maxRetries: int, server: Server, written: bool): (r: (Row, Outcome))
    ensures r.1.Resumed? <==> row.fileName in index
    ensures r.1.NoLink? <==>
      row.fileName !in index && (row.downloadLink.None? || row.downloadLink.value == [])
    ensures r.1.Resumed? ==>
      var path := index[row.fileName];
      r.0 == row.(filePath := Some(path), isZip := Ext(Basename(path)) == ".zip",
                  isExtracted := Contains(row.fileName, "extracted"))
    ensures r.1.Fetched() ==>
      && row.downloadLink.Some?
      && r.1.request == RequestFor(row.downloadLink.value, row.isGetRequest)
      && r.1.calls <= (if maxRetries < 0 then 0 else maxRetries)
    ensures (r.1.Saved? || r.1.WriteFailed?) ==>
      && ExtShaped(r.1.extension)
      && r.0 == row.(filePath := Some(Join(dir, row.fileName + r.1.extension)),
                     isZip := row.isZip || r.1.extension == ".zip")
    ensures r.1.Saved? <==> (r.1.Saved? || r.1.WriteFailed?) && written
    ensures (r.1.NoLink? || r.1.FetchFailed?) ==> r.0 == row
    ensures r.1.Fetched() ==>
      var run := RetrySpec(maxRetries, server(i)(r.1.request));
      && r.1.calls == run.calls
      && (r.1.FetchFailed? <==> run.result.None?)
      && (!r.1.FetchFailed? ==> r.1.extension == GetExtension(run.result.value.contentDisposition))
  {
    if row.fileName in index then
      var path := index[row.fileName];
      (row.(filePath := Some(path), isZip := Ext(Basename(path)) == ".zip",
            isExtracted := Contains(row.fileName, "extracted")), Resumed)
    else if row.downloadLink.None? || row.downloadLink.value == [] then
      (row, NoLink)
    else
      var request := RequestFor(row.downloadLink.value, row.isGetRequest);
      var run := RetrySpec(maxRetries, server(i)(request));
      RetryContract(maxRetries, server(i)(request));
      if run.result.None? then (row, FetchFailed(request, run.calls))
      else
        var ext := GetExtension(run.result.value.contentDisposition);
        var saved := row.(isZip := row.isZip || ext == ".zip",
                          filePath := Some(Join(dir, row.fileName + ext)));
        (saved, if written then Saved(request, run.calls, ext) else WriteFailed(request, run.calls, ext))
  }

  /** Idempotence: once a row's file is saved, a later run whose listing holds
      that file (and no later file with the same stem) resumes the row with no
      request, at the same path and with the same archive flag. */
  lemma {:induction false} SavedRowResumes(row: Row, i: nat, dir: string, index: map<string, string>,
                                           maxRetries: int, server: Server, written: bool,
                                           listing: seq<string>, j: nat,
                                           i': nat, maxRetries': int, server': Server, written': bool)
    requires PlainName(row.fileName) && !IsSystemFile(row.fileName)
    requires DownloadRow(Reset(row), i, dir, index, maxRetries, server, written).1.Saved?
    requires var ext := DownloadRow(Reset(row), i, dir, index, maxRetries, server, written).1.extension;
      && (ext == [] ==> '.' !in row.fileName)
      && j < |listing| && listing[j] == row.fileName + ext
      && forall k :: j < k < |listing| && !IsSystemFile(listing[k]) ==> Stem(listing[k]) != row.fileName
    ensures var first := DownloadRow(Reset(row), i, dir, index, maxRetries, server, written);
      var again := DownloadRow(Reset(row), i', dir, ResumeIndex(dir, listing), maxRetries', server', written');
      && again.1 == Resumed
      && again.0.filePath == first.0.filePath
      && again.0.isZip == first.0.isZip
  {
    var first := DownloadRow(Reset(row), i, dir, index, maxRetries, server, written);
    ResumeFindsSavedFile(row.fileName, first.1.extension, dir, listing, j);
  }

  /** The resume index maps a saved file's name to its path, and the path's
      extension is the one it was saved with. */
  lemma {:induction false} ResumeFindsSavedFile(name: string, ext: string, dir: string, listing: seq<string>, j: nat)
    requires PlainName(name) && !IsSystemFile(name) && ExtShaped(ext) && (ext == [] ==> '.' !in name)
    requires j < |listing| && listing[j] == name + ext
    requires forall k :: j < k < |listing| && !IsSystemFile(listing[k]) ==> Stem(listing[k]) != name
    ensures name in ResumeIndex(dir, listing)
    ensures ResumeIndex(dir, listing)[name] == Join(dir, name + ext)
    ensures Ext(Basename(Join(dir, name + ext))) == ext
  {
    var file := name + ext;
    SplitExtOfNamePlusExt(name, ext);
    assert !IsSystemFile(file) by {
      assert file[0..1] == name[0..1];
      if |name| >= 8 {
        assert file[0..8] == name[0..8];
      } else if ext != [] {
        assert file[|name|] == '.';
      } else {
        assert file == name;
      }
    }
    assert '/' !in file by {
      forall k | 0 <= k < |file|
        ensures file[k] != '/'
      {
        if k < |name| {
          assert file[k] == name[k];
        } else {
          assert file[k] == ext[k - |name|];
        }
      }
    }
    ResumeIndexLaterWins(dir, listing, j);
    BasenameOfJoin(dir, file);
  }

  // ---------------------------------------------------------------------------
  // The loop's counters
  // ---------------------------------------------------------------------------

  /** `completed_downloads` after these outcomes. */
  function SavedCount(outcomes: seq<Outcome>): (n: nat)
    ensures n <= |outcomes|
  {
    if outcomes == [] then 0
    else SavedCount(outcomes[..|outcomes| - 1]) + (if outcomes[|outcomes| - 1].Saved? then 1 else 0)
  }

  /** How many rows reached the fetch. */
  function FetchCount(outcomes: seq<Outcome>): (n: nat)
    ensures n <= |outcomes|
  {
    if outcomes == [] then 0
    else FetchCount(outcomes[..|outcomes| - 1]) + (if outcomes[|outcomes| - 1].Fetched() then 1 else 0)
  }

  /** The inter-row delays: after each row that reached the fetch, one delay
      when `completed_downloads` is still below the row total. */
  function DelayCount(outcomes: seq<Outcome>, total: nat): nat {
    if outcomes == [] then 0
    else
      var last := outcomes[|outcomes| - 1];
      DelayCount(outcomes[..|outcomes| - 1], total)
        + (if last.Fetched() && SavedCount(outcomes) < total then 1 else 0)
  }

  /** The counters after one more row. */
  lemma CountersSnoc(outcomes: seq<Outcome>, o: Outcome, total: nat)
    ensures SavedCount(outcomes + [o]) == SavedCount(outcomes) + (if o.Saved? then 1 else 0)
    ensures DelayCount(outcomes + [o], total) ==
      DelayCount(outcomes, total) + (if o.Fetched() && SavedCount(outcomes + [o]) < total then 1 else 0)
  {
    assert (outcomes + [o])[..|outcomes|] == outcomes;
  }

  /** While not every row has been saved, every fetched row is followed by a delay. */
  lemma {:induction false} DelaysBelowTotal(outcomes: seq<Outcome>, total: nat)
    requires SavedCount(outcomes) < total
    ensures DelayCount(outcomes, total) == FetchCount(outcomes)
    decreases |outcomes|
  {
    if outcomes != [] {
      DelaysBelowTotal(outcomes[..|outcomes| - 1], total);
    }
  }

  /** Only a run where every row is saved skips a delay, and it skips exactly
      the one after the last row; a run with any resumed, linkless or failed
      row delays after every fetched row, the last one included. Resumed and
      linkless rows never delay. */
  lemma {:induction false} DelayRule(outcomes: seq<Outcome>)
    ensures DelayCount(outcomes, |outcomes|) + (if outcomes != [] && SavedCount(outcomes) == |outcomes| then 1 else 0)
      == FetchCount(outcomes)
  {
    var total := |outcomes|;
    if SavedCount(outcomes) < total {
      DelaysBelowTotal(outcomes, total);
    } else if outcomes != [] {
      var init := outcomes[..total - 1];
      assert outcomes[total - 1].Saved?;
      assert SavedCount(init) == total - 1;
      DelaysBelowTotal(init, total);
    }
  }

  // ---------------------------------------------------------------------------
  // The whole stage
  // ---------------------------------------------------------------------------

  /** The rows after the stage, row by row. */
  function DownloadedRows(rows: seq<Row>, dir: string, index: map<string, string>,
                          maxRetries: int, server: Server, written: nat -> bool): seq<Row> {
    seq(|rows|, i requires 0 <= i < |rows| =>
      DownloadRow(Reset(rows[i]), i, dir, index, maxRetries, server, written(i)).0)
  }

  /** What happened to each row. */
  function Outcomes(rows: seq<Row>, dir: string, index: map<string, string>,
                    maxRetries: int, server: Server, written: nat -> bool): seq<Outcome> {
    seq(|rows|, i requires 0 <= i < |rows| =>
      DownloadRow(Reset(rows[i]), i, dir, index, maxRetries, server, written(i)).1)
  }

  /** A row leaves the stage without a path exactly when it had no link or
      its fetch failed, and such a row is not an archive. */
  lemma DownloadedRowPath(rows: seq<Row>, dir: string, index: map<string, string>,
                          maxRetries: int, server: Server, written: nat -> bool, k: nat)
    requires k < |rows|
    ensures var after := DownloadedRows(rows, dir, index, maxRetries, server, written);
      var outcomes := Outcomes(rows, dir, index, maxRetries, server, written);
      && |after| == |outcomes| == |rows|
      && (after[k].filePath.None? <==> outcomes[k].NoLink? || outcomes[k].FetchFailed?)
      && (after[k].filePath.None? ==> !after[k].isZip)
  {
    var d := DownloadRow(Reset(rows[k]), k, dir, index, maxRetries, server, written(k));
    assert DownloadedRows(rows, dir, index, maxRetries, server, written)[k] == d.0;
    assert Outcomes(rows, dir, index, maxRetries, server, written)[k] == d.1;
  }

  /** Idempotence of the whole stage: when every row's name is already in
      the resume index, no row sends a request and no delay happens. */
  lemma {:induction false} AllResumedNoRequests(rows: seq<Row>, dir: string, index: map<string, string>,
                                                maxRetries: int, server: Server, written: nat -> bool)
    requires forall i :: 0 <= i < |rows| ==> rows[i].fileName in index
    ensures FetchCount(Outcomes(rows, dir, index, maxRetries, server, written)) == 0
    ensures DelayCount(Outcomes(rows, dir, index, maxRetries, server, written), |rows|) == 0
  {
    var outcomes := Outcomes(rows, dir, index, maxRetries, server, written);
    forall i | 0 <= i < |outcomes|
      ensures !outcomes[i].Fetched()
    {
      assert outcomes[i] == DownloadRow(Reset(rows[i]), i, dir, index, maxRetries, server, written(i)).1;
      assert Reset(rows[i]).fileName in index;
    }
    NoneFetched(outcomes);
    DelayRule(outcomes);
  }

  lemma {:induction false} NoneFetched(outcomes: seq<Outcome>)
    requires forall i :: 0 <= i < |outcomes| ==> !outcomes[i].Fetched()
    ensures FetchCount(outcomes) == 0
    decreases |outcomes|
  {
    if outcomes != [] {
      NoneFetched(outcomes[..|outcomes| - 1]);
    }
  }
}
