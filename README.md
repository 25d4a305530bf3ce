# Snapchat memories downloader — a verified model of its decision rules

The downloader reads the `memories_history.html` export and builds one row per
memory. It then runs three stages over those rows:

- **download:** fetch each memory, resuming from files already on disk;
- **expand archives:** unpack the archives among the downloads and add a row
  per member;
- **update metadata:** write capture time and location into each media file.

Almost everything it touches is I/O: HTTP, zip files, the file system,
ExifTool and pandas. This project models the rules underneath, over abstract
inputs:

- the table's text cells and each table row's `onclick` text;
- the download directory's listing;
- a server function that says what every request attempt returns or raises;
- per row, whether writing the body works;
- per archive, the file lists its walk yields or the failure that stopped it;
- an existence test for files.

Dafny then proves what the code promises about those rules.

Modules, one per file:

- `wrappers.dfy`: `Option` and `Result`.
- `text.dfy`: occurrence tests, ASCII lowering, decimal rendering, and the
  leftmost-first search that `re.search` performs.
- `paths.dfy`: `posixpath.splitext`, `join` and `basename`.
- `timestamps.dfy`:
  - the fixed layout `YYYY-MM-DD HH:MM:SS UTC`, how `strptime` reads it and
    how `strftime` writes it;
  - epoch seconds and milliseconds by a days-from-civil count.
- `utils.dfy`: `src/utils.py`. The retry wrapper, the system-file filter,
  the resume index, the coordinate recogniser and the extension sniffer.
- `manifest.dfy`: `_construct_dataframe`. Media-type normalisation, file
  names, the `downloadMemories(...)` recogniser, the link and flag columns,
  and the frame with its error cases.
- `download.dfy`:
  - `_fetch_response`'s request shape;
  - one iteration of `_download_memories`;
  - the `completed_downloads` counter and the delay rule.
- `archives.dfy`: `_handle_zips`. Member numbering per directory, member
  names and rows, and the loops over one archive.
- `metadata.dfy`:
  - the tag dictionary of `_update_media_metadata_pyexiftool` and the time
    given to `os.utime`;
  - the row filter of `_update_memories_metadata`.
- `pipeline.dfy`:
  - the frame as a class whose stage methods update its rows in place;
  - `download_memories` composing the stages.

Behaviour the model follows from the code:

- **A failed fetch never reaches the `HTTPError` handler.** `retry` replaces
  the last exception with a fresh generic `Exception` (src/utils.py:25). So the
  handler at src/core.py:199 is unreachable, and a failed fetch is one outcome,
  `FetchFailed`.
- **Archives are expanded again on every run.** Resume marks an archive found
  on disk as `is_zip` (src/core.py:162), and `_handle_zips` expands every such
  row, so a re-run extracts every archive again.
- **The delay is skipped only when every row has been saved.** After each
  row that reached the fetch, the loop sleeps while
  `completed_downloads < total_downloads` (src/core.py:204-207). So the sleep
  after the final row is skipped only when every row was saved; otherwise the
  loop also sleeps after the last row that reached the fetch. `Download.DelayRule` states exactly when
  the delay happens.
- **A row without a path crashes the metadata stage.** Such a row is one
  with no link or a failed fetch. The stage passes every non-archive row to
  `os.path.basename`, outside any `try` (src/core.py:378-388). The model
  records this as a crash that ends the stage.
- **A path is kept even when the write fails.** `file_path` and `is_zip` are
  stored before the body is written (src/core.py:182, 189).

## Model

| member | source | states |
|---|---|---|
| Utils.Retry | src/utils.py:16-25 | The wrapper's loop (count each failure, sleep, try again, raise after `max_retries`) computes exactly `RetrySpec`: the same value, call count and sleep count. |
| Utils.RetryContract | src/utils.py:17-25 | At most `max_retries` calls, none at all when `max_retries <= 0`. The result is the value of the first call that does not raise, and every earlier call raised. One sleep after every failure, the last included. After `max_retries` failures no value is returned. |
| Utils.RetryFromContract | src/utils.py:18-25 | The same promises for the loop entered after `k` failed attempts: the calls made are between `k` and `max_retries`. |
| Utils.SystemFileChars | src/utils.py:32-35 | A name is a system file exactly when it starts with `.` or its first eight characters are `__MACOSX`. |
| Utils.GetAlreadyDownloadedFiles | src/utils.py:38-46 | The loop over the listing builds the resume index `ResumeIndex(dir, listing)`. |
| Utils.ResumeIndexKeys | src/utils.py:41-45 | A key is in the index exactly when some non-system entry's `splitext` stem equals it. |
| Utils.ResumeIndexLaterWins | src/utils.py:41-45 | Take a non-system entry with no later non-system entry sharing its stem. Its stem maps to `join(dir, entry)`, so on a collision the later entry wins. |
| Utils.ScanNumber | src/utils.py:54 | A match of `-?\d+\.?\d*` at the start of the text is a well-formed number, reported with a non-zero length within the text. |
| Utils.ScanNumberText | src/utils.py:54 | The prefix the scanner consumes is exactly the text of the number it returns, so the reported length is that text's length. |
| Utils.ScanNumberFails | src/utils.py:54 | The scan fails exactly when no digit follows the optional minus sign. |
| Utils.ScanNumberOfText | src/utils.py:54 | A number's own text, followed by anything that cannot extend it, scans back as exactly that number and that length. |
| Utils.ExtractLatitudeLongitude | src/utils.py:49-60 | With no match of the coordinate pattern anywhere, the result is `(0.0, 0.0)` and nothing fails. Otherwise it is the latitude and longitude captured by the leftmost match, and no match starts further left. |
| Utils.ExtractOfFormatted | src/utils.py:54-59 | `"Latitude, Longitude: <lat>, <lon>"` reads back as `(lat, lon)` for any two numbers of the pattern's form. |
| Utils.NonNegativeIffUnsignedOrZero | src/core.py:310 | A captured number is `>= 0` exactly when it has no minus sign or all its digits are zero, so `-0.0` counts as non-negative. |
| Utils.GetExtension | src/utils.py:63-79 | The result is `""` exactly when there is no header, the header is empty, or no `filename="?([^"]+)` match exists. Otherwise there is a leftmost match, no match starts further left, and the result is `NameExtension` of its captured name: a dot followed by characters that are neither dots nor separators. |
| Utils.NameExtension | src/utils.py:75-77 | A captured name's extension is its `splitext` extension lowered (same length), or `.dat` when it has none; never empty. |
| Utils.GetExtensionOfFilename | src/utils.py:72-77 | For any header `<pre>filename=<name>` with an optional quote around the name and no earlier `filename=` (so `attachment; filename="clip.MP4"` and unquoted values too), the result is `NameExtension` of that name. |
| Utils.GetExtensionOfQuotedName | src/utils.py:72-77 | For the bare `filename="<name>"` the result is `NameExtension` of the name. |
| Utils.DotlessNameGivesDat | src/utils.py:76-77 | A quoted name with no dot yields `.dat`. |
| Utils.DotFileNameGivesDat | src/utils.py:76-77 | A quoted dot-file name such as `.jpg` also yields `.dat`, since `splitext` finds no extension in it. |
| Paths.SplitExt | src/utils.py:44 | `splitext` returns a stem and an extension that concatenate to the input. The extension is empty or a dot followed by no dot or separator. A non-empty extension leaves a non-empty stem that does not end in a separator. |
| Paths.SplitExtFindsNoExt | src/utils.py:76 | `splitext` finds no extension exactly when every dot in the last component is one of its leading dots (no dot, `.bashrc`, `..x`). |
| Paths.DotFileHasNoExt | src/utils.py:76 | A name whose only dot is its first character is kept whole, with an empty extension. |
| Paths.SplitExtOfNamePlusExt | src/core.py:185 | A plain name plus an extension-shaped suffix splits back into the two parts. A name with an empty suffix must have no dot. |
| Paths.BasenameOfJoin | src/core.py:157 | The basename of `join(dir, name)` is `name`, for any name without a separator. |
| Paths.Basename | src/core.py:157 | A basename contains no separator. |
| Text.FirstMatch | src/utils.py:54 | The search finds nothing exactly when no position in range matches. Otherwise it returns a position that matches, with its match, and no position to its left matches. |
| Text.FirstMatchIsLeftmost | src/core.py:83 | A match with no match to its left is the one the search returns. |
| Text.Lower | src/utils.py:77 | Lowering keeps the length and maps every character through ASCII lowering. |
| Text.NatToString | src/core.py:248 | `str(n)` is a non-empty run of digits that denotes `n`, with no leading zero unless `n` is zero. |
| Text.IntToString | src/core.py:48 | `str(i)` starts with a minus sign exactly when `i` is negative; the digits after it denote the magnitude of `i`. |
| Timestamps.ParseUtc | src/core.py:302 | A timestamp the layout accepts denotes a real calendar instant: a month 1..12, a day within that month of that year (leap years included), and a time of day within range. |
| Timestamps.FormatOfParsed | src/core.py:302 | A text that parses prints back, in the same layout, as the same text. |
| Timestamps.ParseOfFormatted | src/core.py:302 | Every valid date and time, printed in the layout, parses back to itself. |
| Timestamps.ExifFormatOfParsed | src/core.py:302-303 | The Exif rendering of a parsed timestamp is the input with the date's dashes turned into colons and ` UTC` dropped. |
| Timestamps.NextDayIsOneLater | src/core.py:42 | The day count of the next calendar date is one more, across month ends, February in leap and common years, and year ends. |
| Timestamps.NextDayEpoch | src/core.py:362-363 | The same clock time on the next date is a valid instant, 86400 seconds later. |
| Timestamps.NewYear2025 | src/core.py:42 | 2025-01-01 00:00:00 UTC is 1735689600000 ms after the epoch. |
| Manifest.NormalizeMediaType | src/core.py:45 | Normalisation keeps the length and turns each space into `_` and every other character into its lowered form. The result has no space. |
| Manifest.NormalizeMediaTypeIdempotent | src/core.py:45 | Normalising twice gives the same result as normalising once. |
| Manifest.FileNameIsPlain | src/core.py:48 | A file name `"{timestamp}_{media_type}"` is never taken for a system file, and it has no separator unless the media type has one. |
| Manifest.FileNameMentionsExtracted | src/core.py:48 | `"extracted"` occurs in a file name exactly when it occurs in the media type. |
| Manifest.LazyCall | src/core.py:72 | The lazy group ends at a position where `', this, true);` or `', this, false);` follows, and it is the text from its start to there. |
| Manifest.LazyCallShortest | src/core.py:72 | The captured URL is the shortest possible one: no earlier end is followed by the closing text, and it holds no newline. |
| Manifest.LazyCallNone | src/core.py:72 | When the lazy group finds no end, the closing text follows no position reachable from its start without crossing a newline. |
| Manifest.FindDownloadCall | src/core.py:72-87 | The search finds nothing exactly when the pattern matches nowhere. Otherwise it returns the URL and flag of the leftmost match, and the URL has no newline. |
| Manifest.FindDownloadCallOfCallText | src/core.py:72-87 | `downloadMemories('<url>', this, true|false);` reads back as the URL and the flag, for any URL without quotes or newlines. |
| Manifest.LinkAndFlag | src/core.py:80-93 | A row yields a link exactly when it yields a flag. Both exist exactly when the row has an `onclick` text that the pattern matches, and then they are the match's groups. |
| Manifest.ExtractLinks | src/core.py:69-93 | The loop over the rows after the header builds exactly the link column and the flag column, one entry each per data row. |
| Manifest.LinkColumnsAgree | src/core.py:84-93 | Every data row's link is missing exactly when its flag is. |
| Manifest.MakeRow | src/core.py:42-60 | A constructed row carries the record's texts, and its timestamp is the epoch milliseconds of the parsed time. It also carries the normalised media type, the file name `"{timestamp}_{media_type}"`, the coordinates of `extract_latitude_longitude`, `is_extracted` false, the link cells, and no path or archive flag yet. |
| Manifest.Tabulate | src/core.py:31-97 | The frame is built exactly when every timestamp parses and there is one link entry per row; then row `k` is `MakeRow` of record `k`. Otherwise it reports the first unparseable timestamp, or the length mismatch when all parse. |
| Manifest.ConstructDataframe | src/core.py:21-100 | Construction is `Tabulate` over the records and the link and flag columns extracted from the `onclick` texts. |
| Manifest.ConstructedRow | src/core.py:45-48 | Every constructed row is named after its own timestamp and media type, is never a system file, has no space in its media type and carries its own link cells. |
| Download.SplitQuery | src/core.py:114-116 | The base has no `?`. With a `?` in the link, base + `?` + payload is the link; without one, the result is the link and `""`. |
| Download.SplitQueryOfJoined | src/core.py:114-116 | Splitting `base + "?" + query`, for a base without `?`, gives back the base and the query. |
| Download.RequestFor | src/core.py:107-120 | A request is a GET exactly when the flag is true; a GET goes to the whole link with the route-tag headers. Otherwise it is a form POST to the text before the first `?`, with the text after it (or `""`) as the body. |
| Download.DownloadRow | src/core.py:149-202 | A row resumes exactly when its name is in the resume index: mapped path, `is_zip` iff that path's extension is `.zip`, `is_extracted` iff its name contains `extracted`. Otherwise a missing or empty link leaves it untouched. Any other row sends the `RequestFor` request through `retry`: its call count is the wrapper's, at most `max_retries`, and its fetch fails exactly when every allowed attempt raised. A fetched row's extension is `get_extension` of the response's `Content-Disposition`, and the row gets `join(dir, file_name + extension)` and is an archive iff it was one or the extension is `.zip`. It counts as saved iff the write works. A failed fetch leaves the row untouched. |
| Download.SavedRowResumes | src/core.py:155-163 | Once a row's file is saved, a later run whose listing holds that file resumes the row without a request, at the same path and with the same archive flag. The listing must hold no later file with the same stem. |
| Download.ResumeFindsSavedFile | src/utils.py:41-45 | A saved file's name maps to its path in the resume index, and that path's extension is the one it was saved with. |
| Download.DelayRule | src/core.py:204-207 | The delays number the rows that reached the fetch, less one exactly when every row was saved. Resumed and linkless rows never add a delay. |
| Download.DelaysBelowTotal | src/core.py:204-207 | While not every row is saved, every row that reached the fetch is followed by a delay. |
| Download.DownloadedRowPath | src/core.py:144-147 | After the stage, a row has no path exactly when it had no link or its fetch failed, and such a row is not an archive. |
| Download.AllResumedNoRequests | src/core.py:155-166 | When every row's name is in the resume index, no request is sent and no delay happens. |
| Archives.SurvivorsAreEntries | src/core.py:238-241 | Every member found in a directory is a non-system entry, numbered by its own 1-based position in that directory's file list. |
| Archives.SurvivorsComplete | src/core.py:238-241 | Every non-system entry becomes a member, under its own position. |
| Archives.SurvivorsIncreasing | src/core.py:238 | Member numbers strictly increase within a directory, so no two members of one directory share a number. |
| Archives.SurvivorsWithoutSkips | src/core.py:238-248 | Without system entries the numbers run 1, 2, ... with no gap. |
| Archives.OrdinalsRestartPerDirectory | src/core.py:237-248 | Numbering restarts in each directory. Two directories whose first entries survive both give a member numbered 1. With equal extensions the two get the same final name. |
| Archives.MemberRow | src/core.py:255-259 | A member row equals its archive's row except in four columns: `file_name`, `file_path` (the directory joined with the member's final name), `is_zip` false and `is_extracted` true. |
| Archives.MemberRowNaming | src/core.py:248-256 | Take an archive with a plain name. Its member's row is named `<archive>_extracted_<n>`, a name that contains `extracted`. The basename of its path is the final name with the extension. |
| Archives.ExtractedNameShape | src/core.py:248 | `<archive>_extracted_<digits>` is a plain name containing `extracted`, and it is dot-free when the archive name is. |
| Archives.ArchiveRowsContract | src/core.py:227-272 | An archive counts as completed iff it was walked and no move of a member failed (a failure index past the last member is no failure). An unreadable archive adds no row. A walked archive's rows are a prefix of one row per surviving member: all of them when no move failed before the last member, otherwise exactly as many as were moved. |
| Archives.ExpandArchive | src/core.py:227-272 | The loops over one archive give exactly the rows and the completion of `ArchiveRows`. |
| Archives.ExpandWalk | src/core.py:237-262 | The directory loop stops exactly when a move fails before the last member. It keeps the rows of the members moved before the failure, or of all members when none fails. |
| Archives.ExpandDirectory | src/core.py:238-262 | The loop over one file list adds one row per surviving entry, continuing from the rows so far. It stops at the failing move, after exactly as many members as were moved. |
| Archives.NewRowsAreMembers | src/core.py:220-260 | Every appended row is a member row, with a path, of some archive row of the frame. |
| Archives.MemberRowsAreMembers | src/core.py:255-260 | Every row one archive contributes is a member of that archive's row. |
| Metadata.Magnitude | src/core.py:310 | `abs(x)` on a captured number is the same number without its sign, and its value is the absolute value. |
| Metadata.MetadataTags | src/core.py:316-338 | Every tag is present, and the five date tags hold the Exif time. Both latitude tags hold the latitude and both longitude tags the longitude. `GPSLatitudeRef` is `N` iff the latitude is `>= 0`, else `S`; `GPSLongitudeRef` is `E` or `W` likewise. `GPSCoordinates` equals `Location` and holds the two magnitudes and the two references. |
| Metadata.HemispheresBySign | src/core.py:310-333 | The latitude's reference is `S` exactly when its text has a minus sign and a non-zero digit. The same holds for the longitude and `W`. |
| Metadata.UpdateMediaMetadata | src/core.py:287-371 | A missing file returns early. A timestamp that does not parse returns early, before any tag or time is written. Otherwise every tag is written, and the five date tags hold the input reformatted to `YYYY:MM:DD HH:MM:SS`. More precisely, the tags are exactly `MetadataTags` of the parsed time's Exif rendering and the coordinates: the XMP and Exif GPS tags, `N`/`S` and `E`/`W` by sign, and `GPSCoordinates` (equal to `Location`) holding the magnitudes and references. The file time is the parsed instant's epoch seconds. |
| Metadata.FileTimeMatchesTimestampColumn | src/core.py:362-368 | For a row built from a record, the seconds given to `os.utime` are the row's `timestamp` milliseconds divided by 1000. |
| Metadata.StageRows | src/core.py:378-388 | Every row the metadata stage updates has a path. |
| Metadata.NonZipRows | src/core.py:378 | `non_zip_df` holds no archive row and is no longer than the frame. |
| Metadata.NonZipRowsAppend | src/core.py:378 | `non_zip_df` is a filter: it distributes over concatenation, so the kept rows stay in frame order. |
| Metadata.NonZipRowsSingle | src/core.py:378 | A single row is kept exactly when it is not an archive. |
| Metadata.MetadataStageCrash | src/core.py:378-394 | The stage crashes exactly when some non-archive row has no path. Without a crash it updates exactly `non_zip_df`, in order, one update per row. With a crash the rows it updated are a leading part of `non_zip_df`. |
| Metadata.StageRowsCrash | src/core.py:378-388 | The same crash condition and prefix relation, for the rows the stage visits. |
| Pipeline.MemoryTable.DownloadMemories | src/core.py:127-207 | The loop resets the path and archive columns and handles every row. The frame becomes `DownloadedRows`; `completed_downloads` and the delays are the counts over the rows' outcomes. |
| Pipeline.DownloadRowStep | src/core.py:149-202 | One iteration on a row gives exactly `DownloadRow`'s new row and outcome. |
| Pipeline.MemoryTable.HandleZips | src/core.py:210-284 | Expanding every archive row in frame order appends exactly `NewRows` to the frame. It returns the number of archives walked with no failed move. |
| Pipeline.MemoryTable.UpdateMemoriesMetadata | src/core.py:374-394 | The loop over the non-archive rows gives exactly the updates and the crash of `MetadataStage`. |
| Pipeline.DownloadMemoriesPipeline | src/core.py:397-441 | The stages run in order on one frame: construction (whose failure ends the run), download, archive expansion, metadata. The run matches `RunSpec`. |
| Pipeline.RunCrashesIffRowWithoutPath | src/core.py:144-171 | A successful construction is followed by a metadata-stage crash exactly when some manifest row had no link or its fetch failed. |
| Pipeline.StagesCrashIffRowWithoutPath | src/core.py:378-388 | The same, stage by stage: after downloading and expanding, the metadata stage crashes exactly when a row had no link or failed to fetch. |

## Left out

- HTTP transport, streaming and `raise_for_status` are not modelled. Each attempt is a value of the `Server` function: a response or a raised failure.
- The file write is not modelled. It is a flag per row.
- Zip extraction, `os.walk`, `shutil.move`, the temporary directory and its `rmtree`, `os.listdir`, `os.makedirs` and `os.utime` are not modelled. Their inputs and effects are sequences and values given to the model.
- ExifTool is not modelled. The model stops at the tags it would be given, and ExifTool's failures are caught and logged in the source.
- pandas and BeautifulSoup are not modelled. The frame is a sequence of rows. The HTML is reduced to the table's text cells and each table row's `onclick` text, the header row included.
- Floating point is not modelled. Coordinates are kept as the decimal text the pattern captured, with its exact value. Float rounding and the printing of `abs(lat)` and the GPS values are left out.
- Metadata.HemispheresBySign: a negative number too small for a double rounds to `-0.0` and gets `N`/`E` in the source. The model uses the exact value.
- Timestamps.ParseUtc: accepts only the zero-padded layout `YYYY-MM-DD HH:MM:SS UTC` with ASCII digits. `strptime` also accepts unpadded or space-padded fields, any run of whitespace where the format has a space, `UTC` in any letter case, and non-ASCII decimal digits; the model rejects those.
- Utils.ScanNumber: `\d` in the coordinate pattern also matches non-ASCII decimal digits, which `float()` accepts too. The model's digits are ASCII only, so such a number does not match.
- Manifest.Tabulate: uses the same layout for `pd.to_datetime`, which accepts many more formats. A timestamp outside this layout counts as unparseable.
- Timestamps.NewYear2025: states only the epoch value of the date. It does not parse the literal text `"2025-01-01 00:00:00 UTC"`.
- Sleeping and logging are not modelled. Delays and retries are counted as events.
- `MAX_RETRIES` and `DOWNLOAD_DELAYS_SEC` are parameters, because `src/consts.py` is not part of this model.
- `main.py` is not modelled. It only parses arguments and sets up logging.
- Row identity is the position in the frame. This matches the default index that `read_html` gives and that `df.loc[len(df)]` extends.
- A missing link stored by pandas as NaN instead of `None` is not modelled.
- Two members with the same final name both get rows, and the later move overwrites the earlier file on disk. The model keeps both rows and does not model the overwrite.
- Unicode case mapping is not modelled. Lowering covers ASCII letters only.
