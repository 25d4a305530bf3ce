/** src/utils.py: the retry wrapper, the system-file filter, the resume index,
    the coordinate recogniser and the extension sniffer. */
module Utils {
  import opened Wrappers
  import opened Text
  import opened Paths

  // ---------------------------------------------------------------------------
  // retry
  // ---------------------------------------------------------------------------

  /** Why one call of the wrapped function raised (every kind is retried). */
  datatype Failure = HttpStatus | Transport

  /** What one call of the wrapped function did. */
  datatype Attempt<T> = Returned(value: T) | Raised(failure: Failure)

  /** What the wrapper did: the value it returned (`None` when it raised its
      own generic exception), how often it called the function, and how often
      it slept. */
  datatype RetryRun<T> = RetryRun(result: Option<T>, calls: nat, sleeps: nat)

  /** The wrapper's loop, entered with `k` failed attempts behind it. */
  function RetryFrom<T>(maxRetries: int, attempt: nat -> Attempt<T>, k: nat): RetryRun<T>
    decreases maxRetries - k
  {
    if k >= maxRetries then RetryRun(None, k, k)
    else match attempt(k)
      case Returned(v) => RetryRun(Some(v), k + 1, k)
      case Raised(_) => RetryFrom(maxRetries, attempt, k + 1)
  }

  /** `retry(max_retries)(f)`, where `attempt(k)` is what the `k`-th call of `f` does. */
  function RetrySpec<T>(maxRetries: int, attempt: nat -> Attempt<T>): RetryRun<T> {
    RetryFrom(maxRetries, attempt, 0)
  }

  /** The wrapper: call, and on any exception count it, sleep and try again;
      after `maxRetries` failures raise a fresh generic exception. */
  method Retry<T>(maxRetries: int, attempt: nat -> Attempt<T>) returns (run: RetryRun<T>)
    ensures run == RetrySpec(maxRetries, attempt)
  {
    var attempts: nat := 0;
    var sleeps: nat := 0;
    while attempts < maxRetries
      invariant sleeps == attempts
      invariant RetryFrom(maxRetries, attempt, attempts) == RetrySpec(maxRetries, attempt)
      decreases maxRetries - attempts
    {
      match attempt(attempts) {
        case Returned(v) =>
          return RetryRun(Some(v), attempts + 1, sleeps);
        case Raised(_) =>
          attempts := attempts + 1;
          sleeps := sleeps + 1;
      }
    }
    run := RetryRun(None, attempts, sleeps);
  }

  /** The wrapper's promises: at most `maxRetries` calls; it returns the value
      of the first call that does not raise; it sleeps once after every failed
      call, the last one included; after `maxRetries` failures (or at once when
      `maxRetries <= 0`) it raises without a value. */
  lemma {:induction false} RetryFromContract<T>(maxRetries: int, attempt: nat -> Attempt<T>, k: nat)
    requires k <= maxRetries || k == 0
    ensures var run := RetryFrom(maxRetries, attempt, k);
      && k <= run.calls
      && run.calls <= (if maxRetries < 0 then 0 else maxRetries)
      && (run.result.Some? ==> run.sleeps == run.calls - 1 && attempt(run.calls - 1) == Returned(run.result.value))
      && (run.result.None? ==> run.sleeps == run.calls && run.calls == (if maxRetries < 0 then 0 else maxRetries))
      && (forall j: nat :: k <= j < run.calls - (if run.result.Some? then 1 else 0) ==> attempt(j).Raised?)
    decreases maxRetries - k
  {
    if k < maxRetries && attempt(k).Raised? {
      RetryFromContract(maxRetries, attempt, k + 1);
    }
  }

  lemma RetryContract<T>(maxRetries: int, attempt: nat -> Attempt<T>)
    ensures var run := RetrySpec(maxRetries, attempt);
      && run.calls <= (if maxRetries < 0 then 0 else maxRetries)
      && (run.result.Some? ==> run.sleeps == run.calls - 1 && attempt(run.calls - 1) == Returned(run.result.value))
      && (run.result.None? ==> run.sleeps == run.calls && run.calls == (if maxRetries < 0 then 0 else maxRetries))
      && (forall j: nat :: j < run.calls - (if run.result.Some? then 1 else 0) ==> attempt(j).Raised?)
  {
    RetryFromContract(maxRetries, attempt, 0);
  }

  // ---------------------------------------------------------------------------
  // is_system_file and the resume index
  // ---------------------------------------------------------------------------

  /** macOS archive metadata and hidden files. */
  predicate IsSystemFile(name: string) {
    StartsWith(name, "__MACOSX") || StartsWith(name, ".")
  }

  lemma SystemFileChars(name: string)
    ensures IsSystemFile(name) <==>
      (|name| > 0 && name[0] == '.') || (|name| >= 8 && name[..8] == "__MACOSX")
  {
  }

  /** `get_already_downloaded_files` as a fold over the listing in order:
      each non-system entry maps its extension-stripped name to its path,
      overwriting what an earlier entry put there. */
  function ResumeIndex(dir: string, listing: seq<string>): map<string, string>
    decreases |listing|
  {
    if listing == [] then map[]
    else
      var m := ResumeIndex(dir, listing[..|listing| - 1]);
      var entry := listing[|listing| - 1];
      if IsSystemFile(entry) then m else m[Stem(entry) := Join(dir, entry)]
  }

  /** The loop filling the `files` dict. */
  method GetAlreadyDownloadedFiles(dir: string, listing: seq<string>) returns (files: map<string, string>)
    ensures files == ResumeIndex(dir, listing)
  {
    files := map[];
    for i := 0 to |listing|
      invariant files == ResumeIndex(dir, listing[..i])
    {
      assert listing[..i + 1][..i] == listing[..i];
      var entry := listing[i];
      if !IsSystemFile(entry) {
        files := files[Stem(entry) := Join(dir, entry)];
      }
    }
    PrefixWhole(listing);
  }

  /** The keys are exactly the stems of the non-system entries. */
  lemma {:induction false} ResumeIndexKeys(dir: string, listing: seq<string>, key: string)
    ensures key in ResumeIndex(dir, listing) <==>
      exists j :: 0 <= j < |listing| && !IsSystemFile(listing[j]) && Stem(listing[j]) == key
    decreases |listing|
  {
    if listing != [] {
      var init := listing[..|listing| - 1];
      ResumeIndexKeys(dir, init, key);
      assert forall j :: 0 <= j < |init| ==> init[j] == listing[j];
    }
  }

  /** The value for a key is the directory joined with the last non-system
      entry, in listing order, whose stem is that key. */
  lemma {:induction false} ResumeIndexLaterWins(dir: string, listing: seq<string>, j: nat)
    requires j < |listing| && !IsSystemFile(listing[j])
    requires forall k :: j < k < |listing| && !IsSystemFile(listing[k]) ==> Stem(listing[k]) != Stem(listing[j])
    ensures Stem(listing[j]) in ResumeIndex(dir, listing)
    ensures ResumeIndex(dir, listing)[Stem(listing[j])] == Join(dir, listing[j])
    decreases |listing|
  {
    var init := listing[..|listing| - 1];
    if j < |listing| - 1 {
      assert forall k :: j < k < |init| ==> init[k] == listing[k];
      ResumeIndexLaterWins(dir, init, j);
    }
  }

  // ---------------------------------------------------------------------------
  // extract_latitude_longitude
  // ---------------------------------------------------------------------------

  /** A number as the pattern `-?\d+\.?\d*` captures it, kept as its text. */
  datatype Decimal = Decimal(negative: bool, whole: string, dot: bool, frac: string) {
    predicate Valid() {
      |whole| > 0 && (forall k :: 0 <= k < |whole| ==> IsDigit(whole[k]))
      && (forall k :: 0 <= k < |frac| ==> IsDigit(frac[k]))
      && (!dot ==> frac == [])
    }

    function Text(): string {
      (if negative then "-" else "") + whole + (if dot then "." else "") + frac
    }

    /** The exact value `float(..)` rounds. */
    function Value(): real
      requires Valid()
    {
      var magnitude := DigitsValue(whole) as real + DigitsValue(frac) as real / Pow10(|frac|) as real;
      if negative then -magnitude else magnitude
    }
  }

  /** A number the pattern can capture: what the `lat` and `lon` columns hold. */
  type Coordinate = d: Decimal | d.Valid() witness Decimal(false, "0", true, "0")

  /** `(0.0, 0.0)`'s components. */
  const ZERO := Decimal(false, "0", true, "0")

  function Pow10(n: nat): (r: nat)
    ensures r > 0
  {
    if n == 0 then 1 else 10 * Pow10(n - 1)
  }

  predicate AllZeros(s: string) { forall k :: 0 <= k < |s| ==> s[k] == '0' }

  lemma {:induction false} DigitsValueZero(s: string)
    requires forall k :: 0 <= k < |s| ==> IsDigit(s[k])
    ensures DigitsValue(s) == 0 <==> AllZeros(s)
    decreases |s|
  {
    if s != [] {
      DigitsValueZero(s[..|s| - 1]);
    }
  }

  /** A number is at least zero unless it has a minus sign and a non-zero
      digit (so "-0.0" counts as not negative, as `-0.0 >= 0` holds in Python). */
  lemma {:induction false} NonNegativeIffUnsignedOrZero(d: Decimal)
    requires d.Valid()
    ensures d.Value() >= 0.0 <==> !d.negative || (AllZeros(d.whole) && AllZeros(d.frac))
  {
    DigitsValueZero(d.whole);
    DigitsValueZero(d.frac);
    var w, f, p := DigitsValue(d.whole) as real, DigitsValue(d.frac) as real, Pow10(|d.frac|) as real;
    assert f / p >= 0.0;
    assert f / p == 0.0 <==> f == 0.0;
  }

  /** One past the end of the run of digits starting at `i`. */
  function DigitEnd(t: string, i: nat): (r: nat)
    requires i <= |t|
    ensures i <= r <= |t|
    ensures forall k :: i <= k < r ==> IsDigit(t[k])
    ensures r < |t| ==> !IsDigit(t[r])
    decreases |t| - i
  {
    if i < |t| && IsDigit(t[i]) then DigitEnd(t, i + 1) else i
  }

  /** `\.?\d*` matched greedily at the start of `v`: whether a dot was
      taken, the digits after it, and the length matched. */
  function ScanFraction(v: string): (r: (bool, string, nat))
    ensures r.2 <= |v|
    ensures forall k :: 0 <= k < |r.1| ==> IsDigit(r.1[k])
    ensures !r.0 ==> r.1 == []
  {
    if v != [] && v[0] == '.' then
      var e := DigitEnd(v, 1);
      (true, v[1..e], e)
    else
      // without a dot, `\d*` finds no digit: the run before stopped at a non-digit
      (false, [], 0)
  }

  /** `\d+\.?\d*` matched greedily at the start of `u`: the integral
      digits, whether a dot was taken, the fractional digits and the length
      matched. */
  function ScanUnsigned(u: string): (r: Option<(string, bool, string, nat)>)
    ensures r.Some? ==> Decimal(false, r.value.0, r.value.1, r.value.2).Valid() && 0 < r.value.3 <= |u|
  {
    var w := DigitEnd(u, 0);
    if w == 0 then None
    else
      var f := ScanFraction(u[w..]);
      Some((u[..w], f.0, f.1, w + f.2))
  }

  /** `-?\d+\.?\d*` matched greedily at the start of `t`: the number and the
      length of its text. Backtracking never yields another match that the
      rest of the pattern accepts, since every shorter candidate ends before a
      digit or a dot. */
  function ScanNumber(t: string): (r: Option<(Decimal, nat)>)
    ensures r.Some? ==> r.value.0.Valid() && 0 < r.value.1 <= |t|
  {
    var neg := t != [] && t[0] == '-';
    match ScanUnsigned(if neg then t[1..] else t)
    case None => None
    case Some((whole, dot, frac, n)) => Some((Decimal(neg, whole, dot, frac), if neg then 1 + n else n))
  }

  /** What the scanner consumes is the text of the number it returns. */
  lemma ScanNumberText(t: string)
    ensures ScanNumber(t).Some? ==> t[..ScanNumber(t).value.1] == ScanNumber(t).value.0.Text()
  {
    var neg := t != [] && t[0] == '-';
    var u := if neg then t[1..] else t;
    ScanUnsignedText(u);
    var s := ScanUnsigned(u);
    if s.Some? {
      var d := Decimal(neg, s.value.0, s.value.1, s.value.2);
      var n := s.value.3;
      assert ScanNumber(t) == Some((d, if neg then 1 + n else n));
      SignedText(t, u, d, n);
    }
  }

  /** The optional sign followed by the unsigned part's text is the number's text. */
  lemma SignedText(t: string, u: string, d: Decimal, n: nat)
    requires d.negative == (t != [] && t[0] == '-')
    requires u == (if d.negative then t[1..] else t)
    requires n <= |u| && u[..n] == d.whole + (if d.dot then "." else "") + d.frac
    ensures t[..if d.negative then 1 + n else n] == d.Text()
  {
    if d.negative {
      assert t[..1 + n] == "-" + u[..n];
    }
  }

  /** The scanner fails exactly when no digit follows the optional minus sign. */
  lemma ScanNumberFails(t: string)
    ensures ScanNumber(t).None? <==> DigitEnd(if t != [] && t[0] == '-' then t[1..] else t, 0) == 0
  {
    ScanUnsignedText(if t != [] && t[0] == '-' then t[1..] else t);
  }

  lemma ScanUnsignedText(u: string)
    ensures var r := ScanUnsigned(u);
      && (r.Some? ==> u[..r.value.3] == r.value.0 + (if r.value.1 then "." else "") + r.value.2)
      && (r.None? <==> DigitEnd(u, 0) == 0)
  {
    var w := DigitEnd(u, 0);
    if w > 0 {
      var v := u[w..];
      var f := ScanFraction(v);
      ScanFractionText(v);
      assert u[..w + f.2] == u[..w] + v[..f.2];
    }
  }

  lemma ScanFractionText(v: string)
    ensures var r := ScanFraction(v); v[..r.2] == (if r.0 then "." else "") + r.1
  {
    if v != [] && v[0] == '.' {
      var e := DigitEnd(v, 1);
      assert v[..e] == [v[0]] + v[1..e];
    }
  }

  const COORDINATES_PREFIX := "Latitude, Longitude: "

  /** The pattern `Latitude, Longitude: (-?\d+\.?\d*), (-?\d+\.?\d*)` matched at `i`. */
  function CoordinatesAt(s: string, i: nat): Option<(Decimal, Decimal)> {
    if !OccursAt(s, COORDINATES_PREFIX, i) then None
    else
      var t := s[i + |COORDINATES_PREFIX|..];
      match ScanNumber(t)
      case None => None
      case Some((lat, n)) =>
        var rest := t[n..];
        if !StartsWith(rest, ", ") then None
        else match ScanNumber(rest[2..])
          case None => None
          case Some((lon, _)) => Some((lat, lon))
  }

  function CoordinatesMatcher(s: string): (m: nat -> Option<(Decimal, Decimal)>)
    ensures forall i: nat :: m(i) == CoordinatesAt(s, i)
  {
    (i: nat) => CoordinatesAt(s, i)
  }

  /** `extract_latitude_longitude`: the two numbers of the leftmost match,
      latitude first, or `(0.0, 0.0)` when nothing matches. */
  function ExtractLatitudeLongitude(coordinates: string): (r: (Decimal, Decimal))
    ensures r.0.Valid() && r.1.Valid()
    ensures (forall i: nat :: i <= |coordinates| ==> CoordinatesAt(coordinates, i).None?) ==> r == (ZERO, ZERO)
    ensures (exists i: nat :: i <= |coordinates| && CoordinatesAt(coordinates, i).Some?) ==>
      exists i: nat :: i <= |coordinates| && CoordinatesAt(coordinates, i) == Some(r)
        && forall k: nat :: k < i ==> CoordinatesAt(coordinates, k).None?
  {
    match FirstMatch(CoordinatesMatcher(coordinates), 0, |coordinates|)
    case None => (ZERO, ZERO)
    case Some((_, latLon)) => latLon
  }

  /** A run of digits from `i` up to a non-digit (or the end) at `hi` is
      what `DigitEnd` finds. */
  lemma {:induction false} DigitEndAt(t: string, i: nat, hi: nat)
    requires i <= hi <= |t|
    requires forall k :: i <= k < hi ==> IsDigit(t[k])
    requires hi == |t| || !IsDigit(t[hi])
    ensures DigitEnd(t, i) == hi
    decreases hi - i
  {
    if i < hi {
      DigitEndAt(t, i + 1, hi);
    }
  }

  /** Scanning a number's own text, followed by something that cannot extend
      it, gives the number back. */
  lemma {:induction false} ScanNumberOfText(d: Decimal, rest: string)
    requires d.Valid()
    requires rest == [] || (!IsDigit(rest[0]) && (d.dot || rest[0] != '.'))
    ensures ScanNumber(d.Text() + rest) == Some((d, |d.Text()|))
  {
    var u := d.whole + (if d.dot then "." else "") + d.frac + rest;
    var n := |d.whole| + (if d.dot then 1 else 0) + |d.frac|;
    SignOfText(d, u, rest);
    ScanUnsignedOfText(d, rest, u, n);
    ScanNumberOfParts(d.Text() + rest, u, d, n, |d.Text()|);
  }

  /** `ScanNumber` is the optional sign followed by `ScanUnsigned`. */
  lemma ScanNumberOfParts(t: string, u: string, d: Decimal, n: nat, len: nat)
    requires (t != [] && t[0] == '-') == d.negative
    requires (if d.negative then t[1..] else t) == u
    requires ScanUnsigned(u) == Some((d.whole, d.dot, d.frac, n))
    requires len == if d.negative then 1 + n else n
    ensures ScanNumber(t) == Some((d, len))
  {
  }

  lemma {:induction false} ScanUnsignedOfText(d: Decimal, rest: string, u: string, n: nat)
    requires d.Valid()
    requires rest == [] || (!IsDigit(rest[0]) && (d.dot || rest[0] != '.'))
    requires u == d.whole + (if d.dot then "." else "") + d.frac + rest
    requires n == |d.whole| + (if d.dot then 1 else 0) + |d.frac|
    ensures ScanUnsigned(u) == Some((d.whole, d.dot, d.frac, n))
  {
    var tail := (if d.dot then "." else "") + d.frac + rest;
    var w := |d.whole|;
    assert u == d.whole + tail;
    if d.dot {
      assert tail[0] == '.';
    } else {
      assert tail == rest;
    }
    forall k | 0 <= k < w
      ensures IsDigit(u[k])
    {
      assert u[k] == d.whole[k];
    }
    assert w < |u| ==> u[w] == tail[0];
    DigitEndAt(u, 0, w);
    assert u[..w] == d.whole && u[w..] == tail;
    ScanFractionOfText(d, rest, tail, n - w);
    ScanUnsignedOfParts(u, d.whole, d.dot, d.frac, n - w);
  }

  /** `ScanUnsigned` is a digit run followed by `ScanFraction`. */
  lemma ScanUnsignedOfParts(u: string, whole: string, dot: bool, frac: string, m: nat)
    requires 0 < |whole| <= |u| && DigitEnd(u, 0) == |whole| && u[..|whole|] == whole
    requires ScanFraction(u[|whole|..]) == (dot, frac, m)
    ensures ScanUnsigned(u) == Some((whole, dot, frac, |whole| + m))
  {
  }

  /** Where the sign sits in a number's text. */
  lemma {:induction false} SignOfText(d: Decimal, u: string, rest: string)
    requires d.Valid()
    requires u == d.whole + (if d.dot then "." else "") + d.frac + rest
    ensures |d.Text()| == (if d.negative then 1 else 0) + |d.whole| + (if d.dot then 1 else 0) + |d.frac|
    ensures var t := d.Text() + rest;
      && (t != [] && t[0] == '-') == d.negative
      && (if d.negative then t[1..] else t) == u
  {
    var t := d.Text() + rest;
    assert t == (if d.negative then "-" else "") + u;
    assert t[0] == if d.negative then '-' else d.whole[0];
  }

  lemma {:induction false} ScanFractionOfText(d: Decimal, rest: string, v: string, m: nat)
    requires d.Valid()
    requires rest == [] || (!IsDigit(rest[0]) && (d.dot || rest[0] != '.'))
    requires v == (if d.dot then "." else "") + d.frac + rest
    requires m == (if d.dot then 1 else 0) + |d.frac|
    ensures ScanFraction(v) == (d.dot, d.frac, m)
  {
    if d.dot {
      forall k | 1 <= k < m
        ensures IsDigit(v[k])
      {
        assert v[k] == d.frac[k - 1];
      }
      assert m < |v| ==> v[m] == rest[0];
      DigitEndAt(v, 1, m);
      assert v[1..m] == d.frac;
    } else {
      assert v == rest;
    }
  }

  /** The recogniser reads back the two numbers of a well-formed coordinate string. */
  lemma {:induction false} ExtractOfFormatted(lat: Decimal, lon: Decimal)
    requires lat.Valid() && lon.Valid()
    ensures ExtractLatitudeLongitude(COORDINATES_PREFIX + lat.Text() + ", " + lon.Text()) == (lat, lon)
  {
    var s := COORDINATES_PREFIX + lat.Text() + ", " + lon.Text();
    CoordinatesAtStart(lat, lon);
    FirstMatchIsLeftmost(CoordinatesMatcher(s), |s|, 0);
  }

  lemma {:induction false} CoordinatesAtStart(lat: Decimal, lon: Decimal)
    requires lat.Valid() && lon.Valid()
    ensures CoordinatesAt(COORDINATES_PREFIX + lat.Text() + ", " + lon.Text(), 0) == Some((lat, lon))
  {
    ScanNumberOfText(lat, ", " + lon.Text());
    ScanNumberOfText(lon, []);
    CoordinatesOfTexts(lat.Text(), lon.Text(), lat, lon);
  }

  /** The pattern matched at the start of the prefix, a text the number
      scanner reads as `lat`, the separator and a text it reads as `lon`. */
  lemma CoordinatesOfTexts(latText: string, lonText: string, lat: Decimal, lon: Decimal)
    requires ScanNumber(latText + (", " + lonText)) == Some((lat, |latText|))
    requires ScanNumber(lonText + []).Some? && ScanNumber(lonText + []).value.0 == lon
    ensures CoordinatesAt(COORDINATES_PREFIX + latText + ", " + lonText, 0) == Some((lat, lon))
  {
    var s := COORDINATES_PREFIX + latText + ", " + lonText;
    var rest := ", " + lonText;
    var t := latText + rest;
    ConcatRight(COORDINATES_PREFIX, latText, ", ", lonText);
    PrefixThenRest(s, COORDINATES_PREFIX, t);
    PrefixThenRest(t, latText, rest);
    PrefixThenRest(rest, ", ", lonText + []);
    CoordinatesAtOfParts(s, 0, t, lat, |latText|, rest, lon);
  }

  lemma ConcatRight(a: string, b: string, c: string, d: string)
    ensures a + b + c + d == a + (b + (c + d))
  {
  }

  /** A string made of a prefix and a rest splits back into the two. */
  lemma PrefixThenRest(s: string, prefix: string, rest: string)
    requires s == prefix + rest
    ensures OccursAt(s, prefix, 0) && s[|prefix|..] == rest
  {
    assert s[0..|prefix|] == prefix;
  }

  /** `CoordinatesAt` is the prefix, a number, the separator and a number. */
  lemma CoordinatesAtOfParts(s: string, i: nat, t: string, lat: Decimal, n: nat, rest: string, lon: Decimal)
    requires OccursAt(s, COORDINATES_PREFIX, i)
    requires t == s[i + |COORDINATES_PREFIX|..]
    requires ScanNumber(t) == Some((lat, n))
    requires rest == t[n..] && StartsWith(rest, ", ")
    requires ScanNumber(rest[2..]).Some? && ScanNumber(rest[2..]).value.0 == lon
    ensures CoordinatesAt(s, i) == Some((lat, lon))
  {
  }

  // ---------------------------------------------------------------------------
  // get_extension
  // ---------------------------------------------------------------------------

  /** One past the end of the run of non-quote characters starting at `i`. */
  function QuoteFreeRun(s: string, i: nat): (r: nat)
    requires i <= |s|
    ensures i <= r <= |s|
    ensures forall k :: i <= k < r ==> s[k] != '"'
    ensures r < |s| ==> s[r] == '"'
    decreases |s| - i
  {
    if i < |s| && s[i] != '"' then QuoteFreeRun(s, i + 1) else i
  }

  /** Group 1 of `filename="?([^"]+)"?` matched at `i`. When the optional
      quote is present but no name follows, dropping the quote cannot help
      either, since `[^"]+` cannot start on a quote. */
  function FilenameAt(header: string, i: nat): Option<string> {
    if !OccursAt(header, "filename=", i) then None
    else
      var j := i + 9;
      var start := if j < |header| && header[j] == '"' then j + 1 else j;
      var end := QuoteFreeRun(header, start);
      if end == start then None else Some(header[start..end])
  }

  function FilenameMatcher(header: string): (m: nat -> Option<string>)
    ensures forall i: nat :: m(i) == FilenameAt(header, i)
  {
    (i: nat) => FilenameAt(header, i)
  }

  /** What `get_extension` makes of a captured file name: its `splitext`
      extension lowered, or ".dat" when it has none. */
  function NameExtension(name: string): (r: string)
    ensures r != [] && r[0] == '.' && ExtShaped(r)
    ensures Ext(name) != [] ==> |r| == |Ext(name)|
  {
    if Ext(name) == [] then ".dat" else Lower(Ext(name))
  }

  /** `get_extension`: from the `Content-Disposition` header, the lowered
      `splitext` extension of the leftmost `filename=` value, ".dat" when that
      name has none, and "" when there is no header or no such value. */
  function GetExtension(contentDisposition: Option<string>): (r: string)
    ensures r != [] ==> r[0] == '.'
    ensures ExtShaped(r)
    ensures r == [] <==>
      contentDisposition.None? || contentDisposition.value == []
      || forall i: nat :: i <= |contentDisposition.value| ==> FilenameAt(contentDisposition.value, i).None?
    ensures r != [] ==> (contentDisposition.Some? &&
      var h := contentDisposition.value;
      exists i: nat :: i <= |h| && FilenameAt(h, i).Some?
        && (forall k: nat :: k < i ==> FilenameAt(h, k).None?)
        && r == NameExtension(FilenameAt(h, i).value))
  {
    if contentDisposition.None? || contentDisposition.value == [] then ""
    else
      var header := contentDisposition.value;
      match FirstMatch(FilenameMatcher(header), 0, |header|)
      case None => ""
      case Some((_, name)) => NameExtension(name)
  }

  /** A header holding `filename=`, an optional quote, a name and then a
      quote or the end, with no earlier `filename=`, yields that name's
      extension, whatever surrounds it (`attachment; filename="clip.MP4"`). */
  lemma {:induction false} GetExtensionOfFilename(pre: string, quote: string, name: string, post: string)
    requires !Contains(pre, "filename=")
    requires quote == "" || quote == "\""
    requires |name| > 0 && '"' !in name
    requires post == [] || post[0] == '"'
    ensures GetExtension(Some(pre + "filename=" + quote + name + post)) == NameExtension(name)
  {
    var a := pre + "filename=" + quote;
    var h := a + name + post;
    var j := |pre| + 9;
    assert h[|pre|..j] == "filename=";
    assert quote != [] ==> h[j] == '"';
    assert quote == [] ==> h[j] == name[0];
    QuoteFreeRunAppend(a, name, post);
    assert h[|a|..|a| + |name|] == name;
    assert FilenameAt(h, |pre|) == Some(name);
    NoKeyBefore(pre, h);
    FirstMatchIsLeftmost(FilenameMatcher(h), |h|, |pre|);
  }

  /** The bare quoted form `filename="<name>"`. */
  lemma {:induction false} GetExtensionOfQuotedName(name: string)
    requires |name| > 0 && '"' !in name
    ensures GetExtension(Some("filename=\"" + name + "\"")) == NameExtension(name)
  {
    var header := "filename=\"" + name + "\"";
    assert header[..9] == "filename=";
    assert header[9] == '"';
    QuoteFreeRunAppend("filename=\"", name, "\"");
    assert header[10..10 + |name|] == name;
    assert FilenameAt(header, 0) == Some(name);
    FirstMatchIsLeftmost(FilenameMatcher(header), |header|, 0);
  }

  /** No `filename=` starts inside `pre` when `pre` holds none and the text
      after it starts with the key: a match reaching past `pre` would need an
      `f` inside "filename=" after its first letter. */
  lemma NoKeyBefore(pre: string, h: string)
    requires !Contains(pre, "filename=")
    requires OccursAt(h, "filename=", |pre|) && h[..|pre|] == pre
    ensures forall k: nat :: k < |pre| ==> FilenameAt(h, k).None?
  {
    forall k: nat | k < |pre|
      ensures !OccursAt(h, "filename=", k)
    {
      if k + 9 <= |pre| {
        assert h[k..k + 9] == pre[k..k + 9];
        assert !OccursAt(pre, "filename=", k);
      } else {
        assert h[|pre|] == 'f';
        assert k + 9 <= |h| ==> h[k..k + 9][|pre| - k] == h[|pre|];
      }
    }
  }

  lemma {:induction false} QuoteFreeRunAppend(a: string, text: string, b: string)
    requires '"' !in text
    requires b == [] || b[0] == '"'
    ensures QuoteFreeRun(a + text + b, |a|) == |a| + |text|
    decreases |text|
  {
    if text != [] {
      assert a + text + b == (a + text[..1]) + text[1..] + b;
      QuoteFreeRunAppend(a + text[..1], text[1..], b);
    }
  }

  /** A name without any dot falls back to ".dat". */
  lemma DotlessNameGivesDat(name: string)
    requires |name| > 0 && '"' !in name && '.' !in name
    ensures GetExtension(Some("filename=\"" + name + "\"")) == ".dat"
  {
    GetExtensionOfQuotedName(name);
    assert LastIndexOf(name, '.') == -1;
  }

  /** So does a dot-file name such as `.jpg`: `splitext` finds no extension
      in it. */
  lemma DotFileNameGivesDat(name: string)
    requires |name| > 0 && name[0] == '.' && '"' !in name && '/' !in name && '.' !in name[1..]
    ensures GetExtension(Some("filename=\"" + name + "\"")) == ".dat"
  {
    GetExtensionOfQuotedName(name);
    DotFileHasNoExt(name);
  }
}
