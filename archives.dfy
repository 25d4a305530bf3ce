/** src/core.py `_handle_zips`: the names given to the members of each
    archive and the rows synthesised for them. Extraction, the directory walk
    and the moves are abstract: each archive comes with the walk's file lists,
    directory by directory, or with the failure that stopped it. */
module Archives {
  import opened Wrappers
  import opened Text
  import opened Paths
  import opened Utils
  import opened Manifest

  /** What extracting and walking one archive gave. `Unreadable`: opening or
      extracting raised (a bad or missing archive), so no member is moved.
      `Walked`: the file lists the walk yields, one per directory, and
      `Some(n)` when moving the member after the first `n` raised (an `n`
      at or past the number of members means no move raised). */
  datatype Extraction =
    | Unreadable
    | Walked(batches: seq<seq<string>>, movedBeforeFailure: Option<nat>)

  // ---------------------------------------------------------------------------
  // Member numbering
  // ---------------------------------------------------------------------------

  /** The non-system entries of one directory's file list, in order, each with
      its 1-based `enumerate` position in the whole list. */
  function Survivors(batch: seq<string>): seq<(nat, string)>
    decreases |batch|
  {
    if batch == [] then []
    else
      var last := batch[|batch| - 1];
      Survivors(batch[..|batch| - 1]) + (if IsSystemFile(last) then [] else [(|batch|, last)])
  }

  /** Each survivor is a non-system entry standing at its own position. */
  lemma {:induction false} SurvivorsAreEntries(batch: seq<string>)
    ensures forall k :: 0 <= k < |Survivors(batch)| ==>
      var m := Survivors(batch)[k]; 1 <= m.0 <= |batch| && batch[m.0 - 1] == m.1 && !IsSystemFile(m.1)
    decreases |batch|
  {
    if batch != [] {
      var init := batch[..|batch| - 1];
      var last := batch[|batch| - 1];
      SurvivorsAreEntries(init);
      var r0 := Survivors(init);
      var r := Survivors(batch);
      assert r == r0 + (if IsSystemFile(last) then [] else [(|batch|, last)]);
      forall k | 0 <= k < |r|
        ensures 1 <= r[k].0 <= |batch| && batch[r[k].0 - 1] == r[k].1 && !IsSystemFile(r[k].1)
      {
        if k < |r0| {
          var m := r0[k];
          assert r[k] == m;
          assert 1 <= m.0 <= |init| && init[m.0 - 1] == m.1 && !IsSystemFile(m.1);
          assert init[m.0 - 1] == batch[m.0 - 1];
        }
      }
    }
  }

  /** Every non-system entry survives, under its own position. */
  lemma {:induction false} SurvivorsComplete(batch: seq<string>, k: nat)
    requires k < |batch| && !IsSystemFile(batch[k])
    ensures (k + 1, batch[k]) in Survivors(batch)
    decreases |batch|
  {
    var init := batch[..|batch| - 1];
    if k < |batch| - 1 {
      assert init[k] == batch[k];
      SurvivorsComplete(init, k);
    }
  }

  /** Positions strictly increase, so no two members of one directory share a number. */
  lemma {:induction false} SurvivorsIncreasing(batch: seq<string>)
    ensures forall a, b :: 0 <= a < b < |Survivors(batch)| ==> Survivors(batch)[a].0 < Survivors(batch)[b].0
    decreases |batch|
  {
    if batch != [] {
      var init := batch[..|batch| - 1];
      var last := batch[|batch| - 1];
      SurvivorsIncreasing(init);
      SurvivorsAreEntries(init);
      var r0 := Survivors(init);
      var r := Survivors(batch);
      assert r == r0 + (if IsSystemFile(last) then [] else [(|batch|, last)]);
      forall a, b | 0 <= a < b < |r|
        ensures r[a].0 < r[b].0
      {
        assert r[a] == r0[a];
        assert r0[a].0 <= |init|;
        if b < |r0| {
          assert r[b] == r0[b];
          assert r0[a].0 < r0[b].0;
        } else {
          assert r[b].0 == |batch|;
        }
      }
    }
  }

  /** Without system entries the numbers run 1, 2, ... with no gap. */
  lemma {:induction false} SurvivorsWithoutSkips(batch: seq<string>)
    requires forall k :: 0 <= k < |batch| ==> !IsSystemFile(batch[k])
    ensures |Survivors(batch)| == |batch|
    ensures forall k {:trigger Survivors(batch)[k]} :: 0 <= k < |batch| ==> Survivors(batch)[k] == (k + 1, batch[k])
    decreases |batch|
  {
    if batch != [] {
      var init := batch[..|batch| - 1];
      var last := batch[|batch| - 1];
      SurvivorsWithoutSkips(init);
      var r0 := Survivors(init);
      var r := Survivors(batch);
      assert !IsSystemFile(last);
      assert r == r0 + [(|batch|, last)];
      forall k | 0 <= k < |batch|
        ensures r[k] == (k + 1, batch[k])
      {
        if k < |init| {
          assert r[k] == r0[k] && init[k] == batch[k];
        }
      }
    }
  }

  /** The survivors of a shorter list are a prefix of the survivors of the whole. */
  lemma {:induction false} SurvivorsOfPrefix(batch: seq<string>, e: nat)
    requires e <= |batch|
    ensures Survivors(batch[..e]) <= Survivors(batch)
    decreases |batch| - e
  {
    if e < |batch| {
      SurvivorsOfPrefix(batch, e + 1);
      assert batch[..e + 1][..e] == batch[..e];
    } else {
      assert batch[..e] == batch;
    }
  }

  /** The members of a walk in order: each directory's survivors, numbered afresh. */
  function WalkMembers(batches: seq<seq<string>>): seq<(nat, string)>
    decreases |batches|
  {
    if batches == [] then []
    else WalkMembers(batches[..|batches| - 1]) + Survivors(batches[|batches| - 1])
  }

  /** Numbering restarts in every directory: two directories whose first
      entries survive both yield a member numbered 1, and with equal
      extensions the two get the same final name. */
  lemma OrdinalsRestartPerDirectory(zipName: string, first: string, second: string)
    requires !IsSystemFile(first) && !IsSystemFile(second)
    ensures WalkMembers([[first], [second]]) == [(1, first), (1, second)]
    ensures Ext(first) == Ext(second) ==> MemberName(zipName, 1, first) == MemberName(zipName, 1, second)
  {
    assert [[first], [second]][..1] == [[first]];
    assert [[first]][..0] == [];
    assert [first][..0] == [] && [second][..0] == [];
    assert Survivors([first]) == [(1, first)];
    assert Survivors([second]) == [(1, second)];
    assert WalkMembers([[first]]) == [(1, first)];
  }

  lemma {:induction false} WalkMembersGrow(batches: seq<seq<string>>, b: nat)
    requires b <= |batches|
    ensures WalkMembers(batches[..b]) <= WalkMembers(batches)
    decreases |batches| - b
  {
    if b < |batches| {
      WalkMembersGrow(batches, b + 1);
      assert batches[..b + 1][..b] == batches[..b];
    } else {
      assert batches[..b] == batches;
    }
  }

  // ---------------------------------------------------------------------------
  // Member names and rows
  // ---------------------------------------------------------------------------

  /** `f"{zip_file_name}_extracted_{i + 1}{extension}"`. */
  function MemberName(zipName: string, ordinal: nat, entry: string): string {
    zipName + "_extracted_" + NatToString(ordinal) + Ext(entry)
  }

  /** The row for a moved member: the archive's row with the member's name
      (extension stripped), its new path, not an archive, and extracted. */
  function MemberRow(parent: Row, dir: string, ordinal: nat, entry: string): (r: Row)
    ensures r.(fileName := parent.fileName, filePath := parent.filePath,
               isZip := parent.isZip, isExtracted := parent.isExtracted) == parent
    ensures !r.isZip && r.isExtracted
    ensures r.filePath == Some(Join(dir, MemberName(parent.fileName, ordinal, entry)))
  {
    var final := MemberName(parent.fileName, ordinal, entry);
    parent.(fileName := Stem(final), filePath := Some(Join(dir, final)), isZip := false, isExtracted := true)
  }

  /** A member's row is named `<archive>_extracted_<n>`, a name containing
      "extracted", and its path ends in the final name, when the archive's
      name is a plain name whose dots cannot be taken for the member's
      extension. */
  lemma {:induction false} MemberRowNaming(parent: Row, dir: string, ordinal: nat, entry: string)
    requires PlainName(parent.fileName)
    requires Ext(entry) == [] ==> '.' !in parent.fileName
    ensures var r := MemberRow(parent, dir, ordinal, entry);
      && r.fileName == parent.fileName + "_extracted_" + NatToString(ordinal)
      && Contains(r.fileName, "extracted")
      && Basename(r.filePath.value) == MemberName(parent.fileName, ordinal, entry)
  {
    var name := parent.fileName + "_extracted_" + NatToString(ordinal);
    var ext := Ext(entry);
    ExtractedNameShape(parent.fileName, NatToString(ordinal));
    SplitExtOfNamePlusExt(name, ext);
    NoSlashInNamePlusExt(name, ext);
    BasenameOfJoin(dir, name + ext);
  }

  /** `<zip>_extracted_<digits>` is a plain name mentioning "extracted", and
      dotless when the archive's name is. */
  lemma ExtractedNameShape(zipName: string, digits: string)
    requires PlainName(zipName)
    requires forall k :: 0 <= k < |digits| ==> IsDigit(digits[k])
    ensures PlainName(zipName + "_extracted_" + digits)
    ensures '.' !in zipName ==> '.' !in zipName + "_extracted_" + digits
    ensures Contains(zipName + "_extracted_" + digits, "extracted")
  {
    var name := zipName + "_extracted_" + digits;
    forall k | 0 <= k < |name|
      ensures name[k] != '/' && (name[k] == '.' ==> '.' in zipName)
    {
      if k < |zipName| {
        assert name[k] == zipName[k];
      } else if k >= |zipName| + 11 {
        assert name[k] == digits[k - |zipName| - 11];
      } else {
        assert name[k] == "_extracted_"[k - |zipName|];
      }
    }
    assert name[0] == zipName[0];
    ContainsMiddle(zipName + "_", "extracted", "_" + digits);
    assert zipName + "_" + "extracted" + ("_" + digits) == name;
  }

  lemma NoSlashInNamePlusExt(name: string, ext: string)
    requires '/' !in name && ExtShaped(ext)
    ensures '/' !in name + ext
  {
    forall k | 0 <= k < |name + ext|
      ensures (name + ext)[k] != '/'
    {
      if k >= |name| {
        assert (name + ext)[k] == ext[k - |name|];
      }
    }
  }

  /** The rows for a sequence of members, in order. */
  function MemberRows(parent: Row, dir: string, members: seq<(nat, string)>): (r: seq<Row>)
    ensures |r| == |members|
    decreases |members|
  {
    if members == [] then []
    else
      var last := members[|members| - 1];
      MemberRows(parent, dir, members[..|members| - 1]) + [MemberRow(parent, dir, last.0, last.1)]
  }

  /** The rows one archive contributes, and whether it counts as completed:
      nothing from an unreadable archive; from a walk, one row per surviving
      member, up to the move that failed, and completed when no move failed. */
  function ArchiveRows(parent: Row, dir: string, x: Extraction): (seq<Row>, bool) {
    match x
    case Unreadable => ([], false)
    case Walked(batches, failure) =>
      var members := WalkMembers(batches);
      if failure.Some? && failure.value < |members| then
        (MemberRows(parent, dir, members[..failure.value]), false)
      else
        (MemberRows(parent, dir, members), true)
  }

  /** An archive counts as completed exactly when it was walked and no move
      of a member failed; its rows are a prefix of one row per surviving member,
      all of them without a failure, as many as were moved before it
      otherwise. */
  lemma ArchiveRowsContract(parent: Row, dir: string, x: Extraction)
    ensures var r := ArchiveRows(parent, dir, x);
      && (r.1 <==> x.Walked? && (x.movedBeforeFailure.None? || x.movedBeforeFailure.value >= |WalkMembers(x.batches)|))
      && (x.Unreadable? ==> r.0 == [])
      && (x.Walked? ==> r.0 <= MemberRows(parent, dir, WalkMembers(x.batches)))
      && (x.Walked? && (x.movedBeforeFailure.None? || x.movedBeforeFailure.value >= |WalkMembers(x.batches)|)
          ==> r.0 == MemberRows(parent, dir, WalkMembers(x.batches)))
      && (x.Walked? && x.movedBeforeFailure.Some? && x.movedBeforeFailure.value < |WalkMembers(x.batches)|
          ==> |r.0| == x.movedBeforeFailure.value)
  {
    if x.Walked? && x.movedBeforeFailure.Some? && x.movedBeforeFailure.value < |WalkMembers(x.batches)| {
      MemberRowsOfPrefix(parent, dir, WalkMembers(x.batches), x.movedBeforeFailure.value);
    }
  }

  lemma {:induction false} MemberRowsOfPrefix(parent: Row, dir: string, members: seq<(nat, string)>, n: nat)
    requires n <= |members|
    ensures MemberRows(parent, dir, members[..n]) <= MemberRows(parent, dir, members)
    decreases |members| - n
  {
    if n < |members| {
      MemberRowsOfPrefix(parent, dir, members, n + 1);
      assert members[..n + 1][..n] == members[..n];
    } else {
      assert members[..n] == members;
    }
  }

  /** The loops of one archive: walk the directories, enumerate each file
      list, skip system entries and move the rest, stopping at a failed move. */
  method ExpandArchive(parent: Row, dir: string, x: Extraction) returns (rows: seq<Row>, completed: bool)
    ensures (rows, completed) == ArchiveRows(parent, dir, x)
  {
    if x.Unreadable? {
      return [], false;
    }
    var stopped;
    rows, stopped := ExpandWalk(parent, dir, x.batches, x.movedBeforeFailure);
    completed := !stopped;
    if stopped {
      ArchiveRowsStopped(parent, dir, x, WalkMembers(x.batches)[..x.movedBeforeFailure.value]);
    } else {
      ArchiveRowsWhole(parent, dir, x);
    }
  }

  /** The directory loop of one walk: it stops exactly when a move fails
      before the last member, keeping the rows of the members moved before. */
  method ExpandWalk(parent: Row, dir: string, batches: seq<seq<string>>, failure: Option<nat>)
    returns (rows: seq<Row>, stopped: bool)
    ensures stopped <==> failure.Some? && failure.value < |WalkMembers(batches)|
    ensures stopped ==> rows == MemberRows(parent, dir, WalkMembers(batches)[..failure.value])
    ensures !stopped ==> rows == MemberRows(parent, dir, WalkMembers(batches))
  {
    ghost var seen: seq<(nat, string)> := [];
    rows := [];
    for b := 0 to |batches|
      invariant seen == WalkMembers(batches[..b])
      invariant rows == MemberRows(parent, dir, seen)
      invariant failure.Some? ==> |seen| <= failure.value
    {
      WalkMembersStep(batches, b);
      ghost var before := seen;
      rows, stopped, seen := ExpandDirectory(parent, dir, batches[b], failure, seen, rows);
      if stopped {
        WalkMembersGrow(batches, b + 1);
        PrefixOfPrefix(before + Survivors(batches[b]), WalkMembers(batches), failure.value);
        return;
      }
    }
    PrefixWhole(batches);
    stopped := false;
  }

  /** A walk cut short by a failed move keeps the rows of the members moved before it. */
  lemma ArchiveRowsStopped(parent: Row, dir: string, x: Extraction, seen: seq<(nat, string)>)
    requires x.Walked? && x.movedBeforeFailure.Some?
    requires x.movedBeforeFailure.value < |WalkMembers(x.batches)|
    requires seen == WalkMembers(x.batches)[..x.movedBeforeFailure.value]
    ensures ArchiveRows(parent, dir, x) == (MemberRows(parent, dir, seen), false)
  {
  }

  /** A walk with no failed move keeps the rows of every member. */
  lemma ArchiveRowsWhole(parent: Row, dir: string, x: Extraction)
    requires x.Walked?
    requires x.movedBeforeFailure.Some? ==> |WalkMembers(x.batches)| <= x.movedBeforeFailure.value
    ensures ArchiveRows(parent, dir, x) == (MemberRows(parent, dir, WalkMembers(x.batches)), true)
  {
  }

  lemma WalkMembersStep(batches: seq<seq<string>>, b: nat)
    requires b < |batches|
    ensures WalkMembers(batches[..b + 1]) == WalkMembers(batches[..b]) + Survivors(batches[b])
  {
    assert batches[..b + 1][..b] == batches[..b];
  }

  lemma PrefixOfPrefix<T>(part: seq<T>, whole: seq<T>, n: nat)
    requires part <= whole && n <= |part|
    ensures part[..n] == whole[..n]
  {
  }

  /** The inner loop over one directory's file list, continuing from the
      members `before` already moved. It stops at the move that fails, after
      `failure` members in all. */
  method ExpandDirectory(parent: Row, dir: string, batch: seq<string>, failure: Option<nat>,
                         ghost before: seq<(nat, string)>, rows0: seq<Row>)
    returns (rows: seq<Row>, stopped: bool, ghost seen: seq<(nat, string)>)
    requires rows0 == MemberRows(parent, dir, before)
    requires failure.Some? ==> |before| <= failure.value
    ensures rows == MemberRows(parent, dir, seen)
    ensures !stopped ==> seen == before + Survivors(batch) && (failure.Some? ==> |seen| <= failure.value)
    ensures stopped ==> (failure.Some? && failure.value < |before + Survivors(batch)|
                         && seen == (before + Survivors(batch))[..failure.value])
  {
    seen := before;
    rows := rows0;
    for e := 0 to |batch|
      invariant seen == before + Survivors(batch[..e])
      invariant rows == MemberRows(parent, dir, seen)
      invariant failure.Some? ==> |seen| <= failure.value
    {
      SurvivorsStep(batch, e);
      var entry := batch[e];
      if !IsSystemFile(entry) {
        var member: (nat, string) := (e + 1, entry);
        AppendAssoc(before, Survivors(batch[..e]), member);
        assert |rows| == |seen|;
        if failure.Some? && failure.value == |rows| {
          SurvivorsOfPrefix(batch, e + 1);
          PrefixOfLonger(seen, member, before, Survivors(batch[..e + 1]), Survivors(batch));
          return rows, true, seen;
        }
        MemberRowsSnoc(parent, dir, seen, member);
        assert failure.Some? ==> |seen| < failure.value;
        seen := seen + [member];
        rows := rows + [MemberRow(parent, dir, member.0, member.1)];
      }
    }
    PrefixWhole(batch);
    stopped := false;
  }

  lemma AppendAssoc<T>(a: seq<T>, b: seq<T>, m: T)
    ensures (a + b) + [m] == a + (b + [m])
  {
  }

  /** The rows of one more member are the rows so far and that member's row. */
  lemma MemberRowsSnoc(parent: Row, dir: string, members: seq<(nat, string)>, m: (nat, string))
    ensures MemberRows(parent, dir, members + [m]) == MemberRows(parent, dir, members) + [MemberRow(parent, dir, m.0, m.1)]
  {
    assert (members + [m])[..|members|] == members;
  }

  /** `s` is a proper prefix of `before + whole` when `s + [m]` is a prefix of it. */
  lemma PrefixOfLonger<T>(s: seq<T>, m: T, before: seq<T>, part: seq<T>, whole: seq<T>)
    requires s + [m] == before + part && part <= whole
    ensures |s| < |before + whole| && s == (before + whole)[..|s|]
  {
    assert (before + part) <= (before + whole);
  }

  /** One more entry adds at most one survivor, under its own position. */
  lemma SurvivorsStep(batch: seq<string>, e: nat)
    requires e < |batch|
    ensures Survivors(batch[..e + 1]) ==
      Survivors(batch[..e]) + (if IsSystemFile(batch[e]) then [] else [(e + 1, batch[e])])
  {
    assert batch[..e + 1][..e] == batch[..e];
  }

  // ---------------------------------------------------------------------------
  // The whole stage
  // ---------------------------------------------------------------------------

  /** The rows `_handle_zips` appends, archive row by archive row in frame
      order; `extract(i)` is what extracting row `i`'s archive gives. */
  function NewRows(rows: seq<Row>, dir: string, extract: nat -> Extraction): seq<Row>
    decreases |rows|
  {
    if rows == [] then []
    else
      var n := |rows| - 1;
      NewRows(rows[..n], dir, extract) + (if rows[n].isZip then ArchiveRows(rows[n], dir, extract(n)).0 else [])
  }

  /** `completed_unzips`. */
  function CompletedUnzips(rows: seq<Row>, dir: string, extract: nat -> Extraction): nat
    decreases |rows|
  {
    if rows == [] then 0
    else
      var n := |rows| - 1;
      CompletedUnzips(rows[..n], dir, extract)
        + (if rows[n].isZip && ArchiveRows(rows[n], dir, extract(n)).1 then 1 else 0)
  }

  /** One more row of the frame adds its archive's rows and completion. */
  lemma StageStep(rows: seq<Row>, i: nat, dir: string, extract: nat -> Extraction)
    requires i < |rows|
    ensures NewRows(rows[..i + 1], dir, extract) ==
      NewRows(rows[..i], dir, extract) + (if rows[i].isZip then ArchiveRows(rows[i], dir, extract(i)).0 else [])
    ensures CompletedUnzips(rows[..i + 1], dir, extract) ==
      CompletedUnzips(rows[..i], dir, extract) + (if rows[i].isZip && ArchiveRows(rows[i], dir, extract(i)).1 then 1 else 0)
  {
    assert rows[..i + 1][..i] == rows[..i];
  }

  /** A row of the frame `r` is the member row of archive row `parent`:
      equal to it except for the four columns a member gets, and with a path. */
  predicate MemberOf(r: Row, parent: Row) {
    && parent.isZip && !r.isZip && r.isExtracted && r.filePath.Some?
    && r.(fileName := parent.fileName, filePath := parent.filePath,
          isZip := parent.isZip, isExtracted := parent.isExtracted) == parent
  }

  /** Every appended row is a member of some archive row of the frame. */
  lemma {:induction false} NewRowsAreMembers(rows: seq<Row>, dir: string, extract: nat -> Extraction)
    ensures forall r :: r in NewRows(rows, dir, extract) ==>
      exists k :: 0 <= k < |rows| && MemberOf(r, rows[k])
    decreases |rows|
  {
    if rows != [] {
      var n := |rows| - 1;
      var init := rows[..n];
      NewRowsAreMembers(init, dir, extract);
      forall r | r in NewRows(rows, dir, extract)
        ensures exists k :: 0 <= k < |rows| && MemberOf(r, rows[k])
      {
        if r in NewRows(init, dir, extract) {
          var k :| 0 <= k < |init| && MemberOf(r, init[k]);
          assert rows[k] == init[k];
        } else {
          assert rows[n].isZip;
          MemberRowsAreMembers(rows[n], dir, extract(n));
          assert MemberOf(r, rows[n]);
        }
      }
    }
  }

  lemma MemberRowsAreMembers(parent: Row, dir: string, x: Extraction)
    requires parent.isZip
    ensures forall r :: r in ArchiveRows(parent, dir, x).0 ==> MemberOf(r, parent)
  {
    ArchiveRowsContract(parent, dir, x);
    if x.Walked? {
      MemberRowsMembers(parent, dir, WalkMembers(x.batches));
    }
  }

  lemma {:induction false} MemberRowsMembers(parent: Row, dir: string, members: seq<(nat, string)>)
    requires parent.isZip
    ensures forall r :: r in MemberRows(parent, dir, members) ==> MemberOf(r, parent)
    decreases |members|
  {
    if members != [] {
      MemberRowsMembers(parent, dir, members[..|members| - 1]);
    }
  }
}
