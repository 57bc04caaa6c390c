/**
 * The two stages together, as the dashboard runs them: the table
 * `process_data` returns is handed to `check_missing_branches`.
 */
module Pipeline {
  import opened Outcomes
  import opened Text
  import opened Duration
  import opened Extractor
  import opened Reconciler

  /** The reconciler reads back every Time Difference of a successful extraction. */
  lemma PipelineNeverBadDuration(rows: seq<UploadRow>, now: int)
    requires ProcessData(rows, now).Ok?
    ensures FlagRecords(ProcessData(rows, now).value).Ok?
  {
    ProcessDataRecords(rows, now);
    ExtractedTimesParse(ProcessData(rows, now).value, LatestApplied(rows), now);
  }

  /**
   * `out` has the shape `process_data` gives the records of the groups `gs`
   * (see `Extractor.ProcessDataRecords`): one record per group, whose Time
   * Difference is missing in the short form and otherwise is the group's
   * elapsed-time text.
   */
  predicate Extracted(out: seq<BranchRecord>, gs: seq<ChannelLatest>, now: int)
  {
    && |out| == |gs|
    && forall i :: 0 <= i < |gs| ==>
      && (out[i].timeDifference.None? <==> ShortForm(gs, now))
      && (out[i].timeDifference.Some? ==> out[i].timeDifference.value == FormatElapsed(now - gs[i].latest))
  }

  /**
   * Flagging an extracted table: when every age is a whole number of days, no
   * row has a duration and none is flagged; otherwise every duration is the
   * group's age in whole seconds modulo one day, and the row is flagged exactly
   * when that exceeds thirty minutes.
   */
  lemma ExtractedFlags(out: seq<BranchRecord>, gs: seq<ChannelLatest>, now: int)
    requires Extracted(out, gs, now)
    ensures FlagRecords(out).Ok? && |FlagRecords(out).value| == |out|
    ensures forall i :: 0 <= i < |out| ==>
        && FlagRecords(out).value[i].branchId == out[i].branchId
        && FlagRecords(out).value[i].uploadDate == out[i].uploadDate
    ensures ShortForm(gs, now) ==> forall i :: 0 <= i < |out| ==>
        FlagRecords(out).value[i].timeDifference.None? && FlagRecords(out).value[i].flag == 0
    ensures !ShortForm(gs, now) ==> forall i :: 0 <= i < |out| ==>
        && FlagRecords(out).value[i].timeDifference == Some(ClockSeconds(now - gs[i].latest))
        && (FlagRecords(out).value[i].flag == 1 <==> ClockSeconds(now - gs[i].latest) > LateThreshold)
  {
    ExtractedTimesParse(out, gs, now);
  }

  /** The output of `process_data` has that shape, for its own groups. */
  lemma ProcessDataExtracted(rows: seq<UploadRow>, now: int)
    requires ProcessData(rows, now).Ok?
    ensures Extracted(ProcessData(rows, now).value, LatestApplied(rows), now)
  {
    ProcessDataRecords(rows, now);
  }

  /**
   * A log whose only row is an Applied upload made at `now` gives an age
   * column of whole days only: the one record has no Time Difference, reads
   * back as NaT and is not flagged.
   */
  lemma UploadedNow(rows: seq<UploadRow>, now: int, ch: string)
    requires rows == [UploadRow(AppliedStatus, ch, now)] && HasDigit(ch)
    ensures ProcessData(rows, now).Ok?
    ensures ProcessData(rows, now).value == [BranchRecord(BranchId(ch).value, now, None)]
    ensures FlagRecords(ProcessData(rows, now).value) == Ok([FlaggedRecord(BranchId(ch).value, now, None, 0)])
  {
    assert rows[1..] == [];
    assert Applied(rows) == rows;
    assert GroupLatest(rows[1..]) == [];
    assert GroupLatest(rows) == Upsert([], ch, now);
    var gs := LatestApplied(rows);
    assert gs == [ChannelLatest(ch, now)];
    assert WholeDays(now - gs[0].latest);
    assert ShortForm(gs, now);
    var out := ProcessData(rows, now).value;
    DeriveAt(gs, now, 0);
    var rec := BranchRecord(BranchId(ch).value, now, None);
    assert out == [rec];
    assert FlagRecord(rec) == Ok(FlaggedRecord(rec.branchId, now, None, 0));
    assert FlagRecords(out).Ok?;
    var flagged := FlagRecords(out).value;
    assert |flagged| == 1 && flagged[0] == FlagRecord(rec).value;
    assert flagged == [FlaggedRecord(rec.branchId, now, None, 0)];
  }

  lemma ExtractedTimesParse(out: seq<BranchRecord>, gs: seq<ChannelLatest>, now: int)
    requires Extracted(out, gs, now)
    ensures forall i :: 0 <= i < |out| ==> Readable(out[i])
    ensures forall i :: 0 <= i < |out| && out[i].timeDifference.Some? ==>
      ParseClock(out[i].timeDifference.value) == Ok(ClockSeconds(now - gs[i].latest))
  {
    forall i | 0 <= i < |out| && out[i].timeDifference.Some?
      ensures ParseClock(out[i].timeDifference.value) == Ok(ClockSeconds(now - gs[i].latest))
    {
      FormattedParses(out[i].timeDifference.value, now - gs[i].latest);
    }
  }

  lemma FormattedParses(t: string, elapsed: int)
    requires t == FormatElapsed(elapsed)
    ensures ParseClock(t) == Ok(ClockSeconds(elapsed))
  {
    FormatElapsedParses(elapsed);
  }

  /**
   * After a successful extraction the reconciliation succeeds, and a registry branch is reported with null
   * date and duration exactly when it is not excluded and no Applied row's
   * channel carries its Branch ID.
   */
  lemma PipelineAbsent(rows: seq<UploadRow>, now: int, registry: seq<RegistryEntry>, excluded: set<string>, k: string)
    requires ProcessData(rows, now).Ok?
    ensures FlagRecords(ProcessData(rows, now).value).Ok?
    ensures FlagRecords(ProcessData(rows, now).value).Ok? &&
      var all := FlagRecords(ProcessData(rows, now).value).value;
      MissedRecord(k, None, None) in Missed(all, registry, excluded) <==>
        (&& k in RegistryKeys(registry) && k !in excluded
         && forall r :: r in Applied(rows) ==> BranchId(r.channel) != Some(k))
  {
    PipelineNeverBadDuration(rows, now);
    var out := ProcessData(rows, now).value;
    MissedAbsentRow(FlagRecords(out).value, registry, excluded, k);
    FlaggedIds(out, k);
    ProcessDataIds(rows, now, k);
  }

  /** An extracted row exactly thirty minutes old is not flagged. */
  lemma AtThreshold(rec: BranchRecord, age: int)
    requires age == 1_800_000_000 && rec.timeDifference == Some(FormatElapsed(age))
    ensures FlagRecord(rec).Ok? && FlagRecord(rec).value.timeDifference == Some(1800)
    ensures FlagRecord(rec).value.flag == 0
  {
    FormatElapsedParses(age);
    WholeSeconds(age, 1800);
  }

  /** One second more and it is. */
  lemma PastThreshold(rec: BranchRecord, age: int)
    requires age == 1_801_000_000 && rec.timeDifference == Some(FormatElapsed(age))
    ensures FlagRecord(rec).Ok? && FlagRecord(rec).value.timeDifference == Some(1801)
    ensures FlagRecord(rec).value.flag == 1
  {
    FormatElapsedParses(age);
    WholeSeconds(age, 1801);
  }

  /**
   * The day count is dropped: an upload one day and ten minutes old reads as
   * ten minutes and is not flagged.
   */
  lemma DayIsDropped(rec: BranchRecord, age: int)
    requires age == 87_000_000_000 && rec.timeDifference == Some(FormatElapsed(age))
    ensures FlagRecord(rec).Ok? && FlagRecord(rec).value.timeDifference == Some(600)
    ensures FlagRecord(rec).value.flag == 0
  {
    FormatElapsedParses(age);
    OneDayTenMinutes(age);
  }

  lemma WholeSeconds(age: int, s: nat)
    requires s < SecondsPerDay && age == s * 1_000_000
    ensures ClockSeconds(age) == s
  {
  }

  lemma OneDayTenMinutes(age: int)
    requires age == 87_000_000_000
    ensures ClockSeconds(age) == 600
  {
    var q := 87_000;
    assert age == q * 1_000_000;
    assert age / 1_000_000 == q;
  }
}
