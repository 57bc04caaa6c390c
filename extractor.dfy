/**
 * The extractor, `process_data` (data_processing.py:48-97): from the rows of an
 * upload log to one record per channel that has an Applied upload, in channel
 * order, with its Branch ID, latest upload time and elapsed-time text.
 *
 * The spreadsheet arrives already typed (reading the workbook and parsing date
 * text are not part of this model) and the current time is a parameter.
 */
module Extractor {
  import opened Outcomes
  import opened Text
  import opened Duration

  /** One row of the upload log: `Status`, `Channel database`, `Date uploaded` (microseconds). */
  datatype UploadRow = UploadRow(status: string, channel: string, uploaded: int)

  /** One group of `groupby("Channel database").max()`: a channel and its latest upload time. */
  datatype ChannelLatest = ChannelLatest(channel: string, latest: int)

  /**
   * One row of the extractor's result: `Branch ID`, `Upload Date`, `Time
   * Difference` (None when the text search found nothing, a NaN in the frame).
   */
  datatype BranchRecord = BranchRecord(branchId: string, uploadDate: int, timeDifference: Option<string>)

  const AppliedStatus: string := "Applied"

  function Max(a: int, b: int): int { if a < b then b else a }

  /** The rows whose status is exactly "Applied" (data_processing.py:62). */
  function Applied(rows: seq<UploadRow>): (r: seq<UploadRow>)
    ensures forall x :: x in r <==> x in rows && x.status == AppliedStatus
  {
    if rows == [] then []
    else
      assert rows == [rows[0]] + rows[1..];
      (if rows[0].status == AppliedStatus then [rows[0]] else []) + Applied(rows[1..])
  }

  /** The channels of a list of groups. */
  function Keys(gs: seq<ChannelLatest>): set<string>
  {
    set g | g in gs :: g.channel
  }

  /** Groups in strictly ascending channel order, so no channel occurs twice. */
  ghost predicate StrictlySorted(gs: seq<ChannelLatest>)
  {
    forall i, j :: 0 <= i < j < |gs| ==> LexLess(gs[i].channel, gs[j].channel)
  }

  /** The channels among the Applied rows of the log. */
  function AppliedChannels(rows: seq<UploadRow>): set<string>
  {
    set r | r in rows && r.status == AppliedStatus :: r.channel
  }

  /** t is the latest upload time among the rows of `rows` for channel ch. */
  ghost predicate IsLatestOf(rows: seq<UploadRow>, ch: string, t: int)
  {
    && (exists r :: r in rows && r.channel == ch && r.uploaded == t)
    && (forall r :: r in rows && r.channel == ch ==> r.uploaded <= t)
  }

  /** Adds one upload to groups kept in channel order: a new channel is inserted in place, a known one keeps its maximum. */
  function Upsert(gs: seq<ChannelLatest>, ch: string, at: int): seq<ChannelLatest>
  {
    if gs == [] then [ChannelLatest(ch, at)]
    else if gs[0].channel == ch then [ChannelLatest(ch, Max(gs[0].latest, at))] + gs[1..]
    else if LexLess(ch, gs[0].channel) then [ChannelLatest(ch, at)] + gs
    else [gs[0]] + Upsert(gs[1..], ch, at)
  }

  /**
   * `groupby("Channel database").max()` followed by `sort_values("Channel database")`
   * (data_processing.py:64-65): one group per channel, in ascending channel order.
   */
  function GroupLatest(rows: seq<UploadRow>): seq<ChannelLatest>
  {
    if rows == [] then [] else Upsert(GroupLatest(rows[1..]), rows[0].channel, rows[0].uploaded)
  }

  lemma KeysOfCons(g: ChannelLatest, gs: seq<ChannelLatest>)
    ensures Keys([g] + gs) == {g.channel} + Keys(gs)
  {
    assert forall x :: x in [g] + gs <==> x == g || x in gs;
  }

  /**
   * Upsert keeps the groups sorted, adds ch to the channels, leaves every other
   * group as it was and gives ch the maximum of its old time (if any) and `at`.
   */
  ghost predicate UpsertPost(gs: seq<ChannelLatest>, ch: string, at: int, r: seq<ChannelLatest>)
  {
    && StrictlySorted(r)
    && Keys(r) == Keys(gs) + {ch}
    && (forall g :: g in r && g.channel != ch ==> g in gs)
    && (forall g :: g in r && g.channel == ch ==>
         || (ch !in Keys(gs) && g.latest == at)
         || (exists g0 :: g0 in gs && g0.channel == ch && g.latest == Max(g0.latest, at)))
  }

  lemma {:induction false} UpsertSpec(gs: seq<ChannelLatest>, ch: string, at: int)
    requires StrictlySorted(gs)
    ensures UpsertPost(gs, ch, at, Upsert(gs, ch, at))
  {
    if gs == [] {
    } else if gs[0].channel == ch {
      UpsertReplace(gs, ch, at);
    } else if LexLess(ch, gs[0].channel) {
      UpsertInsert(gs, ch, at);
    } else {
      UpsertSpec(gs[1..], ch, at);
      UpsertSkip(gs, ch, at);
    }
  }

  lemma UpsertReplace(gs: seq<ChannelLatest>, ch: string, at: int)
    requires StrictlySorted(gs) && gs != [] && gs[0].channel == ch
    ensures UpsertPost(gs, ch, at, Upsert(gs, ch, at))
  {
    var r := Upsert(gs, ch, at);
    assert gs == [gs[0]] + gs[1..];
    KeysOfCons(gs[0], gs[1..]);
    KeysOfCons(r[0], gs[1..]);
    SortedTailKeys(gs);
  }

  lemma UpsertInsert(gs: seq<ChannelLatest>, ch: string, at: int)
    requires StrictlySorted(gs) && gs != [] && LexLess(ch, gs[0].channel)
    ensures UpsertPost(gs, ch, at, Upsert(gs, ch, at))
  {
    forall j | 0 < j < |gs| ensures LexLess(ch, gs[j].channel) {
      LexTransitive(ch, gs[0].channel, gs[j].channel);
    }
    KeysOfCons(ChannelLatest(ch, at), gs);
    forall g | g in gs ensures g.channel != ch {
      var j :| 0 <= j < |gs| && gs[j] == g;
      LexIrreflexive(ch);
    }
  }

  lemma UpsertSkip(gs: seq<ChannelLatest>, ch: string, at: int)
    requires StrictlySorted(gs) && gs != [] && gs[0].channel != ch && !LexLess(ch, gs[0].channel)
    requires UpsertPost(gs[1..], ch, at, Upsert(gs[1..], ch, at))
    ensures UpsertPost(gs, ch, at, Upsert(gs, ch, at))
  {
    var tail := Upsert(gs[1..], ch, at);
    var r := Upsert(gs, ch, at);
    assert r == [gs[0]] + tail;
    UpsertSkipSorted(gs, ch, at);
    UpsertSkipGroups(gs, ch, at, gs[1..], tail);
  }

  lemma UpsertSkipGroups(gs: seq<ChannelLatest>, ch: string, at: int, rest: seq<ChannelLatest>, tail: seq<ChannelLatest>)
    requires gs != [] && gs[0].channel != ch && rest == gs[1..]
    requires Keys(tail) == Keys(rest) + {ch}
    requires forall g :: g in tail && g.channel != ch ==> g in rest
    requires forall g :: g in tail && g.channel == ch ==>
         || (ch !in Keys(rest) && g.latest == at)
         || (exists g0 :: g0 in rest && g0.channel == ch && g.latest == Max(g0.latest, at))
    ensures Keys([gs[0]] + tail) == Keys(gs) + {ch}
    ensures forall g :: g in [gs[0]] + tail && g.channel != ch ==> g in gs
    ensures forall g :: g in [gs[0]] + tail && g.channel == ch ==>
         || (ch !in Keys(gs) && g.latest == at)
         || (exists g0 :: g0 in gs && g0.channel == ch && g.latest == Max(g0.latest, at))
  {
    assert gs == [gs[0]] + rest;
    KeysOfCons(gs[0], rest);
    KeysOfCons(gs[0], tail);
    forall g | g in [gs[0]] + tail && g.channel == ch
      ensures || (ch !in Keys(gs) && g.latest == at)
              || (exists g0 :: g0 in gs && g0.channel == ch && g.latest == Max(g0.latest, at))
    {
      assert g in tail;
      if ch in Keys(rest) {
        var g0 :| g0 in rest && g0.channel == ch && g.latest == Max(g0.latest, at);
        assert g0 in gs;
      }
    }
  }

  lemma UpsertSkipSorted(gs: seq<ChannelLatest>, ch: string, at: int)
    requires StrictlySorted(gs) && gs != [] && gs[0].channel != ch && !LexLess(ch, gs[0].channel)
    requires StrictlySorted(Upsert(gs[1..], ch, at))
    requires Keys(Upsert(gs[1..], ch, at)) == Keys(gs[1..]) + {ch}
    ensures StrictlySorted([gs[0]] + Upsert(gs[1..], ch, at))
  {
    LexTotal(ch, gs[0].channel);
    var tail := Upsert(gs[1..], ch, at);
    forall j | 0 <= j < |tail| ensures LexLess(gs[0].channel, tail[j].channel) {
      var c := tail[j].channel;
      assert c in Keys(tail);
      if c != ch {
        assert c in Keys(gs[1..]);
        var g :| g in gs[1..] && g.channel == c;
        var k :| 0 <= k < |gs[1..]| && gs[1..][k] == g;
        assert gs[k + 1] == g;
      }
    }
  }

  /**
   * The groups are in strictly ascending channel order; a channel has a group
   * exactly when some row has that channel; each group holds the latest time of
   * its channel's rows.
   */
  lemma {:induction false} GroupLatestSpec(rows: seq<UploadRow>)
    ensures StrictlySorted(GroupLatest(rows))
    ensures forall ch :: ch in Keys(GroupLatest(rows)) <==> exists r :: r in rows && r.channel == ch
    ensures forall g :: g in GroupLatest(rows) ==> IsLatestOf(rows, g.channel, g.latest)
  {
    if rows != [] {
      var x := rows[0];
      var rest := rows[1..];
      assert rows == [x] + rest;
      var gs := GroupLatest(rest);
      GroupLatestSpec(rest);
      UpsertSpec(gs, x.channel, x.uploaded);
      var r := GroupLatest(rows);
      assert r == Upsert(gs, x.channel, x.uploaded);
      forall g | g in r ensures IsLatestOf(rows, g.channel, g.latest) {
        if g.channel != x.channel {
          assert g in gs;
          assert IsLatestOf(rest, g.channel, g.latest);
        } else if x.channel !in Keys(gs) && g.latest == x.uploaded {
          forall r' | r' in rows && r'.channel == x.channel ensures r'.uploaded <= g.latest {
          }
        } else {
          var g0 :| g0 in gs && g0.channel == x.channel && g.latest == Max(g0.latest, x.uploaded);
          assert IsLatestOf(rest, g0.channel, g0.latest);
        }
      }
    }
  }

  lemma {:induction false} SortedKeysCount(gs: seq<ChannelLatest>)
    requires StrictlySorted(gs)
    ensures |Keys(gs)| == |gs|
  {
    if gs != [] {
      SortedTail(gs);
      SortedKeysCount(gs[1..]);
      SortedTailKeys(gs);
      KeysOfCons(gs[0], gs[1..]);
      assert gs == [gs[0]] + gs[1..];
    }
  }

  lemma SortedTail(gs: seq<ChannelLatest>)
    requires StrictlySorted(gs) && gs != []
    ensures StrictlySorted(gs[1..])
  {
    forall i, j | 0 <= i < j < |gs| - 1
      ensures LexLess(gs[1..][i].channel, gs[1..][j].channel)
    {
      assert gs[1..][i] == gs[i + 1] && gs[1..][j] == gs[j + 1];
    }
  }

  /** Two strictly sorted group lists with the same channels start with the same channel. */
  lemma SortedHeads(a: seq<ChannelLatest>, b: seq<ChannelLatest>)
    requires StrictlySorted(a) && StrictlySorted(b) && Keys(a) == Keys(b) && a != [] && b != []
    ensures a[0].channel == b[0].channel
  {
    assert a[0].channel in Keys(a) && b[0].channel in Keys(b);
    if a[0].channel != b[0].channel {
      var y :| y in b && y.channel == a[0].channel;
      var j :| 0 <= j < |b| && b[j] == y;
      var x :| x in a && x.channel == b[0].channel;
      var i :| 0 <= i < |a| && a[i] == x;
      assert LexLess(b[0].channel, a[0].channel);
      assert LexLess(a[0].channel, b[0].channel);
      LexTransitive(a[0].channel, b[0].channel, a[0].channel);
      LexIrreflexive(a[0].channel);
    }
  }

  /**
   * Two strictly sorted group lists with the same channels, agreeing on every
   * shared channel, are the same list.
   */
  lemma {:induction false} SortedUnique(a: seq<ChannelLatest>, b: seq<ChannelLatest>)
    requires StrictlySorted(a) && StrictlySorted(b) && Keys(a) == Keys(b)
    requires forall x, y :: x in a && y in b && x.channel == y.channel ==> x == y
    ensures a == b
  {
    SortedKeysCount(a);
    SortedKeysCount(b);
    if a != [] {
      assert b != [];
      SortedHeads(a, b);
      assert a[0] in a && b[0] in b;
      SortedTailsKeys(a, b);
      SortedTail(a);
      SortedTail(b);
      forall x, y | x in a[1..] && y in b[1..] && x.channel == y.channel
        ensures x == y
      {
        assert x in a && y in b;
      }
      SortedUnique(a[1..], b[1..]);
      assert a == [a[0]] + a[1..] && b == [b[0]] + b[1..];
    }
  }

  lemma SortedTailsKeys(a: seq<ChannelLatest>, b: seq<ChannelLatest>)
    requires StrictlySorted(a) && StrictlySorted(b) && Keys(a) == Keys(b) && a != [] && b != []
    requires a[0].channel == b[0].channel
    ensures Keys(a[1..]) == Keys(b[1..])
  {
    assert a == [a[0]] + a[1..] && b == [b[0]] + b[1..];
    KeysOfCons(a[0], a[1..]);
    KeysOfCons(b[0], b[1..]);
    SortedTailKeys(a);
    SortedTailKeys(b);
  }

  lemma SortedTailKeys(gs: seq<ChannelLatest>)
    requires StrictlySorted(gs) && gs != []
    ensures gs[0].channel !in Keys(gs[1..])
  {
    if gs[0].channel in Keys(gs[1..]) {
      var g :| g in gs[1..] && g.channel == gs[0].channel;
      var k :| 0 <= k < |gs[1..]| && gs[1..][k] == g;
      assert LexLess(gs[0].channel, gs[k + 1].channel);
      LexIrreflexive(gs[0].channel);
      assert false;
    }
  }

  lemma LatestUnique(rows: seq<UploadRow>, ch: string, t: int, t': int)
    requires IsLatestOf(rows, ch, t) && IsLatestOf(rows, ch, t')
    ensures t == t'
  {
  }

  /** The grouping depends only on which rows occur, not on their order or repetition. */
  lemma GroupLatestOrderInsensitive(rows: seq<UploadRow>, rows': seq<UploadRow>)
    requires forall r :: r in rows <==> r in rows'
    ensures GroupLatest(rows) == GroupLatest(rows')
  {
    var a := GroupLatest(rows);
    var b := GroupLatest(rows');
    GroupLatestSpec(rows);
    GroupLatestSpec(rows');
    forall x, y | x in a && y in b && x.channel == y.channel ensures x == y {
      assert IsLatestOf(rows, x.channel, x.latest);
      assert IsLatestOf(rows, x.channel, y.latest);
      LatestUnique(rows, x.channel, x.latest, y.latest);
    }
    SortedUnique(a, b);
  }

  /** Branch ID: the first run of digits of the channel, read as an int and printed back (data_processing.py:84-85). */
  function BranchId(channel: string): (r: Option<string>)
    ensures r.None? <==> !HasDigit(channel)
  {
    match FirstDigitRun(channel)
    case None => None
    case Some(run) => Some(Decimal(DigitsValue(run)))
  }

  /**
   * The Branch ID is the channel's first maximal digit run with its leading
   * zeros removed ("0" for a run of zeros): a canonical decimal with the run's value.
   */
  lemma BranchIdSpec(channel: string)
    requires HasDigit(channel)
    ensures var run := FirstDigitRun(channel).value;
      var stripped := StripLeadingZeros(run);
      && IsFirstDigitRun(channel, FirstDigitIndex(channel), run)
      && BranchId(channel) == Some(if stripped == [] then "0" else stripped)
      && Canonical(BranchId(channel).value)
      && DigitsValue(BranchId(channel).value) == DigitsValue(run)
  {
    var run := FirstDigitRun(channel).value;
    NormalizedDigits(run);
    DecimalValue(DigitsValue(run));
  }

  /**
   * pandas prints the age column in its short form, without a clock part, when
   * every age is a whole number of days.
   */
  predicate ShortForm(gs: seq<ChannelLatest>, now: int)
  {
    forall i :: 0 <= i < |gs| ==> WholeDays(now - gs[i].latest)
  }

  /** The record for one group, once its channel is known to hold a digit. */
  function RecordOf(g: ChannelLatest, now: int, shortForm: bool): BranchRecord
    requires HasDigit(g.channel)
  {
    BranchRecord(BranchId(g.channel).value, g.latest, ExtractClock(now - g.latest, shortForm))
  }

  /**
   * The elapsed-time text and Branch ID columns (data_processing.py:73-85); the
   * integer conversion of a missing digit run fails for the whole table.
   */
  function Derive(gs: seq<ChannelLatest>, now: int): (r: Result<seq<BranchRecord>>)
    ensures r.Ok? <==> forall i :: 0 <= i < |gs| ==> HasDigit(gs[i].channel)
    ensures r.Err? ==> r.error == MissingBranchDigits
    ensures r.Ok? ==> (|r.value| == |gs|
      && forall i :: 0 <= i < |gs| ==> HasDigit(gs[i].channel) && r.value[i] == RecordOf(gs[i], now, ShortForm(gs, now)))
  {
    if forall i :: 0 <= i < |gs| ==> HasDigit(gs[i].channel) then
      var shortForm := ShortForm(gs, now);
      Ok(seq(|gs|, i requires 0 <= i < |gs| => RecordOf(gs[i], now, shortForm)))
    else
      Err(MissingBranchDigits)
  }

  /** The per-channel groups `process_data` works on: latest Applied upload per channel, in channel order. */
  function LatestApplied(rows: seq<UploadRow>): seq<ChannelLatest>
  {
    GroupLatest(Applied(rows))
  }

  /** `process_data` (data_processing.py:48-97). */
  function ProcessData(rows: seq<UploadRow>, now: int): (r: Result<seq<BranchRecord>>)
    ensures rows == [] ==> r == Err(EmptyInput)
  {
    if rows == [] then Err(EmptyInput) else Derive(LatestApplied(rows), now)
  }

  /**
   * What the groups of `process_data` are, in terms of the log alone: strictly
   * ascending channels, exactly the channels of Applied rows, one group each,
   * holding the latest Applied upload time of the channel.
   */
  lemma LatestAppliedSpec(rows: seq<UploadRow>)
    ensures StrictlySorted(LatestApplied(rows))
    ensures Keys(LatestApplied(rows)) == AppliedChannels(rows)
    ensures |LatestApplied(rows)| == |AppliedChannels(rows)|
    ensures forall g :: g in LatestApplied(rows) ==> IsLatestOf(Applied(rows), g.channel, g.latest)
  {
    var gs := LatestApplied(rows);
    GroupLatestSpec(Applied(rows));
    forall ch ensures ch in Keys(gs) <==> ch in AppliedChannels(rows) {
      if ch in AppliedChannels(rows) {
        var r :| r in rows && r.status == AppliedStatus && r.channel == ch;
        assert r in Applied(rows);
      }
    }
    SortedKeysCount(gs);
  }

  /**
   * A channel none of whose rows is Applied never yields a record, however
   * recent its other rows are.
   */
  lemma NonAppliedChannelAbsent(rows: seq<UploadRow>, ch: string)
    requires forall r :: r in rows && r.channel == ch ==> r.status != AppliedStatus
    ensures ch !in Keys(LatestApplied(rows))
  {
    LatestAppliedSpec(rows);
  }

  lemma KeyAt(gs: seq<ChannelLatest>, ch: string) returns (i: nat)
    requires ch in Keys(gs)
    ensures i < |gs| && gs[i].channel == ch
  {
    var g :| g in gs && g.channel == ch;
    i :| 0 <= i < |gs| && gs[i] == g;
  }

  /**
   * `process_data` fails on an empty table; on any other table it fails exactly
   * when some Applied channel holds no digit.
   */
  lemma ProcessDataFails(rows: seq<UploadRow>, now: int)
    ensures rows == [] ==> ProcessData(rows, now) == Err(EmptyInput)
    ensures rows != [] ==>
      (ProcessData(rows, now).Ok? <==> forall ch :: ch in AppliedChannels(rows) ==> HasDigit(ch))
    ensures rows != [] && ProcessData(rows, now).Err? ==> ProcessData(rows, now).error == MissingBranchDigits
  {
    var gs := LatestApplied(rows);
    LatestAppliedSpec(rows);
    if rows != [] {
      if forall i :: 0 <= i < |gs| ==> HasDigit(gs[i].channel) {
        forall ch | ch in AppliedChannels(rows) ensures HasDigit(ch) {
          var i := KeyAt(gs, ch);
        }
      }
      if forall ch :: ch in AppliedChannels(rows) ==> HasDigit(ch) {
        forall i | 0 <= i < |gs| ensures HasDigit(gs[i].channel) {
          assert gs[i] in gs;
          assert gs[i].channel in Keys(gs);
        }
      }
    }
  }

  /**
   * A successful `process_data` holds one record per Applied channel, in
   * ascending channel order; each has that channel's Branch ID, its latest
   * Applied upload time and the elapsed-time text for that time, which is
   * missing exactly when every group's age is a whole number of days.
   */
  lemma ProcessDataRecords(rows: seq<UploadRow>, now: int)
    requires ProcessData(rows, now).Ok?
    ensures var out := ProcessData(rows, now).value;
      var gs := LatestApplied(rows);
      && |out| == |gs| == |AppliedChannels(rows)|
      && forall i :: 0 <= i < |out| ==>
        && Some(out[i].branchId) == BranchId(gs[i].channel)
        && out[i].uploadDate == gs[i].latest
        && IsLatestOf(Applied(rows), gs[i].channel, gs[i].latest)
        && (out[i].timeDifference.None? <==> ShortForm(gs, now))
        && (out[i].timeDifference.Some? ==> out[i].timeDifference.value == FormatElapsed(now - gs[i].latest))
  {
    LatestAppliedSpec(rows);
    forall i | 0 <= i < |ProcessData(rows, now).value|
      ensures var out := ProcessData(rows, now).value;
        var gs := LatestApplied(rows);
        && Some(out[i].branchId) == BranchId(gs[i].channel)
        && out[i].uploadDate == gs[i].latest
        && (out[i].timeDifference.None? <==> ShortForm(gs, now))
        && (out[i].timeDifference.Some? ==> out[i].timeDifference.value == FormatElapsed(now - gs[i].latest))
    {
      DeriveAt(LatestApplied(rows), now, i);
    }
  }

  /**
   * The Branch IDs of a successful `process_data` are exactly the Branch IDs
   * of the channels of Applied rows.
   */
  lemma ProcessDataIds(rows: seq<UploadRow>, now: int, k: string)
    requires ProcessData(rows, now).Ok?
    ensures (exists rec :: rec in ProcessData(rows, now).value && rec.branchId == k)
        <==> (exists r :: r in Applied(rows) && BranchId(r.channel) == Some(k))
  {
    ProcessDataRecords(rows, now);
    LatestAppliedSpec(rows);
    RecordIds(ProcessData(rows, now).value, LatestApplied(rows), rows, k);
  }

  lemma RecordIds(out: seq<BranchRecord>, gs: seq<ChannelLatest>, rows: seq<UploadRow>, k: string)
    requires |out| == |gs|
    requires forall i :: 0 <= i < |out| ==> Some(out[i].branchId) == BranchId(gs[i].channel)
    requires Keys(gs) == AppliedChannels(rows)
    ensures (exists rec :: rec in out && rec.branchId == k)
        <==> (exists r :: r in Applied(rows) && BranchId(r.channel) == Some(k))
  {
    if rec :| rec in out && rec.branchId == k {
      var i :| 0 <= i < |out| && out[i] == rec;
      assert gs[i] in gs;
      assert gs[i].channel in AppliedChannels(rows);
      var r :| r in rows && r.status == AppliedStatus && r.channel == gs[i].channel;
      assert r in Applied(rows);
    }
    if r :| r in Applied(rows) && BranchId(r.channel) == Some(k) {
      assert r.channel in AppliedChannels(rows);
      var i := KeyAt(gs, r.channel);
      assert out[i] in out;
    }
  }

  lemma DeriveAt(gs: seq<ChannelLatest>, now: int, i: nat)
    requires Derive(gs, now).Ok? && i < |gs|
    ensures var rec := Derive(gs, now).value[i];
      && Some(rec.branchId) == BranchId(gs[i].channel)
      && rec.uploadDate == gs[i].latest
      && (rec.timeDifference.None? <==> ShortForm(gs, now))
      && (rec.timeDifference.Some? ==> rec.timeDifference.value == FormatElapsed(now - gs[i].latest))
  {
    DeriveRecordAt(gs, now, i);
    RecordOfFields(gs[i], now, ShortForm(gs, now));
  }

  lemma DeriveRecordAt(gs: seq<ChannelLatest>, now: int, i: nat)
    requires Derive(gs, now).Ok? && i < |gs|
    ensures HasDigit(gs[i].channel) && Derive(gs, now).value[i] == RecordOf(gs[i], now, ShortForm(gs, now))
  {
  }

  lemma RecordOfFields(g: ChannelLatest, now: int, shortForm: bool)
    requires HasDigit(g.channel)
    ensures Some(RecordOf(g, now, shortForm).branchId) == BranchId(g.channel)
    ensures RecordOf(g, now, shortForm).uploadDate == g.latest
    ensures RecordOf(g, now, shortForm).timeDifference.None? <==> shortForm
    ensures RecordOf(g, now, shortForm).timeDifference.Some? ==>
      RecordOf(g, now, shortForm).timeDifference.value == FormatElapsed(now - g.latest)
  {
  }

  /**
   * Reordering the rows of the log, or repeating rows, does not change the
   * result of `process_data`: it depends only on which rows occur.
   */
  lemma ProcessDataOrderInsensitive(rows: seq<UploadRow>, rows': seq<UploadRow>, now: int)
    requires forall r :: r in rows <==> r in rows'
    ensures ProcessData(rows, now) == ProcessData(rows', now)
  {
    assert rows == [] <==> rows' == [] by {
      if rows != [] { assert rows[0] in rows'; }
      if rows' != [] { assert rows'[0] in rows; }
    }
    GroupLatestOrderInsensitive(Applied(rows), Applied(rows'));
  }
}
