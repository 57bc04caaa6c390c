/**
 * `check_missing_branches` (data_processing.py:100-132) and `get_branch_name`
 * (data_processing.py:43-45).
 *
 * The reconciler reads back the Time Difference text of every extractor row
 * (the time-of-day part of the age: whole seconds modulo one day), flags the
 * rows whose value exceeds thirty minutes, and lists as missed the flagged
 * rows followed by every registry branch that is absent from the results. A
 * row more than a day old is flagged only when its age modulo one day exceeds
 * thirty minutes.
 * The registry (the keys and names of branch_data.json, in file order) and the
 * exclusion set are parameters.
 */
module Reconciler {
  import opened Outcomes
  import opened Text
  import opened Duration
  import opened Extractor

  /**
   * A row of the all-branches result: columns Branch ID, Upload Date, Time
   * Difference (None for NaT, read from a missing text) and flag.
   */
  datatype FlaggedRecord = FlaggedRecord(branchId: string, uploadDate: int, timeDifference: Option<nat>, flag: int)

  /** A row of the missed result; a branch missing from the upload has null date and duration. */
  datatype MissedRecord = MissedRecord(branchId: string, uploadDate: Option<int>, timeDifference: Option<nat>)

  /** One key of the branch registry with its branch name. */
  datatype RegistryEntry = RegistryEntry(key: string, name: string)

  /** The two tables `check_missing_branches` returns. */
  datatype Reconciled = Reconciled(all: seq<FlaggedRecord>, missed: seq<MissedRecord>)

  /** Thirty minutes, in seconds: a Time Difference above this is late. */
  const LateThreshold: nat := 1800

  /**
   * The flag of a row: 1 when its duration is strictly over thirty minutes,
   * else 0; NaT compares false, so a missing duration gives 0.
   */
  function LateFlag(td: Option<nat>): int
  {
    if td.Some? && td.value > LateThreshold then 1 else 0
  }

  /** `to_timedelta` on one Time Difference: a missing text becomes NaT. */
  function ReadDuration(t: Option<string>): Result<Option<nat>>
  {
    match t
    case None => Ok(None)
    case Some(text) =>
      match ParseClock(text)
      case Err(e) => Err(e)
      case Ok(td) => Ok(Some(td))
  }

  /** A Time Difference `to_timedelta` accepts: missing, or `h:m:s` text. */
  predicate Readable(rec: BranchRecord)
  {
    rec.timeDifference.Some? ==> ParseClock(rec.timeDifference.value).Ok?
  }

  /**
   * `f` is the flagged form of `rec`: same Branch ID and date; a missing text
   * gives a missing duration, any other text its parsed duration; and the flag
   * is 1 exactly when there is a duration and it exceeds thirty minutes.
   */
  predicate FlaggedFrom(rec: BranchRecord, f: FlaggedRecord)
  {
    && f.branchId == rec.branchId
    && f.uploadDate == rec.uploadDate
    && (rec.timeDifference.None? ==> f.timeDifference.None?)
    && (rec.timeDifference.Some? ==>
         f.timeDifference.Some? && ParseClock(rec.timeDifference.value) == Ok(f.timeDifference.value))
    && (f.flag == 0 || f.flag == 1)
    && (f.flag == 1 <==> f.timeDifference.Some? && f.timeDifference.value > LateThreshold)
  }

  function FlagRecord(rec: BranchRecord): (r: Result<FlaggedRecord>)
    ensures r.Ok? <==> Readable(rec)
    ensures r.Err? ==> r.error == BadDuration
    ensures r.Ok? ==> FlaggedFrom(rec, r.value)
  {
    match ReadDuration(rec.timeDifference)
    case Err(e) => Err(e)
    case Ok(td) => Ok(FlaggedRecord(rec.branchId, rec.uploadDate, td, LateFlag(td)))
  }

  /**
   * Parses every Time Difference and adds the flag column (data_processing.py:103-104).
   * The whole conversion fails when one text is neither missing nor `hh:mm:ss`.
   */
  function FlagRecords(results: seq<BranchRecord>): (r: Result<seq<FlaggedRecord>>)
    ensures r.Ok? <==> forall i :: 0 <= i < |results| ==> Readable(results[i])
    ensures r.Err? ==> r.error == BadDuration
    ensures r.Ok? ==> (
      && |r.value| == |results|
      && forall i :: 0 <= i < |results| ==> FlaggedFrom(results[i], r.value[i]))
  {
    if forall i :: 0 <= i < |results| ==> FlagRecord(results[i]).Ok? then
      Ok(seq(|results|, i requires 0 <= i < |results| => FlagRecord(results[i]).value))
    else
      Err(BadDuration)
  }

  /** A flagged row as it appears in the missed result: the flag column is dropped. */
  function LateRecord(f: FlaggedRecord): MissedRecord
  {
    MissedRecord(f.branchId, Some(f.uploadDate), f.timeDifference)
  }

  /** The rows with flag 1, in order (data_processing.py:107). */
  function LateRows(all: seq<FlaggedRecord>): (r: seq<MissedRecord>)
    ensures |r| <= |all|
    ensures forall f :: f in all && f.flag == 1 ==> LateRecord(f) in r
    ensures forall m :: m in r ==> exists f :: f in all && f.flag == 1 && m == LateRecord(f)
  {
    if all == [] then []
    else (if all[0].flag == 1 then [LateRecord(all[0])] else []) + LateRows(all[1..])
  }

  /** Selecting the late rows of two tables one after the other keeps each table's order. */
  lemma {:induction false} LateRowsAppend(a: seq<FlaggedRecord>, b: seq<FlaggedRecord>)
    ensures LateRows(a + b) == LateRows(a) + LateRows(b)
  {
    if a == [] {
      assert a + b == b;
    } else {
      assert (a + b)[0] == a[0];
      assert (a + b)[1..] == a[1..] + b;
      LateRowsAppend(a[1..], b);
    }
  }

  /** The registry keys in registry order (`list(branch_data.keys())`, data_processing.py:112). */
  function RegistryKeys(registry: seq<RegistryEntry>): (keys: seq<string>)
    ensures |keys| == |registry|
    ensures forall i :: 0 <= i < |registry| ==> keys[i] == registry[i].key
  {
    seq(|registry|, i requires 0 <= i < |registry| => registry[i].key)
  }

  /** The set of Branch IDs of the results (`set(results_df["Branch ID"])`, data_processing.py:119). */
  function PresentIds(all: seq<FlaggedRecord>): (ids: set<string>)
    ensures forall f :: f in all ==> f.branchId in ids
    ensures forall id :: id in ids ==> exists f :: f in all && f.branchId == id
  {
    set f | f in all :: f.branchId
  }

  /**
   * The keys, in order, that are neither present nor excluded: the list the
   * loop at data_processing.py:115-120 appends to.
   */
  function MissingKeys(keys: seq<string>, present: set<string>, excluded: set<string>): (r: seq<string>)
    ensures forall k :: k in r <==> k in keys && k !in present && k !in excluded
    decreases |keys|
  {
    if keys == [] then []
    else
      var k := keys[|keys| - 1];
      MissingKeys(keys[..|keys| - 1], present, excluded) + (if k !in present && k !in excluded then [k] else [])
  }

  /** The missing keys of a longer registry extend those of its prefix, in registry order. */
  lemma {:induction false} MissingKeysAppend(a: seq<string>, b: seq<string>, present: set<string>, excluded: set<string>)
    ensures MissingKeys(a + b, present, excluded) == MissingKeys(a, present, excluded) + MissingKeys(b, present, excluded)
    decreases |b|
  {
    if b == [] {
      assert a + b == a;
    } else {
      var b' := b[..|b| - 1];
      assert (a + b)[..|a + b| - 1] == a + b';
      assert (a + b)[|a + b| - 1] == b[|b| - 1];
      MissingKeysAppend(a, b', present, excluded);
    }
  }

  predicate Distinct<T(==)>(s: seq<T>)
  {
    forall i, j :: 0 <= i < j < |s| ==> s[i] != s[j]
  }

  /** Over distinct registry keys, every missing key is listed once. */
  lemma {:induction false} MissingKeysDistinct(keys: seq<string>, present: set<string>, excluded: set<string>)
    requires Distinct(keys)
    ensures Distinct(MissingKeys(keys, present, excluded))
    decreases |keys|
  {
    if keys != [] {
      var init := keys[..|keys| - 1];
      var k := keys[|keys| - 1];
      assert Distinct(init);
      MissingKeysDistinct(init, present, excluded);
      assert k !in init by {
        forall j | 0 <= j < |init|
          ensures init[j] != k
        {
          assert keys[j] == init[j];
        }
      }
    }
  }

  /** The missed rows of branches that did not upload: Branch ID only, no date, no duration. */
  function AbsentRows(keys: seq<string>): (r: seq<MissedRecord>)
    ensures |r| == |keys|
    ensures forall i :: 0 <= i < |keys| ==> r[i] == MissedRecord(keys[i], None, None)
  {
    seq(|keys|, i requires 0 <= i < |keys| => MissedRecord(keys[i], None, None))
  }

  /**
   * The missed table: the late rows followed by the absent registry branches
   * (data_processing.py:124-129).
   */
  function Missed(all: seq<FlaggedRecord>, registry: seq<RegistryEntry>, excluded: set<string>): seq<MissedRecord>
  {
    LateRows(all) + AbsentRows(MissingKeys(RegistryKeys(registry), PresentIds(all), excluded))
  }

  /**
   * `check_missing_branches`. `excluded` stands for `EXCLUDED_BRANCHES`: as
   * the source is written the check behaves as with the empty set (see
   * `ExclusionNeverMatches`), and the evidently intended set is
   * `IntendedExcluded`.
   */
  method CheckMissingBranches(results: seq<BranchRecord>, registry: seq<RegistryEntry>, excluded: set<string>)
    returns (outcome: Result<Reconciled>)
    ensures FlagRecords(results).Err? ==> outcome == Err(BadDuration)
    ensures FlagRecords(results).Ok? ==>
      outcome == Ok(Reconciled(FlagRecords(results).value, Missed(FlagRecords(results).value, registry, excluded)))
  {
    var flagged := FlagRecords(results);
    if flagged.Err? {
      return Err(flagged.error);
    }
    var all := flagged.value;
    var late := LateRows(all);
    var present := PresentIds(all);
    ghost var keys := RegistryKeys(registry);
    var missing: seq<string> := [];
    for i := 0 to |registry|
      invariant missing == MissingKeys(keys[..i], present, excluded)
    {
      var key := registry[i].key;
      assert keys[..i + 1][..i] == keys[..i];
      if key !in present && key !in excluded {
        missing := missing + [key];
      }
    }
    assert keys[..|registry|] == keys;
    outcome := Ok(Reconciled(all, late + AbsentRows(missing)));
  }

  /** The Branch IDs seen by the missing-branch test are those of the extractor rows. */
  lemma FlaggedIds(results: seq<BranchRecord>, k: string)
    requires FlagRecords(results).Ok?
    ensures k in PresentIds(FlagRecords(results).value) <==> exists rec :: rec in results && rec.branchId == k
  {
    var all := FlagRecords(results).value;
    if k in PresentIds(all) {
      var f :| f in all && f.branchId == k;
      var i :| 0 <= i < |all| && all[i] == f;
      assert results[i] in results;
    }
    if rec :| rec in results && rec.branchId == k {
      var i :| 0 <= i < |results| && results[i] == rec;
      assert all[i] in all;
    }
  }

  /**
   * A branch is listed with null date and duration exactly when it is a
   * registry key, absent from the results and not excluded.
   */
  lemma MissedAbsentRow(all: seq<FlaggedRecord>, registry: seq<RegistryEntry>, excluded: set<string>, k: string)
    ensures MissedRecord(k, None, None) in Missed(all, registry, excluded)
        <==> k in RegistryKeys(registry) && k !in PresentIds(all) && k !in excluded
  {
    var missing := MissingKeys(RegistryKeys(registry), PresentIds(all), excluded);
    var absent := AbsentRows(missing);
    if MissedRecord(k, None, None) in absent {
      var i :| 0 <= i < |absent| && absent[i] == MissedRecord(k, None, None);
      assert missing[i] == k;
    }
    if k in missing {
      var i :| 0 <= i < |missing| && missing[i] == k;
      assert absent[i] == MissedRecord(k, None, None);
    }
  }

  /** Every late row is reported, whatever the exclusion set holds. */
  lemma MissedLateRow(all: seq<FlaggedRecord>, registry: seq<RegistryEntry>, excluded: set<string>, f: FlaggedRecord)
    requires f in all && f.flag == 1
    ensures LateRecord(f) in Missed(all, registry, excluded)
  {
  }

  /** Every row of the missed table is a late row or an absent, non-excluded registry branch. */
  lemma MissedRowOrigin(all: seq<FlaggedRecord>, registry: seq<RegistryEntry>, excluded: set<string>, m: MissedRecord)
    requires m in Missed(all, registry, excluded)
    ensures || (exists f :: f in all && f.flag == 1 && m == LateRecord(f))
            || (m == MissedRecord(m.branchId, None, None)
                && m.branchId in RegistryKeys(registry) && m.branchId !in PresentIds(all) && m.branchId !in excluded)
  {
    if m !in LateRows(all) {
      MissedAbsentRow(all, registry, excluded, m.branchId);
      var absent := AbsentRows(MissingKeys(RegistryKeys(registry), PresentIds(all), excluded));
      var i :| 0 <= i < |absent| && absent[i] == m;
    }
  }

  /** In a registry without repeated keys, each absent, non-excluded branch is listed exactly once. */
  lemma MissedOnce(all: seq<FlaggedRecord>, registry: seq<RegistryEntry>, excluded: set<string>, k: string)
    requires Distinct(RegistryKeys(registry))
    requires k in RegistryKeys(registry) && k !in PresentIds(all) && k !in excluded
    ensures multiset(Missed(all, registry, excluded))[MissedRecord(k, None, None)] == 1
  {
    var missing := MissingKeys(RegistryKeys(registry), PresentIds(all), excluded);
    var absent := AbsentRows(missing);
    MissingKeysDistinct(RegistryKeys(registry), PresentIds(all), excluded);
    assert Distinct(absent) by {
      forall i, j | 0 <= i < j < |absent|
        ensures absent[i] != absent[j]
      {
        assert missing[i] != missing[j];
      }
    }
    MissedAbsentRow(all, registry, excluded, k);
    assert MissedRecord(k, None, None) in absent;
    DistinctCount(absent, MissedRecord(k, None, None));
    assert MissedRecord(k, None, None) !in LateRows(all);
    assert Missed(all, registry, excluded) == LateRows(all) + absent;
  }

  lemma {:induction false} DistinctCount<T>(s: seq<T>, x: T)
    requires Distinct(s) && x in s
    ensures multiset(s)[x] == 1
  {
    if s[0] == x {
      assert x !in s[1..] by {
        forall j | 0 <= j < |s[1..]|
          ensures s[1..][j] != x
        {
          assert s[1..][j] == s[j + 1];
        }
      }
    } else {
      DistinctCount(s[1..], x);
    }
    assert s == [s[0]] + s[1..];
  }

  /** A value as Python holds it in the registry lookups: an int or a str. */
  datatype PyValue = PyInt(i: int) | PyStr(s: string)

  /** Python's `str` on such a value. */
  function Str(v: PyValue): string
  {
    match v
    case PyInt(n) => if n < 0 then "-" + Decimal(-n) else Decimal(n)
    case PyStr(s) => s
  }

  const UnknownBranch: string := "Unknown Branch"

  /**
   * The name stored under the given key, if any. The keys of a JSON object are
   * distinct, so at most one entry matches; a file that repeats a key is not
   * part of this model.
   */
  function Lookup(registry: seq<RegistryEntry>, key: string): (r: Option<string>)
    ensures r.None? <==> key !in RegistryKeys(registry)
  {
    if registry == [] then None
    else if registry[0].key == key then Some(registry[0].name)
    else
      var r := Lookup(registry[1..], key);
      assert RegistryKeys(registry) == [registry[0].key] + RegistryKeys(registry[1..]);
      r
  }

  /** `get_branch_name`: the registry name for `str(branch_id)`, or "Unknown Branch" (data_processing.py:43-45). */
  function GetBranchName(branchId: PyValue, registry: seq<RegistryEntry>): string
  {
    match Lookup(registry, Str(branchId))
    case Some(name) => name
    case None => UnknownBranch
  }

  /**
   * With distinct registry keys, the name is the one stored under `str(id)`,
   * and "Unknown Branch" when no key equals it.
   */
  lemma {:induction false} GetBranchNameSpec(branchId: PyValue, registry: seq<RegistryEntry>, i: nat)
    requires Distinct(RegistryKeys(registry))
    requires i < |registry| && registry[i].key == Str(branchId)
    ensures GetBranchName(branchId, registry) == registry[i].name
  {
    LookupAt(registry, Str(branchId), i);
  }

  lemma GetBranchNameUnknown(branchId: PyValue, registry: seq<RegistryEntry>)
    requires Str(branchId) !in RegistryKeys(registry)
    ensures GetBranchName(branchId, registry) == UnknownBranch
  {
  }

  lemma {:induction false} LookupAt(registry: seq<RegistryEntry>, key: string, i: nat)
    requires Distinct(RegistryKeys(registry))
    requires i < |registry| && registry[i].key == key
    ensures Lookup(registry, key) == Some(registry[i].name)
  {
    if i > 0 {
      var keys := RegistryKeys(registry);
      assert keys[0] != keys[i];
      var tail := registry[1..];
      assert RegistryKeys(tail) == keys[1..];
      LookupAt(tail, key, i - 1);
    }
  }

  /**
   * The Branch IDs the extractor produces are canonical decimals, so looking
   * one up as a str or as the int it denotes finds the same name.
   */
  lemma BranchNameIntOrStr(id: string, registry: seq<RegistryEntry>)
    requires Canonical(id)
    ensures GetBranchName(PyInt(DigitsValue(id)), registry) == GetBranchName(PyStr(id), registry)
  {
    CanonicalRoundTrip(id);
  }

  /** `EXCLUDED_BRANCHES` as written: Python ints (data_processing.py:8-17). */
  const ExcludedBranches: seq<PyValue> :=
    [PyInt(50009), PyInt(50011), PyInt(50016), PyInt(50018), PyInt(50036), PyInt(50037), PyInt(50038), PyInt(50046)]

  /** `branch_id in EXCLUDED_BRANCHES` for a str registry key: Python's `==` never equates a str with an int. */
  predicate InExcludedAsWritten(key: string)
  {
    PyStr(key) in ExcludedBranches
  }

  /** The missing-key loop exactly as written (data_processing.py:115-120). */
  function MissingKeysAsWritten(keys: seq<string>, present: set<string>): seq<string>
    decreases |keys|
  {
    if keys == [] then []
    else
      var k := keys[|keys| - 1];
      MissingKeysAsWritten(keys[..|keys| - 1], present) + (if k !in present && !InExcludedAsWritten(k) then [k] else [])
  }

  /** As written, the exclusion test is always false... */
  lemma ExclusionNeverMatches(key: string)
    ensures !InExcludedAsWritten(key)
  {
  }

  /** ...so the loop as written is the loop with an empty exclusion set. */
  lemma {:induction false} MissingKeysAsWrittenIgnoresExclusion(keys: seq<string>, present: set<string>)
    ensures MissingKeysAsWritten(keys, present) == MissingKeys(keys, present, {})
    decreases |keys|
  {
    if keys != [] {
      MissingKeysAsWrittenIgnoresExclusion(keys[..|keys| - 1], present);
      ExclusionNeverMatches(keys[|keys| - 1]);
    }
  }

  /**
   * The evidently intended exclusion set: the listed ints as the registry
   * spells its keys, `str` of each (the strings "50009", "50011", ..., "50046").
   */
  const IntendedExcluded: set<string> := set v | v in ExcludedBranches :: Str(v)

  /** Printing 50009 gives the registry key "50009". */
  lemma Decimal50009()
    ensures Decimal(50009) == "50009"
  {
    DecimalAppend(5, 0);
    DecimalAppend(50, 0);
    DecimalAppend(500, 0);
    DecimalAppend(5000, 9);
    assert Decimal(5) == "5";
    assert Decimal(50) == "50";
    assert Decimal(500) == "500";
    assert Decimal(5000) == "5000";
  }

  lemma DecimalAppend(n: nat, d: nat)
    requires 0 < n && d < 10
    ensures Decimal(n * 10 + d) == Decimal(n) + [DigitChar(d)]
  {
    assert (n * 10 + d) / 10 == n && (n * 10 + d) % 10 == d;
  }

  /**
   * Branch 50009 is on the exclusion list, yet a registry holding only that
   * branch and no upload reports it missing.
   */
  lemma ExclusionCounterexample()
    ensures "50009" in IntendedExcluded
    ensures MissingKeysAsWritten(["50009"], {}) == ["50009"]
    ensures MissingKeys(["50009"], {}, IntendedExcluded) == []
  {
    Decimal50009();
    assert Str(ExcludedBranches[0]) == "50009";
    ExclusionNeverMatches("50009");
    assert ["50009"][..0] == [];
  }
}
