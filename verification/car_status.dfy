/** `check_car_availability`: the scan that rebuilds the status cache from a
    directory listing. The listing, each file's two date cells (I3 holds the
    last reservation, I4 the day the car is free again) or the exception
    raised while reading them, and the current instant are all parameters. */
module CarStatus {
  import opened Wrappers
  import opened Calendar
  import opened Cells

  /** The two cells read from a workbook's active sheet. */
  datatype Sheet = Sheet(i3: CellValue, i4: CellValue)

  /** Opening a workbook and reading its cells either succeeds or raises an
      exception, kept as its message. */
  type ReadResult = Result<Sheet, string>

  /** One name of the directory listing, with what reading that file gives. */
  datatype Entry = Entry(name: string, read: ReadResult)

  /** The per-file record: the three derived fields, or only the error. */
  datatype CarInfo =
    | Status(lastReserved: Option<Instant>, availableAgain: Option<Instant>, available: Option<bool>)
    | Failed(error: string)

  type Cache = map<string, CarInfo>

  // ------------------------------------------------------------ file filter

  const Extension := ".xlsx"

  /** Office writes a `~$`-prefixed owner file beside a workbook that is open. */
  const LockPrefix := "~$"

  predicate StartsWith(s: string, prefix: string)
  {
    |prefix| <= |s| && s[..|prefix|] == prefix
  }

  predicate EndsWith(s: string, suffix: string)
  {
    |suffix| <= |s| && s[|s| - |suffix|..] == suffix
  }

  /** The names the scan opens: workbooks that are not lock files. */
  predicate Eligible(name: string)
  {
    EndsWith(name, Extension) && !StartsWith(name, LockPrefix)
  }

  /** A name is scanned exactly when it is some stem followed by `.xlsx`
      and it is not `~$` followed by anything. */
  lemma EligibleShape(name: string)
    ensures Eligible(name) <==>
              && (exists stem :: name == stem + Extension)
              && !(exists rest :: name == LockPrefix + rest)
  {
    if EndsWith(name, Extension) {
      assert name == name[..|name| - |Extension|] + Extension;
    }
    if exists stem :: name == stem + Extension {
      var stem :| name == stem + Extension;
      assert name[|name| - |Extension|..] == Extension;
    }
    if StartsWith(name, LockPrefix) {
      assert name == LockPrefix + name[|LockPrefix|..];
    }
    if exists rest :: name == LockPrefix + rest {
      var rest :| name == LockPrefix + rest;
      assert name[..|LockPrefix|] == LockPrefix;
    }
  }

  /** The comparison is case-sensitive and lock files are skipped even with the right extension. */
  lemma EligibleExamples()
    ensures Eligible("Golf 7.xlsx")
    ensures Eligible(".xlsx")
    ensures !Eligible("~$Golf 7.xlsx")
    ensures !Eligible("Golf 7.XLSX")
    ensures !Eligible("Golf 7.xls")
  {
    assert "Golf 7.xlsx"[11 - 5..] == Extension;
    assert "~$Golf 7.xlsx"[..2] == LockPrefix;
    assert "Golf 7.XLSX"[11 - 5..] != Extension;
    assert "Golf 7.xlsx"[..2][0] == 'G';
    assert ".xlsx"[..2][0] == '.';
  }

  // ----------------------------------------------------------- availability

  /** Python truthiness of the stored `available` value (`None` is falsy). */
  predicate Truthy(b: Option<bool>)
  {
    b == Some(true)
  }

  /** The `and` of the optional date with the comparison against `now`:
      `None` when there is no date (a datetime is always truthy), otherwise
      whether `now` has reached the date. */
  function Availability(availableAgain: Option<Instant>, now: Instant): (r: Option<bool>)
    ensures availableAgain.None? <==> r.None?
    ensures Truthy(r) <==> availableAgain.Some? && AtOrAfter(now, availableAgain.value)
  {
    match availableAgain
    case None => None
    case Some(t) => Some(AtOrAfter(now, t))
  }

  /** Once a car is available it stays available as time moves on. */
  lemma AvailabilityPersists(availableAgain: Option<Instant>, now: Instant, later: Instant)
    requires Truthy(Availability(availableAgain, now)) && AtOrAfter(later, now)
    ensures Truthy(Availability(availableAgain, later))
  {
    BeforeIsStrictTotalOrder(later, now, availableAgain.value);
  }

  // --------------------------------------------------------- one file's record

  /** The record the scan stores for one eligible file. */
  function RecordOf(read: ReadResult, now: Instant): (r: CarInfo)
    ensures r.Failed? <==> read.Err?
    ensures read.Err? ==> r.error == read.error
    ensures read.Ok? ==> r.lastReserved == ParseDate(read.value.i3)
    ensures read.Ok? ==> r.availableAgain == ParseDate(read.value.i4)
    ensures read.Ok? ==> (r.available.None? <==> r.availableAgain.None?)
    ensures read.Ok? ==>
              (Truthy(r.available) <==> r.availableAgain.Some? && AtOrAfter(now, r.availableAgain.value))
  {
    match read
    case Err(message) => Failed(message)
    case Ok(sheet) =>
      var availableAgain := ParseDate(sheet.i4);
      Status(ParseDate(sheet.i3), availableAgain, Availability(availableAgain, now))
  }

  // ---------------------------------------------------------------- the scan

  function EligibleNames(listing: seq<Entry>): set<string>
  {
    set i | 0 <= i < |listing| && Eligible(listing[i].name) :: listing[i].name
  }

  /** No later entry of the listing carries the same name as entry `i`. */
  predicate LastWithName(listing: seq<Entry>, i: int)
    requires 0 <= i < |listing|
  {
    forall j :: i < j < |listing| ==> listing[j].name != listing[i].name
  }

  /** Directory listings name each file once. */
  predicate DistinctNames(listing: seq<Entry>)
  {
    forall i, j :: 0 <= i < j < |listing| ==> listing[i].name != listing[j].name
  }

  lemma EligibleNamesSnoc(listing: seq<Entry>, e: Entry)
    ensures EligibleNames(listing + [e]) ==
              EligibleNames(listing) + (if Eligible(e.name) then {e.name} else {})
  {
    var all := listing + [e];
    forall k | k in EligibleNames(all)
      ensures k in EligibleNames(listing) + (if Eligible(e.name) then {e.name} else {})
    {
      var i :| 0 <= i < |all| && Eligible(all[i].name) && all[i].name == k;
      if i < |listing| {
        assert all[i] == listing[i];
      }
    }
    forall k | k in EligibleNames(listing)
      ensures k in EligibleNames(all)
    {
      var i :| 0 <= i < |listing| && Eligible(listing[i].name) && listing[i].name == k;
      assert all[i] == listing[i];
    }
    if Eligible(e.name) {
      assert all[|listing|] == e;
    }
  }

  /** The cache the scan leaves behind, entry by entry in listing order from
      an empty map; a later entry with the same name overwrites an earlier one. */
  function Rebuild(listing: seq<Entry>, now: Instant): (cache: Cache)
    ensures cache.Keys == EligibleNames(listing)
    decreases |listing|
  {
    if |listing| == 0 then map[]
    else
      var earlier := listing[..|listing| - 1];
      var last := listing[|listing| - 1];
      assert listing == earlier + [last];
      EligibleNamesSnoc(earlier, last);
      var cache := Rebuild(earlier, now);
      if Eligible(last.name) then cache[last.name := RecordOf(last.read, now)] else cache
  }

  /** Each eligible file's record is the one its own read produces. */
  lemma {:induction false} RebuildAt(listing: seq<Entry>, i: int, now: Instant)
    requires 0 <= i < |listing| && Eligible(listing[i].name) && LastWithName(listing, i)
    ensures listing[i].name in Rebuild(listing, now)
    ensures Rebuild(listing, now)[listing[i].name] == RecordOf(listing[i].read, now)
    decreases |listing|
  {
    var earlier := listing[..|listing| - 1];
    if i < |listing| - 1 {
      assert earlier[i] == listing[i];
      assert LastWithName(earlier, i) by {
        forall j | i < j < |earlier| ensures earlier[j].name != earlier[i].name {
          assert earlier[j] == listing[j];
        }
      }
      RebuildAt(earlier, i, now);
    }
  }

  /** Every name of the listing has a last occurrence. */
  lemma {:induction false} LastOccurrence(listing: seq<Entry>, i: int) returns (j: int)
    requires 0 <= i < |listing|
    ensures i <= j < |listing| && listing[j].name == listing[i].name && LastWithName(listing, j)
    decreases |listing| - i
  {
    if LastWithName(listing, i) {
      j := i;
    } else {
      var k :| i < k < |listing| && listing[k].name == listing[i].name;
      j := LastOccurrence(listing, k);
    }
  }

  /** Every record in the cache comes from the last listing entry with its name. */
  lemma RebuildOrigin(listing: seq<Entry>, name: string, now: Instant) returns (i: int)
    requires name in Rebuild(listing, now)
    ensures 0 <= i < |listing| && listing[i].name == name && Eligible(name) && LastWithName(listing, i)
    ensures Rebuild(listing, now)[name] == RecordOf(listing[i].read, now)
  {
    var k :| 0 <= k < |listing| && Eligible(listing[k].name) && listing[k].name == name;
    i := LastOccurrence(listing, k);
    RebuildAt(listing, i, now);
  }

  /** With the distinct names a directory listing has, every eligible file
      maps to the record of its own read: an error record exactly when its
      read failed. */
  lemma RebuildDistinct(listing: seq<Entry>, now: Instant)
    requires DistinctNames(listing)
    ensures forall i :: 0 <= i < |listing| && Eligible(listing[i].name) ==>
              && listing[i].name in Rebuild(listing, now)
              && Rebuild(listing, now)[listing[i].name] == RecordOf(listing[i].read, now)
  {
    forall i | 0 <= i < |listing| && Eligible(listing[i].name)
      ensures listing[i].name in Rebuild(listing, now)
      ensures Rebuild(listing, now)[listing[i].name] == RecordOf(listing[i].read, now)
    {
      RebuildAt(listing, i, now);
    }
  }

  /** Two listings with the same names in the same order have the same eligible names. */
  lemma SameNamesSameKeys(a: seq<Entry>, b: seq<Entry>)
    requires |a| == |b| && forall i :: 0 <= i < |a| ==> a[i].name == b[i].name
    ensures EligibleNames(a) == EligibleNames(b)
  {
    forall k | k in EligibleNames(a) ensures k in EligibleNames(b) {
      var i :| 0 <= i < |a| && Eligible(a[i].name) && a[i].name == k;
      assert b[i].name == k;
    }
    forall k | k in EligibleNames(b) ensures k in EligibleNames(a) {
      var i :| 0 <= i < |b| && Eligible(b[i].name) && b[i].name == k;
      assert a[i].name == k;
    }
  }

  /** One file failing to read turns its record into the error alone and
      leaves every other file's record, and the set of names, as they were. */
  lemma FailureIsolated(listing: seq<Entry>, j: int, error: string, now: Instant)
    requires 0 <= j < |listing| && LastWithName(listing, j)
    ensures var failed := listing[j := Entry(listing[j].name, Err(error))];
      && Rebuild(failed, now).Keys == Rebuild(listing, now).Keys
      && (Eligible(listing[j].name) ==> Rebuild(failed, now)[listing[j].name] == Failed(error))
      && forall k :: k in Rebuild(listing, now) && k != listing[j].name ==>
           Rebuild(failed, now)[k] == Rebuild(listing, now)[k]
  {
    var failed := listing[j := Entry(listing[j].name, Err(error))];
    SameNamesSameKeys(failed, listing);
    if Eligible(listing[j].name) {
      RebuildAt(failed, j, now);
    }
    forall k | k in Rebuild(listing, now) && k != listing[j].name
      ensures Rebuild(failed, now)[k] == Rebuild(listing, now)[k]
    {
      OtherRecordUnchanged(listing, failed, j, k, now);
    }
  }

  /** Replacing one entry's read leaves the records of all other names alone. */
  lemma OtherRecordUnchanged(listing: seq<Entry>, changed: seq<Entry>, j: int, k: string, now: Instant)
    requires 0 <= j < |listing| && |changed| == |listing|
    requires forall i :: 0 <= i < |listing| && i != j ==> changed[i] == listing[i]
    requires changed[j].name == listing[j].name
    requires k in Rebuild(listing, now) && k != listing[j].name
    ensures k in Rebuild(changed, now) && Rebuild(changed, now)[k] == Rebuild(listing, now)[k]
  {
    var i := RebuildOrigin(listing, k, now);
    assert LastWithName(changed, i) by {
      forall m | i < m < |changed| ensures changed[m].name != changed[i].name {
        assert changed[m].name == listing[m].name;
      }
    }
    RebuildAt(changed, i, now);
  }

  /** The scan itself: the cache is cleared, then every eligible name of the
      listing is stored with its record. `previous` stands for the cache
      before the scan; it is discarded unread, which is what clearing it
      amounts to once the scan completes. */
  method CheckCarAvailability(previous: Cache, listing: seq<Entry>, now: Instant) returns (status: Cache)
    ensures status.Keys == EligibleNames(listing)
    ensures (forall i :: 0 <= i < |listing| ==> !Eligible(listing[i].name)) ==> status == map[]
    ensures forall i :: 0 <= i < |listing| && Eligible(listing[i].name) && LastWithName(listing, i) ==>
              status[listing[i].name] == RecordOf(listing[i].read, now)
    ensures status == Rebuild(listing, now)
  {
    status := map[];
    var i := 0;
    while i < |listing|
      invariant 0 <= i <= |listing|
      invariant status == Rebuild(listing[..i], now)
    {
      var entry := listing[i];
      if Eligible(entry.name) {
        status := status[entry.name := RecordOf(entry.read, now)];
      }
      assert listing[..i + 1][..i] == listing[..i];
      i := i + 1;
    }
    assert listing[..i] == listing;
    forall i | 0 <= i < |listing| && Eligible(listing[i].name) && LastWithName(listing, i)
      ensures status[listing[i].name] == RecordOf(listing[i].read, now)
    {
      RebuildAt(listing, i, now);
    }
  }
}
