/**
 * The validation loop of `main`: before anything is copied, every record
 * holding more than one path must be a pure duplicate; the first record that
 * is not halts the run.
 */
module Validation {
  import opened Paths
  import opened FileSystem
  import opened Dicts
  import opened References
  import opened Catalog

  /** Every source path of every record is a regular file on `disk`. */
  ghost predicate SourcesOnDisk(t: YearTable, disk: Disk)
    reads Records(t)
  {
    forall k | HasSlot(t, k) ::
      AtInRecords(t, k);
      && |At(t, k).sourcePaths| > 0
      && forall i :: 0 <= i < |At(t, k).sourcePaths| ==> At(t, k).sourcePaths[i] in disk.files
  }

  /** The record of slot `k` is a pure duplicate. */
  ghost predicate PureAt(t: YearTable, k: BucketKey, disk: Disk)
    requires HasSlot(t, k) && SourcesOnDisk(t, disk)
    reads Records(t)
  {
    AtInRecords(t, k);
    IsPureDuplicate(At(t, k).sourcePaths, disk)
  }

  /** Every record of the table is a pure duplicate. */
  ghost predicate AllPure(t: YearTable, disk: Disk)
    requires SourcesOnDisk(t, disk)
    reads Records(t)
  {
    forall k | HasSlot(t, k) :: PureAt(t, k, disk)
  }

  /** The innermost loop: the base names of month `month` of year `year`, in insertion order. */
  method ValidateMonth(yearTable: YearTable, year: string, month: string, disk: Disk) returns (ok: bool)
    requires WellFormed(yearTable) && SourcesOnDisk(yearTable, disk)
    requires year in yearTable.items && month in yearTable.items[year].items
    ensures ok <==> forall k | HasSlot(yearTable, k) && k.year == year && k.month == month :: PureAt(yearTable, k, disk)
  {
    var monthDict := yearTable.items[year].items[month];
    for l := 0 to |monthDict.keys|
      invariant forall k | HasSlot(yearTable, k) && k.year == year && k.month == month && k.baseName in monthDict.keys[..l] ::
        PureAt(yearTable, k, disk)
    {
      var file := monthDict.keys[l];
      var fileRefs := monthDict.items[file];
      ghost var k := BucketKey(year, month, file);
      assert HasSlot(yearTable, k) && fileRefs == At(yearTable, k);
      if fileRefs.AreDuplicates() {
        var pure := fileRefs.EnsureIsPureDuplicate(disk);
        if !pure {
          assert !PureAt(yearTable, k, disk);
          return false;
        }
      }
      assert PureAt(yearTable, k, disk);
      assert monthDict.keys[..l + 1] == monthDict.keys[..l] + [file];
    }
    assert monthDict.keys[..|monthDict.keys|] == monthDict.keys;
    return true;
  }

  /** The middle loop: the months of year `year`, in insertion order. */
  method ValidateYear(yearTable: YearTable, year: string, disk: Disk) returns (ok: bool)
    requires WellFormed(yearTable) && SourcesOnDisk(yearTable, disk)
    requires year in yearTable.items
    ensures ok <==> forall k | HasSlot(yearTable, k) && k.year == year :: PureAt(yearTable, k, disk)
  {
    var yearDict := yearTable.items[year];
    for j := 0 to |yearDict.keys|
      invariant forall k | HasSlot(yearTable, k) && k.year == year && k.month in yearDict.keys[..j] ::
        PureAt(yearTable, k, disk)
    {
      var month := yearDict.keys[j];
      ok := ValidateMonth(yearTable, year, month, disk);
      if !ok {
        return;
      }
      assert yearDict.keys[..j + 1] == yearDict.keys[..j] + [month];
    }
    assert yearDict.keys[..|yearDict.keys|] == yearDict.keys;
    return true;
  }

  /**
   * The validation loop: visits the records year by year, month by month,
   * name by name, and returns `false` at the first record with several paths
   * that is not a pure duplicate.
   */
  method ValidateCatalog(yearTable: YearTable, disk: Disk) returns (ok: bool)
    requires WellFormed(yearTable) && SourcesOnDisk(yearTable, disk)
    ensures ok <==> AllPure(yearTable, disk)
  {
    for i := 0 to |yearTable.keys|
      invariant forall k | HasSlot(yearTable, k) && k.year in yearTable.keys[..i] :: PureAt(yearTable, k, disk)
    {
      var year := yearTable.keys[i];
      ok := ValidateYear(yearTable, year, disk);
      if !ok {
        return;
      }
      assert yearTable.keys[..i + 1] == yearTable.keys[..i] + [year];
    }
    assert yearTable.keys[..|yearTable.keys|] == yearTable.keys;
    return true;
  }
}
