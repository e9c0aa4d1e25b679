/**
 * The first loop of `main`: every discovered path is filed into the catalog
 * under its year, month and base name.
 */
module Insertion {
  import opened Dates
  import opened Paths
  import opened Dicts
  import opened References
  import opened Catalog

  /** A table that gained at most record `r`, which is old or new, gained only new records. */
  twostate lemma OnlyNewRecordIsAdded(t: YearTable, new t': YearTable, new r: FileReferences)
    requires Records(t') <= Records(t) + {r}
    requires r in Records(t) || fresh(r)
    ensures fresh(Records(t') - Records(t))
  {
  }

  /**
   * A base name already filed in the month bucket: a stamp on another day
   * replaces the record's date by the earlier of the two (the prompt for a
   * stamp in another month cannot be reached, as both share the bucket's
   * month key), then the path is appended.
   */
  method FileNameCollision(record: FileReferences, fullPath: Path, fileBaseName: string, timestampDatetime: Timestamp)
    requires record.Valid() && record.fileBaseName == fileBaseName
    requires MonthKey(record.creationDate) == MonthKey(timestampDatetime)
    modifies record
    ensures record.Valid()
    ensures record.sourcePaths == old(record.sourcePaths) + [fullPath]
    ensures record.creationDate == Collide(old(record.creationDate), timestampDatetime)
    ensures record.fileBaseName == old(record.fileBaseName)
    ensures record.fileNameOnly == old(record.fileNameOnly) && record.fileExtension == old(record.fileExtension)
  {
    MonthKeyInjective(record.creationDate, timestampDatetime);
    if DateOf(record.creationDate) != DateOf(timestampDatetime) {
      if record.creationDate.month != timestampDatetime.month {
        assert false;
      } else {
        record.creationDate := Min(record.creationDate, timestampDatetime);
      }
    }
    if fileBaseName != record.fileBaseName {
      assert false;
    }
    record.AddFileReference(fullPath);
  }

  /**
   * The body of the insertion loop: files `fullPath` under its year, month
   * and base name. A new base name gets a new record; a base name already in
   * the month bucket gets the path appended and, when the dates fall on
   * different days, the earlier of the two dates. `paths` are the paths the
   * slot held before; `rec` is the record the slot holds afterwards.
   */
  method InsertPath(yearTable: YearTable, fullPath: Path, ghost paths: seq<Path>, stampOf: Path -> Timestamp)
    returns (table: YearTable, ghost rec: FileReferences)
    requires WellFormed(yearTable)
    requires HasSlot(yearTable, KeyOf(fullPath, stampOf)) ==>
      SlotHolds(At(yearTable, KeyOf(fullPath, stampOf)), KeyOf(fullPath, stampOf), paths, stampOf)
    requires !HasSlot(yearTable, KeyOf(fullPath, stampOf)) ==> paths == []
    modifies SlotRecord(yearTable, KeyOf(fullPath, stampOf))
    ensures table == PutRecord(yearTable, KeyOf(fullPath, stampOf), rec)
    ensures SlotHolds(rec, KeyOf(fullPath, stampOf), paths + [fullPath], stampOf)
    ensures if HasSlot(yearTable, KeyOf(fullPath, stampOf)) then rec == At(yearTable, KeyOf(fullPath, stampOf)) else fresh(rec)
  {
    var timestampDatetime := stampOf(fullPath);
    var fileBaseName := BaseName(fullPath);
    ghost var k := KeyOf(fullPath, stampOf);

    var (t1, correctYearDict) := GetYearDict(timestampDatetime, yearTable);
    var (yearDict1, correctMonth) := GetMonthDict(timestampDatetime, correctYearDict);
    ghost var monthBefore := correctMonth;
    if fileBaseName in correctMonth.items {
      // a name collision inside the month bucket
      var existing := correctMonth.items[fileBaseName];
      rec := existing;
      assert HasSlot(yearTable, k) && existing == At(yearTable, k);
      ResolvedSnoc(paths, fullPath, stampOf);
      FileNameCollision(existing, fullPath, fileBaseName, timestampDatetime);
      PutSame(monthBefore, fileBaseName);
    } else {
      var created := new FileReferences(fullPath, timestampDatetime);
      rec := created;
      correctMonth := Put(correctMonth, fileBaseName, created);
      assert [fullPath][..0] == [];
    }
    table := Put(t1, YearKey(timestampDatetime), Put(yearDict1, MonthKey(timestampDatetime), correctMonth));
    GetOrCreateThenPut(yearTable, k, rec);
  }

  /**
   * Files `fullPath` into the catalog of the paths `files` inserted before:
   * the result is the catalog of `files + [fullPath]`.
   */
  method Insert(yearTable: YearTable, fullPath: Path, ghost files: seq<Path>, stampOf: Path -> Timestamp)
    returns (table: YearTable)
    requires Catalogs(yearTable, files, stampOf)
    modifies Records(yearTable)
    ensures Catalogs(table, files + [fullPath], stampOf)
    ensures fresh(Records(table) - Records(yearTable))
  {
    ghost var k := KeyOf(fullPath, stampOf);
    PathsAtSnoc(files, fullPath, stampOf, k);
    SlotsAroundKey(yearTable, files, stampOf, k);
    ghost var rec;
    table, rec := InsertPath(yearTable, fullPath, PathsAt(files, stampOf, k), stampOf);
    forall k' | HasSlot(yearTable, k') && k' != k
      ensures SlotHolds(At(yearTable, k'), k', PathsAt(files, stampOf, k'), stampOf)
    {
      assert old(allocated(yearTable.items[k'.year]));
      assert old(allocated(yearTable.items[k'.year].items[k'.month]));
      assert old(allocated(At(yearTable, k')));
    }
    CatalogsAfterPut(yearTable, files, fullPath, stampOf, rec);
    RecordsOfPutRecord(yearTable, k, rec);
    assert Catalogs(table, files + [fullPath], stampOf);
    OnlyNewRecordIsAdded(yearTable, table, rec);
  }

  /**
   * The insertion loop of `main`: starting from an empty table, every path of
   * `fileList` is filed in discovery order, which yields the catalog of the
   * whole list.
   */
  method BuildCatalog(fileList: seq<Path>, stampOf: Path -> Timestamp) returns (yearTable: YearTable)
    ensures Catalogs(yearTable, fileList, stampOf)
    ensures fresh(Records(yearTable))
  {
    yearTable := EmptyDict();
    EmptyCatalogs(stampOf);
    assert fileList[..0] == [];
    for n := 0 to |fileList|
      invariant Catalogs(yearTable, fileList[..n], stampOf)
      invariant fresh(Records(yearTable))
    {
      assert fileList[..n + 1] == fileList[..n] + [fileList[n]];
      yearTable := Insert(yearTable, fileList[n], fileList[..n], stampOf);
    }
    assert fileList[..|fileList|] == fileList;
  }
}
