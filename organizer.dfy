/**
 * `main` once its arguments are parsed and the input folder is walked: the
 * discovered paths are filed into the catalog, every name collision is
 * validated as a pure duplicate, and only then is anything copied.
 */
module Organizer {
  import opened Dates
  import opened Paths
  import opened FileSystem
  import opened Dicts
  import opened References
  import opened Catalog
  import opened Enumeration
  import opened Insertion
  import opened Validation
  import opened Execution
  import opened Layout

  /** How a run ends: halted by a false duplicate, or with the final disk and counters. */
  datatype Outcome = Halted | Done(report: ExecState)

  /** The duplicates folder: `outDir + "\\duplicates"`, a plain concatenation. */
  function DuplicateDir(outDir: Path): (r: Path)
    ensures |r| == |outDir| + 11 && r[..|outDir|] == outDir
    ensures r[|outDir|..] == "\\duplicates"
  {
    outDir + "\\duplicates"
  }

  /** Where the organized copy of `p` goes: `outDir\year\month\baseName`. */
  function OrganizedPath(outDir: Path, p: Path, stampOf: Path -> Timestamp): Path {
    Join(Join(Join(outDir, YearKey(stampOf(p))), MonthKey(stampOf(p))), BaseName(p))
  }

  /** The `i`-th dump name of `p` in `outDir\duplicates`: `stem(i)ext`, from `splitext` of its base name. */
  function DumpTarget(outDir: Path, p: Path, i: nat): Path {
    Join(DuplicateDir(outDir), DumpName(SplitExt(BaseName(p)).0, i, SplitExt(BaseName(p)).1))
  }

  /** No listed path lies in the duplicates folder. */
  predicate OutsideDuplicates(fileList: seq<Path>, outDir: Path) {
    forall q | q in fileList :: !UnderDir(DuplicateDir(outDir), q)
  }

  /**
   * A file a run may create: the organized location of a listed path or,
   * with dumping on, the `i`-th dump name of a listed path whose slot holds
   * several paths, for `i` below their number.
   */
  ghost predicate CreatedFor(fileList: seq<Path>, stampOf: Path -> Timestamp, outDir: Path, dumpDuplicates: bool, q: Path) {
    || (exists p | p in fileList :: q == OrganizedPath(outDir, p, stampOf))
    || (dumpDuplicates && exists p, i | p in fileList && 1 < |PathsAt(fileList, stampOf, KeyOf(p, stampOf))| && 0 <= i < |PathsAt(fileList, stampOf, KeyOf(p, stampOf))| ::
          q == DumpTarget(outDir, p, i))
  }

  /** The slots the paths of `files` map to. */
  ghost function KeysOf(files: seq<Path>, stampOf: Path -> Timestamp): set<BucketKey> {
    set p | p in files :: KeyOf(p, stampOf)
  }

  /** Any two paths filed under the same year, month and base name have the same bytes. */
  ghost predicate SameKeySameBytes(files: seq<Path>, stampOf: Path -> Timestamp, disk: Disk)
    requires forall p | p in files :: p in disk.files
  {
    forall i, j | 0 <= i < |files| && 0 <= j < |files| && KeyOf(files[i], stampOf) == KeyOf(files[j], stampOf) ::
      disk.files[files[i]] == disk.files[files[j]]
  }

  /** The catalog of paths that are all files on `disk` has all its sources on `disk`. */
  lemma CatalogSourcesOnDisk(t: YearTable, files: seq<Path>, stampOf: Path -> Timestamp, disk: Disk)
    requires Catalogs(t, files, stampOf) && forall p | p in files :: p in disk.files
    ensures SourcesOnDisk(t, disk)
  {
    forall k | HasSlot(t, k)
      ensures |At(t, k).sourcePaths| > 0
      ensures forall i :: 0 <= i < |At(t, k).sourcePaths| ==> At(t, k).sourcePaths[i] in disk.files
    {
      AtInRecords(t, k);
      assert SlotHolds(At(t, k), k, PathsAt(files, stampOf, k), stampOf);
    }
  }

  /** A pure catalog has same-key paths with the same bytes. */
  lemma PureCatalogSameBytes(t: YearTable, files: seq<Path>, stampOf: Path -> Timestamp, disk: Disk, i: nat, j: nat)
    requires Catalogs(t, files, stampOf) && SourcesOnDisk(t, disk) && AllPure(t, disk)
    requires forall p | p in files :: p in disk.files
    requires i < |files| && j < |files| && KeyOf(files[i], stampOf) == KeyOf(files[j], stampOf)
    ensures disk.files[files[i]] == disk.files[files[j]]
  {
    var k := KeyOf(files[i], stampOf);
    PathsAtComplete(files, stampOf, i);
    PathsAtComplete(files, stampOf, j);
    assert HasSlot(t, k);
    AtInRecords(t, k);
    var paths := At(t, k).sourcePaths;
    assert SlotHolds(At(t, k), k, PathsAt(files, stampOf, k), stampOf);
    assert PureAt(t, k, disk);
    PureMeansPairwiseIdentical(paths, disk);
    var a :| 0 <= a < |paths| && paths[a] == files[i];
    var b :| 0 <= b < |paths| && paths[b] == files[j];
    assert disk.files[paths[a]] == disk.files[paths[b]];
  }

  /** Same-key paths with the same bytes make every record of their catalog pure. */
  lemma SameBytesPureAt(t: YearTable, files: seq<Path>, stampOf: Path -> Timestamp, disk: Disk, k: BucketKey)
    requires Catalogs(t, files, stampOf) && SourcesOnDisk(t, disk) && HasSlot(t, k)
    requires forall p | p in files :: p in disk.files
    requires SameKeySameBytes(files, stampOf, disk)
    ensures PureAt(t, k, disk)
  {
    AtInRecords(t, k);
    var paths := At(t, k).sourcePaths;
    assert SlotHolds(At(t, k), k, PathsAt(files, stampOf, k), stampOf);
    forall n | 1 <= n < |paths| ensures SameContent(disk, paths[0], paths[n]) {
      assert paths[0] in files && KeyOf(paths[0], stampOf) == k;
      assert paths[n] in files && KeyOf(paths[n], stampOf) == k;
      var a :| 0 <= a < |files| && files[a] == paths[0];
      var b :| 0 <= b < |files| && files[b] == paths[n];
    }
  }

  /** What the validation loop checks is that same-key paths have the same bytes. */
  lemma PurityOfCatalog(t: YearTable, files: seq<Path>, stampOf: Path -> Timestamp, disk: Disk)
    requires Catalogs(t, files, stampOf) && forall p | p in files :: p in disk.files
    ensures SourcesOnDisk(t, disk)
    ensures AllPure(t, disk) <==> SameKeySameBytes(files, stampOf, disk)
  {
    CatalogSourcesOnDisk(t, files, stampOf, disk);
    if AllPure(t, disk) {
      forall i, j | 0 <= i < |files| && 0 <= j < |files| && KeyOf(files[i], stampOf) == KeyOf(files[j], stampOf)
        ensures disk.files[files[i]] == disk.files[files[j]]
      {
        PureCatalogSameBytes(t, files, stampOf, disk, i, j);
      }
    }
    if SameKeySameBytes(files, stampOf, disk) {
      forall k | HasSlot(t, k) ensures PureAt(t, k, disk) {
        SameBytesPureAt(t, files, stampOf, disk, k);
      }
    }
  }

  /** A slot of the catalog is the key of some path, and the key of a path is a slot. */
  lemma SlotIffKey(t: YearTable, files: seq<Path>, stampOf: Path -> Timestamp, k: BucketKey)
    requires Catalogs(t, files, stampOf)
    ensures HasSlot(t, k) <==> k in KeysOf(files, stampOf)
  {
    if HasSlot(t, k) {
      var paths := PathsAt(files, stampOf, k);
      assert paths[0] in paths;
    }
    if k in KeysOf(files, stampOf) {
      var p :| p in files && KeyOf(p, stampOf) == k;
      var i :| 0 <= i < |files| && files[i] == p;
      PathsAtComplete(files, stampOf, i);
    }
  }

  /** The table has one slot per key the paths map to. */
  lemma SlotsAreKeys(t: YearTable, files: seq<Path>, stampOf: Path -> Timestamp)
    requires Catalogs(t, files, stampOf)
    ensures |Slots(t)| == |KeysOf(files, stampOf)|
  {
    SlotsEnumerate(t);
    forall k ensures k in Slots(t) <==> k in KeysOf(files, stampOf) {
      SlotIffKey(t, files, stampOf, k);
    }
    assert (set k | k in Slots(t)) == KeysOf(files, stampOf);
    DistinctCardinality(Slots(t));
  }

  /** The primaries of a snapshot are files when all sources are. */
  lemma ViewsOnDisk(t: YearTable, views: Views, disk: Disk)
    requires SourcesOnDisk(t, disk) && ViewsOf(t, views)
    ensures PrimariesOnDisk(views, disk)
  {
    forall k | k in views ensures |views[k].sourcePaths| > 0 && views[k].sourcePaths[0] in disk.files {
      AtInRecords(t, k);
    }
  }

  /**
   * The copy pass over the catalog of a validated `fileList`, in the terms of
   * the listed paths: a path whose organized location was not a file before
   * finds its own bytes there, unless dumping is on and some listed path lies
   * in the duplicates folder.
   */
  lemma RunDelivers(t: YearTable, fileList: seq<Path>, stampOf: Path -> Timestamp, views: Views, disk: Disk, outDir: Path, dumpDuplicates: bool)
    requires Catalogs(t, fileList, stampOf) && ViewsOf(t, views) && PrimariesOnDisk(views, disk)
    requires forall p | p in fileList :: p in disk.files
    requires SameKeySameBytes(fileList, stampOf, disk)
    ensures var r := ExecYears(ExecState(disk, 0, 0, 0), Settings(outDir, DuplicateDir(outDir), dumpDuplicates), t, views, t.keys);
      forall p | p in fileList && OrganizedPath(outDir, p, stampOf) !in disk.files && (dumpDuplicates ==> OutsideDuplicates(fileList, outDir)) ::
        OrganizedPath(outDir, p, stampOf) in r.disk.files && r.disk.files[OrganizedPath(outDir, p, stampOf)] == disk.files[p]
  {
    var s := Settings(outDir, DuplicateDir(outDir), dumpDuplicates);
    var r := ExecYears(ExecState(disk, 0, 0, 0), s, t, views, t.keys);
    CopyPassLayout(t, fileList, stampOf, views, disk, s);
    forall p | p in fileList && OrganizedPath(outDir, p, stampOf) !in disk.files && (dumpDuplicates ==> OutsideDuplicates(fileList, outDir))
      ensures OrganizedPath(outDir, p, stampOf) in r.disk.files && r.disk.files[OrganizedPath(outDir, p, stampOf)] == disk.files[p]
    {
      DeliveredIsOwnBytes(t, fileList, stampOf, views, disk, r.disk, outDir, dumpDuplicates, p);
    }
  }

  /**
   * The copy pass over the catalog of `fileList` creates no file but the
   * organized locations of listed paths and, with dumping on, the
   * `stem(i)ext` names of listed paths whose slots hold several paths.
   */
  lemma RunCreates(t: YearTable, fileList: seq<Path>, stampOf: Path -> Timestamp, views: Views, disk: Disk, outDir: Path, dumpDuplicates: bool)
    requires Catalogs(t, fileList, stampOf) && ViewsOf(t, views) && PrimariesOnDisk(views, disk)
    ensures var r := ExecYears(ExecState(disk, 0, 0, 0), Settings(outDir, DuplicateDir(outDir), dumpDuplicates), t, views, t.keys);
      forall q | q in r.disk.files && q !in disk.files :: CreatedFor(fileList, stampOf, outDir, dumpDuplicates, q)
  {
    var s := Settings(outDir, DuplicateDir(outDir), dumpDuplicates);
    var r := ExecYears(ExecState(disk, 0, 0, 0), s, t, views, t.keys);
    CopyPassLayout(t, fileList, stampOf, views, disk, s);
    forall q | q in r.disk.files && q !in disk.files
      ensures CreatedFor(fileList, stampOf, outDir, dumpDuplicates, q)
    {
      var k :| k in views && MadeFor(s, views, k, q);
      MadeIsCreated(t, fileList, stampOf, views, outDir, dumpDuplicates, k, q);
    }
  }

  /** A slot's delivery gives each of its listed paths' organized location that path's own bytes, once same-key paths agree. */
  lemma DeliveredIsOwnBytes(t: YearTable, fileList: seq<Path>, stampOf: Path -> Timestamp, views: Views, disk: Disk, d1: Disk, outDir: Path, dumpDuplicates: bool, p: Path)
    requires Catalogs(t, fileList, stampOf) && ViewsOf(t, views)
    requires forall q | q in fileList :: q in disk.files
    requires SameKeySameBytes(fileList, stampOf, disk)
    requires p in fileList && OrganizedPath(outDir, p, stampOf) !in disk.files && (dumpDuplicates ==> OutsideDuplicates(fileList, outDir))
    requires Delivered(Settings(outDir, DuplicateDir(outDir), dumpDuplicates), views, disk, d1, KeyOf(p, stampOf))
    ensures OrganizedPath(outDir, p, stampOf) in d1.files && d1.files[OrganizedPath(outDir, p, stampOf)] == disk.files[p]
  {
    var i :| 0 <= i < |fileList| && fileList[i] == p;
    var k := KeyOf(p, stampOf);
    PathsAtComplete(fileList, stampOf, i);
    assert HasSlot(t, k);
    AtInRecords(t, k);
    assert SlotHolds(At(t, k), k, PathsAt(fileList, stampOf, k), stampOf);
    var src := PathsAt(fileList, stampOf, k)[0];
    assert src in PathsAt(fileList, stampOf, k);
    assert views[k].sourcePaths[0] == src;
    assert OrganizedPath(outDir, p, stampOf) == OrganizedOf(outDir, k);
    var j :| 0 <= j < |fileList| && fileList[j] == src;
    assert disk.files[fileList[j]] == disk.files[fileList[i]];
  }

  /** What the copy pass makes for a slot is created for the slot's first listed path. */
  lemma MadeIsCreated(t: YearTable, fileList: seq<Path>, stampOf: Path -> Timestamp, views: Views, outDir: Path, dumpDuplicates: bool, k: BucketKey, q: Path)
    requires Catalogs(t, fileList, stampOf) && ViewsOf(t, views)
    requires k in views && MadeFor(Settings(outDir, DuplicateDir(outDir), dumpDuplicates), views, k, q)
    ensures CreatedFor(fileList, stampOf, outDir, dumpDuplicates, q)
  {
    var s := Settings(outDir, DuplicateDir(outDir), dumpDuplicates);
    assert HasSlot(t, k);
    AtInRecords(t, k);
    assert SlotHolds(At(t, k), k, PathsAt(fileList, stampOf, k), stampOf);
    var p := PathsAt(fileList, stampOf, k)[0];
    assert p in PathsAt(fileList, stampOf, k);
    if q == OrganizedOf(outDir, k) {
      assert q == OrganizedPath(outDir, p, stampOf);
    } else {
      MadeForDump(s, views, k, q);
      var i :| 0 <= i < |views[k].sourcePaths| && q == DumpPath(s.duplicateDir, views[k], i);
      SlotDumpNames(t, fileList, stampOf, views, k, s.duplicateDir, i);
      assert q == DumpTarget(outDir, p, i);
    }
  }

  /**
   * A run over the discovered paths `fileList`: it halts, copying nothing,
   * exactly when two paths with the same year, month and base name differ in
   * content; otherwise every path gets its organized copy location filled,
   * the counters add up to the number of paths, and no file outside the
   * duplicates folder is overwritten.
   */
  method Run(fileList: seq<Path>, stampOf: Path -> Timestamp, disk: Disk, outDir: Path, dumpDuplicates: bool)
    returns (outcome: Outcome)
    requires forall p | p in fileList :: p in disk.files
    ensures outcome.Halted? <==> !SameKeySameBytes(fileList, stampOf, disk)
    ensures outcome.Done? ==>
      var r := outcome.report;
      && r.Total() == |fileList|
      && r.copied + r.alreadyExisted == |KeysOf(fileList, stampOf)|
      && r.duplicates == |fileList| - |KeysOf(fileList, stampOf)|
      && Keeps(Settings(outDir, DuplicateDir(outDir), dumpDuplicates), disk, r.disk)
      && (forall p | p in fileList :: OrganizedPath(outDir, p, stampOf) in r.disk.files)
      && (forall p | p in fileList && OrganizedPath(outDir, p, stampOf) !in disk.files && (dumpDuplicates ==> OutsideDuplicates(fileList, outDir)) ::
            r.disk.files[OrganizedPath(outDir, p, stampOf)] == disk.files[p])
      && forall q | q in r.disk.files && q !in disk.files :: CreatedFor(fileList, stampOf, outDir, dumpDuplicates, q)
  {
    var duplicateDir := DuplicateDir(outDir);
    var settings := Settings(outDir, duplicateDir, dumpDuplicates);
    var yearTable := BuildCatalog(fileList, stampOf);

    PurityOfCatalog(yearTable, fileList, stampOf, disk);
    SlotsAreKeys(yearTable, fileList, stampOf);
    ghost var views := Snapshot(yearTable);
    ViewsOnDisk(yearTable, views, disk);
    CopyPassReport(yearTable, fileList, stampOf, views, disk, settings);
    forall p | p in fileList
      ensures OrganizedPath(outDir, p, stampOf) in ExecYears(ExecState(disk, 0, 0, 0), settings, yearTable, views, yearTable.keys).disk.files
    {
      var i :| 0 <= i < |fileList| && fileList[i] == p;
      PathsAtComplete(fileList, stampOf, i);
    }

    var ok := ValidateCatalog(yearTable, disk);
    if !ok {
      return Halted;
    }
    RunDelivers(yearTable, fileList, stampOf, views, disk, outDir, dumpDuplicates);
    RunCreates(yearTable, fileList, stampOf, views, disk, outDir, dumpDuplicates);
    var report := Execute(yearTable, disk, settings, views);
    return Done(report);
  }
}
