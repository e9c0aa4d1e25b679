/**
 * The copy and counting loop of `main`: every record's first path is copied
 * to `outDir\year\month\baseName` unless a file is already there, the extra
 * paths of a record are counted as duplicates, and with `-d` the first path of
 * a duplicated record is dumped as `stem(i)ext` into the duplicates folder,
 * once for each of the record's paths.
 */
module Execution {
  import opened Dates
  import opened Paths
  import opened FileSystem
  import opened Dicts
  import opened References
  import opened Catalog
  import opened Enumeration

  /** The disk and the three counters of the copy pass. */
  datatype ExecState = ExecState(disk: Disk, copied: nat, duplicates: nat, alreadyExisted: nat) {
    /** The total the final report prints. */
    function Total(): nat {
      alreadyExisted + copied + duplicates
    }
  }

  /** The output folder, the duplicates folder and the `-d` flag. */
  datatype Settings = Settings(outDir: Path, duplicateDir: Path, dumpDuplicates: bool)

  /** Where the organized copy of a record goes inside its month folder. */
  function Destination(monthDir: Path, v: RecordView): Path {
    Join(monthDir, v.fileBaseName)
  }

  /** The `i`-th name of a record in the duplicates folder. */
  function DumpPath(duplicateDir: Path, v: RecordView, i: nat): Path {
    Join(duplicateDir, DumpName(v.fileNameOnly, i, v.fileExtension))
  }

  /** The dump names of one record are pairwise distinct, so none of its copies overwrites another. */
  lemma DumpPathsDistinct(duplicateDir: Path, v: RecordView, i: nat, j: nat)
    requires i != j
    ensures DumpPath(duplicateDir, v, i) != DumpPath(duplicateDir, v, j)
  {
    if DumpPath(duplicateDir, v, i) == DumpPath(duplicateDir, v, j) {
      JoinInjective(duplicateDir, DumpName(v.fileNameOnly, i, v.fileExtension), DumpName(v.fileNameOnly, j, v.fileExtension));
      DumpNameInjective(v.fileNameOnly, v.fileExtension, i, j);
    }
  }

  /**
   * Between two disks: no file or folder disappears, and a file that was
   * there keeps its bytes unless it lies in the duplicates folder while
   * dumping is on.
   */
  ghost predicate Keeps(s: Settings, d0: Disk, d1: Disk) {
    && d0.files.Keys <= d1.files.Keys
    && d0.dirs <= d1.dirs
    && forall p | p in d0.files && !(s.dumpDuplicates && UnderDir(s.duplicateDir, p)) :: d1.files[p] == d0.files[p]
  }

  lemma KeepsTransitive(s: Settings, d0: Disk, d1: Disk, d2: Disk)
    requires Keeps(s, d0, d1) && Keeps(s, d1, d2)
    ensures Keeps(s, d0, d2)
  {
  }

  /** The dump names `stem(0)ext` ... `stem(n-1)ext` of a record, inside the duplicates folder. */
  function DumpPaths(duplicateDir: Path, v: RecordView, n: nat): (r: seq<Path>)
    ensures |r| == n && forall i :: 0 <= i < n ==> r[i] == DumpPath(duplicateDir, v, i)
    ensures forall p | p in r :: UnderDir(duplicateDir, p)
  {
    if n == 0 then []
    else
      JoinIsUnderDir(duplicateDir, DumpName(v.fileNameOnly, n - 1, v.fileExtension));
      DumpPaths(duplicateDir, v, n - 1) + [DumpPath(duplicateDir, v, n - 1)]
  }

  /** `shutil.copy2(src, d)` for every `d` of `dests`, in order. */
  function CopyAll(disk: Disk, src: Path, dests: seq<Path>): (r: Disk)
    requires src in disk.files
    ensures r.dirs == disk.dirs && disk.files.Keys <= r.files.Keys
    ensures r.files[src] == disk.files[src]
  {
    if dests == [] then disk else Copy2(CopyAll(disk, src, dests[..|dests| - 1]), src, dests[|dests| - 1])
  }

  /** The files afterwards are the files before and the destinations. */
  lemma {:induction false} CopyAllFiles(disk: Disk, src: Path, dests: seq<Path>)
    requires src in disk.files
    ensures CopyAll(disk, src, dests).files.Keys == disk.files.Keys + set p | p in dests
  {
    if dests != [] {
      var init := dests[..|dests| - 1];
      CopyAllFiles(disk, src, init);
      assert dests == init + [dests[|dests| - 1]];
    }
  }

  /** One more destination is one more copy, made last. */
  lemma CopyAllSnoc(disk: Disk, src: Path, dests: seq<Path>, p: Path)
    requires src in disk.files
    ensures CopyAll(disk, src, dests + [p]) == Copy2(CopyAll(disk, src, dests), src, p)
  {
    assert (dests + [p])[..|dests|] == dests;
  }

  /** Every destination holds the bytes of `src` afterwards. */
  lemma {:induction false} CopyAllHolds(disk: Disk, src: Path, dests: seq<Path>, i: nat)
    requires src in disk.files && i < |dests|
    ensures dests[i] in CopyAll(disk, src, dests).files
    ensures CopyAll(disk, src, dests).files[dests[i]] == disk.files[src]
  {
    var init := dests[..|dests| - 1];
    if i < |dests| - 1 {
      CopyAllHolds(disk, src, init, i);
      assert init[i] == dests[i];
    }
  }

  /** Any other file keeps its bytes. */
  lemma {:induction false} CopyAllKeeps(disk: Disk, src: Path, dests: seq<Path>, p: Path)
    requires src in disk.files && p in disk.files && p !in dests
    ensures CopyAll(disk, src, dests).files[p] == disk.files[p]
  {
    if dests != [] {
      var init := dests[..|dests| - 1];
      CopyAllKeeps(disk, src, init, p);
    }
  }

  /** A file holding the bytes of `src` still holds them afterwards, as every copy is of `src`. */
  lemma {:induction false} CopyAllKeepsCopy(disk: Disk, src: Path, dests: seq<Path>, p: Path)
    requires src in disk.files && p in disk.files && disk.files[p] == disk.files[src]
    ensures CopyAll(disk, src, dests).files[p] == disk.files[src]
  {
    if dests != [] {
      CopyAllKeepsCopy(disk, src, dests[..|dests| - 1], p);
    }
  }

  /** What the copy loop does with one record of month folder `monthDir`. */
  function ExecRecord(st: ExecState, s: Settings, monthDir: Path, v: RecordView): (r: ExecState)
    requires |v.sourcePaths| > 0 && v.sourcePaths[0] in st.disk.files
    ensures st.disk.files.Keys <= r.disk.files.Keys
  {
    var src := v.sourcePaths[0];
    var dest := Destination(monthDir, v);
    var st1 :=
      if IsFile(st.disk, dest) then st.(alreadyExisted := st.alreadyExisted + 1)
      else st.(disk := Copy2(st.disk, src, dest), copied := st.copied + 1);
    if |v.sourcePaths| > 1 then
      var st2 := st1.(duplicates := st1.duplicates + |v.sourcePaths| - 1);
      if s.dumpDuplicates then
        st2.(disk := CopyAll(EnsureDir(st2.disk, s.duplicateDir), src, DumpPaths(s.duplicateDir, v, |v.sourcePaths|)))
      else st2
    else st1
  }

  /**
   * Exactly one of `copied` and `alreadyExisted` grows, `copied` exactly
   * when the destination is not a file yet; `duplicates` grows by the number
   * of extra paths, so the reported total grows by the number of paths.
   */
  lemma ExecRecordCounts(st: ExecState, s: Settings, monthDir: Path, v: RecordView)
    requires |v.sourcePaths| > 0 && v.sourcePaths[0] in st.disk.files
    ensures var r := ExecRecord(st, s, monthDir, v);
      && r.copied + r.alreadyExisted == st.copied + st.alreadyExisted + 1
      && (r.copied == st.copied + 1 <==> !IsFile(st.disk, Destination(monthDir, v)))
      && r.copied == st.copied + (if IsFile(st.disk, Destination(monthDir, v)) then 0 else 1)
      && r.alreadyExisted == st.alreadyExisted + (if IsFile(st.disk, Destination(monthDir, v)) then 1 else 0)
      && r.duplicates == st.duplicates + |v.sourcePaths| - 1
      && r.Total() == st.Total() + |v.sourcePaths|
  {
  }

  /**
   * The destination is a file afterwards, holding the primary's bytes when it
   * was absent before; an existing file is never overwritten outside the
   * duplicates folder.
   */
  lemma ExecRecordCopies(st: ExecState, s: Settings, monthDir: Path, v: RecordView)
    requires |v.sourcePaths| > 0 && v.sourcePaths[0] in st.disk.files
    ensures var r := ExecRecord(st, s, monthDir, v);
      && Destination(monthDir, v) in r.disk.files
      && (!IsFile(st.disk, Destination(monthDir, v)) ==>
            r.disk.files[Destination(monthDir, v)] == st.disk.files[v.sourcePaths[0]])
      && Keeps(s, st.disk, r.disk)
  {
    var src := v.sourcePaths[0];
    var dest := Destination(monthDir, v);
    var st1 :=
      if IsFile(st.disk, dest) then st.(alreadyExisted := st.alreadyExisted + 1)
      else st.(disk := Copy2(st.disk, src, dest), copied := st.copied + 1);
    if |v.sourcePaths| > 1 && s.dumpDuplicates {
      var d := EnsureDir(st1.disk, s.duplicateDir);
      var dests := DumpPaths(s.duplicateDir, v, |v.sourcePaths|);
      forall p | p in st.disk.files && !(s.dumpDuplicates && UnderDir(s.duplicateDir, p))
        ensures ExecRecord(st, s, monthDir, v).disk.files[p] == st.disk.files[p]
      {
        CopyAllKeeps(d, src, dests, p);
      }
      if !IsFile(st.disk, dest) {
        CopyAllKeepsCopy(d, src, dests, dest);
      }
    }
  }

  /**
   * With dumping on, a record with several paths leaves every dump name
   * `stem(0)ext` ... `stem(n-1)ext` in the duplicates folder holding the
   * primary's bytes.
   */
  lemma ExecRecordDumps(st: ExecState, s: Settings, monthDir: Path, v: RecordView)
    requires |v.sourcePaths| > 1 && v.sourcePaths[0] in st.disk.files && s.dumpDuplicates
    ensures var r := ExecRecord(st, s, monthDir, v);
      && Exists(r.disk, s.duplicateDir)
      && forall i :: 0 <= i < |v.sourcePaths| ==>
           DumpPath(s.duplicateDir, v, i) in r.disk.files
           && r.disk.files[DumpPath(s.duplicateDir, v, i)] == st.disk.files[v.sourcePaths[0]]
  {
    var src := v.sourcePaths[0];
    var dest := Destination(monthDir, v);
    var st1 :=
      if IsFile(st.disk, dest) then st.(alreadyExisted := st.alreadyExisted + 1)
      else st.(disk := Copy2(st.disk, src, dest), copied := st.copied + 1);
    assert st1.disk.files[src] == st.disk.files[src];
    forall i | 0 <= i < |v.sourcePaths|
      ensures DumpPath(s.duplicateDir, v, i) in ExecRecord(st, s, monthDir, v).disk.files
      ensures ExecRecord(st, s, monthDir, v).disk.files[DumpPath(s.duplicateDir, v, i)] == st.disk.files[src]
    {
      CopyAllHolds(EnsureDir(st1.disk, s.duplicateDir), src, DumpPaths(s.duplicateDir, v, |v.sourcePaths|), i);
    }
  }

  // ----- the records as values -----

  /** What the copy pass reads of each slot's record. */
  type Views = map<BucketKey, RecordView>

  /** `views` has exactly the slots of `t`. */
  ghost predicate Covers(t: YearTable, views: Views) {
    forall k :: k in views <==> HasSlot(t, k)
  }

  /** `views` holds, slot by slot, what the records of `t` hold now. */
  ghost predicate ViewsOf(t: YearTable, views: Views)
    reads Records(t)
  {
    && Covers(t, views)
    && forall k | HasSlot(t, k) :: AtInRecords(t, k); views[k] == At(t, k).View()
  }

  /** The views of the records of a well-formed table. */
  ghost function Snapshot(t: YearTable): (views: Views)
    requires WellFormed(t)
    reads Records(t)
    ensures ViewsOf(t, views)
  {
    SlotsEnumerate(t);
    map k | k in Slots(t) :: AtInRecords(t, k); At(t, k).View()
  }

  /** Every record's first path is a file on `disk`. */
  ghost predicate PrimariesOnDisk(views: Views, disk: Disk) {
    forall k | k in views :: |views[k].sourcePaths| > 0 && views[k].sourcePaths[0] in disk.files
  }

  lemma PrimariesStayOnDisk(views: Views, d0: Disk, d1: Disk)
    requires PrimariesOnDisk(views, d0) && d0.files.Keys <= d1.files.Keys
    ensures PrimariesOnDisk(views, d1)
  {
  }

  // ----- the three nested loops -----

  /** The innermost loop, over the base names `names` of month `m` of year `y`. */
  ghost function ExecNames(st: ExecState, s: Settings, views: Views, y: string, m: string, monthDir: Path, names: seq<string>): (r: ExecState)
    requires PrimariesOnDisk(views, st.disk)
    ensures st.disk.files.Keys <= r.disk.files.Keys
  {
    if names == [] then st
    else
      var prev := ExecNames(st, s, views, y, m, monthDir, names[..|names| - 1]);
      var k := BucketKey(y, m, names[|names| - 1]);
      if k in views then ExecRecord(prev, s, monthDir, views[k]) else prev
  }

  /** One month of year `y`: its folder is created when missing, then its names are visited. */
  ghost function ExecMonth(st: ExecState, s: Settings, t: YearTable, views: Views, y: string, m: string, yearDir: Path): (r: ExecState)
    requires PrimariesOnDisk(views, st.disk)
    ensures st.disk.files.Keys <= r.disk.files.Keys
  {
    var monthDir := Join(yearDir, m);
    var names := if y in t.items && m in t.items[y].items then t.items[y].items[m].keys else [];
    ExecNames(st.(disk := EnsureDir(st.disk, monthDir)), s, views, y, m, monthDir, names)
  }

  /** The middle loop, over the months `months` of year `y`. */
  ghost function ExecMonths(st: ExecState, s: Settings, t: YearTable, views: Views, y: string, yearDir: Path, months: seq<string>): (r: ExecState)
    requires PrimariesOnDisk(views, st.disk)
    ensures st.disk.files.Keys <= r.disk.files.Keys
  {
    if months == [] then st
    else
      var prev := ExecMonths(st, s, t, views, y, yearDir, months[..|months| - 1]);
      PrimariesStayOnDisk(views, st.disk, prev.disk);
      ExecMonth(prev, s, t, views, y, months[|months| - 1], yearDir)
  }

  /** One year: its folder is created when missing, then its months are visited. */
  ghost function ExecYear(st: ExecState, s: Settings, t: YearTable, views: Views, y: string): (r: ExecState)
    requires PrimariesOnDisk(views, st.disk)
    ensures st.disk.files.Keys <= r.disk.files.Keys
  {
    var yearDir := Join(s.outDir, y);
    var months := if y in t.items then t.items[y].keys else [];
    ExecMonths(st.(disk := EnsureDir(st.disk, yearDir)), s, t, views, y, yearDir, months)
  }

  /** The outer loop, over the years `years`. */
  ghost function ExecYears(st: ExecState, s: Settings, t: YearTable, views: Views, years: seq<string>): (r: ExecState)
    requires PrimariesOnDisk(views, st.disk)
    ensures st.disk.files.Keys <= r.disk.files.Keys
  {
    if years == [] then st
    else
      var prev := ExecYears(st, s, t, views, years[..|years| - 1]);
      PrimariesStayOnDisk(views, st.disk, prev.disk);
      ExecYear(prev, s, t, views, years[|years| - 1])
  }

  /** The first `i + 1` names are one more step of the innermost loop than the first `i`. */
  lemma ExecNamesStep(st: ExecState, s: Settings, views: Views, y: string, m: string, monthDir: Path, names: seq<string>, i: nat)
    requires PrimariesOnDisk(views, st.disk) && i < |names|
    ensures var prev := ExecNames(st, s, views, y, m, monthDir, names[..i]);
      var k := BucketKey(y, m, names[i]);
      ExecNames(st, s, views, y, m, monthDir, names[..i + 1]) ==
        if k in views then ExecRecord(prev, s, monthDir, views[k]) else prev
  {
    assert names[..i + 1][..i] == names[..i];
  }

  /** The first `i + 1` months are one more step of the middle loop than the first `i`. */
  lemma ExecMonthsStep(st: ExecState, s: Settings, t: YearTable, views: Views, y: string, yearDir: Path, months: seq<string>, i: nat)
    requires PrimariesOnDisk(views, st.disk) && i < |months|
    ensures var prev := ExecMonths(st, s, t, views, y, yearDir, months[..i]);
      && PrimariesOnDisk(views, prev.disk)
      && ExecMonths(st, s, t, views, y, yearDir, months[..i + 1]) == ExecMonth(prev, s, t, views, y, months[i], yearDir)
  {
    assert months[..i + 1][..i] == months[..i];
    PrimariesStayOnDisk(views, st.disk, ExecMonths(st, s, t, views, y, yearDir, months[..i]).disk);
  }

  /** The first `i + 1` years are one more step of the outer loop than the first `i`. */
  lemma ExecYearsStep(st: ExecState, s: Settings, t: YearTable, views: Views, years: seq<string>, i: nat)
    requires PrimariesOnDisk(views, st.disk) && i < |years|
    ensures var prev := ExecYears(st, s, t, views, years[..i]);
      && PrimariesOnDisk(views, prev.disk)
      && ExecYears(st, s, t, views, years[..i + 1]) == ExecYear(prev, s, t, views, years[i])
  {
    assert years[..i + 1][..i] == years[..i];
    PrimariesStayOnDisk(views, st.disk, ExecYears(st, s, t, views, years[..i]).disk);
  }

  // ----- the counters -----

  lemma {:induction false} ExecNamesCounts(st: ExecState, s: Settings, t: YearTable, views: Views, y: string, m: string, monthDir: Path, names: seq<string>)
    requires ViewsOf(t, views) && PrimariesOnDisk(views, st.disk)
    ensures var r := ExecNames(st, s, views, y, m, monthDir, names);
      && r.copied + r.alreadyExisted == st.copied + st.alreadyExisted + SlotCount(t, NameSlots(y, m, names))
      && r.Total() == st.Total() + HeldCount(t, NameSlots(y, m, names))
  {
    if names != [] {
      var init := names[..|names| - 1];
      ExecNamesCounts(st, s, t, views, y, m, monthDir, init);
      var k := BucketKey(y, m, names[|names| - 1]);
      assert NameSlots(y, m, names)[..|names| - 1] == NameSlots(y, m, init);
      if HasSlot(t, k) {
        AtInRecords(t, k);
        ExecRecordCounts(ExecNames(st, s, views, y, m, monthDir, init), s, monthDir, views[k]);
      }
    }
  }

  lemma {:induction false} ExecMonthsCounts(st: ExecState, s: Settings, t: YearTable, views: Views, y: string, yearDir: Path, months: seq<string>)
    requires ViewsOf(t, views) && PrimariesOnDisk(views, st.disk) && y in t.items
    ensures var r := ExecMonths(st, s, t, views, y, yearDir, months);
      && r.copied + r.alreadyExisted == st.copied + st.alreadyExisted + SlotCount(t, MonthSlots(y, t.items[y], months))
      && r.Total() == st.Total() + HeldCount(t, MonthSlots(y, t.items[y], months))
  {
    if months != [] {
      var init := months[..|months| - 1];
      var m := months[|months| - 1];
      var yd := t.items[y];
      ExecMonthsCounts(st, s, t, views, y, yearDir, init);
      var prev := ExecMonths(st, s, t, views, y, yearDir, init);
      PrimariesStayOnDisk(views, st.disk, prev.disk);
      var monthDir := Join(yearDir, m);
      var names := if m in yd.items then yd.items[m].keys else [];
      ExecNamesCounts(prev.(disk := EnsureDir(prev.disk, monthDir)), s, t, views, y, m, monthDir, names);
      CountsOfAppend(t, MonthSlots(y, yd, init), NameSlots(y, m, names));
    }
  }

  lemma {:induction false} ExecYearsCounts(st: ExecState, s: Settings, t: YearTable, views: Views, years: seq<string>)
    requires ViewsOf(t, views) && PrimariesOnDisk(views, st.disk)
    ensures var r := ExecYears(st, s, t, views, years);
      && r.copied + r.alreadyExisted == st.copied + st.alreadyExisted + SlotCount(t, YearSlots(t, years))
      && r.Total() == st.Total() + HeldCount(t, YearSlots(t, years))
  {
    if years != [] {
      var init := years[..|years| - 1];
      var y := years[|years| - 1];
      ExecYearsCounts(st, s, t, views, init);
      var prev := ExecYears(st, s, t, views, init);
      PrimariesStayOnDisk(views, st.disk, prev.disk);
      var yearDir := Join(s.outDir, y);
      var st1 := prev.(disk := EnsureDir(prev.disk, yearDir));
      if y in t.items {
        ExecMonthsCounts(st1, s, t, views, y, yearDir, t.items[y].keys);
        CountsOfAppend(t, YearSlots(t, init), MonthSlots(y, t.items[y], t.items[y].keys));
      } else {
        CountsOfAppend(t, YearSlots(t, init), []);
      }
    }
  }

  // ----- the disk -----

  lemma {:induction false} ExecNamesPlaces(st: ExecState, s: Settings, views: Views, y: string, m: string, monthDir: Path, names: seq<string>)
    requires PrimariesOnDisk(views, st.disk)
    ensures Keeps(s, st.disk, ExecNames(st, s, views, y, m, monthDir, names).disk)
    ensures forall f | f in names && BucketKey(y, m, f) in views ::
      Destination(monthDir, views[BucketKey(y, m, f)]) in ExecNames(st, s, views, y, m, monthDir, names).disk.files
  {
    if names != [] {
      var init := names[..|names| - 1];
      ExecNamesPlaces(st, s, views, y, m, monthDir, init);
      var prev := ExecNames(st, s, views, y, m, monthDir, init);
      var k := BucketKey(y, m, names[|names| - 1]);
      if k in views {
        ExecRecordCopies(prev, s, monthDir, views[k]);
        KeepsTransitive(s, st.disk, prev.disk, ExecNames(st, s, views, y, m, monthDir, names).disk);
      }
      assert forall f | f in names :: f in init || f == names[|names| - 1];
    }
  }

  lemma {:induction false} ExecMonthsPlaces(st: ExecState, s: Settings, t: YearTable, views: Views, y: string, yearDir: Path, months: seq<string>)
    requires Covers(t, views) && PrimariesOnDisk(views, st.disk) && WellFormed(t)
    ensures Keeps(s, st.disk, ExecMonths(st, s, t, views, y, yearDir, months).disk)
    ensures forall k | k in views && k.year == y && k.month in months ::
      Destination(Join(yearDir, k.month), views[k]) in ExecMonths(st, s, t, views, y, yearDir, months).disk.files
  {
    if months != [] {
      var init := months[..|months| - 1];
      var m := months[|months| - 1];
      ExecMonthsPlaces(st, s, t, views, y, yearDir, init);
      var prev := ExecMonths(st, s, t, views, y, yearDir, init);
      PrimariesStayOnDisk(views, st.disk, prev.disk);
      var monthDir := Join(yearDir, m);
      var names := if y in t.items && m in t.items[y].items then t.items[y].items[m].keys else [];
      var st1 := prev.(disk := EnsureDir(prev.disk, monthDir));
      ExecNamesPlaces(st1, s, views, y, m, monthDir, names);
      var r := ExecMonths(st, s, t, views, y, yearDir, months);
      KeepsTransitive(s, prev.disk, st1.disk, r.disk);
      KeepsTransitive(s, st.disk, prev.disk, r.disk);
      forall k | k in views && k.year == y && k.month in months
        ensures Destination(Join(yearDir, k.month), views[k]) in r.disk.files
      {
        if k.month == m {
          assert HasSlot(t, k);
          assert k.baseName in names && k == BucketKey(y, m, k.baseName);
        }
      }
    }
  }

  lemma {:induction false} ExecYearsPlaces(st: ExecState, s: Settings, t: YearTable, views: Views, years: seq<string>)
    requires Covers(t, views) && PrimariesOnDisk(views, st.disk) && WellFormed(t)
    ensures Keeps(s, st.disk, ExecYears(st, s, t, views, years).disk)
    ensures forall k | k in views && k.year in years ::
      Destination(Join(Join(s.outDir, k.year), k.month), views[k]) in ExecYears(st, s, t, views, years).disk.files
  {
    if years != [] {
      var init := years[..|years| - 1];
      var y := years[|years| - 1];
      ExecYearsPlaces(st, s, t, views, init);
      var prev := ExecYears(st, s, t, views, init);
      PrimariesStayOnDisk(views, st.disk, prev.disk);
      var yearDir := Join(s.outDir, y);
      var months := if y in t.items then t.items[y].keys else [];
      var st1 := prev.(disk := EnsureDir(prev.disk, yearDir));
      ExecMonthsPlaces(st1, s, t, views, y, yearDir, months);
      var r := ExecYears(st, s, t, views, years);
      KeepsTransitive(s, prev.disk, st1.disk, r.disk);
      KeepsTransitive(s, st.disk, prev.disk, r.disk);
      forall k | k in views && k.year in years
        ensures Destination(Join(Join(s.outDir, k.year), k.month), views[k]) in r.disk.files
      {
        if k.year == y {
          assert HasSlot(t, k);
          assert k.month in months;
        }
      }
    }
  }

  // ----- the report -----

  /**
   * The record a catalog slot holds copies to `outDir\year\month\baseName`
   * and, when dumped, to `stem(i)ext` names made from `splitext` of the
   * slot's base name.
   */
  lemma SlotDumpNames(t: YearTable, files: seq<Path>, stampOf: Path -> Timestamp, views: Views, k: BucketKey, dir: Path, i: nat)
    requires Catalogs(t, files, stampOf) && ViewsOf(t, views) && HasSlot(t, k)
    ensures k in views && views[k].fileBaseName == k.baseName
    ensures DumpPath(dir, views[k], i) == Join(dir, DumpName(SplitExt(k.baseName).0, i, SplitExt(k.baseName).1))
  {
    AtInRecords(t, k);
    assert SlotHolds(At(t, k), k, PathsAt(files, stampOf, k), stampOf);
  }

  /**
   * The copy pass over the catalog of `files`: one primary per slot is
   * copied or found already there, every other path is counted as a
   * duplicate, so the reported total is the number of paths found; no file
   * outside the duplicates folder is overwritten, and every slot ends with a
   * file at `outDir\year\month\baseName`.
   */
  lemma CopyPassReport(t: YearTable, files: seq<Path>, stampOf: Path -> Timestamp, views: Views, disk: Disk, s: Settings)
    requires Catalogs(t, files, stampOf) && ViewsOf(t, views) && PrimariesOnDisk(views, disk)
    ensures var r := ExecYears(ExecState(disk, 0, 0, 0), s, t, views, t.keys);
      && r.copied + r.alreadyExisted == |Slots(t)|
      && r.duplicates == |files| - |Slots(t)|
      && r.Total() == |files|
      && Keeps(s, disk, r.disk)
      && forall k | HasSlot(t, k) :: Join(Join(Join(s.outDir, k.year), k.month), k.baseName) in r.disk.files
  {
    var st0 := ExecState(disk, 0, 0, 0);
    var r := ExecYears(st0, s, t, views, t.keys);
    SlotsEnumerate(t);
    ExecYearsCounts(st0, s, t, views, t.keys);
    SlotCountOfSlots(t, Slots(t));
    CatalogHoldsEveryPath(t, files, stampOf);
    ExecYearsPlaces(st0, s, t, views, t.keys);
    forall k | HasSlot(t, k) ensures Join(Join(Join(s.outDir, k.year), k.month), k.baseName) in r.disk.files {
      AtInRecords(t, k);
      assert SlotHolds(At(t, k), k, PathsAt(files, stampOf, k), stampOf);
      assert k.year in t.keys;
    }
  }

  // ----- the loops as written -----

  /** The dump loop of `-d`: the primary `inFilePath` of record `v` is copied to each of its dump names. */
  method DumpCopies(disk: Disk, inFilePath: Path, duplicateDir: Path, v: RecordView) returns (d: Disk)
    requires inFilePath in disk.files
    ensures d == CopyAll(disk, inFilePath, DumpPaths(duplicateDir, v, |v.sourcePaths|))
  {
    d := disk;
    for i := 0 to |v.sourcePaths|
      invariant d == CopyAll(disk, inFilePath, DumpPaths(duplicateDir, v, i))
    {
      var duplicateOutFilePath := Join(duplicateDir, DumpName(v.fileNameOnly, i, v.fileExtension));
      CopyAllSnoc(disk, inFilePath, DumpPaths(duplicateDir, v, i), duplicateOutFilePath);
      d := Copy2(d, inFilePath, duplicateOutFilePath);
    }
  }

  /** The copy loop's body for one record. */
  method CopyRecord(st: ExecState, s: Settings, monthDir: Path, fileRefs: FileReferences) returns (r: ExecState)
    requires |fileRefs.sourcePaths| > 0 && fileRefs.sourcePaths[0] in st.disk.files
    ensures r == ExecRecord(st, s, monthDir, fileRefs.View())
  {
    var v := fileRefs.View();
    var inFilePath := fileRefs.sourcePaths[0];
    var outFilePath := Join(monthDir, fileRefs.fileBaseName);
    r := st;
    if IsFile(r.disk, outFilePath) {
      r := r.(alreadyExisted := r.alreadyExisted + 1);
    } else {
      r := r.(disk := Copy2(r.disk, inFilePath, outFilePath), copied := r.copied + 1);
    }
    if fileRefs.AreDuplicates() {
      r := r.(duplicates := r.duplicates + (|fileRefs.sourcePaths| - 1));
      if s.dumpDuplicates {
        var disk := r.disk;
        if !Exists(disk, s.duplicateDir) {
          disk := MakeDirs(disk, s.duplicateDir);
        }
        assert disk == EnsureDir(r.disk, s.duplicateDir);
        disk := DumpCopies(disk, inFilePath, s.duplicateDir, v);
        assert fileRefs.View() == v;
        r := r.(disk := disk);
      }
    }
  }

  /** One month folder: created when missing, then the records of its names in insertion order. */
  method CopyMonth(st: ExecState, s: Settings, yearTable: YearTable, ghost views: Views, year: string, month: string, yearDir: Path)
    returns (r: ExecState)
    requires WellFormed(yearTable) && ViewsOf(yearTable, views) && PrimariesOnDisk(views, st.disk)
    requires year in yearTable.items && month in yearTable.items[year].items
    ensures r == ExecMonth(st, s, yearTable, views, year, month, yearDir)
  {
    var monthDir := Join(yearDir, month);
    r := st;
    if !Exists(r.disk, monthDir) {
      r := r.(disk := MakeDirs(r.disk, monthDir));
    }
    ghost var st1 := r;
    var monthDict := yearTable.items[year].items[month];
    for l := 0 to |monthDict.keys|
      invariant unchanged(Records(yearTable))
      invariant r == ExecNames(st1, s, views, year, month, monthDir, monthDict.keys[..l])
    {
      var file := monthDict.keys[l];
      var fileRefs := monthDict.items[file];
      ghost var k := BucketKey(year, month, file);
      assert HasSlot(yearTable, k) && fileRefs == At(yearTable, k);
      PrimariesStayOnDisk(views, st1.disk, r.disk);
      ExecNamesStep(st1, s, views, year, month, monthDir, monthDict.keys, l);
      r := CopyRecord(r, s, monthDir, fileRefs);
      assert fileRefs.View() == views[k];
    }
    assert monthDict.keys[..|monthDict.keys|] == monthDict.keys;
  }

  /** One year folder: created when missing, then its months in insertion order. */
  method CopyYear(st: ExecState, s: Settings, yearTable: YearTable, ghost views: Views, year: string) returns (r: ExecState)
    requires WellFormed(yearTable) && ViewsOf(yearTable, views) && PrimariesOnDisk(views, st.disk)
    requires year in yearTable.items
    ensures r == ExecYear(st, s, yearTable, views, year)
  {
    var yearDir := Join(s.outDir, year);
    r := st;
    if !Exists(r.disk, yearDir) {
      r := r.(disk := MakeDirs(r.disk, yearDir));
    }
    ghost var st1 := r;
    var yearDict := yearTable.items[year];
    for j := 0 to |yearDict.keys|
      invariant unchanged(Records(yearTable))
      invariant r == ExecMonths(st1, s, yearTable, views, year, yearDir, yearDict.keys[..j])
    {
      var month := yearDict.keys[j];
      ExecMonthsStep(st1, s, yearTable, views, year, yearDir, yearDict.keys, j);
      assert ViewsOf(yearTable, views);
      r := CopyMonth(r, s, yearTable, views, year, month, yearDir);
    }
    assert yearDict.keys[..|yearDict.keys|] == yearDict.keys;
  }

  /**
   * The copy loop of `main`, from counters at zero: every year of the table
   * in insertion order.
   */
  method Execute(yearTable: YearTable, disk: Disk, s: Settings, ghost views: Views) returns (r: ExecState)
    requires WellFormed(yearTable) && ViewsOf(yearTable, views) && PrimariesOnDisk(views, disk)
    ensures r == ExecYears(ExecState(disk, 0, 0, 0), s, yearTable, views, yearTable.keys)
  {
    var st0 := ExecState(disk, 0, 0, 0);
    r := st0;
    for i := 0 to |yearTable.keys|
      invariant unchanged(Records(yearTable))
      invariant r == ExecYears(st0, s, yearTable, views, yearTable.keys[..i])
    {
      var year := yearTable.keys[i];
      ExecYearsStep(st0, s, yearTable, views, yearTable.keys, i);
      assert PrimariesOnDisk(views, r.disk);
      assert year in yearTable.items && ViewsOf(yearTable, views);
      r := CopyYear(r, s, yearTable, views, year);
    }
    assert yearTable.keys[..|yearTable.keys|] == yearTable.keys;
  }
}
