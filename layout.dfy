/**
 * What the copy pass leaves on disk across the whole run: every slot's
 * organized path holds the bytes of the slot's first path, the only new
 * files are organized paths and dump names, and a second pass over the disk
 * the first one left copies nothing.
 */
module Layout {
  import opened Dates
  import opened Paths
  import opened FileSystem
  import opened Dicts
  import opened References
  import opened Catalog
  import opened Enumeration
  import opened Execution

  // ----- organized paths -----

  /** `outDir\year\month\baseName` of slot `k`. */
  function OrganizedOf(outDir: Path, k: BucketKey): Path {
    Join(Join(Join(outDir, k.year), k.month), k.baseName)
  }

  /** The shape `%Y` and `%m_%b` give the keys: four characters from a digit on, six characters, neither ending in a separator. */
  predicate Shaped(k: BucketKey) {
    && |k.year| == 4 && IsDigit(k.year[0]) && !IsSep(k.year[3])
    && |k.month| == 6 && !IsSep(k.month[5])
  }

  /** Every key made from a timestamp has that shape. */
  lemma KeysShaped(t: Timestamp, baseName: string)
    ensures Shaped(BucketKey(YearKey(t), MonthKey(t), baseName))
  {
    var m := MonthKey(t);
    assert m[5] == m[3..][2] == Abbreviation(t.month)[2];
  }

  /** An organized path spelled out: the output prefix, the year, `\`, the month, `\`, the base name. */
  lemma OrganizedForm(outDir: Path, k: BucketKey)
    requires Shaped(k)
    ensures OrganizedOf(outDir, k) == Join(outDir, []) + k.year + "\\" + k.month + "\\" + k.baseName
  {
    JoinAfterPrefix(outDir, k.year);
    JoinTwice(Join(outDir, k.year), k.month, k.baseName);
    assert Join(outDir, k.year)[|Join(outDir, k.year)| - 1] == k.year[3];
  }

  /** Different slots have different organized paths. */
  lemma OrganizedInjective(outDir: Path, k1: BucketKey, k2: BucketKey)
    requires Shaped(k1) && Shaped(k2) && OrganizedOf(outDir, k1) == OrganizedOf(outDir, k2)
    ensures k1 == k2
  {
    OrganizedForm(outDir, k1);
    JoinAfterPrefix(outDir, k1.year);
    JoinAfterPrefix(outDir, k2.year);
    var p := Join(outDir, []);
    assert k1.year == Join(outDir, k1.year)[|p|..] == Join(outDir, k2.year)[|p|..] == k2.year by {
      var w := OrganizedOf(outDir, k1);
      assert k1.year == w[|p|..|p| + 4];
      OrganizedForm(outDir, k2);
      assert k2.year == w[|p|..|p| + 4];
    }
    JoinTwiceInjective(Join(outDir, k1.year), k1.month, k2.month, k1.baseName, k2.baseName);
  }

  /** No organized path lies in `outDir\duplicates`: where that folder's name starts, an organized path has a year digit. */
  lemma OrganizedOutsideDumps(outDir: Path, k: BucketKey)
    requires Shaped(k)
    ensures !UnderDir(outDir + "\\duplicates", OrganizedOf(outDir, k))
  {
    OrganizedForm(outDir, k);
    var p := OrganizedOf(outDir, k);
    var pre := Join(outDir + "\\duplicates", []);
    assert pre == outDir + "\\duplicates\\";
    var i := if outDir == [] || IsSep(outDir[|outDir| - 1]) then |outDir| else |outDir| + 1;
    assert p[i] == k.year[0] != pre[i];
  }

  // ----- what keeps the copies apart -----

  /**
   * Each view carries its key's base name, every key has the shape of the
   * date keys, and with dumping on no organized path lies in the duplicates
   * folder.
   */
  ghost predicate Apart(s: Settings, views: Views) {
    forall k | k in views ::
      && views[k].fileBaseName == k.baseName
      && Shaped(k)
      && (s.dumpDuplicates ==> !UnderDir(s.duplicateDir, OrganizedOf(s.outDir, k)))
  }

  /** A catalog's views are apart when the duplicates folder is `outDir\duplicates`. */
  lemma CatalogApart(t: YearTable, files: seq<Path>, stampOf: Path -> Timestamp, views: Views, s: Settings)
    requires Catalogs(t, files, stampOf) && ViewsOf(t, views)
    requires s.duplicateDir == s.outDir + "\\duplicates"
    ensures Apart(s, views)
  {
    forall k | k in views
      ensures views[k].fileBaseName == k.baseName && Shaped(k)
      ensures s.dumpDuplicates ==> !UnderDir(s.duplicateDir, OrganizedOf(s.outDir, k))
    {
      AtInRecords(t, k);
      assert SlotHolds(At(t, k), k, PathsAt(files, stampOf, k), stampOf);
      KeysShaped(At(t, k).creationDate, k.baseName);
      OrganizedOutsideDumps(s.outDir, k);
    }
  }

  /** The files the copy loop may create for slot `k`: its organized path and, when dumped, its dump names. */
  ghost predicate MadeFor(s: Settings, views: Views, k: BucketKey, p: Path)
    requires k in views
  {
    || p == OrganizedOf(s.outDir, k)
    || (s.dumpDuplicates && |views[k].sourcePaths| > 1 && p in DumpPaths(s.duplicateDir, views[k], |views[k].sourcePaths|))
  }

  /** A file made for slot `k` other than its organized path is the slot's `i`-th dump name for some `i`. */
  lemma MadeForDump(s: Settings, views: Views, k: BucketKey, p: Path)
    requires k in views && MadeFor(s, views, k, p) && p != OrganizedOf(s.outDir, k)
    ensures s.dumpDuplicates && |views[k].sourcePaths| > 1
    ensures exists i | 0 <= i < |views[k].sourcePaths| :: p == DumpPath(s.duplicateDir, views[k], i)
  {
    var dests := DumpPaths(s.duplicateDir, views[k], |views[k].sourcePaths|);
    var i :| 0 <= i < |dests| && dests[i] == p;
  }

  /** Of all slots, only `k` itself may create `k`'s organized path. */
  lemma MadeForOnlyOwn(s: Settings, views: Views, k: BucketKey, k2: BucketKey)
    requires Apart(s, views) && k in views && k2 in views && MadeFor(s, views, k2, OrganizedOf(s.outDir, k))
    ensures k2 == k
  {
    if OrganizedOf(s.outDir, k) == OrganizedOf(s.outDir, k2) {
      OrganizedInjective(s.outDir, k, k2);
    }
  }

  /**
   * Slot `k`'s organized path holds on `d1` the bytes its first path had on
   * `d0`, whenever that path was not a file on `d0` and, with dumping on,
   * the first path is not in the duplicates folder.
   */
  ghost predicate Delivered(s: Settings, views: Views, d0: Disk, d1: Disk, k: BucketKey) {
    && k in views && |views[k].sourcePaths| > 0 && views[k].sourcePaths[0] in d0.files
    && OrganizedOf(s.outDir, k) !in d0.files
    && !(s.dumpDuplicates && UnderDir(s.duplicateDir, views[k].sourcePaths[0]))
    ==> OrganizedOf(s.outDir, k) in d1.files && d1.files[OrganizedOf(s.outDir, k)] == d0.files[views[k].sourcePaths[0]]
  }

  /** A delivery survives any later steps that keep files outside the duplicates folder. */
  lemma DeliveredKept(s: Settings, views: Views, d0: Disk, d1: Disk, d2: Disk, k: BucketKey)
    requires Apart(s, views) && Delivered(s, views, d0, d1, k) && Keeps(s, d1, d2)
    ensures Delivered(s, views, d0, d2, k)
  {
  }

  /**
   * A delivery made from `d1` counts from `d0` when the steps from `d0` to
   * `d1` kept the first path and left the organized path free.
   */
  lemma DeliveredFrom(s: Settings, views: Views, d0: Disk, d1: Disk, d2: Disk, k: BucketKey)
    requires Keeps(s, d0, d1) && k in views && OrganizedOf(s.outDir, k) !in d1.files
    requires Delivered(s, views, d1, d2, k)
    ensures Delivered(s, views, d0, d2, k)
  {
  }

  // ----- one record -----

  /** A record creates its destination and, when dumped, its dump names, and no other file. */
  lemma ExecRecordMakes(st: ExecState, s: Settings, monthDir: Path, v: RecordView)
    requires |v.sourcePaths| > 0 && v.sourcePaths[0] in st.disk.files
    ensures var r := ExecRecord(st, s, monthDir, v);
      forall p | p in r.disk.files && p !in st.disk.files ::
        || p == Destination(monthDir, v)
        || (s.dumpDuplicates && |v.sourcePaths| > 1 && p in DumpPaths(s.duplicateDir, v, |v.sourcePaths|))
  {
    var src := v.sourcePaths[0];
    var st1 :=
      if IsFile(st.disk, Destination(monthDir, v)) then st.(alreadyExisted := st.alreadyExisted + 1)
      else st.(disk := Copy2(st.disk, src, Destination(monthDir, v)), copied := st.copied + 1);
    if |v.sourcePaths| > 1 && s.dumpDuplicates {
      CopyAllFiles(EnsureDir(st1.disk, s.duplicateDir), src, DumpPaths(s.duplicateDir, v, |v.sourcePaths|));
    }
  }

  // ----- the three loops -----

  lemma {:induction false} ExecNamesMakes(st: ExecState, s: Settings, views: Views, y: string, m: string, names: seq<string>)
    requires PrimariesOnDisk(views, st.disk) && Apart(s, views)
    ensures var r := ExecNames(st, s, views, y, m, Join(Join(s.outDir, y), m), names);
      forall p | p in r.disk.files && p !in st.disk.files ::
        exists f | f in names && BucketKey(y, m, f) in views :: MadeFor(s, views, BucketKey(y, m, f), p)
  {
    if names != [] {
      var monthDir := Join(Join(s.outDir, y), m);
      var init := names[..|names| - 1];
      var k := BucketKey(y, m, names[|names| - 1]);
      ExecNamesMakes(st, s, views, y, m, init);
      var prev := ExecNames(st, s, views, y, m, monthDir, init);
      var r := ExecNames(st, s, views, y, m, monthDir, names);
      if k in views {
        ExecRecordMakes(prev, s, monthDir, views[k]);
      }
      forall p | p in r.disk.files && p !in st.disk.files
        ensures exists f | f in names && BucketKey(y, m, f) in views :: MadeFor(s, views, BucketKey(y, m, f), p)
      {
        if p in prev.disk.files {
          var f :| f in init && BucketKey(y, m, f) in views && MadeFor(s, views, BucketKey(y, m, f), p);
          assert f in names;
        } else {
          assert names[|names| - 1] in names;
          assert MadeFor(s, views, k, p);
        }
      }
    }
  }

  lemma {:induction false} ExecNamesDelivers(st: ExecState, s: Settings, views: Views, y: string, m: string, names: seq<string>)
    requires PrimariesOnDisk(views, st.disk) && Apart(s, views)
    ensures var r := ExecNames(st, s, views, y, m, Join(Join(s.outDir, y), m), names);
      forall f | f in names :: Delivered(s, views, st.disk, r.disk, BucketKey(y, m, f))
  {
    if names != [] {
      var monthDir := Join(Join(s.outDir, y), m);
      var init := names[..|names| - 1];
      var k := BucketKey(y, m, names[|names| - 1]);
      ExecNamesDelivers(st, s, views, y, m, init);
      ExecNamesMakes(st, s, views, y, m, init);
      ExecNamesPlaces(st, s, views, y, m, monthDir, init);
      var prev := ExecNames(st, s, views, y, m, monthDir, init);
      var r := ExecNames(st, s, views, y, m, monthDir, names);
      if k in views {
        ExecRecordCopies(prev, s, monthDir, views[k]);
        assert Delivered(s, views, prev.disk, r.disk, k);
      }
      forall f | f in names ensures Delivered(s, views, st.disk, r.disk, BucketKey(y, m, f)) {
        var kf := BucketKey(y, m, f);
        if f in init {
          DeliveredKept(s, views, st.disk, prev.disk, r.disk, kf);
        } else if kf in views {
          if OrganizedOf(s.outDir, kf) in prev.disk.files && OrganizedOf(s.outDir, kf) !in st.disk.files {
            var g :| g in init && BucketKey(y, m, g) in views && MadeFor(s, views, BucketKey(y, m, g), OrganizedOf(s.outDir, kf));
            MadeForOnlyOwn(s, views, kf, BucketKey(y, m, g));
            assert false;
          }
          if OrganizedOf(s.outDir, kf) !in prev.disk.files {
            DeliveredFrom(s, views, st.disk, prev.disk, r.disk, kf);
          }
        }
      }
    }
  }

  lemma {:induction false} ExecMonthsMakes(st: ExecState, s: Settings, t: YearTable, views: Views, y: string, months: seq<string>)
    requires PrimariesOnDisk(views, st.disk) && Apart(s, views)
    ensures var r := ExecMonths(st, s, t, views, y, Join(s.outDir, y), months);
      forall p | p in r.disk.files && p !in st.disk.files ::
        exists k | k in views && k.year == y && k.month in months :: MadeFor(s, views, k, p)
  {
    if months != [] {
      var yearDir := Join(s.outDir, y);
      var init := months[..|months| - 1];
      var m := months[|months| - 1];
      ExecMonthsMakes(st, s, t, views, y, init);
      var prev := ExecMonths(st, s, t, views, y, yearDir, init);
      PrimariesStayOnDisk(views, st.disk, prev.disk);
      var names := if y in t.items && m in t.items[y].items then t.items[y].items[m].keys else [];
      var st1 := prev.(disk := EnsureDir(prev.disk, Join(yearDir, m)));
      ExecNamesMakes(st1, s, views, y, m, names);
      var r := ExecMonths(st, s, t, views, y, yearDir, months);
      forall p | p in r.disk.files && p !in st.disk.files
        ensures exists k | k in views && k.year == y && k.month in months :: MadeFor(s, views, k, p)
      {
        if p in prev.disk.files {
          var k :| k in views && k.year == y && k.month in init && MadeFor(s, views, k, p);
          assert k.month in months;
        } else {
          var f :| f in names && BucketKey(y, m, f) in views && MadeFor(s, views, BucketKey(y, m, f), p);
          assert BucketKey(y, m, f).month in months;
        }
      }
    }
  }

  lemma {:induction false} ExecMonthsDelivers(st: ExecState, s: Settings, t: YearTable, views: Views, y: string, months: seq<string>)
    requires Covers(t, views) && WellFormed(t) && PrimariesOnDisk(views, st.disk) && Apart(s, views)
    ensures var r := ExecMonths(st, s, t, views, y, Join(s.outDir, y), months);
      forall k: BucketKey | k.year == y && k.month in months :: Delivered(s, views, st.disk, r.disk, k)
  {
    if months != [] {
      var yearDir := Join(s.outDir, y);
      var init := months[..|months| - 1];
      var m := months[|months| - 1];
      ExecMonthsDelivers(st, s, t, views, y, init);
      ExecMonthsMakes(st, s, t, views, y, init);
      ExecMonthsPlaces(st, s, t, views, y, yearDir, init);
      var prev := ExecMonths(st, s, t, views, y, yearDir, init);
      PrimariesStayOnDisk(views, st.disk, prev.disk);
      var names := if y in t.items && m in t.items[y].items then t.items[y].items[m].keys else [];
      var st1 := prev.(disk := EnsureDir(prev.disk, Join(yearDir, m)));
      ExecNamesDelivers(st1, s, views, y, m, names);
      ExecNamesPlaces(st1, s, views, y, m, Join(yearDir, m), names);
      var r := ExecMonths(st, s, t, views, y, yearDir, months);
      KeepsTransitive(s, prev.disk, st1.disk, r.disk);
      KeepsTransitive(s, st.disk, prev.disk, st1.disk);
      forall k: BucketKey | k.year == y && k.month in init ensures Delivered(s, views, st.disk, r.disk, k) {
        DeliveredKept(s, views, st.disk, prev.disk, r.disk, k);
      }
      forall k: BucketKey | k in views && k.year == y && k.month == m && m !in init
        ensures Delivered(s, views, st.disk, r.disk, k)
      {
        if OrganizedOf(s.outDir, k) in prev.disk.files && OrganizedOf(s.outDir, k) !in st.disk.files {
          var k2 :| k2 in views && k2.year == y && k2.month in init && MadeFor(s, views, k2, OrganizedOf(s.outDir, k));
          MadeForOnlyOwn(s, views, k, k2);
          assert false;
        }
        if OrganizedOf(s.outDir, k) !in prev.disk.files {
          assert HasSlot(t, k);
          assert k.baseName in names && k == BucketKey(y, m, k.baseName);
          DeliveredFrom(s, views, st.disk, st1.disk, r.disk, k);
        }
      }
      assert forall k: BucketKey | k.month in months :: k.month in init || k.month == m;
    }
  }

  lemma {:induction false} ExecYearsMakes(st: ExecState, s: Settings, t: YearTable, views: Views, years: seq<string>)
    requires PrimariesOnDisk(views, st.disk) && Apart(s, views)
    ensures var r := ExecYears(st, s, t, views, years);
      forall p | p in r.disk.files && p !in st.disk.files ::
        exists k | k in views && k.year in years :: MadeFor(s, views, k, p)
  {
    if years != [] {
      var init := years[..|years| - 1];
      var y := years[|years| - 1];
      ExecYearsMakes(st, s, t, views, init);
      var prev := ExecYears(st, s, t, views, init);
      PrimariesStayOnDisk(views, st.disk, prev.disk);
      var months := if y in t.items then t.items[y].keys else [];
      var st1 := prev.(disk := EnsureDir(prev.disk, Join(s.outDir, y)));
      ExecMonthsMakes(st1, s, t, views, y, months);
      var r := ExecYears(st, s, t, views, years);
      forall p | p in r.disk.files && p !in st.disk.files
        ensures exists k | k in views && k.year in years :: MadeFor(s, views, k, p)
      {
        if p in prev.disk.files {
          var k :| k in views && k.year in init && MadeFor(s, views, k, p);
          assert k.year in years;
        } else {
          var k :| k in views && k.year == y && k.month in months && MadeFor(s, views, k, p);
          assert k.year in years;
        }
      }
    }
  }

  lemma {:induction false} ExecYearsDelivers(st: ExecState, s: Settings, t: YearTable, views: Views, years: seq<string>)
    requires Covers(t, views) && WellFormed(t) && PrimariesOnDisk(views, st.disk) && Apart(s, views)
    ensures var r := ExecYears(st, s, t, views, years);
      forall k: BucketKey | k.year in years :: Delivered(s, views, st.disk, r.disk, k)
  {
    if years != [] {
      var init := years[..|years| - 1];
      var y := years[|years| - 1];
      ExecYearsDelivers(st, s, t, views, init);
      ExecYearsMakes(st, s, t, views, init);
      ExecYearsPlaces(st, s, t, views, init);
      var prev := ExecYears(st, s, t, views, init);
      PrimariesStayOnDisk(views, st.disk, prev.disk);
      var months := if y in t.items then t.items[y].keys else [];
      var st1 := prev.(disk := EnsureDir(prev.disk, Join(s.outDir, y)));
      ExecMonthsDelivers(st1, s, t, views, y, months);
      ExecMonthsPlaces(st1, s, t, views, y, Join(s.outDir, y), months);
      var r := ExecYears(st, s, t, views, years);
      KeepsTransitive(s, prev.disk, st1.disk, r.disk);
      KeepsTransitive(s, st.disk, prev.disk, st1.disk);
      forall k: BucketKey | k.year in init ensures Delivered(s, views, st.disk, r.disk, k) {
        DeliveredKept(s, views, st.disk, prev.disk, r.disk, k);
      }
      forall k: BucketKey | k in views && k.year == y && y !in init
        ensures Delivered(s, views, st.disk, r.disk, k)
      {
        if OrganizedOf(s.outDir, k) in prev.disk.files && OrganizedOf(s.outDir, k) !in st.disk.files {
          var k2 :| k2 in views && k2.year in init && MadeFor(s, views, k2, OrganizedOf(s.outDir, k));
          MadeForOnlyOwn(s, views, k, k2);
          assert false;
        }
        if OrganizedOf(s.outDir, k) !in prev.disk.files {
          assert HasSlot(t, k);
          assert k.month in months;
          DeliveredFrom(s, views, st.disk, st1.disk, r.disk, k);
        }
      }
      assert forall k: BucketKey | k.year in years :: k.year in init || k.year == y;
    }
  }

  // ----- the whole pass -----

  /**
   * The copy pass over the catalog of `files`: the organized path of every
   * slot that was not a file before holds the bytes the slot's first path
   * had, unless dumping is on and that first path is in the duplicates
   * folder; and every file the pass creates is a slot's organized path or,
   * with dumping on, one of a duplicated slot's dump names.
   */
  lemma CopyPassLayout(t: YearTable, files: seq<Path>, stampOf: Path -> Timestamp, views: Views, disk: Disk, s: Settings)
    requires Catalogs(t, files, stampOf) && ViewsOf(t, views) && PrimariesOnDisk(views, disk)
    requires s.duplicateDir == s.outDir + "\\duplicates"
    ensures var r := ExecYears(ExecState(disk, 0, 0, 0), s, t, views, t.keys);
      && (forall k | k in views :: Delivered(s, views, disk, r.disk, k))
      && forall p | p in r.disk.files && p !in disk.files :: exists k | k in views :: MadeFor(s, views, k, p)
  {
    var st0 := ExecState(disk, 0, 0, 0);
    CatalogApart(t, files, stampOf, views, s);
    ExecYearsDelivers(st0, s, t, views, t.keys);
    ExecYearsMakes(st0, s, t, views, t.keys);
    forall k | k in views ensures k.year in t.keys {
      assert HasSlot(t, k);
    }
  }

  // ----- a second pass -----

  lemma {:induction false} ExecNamesCopiesNothing(st: ExecState, s: Settings, views: Views, y: string, m: string, monthDir: Path, names: seq<string>)
    requires PrimariesOnDisk(views, st.disk)
    requires forall f | f in names && BucketKey(y, m, f) in views :: Destination(monthDir, views[BucketKey(y, m, f)]) in st.disk.files
    ensures ExecNames(st, s, views, y, m, monthDir, names).copied == st.copied
  {
    if names != [] {
      var init := names[..|names| - 1];
      var k := BucketKey(y, m, names[|names| - 1]);
      ExecNamesCopiesNothing(st, s, views, y, m, monthDir, init);
      if k in views {
        var prev := ExecNames(st, s, views, y, m, monthDir, init);
        assert names[|names| - 1] in names;
        ExecRecordCounts(prev, s, monthDir, views[k]);
      }
    }
  }

  lemma {:induction false} ExecMonthsCopiesNothing(st: ExecState, s: Settings, t: YearTable, views: Views, y: string, yearDir: Path, months: seq<string>)
    requires Covers(t, views) && WellFormed(t) && PrimariesOnDisk(views, st.disk)
    requires forall k | k in views && k.year == y && k.month in months :: Destination(Join(yearDir, k.month), views[k]) in st.disk.files
    ensures ExecMonths(st, s, t, views, y, yearDir, months).copied == st.copied
  {
    if months != [] {
      var init := months[..|months| - 1];
      var m := months[|months| - 1];
      ExecMonthsCopiesNothing(st, s, t, views, y, yearDir, init);
      var prev := ExecMonths(st, s, t, views, y, yearDir, init);
      PrimariesStayOnDisk(views, st.disk, prev.disk);
      var names := if y in t.items && m in t.items[y].items then t.items[y].items[m].keys else [];
      var st1 := prev.(disk := EnsureDir(prev.disk, Join(yearDir, m)));
      forall f | f in names && BucketKey(y, m, f) in views
        ensures Destination(Join(yearDir, m), views[BucketKey(y, m, f)]) in st1.disk.files
      {
        assert BucketKey(y, m, f).month in months;
      }
      ExecNamesCopiesNothing(st1, s, views, y, m, Join(yearDir, m), names);
    }
  }

  lemma {:induction false} ExecYearsCopiesNothing(st: ExecState, s: Settings, t: YearTable, views: Views, years: seq<string>)
    requires Covers(t, views) && WellFormed(t) && PrimariesOnDisk(views, st.disk)
    requires forall k | k in views && k.year in years :: Destination(Join(Join(s.outDir, k.year), k.month), views[k]) in st.disk.files
    ensures ExecYears(st, s, t, views, years).copied == st.copied
  {
    if years != [] {
      var init := years[..|years| - 1];
      var y := years[|years| - 1];
      ExecYearsCopiesNothing(st, s, t, views, init);
      var prev := ExecYears(st, s, t, views, init);
      PrimariesStayOnDisk(views, st.disk, prev.disk);
      var months := if y in t.items then t.items[y].keys else [];
      var st1 := prev.(disk := EnsureDir(prev.disk, Join(s.outDir, y)));
      forall k | k in views && k.year == y && k.month in months
        ensures Destination(Join(Join(s.outDir, y), k.month), views[k]) in st1.disk.files
      {
        assert k.year in years;
      }
      ExecMonthsCopiesNothing(st1, s, t, views, y, Join(s.outDir, y), months);
    }
  }

  /**
   * Running the copy pass again over the disk the first pass left copies
   * nothing: every slot's organized path is found already there.
   */
  lemma CopyPassIdempotent(t: YearTable, files: seq<Path>, stampOf: Path -> Timestamp, views: Views, disk: Disk, s: Settings)
    requires Catalogs(t, files, stampOf) && ViewsOf(t, views) && PrimariesOnDisk(views, disk)
    ensures var first := ExecYears(ExecState(disk, 0, 0, 0), s, t, views, t.keys);
      && PrimariesOnDisk(views, first.disk)
      && var second := ExecYears(ExecState(first.disk, 0, 0, 0), s, t, views, t.keys);
      && second.copied == 0
      && second.alreadyExisted == |Slots(t)|
  {
    var first := ExecYears(ExecState(disk, 0, 0, 0), s, t, views, t.keys);
    PrimariesStayOnDisk(views, disk, first.disk);
    var st1 := ExecState(first.disk, 0, 0, 0);
    ExecYearsPlaces(ExecState(disk, 0, 0, 0), s, t, views, t.keys);
    forall k | k in views ensures k.year in t.keys {
      assert HasSlot(t, k);
    }
    ExecYearsCopiesNothing(st1, s, t, views, t.keys);
    ExecYearsCounts(st1, s, t, views, t.keys);
    SlotsEnumerate(t);
    SlotCountOfSlots(t, Slots(t));
  }
}
