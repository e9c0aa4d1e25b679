/**
 * The catalog: year key -> month key -> base name -> FileReferences, built by
 * inserting the discovered paths one at a time.
 */
module Catalog {
  import opened Dates
  import opened Paths
  import opened Dicts
  import opened References

  /** base name -> record */
  type NameDict = Dict<string, FileReferences>
  /** month key -> base names */
  type YearDict = Dict<string, NameDict>
  /** year key -> months */
  type YearTable = Dict<string, YearDict>

  /** The slot a path is filed under. */
  datatype BucketKey = BucketKey(year: string, month: string, baseName: string)

  function KeyOf(p: Path, stampOf: Path -> Timestamp): BucketKey {
    BucketKey(YearKey(stampOf(p)), MonthKey(stampOf(p)), BaseName(p))
  }

  // ----- the shape of the table -----

  ghost predicate YearWellFormed(yd: YearDict) {
    yd.Valid() && forall m | m in yd.items :: yd.items[m].Valid()
  }

  ghost predicate WellFormed(t: YearTable) {
    t.Valid() && forall y | y in t.items :: YearWellFormed(t.items[y])
  }

  predicate HasSlot(t: YearTable, k: BucketKey) {
    && k.year in t.items
    && k.month in t.items[k.year].items
    && k.baseName in t.items[k.year].items[k.month].items
  }

  function At(t: YearTable, k: BucketKey): FileReferences
    requires HasSlot(t, k)
  {
    t.items[k.year].items[k.month].items[k.baseName]
  }

  /** The record in slot `k`, if there is one, as a frame. */
  function SlotRecord(t: YearTable, k: BucketKey): (r: set<FileReferences>)
    ensures HasSlot(t, k) ==> r == {At(t, k)}
    ensures !HasSlot(t, k) ==> r == {}
  {
    if HasSlot(t, k) then {At(t, k)} else {}
  }

  /** Every record the table holds. */
  ghost function Records(t: YearTable): set<FileReferences> {
    set y, m, f | y in t.items && m in t.items[y].items && f in t.items[y].items[m].items
      :: t.items[y].items[m].items[f]
  }

  lemma AtInRecords(t: YearTable, k: BucketKey)
    requires HasSlot(t, k)
    ensures At(t, k) in Records(t)
  {
    var y, m, f := k.year, k.month, k.baseName;
    assert t.items[y].items[m].items[f] == At(t, k);
  }

  lemma RecordsHaveSlots(t: YearTable, r: FileReferences)
    requires r in Records(t)
    ensures exists k :: HasSlot(t, k) && At(t, k) == r
  {
    var y, m, f :| y in t.items && m in t.items[y].items && f in t.items[y].items[m].items
      && t.items[y].items[m].items[f] == r;
    assert HasSlot(t, BucketKey(y, m, f));
  }

  // ----- get-or-create -----

  /** Returns the bucket under `k`, adding an empty one at the end of the order when `k` is absent. */
  function GetOrCreate<K, K2, V>(d: Dict<K, Dict<K2, V>>, k: K): (r: (Dict<K, Dict<K2, V>>, Dict<K2, V>))
    requires d.Valid()
    ensures r.0.Valid() && k in r.0.items && r.1 == r.0.items[k]
    ensures r.0.items.Keys == d.items.Keys + {k}
    ensures forall k' | k' in d.items :: r.0.items[k'] == d.items[k']
    ensures k in d.items ==> r.0 == d
    ensures k !in d.items ==> r.0.keys == d.keys + [k] && r.1 == EmptyDict()
  {
    var d' := if k in d.items then d else Put(d, k, EmptyDict());
    (d', d'.items[k])
  }

  /** The months of the timestamp's year, created empty when the year is new. */
  function GetYearDict(fileTimeStamp: Timestamp, fileDict: YearTable): (r: (YearTable, YearDict))
    requires fileDict.Valid()
    ensures r.0.Valid() && YearKey(fileTimeStamp) in r.0.items && r.1 == r.0.items[YearKey(fileTimeStamp)]
    ensures r.0.items.Keys == fileDict.items.Keys + {YearKey(fileTimeStamp)}
    ensures forall y | y in fileDict.items :: r.0.items[y] == fileDict.items[y]
    ensures YearKey(fileTimeStamp) in fileDict.items ==> r.0 == fileDict
    ensures YearKey(fileTimeStamp) !in fileDict.items ==>
      r.0.keys == fileDict.keys + [YearKey(fileTimeStamp)] && r.1 == EmptyDict()
  {
    GetOrCreate(fileDict, YearKey(fileTimeStamp))
  }

  /** The base names of the timestamp's month, created empty when the month is new. */
  function GetMonthDict(fileTimeStamp: Timestamp, yearDict: YearDict): (r: (YearDict, NameDict))
    requires yearDict.Valid()
    ensures r.0.Valid() && MonthKey(fileTimeStamp) in r.0.items && r.1 == r.0.items[MonthKey(fileTimeStamp)]
    ensures r.0.items.Keys == yearDict.items.Keys + {MonthKey(fileTimeStamp)}
    ensures forall m | m in yearDict.items :: r.0.items[m] == yearDict.items[m]
    ensures MonthKey(fileTimeStamp) in yearDict.items ==> r.0 == yearDict
    ensures MonthKey(fileTimeStamp) !in yearDict.items ==>
      r.0.keys == yearDict.keys + [MonthKey(fileTimeStamp)] && r.1 == EmptyDict()
  {
    GetOrCreate(yearDict, MonthKey(fileTimeStamp))
  }

  /** `yd[m][f] = r`, creating month `m` when absent. */
  function PutInYear(yd: YearDict, m: string, f: string, r: FileReferences): YearDict
  {
    var md := if m in yd.items then yd.items[m] else EmptyDict();
    Put(yd, m, Put(md, f, r))
  }

  /** `t[k.year][k.month][k.baseName] = r`, creating the year and month buckets when absent. */
  function PutRecord(t: YearTable, k: BucketKey, r: FileReferences): YearTable
  {
    var yd := if k.year in t.items then t.items[k.year] else EmptyDict();
    Put(t, k.year, PutInYear(yd, k.month, k.baseName, r))
  }

  /**
   * Getting (or creating) the year and month buckets and then writing the
   * record into them is `PutRecord`.
   */
  lemma GetOrCreateThenPut(t: YearTable, k: BucketKey, r: FileReferences)
    requires WellFormed(t)
    ensures GetOrCreate(t, k.year).1.Valid()
    ensures GetOrCreate(GetOrCreate(t, k.year).1, k.month).1.Valid()
    ensures
      var (t1, yd) := GetOrCreate(t, k.year);
      var (yd1, md) := GetOrCreate(yd, k.month);
      Put(t1, k.year, Put(yd1, k.month, Put(md, k.baseName, r))) == PutRecord(t, k, r)
  {
    var (t1, yd) := GetOrCreate(t, k.year);
    var (yd1, md) := GetOrCreate(yd, k.month);
    var md' := Put(md, k.baseName, r);
    var yd' := Put(yd1, k.month, md');
    if k.month !in yd.items {
      PutPut(yd, k.month, EmptyDict(), md');
    }
    assert yd' == PutInYear(yd, k.month, k.baseName, r);
    if k.year !in t.items {
      PutPut(t, k.year, EmptyDict(), yd');
    }
  }

  lemma PutInYearWellFormed(yd: YearDict, m: string, f: string, r: FileReferences)
    requires YearWellFormed(yd)
    ensures YearWellFormed(PutInYear(yd, m, f, r))
  {
    var yd' := PutInYear(yd, m, f, r);
    forall m' | m' in yd'.items ensures yd'.items[m'].Valid() {
      if m' != m {
        assert yd'.items[m'] == yd.items[m'];
      }
    }
  }

  lemma PutRecordWellFormed(t: YearTable, k: BucketKey, r: FileReferences)
    requires WellFormed(t)
    ensures WellFormed(PutRecord(t, k, r))
  {
    var yd := if k.year in t.items then t.items[k.year] else EmptyDict();
    PutInYearWellFormed(yd, k.month, k.baseName, r);
    var t' := PutRecord(t, k, r);
    forall y | y in t'.items ensures YearWellFormed(t'.items[y]) {
      if y != k.year {
        assert t'.items[y] == t.items[y];
      }
    }
  }

  /** Writing into year `k.year` leaves the slots of the other years as they were. */
  lemma PutRecordOtherYear(t: YearTable, k: BucketKey, r: FileReferences, k': BucketKey)
    requires k'.year != k.year
    ensures HasSlot(PutRecord(t, k, r), k') <==> HasSlot(t, k')
  {
    var t' := PutRecord(t, k, r);
    if k'.year in t.items {
      assert t'.items[k'.year] == t.items[k'.year];
    }
  }

  /** Writing into month `k.month` of a year leaves the slots of its other months as they were. */
  lemma PutInYearOtherMonth(yd: YearDict, k: BucketKey, r: FileReferences, k': BucketKey)
    requires k'.month != k.month
    ensures var yd' := PutInYear(yd, k.month, k.baseName, r);
      k'.month in yd'.items <==> k'.month in yd.items
    ensures var yd' := PutInYear(yd, k.month, k.baseName, r);
      k'.month in yd.items ==> yd'.items[k'.month] == yd.items[k'.month]
  {
  }

  lemma PutRecordSlotOf(t: YearTable, k: BucketKey, r: FileReferences, k': BucketKey)
    ensures HasSlot(PutRecord(t, k, r), k') <==> HasSlot(t, k') || k' == k
  {
    if k'.year != k.year {
      PutRecordOtherYear(t, k, r, k');
    } else {
      var yd := if k.year in t.items then t.items[k.year] else EmptyDict();
      var yd' := PutInYear(yd, k.month, k.baseName, r);
      assert PutRecord(t, k, r).items[k.year] == yd';
      if k'.month != k.month {
        PutInYearOtherMonth(yd, k, r, k');
      } else {
        var md := if k.month in yd.items then yd.items[k.month] else EmptyDict();
        assert yd'.items[k.month] == Put(md, k.baseName, r);
      }
    }
  }

  lemma PutRecordSlotSet(t: YearTable, k: BucketKey, r: FileReferences)
    ensures forall k' :: HasSlot(PutRecord(t, k, r), k') <==> HasSlot(t, k') || k' == k
    ensures HasSlot(PutRecord(t, k, r), k) && At(PutRecord(t, k, r), k) == r
  {
    forall k' ensures HasSlot(PutRecord(t, k, r), k') <==> HasSlot(t, k') || k' == k {
      PutRecordSlotOf(t, k, r, k');
    }
  }

  lemma PutRecordKeepsOtherSlots(t: YearTable, k: BucketKey, r: FileReferences, k': BucketKey)
    requires HasSlot(t, k') && k' != k
    ensures HasSlot(PutRecord(t, k, r), k') && At(PutRecord(t, k, r), k') == At(t, k')
  {
    var t' := PutRecord(t, k, r);
    if k'.year != k.year {
      assert t'.items[k'.year] == t.items[k'.year];
    }
  }

  /** Only slot `k` is added or changed by `PutRecord`. */
  lemma PutRecordSlots(t: YearTable, k: BucketKey, r: FileReferences)
    requires WellFormed(t)
    ensures WellFormed(PutRecord(t, k, r))
    ensures forall k' :: HasSlot(PutRecord(t, k, r), k') <==> HasSlot(t, k') || k' == k
    ensures HasSlot(PutRecord(t, k, r), k) && At(PutRecord(t, k, r), k) == r
    ensures forall k' | HasSlot(t, k') && k' != k :: At(PutRecord(t, k, r), k') == At(t, k')
  {
    PutRecordWellFormed(t, k, r);
    PutRecordSlotSet(t, k, r);
    forall k' | HasSlot(t, k') && k' != k ensures At(PutRecord(t, k, r), k') == At(t, k') {
      PutRecordKeepsOtherSlots(t, k, r, k');
    }
  }

  /** Filling slot `k` brings in no record but `r`. */
  lemma RecordsOfPutRecord(t: YearTable, k: BucketKey, r: FileReferences)
    ensures Records(PutRecord(t, k, r)) <= Records(t) + {r}
  {
    var t' := PutRecord(t, k, r);
    PutRecordSlotSet(t, k, r);
    forall r' | r' in Records(t') ensures r' in Records(t) + {r} {
      RecordsHaveSlots(t', r');
      var k' :| HasSlot(t', k') && At(t', k') == r';
      if k' != k {
        PutRecordKeepsOtherSlots(t, k, r, k');
        AtInRecords(t, k');
      }
    }
  }

  // ----- what the table holds after a prefix of the file list -----

  /** The paths of `files` filed under `k`, in discovery order. */
  function PathsAt(files: seq<Path>, stampOf: Path -> Timestamp, k: BucketKey): (r: seq<Path>)
    ensures |r| <= |files|
    ensures forall p | p in r :: p in files && KeyOf(p, stampOf) == k
  {
    if files == [] then []
    else
      var init := PathsAt(files[..|files| - 1], stampOf, k);
      var p := files[|files| - 1];
      if KeyOf(p, stampOf) == k then init + [p] else init
  }

  lemma PathsAtSnoc(files: seq<Path>, p: Path, stampOf: Path -> Timestamp, k: BucketKey)
    ensures PathsAt(files + [p], stampOf, k) ==
      if KeyOf(p, stampOf) == k then PathsAt(files, stampOf, k) + [p] else PathsAt(files, stampOf, k)
  {
    assert (files + [p])[..|files|] == files;
  }

  lemma {:induction false} PathsAtComplete(files: seq<Path>, stampOf: Path -> Timestamp, i: nat)
    requires i < |files|
    ensures files[i] in PathsAt(files, stampOf, KeyOf(files[i], stampOf))
  {
    var n := |files| - 1;
    var k := KeyOf(files[i], stampOf);
    var init := files[..n];
    assert files == init + [files[n]];
    PathsAtSnoc(init, files[n], stampOf, k);
    if i < n {
      PathsAtComplete(init, stampOf, i);
      assert init[i] == files[i];
    }
  }

  function StampsOf(paths: seq<Path>, stampOf: Path -> Timestamp): (r: seq<Timestamp>)
    ensures |r| == |paths| && forall i :: 0 <= i < |paths| ==> r[i] == stampOf(paths[i])
  {
    seq(|paths|, i requires 0 <= i < |paths| => stampOf(paths[i]))
  }

  /**
   * A same-month name collision: a stamp on another day replaces the
   * record's date when it is earlier; a stamp on the same day is ignored.
   */
  function Collide(recordDate: Timestamp, t: Timestamp): (r: Timestamp)
    ensures r == recordDate || r == t
    ensures DateOf(recordDate) == DateOf(t) ==> r == recordDate
    ensures DateOf(recordDate) != DateOf(t) ==> !Before(recordDate, r) && !Before(t, r)
  {
    if DateOf(recordDate) == DateOf(t) then recordDate else Min(recordDate, t)
  }

  /** The record date after the stamps of a slot arrived in this order. */
  function Resolved(ts: seq<Timestamp>): Timestamp
    requires |ts| > 0
  {
    if |ts| == 1 then ts[0] else Collide(Resolved(ts[..|ts| - 1]), ts[|ts| - 1])
  }

  /** One more path in a slot collides its stamp with the date resolved so far. */
  lemma ResolvedSnoc(paths: seq<Path>, p: Path, stampOf: Path -> Timestamp)
    requires paths != []
    ensures Resolved(StampsOf(paths + [p], stampOf)) == Collide(Resolved(StampsOf(paths, stampOf)), stampOf(p))
  {
    var ts := StampsOf(paths + [p], stampOf);
    assert ts[..|ts| - 1] == StampsOf(paths, stampOf);
  }

  /** Stamp `ts[i]` falls on the earliest day, and no stamp before it does. */
  ghost predicate FirstOnEarliestDay(ts: seq<Timestamp>, i: int) {
    && 0 <= i < |ts|
    && (forall j :: 0 <= j < i ==> DateBefore(DateOf(ts[i]), DateOf(ts[j])))
    && (forall j :: i < j < |ts| ==> !DateBefore(DateOf(ts[j]), DateOf(ts[i])))
  }

  lemma ExtendOnSameDay(ts: seq<Timestamp>, i: int)
    requires |ts| > 1 && FirstOnEarliestDay(ts[..|ts| - 1], i)
    requires DateOf(ts[i]) == DateOf(ts[|ts| - 1])
    ensures FirstOnEarliestDay(ts, i)
  {
    var n := |ts| - 1;
    forall j | 0 <= j < n ensures ts[..n][j] == ts[j] { }
    DateBeforeIsStrictTotalOrder(DateOf(ts[i]), DateOf(ts[i]), DateOf(ts[i]));
  }

  lemma ExtendOnEarlierDay(ts: seq<Timestamp>, i: int)
    requires |ts| > 1 && FirstOnEarliestDay(ts[..|ts| - 1], i)
    requires DateBefore(DateOf(ts[|ts| - 1]), DateOf(ts[i]))
    ensures FirstOnEarliestDay(ts, |ts| - 1)
  {
    var n := |ts| - 1;
    forall j | 0 <= j < n ensures DateBefore(DateOf(ts[n]), DateOf(ts[j])) {
      assert ts[..n][j] == ts[j];
      DateBeforeIsStrictTotalOrder(DateOf(ts[n]), DateOf(ts[i]), DateOf(ts[j]));
      if j > i {
        DateBeforeIsStrictTotalOrder(DateOf(ts[i]), DateOf(ts[j]), DateOf(ts[j]));
      }
    }
  }

  lemma ExtendOnLaterDay(ts: seq<Timestamp>, i: int)
    requires |ts| > 1 && FirstOnEarliestDay(ts[..|ts| - 1], i)
    requires DateBefore(DateOf(ts[i]), DateOf(ts[|ts| - 1]))
    ensures FirstOnEarliestDay(ts, i)
  {
    var n := |ts| - 1;
    forall j | 0 <= j < n ensures ts[..n][j] == ts[j] { }
    DateBeforeIsStrictTotalOrder(DateOf(ts[i]), DateOf(ts[n]), DateOf(ts[i]));
  }

  /**
   * The resolved date is the first stamp that falls on the earliest day:
   * every earlier stamp is on a later day, no later stamp is on an earlier day.
   */
  lemma {:induction false} ResolvedIsFirstOnEarliestDay(ts: seq<Timestamp>)
    requires |ts| > 0
    ensures exists i :: FirstOnEarliestDay(ts, i) && Resolved(ts) == ts[i]
  {
    if |ts| == 1 {
      assert FirstOnEarliestDay(ts, 0);
    } else {
      var n := |ts| - 1;
      var init := ts[..n];
      ResolvedIsFirstOnEarliestDay(init);
      var i :| FirstOnEarliestDay(init, i) && Resolved(init) == init[i];
      var d, t := ts[i], ts[n];
      assert Resolved(ts) == Collide(d, t);
      if DateOf(d) == DateOf(t) {
        ExtendOnSameDay(ts, i);
      } else {
        MinOfDifferentDays(t, d);
        DateBeforeIsStrictTotalOrder(DateOf(d), DateOf(t), DateOf(d));
        if Before(t, d) {
          ExtendOnEarlierDay(ts, i);
        } else {
          ExtendOnLaterDay(ts, i);
        }
      }
    }
  }

  /** All stamps of one slot share a year and month key, and so does the resolved date. */
  lemma {:induction false} ResolvedStaysInBucket(ts: seq<Timestamp>, year: string, month: string)
    requires |ts| > 0
    requires forall i :: 0 <= i < |ts| ==> YearKey(ts[i]) == year && MonthKey(ts[i]) == month
    ensures YearKey(Resolved(ts)) == year && MonthKey(Resolved(ts)) == month
  {
    if |ts| > 1 {
      ResolvedStaysInBucket(ts[..|ts| - 1], year, month);
    }
  }

  // ----- the catalog invariant -----

  /** Record `r` is what slot `k` holds after its paths `paths` were inserted. */
  ghost predicate SlotHolds(r: FileReferences, k: BucketKey, paths: seq<Path>, stampOf: Path -> Timestamp)
    reads r
  {
    && paths != []
    && r.Valid()
    && r.sourcePaths == paths
    && r.creationDate == Resolved(StampsOf(paths, stampOf))
    && r.fileBaseName == k.baseName
    && YearKey(r.creationDate) == k.year
    && MonthKey(r.creationDate) == k.month
  }

  /**
   * `t` is the catalog of `files`: there is a slot exactly for each key some
   * file maps to, and it holds that key's paths in discovery order, dated by
   * the collision rule, with the base name of its key.
   */
  ghost predicate Catalogs(t: YearTable, files: seq<Path>, stampOf: Path -> Timestamp)
    reads Records(t)
  {
    && WellFormed(t)
    && (forall k :: HasSlot(t, k) <==> PathsAt(files, stampOf, k) != [])
    && (forall k {:trigger At(t, k)} | HasSlot(t, k) :: AtInRecords(t, k); SlotHolds(At(t, k), k, PathsAt(files, stampOf, k), stampOf))
  }

  /** The empty table is the catalog of no paths. */
  lemma EmptyCatalogs(stampOf: Path -> Timestamp)
    ensures Catalogs(EmptyDict(), [], stampOf)
  {
  }

  /** Different slots of a catalog hold different records: a record's name and date give its slot back. */
  lemma SlotsHoldDistinctRecords(t: YearTable, files: seq<Path>, stampOf: Path -> Timestamp, k: BucketKey, k': BucketKey)
    requires Catalogs(t, files, stampOf)
    requires HasSlot(t, k) && HasSlot(t, k') && k != k'
    ensures At(t, k) != At(t, k')
  {
    AtInRecords(t, k);
    AtInRecords(t, k');
    assert SlotHolds(At(t, k), k, PathsAt(files, stampOf, k), stampOf);
    assert SlotHolds(At(t, k'), k', PathsAt(files, stampOf, k'), stampOf);
  }

  /** Every slot other than that of `k` holds a record outside the slot of `k`, and holds it correctly. */
  lemma OtherSlots(t: YearTable, files: seq<Path>, stampOf: Path -> Timestamp, k: BucketKey, k': BucketKey)
    requires Catalogs(t, files, stampOf)
    requires HasSlot(t, k') && k' != k
    ensures At(t, k') !in SlotRecord(t, k)
    ensures SlotHolds(At(t, k'), k', PathsAt(files, stampOf, k'), stampOf)
  {
    AtInRecords(t, k');
    if HasSlot(t, k) {
      SlotsHoldDistinctRecords(t, files, stampOf, k, k');
    }
  }

  /**
   * What a catalog says about the slot of key `k` and about every other slot,
   * in the form needed to file one more path under `k`.
   */
  lemma SlotsAroundKey(t: YearTable, files: seq<Path>, stampOf: Path -> Timestamp, k: BucketKey)
    requires Catalogs(t, files, stampOf)
    ensures HasSlot(t, k) ==> At(t, k) in Records(t) && SlotHolds(At(t, k), k, PathsAt(files, stampOf, k), stampOf)
    ensures !HasSlot(t, k) ==> PathsAt(files, stampOf, k) == []
    ensures forall k' | HasSlot(t, k') && k' != k ::
      && At(t, k') !in SlotRecord(t, k)
      && SlotHolds(At(t, k'), k', PathsAt(files, stampOf, k'), stampOf)
  {
    if HasSlot(t, k) {
      AtInRecords(t, k);
    }
    forall k' | HasSlot(t, k') && k' != k
      ensures At(t, k') !in SlotRecord(t, k)
      ensures SlotHolds(At(t, k'), k', PathsAt(files, stampOf, k'), stampOf)
    {
      OtherSlots(t, files, stampOf, k, k');
    }
  }

  /** After filing `p`, there is a slot exactly for each key some file of `files + [p]` maps to. */
  lemma SlotsAfterPut(t: YearTable, files: seq<Path>, p: Path, stampOf: Path -> Timestamp, r: FileReferences)
    requires WellFormed(t)
    requires forall k :: HasSlot(t, k) <==> PathsAt(files, stampOf, k) != []
    ensures forall k :: HasSlot(PutRecord(t, KeyOf(p, stampOf), r), k) <==> PathsAt(files + [p], stampOf, k) != []
  {
    PutRecordSlotSet(t, KeyOf(p, stampOf), r);
    forall k ensures HasSlot(PutRecord(t, KeyOf(p, stampOf), r), k) <==> PathsAt(files + [p], stampOf, k) != [] {
      PathsAtSnoc(files, p, stampOf, k);
    }
  }

  /** After filing `p` into slot `k` with record `r`, every slot holds its paths. */
  lemma HoldsAfterPut(t: YearTable, files: seq<Path>, p: Path, stampOf: Path -> Timestamp, r: FileReferences)
    requires WellFormed(t)
    requires forall k | HasSlot(t, k) && k != KeyOf(p, stampOf) :: SlotHolds(At(t, k), k, PathsAt(files, stampOf, k), stampOf)
    requires SlotHolds(r, KeyOf(p, stampOf), PathsAt(files, stampOf, KeyOf(p, stampOf)) + [p], stampOf)
    ensures forall k | HasSlot(PutRecord(t, KeyOf(p, stampOf), r), k) ::
      SlotHolds(At(PutRecord(t, KeyOf(p, stampOf), r), k), k, PathsAt(files + [p], stampOf, k), stampOf)
  {
    var k := KeyOf(p, stampOf);
    var t' := PutRecord(t, k, r);
    PutRecordSlotSet(t, k, r);
    forall k' | HasSlot(t', k') ensures SlotHolds(At(t', k'), k', PathsAt(files + [p], stampOf, k'), stampOf) {
      PathsAtSnoc(files, p, stampOf, k');
      if k' != k {
        PutRecordKeepsOtherSlots(t, k, r, k');
      }
    }
  }

  /**
   * Filing path `p` under its key `k`: when every other slot still holds its
   * paths and `r` holds the old paths of `k` followed by `p`, writing `r`
   * into slot `k` gives the catalog of `files + [p]`.
   */
  lemma CatalogsAfterPut(t: YearTable, files: seq<Path>, p: Path, stampOf: Path -> Timestamp, r: FileReferences)
    requires WellFormed(t)
    requires forall k :: HasSlot(t, k) <==> PathsAt(files, stampOf, k) != []
    requires forall k | HasSlot(t, k) && k != KeyOf(p, stampOf) :: SlotHolds(At(t, k), k, PathsAt(files, stampOf, k), stampOf)
    requires SlotHolds(r, KeyOf(p, stampOf), PathsAt(files, stampOf, KeyOf(p, stampOf)) + [p], stampOf)
    ensures Catalogs(PutRecord(t, KeyOf(p, stampOf), r), files + [p], stampOf)
  {
    PutRecordWellFormed(t, KeyOf(p, stampOf), r);
    SlotsAfterPut(t, files, p, stampOf, r);
    HoldsAfterPut(t, files, p, stampOf, r);
  }
}
