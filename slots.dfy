/**
 * The slots of a catalog in the order the validation and copy loops of
 * `main` visit them (years, then months, then base names, each in insertion
 * order), and the conservation of the file count: the records of the
 * catalog of a path list hold exactly as many paths as the list.
 */
module Enumeration {
  import opened Dates
  import opened Paths
  import opened Dicts
  import opened References
  import opened Catalog

  /** The slots of month `m` of year `y`, one per name of `names`. */
  function NameSlots(y: string, m: string, names: seq<string>): (r: seq<BucketKey>)
    ensures |r| == |names|
    ensures forall i :: 0 <= i < |r| ==> r[i] == BucketKey(y, m, names[i])
  {
    if names == [] then [] else NameSlots(y, m, names[..|names| - 1]) + [BucketKey(y, m, names[|names| - 1])]
  }

  /** The slots of the months `months` of year `y`, month after month. */
  function MonthSlots(y: string, yd: YearDict, months: seq<string>): seq<BucketKey> {
    if months == [] then []
    else
      var m := months[|months| - 1];
      MonthSlots(y, yd, months[..|months| - 1]) + (if m in yd.items then NameSlots(y, m, yd.items[m].keys) else [])
  }

  /** The slots of the years `years`, year after year. */
  function YearSlots(t: YearTable, years: seq<string>): seq<BucketKey> {
    if years == [] then []
    else
      var y := years[|years| - 1];
      YearSlots(t, years[..|years| - 1]) + (if y in t.items then MonthSlots(y, t.items[y], t.items[y].keys) else [])
  }

  /** Every slot of the table, in visiting order. */
  function Slots(t: YearTable): seq<BucketKey> {
    YearSlots(t, t.keys)
  }

  lemma {:induction false} MonthSlotsMembers(y: string, yd: YearDict, months: seq<string>, k: BucketKey)
    requires YearWellFormed(yd)
    ensures k in MonthSlots(y, yd, months) <==>
      k.year == y && k.month in months && k.month in yd.items && k.baseName in yd.items[k.month].items
  {
    if months != [] {
      var init := months[..|months| - 1];
      MonthSlotsMembers(y, yd, init, k);
      assert months == init + [months[|months| - 1]];
    }
  }

  lemma {:induction false} YearSlotsMembers(t: YearTable, years: seq<string>, k: BucketKey)
    requires WellFormed(t)
    ensures k in YearSlots(t, years) <==> k.year in years && HasSlot(t, k)
  {
    if years != [] {
      var init := years[..|years| - 1];
      var y := years[|years| - 1];
      YearSlotsMembers(t, init, k);
      assert years == init + [y];
      if y in t.items {
        MonthSlotsMembers(y, t.items[y], t.items[y].keys, k);
      }
    }
  }

  lemma {:induction false} MonthSlotsDistinct(y: string, yd: YearDict, months: seq<string>)
    requires YearWellFormed(yd) && Distinct(months)
    ensures Distinct(MonthSlots(y, yd, months))
  {
    if months != [] {
      var init := months[..|months| - 1];
      var m := months[|months| - 1];
      assert Distinct(init);
      MonthSlotsDistinct(y, yd, init);
      if m in yd.items {
        forall k | k in MonthSlots(y, yd, init) ensures k !in NameSlots(y, m, yd.items[m].keys) {
          MonthSlotsMembers(y, yd, init, k);
        }
        DistinctAppend(MonthSlots(y, yd, init), NameSlots(y, m, yd.items[m].keys));
      }
    }
  }

  lemma {:induction false} YearSlotsDistinct(t: YearTable, years: seq<string>)
    requires WellFormed(t) && Distinct(years)
    ensures Distinct(YearSlots(t, years))
  {
    if years != [] {
      var init := years[..|years| - 1];
      var y := years[|years| - 1];
      assert Distinct(init);
      YearSlotsDistinct(t, init);
      if y in t.items {
        MonthSlotsDistinct(y, t.items[y], t.items[y].keys);
        forall k | k in YearSlots(t, init) ensures k !in MonthSlots(y, t.items[y], t.items[y].keys) {
          YearSlotsMembers(t, init, k);
          MonthSlotsMembers(y, t.items[y], t.items[y].keys, k);
        }
        DistinctAppend(YearSlots(t, init), MonthSlots(y, t.items[y], t.items[y].keys));
      }
    }
  }

  /** The loops of `main` visit every slot of the table, each exactly once. */
  lemma SlotsEnumerate(t: YearTable)
    requires WellFormed(t)
    ensures Distinct(Slots(t))
    ensures forall k :: k in Slots(t) <==> HasSlot(t, k)
  {
    YearSlotsDistinct(t, t.keys);
    forall k ensures k in Slots(t) <==> HasSlot(t, k) {
      YearSlotsMembers(t, t.keys, k);
    }
  }

  // ----- conservation of the file count -----

  /** How often `k` occurs in `ks`. */
  function Occurrences(ks: seq<BucketKey>, k: BucketKey): nat {
    if ks == [] then 0
    else Occurrences(ks[..|ks| - 1], k) + (if ks[|ks| - 1] == k then 1 else 0)
  }

  lemma {:induction false} OccurrencesInDistinct(ks: seq<BucketKey>, k: BucketKey)
    requires Distinct(ks)
    ensures Occurrences(ks, k) == if k in ks then 1 else 0
  {
    if ks != [] {
      var init := ks[..|ks| - 1];
      assert Distinct(init);
      OccurrencesInDistinct(init, k);
      assert ks == init + [ks[|ks| - 1]];
      if ks[|ks| - 1] == k {
        assert k !in init;
      }
    }
  }

  /** How many paths of `files` are filed under the slots `ks`. */
  function FiledCount(ks: seq<BucketKey>, files: seq<Path>, stampOf: Path -> Timestamp): nat {
    if ks == [] then 0
    else FiledCount(ks[..|ks| - 1], files, stampOf) + |PathsAt(files, stampOf, ks[|ks| - 1])|
  }

  /** One more path adds one to the count of every slot listing its key. */
  lemma {:induction false} FiledCountSnoc(ks: seq<BucketKey>, files: seq<Path>, p: Path, stampOf: Path -> Timestamp)
    ensures FiledCount(ks, files + [p], stampOf) == FiledCount(ks, files, stampOf) + Occurrences(ks, KeyOf(p, stampOf))
  {
    if ks != [] {
      FiledCountSnoc(ks[..|ks| - 1], files, p, stampOf);
      PathsAtSnoc(files, p, stampOf, ks[|ks| - 1]);
    }
  }

  /** Slots listing every key of `files` once each count every path once. */
  lemma {:induction false} FiledCountIsLength(ks: seq<BucketKey>, files: seq<Path>, stampOf: Path -> Timestamp)
    requires Distinct(ks)
    requires forall i :: 0 <= i < |files| ==> KeyOf(files[i], stampOf) in ks
    ensures FiledCount(ks, files, stampOf) == |files|
  {
    if files == [] {
      FiledCountOfNothing(ks, stampOf);
    } else {
      var init := files[..|files| - 1];
      var p := files[|files| - 1];
      assert files == init + [p];
      FiledCountIsLength(ks, init, stampOf);
      FiledCountSnoc(ks, init, p, stampOf);
      OccurrencesInDistinct(ks, KeyOf(p, stampOf));
    }
  }

  lemma {:induction false} FiledCountOfNothing(ks: seq<BucketKey>, stampOf: Path -> Timestamp)
    ensures FiledCount(ks, [], stampOf) == 0
  {
    if ks != [] {
      FiledCountOfNothing(ks[..|ks| - 1], stampOf);
    }
  }

  /** The number of paths the records of the slots `ks` hold. */
  ghost function HeldCount(t: YearTable, ks: seq<BucketKey>): nat
    reads Records(t)
  {
    if ks == [] then 0
    else
      var k := ks[|ks| - 1];
      HeldCount(t, ks[..|ks| - 1]) + if HasSlot(t, k) then AtInRecords(t, k); |At(t, k).sourcePaths| else 0
  }

  /** How many of the keys `ks` are slots of the table. */
  function SlotCount(t: YearTable, ks: seq<BucketKey>): nat {
    if ks == [] then 0 else SlotCount(t, ks[..|ks| - 1]) + (if HasSlot(t, ks[|ks| - 1]) then 1 else 0)
  }

  lemma {:induction false} CountsOfAppend(t: YearTable, a: seq<BucketKey>, b: seq<BucketKey>)
    ensures SlotCount(t, a + b) == SlotCount(t, a) + SlotCount(t, b)
    ensures HeldCount(t, a + b) == HeldCount(t, a) + HeldCount(t, b)
  {
    if b == [] {
      assert a + b == a;
    } else {
      var init := b[..|b| - 1];
      CountsOfAppend(t, a, init);
      assert (a + b)[..|a + b| - 1] == a + init;
    }
  }

  lemma {:induction false} SlotCountOfSlots(t: YearTable, ks: seq<BucketKey>)
    requires forall k | k in ks :: HasSlot(t, k)
    ensures SlotCount(t, ks) == |ks|
  {
    if ks != [] {
      SlotCountOfSlots(t, ks[..|ks| - 1]);
    }
  }

  lemma {:induction false} HeldIsFiled(t: YearTable, files: seq<Path>, stampOf: Path -> Timestamp, ks: seq<BucketKey>)
    requires Catalogs(t, files, stampOf)
    ensures HeldCount(t, ks) == FiledCount(ks, files, stampOf)
  {
    if ks != [] {
      HeldIsFiled(t, files, stampOf, ks[..|ks| - 1]);
      var k := ks[|ks| - 1];
      if HasSlot(t, k) {
        AtInRecords(t, k);
        assert SlotHolds(At(t, k), k, PathsAt(files, stampOf, k), stampOf);
      }
    }
  }

  /**
   * Conservation of the file count: over all slots, the records of the
   * catalog of `files` hold exactly `|files|` paths.
   */
  lemma CatalogHoldsEveryPath(t: YearTable, files: seq<Path>, stampOf: Path -> Timestamp)
    requires Catalogs(t, files, stampOf)
    ensures HeldCount(t, Slots(t)) == |files|
  {
    SlotsEnumerate(t);
    forall i | 0 <= i < |files| ensures KeyOf(files[i], stampOf) in Slots(t) {
      PathsAtComplete(files, stampOf, i);
    }
    FiledCountIsLength(Slots(t), files, stampOf);
    HeldIsFiled(t, files, stampOf, Slots(t));
  }

  /**
   * Every path of `files` is in the record of its own slot and in no other
   * record.
   */
  lemma EveryPathInOneRecord(t: YearTable, files: seq<Path>, stampOf: Path -> Timestamp, i: nat)
    requires Catalogs(t, files, stampOf) && i < |files|
    ensures HasSlot(t, KeyOf(files[i], stampOf))
    ensures files[i] in At(t, KeyOf(files[i], stampOf)).sourcePaths
    ensures forall k | HasSlot(t, k) && files[i] in At(t, k).sourcePaths :: At(t, k) == At(t, KeyOf(files[i], stampOf))
  {
    var key := KeyOf(files[i], stampOf);
    PathsAtComplete(files, stampOf, i);
    AtInRecords(t, key);
    assert SlotHolds(At(t, key), key, PathsAt(files, stampOf, key), stampOf);
    forall k | HasSlot(t, k) && files[i] in At(t, k).sourcePaths ensures At(t, k) == At(t, key) {
      AtInRecords(t, k);
      assert SlotHolds(At(t, k), k, PathsAt(files, stampOf, k), stampOf);
    }
  }
}
