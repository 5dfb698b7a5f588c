/** The two summary tables built from the extracted rows: statistics per
    managed resource and the files each managed resource is found in. */
module Aggregation {
  import opened Wrappers
  import opened Strings
  import opened Groups
  import opened Manifest
  import opened Compositions

  /** The columns the statistics group by. */
  datatype GroupKey = GroupKey(mrKey: string, kind: string, apiVersion: string, category: string)

  function KeyOf(r: Record): GroupKey {
    GroupKey(r.mrKey, r.kind, r.apiVersion, r.category)
  }

  function FilePathOf(r: Record): string {
    r.filePath
  }

  function CompositionKeyOf(r: Record): string {
    r.compositionKey
  }

  function MrKeyOf(r: Record): string {
    r.mrKey
  }

  /** One row of the statistics table. */
  datatype StatRow = StatRow(
    mrKey: string,
    kind: string,
    apiVersion: string,
    category: string,
    totalOccurrences: nat,
    foundInFiles: nat,
    usedByCompositions: nat)

  function TotalOf(row: StatRow): int {
    row.totalOccurrences
  }

  /** The row of one group: how many rows it has, in how many distinct
      files and under how many distinct composition keys. */
  function RowOf(records: seq<Record>, key: GroupKey): StatRow {
    var group := Members(records, KeyOf, key);
    StatRow(key.mrKey, key.kind, key.apiVersion, key.category,
            |group|,
            |Distinct(Map(group, FilePathOf))|,
            |Distinct(Map(group, CompositionKeyOf))|)
  }

  /** The rows of the given groups, in order. */
  function RowsFor(records: seq<Record>, keys: seq<GroupKey>): (rows: seq<StatRow>)
    ensures |rows| == |keys|
    ensures forall i :: 0 <= i < |keys| ==> rows[i] == RowOf(records, keys[i])
    decreases |keys|
  {
    if keys == [] then [] else [RowOf(records, keys[0])] + RowsFor(records, keys[1..])
  }

  function KindValueOfRecord(r: Record): KindValue {
    r.kindValue
  }

  /** The rows the grouping keeps: those whose kind is a hashable value. */
  function Grouped(records: seq<Record>): seq<Record> {
    Members(records, KindValueOfRecord, Hashable)
  }

  /** One row per distinct group key of the kept rows, in first-seen order. */
  function Rows(records: seq<Record>): seq<StatRow> {
    var kept := Grouped(records);
    RowsFor(kept, Distinct(Map(kept, KeyOf)))
  }

  /** The statistics table: no rows without data; `None` (the `TypeError`
      of grouping) when some kind is a mapping or a list; otherwise one row
      per group of the rows whose kind is not missing, the most frequent
      first. */
  function MrStatistics(records: seq<Record>): Option<seq<StatRow>> {
    if records == [] then Some([])
    else if Unhashable in Map(records, KindValueOfRecord) then None
    else Some(SortDesc(Rows(records), TotalOf))
  }

  /** A row of the given groups is the row of one of them. */
  lemma {:induction false} RowsForIn(records: seq<Record>, keys: seq<GroupKey>, row: StatRow)
    ensures row in RowsFor(records, keys) <==> exists key :: key in keys && row == RowOf(records, key)
    decreases |keys|
  {
    if keys != [] {
      RowsForIn(records, keys[1..], row);
      assert keys == [keys[0]] + keys[1..];
    }
  }

  /** The totals of the given groups add up to their counts in the key column. */
  lemma {:induction false} RowsForSum(records: seq<Record>, keys: seq<GroupKey>)
    ensures SumBy(RowsFor(records, keys), TotalOf) == CountAll(Map(records, KeyOf), keys)
    decreases |keys|
  {
    if keys != [] {
      RowsForSum(records, keys[1..]);
      MembersFacts(records, KeyOf, keys[0]);
    }
  }

  /** The row of a group that occurs: its total is the group's size, and it
      is found in at least one and at most that many files and compositions. */
  lemma RowBounds(records: seq<Record>, key: GroupKey)
    requires key in Map(records, KeyOf)
    ensures RowOf(records, key).totalOccurrences == Count(Map(records, KeyOf), key)
    ensures 1 <= RowOf(records, key).foundInFiles <= RowOf(records, key).totalOccurrences
    ensures 1 <= RowOf(records, key).usedByCompositions <= RowOf(records, key).totalOccurrences
  {
    var group := Members(records, KeyOf, key);
    MembersFacts(records, KeyOf, key);
    CountFacts(Map(records, KeyOf), key);
    DistinctFacts(Map(group, FilePathOf));
    DistinctFacts(Map(group, CompositionKeyOf));
  }

  /** The rows kept for grouping are exactly the rows with a hashable kind. */
  lemma GroupedFacts(records: seq<Record>)
    ensures forall r :: r in Grouped(records) <==> r in records && r.kindValue == Hashable
    ensures |Grouped(records)| == Count(Map(records, KindValueOfRecord), Hashable)
  {
    MembersFacts(records, KindValueOfRecord, Hashable);
  }

  /** Grouping raises exactly when some row's kind is a mapping or a list. */
  lemma MrStatisticsRaises(records: seq<Record>)
    ensures MrStatistics(records).None? <==> exists r :: r in records && r.kindValue == Unhashable
  {
    MapIn(records, KindValueOfRecord, Unhashable);
  }

  /** The table is empty exactly when every row's kind is missing (which
      includes having no rows at all). */
  lemma MrStatisticsEmpty(records: seq<Record>)
    ensures MrStatistics(records) == Some([]) <==> forall r :: r in records ==> r.kindValue == Missing
  {
    var kept := Grouped(records);
    var kinds := Map(records, KindValueOfRecord);
    MapIn(records, KindValueOfRecord, Unhashable);
    MapIn(records, KindValueOfRecord, Hashable);
    if records != [] && Unhashable !in kinds {
      GroupedFacts(records);
      CountFacts(kinds, Hashable);
      DistinctFacts(Map(kept, KeyOf));
      SortDescFacts(Rows(records), TotalOf);
      var sorted := SortDesc(Rows(records), TotalOf);
      assert |sorted| == |Rows(records)| by {
        assert |multiset(sorted)| == |multiset(Rows(records))|;
      }
      assert MrStatistics(records) == Some([]) <==> kept == [];
      assert kept == [] <==> Hashable !in kinds;
    }
  }

  /** The table is ordered by non-increasing total. */
  lemma MrStatisticsSorted(records: seq<Record>)
    requires MrStatistics(records).Some?
    ensures NonIncreasing(MrStatistics(records).value, TotalOf)
  {
    if records != [] {
      SortDescFacts(Rows(records), TotalOf);
    }
  }

  /** The table holds exactly the rows of the groups of rows whose kind is
      hashable, one row per distinct group key among them. */
  lemma MrStatisticsRows(records: seq<Record>)
    requires MrStatistics(records).Some?
    ensures |MrStatistics(records).value| == |Distinct(Map(Grouped(records), KeyOf))|
    ensures forall row :: row in MrStatistics(records).value <==>
      exists r :: r in records && r.kindValue == Hashable && row == RowOf(Grouped(records), KeyOf(r))
  {
    if records != [] {
      SortDescFacts(Rows(records), TotalOf);
    } else {
      assert Grouped(records) == [];
    }
    forall row ensures row in MrStatistics(records).value <==>
      exists r :: r in records && r.kindValue == Hashable && row == RowOf(Grouped(records), KeyOf(r))
    {
      MrStatisticsRowIn(records, row);
    }
  }

  /** One row is in the table exactly when it is the row of the group of
      some kept record. */
  lemma MrStatisticsRowIn(records: seq<Record>, row: StatRow)
    requires MrStatistics(records).Some?
    ensures row in MrStatistics(records).value <==>
      exists r :: r in records && r.kindValue == Hashable && row == RowOf(Grouped(records), KeyOf(r))
  {
    var kept := Grouped(records);
    var keys := Distinct(Map(kept, KeyOf));
    var table := MrStatistics(records).value;
    GroupedFacts(records);
    DistinctFacts(Map(kept, KeyOf));
    if records != [] {
      SortDescFacts(Rows(records), TotalOf);
      assert row in table <==> row in Rows(records) by {
        assert row in multiset(table) <==> row in multiset(Rows(records));
      }
    } else {
      assert kept == [];
    }
    RowsForIn(kept, keys, row);
    if key :| key in keys && row == RowOf(kept, key) {
      MapIn(kept, KeyOf, key);
    }
    if r :| r in records && r.kindValue == Hashable && row == RowOf(kept, KeyOf(r)) {
      MapIn(kept, KeyOf, KeyOf(r));
    }
  }

  /** Every row of the table is found in between 1 and its total of files,
      and used by between 1 and its total of compositions. */
  lemma MrStatisticsBounds(records: seq<Record>)
    requires MrStatistics(records).Some?
    ensures forall row :: row in MrStatistics(records).value ==>
      && 1 <= row.foundInFiles <= row.totalOccurrences
      && 1 <= row.usedByCompositions <= row.totalOccurrences
  {
    var kept := Grouped(records);
    MrStatisticsRows(records);
    GroupedFacts(records);
    forall row | row in MrStatistics(records).value
      ensures 1 <= row.foundInFiles <= row.totalOccurrences
      ensures 1 <= row.usedByCompositions <= row.totalOccurrences
    {
      var r :| r in records && r.kindValue == Hashable && row == RowOf(kept, KeyOf(r));
      MapIn(kept, KeyOf, KeyOf(r));
      RowBounds(kept, KeyOf(r));
    }
  }

  /** Every extracted row whose kind is not missing is counted in exactly
      one group: the totals add up to the number of rows less those with a
      missing kind. */
  lemma MrStatisticsTotal(records: seq<Record>)
    requires MrStatistics(records).Some?
    ensures SumBy(MrStatistics(records).value, TotalOf) ==
            |records| - Count(Map(records, KindValueOfRecord), Missing)
  {
    var kept := Grouped(records);
    var kinds := Map(records, KindValueOfRecord);
    KindCounts(kinds);
    GroupedFacts(records);
    if records != [] {
      CountFacts(kinds, Unhashable);
      SortDescSum(Rows(records), TotalOf, TotalOf);
      RowsForSum(kept, Distinct(Map(kept, KeyOf)));
      CountConservation(Map(kept, KeyOf));
    }
  }

  /** Every kind is hashable, missing or unhashable. */
  lemma {:induction false} KindCounts(kinds: seq<KindValue>)
    ensures Count(kinds, Hashable) + Count(kinds, Missing) + Count(kinds, Unhashable) == |kinds|
    decreases |kinds|
  {
    if kinds != [] {
      var init := kinds[..|kinds| - 1];
      KindCounts(init);
      assert Count(kinds, Hashable) == Count(init, Hashable) + (if kinds[|kinds| - 1] == Hashable then 1 else 0);
      assert Count(kinds, Missing) == Count(init, Missing) + (if kinds[|kinds| - 1] == Missing then 1 else 0);
      assert Count(kinds, Unhashable) == Count(init, Unhashable) + (if kinds[|kinds| - 1] == Unhashable then 1 else 0);
    }
  }

  /** One row of the file mapping. */
  datatype FileRow = FileRow(mrKey: string, totalFiles: nat, totalOccurrences: int, locations: string)

  /** The rows of one managed resource. */
  function MrGroup(records: seq<Record>, mr: string): seq<Record> {
    Members(records, MrKeyOf, mr)
  }

  /** The files of one managed resource with their counts, the most
      frequent first. */
  function FileCounts(records: seq<Record>, mr: string): seq<(string, nat)> {
    ValueCounts(Map(MrGroup(records, mr), FilePathOf))
  }

  /** `"<path> (<count> occurrences)"`. */
  function LocationLine(pc: (string, nat)): string {
    pc.0 + " (" + NatToString(pc.1) + " occurrences)"
  }

  /** The file mapping's row for one managed resource. */
  function FileRowOf(records: seq<Record>, mr: string): FileRow {
    var fc := FileCounts(records, mr);
    FileRow(mr, |fc|, SumBy(fc, CountOf), Join(Map(fc, LocationLine), "\n"))
  }

  /** The row of a managed resource that occurs: its total is the number
      of its rows, its files are counted once each and lie between 1 and
      that total, and its locations list each of its files with its count,
      the most frequent first. */
  lemma FileRowFacts(records: seq<Record>, mr: string)
    requires mr in Map(records, MrKeyOf)
    ensures FileRowOf(records, mr).totalOccurrences == Count(Map(records, MrKeyOf), mr)
    ensures 1 <= FileRowOf(records, mr).totalFiles <= FileRowOf(records, mr).totalOccurrences
    ensures NonIncreasing(FileCounts(records, mr), CountOf)
    ensures forall pc :: pc in FileCounts(records, mr) <==>
      exists r :: r in MrGroup(records, mr) && pc == (r.filePath, Count(Map(MrGroup(records, mr), FilePathOf), r.filePath))
  {
    FileRowTotals(records, mr);
    FileCountsListed(records, mr);
  }

  lemma FileRowTotals(records: seq<Record>, mr: string)
    requires mr in Map(records, MrKeyOf)
    ensures FileRowOf(records, mr).totalOccurrences == Count(Map(records, MrKeyOf), mr)
    ensures 1 <= FileRowOf(records, mr).totalFiles <= FileRowOf(records, mr).totalOccurrences
  {
    var paths := Map(MrGroup(records, mr), FilePathOf);
    MembersFacts(records, MrKeyOf, mr);
    CountFacts(Map(records, MrKeyOf), mr);
    ValueCountsFacts(paths);
    DistinctFacts(paths);
  }

  lemma FileCountsListed(records: seq<Record>, mr: string)
    ensures NonIncreasing(FileCounts(records, mr), CountOf)
    ensures forall pc :: pc in FileCounts(records, mr) <==>
      exists r :: r in MrGroup(records, mr) && pc == (r.filePath, Count(Map(MrGroup(records, mr), FilePathOf), r.filePath))
  {
    var group := MrGroup(records, mr);
    var paths := Map(group, FilePathOf);
    ValueCountsFacts(paths);
    forall pc ensures pc in FileCounts(records, mr) <==>
      exists r :: r in group && pc == (r.filePath, Count(paths, r.filePath))
    {
      MapIn(group, FilePathOf, pc.0);
    }
  }

  /** With no line break in any path, the locations text splits back into
      one line per file, in the order of the counts. */
  lemma LocationsSplit(records: seq<Record>, mr: string)
    requires mr in Map(records, MrKeyOf)
    requires forall r :: r in records ==> '\n' !in r.filePath
    ensures Split(FileRowOf(records, mr).locations, '\n') == Map(FileCounts(records, mr), LocationLine)
  {
    var fc := FileCounts(records, mr);
    var lines := Map(fc, LocationLine);
    FileRowFacts(records, mr);
    MembersFacts(records, MrKeyOf, mr);
    MapAt(fc, LocationLine);
    forall k | 0 <= k < |lines| ensures '\n' !in lines[k] {
      assert fc[k] in fc;
      var r :| r in MrGroup(records, mr) && fc[k] == (r.filePath, Count(Map(MrGroup(records, mr), FilePathOf), r.filePath));
      var digits := NatToString(fc[k].1);
      assert '\n' !in digits;
      assert lines[k] == r.filePath + " (" + digits + " occurrences)";
    }
    SplitJoin(lines, '\n');
  }

  /** The totals of the given managed resources, added up. */
  function TotalsOf(records: seq<Record>, mrs: seq<string>): int
    decreases |mrs|
  {
    if mrs == [] then 0 else FileRowOf(records, mrs[0]).totalOccurrences + TotalsOf(records, mrs[1..])
  }

  /** Over all managed resources, the totals add up to the number of rows. */
  lemma FileMappingTotal(records: seq<Record>)
    ensures TotalsOf(records, Distinct(Map(records, MrKeyOf))) == |records|
  {
    var mrs := Distinct(Map(records, MrKeyOf));
    DistinctFacts(Map(records, MrKeyOf));
    TotalsCount(records, mrs);
    CountConservation(Map(records, MrKeyOf));
  }

  lemma {:induction false} TotalsCount(records: seq<Record>, mrs: seq<string>)
    requires forall mr :: mr in mrs ==> mr in Map(records, MrKeyOf)
    ensures TotalsOf(records, mrs) == CountAll(Map(records, MrKeyOf), mrs)
    decreases |mrs|
  {
    if mrs != [] {
      FileRowFacts(records, mrs[0]);
      TotalsCount(records, mrs[1..]);
    }
  }

  /** The file mapping, keyed by managed resource: one row for each
      managed resource that occurs and none otherwise. */
  method FileMapping(records: seq<Record>) returns (m: map<string, FileRow>)
    ensures forall mr :: mr in m <==> mr in Map(records, MrKeyOf)
    ensures forall mr :: mr in m ==> m[mr] == FileRowOf(records, mr)
  {
    var mrs := Distinct(Map(records, MrKeyOf));
    DistinctFacts(Map(records, MrKeyOf));
    m := map[];
    var i := 0;
    while i < |mrs|
      invariant 0 <= i <= |mrs|
      invariant forall mr :: mr in m <==> mr in mrs[..i]
      invariant forall mr :: mr in m ==> m[mr] == FileRowOf(records, mr)
    {
      var mr := mrs[i];
      m := m[mr := FileRowOf(records, mr)];
      assert mrs[..i + 1] == mrs[..i] + [mr];
      i := i + 1;
    }
    assert mrs[..i] == mrs;
  }
}
