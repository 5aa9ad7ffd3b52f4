/** The bar-chart data: `prizesCountByYearCategory` (js/map.js:131-148)
    groups prizes.json by year with `d3.nest` and counts each category with
    `categoryCount` (js/map.js:156-164). */
module PrizeCounts {
  import opened Collections
  import opened Nest
  import opened Records

  /** `categoryCount` as the source writes it: the `laureates` length of
      the LAST record of the category, and 0 when there is none. */
  function LastCount(records: seq<PrizeRecord>, category: string): nat
    decreases |records|
  {
    if records == [] then 0
    else if records[|records| - 1].category == category then records[|records| - 1].laureates
    else LastCount(records[..|records| - 1], category)
  }

  method CategoryCount(dataArray: seq<PrizeRecord>, category: string) returns (count: nat)
    ensures count == LastCount(dataArray, category)
  {
    count := 0;
    for i := 0 to |dataArray|
      invariant count == LastCount(dataArray[..i], category)
    {
      assert dataArray[..i + 1][..i] == dataArray[..i];
      if dataArray[i].category == category {
        count := dataArray[i].laureates;
      }
    }
    assert dataArray[..|dataArray|] == dataArray;
  }

  /** The count is 0 when no record has the category. */
  lemma {:induction false} LastCountWithoutMatch(records: seq<PrizeRecord>, category: string)
    requires forall i :: 0 <= i < |records| ==> records[i].category != category
    ensures LastCount(records, category) == 0
    decreases |records|
  {
    if records != [] {
      var init := records[..|records| - 1];
      assert forall i :: 0 <= i < |init| ==> init[i] == records[i];
      LastCountWithoutMatch(init, category);
    }
  }

  /** Otherwise it is the `laureates` length of the last record that has
      the category. */
  lemma {:induction false} LastCountIsLastMatch(records: seq<PrizeRecord>, category: string, i: nat)
    requires i < |records| && records[i].category == category
    requires forall j :: i < j < |records| ==> records[j].category != category
    ensures LastCount(records, category) == records[i].laureates
    decreases |records|
  {
    var n := |records| - 1;
    if i < n {
      var init := records[..n];
      assert forall j :: 0 <= j < n ==> init[j] == records[j];
      LastCountIsLastMatch(init, category, i);
    }
  }

  /** What the function's name promises: the laureates of every record of
      the category, summed. */
  function SumCount(records: seq<PrizeRecord>, category: string): nat
    decreases |records|
  {
    if records == [] then 0
    else
      var last := records[|records| - 1];
      SumCount(records[..|records| - 1], category) + (if last.category == category then last.laureates else 0)
  }

  /** When a year holds at most one record per category, as prizes.json
      does, overwriting the count gives the same number as summing. */
  lemma {:induction false} LastCountIsSumWhenUnique(records: seq<PrizeRecord>, category: string)
    requires forall i, j :: 0 <= i < j < |records| && records[i].category == category ==>
      records[j].category != category
    ensures LastCount(records, category) == SumCount(records, category)
    decreases |records|
  {
    if records != [] {
      var n, init := |records| - 1, records[..|records| - 1];
      assert forall i :: 0 <= i < n ==> init[i] == records[i];
      LastCountIsSumWhenUnique(init, category);
      if records[n].category == category {
        LastCountWithoutMatch(init, category);
        NoneLeft(init, category);
      }
    }
  }

  lemma {:induction false} NoneLeft(records: seq<PrizeRecord>, category: string)
    requires forall i :: 0 <= i < |records| ==> records[i].category != category
    ensures SumCount(records, category) == 0
    decreases |records|
  {
    if records != [] {
      var init := records[..|records| - 1];
      assert forall i :: 0 <= i < |init| ==> init[i] == records[i];
      NoneLeft(init, category);
    }
  }

  /** Two records of one category in one year: the count is the second
      one's size, not the total. */
  lemma LastCountIsNotASum()
    ensures var rs := [PrizeRecord(1950, "physics", 2), PrizeRecord(1950, "physics", 1)];
      LastCount(rs, "physics") == 1 && SumCount(rs, "physics") == 3
  {
    var rs := [PrizeRecord(1950, "physics", 2), PrizeRecord(1950, "physics", 1)];
    assert rs[..1] == [PrizeRecord(1950, "physics", 2)];
    assert rs[..1][..0] == [];
  }

  /** The `d3.nest` key of a prize record. */
  function YearOf(r: PrizeRecord): int { r.year }

  /** The bar-chart record of one year group. */
  function CountsOf(year: int, values: seq<PrizeRecord>): YearCounts {
    YearCounts(year,
      LastCount(values, "chemistry"), LastCount(values, "economics"),
      LastCount(values, "literature"), LastCount(values, "medicine"),
      LastCount(values, "peace"), LastCount(values, "physics"))
  }

  /** One record per distinct year of the input (in whatever order the
      grouping yields them), each carrying `categoryCount` of that year's
      prize records for the six categories. */
  method PrizesCountByYearCategory(prizes: seq<PrizeRecord>) returns (result: seq<YearCounts>)
    ensures forall i, j :: 0 <= i < j < |result| ==> result[i].year != result[j].year
    ensures forall i :: 0 <= i < |prizes| ==>
      exists j :: 0 <= j < |result| && result[j].year == prizes[i].year
    ensures forall j :: 0 <= j < |result| ==>
      exists i :: 0 <= i < |prizes| && prizes[i].year == result[j].year
    ensures forall j :: 0 <= j < |result| ==>
      result[j] == CountsOf(result[j].year, Filter(prizes, KeyIs(YearOf, result[j].year)))
  {
    var prizesRollup := GroupBy(prizes, YearOf);
    result := [];
    for i := 0 to |prizesRollup|
      invariant |result| == i
      invariant forall k :: 0 <= k < i ==>
        result[k] == CountsOf(prizesRollup[k].key, prizesRollup[k].values)
    {
      var val := prizesRollup[i];
      var chemistry := CategoryCount(val.values, "chemistry");
      var economics := CategoryCount(val.values, "economics");
      var literature := CategoryCount(val.values, "literature");
      var medicine := CategoryCount(val.values, "medicine");
      var peace := CategoryCount(val.values, "peace");
      var physics := CategoryCount(val.values, "physics");
      result := result + [YearCounts(val.key, chemistry, economics, literature, medicine, peace, physics)];
    }
    GroupByIsNest(prizes, YearOf);
    YearRecordsFromNest(prizes, prizesRollup, result);
  }

  /** The bar-chart records built from a correct year grouping, whatever
      the order of its groups: one per distinct year of the input, each
      counting the prize records of its year. */
  lemma YearRecordsFromNest(prizes: seq<PrizeRecord>, groups: seq<Group<int, PrizeRecord>>,
                            result: seq<YearCounts>)
    requires IsNest(prizes, YearOf, groups)
    requires |result| == |groups|
    requires forall k :: 0 <= k < |groups| ==> result[k] == CountsOf(groups[k].key, groups[k].values)
    ensures forall i, j :: 0 <= i < j < |result| ==> result[i].year != result[j].year
    ensures forall i :: 0 <= i < |prizes| ==>
      exists j :: 0 <= j < |result| && result[j].year == prizes[i].year
    ensures forall j :: 0 <= j < |result| ==>
      exists i :: 0 <= i < |prizes| && prizes[i].year == result[j].year
    ensures forall j :: 0 <= j < |result| ==>
      result[j] == CountsOf(result[j].year, Filter(prizes, KeyIs(YearOf, result[j].year)))
  {
    NestAt(prizes, YearOf, groups);
    YearsOfGroups(groups, result);
  }

  lemma YearsOfGroups(groups: seq<Group<int, PrizeRecord>>, result: seq<YearCounts>)
    requires |result| == |groups|
    requires forall k :: 0 <= k < |groups| ==> result[k] == CountsOf(groups[k].key, groups[k].values)
    ensures forall k :: 0 <= k < |groups| ==> result[k].year == groups[k].key
  {
  }
}
