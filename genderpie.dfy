/** The data of the gender pie chart, `drawGenderPieChart`
    (js/map.js:552-563): the laureates whose first prize falls in the
    window, counted per gender; one slice per entry. */
module GenderPie {
  import opened Collections
  import opened Nest
  import opened Records
  import opened YearFilter

  /** `d.gender`, the `d3.nest` key of the pie. */
  function GenderOf(l: Laureate): string {
    l.gender
  }

  /** The slices of the pie: one per gender present in the window, each
      with the number of laureates of that gender in it, together making
      up every laureate of the window. */
  method DrawGenderPieChart(laureatesArray: seq<Laureate>, minyear: int, maxyear: int)
    returns (laureatesCountByGender: seq<Rollup<string>>)
    ensures var inRange := Filter(laureatesArray, Between(FirstPrizeYear, minyear, maxyear));
      && (forall i, j :: 0 <= i < j < |laureatesCountByGender| ==>
            laureatesCountByGender[i].key != laureatesCountByGender[j].key)
      && (forall i :: 0 <= i < |laureatesCountByGender| ==>
            laureatesCountByGender[i].count
              == |Filter(inRange, KeyIs(GenderOf, laureatesCountByGender[i].key))| > 0)
      && (forall i :: 0 <= i < |inRange| ==>
            exists j :: 0 <= j < |laureatesCountByGender| && laureatesCountByGender[j].key == inRange[i].gender)
      && Total(laureatesCountByGender) == |inRange|
  {
    var newLaureates := FilterLaureatesByYearRange(laureatesArray, minyear, maxyear);
    laureatesCountByGender := CountBy(newLaureates, GenderOf);
    CountByCorrect(newLaureates, GenderOf);
  }
}
