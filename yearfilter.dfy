/** The year-range filters applied on every move of the year slider:
    `filterPrizesByYearRange` (js/map.js:173-180) and the loop inlined in
    `showLaureateMarkers` (js/map.js:466-470) and `drawGenderPieChart`
    (js/map.js:554-558). Years are compared as numbers. */
module YearFilter {
  import opened Collections
  import opened Records

  /** `year >= minyear && year <= maxyear`: both bounds inclusive. */
  function Between<T>(year: T -> int, minyear: int, maxyear: int): T -> bool {
    x => minyear <= year(x) <= maxyear
  }

  /** `Number(val.year)` of a bar-chart record. */
  function CountsYear(r: YearCounts): int { r.year }

  /** `val.prizes[0].year` of a laureate. */
  function FirstPrizeYear(l: Laureate): int { l.prizes[0].year }

  method FilterPrizesByYearRange(prizes: seq<YearCounts>, minyear: int, maxyear: int)
    returns (result: seq<YearCounts>)
    ensures result == Filter(prizes, Between(CountsYear, minyear, maxyear))
  {
    result := [];
    for i := 0 to |prizes|
      invariant result == Filter(prizes[..i], Between(CountsYear, minyear, maxyear))
    {
      FilterExtend(prizes, i, Between(CountsYear, minyear, maxyear));
      assert Between(CountsYear, minyear, maxyear)(prizes[i]) ==
        (minyear <= CountsYear(prizes[i]) <= maxyear);
      if prizes[i].year >= minyear && prizes[i].year <= maxyear {
        result := result + [prizes[i]];
      }
    }
    assert prizes[..|prizes|] == prizes;
  }

  method FilterLaureatesByYearRange(laureates: seq<Laureate>, minyear: int, maxyear: int)
    returns (newLaureates: seq<Laureate>)
    ensures newLaureates == Filter(laureates, Between(FirstPrizeYear, minyear, maxyear))
  {
    newLaureates := [];
    for i := 0 to |laureates|
      invariant newLaureates == Filter(laureates[..i], Between(FirstPrizeYear, minyear, maxyear))
    {
      FilterExtend(laureates, i, Between(FirstPrizeYear, minyear, maxyear));
      var val := laureates[i];
      assert Between(FirstPrizeYear, minyear, maxyear)(val) ==
        (minyear <= FirstPrizeYear(val) <= maxyear);
      if val.prizes[0].year >= minyear && val.prizes[0].year <= maxyear {
        newLaureates := newLaureates + [val];
      }
    }
    assert laureates[..|laureates|] == laureates;
  }

  /** A record is kept exactly when its year lies in the window, bounds
      included: one year before `minyear` or after `maxyear` is dropped. */
  lemma WindowBoundaries<T>(s: seq<T>, year: T -> int, minyear: int, maxyear: int, i: nat)
    requires i < |s|
    ensures year(s[i]) == minyear <= maxyear ==> s[i] in Filter(s, Between(year, minyear, maxyear))
    ensures minyear <= maxyear == year(s[i]) ==> s[i] in Filter(s, Between(year, minyear, maxyear))
    ensures year(s[i]) == minyear - 1 || year(s[i]) == maxyear + 1 ==>
      s[i] !in Filter(s, Between(year, minyear, maxyear))
  {
    var r := Filter(s, Between(year, minyear, maxyear));
    if s[i] in r {
      var k :| 0 <= k < |r| && r[k] == s[i];
    }
  }

  /** An inverted window (`minyear > maxyear`) keeps nothing. */
  lemma InvertedWindowIsEmpty<T>(s: seq<T>, year: T -> int, minyear: int, maxyear: int)
    requires minyear > maxyear
    ensures Filter(s, Between(year, minyear, maxyear)) == []
  {
  }

  /** Filtering an already filtered sequence by a second window is the
      same as filtering the original once by the intersection of the two
      windows; in particular filtering again by the same window changes
      nothing. */
  lemma {:induction false} NarrowWindow<T>(s: seq<T>, year: T -> int,
                                           lo1: int, hi1: int, lo2: int, hi2: int)
    ensures Filter(Filter(s, Between(year, lo1, hi1)), Between(year, lo2, hi2)) ==
            Filter(s, Between(year, if lo1 < lo2 then lo2 else lo1, if hi1 < hi2 then hi1 else hi2))
    decreases |s|
  {
    if s != [] {
      var init, x := s[..|s| - 1], s[|s| - 1];
      NarrowWindow(init, year, lo1, hi1, lo2, hi2);
      var f1, f2 := Between(year, lo1, hi1), Between(year, lo2, hi2);
      var f3 := Between(year, if lo1 < lo2 then lo2 else lo1, if hi1 < hi2 then hi1 else hi2);
      var first := Filter(init, f1);
      assert f3(x) <==> f1(x) && f2(x);
      assert Filter(s, f3) == Filter(init, f3) + (if f3(x) then [x] else []);
      if f1(x) {
        assert Filter(s, f1) == first + [x];
        assert (first + [x])[..|first + [x]| - 1] == first;
        assert Filter(first + [x], f2) == Filter(first, f2) + (if f2(x) then [x] else []);
      } else {
        assert Filter(s, f1) == first;
      }
    }
  }

  lemma YearFilterIdempotent<T>(s: seq<T>, year: T -> int, minyear: int, maxyear: int)
    ensures Filter(Filter(s, Between(year, minyear, maxyear)), Between(year, minyear, maxyear)) ==
            Filter(s, Between(year, minyear, maxyear))
  {
    NarrowWindow(s, year, minyear, maxyear, minyear, maxyear);
  }
}
