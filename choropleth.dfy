/** The choropleth of `showCountryLaureatesCount` (js/map.js:330-459): the
    laureates are counted per birth country, each count is written into the
    world feature whose `id2` is that country's code, and a feature is
    coloured by its count. */
module Choropleth {
  import opened Js
  import opened Collections
  import opened Nest
  import opened Records

  /** `d.bornCountryCode` as a `d3.nest` key: a missing code groups under
      "undefined", a null one under "null". */
  function CountryKey(l: Laureate): string {
    ToStr(l.bornCountryCode)
  }

  /** `country.id2 === data.key`: the keys are strings, so a feature whose
      `id2` is missing or null never matches. */
  predicate Matches(id2: JsValue<string>, entry: Rollup<string>) {
    id2 == Defined(entry.key)
  }

  /** The count of the last entry matching `id2`, if any: the one written
      last into the feature. */
  function LastMatch(entries: seq<Rollup<string>>, id2: JsValue<string>): Option<nat>
    decreases |entries|
  {
    if entries == [] then None
    else if Matches(id2, entries[|entries| - 1]) then Some(entries[|entries| - 1].count)
    else LastMatch(entries[..|entries| - 1], id2)
  }

  /** The `count` a feature holds after the entries were written: the last
      matching entry's, or the one it had. */
  function Annotated(count: JsValue<int>, entries: seq<Rollup<string>>, id2: JsValue<string>): JsValue<int> {
    match LastMatch(entries, id2)
    case None => count
    case Some(n) => Defined(n)
  }

  /** Without a matching entry the feature keeps its count; with one, among
      entries whose keys are distinct, it gets that entry's count. */
  lemma {:induction false} LastMatchUnique(entries: seq<Rollup<string>>, id2: JsValue<string>)
    requires forall i, j :: 0 <= i < j < |entries| ==> entries[i].key != entries[j].key
    ensures LastMatch(entries, id2) == None <==>
      forall i :: 0 <= i < |entries| ==> !Matches(id2, entries[i])
    ensures forall i :: 0 <= i < |entries| && Matches(id2, entries[i]) ==>
      LastMatch(entries, id2) == Some(entries[i].count)
    decreases |entries|
  {
    if entries != [] {
      var n, init := |entries| - 1, entries[..|entries| - 1];
      LastMatchUnique(init, id2);
      assert forall i :: 0 <= i < n ==> init[i] == entries[i];
    }
  }

  /** `addPropertitytoGeoJson`: for every entry, in order, every feature
      whose `id2` is the entry's key gets the entry's count; returns the
      features it was given. */
  method AddPropertitytoGeoJson(dataArray: seq<Rollup<string>>, geojsonArray: seq<Feature>)
    returns (r: seq<Feature>)
    modifies set f | f in geojsonArray
    ensures r == geojsonArray
    ensures forall f :: f in geojsonArray ==> f.count == Annotated(old(f.count), dataArray, f.id2)
  {
    for i := 0 to |dataArray|
      invariant forall f :: f in geojsonArray ==> f.count == Annotated(old(f.count), dataArray[..i], f.id2)
    {
      var data := dataArray[i];
      assert dataArray[..i + 1][..i] == dataArray[..i];
      for j := 0 to |geojsonArray|
        invariant forall f :: f in geojsonArray[..j] ==>
          f.count == Annotated(old(f.count), dataArray[..i + 1], f.id2)
        invariant forall f :: f in geojsonArray && f !in geojsonArray[..j] ==>
          f.count == Annotated(old(f.count), dataArray[..i], f.id2)
      {
        assert geojsonArray[..j + 1] == geojsonArray[..j] + [geojsonArray[j]];
        var country := geojsonArray[j];
        if country.id2 == Defined(data.key) {
          country.count := Defined(data.count);
        }
      }
      assert geojsonArray[..|geojsonArray|] == geojsonArray;
    }
    assert dataArray[..|dataArray|] == dataArray;
    r := geojsonArray;
  }

  /** The count a feature shows once the laureates were written into it:
      the number of laureates born in its country, when there is one; its
      old count otherwise. */
  ghost function CountryCount(laureates: seq<Laureate>, id2: JsValue<string>, count: JsValue<int>): JsValue<int> {
    if id2.Defined? && exists i :: 0 <= i < |laureates| && CountryKey(laureates[i]) == id2.value
    then Defined(|Filter(laureates, KeyIs(CountryKey, id2.value))|)
    else count
  }

  /** The data step of `showCountryLaureatesCount`: count the laureates per
      birth country and write the counts into the features. */
  method ShowCountryLaureatesCount(features: seq<Feature>, laureatesArray: seq<Laureate>)
    modifies set f | f in features
    ensures forall f :: f in features ==> f.count == CountryCount(laureatesArray, f.id2, old(f.count))
  {
    var laureateByCountryCount := CountBy(laureatesArray, CountryKey);
    CountByCorrect(laureatesArray, CountryKey);
    var worldDatawithCount := AddPropertitytoGeoJson(laureateByCountryCount, features);
    forall f | f in features
      ensures Annotated(old(f.count), laureateByCountryCount, f.id2)
           == CountryCount(laureatesArray, f.id2, old(f.count))
    {
      CountryCountIsAnnotated(laureatesArray, laureateByCountryCount, f.id2, old(f.count));
    }
  }

  /** The rollup of the laureates by country, written into a feature, gives
      the feature its country's count. */
  lemma CountryCountIsAnnotated(laureates: seq<Laureate>, entries: seq<Rollup<string>>,
                                id2: JsValue<string>, count: JsValue<int>)
    requires entries == CountBy(laureates, CountryKey)
    ensures Annotated(count, entries, id2) == CountryCount(laureates, id2, count)
  {
    CountByCorrect(laureates, CountryKey);
    LastMatchUnique(entries, id2);
    if id2.Defined? && exists i :: 0 <= i < |laureates| && CountryKey(laureates[i]) == id2.value {
      var i :| 0 <= i < |laureates| && CountryKey(laureates[i]) == id2.value;
      var j :| 0 <= j < |entries| && entries[j].key == CountryKey(laureates[i]);
      assert Matches(id2, entries[j]);
    } else {
      NoLaureateNoEntry(laureates, entries, id2);
    }
  }

  /** A feature whose country no laureate was born in matches no entry. */
  lemma NoLaureateNoEntry(laureates: seq<Laureate>, entries: seq<Rollup<string>>, id2: JsValue<string>)
    requires entries == CountBy(laureates, CountryKey)
    requires !(id2.Defined? && exists i :: 0 <= i < |laureates| && CountryKey(laureates[i]) == id2.value)
    ensures forall j :: 0 <= j < |entries| ==> !Matches(id2, entries[j])
  {
    CountByCorrect(laureates, CountryKey);
    forall j | 0 <= j < |entries|
      ensures !Matches(id2, entries[j])
    {
      var p := KeyIs(CountryKey, entries[j].key);
      var sel := Filter(laureates, p);
      assert |sel| > 0;
      assert sel[0] in laureates && p(sel[0]);
    }
  }

  /** The legend's lower bounds: a count above `Grades[i]` and at most
      `Grades[i + 1]` is in row i. */
  const Grades: seq<int> := [0, 5, 10, 20, 50, 100, 200]

  /** The fill colours from "no laureate" to the darkest bucket. */
  const Palette: seq<string> := ["transparent", "#d0dde6", "#9db8ca", "#779cb6", "#5d8aa8", "#54809d", "#406177", "#39566a"]

  /** `getColor(d)`: strict thresholds 200, 100, 50, 20, 10, 5 and 0;
      a missing or null count compares false everywhere. */
  function GetColor(d: JsValue<int>): string {
    if !d.Defined? then "transparent"
    else
      var n := d.value;
      if n > 200 then "#39566a"
      else if n > 100 then "#406177"
      else if n > 50 then "#54809d"
      else if n > 20 then "#5d8aa8"
      else if n > 10 then "#779cb6"
      else if n > 5 then "#9db8ca"
      else if n > 0 then "#d0dde6"
      else "transparent"
  }

  /** The number of bounds a count exceeds: its bucket. */
  function Exceeded(grades: seq<int>, n: int): (b: nat)
    ensures b <= |grades|
    decreases |grades|
  {
    if grades == [] then 0
    else Exceeded(grades[..|grades| - 1], n) + (if grades[|grades| - 1] < n then 1 else 0)
  }

  predicate Increasing(s: seq<int>) {
    forall i, j :: 0 <= i < j < |s| ==> s[i] < s[j]
  }

  /** A larger count never falls in a lower bucket. */
  lemma {:induction false} ExceededMonotone(grades: seq<int>, m: int, n: int)
    requires m <= n
    ensures Exceeded(grades, m) <= Exceeded(grades, n)
    decreases |grades|
  {
    if grades != [] {
      ExceededMonotone(grades[..|grades| - 1], m, n);
    }
  }

  /** Over increasing bounds, a count in (grades[i], grades[i + 1]] (or
      above the last bound) exceeds exactly i + 1 of them; a count at most
      the first exceeds none. */
  lemma {:induction false} ExceededAt(grades: seq<int>, n: int, i: int)
    requires Increasing(grades) && -1 <= i < |grades|
    requires i >= 0 ==> grades[i] < n
    requires i + 1 < |grades| ==> n <= grades[i + 1]
    ensures Exceeded(grades, n) == i + 1
    decreases |grades|
  {
    if grades != [] {
      var init := grades[..|grades| - 1];
      assert Increasing(init);
      if i + 1 == |grades| {
        ExceededAt(init, n, i - 1);
      } else {
        ExceededAt(init, n, i);
      }
    }
  }

  /** `getColor` is the palette colour of the count's bucket. */
  lemma GetColorIsBucket(n: int)
    ensures GetColor(Defined(n)) == Palette[Exceeded(Grades, n)]
  {
    assert Increasing(Grades);
    if n <= 0 { ExceededAt(Grades, n, -1); }
    else if n <= 5 { ExceededAt(Grades, n, 0); }
    else if n <= 10 { ExceededAt(Grades, n, 1); }
    else if n <= 20 { ExceededAt(Grades, n, 2); }
    else if n <= 50 { ExceededAt(Grades, n, 3); }
    else if n <= 100 { ExceededAt(Grades, n, 4); }
    else if n <= 200 { ExceededAt(Grades, n, 5); }
    else { ExceededAt(Grades, n, 6); }
  }

  /** A country is filled exactly when it has a positive count. */
  lemma TransparentIffNoCount(d: JsValue<int>)
    ensures GetColor(d) == "transparent" <==> !(d.Defined? && d.value > 0)
  {
  }

  /** The legend agrees with the map: row i shows `getColor(grades[i] + 1)`,
      which is the colour of every count the row's label covers, and the
      seven rows show seven different colours, darker further down. */
  lemma LegendMatchesMap(i: nat, n: int)
    requires i < |Grades| && Grades[i] < n && (i + 1 < |Grades| ==> n <= Grades[i + 1])
    ensures GetColor(Defined(n)) == GetColor(Defined(Grades[i] + 1)) == Palette[i + 1]
  {
    assert Increasing(Grades);
    GetColorIsBucket(n);
    GetColorIsBucket(Grades[i] + 1);
    ExceededAt(Grades, n, i);
    ExceededAt(Grades, Grades[i] + 1, i);
  }

  lemma PaletteDistinct()
    ensures forall i, j :: 0 <= i < j < |Palette| ==> Palette[i] != Palette[j]
  {
  }

  /** A larger count is never coloured lighter: its bucket, which picks its
      colour, is at least as high. */
  lemma GetColorMonotone(m: int, n: int)
    requires m <= n
    ensures GetColor(Defined(m)) == Palette[Exceeded(Grades, m)]
    ensures GetColor(Defined(n)) == Palette[Exceeded(Grades, n)]
    ensures Exceeded(Grades, m) <= Exceeded(Grades, n)
  {
    GetColorIsBucket(m);
    GetColorIsBucket(n);
    ExceededMonotone(Grades, m, n);
  }

  /** The seven legend probes `grades[i] + 1` fall in seven different
      buckets. */
  lemma LegendDistinct()
    ensures forall i, j :: 0 <= i < j < |Grades| ==>
      GetColor(Defined(Grades[i] + 1)) != GetColor(Defined(Grades[j] + 1))
  {
    forall i | 0 <= i < |Grades|
      ensures GetColor(Defined(Grades[i] + 1)) == Palette[i + 1]
    {
      LegendMatchesMap(i, Grades[i] + 1);
    }
    PaletteDistinct();
  }

  /** The per-country counts add up to the number of laureates; each is
      the number of laureates born there. */
  lemma CountryCountsSum(laureates: seq<Laureate>)
    ensures Total(CountBy(laureates, CountryKey)) == |laureates|
    ensures forall i :: 0 <= i < |CountBy(laureates, CountryKey)| ==>
      CountBy(laureates, CountryKey)[i].count
        == |Filter(laureates, KeyIs(CountryKey, CountBy(laureates, CountryKey)[i].key))|
  {
    CountByCorrect(laureates, CountryKey);
  }
}
