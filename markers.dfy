/** The laureate markers of `showLaureateMarkers` (js/map.js:464-543): the
    year-filtered laureates are split by gender and first-prize category
    into twelve selections, each drawn with its own icon, and clicking a
    marker connects the laureates who share its prize. */
module Markers {
  import opened Js
  import opened Collections
  import opened Records
  import opened YearFilter

  /** A marker icon (`fchemistryMarker`, `mchemistryMarker`, ...), named by
      the gender and category it stands for. */
  datatype Icon = Icon(gender: string, category: string)

  /** The twelve selections, in the order `showLaureateMarkers` draws them. */
  const Icons: seq<Icon> := [
    Icon("female", "chemistry"), Icon("male", "chemistry"),
    Icon("female", "economics"), Icon("male", "economics"),
    Icon("female", "literature"), Icon("male", "literature"),
    Icon("female", "medicine"), Icon("male", "medicine"),
    Icon("female", "peace"), Icon("male", "peace"),
    Icon("female", "physics"), Icon("male", "physics")]

  /** The icons of one category, women first. */
  function CategoryIcons(category: string): (icons: seq<Icon>)
    ensures |icons| == 2 && icons[0].category == icons[1].category == category
  {
    [Icon("female", category), Icon("male", category)]
  }

  /** The twelve icons are the pairs of the six categories in turn. The
      leading `[] +` matches the ghost list of drawn icons that
      `ShowLaureateMarkers` starts empty and extends one category at a
      time, so the two terms meet syntactically. */
  lemma IconsByCategory()
    ensures Icons == [] + CategoryIcons("chemistry") + CategoryIcons("economics") + CategoryIcons("literature")
      + CategoryIcons("medicine") + CategoryIcons("peace") + CategoryIcons("physics")
  {
  }

  /** `val.gender === gender && val.prizes[0].category === category`. */
  function WonAs(gender: string, category: string): Laureate -> bool {
    (l: Laureate) => l.gender == gender && l.prizes[0].category == category
  }

  method FilterLaureatesByGenderCategory(laureatesdata: seq<Laureate>, gender: string, category: string)
    returns (result: seq<Laureate>)
    ensures result == Filter(laureatesdata, WonAs(gender, category))
  {
    result := [];
    for i := 0 to |laureatesdata|
      invariant result == Filter(laureatesdata[..i], WonAs(gender, category))
    {
      FilterExtend(laureatesdata, i, WonAs(gender, category));
      var val := laureatesdata[i];
      if val.gender == gender && val.prizes[0].category == category {
        result := result + [val];
      }
    }
    assert laureatesdata[..|laureatesdata|] == laureatesdata;
  }

  /** The selection of an icon. */
  function Selected(ls: seq<Laureate>, icon: Icon): seq<Laureate> {
    Filter(ls, WonAs(icon.gender, icon.category))
  }

  /** A laureate belongs to the selection of exactly the icon of its own
      gender and first-prize category, so two different selections never
      share a laureate. */
  lemma SelectionIsOwnIcon(ls: seq<Laureate>, icon: Icon, i: nat)
    requires i < |ls|
    ensures ls[i] in Selected(ls, icon) <==> icon == Icon(ls[i].gender, ls[i].prizes[0].category)
  {
    var p := WonAs(icon.gender, icon.category);
    if ls[i] in Selected(ls, icon) {
      assert p(ls[i]);
    }
  }

  lemma IconsDistinct()
    ensures forall i, j :: 0 <= i < j < |Icons| ==> Icons[i] != Icons[j]
  {
  }

  /** Of the twelve selections, a laureate is in at most one; it is in one
      exactly when its gender is "female" or "male" and its first prize is
      in one of the six categories. */
  lemma SelectionsPartition(ls: seq<Laureate>, i: nat)
    requires i < |ls|
    ensures forall a, b :: 0 <= a < b < |Icons| ==>
      !(ls[i] in Selected(ls, Icons[a]) && ls[i] in Selected(ls, Icons[b]))
    ensures (exists a :: 0 <= a < |Icons| && ls[i] in Selected(ls, Icons[a])) <==>
      Icon(ls[i].gender, ls[i].prizes[0].category) in Icons
  {
    IconsDistinct();
    forall a | 0 <= a < |Icons|
      ensures ls[i] in Selected(ls, Icons[a]) <==> Icons[a] == Icon(ls[i].gender, ls[i].prizes[0].category)
    {
      SelectionIsOwnIcon(ls, Icons[a], i);
    }
  }

  /** `val.latitude && val.longitude`: a coordinate that is missing, null
      or 0 gets no marker. */
  predicate HasCoordinates(l: Laureate)
    reads l
  {
    Truthy(l.latitude) && Truthy(l.longitude)
  }

  /** A marker on the map: the laureate it describes, its position and
      its icon. */
  datatype Marker = Marker(laureate: Laureate, latitude: real, longitude: real, icon: Icon)

  /** The markers `setMarker(data, icon)` creates, in order. */
  function MarkersFor(data: seq<Laureate>, icon: Icon): seq<Marker>
    reads data
    decreases |data|
  {
    if data == [] then []
    else
      var val := data[|data| - 1];
      MarkersFor(data[..|data| - 1], icon) +
        (if HasCoordinates(val) then [Marker(val, val.latitude.value, val.longitude.value, icon)] else [])
  }

  /** The markers of a series of `setMarker` calls, one per icon, in order. */
  function AllMarkers(ls: seq<Laureate>, icons: seq<Icon>): seq<Marker>
    reads ls
    decreases |icons|
  {
    if icons == [] then []
    else
      var icon := icons[|icons| - 1];
      AllMarkers(ls, icons[..|icons| - 1]) + MarkersFor(Selected(ls, icon), icon)
  }

  lemma AllMarkersExtend(ls: seq<Laureate>, icons: seq<Icon>, icon: Icon)
    ensures AllMarkers(ls, icons + [icon]) == AllMarkers(ls, icons) + MarkersFor(Selected(ls, icon), icon)
  {
    assert (icons + [icon])[..|icons|] == icons;
  }

  /** Appending the markers of one more selection to those drawn so far. */
  lemma AppendSelection(ls: seq<Laureate>, drawn: seq<Icon>, icon: Icon, before: seq<Marker>)
    ensures before + AllMarkers(ls, drawn) + MarkersFor(Selected(ls, icon), icon)
      == before + AllMarkers(ls, drawn + [icon])
  {
    AllMarkersExtend(ls, drawn, icon);
  }

  /** A marker is created for a laureate of the data exactly when it has
      coordinates; it sits at them and carries the icon of the call. */
  lemma {:induction false} MarkersForExactly(data: seq<Laureate>, icon: Icon)
    ensures forall m :: m in MarkersFor(data, icon) ==>
      && m.laureate in data && HasCoordinates(m.laureate) && m.icon == icon
      && m.latitude == m.laureate.latitude.value && m.longitude == m.laureate.longitude.value
    ensures forall i :: 0 <= i < |data| && HasCoordinates(data[i]) ==>
      exists m :: m in MarkersFor(data, icon) && m.laureate == data[i]
    decreases |data|
  {
    if data != [] {
      var n, init := |data| - 1, data[..|data| - 1];
      MarkersForExactly(init, icon);
      forall i | 0 <= i < n && HasCoordinates(data[i])
        ensures exists m :: m in MarkersFor(data, icon) && m.laureate == data[i]
      {
        assert init[i] == data[i];
        var m :| m in MarkersFor(init, icon) && m.laureate == init[i];
        assert m in MarkersFor(data, icon);
      }
      if HasCoordinates(data[n]) {
        var m := Marker(data[n], data[n].latitude.value, data[n].longitude.value, icon);
        assert m in MarkersFor(data, icon);
      }
    }
  }

  /** A series of `setMarker` calls puts a marker on exactly the laureates
      with coordinates whose gender and first-prize category are those of
      one of the icons, and each marker carries the laureate's own icon. */
  lemma {:induction false} AllMarkersExactly(ls: seq<Laureate>, icons: seq<Icon>)
    ensures forall m :: m in AllMarkers(ls, icons) ==>
      && m.laureate in ls && HasCoordinates(m.laureate) && m.icon in icons
      && m.icon == Icon(m.laureate.gender, m.laureate.prizes[0].category)
    ensures forall i :: (0 <= i < |ls| && HasCoordinates(ls[i])
                         && Icon(ls[i].gender, ls[i].prizes[0].category) in icons) ==>
      exists m :: m in AllMarkers(ls, icons) && m.laureate == ls[i]
    decreases |icons|
  {
    if icons != [] {
      var n, init, icon := |icons| - 1, icons[..|icons| - 1], icons[|icons| - 1];
      var sel := Selected(ls, icon);
      AllMarkersExactly(ls, init);
      MarkersForExactly(sel, icon);
      forall m | m in MarkersFor(sel, icon)
        ensures m.icon == Icon(m.laureate.gender, m.laureate.prizes[0].category)
      {
        var k :| 0 <= k < |sel| && sel[k] == m.laureate;
        assert WonAs(icon.gender, icon.category)(sel[k]);
      }
      forall i | 0 <= i < |ls| && HasCoordinates(ls[i])
          && Icon(ls[i].gender, ls[i].prizes[0].category) in icons
        ensures exists m :: m in AllMarkers(ls, icons) && m.laureate == ls[i]
      {
        if Icon(ls[i].gender, ls[i].prizes[0].category) in init {
          var m :| m in AllMarkers(ls, init) && m.laureate == ls[i];
          assert m in AllMarkers(ls, icons);
        } else {
          assert icon == Icon(ls[i].gender, ls[i].prizes[0].category);
          SelectionIsOwnIcon(ls, icon, i);
          var k :| 0 <= k < |sel| && sel[k] == ls[i];
          var m :| m in MarkersFor(sel, icon) && m.laureate == sel[k];
          assert m in AllMarkers(ls, icons);
        }
      }
    }
  }

  /** The global `markers` array: markers are only ever appended to it (the
      slider removes their layers from the map but never empties it). */
  class MarkerLayer {
    var markers: seq<Marker>

    constructor ()
      ensures markers == []
    {
      markers := [];
    }

    method SetMarker(data: seq<Laureate>, markerIcon: Icon)
      modifies this
      ensures markers == old(markers) + MarkersFor(data, markerIcon)
    {
      for i := 0 to |data|
        invariant markers == old(markers) + MarkersFor(data[..i], markerIcon)
      {
        assert data[..i + 1][..i] == data[..i];
        var val := data[i];
        if Truthy(val.latitude) && Truthy(val.longitude) {
          markers := markers + [Marker(val, val.latitude.value, val.longitude.value, markerIcon)];
        }
      }
      assert data[..|data|] == data;
    }

    /** Filters the laureates by the year window and draws the twelve
        selections; returns the filtered laureates, which the click handler
        of every new marker works on. */
    method ShowLaureateMarkers(laureates: seq<Laureate>, minyear: int, maxyear: int)
      returns (newLaureates: seq<Laureate>)
      modifies this
      ensures newLaureates == Filter(laureates, Between(FirstPrizeYear, minyear, maxyear))
      ensures markers == old(markers) + AllMarkers(newLaureates, Icons)
    {
      newLaureates := FilterLaureatesByYearRange(laureates, minyear, maxyear);
      ghost var before, drawn: seq<Icon> := markers, [];
      DrawCategory(newLaureates, "chemistry", before, drawn);
      drawn := drawn + CategoryIcons("chemistry");
      DrawCategory(newLaureates, "economics", before, drawn);
      drawn := drawn + CategoryIcons("economics");
      DrawCategory(newLaureates, "literature", before, drawn);
      drawn := drawn + CategoryIcons("literature");
      DrawCategory(newLaureates, "medicine", before, drawn);
      drawn := drawn + CategoryIcons("medicine");
      DrawCategory(newLaureates, "peace", before, drawn);
      drawn := drawn + CategoryIcons("peace");
      DrawCategory(newLaureates, "physics", before, drawn);
      drawn := drawn + CategoryIcons("physics");
      IconsByCategory();
    }

    /** The two lines of `showLaureateMarkers` for one category, women
        first; `before` and `drawn` record the markers held before the
        first line and the icons drawn since. */
    method DrawCategory(newLaureates: seq<Laureate>, category: string,
                        ghost before: seq<Marker>, ghost drawn: seq<Icon>)
      requires markers == before + AllMarkers(newLaureates, drawn)
      modifies this
      ensures markers == before + AllMarkers(newLaureates, drawn + CategoryIcons(category))
    {
      DrawSelection(newLaureates, "female", category, before, drawn);
      DrawSelection(newLaureates, "male", category, before, drawn + [Icon("female", category)]);
      assert drawn + [Icon("female", category)] + [Icon("male", category)] == drawn + CategoryIcons(category);
    }

    /** `setMarker(filterLaureatesByGenderCategory(newLaureates, gender,
        category), icon)`, one line of `showLaureateMarkers`. */
    method DrawSelection(newLaureates: seq<Laureate>, gender: string, category: string,
                         ghost before: seq<Marker>, ghost drawn: seq<Icon>)
      requires markers == before + AllMarkers(newLaureates, drawn)
      modifies this
      ensures markers == before + AllMarkers(newLaureates, drawn + [Icon(gender, category)])
    {
      var selection := FilterLaureatesByGenderCategory(newLaureates, gender, category);
      ghost var done := AllMarkers(newLaureates, drawn);
      SetMarker(selection, Icon(gender, category));
      assert done == AllMarkers(newLaureates, drawn);
      AppendSelection(newLaureates, drawn, Icon(gender, category), before);
    }
  }

  /** `val.prizes[0].year === year && val.prizes[0].category === category`:
      the laureate's first prize is the clicked one. */
  predicate SharesPrize(l: Laureate, year: int, category: string) {
    l.prizes[0].year == year && l.prizes[0].category == category
  }

  /** A laureate who shares the clicked prize and has coordinates. */
  predicate Eligible(l: Laureate, year: int, category: string)
    reads l
  {
    SharesPrize(l, year, category) && HasCoordinates(l)
  }

  /** The corners of the polygon drawn for a prize: the coordinates of the
      laureates sharing it, in order. */
  function SamePrizeCoords(ls: seq<Laureate>, year: int, category: string): seq<(real, real)>
    reads ls
    decreases |ls|
  {
    if ls == [] then []
    else
      var val := ls[|ls| - 1];
      SamePrizeCoords(ls[..|ls| - 1], year, category) +
        (if Eligible(val, year, category) then [(val.latitude.value, val.longitude.value)] else [])
  }

  /** The work of `connectLaureatesShareOnePrize` once the year and category
      of the clicked prize are known: the corners, and whether a polygon is
      drawn (any number of corners but one). */
  method ConnectLaureatesShareOnePrize(newLaureates: seq<Laureate>, year: int, category: string)
    returns (coordsArray: seq<(real, real)>, drawPolygon: bool)
    ensures coordsArray == SamePrizeCoords(newLaureates, year, category)
    ensures drawPolygon <==> |coordsArray| != 1
  {
    coordsArray := [];
    for i := 0 to |newLaureates|
      invariant coordsArray == SamePrizeCoords(newLaureates[..i], year, category)
    {
      assert newLaureates[..i + 1][..i] == newLaureates[..i];
      var val := newLaureates[i];
      if val.prizes[0].year == year && val.prizes[0].category == category {
        if Truthy(val.latitude) && Truthy(val.longitude) {
          coordsArray := coordsArray + [(val.latitude.value, val.longitude.value)];
        }
      }
    }
    assert newLaureates[..|newLaureates|] == newLaureates;
    drawPolygon := |coordsArray| != 1;
  }

  /** Each corner is the position of an eligible laureate, and every
      eligible laureate gives a corner. */
  lemma {:induction false} SamePrizeCoordsExactly(ls: seq<Laureate>, year: int, category: string)
    ensures forall c :: c in SamePrizeCoords(ls, year, category) ==>
      exists i :: 0 <= i < |ls| && Eligible(ls[i], year, category)
        && c == (ls[i].latitude.value, ls[i].longitude.value)
    ensures forall i :: 0 <= i < |ls| && Eligible(ls[i], year, category) ==>
      (ls[i].latitude.value, ls[i].longitude.value) in SamePrizeCoords(ls, year, category)
    decreases |ls|
  {
    if ls != [] {
      var n, init := |ls| - 1, ls[..|ls| - 1];
      SamePrizeCoordsExactly(init, year, category);
      forall c | c in SamePrizeCoords(ls, year, category)
        ensures exists i :: (0 <= i < |ls| && Eligible(ls[i], year, category)
                              && c == (ls[i].latitude.value, ls[i].longitude.value))
      {
        if c in SamePrizeCoords(init, year, category) {
          var i :| 0 <= i < |init| && Eligible(init[i], year, category)
            && c == (init[i].latitude.value, init[i].longitude.value);
          assert ls[i] == init[i];
        } else {
          assert Eligible(ls[n], year, category);
        }
      }
      forall i | 0 <= i < |ls| && Eligible(ls[i], year, category)
        ensures (ls[i].latitude.value, ls[i].longitude.value) in SamePrizeCoords(ls, year, category)
      {
        if i < n {
          assert ls[i] == init[i];
        }
      }
    }
  }

  /** No corner at all exactly when no laureate is eligible. */
  lemma {:induction false} NoCoords(ls: seq<Laureate>, year: int, category: string)
    ensures |SamePrizeCoords(ls, year, category)| == 0 <==>
      forall j :: 0 <= j < |ls| ==> !Eligible(ls[j], year, category)
    decreases |ls|
  {
    if ls != [] {
      var n, init := |ls| - 1, ls[..|ls| - 1];
      NoCoords(init, year, category);
      assert forall j :: 0 <= j < n ==> ls[j] == init[j];
    }
  }

  /** A click comes from the marker of an eligible laureate (its own prize,
      and it has coordinates), so the polygon has at least that corner; it
      is drawn exactly when another laureate at another position of the
      list shares the prize and has coordinates. */
  lemma {:induction false} ClickedPolygon(ls: seq<Laureate>, year: int, category: string, i: nat)
    requires i < |ls| && Eligible(ls[i], year, category)
    ensures |SamePrizeCoords(ls, year, category)| >= 1
    ensures |SamePrizeCoords(ls, year, category)| != 1 <==>
      exists j :: 0 <= j < |ls| && j != i && Eligible(ls[j], year, category)
    decreases |ls|
  {
    var n, init := |ls| - 1, ls[..|ls| - 1];
    assert forall j :: 0 <= j < n ==> ls[j] == init[j];
    if i == n {
      NoCoords(init, year, category);
    } else {
      ClickedPolygon(init, year, category, i);
      if Eligible(ls[n], year, category) {
        assert n != i;
      }
    }
  }
}
