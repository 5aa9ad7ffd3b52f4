/** The join in `combine` (js/map.js:49-58): each laureate receives the
    coordinates of its birth country and a single display name. */
module Enrichment {
  import opened Js
  import opened Collections
  import opened Records

  /** `country.country === laureate.bornCountryCode`: the table's column is
      always a string, so a missing or null code matches no row. */
  function RowFor(code: JsValue<string>): CountryRow -> bool {
    (row: CountryRow) => Defined(row.country) == code
  }

  /** `result[0]` of the coordinate rows filtered by country code. */
  function Lookup(rows: seq<CountryRow>, code: JsValue<string>): Option<CountryRow> {
    var hits := Filter(rows, RowFor(code));
    if |hits| > 0 then Some(hits[0]) else None
  }

  /** Row `i` is the first row of the table whose code is `code`. */
  predicate FirstMatchAt(rows: seq<CountryRow>, code: JsValue<string>, i: int) {
    && 0 <= i < |rows|
    && Defined(rows[i].country) == code
    && forall j :: 0 <= j < i ==> Defined(rows[j].country) != code
  }

  /** The lookup finds nothing exactly when no row has the code, and
      otherwise returns the first row that has it. */
  lemma LookupIsFirstMatch(rows: seq<CountryRow>, code: JsValue<string>)
    ensures Lookup(rows, code).None? <==>
      forall i :: 0 <= i < |rows| ==> Defined(rows[i].country) != code
    ensures Lookup(rows, code).Some? ==>
      exists i :: FirstMatchAt(rows, code, i) && rows[i] == Lookup(rows, code).value
  {
    var p := RowFor(code);
    var hits, idx := Filter(rows, p), Kept(rows, p);
    FilterIsSubsequence(rows, p);
    if |hits| > 0 {
      var i := idx[0];
      forall j | 0 <= j < i
        ensures Defined(rows[j].country) != code
      {
        if p(rows[j]) {
          KeptFirst(rows, p, j);
        }
      }
      assert FirstMatchAt(rows, code, i);
    } else {
      forall i | 0 <= i < |rows|
        ensures Defined(rows[i].country) != code
      {
        assert !(rows[i] in hits);
      }
    }
  }

  /** The latitude `combine` attaches: the row's value, or `null`. */
  function LatitudeFor(rows: seq<CountryRow>, code: JsValue<string>): JsValue<real> {
    match Lookup(rows, code)
    case Some(row) => Defined(row.latitude)
    case None => Null
  }

  /** The longitude `combine` attaches: the row's value, or `null`. */
  function LongitudeFor(rows: seq<CountryRow>, code: JsValue<string>): JsValue<real> {
    match Lookup(rows, code)
    case Some(row) => Defined(row.longitude)
    case None => Null
  }

  /** `firstname + " " + surname`, where a missing part reads "undefined". */
  function DisplayName(firstname: JsValue<string>, surname: JsValue<string>): (n: string)
    ensures |n| == |ToStr(firstname)| + 1 + |ToStr(surname)|
    ensures n[..|ToStr(firstname)|] == ToStr(firstname)
    ensures n[|ToStr(firstname)|] == ' '
    ensures n[|ToStr(firstname)| + 1..] == ToStr(surname)
  {
    ToStr(firstname) + " " + ToStr(surname)
  }

  /** The state `combine` leaves a laureate in, given the name parts it
      had before. */
  ghost predicate Enriched(l: Laureate, rows: seq<CountryRow>,
                           firstname: JsValue<string>, surname: JsValue<string>)
    reads l
  {
    && l.latitude == LatitudeFor(rows, l.bornCountryCode)
    && l.longitude == LongitudeFor(rows, l.bornCountryCode)
    && l.name == Defined(DisplayName(firstname, surname))
    && l.firstname == Undefined && l.surname == Undefined
  }

  /** The `laureatesArray.forEach` loop: every laureate object is updated in
      place; the array itself, its length and its order are untouched. */
  method Enrich(laureates: seq<Laureate>, rows: seq<CountryRow>)
    requires forall i, j :: 0 <= i < j < |laureates| ==> laureates[i] != laureates[j]
    modifies set l | l in laureates
    ensures forall k :: 0 <= k < |laureates| ==>
      Enriched(laureates[k], rows, old(laureates[k].firstname), old(laureates[k].surname))
  {
    for i := 0 to |laureates|
      invariant forall k :: 0 <= k < i ==>
        Enriched(laureates[k], rows, old(laureates[k].firstname), old(laureates[k].surname))
      invariant forall k :: i <= k < |laureates| ==>
        laureates[k].firstname == old(laureates[k].firstname) &&
        laureates[k].surname == old(laureates[k].surname)
    {
      EnrichOne(laureates[i], rows);
    }
  }

  /** The body of the loop, for one laureate. */
  method EnrichOne(laureate: Laureate, rows: seq<CountryRow>)
    modifies laureate
    ensures Enriched(laureate, rows, old(laureate.firstname), old(laureate.surname))
  {
    var result := Filter(rows, RowFor(laureate.bornCountryCode));
    laureate.latitude := if |result| > 0 then Defined(result[0].latitude) else Null;
    laureate.longitude := if |result| > 0 then Defined(result[0].longitude) else Null;
    laureate.name := Defined(ToStr(laureate.firstname) + " " + ToStr(laureate.surname));
    laureate.firstname := Undefined;
    laureate.surname := Undefined;
  }
}
