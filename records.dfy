/** The records js/map.js works on: the parsed contents of laureates.json,
    latLon_byCountryCode.csv, prizes.json and countries2.geo.json, and the
    per-year counts it derives for the bar chart. */
module Records {
  import opened Js

  /** One entry of a laureate's `prizes` array. */
  datatype Award = Award(year: int, category: string, share: nat, motivation: string)

  /** A laureate's awards; every laureate holds at least one, and only the
      first is ever consulted. */
  type Awards = s: seq<Award> | |s| > 0 witness [Award(1901, "physics", 1, "")]

  /** One row of the coordinate table, its latitude and longitude already
      parsed into numbers. */
  datatype CountryRow = CountryRow(country: string, latitude: real, longitude: real)

  /** One record of prizes.json; `laureates` is the length of its
      `laureates` array. */
  datatype PrizeRecord = PrizeRecord(year: int, category: string, laureates: nat)

  /** One record of the bar-chart data: a year and the number of laureates
      of each of the six categories in that year. */
  datatype YearCounts = YearCounts(
    year: int,
    chemistry: nat, economics: nat, literature: nat,
    medicine: nat, peace: nat, physics: nat)

  /** A laureate object of laureates.json. The fields the pipeline writes
      are variables; the ones it only reads are constants. */
  class Laureate {
    const gender: string
    const bornCountryCode: JsValue<string>
    const prizes: Awards
    var firstname: JsValue<string>
    var surname: JsValue<string>
    var name: JsValue<string>
    var latitude: JsValue<real>
    var longitude: JsValue<real>

    /** A laureate as parsed, before enrichment: no `name`, no coordinates. */
    constructor (gender: string, bornCountryCode: JsValue<string>, prizes: Awards,
                 firstname: JsValue<string>, surname: JsValue<string>)
      ensures this.gender == gender && this.bornCountryCode == bornCountryCode
      ensures this.prizes == prizes
      ensures this.firstname == firstname && this.surname == surname
      ensures name == Undefined && latitude == Undefined && longitude == Undefined
    {
      this.gender := gender;
      this.bornCountryCode := bornCountryCode;
      this.prizes := prizes;
      this.firstname := firstname;
      this.surname := surname;
      name := Undefined;
      latitude := Undefined;
      longitude := Undefined;
    }
  }

  /** A feature of the world geography; `count` is `properties.count`. */
  class Feature {
    const id2: JsValue<string>
    var count: JsValue<int>

    constructor (id2: JsValue<string>)
      ensures this.id2 == id2 && count == Undefined
    {
      this.id2 := id2;
      count := Undefined;
    }
  }
}
