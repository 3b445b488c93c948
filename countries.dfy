/** Country records of the static dataset (src/utils/countries is not part of this model).

    A country is an immutable object: the game compares countries by reference, as
    `guess.country === selected` does, so a class with constant fields keeps that identity. */
module Countries {

  class Country {
    const code: string
    const name: string
    const latitude: real
    const longitude: real

    constructor (code: string, name: string, latitude: real, longitude: real)
      ensures this.code == code && this.name == name
      ensures this.latitude == latitude && this.longitude == longitude
    {
      this.code := code;
      this.name := name;
      this.latitude := latitude;
      this.longitude := longitude;
    }
  }

  /** The dataset assumption: no two entries of the country list share a code. */
  ghost predicate UniqueCodes(countries: seq<Country>) {
    forall i, j :: 0 <= i < j < |countries| ==> countries[i].code != countries[j].code
  }

  /** Within a list with unique codes, reference identity and code equality agree. */
  lemma SameCodeSameCountry(countries: seq<Country>, a: Country, b: Country)
    requires UniqueCodes(countries)
    requires a in countries && b in countries
    ensures a == b <==> a.code == b.code
  {
    var i :| 0 <= i < |countries| && countries[i] == a;
    var j :| 0 <= j < |countries| && countries[j] == b;
  }
}
