/**
 * The `establishment` cell: missing text cells become "", zero coordinates
 * become missing, the full address is parsed into components, and the
 * establishment tuples are deduplicated.
 */
module Establishments {
  import opened Wrappers
  import opened Collections
  import opened Records
  import opened Address

  /** A row of the `establishment` table without its id, in the insert's column order. */
  datatype Establishment = Establishment(
    dbaName: string, akaName: string, parts: AddressParts,
    latitude: Option<real>, longitude: Option<real>, facilityType: string)

  /** `i if abs(i) > 0 else None`: zero (and NaN, which fails the test) become missing. */
  function CleanCoordinate(x: Option<real>): (r: Option<real>)
    ensures r.None? <==> x.None? || x.value == 0.0
    ensures r.Some? ==> r == x
  {
    match x
    case None => None
    case Some(v) => if (if v < 0.0 then -v else v) > 0.0 then x else None
  }

  /** The `latitudes` / `longitudes` comprehension: same length and order, zeros dropped to missing. */
  function CleanCoordinates(xs: seq<Option<real>>): (r: seq<Option<real>>)
    ensures |r| == |xs|
    ensures forall i :: 0 <= i < |xs| ==> (r[i].None? <==> xs[i].None? || xs[i].value == 0.0)
    ensures forall i :: 0 <= i < |xs| && r[i].Some? ==> r[i] == xs[i]
  {
    seq(|xs|, i requires 0 <= i < |xs| => CleanCoordinate(xs[i]))
  }

  /** `address + city + " " + state + " " + zip`: no separator between address and city. */
  function FullAddress(address: string, city: string, state: string, zip: string): (r: string)
    ensures |r| == |address| + |city| + |state| + |zip| + 2
    ensures r[..|address| + |city|] == address + city
    ensures r[|address| + |city|] == ' ' && r[|address| + |city| + |state| + 1] == ' '
    ensures r[|address| + |city| + 1..|address| + |city| + |state| + 1] == state
    ensures r[|r| - |zip|..] == zip
  {
    address + city + " " + state + " " + zip
  }

  /**
   * The text handed to the parser for one record. The zip column goes through
   * `str` before `fillna`, so a missing zip is the text "nan", not "".
   */
  function FullAddressOf(rec: InspectionRecord): string {
    FullAddress(rec.address.GetOr(""), rec.city.GetOr(""), rec.state.GetOr(""), PyStr(rec.zip))
  }

  /** A record with no address, city, state or zip hands "  nan" to the parser. */
  lemma MissingZipIsNaN(rec: InspectionRecord)
    requires rec.address.None? && rec.city.None? && rec.state.None? && rec.zip.None?
    ensures FullAddressOf(rec) == "  nan"
  {
  }

  /** One record's establishment tuple; `parse` is the address parser. */
  function EstablishmentOf(rec: InspectionRecord, parse: string -> ParseOutcome): (e: Establishment)
    ensures e.latitude != Some(0.0) && e.longitude != Some(0.0)
    ensures e.latitude == CleanCoordinate(rec.latitude) && e.longitude == CleanCoordinate(rec.longitude)
    ensures e.dbaName == rec.dbaName.GetOr("") && e.akaName == rec.akaName.GetOr("")
    ensures e.facilityType == rec.facilityType.GetOr("")
    ensures e.parts == ExtractAddress(parse(FullAddressOf(rec)))
  {
    Establishment(rec.dbaName.GetOr(""), rec.akaName.GetOr(""), ExtractAddress(parse(FullAddressOf(rec))),
                  CleanCoordinate(rec.latitude), CleanCoordinate(rec.longitude), rec.facilityType.GetOr(""))
  }

  /** `list(set(...))` of the establishment tuples: each record's tuple, once. */
  function EstablishmentRecords(recs: seq<InspectionRecord>, parse: string -> ParseOutcome): (es: seq<Establishment>)
    ensures NoDuplicates(es)
    ensures forall k :: 0 <= k < |recs| ==> EstablishmentOf(recs[k], parse) in es
    ensures forall j :: 0 <= j < |es| ==> exists k :: 0 <= k < |recs| && es[j] == EstablishmentOf(recs[k], parse)
    ensures forall j :: 0 <= j < |es| ==> es[j].latitude != Some(0.0) && es[j].longitude != Some(0.0)
  {
    DistinctMap(recs, rec => EstablishmentOf(rec, parse))
  }
}
