/**
 * One raw row of the Chicago food-inspections dataset, as `pd.read_json`
 * returns it. Cells that may be missing are `Option`s: `None` is pandas' NaN.
 * The `license_` and `location` columns are read but never used downstream,
 * so they are not part of the record.
 */
module Records {
  import opened Wrappers

  datatype InspectionRecord = InspectionRecord(
    inspectionId: int,
    dbaName: Option<string>,
    akaName: Option<string>,
    facilityType: Option<string>,
    risk: Option<string>,
    address: Option<string>,
    city: Option<string>,
    state: Option<string>,
    zip: Option<string>,
    inspectionDate: string,
    inspectionType: string,
    results: string,
    violations: Option<string>,
    latitude: Option<real>,
    longitude: Option<real>)

  /** Python's `str(x)` on a text cell: a NaN cell prints as "nan". */
  function PyStr(cell: Option<string>): (r: string)
    ensures cell.None? ==> r == "nan"
    ensures cell.Some? ==> r == cell.value
    ensures r == "nan" <==> cell.None? || cell == Some("nan")
  {
    cell.GetOr("nan")
  }
}
