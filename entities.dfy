/** The `Site` and `Project` records of src/types/index.ts, restricted to
    the fields the modelled code reads. */
module Entities {
  import opened Seqs

  /** `Site`: the row id, the operator's site code and its location. */
  datatype Site = Site(id: string, siteId: string, location: string, gpsCoordinates: Option<string>)

  /** `Project`: `siteId` holds the row id of a site; `status` is a status code. */
  datatype Project = Project(
    id: string,
    name: string,
    siteId: string,
    status: string,
    startDate: string,
    endDate: Option<string>,
    description: Option<string>,
    address: Option<string>,
    gpsCoordinates: Option<string>,
    microwaveBand: Option<string>)
}
