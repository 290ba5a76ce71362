/** What of the inventory the public may see. */
module Inventory {

  datatype PropertyStatus = Available | Sold | Rented | Unavailable | PropertyArchived
  datatype ProjectStatus = Draft | Published | ProjectArchived | Booked

  /** A property must be live and approved. */
  predicate VisibleProperty(status: PropertyStatus, approval: string) {
    status in {Available, Sold, Rented} && approval == "Approved"
  }

  predicate VisibleProject(status: ProjectStatus) {
    status in {Published, Booked}
  }
}
