/** The two stored records of models/models.go. Only the coordinates of a
    location take part in the computations modelled here. */
module Models {
  import Rfc3339

  /** A row of the `location` table. Go's `uint` identifiers are naturals,
      `float64` coordinates exact reals and `time.Time` a date-time. */
  datatype Location = Location(
    id: nat,
    userId: nat,
    latitude: real,
    longitude: real,
    dateTime: Rfc3339.DateTime)

  /** A row of the `user` table with its preloaded locations. */
  datatype User = User(id: nat, userName: string, locations: seq<Location>)
}
