/** The records the two event screens work on (src/types/Events.ts). */
module Events {

  datatype Option<+T> = None | Some(value: T)

  /** A map position; the screens never compute with it, so it is carried as is. */
  datatype Position = Position(latitude: real, longitude: real)

  /**
   * An event of the bundled catalog. `dateTime` is an ISO-8601 string in the
   * app; here it is the instant it denotes, as an integer timestamp.
   */
  datatype Event = Event(
    id: string,
    name: string,
    description: string,
    dateTime: int,
    imageUrl: string,
    organizerId: string,
    position: Position,
    volunteersNeeded: int,
    volunteersIds: seq<string>)

  /** A user's name as the authentication context gives it. */
  datatype UserName = UserName(first: string, last: string)

  /** The logged-in user supplied by the authentication context. */
  datatype User = User(id: string, name: UserName)

  /** No user identifier occurs twice in a volunteer list. */
  predicate NoDuplicates(ids: seq<string>)
  {
    forall i, j :: 0 <= i < j < |ids| ==> ids[i] != ids[j]
  }
}
