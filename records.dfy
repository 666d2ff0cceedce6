/** Rows of the two tables, the request bodies the handlers read, the caller's
    session, the HTTP statuses the handlers answer with and the broadcast events. */
module Records {

  datatype Option<T> = None | Some(value: T)

  /** A row of the `route` table. `time` and `majorStops` are nullable columns. */
  datatype Route = Route(
    id: nat,
    date: string,
    slotNo: string,
    endPoint: string,
    majorStops: Option<string>,
    time: Option<string>,
    transportType: string)

  /** A row of the `link` table: one rider registered on one route for one date. */
  datatype Link = Link(
    id: nat,
    routeId: nat,
    date: string,
    name: string,
    gender: string,
    dropPoint: string,
    phone: string,
    courseYear: string,
    branch: string)

  /** The tuple on which `create_route` refuses duplicates. */
  datatype RouteKey = RouteKey(date: string, endPoint: string, time: Option<string>, transportType: string)

  /** The triple on which `join_route` refuses duplicates. */
  datatype JoinKey = JoinKey(routeId: nat, date: string, phone: string)

  function KeyOfRoute(r: Route): RouteKey {
    RouteKey(r.date, r.endPoint, r.time, r.transportType)
  }

  function KeyOfLink(l: Link): JoinKey {
    JoinKey(l.routeId, l.date, l.phone)
  }

  /** What the handlers take from the session cookie: whether a user id is
      stored, and the stored user name ("" when there is none). */
  datatype Session = Session(loggedIn: bool, userName: string)

  /** A JSON body field: `None` when the key is absent or null. */
  type Field = Option<string>

  /** The body of `POST /routes`. */
  datatype RouteRequest = RouteRequest(
    date: Field,
    slotNo: Field,
    endPoint: Field,
    majorStops: Field,
    time: Field,
    transportType: Field)

  /** The body of `POST /routes/<id>/join`. */
  datatype JoinRequest = JoinRequest(
    name: Field,
    gender: Field,
    drop: Field,
    phone: Field,
    courseYear: Field,
    branch: Field,
    date: Field)

  /** Python truthiness of an optional string: neither missing nor empty. */
  predicate Present(f: Field) {
    f.Some? && f.value != ""
  }

  /** `f or default` on an optional string. */
  function OrElse(f: Field, default: string): (s: string)
    ensures Present(f) ==> s == f.value
    ensures !Present(f) ==> s == default
  {
    if Present(f) then f.value else default
  }

  datatype Status = Ok | Created | NoContent | BadRequest | Unauthorized | Forbidden | NotFound | Conflict
  {
    /** The HTTP status code the handler sends. */
    function Code(): int {
      match this
      case Ok => 200
      case Created => 201
      case NoContent => 204
      case BadRequest => 400
      case Unauthorized => 401
      case Forbidden => 403
      case NotFound => 404
      case Conflict => 409
    }
  }

  /** The socket events broadcast after a committed change. */
  datatype Event =
    | RouteCreated(route: Route)
    | LinkCreated(link: Link)
    | LinkDeleted(linkId: nat, routeId: nat, date: string)
}
