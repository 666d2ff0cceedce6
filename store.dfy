/** The handlers that change the tables (`create_route`, `join_route`,
    `delete_link`) as methods of one store object. Each answers with the
    HTTP status the handler sends and commits its change only on success;
    the socket broadcast that follows a commit is recorded in a ghost log. */
module RouteStore {
  import opened Records
  import opened Text
  import opened Queries

  /** `create_route` needs a non-empty date, slot label and end point. */
  predicate RouteFieldsPresent(req: RouteRequest) {
    Present(req.date) && Present(req.slotNo) && Present(req.endPoint)
  }

  /** The tuple the duplicate check of `create_route` looks for; a missing
      transport type counts as "" and a missing time as NULL. */
  function RequestedKey(req: RouteRequest): RouteKey
    requires RouteFieldsPresent(req)
  {
    RouteKey(req.date.value, req.endPoint.value, req.time, OrElse(req.transportType, ""))
  }

  /** `r` holds what the request asked for (its id aside). */
  predicate RouteFromRequest(r: Route, req: RouteRequest)
    requires RouteFieldsPresent(req)
  {
    && r.date == req.date.value
    && r.slotNo == req.slotNo.value
    && r.endPoint == req.endPoint.value
    && r.majorStops == req.majorStops
    && r.time == req.time
    && r.transportType == OrElse(req.transportType, "")
  }

  /** The date a join is for: the requested one, today's when none is given. */
  function JoinDate(req: JoinRequest, today: string): string {
    OrElse(req.date, today)
  }

  function JoinPhone(req: JoinRequest): string {
    OrElse(req.phone, "")
  }

  /** `l` holds what the join request asked for, with the handler's defaults
      ("" for text fields, "M" for gender). */
  predicate LinkFromRequest(l: Link, routeId: nat, req: JoinRequest, today: string) {
    && l.routeId == routeId
    && l.date == JoinDate(req, today)
    && l.name == OrElse(req.name, "")
    && l.gender == OrElse(req.gender, "M")
    && l.dropPoint == OrElse(req.drop, "")
    && l.phone == JoinPhone(req)
    && l.courseYear == OrElse(req.courseYear, "")
    && l.branch == OrElse(req.branch, "")
  }

  class Store {
    var routes: seq<Route>
    var links: seq<Link>
    /** The events broadcast so far, in commit order. */
    ghost var events: seq<Event>

    ghost predicate Valid()
      reads this
    {
      WellFormed(routes, links)
    }

    constructor ()
      ensures Valid()
      ensures routes == [] && links == [] && events == []
    {
      routes, links, events := [], [], [];
    }

    /** `POST /routes`. */
    method CreateRoute(session: Session, req: RouteRequest) returns (status: Status)
      requires Valid()
      modifies this
      ensures Valid()
      ensures links == old(links)
      ensures !session.loggedIn ==> status == Unauthorized
      ensures session.loggedIn && !RouteFieldsPresent(req) ==> status == BadRequest
      ensures session.loggedIn && RouteFieldsPresent(req) ==>
        status == (if HasRouteWithKey(old(routes), RequestedKey(req)) then Conflict else Created)
      ensures status != Created ==> routes == old(routes) && events == old(events)
      ensures status == Created ==>
        && RouteFieldsPresent(req)
        && |routes| == |old(routes)| + 1
        && routes == old(routes) + [routes[|routes| - 1]]
        && RouteFromRequest(routes[|routes| - 1], req)
        && (forall i :: 0 <= i < |old(routes)| ==> old(routes)[i].id != routes[|routes| - 1].id)
        && events == old(events) + [RouteCreated(routes[|routes| - 1])]
    {
      if !session.loggedIn {
        return Unauthorized;
      }
      if !RouteFieldsPresent(req) {
        return BadRequest;
      }
      if HasRouteWithKey(routes, RequestedKey(req)) {
        return Conflict;
      }
      var r := Route(FreshId(RouteIds(routes)), req.date.value, req.slotNo.value, req.endPoint.value,
                     req.majorStops, req.time, OrElse(req.transportType, ""));
      assert KeyOfRoute(r) == RequestedKey(req);
      CreateKeepsWellFormed(routes, links, r);
      routes := routes + [r];
      events := events + [RouteCreated(r)];
      status := Created;
    }

    /** `POST /routes/<route_id>/join`. */
    method JoinRoute(session: Session, routeId: nat, req: JoinRequest, today: string) returns (status: Status)
      requires Valid()
      modifies this
      ensures Valid()
      ensures routes == old(routes)
      ensures !session.loggedIn ==> status == Unauthorized
      ensures session.loggedIn && !HasRouteOn(routes, routeId, JoinDate(req, today)) ==> status == NotFound
      ensures session.loggedIn && HasRouteOn(routes, routeId, JoinDate(req, today)) ==>
        status == (if HasLinkWithKey(old(links), JoinKey(routeId, JoinDate(req, today), JoinPhone(req)))
                   then Conflict else Created)
      ensures status != Created ==> links == old(links) && events == old(events)
      ensures status == Created ==>
        && |links| == |old(links)| + 1
        && links == old(links) + [links[|links| - 1]]
        && LinkFromRequest(links[|links| - 1], routeId, req, today)
        && (forall i :: 0 <= i < |old(links)| ==> old(links)[i].id != links[|links| - 1].id)
        && events == old(events) + [LinkCreated(links[|links| - 1])]
      ensures status == Created ==>
        forall id, d :: Occupancy(links, id, d) ==
          Occupancy(old(links), id, d) + (if id == routeId && d == JoinDate(req, today) then 1 else 0)
    {
      if !session.loggedIn {
        return Unauthorized;
      }
      var date := JoinDate(req, today);
      var found := FindRoute(routes, routeId);
      if found.None? || found.value.date != date {
        assert !HasRouteOn(routes, routeId, date) by {
          if found.Some? {
            var j :| 0 <= j < |routes| && routes[j] == found.value;
            forall k | 0 <= k < |routes| && routes[k].id == routeId ensures routes[k].date != date {
              assert k == j;
            }
          }
        }
        return NotFound;
      }
      var phone := JoinPhone(req);
      if HasLinkWithKey(links, JoinKey(routeId, date, phone)) {
        return Conflict;
      }
      var l := Link(FreshId(LinkIds(links)), routeId, date, OrElse(req.name, ""), OrElse(req.gender, "M"),
                    OrElse(req.drop, ""), phone, OrElse(req.courseYear, ""), OrElse(req.branch, ""));
      JoinKeepsWellFormed(routes, links, l);
      forall id, d ensures Occupancy(links + [l], id, d) ==
        Occupancy(links, id, d) + (if id == routeId && d == date then 1 else 0)
      {
        OccupancyAfterAppend(links, l, id, d);
      }
      links := links + [l];
      events := events + [LinkCreated(l)];
      status := Created;
    }

    /** `DELETE /links/<link_id>`: only the rider whose stored name matches
        the caller's, ignoring surrounding whitespace and case, removes it. */
    method DeleteLink(session: Session, linkId: nat) returns (status: Status)
      requires Valid()
      modifies this
      ensures Valid()
      ensures routes == old(routes)
      ensures !session.loggedIn ==> status == Unauthorized
      ensures session.loggedIn && IndexOfLink(old(links), linkId).None? ==> status == NotFound
      ensures session.loggedIn && IndexOfLink(old(links), linkId).Some? ==>
        status == (if NamesMatch(session.userName, old(links)[IndexOfLink(old(links), linkId).value].name)
                   then NoContent else Forbidden)
      ensures status != NoContent ==> links == old(links) && events == old(events)
      ensures status == NoContent ==>
        && IndexOfLink(old(links), linkId).Some?
        && var i := IndexOfLink(old(links), linkId).value;
        && links == old(links)[..i] + old(links)[i + 1..]
        && (forall l :: l in links <==> l in old(links) && l.id != linkId)
        && events == old(events) + [LinkDeleted(linkId, old(links)[i].routeId, old(links)[i].date)]
        && forall id, d :: Occupancy(links, id, d) ==
             Occupancy(old(links), id, d) - (if id == old(links)[i].routeId && d == old(links)[i].date then 1 else 0)
    {
      if !session.loggedIn {
        return Unauthorized;
      }
      var found := IndexOfLink(links, linkId);
      if found.None? {
        return NotFound;
      }
      var i := found.value;
      var gone := links[i];
      if !NamesMatch(session.userName, gone.name) {
        return Forbidden;
      }
      DeleteKeepsWellFormed(routes, links, i);
      forall id, d ensures Occupancy(links[..i] + links[i + 1..], id, d) ==
        Occupancy(links, id, d) - (if id == gone.routeId && d == gone.date then 1 else 0)
      {
        OccupancyAfterRemove(links, i, id, d);
      }
      links := links[..i] + links[i + 1..];
      events := events + [LinkDeleted(linkId, gone.routeId, gone.date)];
      status := NoContent;
    }
  }

  /** Routes on a fresh store: the contracts alone decide every answer. */
  method RouteScenario() {
    var store := new Store();
    var asha := Session(true, "Asha");
    assert NextSlot(store.routes) == "SL0001";
    var req := RouteRequest(Some("2025-03-01"), Some("SL0001"), Some("Library"), None, Some("08:00"), Some("bus"));
    var status := store.CreateRoute(Session(false, ""), req);
    assert status == Unauthorized && store.routes == [];
    status := store.CreateRoute(asha, req.(endPoint := Some("")));
    assert status == BadRequest && store.routes == [];
    status := store.CreateRoute(asha, req);
    assert status == Created && |store.routes| == 1;
    DuplicateScenario(store, req);
  }

  /** A second request for the same (date, end point, time, transport type)
      is refused whatever its other fields; another time is a new route. */
  method DuplicateScenario(store: Store, req: RouteRequest)
    requires store.Valid() && |store.routes| == 1 && RouteFieldsPresent(req)
    requires RouteFromRequest(store.routes[0], req) && req.time.Some?
    modifies store
  {
    var asha := Session(true, "Asha");
    var status := store.CreateRoute(asha, req.(majorStops := Some("Gate 2")));
    assert HasRouteWithKey(store.routes, RequestedKey(req));
    assert status == Conflict && |store.routes| == 1;
    status := store.CreateRoute(asha, req.(time := None));
    assert status == Created && |store.routes| == 2;
  }

  /** One rider joining and leaving a route of 2025-03-01. */
  method RiderScenario(store: Store, routeId: nat)
    requires store.Valid() && store.links == [] && HasRouteOn(store.routes, routeId, "2025-03-01")
    modifies store
  {
    var asha := Session(true, "Asha");
    var join := JoinRequest(Some("Asha"), Some("F"), Some("Library"), Some("9998887776"), None, None, None);
    var status := store.JoinRoute(asha, routeId, join, "2025-03-02");
    assert status == NotFound;
    assert Occupancy(store.links, routeId, "2025-03-01") == 0;
    status := store.JoinRoute(asha, routeId, join, "2025-03-01");
    assert status == Created;
    assert RouteCount(store.links, Some("2025-03-01"), Some(routeId)) == 1;
    status := store.JoinRoute(asha, routeId, join.(date := Some("2025-03-01")), "2025-02-27");
    assert HasLinkWithKey(store.links, JoinKey(routeId, "2025-03-01", "9998887776"));
    assert status == Conflict;
    assert |store.links| == 1 && store.links[0].name == "Asha" && store.links[0].routeId == routeId;
    assert store.links[0].date == "2025-03-01";
  }

  /** The rider of `RiderScenario` leaving again: a caller with another name is refused. */
  method LeaveScenario(store: Store, routeId: nat)
    requires store.Valid() && |store.links| == 1
    requires store.links[0].name == "Asha" && store.links[0].routeId == routeId && store.links[0].date == "2025-03-01"
    requires routeId != 0
    modifies store
  {
    var asha := Session(true, "Asha");
    var linkId := store.links[0].id;
    var status := store.DeleteLink(Session(true, "Ravi"), linkId);
    assert status == Forbidden by {
      assert NormalizeName("Ravi") != NormalizeName("Asha") by {
        assert NormalizeName("Ravi")[0] == 'r';
      }
    }
    status := store.DeleteLink(asha, linkId);
    assert status == NoContent;
    assert RouteCount(store.links, Some("2025-03-01"), Some(routeId)) == 0;
  }
}
