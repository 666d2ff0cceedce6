/** The read-only handlers (`next_slot`, `calendar`, `route_count`,
    `route_links`) as functions over the two tables, the lookups the mutating
    handlers make, and the invariants the tables keep. */
module Queries {
  import opened Records
  import opened Text
  import Slot

  // ---- invariants of the tables ----

  /** Route ids are distinct row ids, which start at 1. */
  predicate RouteIdsUnique(routes: seq<Route>) {
    && (forall i :: 0 <= i < |routes| ==> routes[i].id >= 1)
    && (forall i, j :: 0 <= i < j < |routes| ==> routes[i].id != routes[j].id)
  }

  /** No two routes share (date, end_point, time, transport_type). */
  predicate RouteKeysUnique(routes: seq<Route>) {
    forall i, j :: 0 <= i < j < |routes| ==> KeyOfRoute(routes[i]) != KeyOfRoute(routes[j])
  }

  predicate LinkIdsUnique(links: seq<Link>) {
    forall i, j :: 0 <= i < j < |links| ==> links[i].id != links[j].id
  }

  /** No phone number is registered twice on one route for one date. */
  predicate JoinKeysUnique(links: seq<Link>) {
    forall i, j :: 0 <= i < j < |links| ==> KeyOfLink(links[i]) != KeyOfLink(links[j])
  }

  predicate HasRouteOn(routes: seq<Route>, id: nat, date: string) {
    exists j :: 0 <= j < |routes| && routes[j].id == id && routes[j].date == date
  }

  /** Every rider sits on a route that exists and runs on the rider's date. */
  predicate LinksReferenceRoutes(routes: seq<Route>, links: seq<Link>) {
    forall i :: 0 <= i < |links| ==> HasRouteOn(routes, links[i].routeId, links[i].date)
  }

  predicate WellFormed(routes: seq<Route>, links: seq<Link>) {
    && RouteIdsUnique(routes)
    && RouteKeysUnique(routes)
    && LinkIdsUnique(links)
    && JoinKeysUnique(links)
    && LinksReferenceRoutes(routes, links)
  }

  // ---- lookups ----

  /** The duplicate query of `create_route`. */
  predicate HasRouteWithKey(routes: seq<Route>, k: RouteKey) {
    exists i :: 0 <= i < |routes| && KeyOfRoute(routes[i]) == k
  }

  /** The "already joined" query of `join_route`. */
  predicate HasLinkWithKey(links: seq<Link>, k: JoinKey) {
    exists i :: 0 <= i < |links| && KeyOfLink(links[i]) == k
  }

  /** `Route.query.get(id)`. */
  function FindRoute(routes: seq<Route>, id: nat): (r: Option<Route>)
    ensures r.Some? ==> r.value in routes && r.value.id == id
    ensures r.None? ==> forall i :: 0 <= i < |routes| ==> routes[i].id != id
  {
    if routes == [] then None
    else if routes[0].id == id then Some(routes[0])
    else FindRoute(routes[1..], id)
  }

  /** Where `Link.query.get(id)` finds its row. */
  function IndexOfLink(links: seq<Link>, id: nat): (r: Option<nat>)
    ensures r.Some? ==> r.value < |links| && links[r.value].id == id
    ensures r.None? ==> forall i :: 0 <= i < |links| ==> links[i].id != id
  {
    if links == [] then None
    else if links[0].id == id then Some(0)
    else match IndexOfLink(links[1..], id)
      case None => None
      case Some(k) => Some(k + 1)
  }

  /** The id the database gives a new row: one more than the largest in use. */
  function FreshId(ids: seq<nat>): (id: nat)
    ensures id >= 1
    ensures forall i :: 0 <= i < |ids| ==> ids[i] < id
  {
    if ids == [] then 1
    else
      var rest := FreshId(ids[1..]);
      if ids[0] + 1 > rest then ids[0] + 1 else rest
  }

  function RouteIds(routes: seq<Route>): (ids: seq<nat>)
    ensures |ids| == |routes| && forall i :: 0 <= i < |routes| ==> ids[i] == routes[i].id
  {
    seq(|routes|, i requires 0 <= i < |routes| => routes[i].id)
  }

  function LinkIds(links: seq<Link>): (ids: seq<nat>)
    ensures |ids| == |links| && forall i :: 0 <= i < |links| ==> ids[i] == links[i].id
  {
    seq(|links|, i requires 0 <= i < |links| => links[i].id)
  }

  // ---- next_slot ----

  /** `next_slot`: the label for one more than the number of routes. */
  function NextSlot(routes: seq<Route>): (slot: string)
    ensures Slot.Decode(slot) == Some(|routes| + 1)
    ensures |slot| >= 6 && slot[..2] == "SL"
  {
    Slot.DecodeEncode(|routes| + 1);
    Slot.Encode(|routes| + 1)
  }

  /** Two tables of different sizes are offered different slot labels. */
  lemma NextSlotDistinct(a: seq<Route>, b: seq<Route>)
    requires |a| != |b|
    ensures NextSlot(a) != NextSlot(b)
  {
    Slot.EncodeInjective(|a| + 1, |b| + 1);
  }

  // ---- calendar ----

  /** The order of SQLite's default (binary) collation on text: code point by
      code point, a proper prefix first. */
  function LexLe(a: string, b: string): bool {
    if a == [] then true
    else if b == [] then false
    else if a[0] != b[0] then a[0] < b[0]
    else LexLe(a[1..], b[1..])
  }

  lemma {:induction false} LexLeTotal(a: string, b: string)
    ensures LexLe(a, b) || LexLe(b, a)
  {
    if a != [] && b != [] && a[0] == b[0] {
      LexLeTotal(a[1..], b[1..]);
    }
  }

  lemma {:induction false} LexLeTransitive(a: string, b: string, c: string)
    requires LexLe(a, b) && LexLe(b, c)
    ensures LexLe(a, c)
  {
    if a != [] && b != [] && c != [] && a[0] == b[0] && b[0] == c[0] {
      LexLeTransitive(a[1..], b[1..], c[1..]);
    }
  }

  predicate SortedBySlot(s: seq<Route>) {
    forall i, j :: 0 <= i < j < |s| ==> LexLe(s[i].slotNo, s[j].slotNo)
  }

  lemma SortedCons(h: Route, s: seq<Route>)
    requires SortedBySlot(s)
    requires forall y :: y in s ==> LexLe(h.slotNo, y.slotNo)
    ensures SortedBySlot([h] + s)
  {
    var t := [h] + s;
    forall i, j | 0 <= i < j < |t| ensures LexLe(t[i].slotNo, t[j].slotNo) {
      if i > 0 {
        assert t[i] == s[i - 1] && t[j] == s[j - 1];
      } else {
        assert t[j] in s;
      }
    }
  }

  /** Puts `x` in front of the first route whose slot label is not below its own. */
  function InsertBySlot(x: Route, s: seq<Route>): (r: seq<Route>)
    requires SortedBySlot(s)
    ensures SortedBySlot(r)
    ensures multiset(r) == multiset(s) + multiset{x}
  {
    if s == [] then [x]
    else if LexLe(x.slotNo, s[0].slotNo) then
      InsertInFront(x, s);
      [x] + s
    else
      var rest := InsertBySlot(x, s[1..]);
      InsertBehind(x, s, rest);
      [s[0]] + rest
  }

  lemma InsertInFront(x: Route, s: seq<Route>)
    requires SortedBySlot(s) && s != [] && LexLe(x.slotNo, s[0].slotNo)
    ensures SortedBySlot([x] + s)
    ensures multiset([x] + s) == multiset(s) + multiset{x}
  {
    forall y | y in s ensures LexLe(x.slotNo, y.slotNo) {
      if y != s[0] {
        var j :| 0 <= j < |s| && s[j] == y;
        LexLeTransitive(x.slotNo, s[0].slotNo, y.slotNo);
      }
    }
    SortedCons(x, s);
  }

  lemma InsertBehind(x: Route, s: seq<Route>, rest: seq<Route>)
    requires SortedBySlot(s) && s != [] && !LexLe(x.slotNo, s[0].slotNo)
    requires SortedBySlot(rest) && multiset(rest) == multiset(s[1..]) + multiset{x}
    ensures SortedBySlot([s[0]] + rest)
    ensures multiset([s[0]] + rest) == multiset(s) + multiset{x}
  {
    LexLeTotal(x.slotNo, s[0].slotNo);
    forall y | y in rest ensures LexLe(s[0].slotNo, y.slotNo) {
      assert y in multiset(rest);
      if y != x {
        assert y in multiset(s[1..]);
        var j :| 0 <= j < |s[1..]| && s[1..][j] == y;
        assert s[j + 1] == y;
      }
    }
    SortedCons(s[0], rest);
    assert s == [s[0]] + s[1..];
  }

  /** `order_by(Route.slot_no)`: the routes in ascending slot-label order. */
  function SortBySlot(s: seq<Route>): (r: seq<Route>)
    ensures SortedBySlot(r)
    ensures multiset(r) == multiset(s)
  {
    if s == [] then []
    else
      assert s == [s[0]] + s[1..];
      InsertBySlot(s[0], SortBySlot(s[1..]))
  }

  /** `Route.query.filter_by(date=d)`: the routes on date `d`, in table order. */
  function RoutesOn(routes: seq<Route>, d: string): (r: seq<Route>)
    ensures forall x :: multiset(r)[x] == if x.date == d then multiset(routes)[x] else 0
  {
    if routes == [] then []
    else
      assert routes == [routes[0]] + routes[1..];
      (if routes[0].date == d then [routes[0]] else []) + RoutesOn(routes[1..], d)
  }

  datatype CalendarReply = CalendarReply(status: Status, routes: seq<Route>)

  /** `calendar(date_iso)`: 400 with an empty list unless the date has the
      ISO shape, otherwise every route on that date, each as often as it is
      stored, ordered by slot label. */
  function Calendar(routes: seq<Route>, dateIso: string): (reply: CalendarReply)
    ensures reply.status == BadRequest <==> !MatchesIsoDate(dateIso)
    ensures reply.status == BadRequest ==> reply.routes == []
    ensures reply.status != BadRequest ==> reply.status == Ok
    ensures reply.status == Ok ==> SortedBySlot(reply.routes)
    ensures reply.status == Ok ==>
      forall x :: (multiset(reply.routes)[x] == if x.date == dateIso then multiset(routes)[x] else 0)
  {
    if !MatchesIsoDate(dateIso) then CalendarReply(BadRequest, [])
    else CalendarReply(Ok, SortBySlot(RoutesOn(routes, dateIso)))
  }

  // ---- route_count and route_links ----

  /** `Link.query.filter_by(route_id=id, date=d)`, in table order. */
  function LinksFor(links: seq<Link>, routeId: int, d: string): (r: seq<Link>)
    ensures |r| <= |links|
  {
    if links == [] then []
    else
      (if links[0].routeId == routeId && links[0].date == d then [links[0]] else [])
        + LinksFor(links[1..], routeId, d)
  }

  /** The filter keeps exactly the rows with that route id and date, each as
      often as it is stored. */
  lemma {:induction false} LinksForMultiset(links: seq<Link>, routeId: int, d: string)
    ensures forall x :: (multiset(LinksFor(links, routeId, d))[x] ==
      if x.routeId == routeId && x.date == d then multiset(links)[x] else 0)
  {
    if links != [] {
      assert links == [links[0]] + links[1..];
      LinksForMultiset(links[1..], routeId, d);
    }
  }

  /** The number of riders on route `routeId` for date `d`. */
  function Occupancy(links: seq<Link>, routeId: int, d: string): nat {
    |LinksFor(links, routeId, d)|
  }

  /** `route_count`: 0 when either query argument is missing (a route id of
      0 is as good as missing), otherwise the number of riders on that route
      for that date. */
  function RouteCount(links: seq<Link>, date: Field, routeId: Option<int>): (n: nat)
    ensures !Present(date) || routeId.None? || routeId == Some(0) ==> n == 0
    ensures n <= |links|
  {
    if !Present(date) || routeId.None? || routeId.value == 0 then 0
    else Occupancy(links, routeId.value, date.value)
  }

  /** `route_links`: the riders on route `routeId` for the requested date,
      today's when none is given. */
  function RouteLinks(links: seq<Link>, routeId: nat, date: Field, today: string): (r: seq<Link>)
    ensures forall x :: (multiset(r)[x] ==
      if x.routeId == routeId && x.date == OrElse(date, today) then multiset(links)[x] else 0)
  {
    LinksForMultiset(links, routeId, OrElse(date, today));
    LinksFor(links, routeId, OrElse(date, today))
  }

  lemma {:induction false} LinksForAppend(a: seq<Link>, b: seq<Link>, routeId: int, d: string)
    ensures LinksFor(a + b, routeId, d) == LinksFor(a, routeId, d) + LinksFor(b, routeId, d)
  {
    if a != [] {
      assert (a + b)[1..] == a[1..] + b;
      LinksForAppend(a[1..], b, routeId, d);
    } else {
      assert a + b == b;
    }
  }

  /** Appending a rider raises the count of its own route and date by one
      and leaves every other count as it was. */
  lemma OccupancyAfterAppend(links: seq<Link>, l: Link, routeId: int, d: string)
    ensures Occupancy(links + [l], routeId, d) ==
      Occupancy(links, routeId, d) + (if l.routeId == routeId && l.date == d then 1 else 0)
  {
    LinksForAppend(links, [l], routeId, d);
    assert [l][1..] == [];
  }

  /** Removing the rider at index `i` lowers the count of its own route and
      date by one and leaves every other count as it was. */
  lemma OccupancyAfterRemove(links: seq<Link>, i: nat, routeId: int, d: string)
    requires i < |links|
    ensures Occupancy(links[..i] + links[i + 1..], routeId, d) ==
      Occupancy(links, routeId, d) - (if links[i].routeId == routeId && links[i].date == d then 1 else 0)
  {
    assert links == links[..i] + [links[i]] + links[i + 1..];
    LinksForAppend(links[..i] + [links[i]], links[i + 1..], routeId, d);
    LinksForAppend(links[..i], [links[i]], routeId, d);
    LinksForAppend(links[..i], links[i + 1..], routeId, d);
    assert [links[i]][1..] == [];
  }

  lemma {:induction false} DistinctCardinality(s: seq<Link>)
    requires forall i, j :: 0 <= i < j < |s| ==> s[i] != s[j]
    ensures |set x | x in s| == |s|
  {
    if s != [] {
      DistinctCardinality(s[1..]);
      assert (set x | x in s) == {s[0]} + (set x | x in s[1..]);
      assert s[0] !in s[1..];
    }
  }

  /** With link ids unique, `route_count` is the number of distinct rows of
      the link table with that date and route id. */
  lemma RouteCountIsMatchingRows(links: seq<Link>, d: string, routeId: int)
    requires LinkIdsUnique(links)
    requires d != "" && routeId != 0
    ensures RouteCount(links, Some(d), Some(routeId)) ==
      |set l | l in links && l.date == d && l.routeId == routeId|
  {
    var r := LinksFor(links, routeId, d);
    forall i, j | 0 <= i < j < |r| ensures r[i] != r[j] {
      if r[i] == r[j] {
        LinksForDistinctIds(links, routeId, d);
      }
    }
    DistinctCardinality(r);
    LinksForMultiset(links, routeId, d);
    assert (set x | x in r) == set l | l in links && l.date == d && l.routeId == routeId by {
      forall x ensures x in r <==> x in links && x.date == d && x.routeId == routeId {
        assert x in r <==> multiset(r)[x] > 0;
        assert x in links <==> multiset(links)[x] > 0;
      }
    }
  }

  /** Filtering keeps ids unique. */
  lemma {:induction false} LinksForDistinctIds(links: seq<Link>, routeId: int, d: string)
    requires LinkIdsUnique(links)
    ensures LinkIdsUnique(LinksFor(links, routeId, d))
  {
    if links != [] {
      LinksForDistinctIds(links[1..], routeId, d);
      var rest := LinksFor(links[1..], routeId, d);
      LinksForMultiset(links[1..], routeId, d);
      forall y | y in rest ensures y.id != links[0].id {
        assert y in multiset(rest);
        assert y in multiset(links[1..]);
        var j :| 0 <= j < |links[1..]| && links[1..][j] == y;
        assert links[j + 1] == y;
      }
      var r := LinksFor(links, routeId, d);
      if links[0].routeId == routeId && links[0].date == d {
        forall i, j | 0 <= i < j < |r| ensures r[i].id != r[j].id {
          if i == 0 {
            assert r[j] == rest[j - 1] && r[j] in rest;
          } else {
            assert r[i] == rest[i - 1] && r[j] == rest[j - 1];
          }
        }
      }
    }
  }

  // ---- what each mutating handler does to the invariants ----

  /** Appending a route with a fresh id and an unused (date, end_point,
      time, transport_type) keeps every invariant. */
  lemma CreateKeepsWellFormed(routes: seq<Route>, links: seq<Link>, r: Route)
    requires WellFormed(routes, links)
    requires !HasRouteWithKey(routes, KeyOfRoute(r))
    requires r.id >= 1 && forall i :: 0 <= i < |routes| ==> routes[i].id != r.id
    ensures WellFormed(routes + [r], links)
  {
    var t := routes + [r];
    forall i | 0 <= i < |links| ensures HasRouteOn(t, links[i].routeId, links[i].date) {
      assert HasRouteOn(routes, links[i].routeId, links[i].date);
      var j :| 0 <= j < |routes| && routes[j].id == links[i].routeId && routes[j].date == links[i].date;
      assert t[j] == routes[j];
    }
    forall i, j | 0 <= i < j < |t| ensures KeyOfRoute(t[i]) != KeyOfRoute(t[j]) && t[i].id != t[j].id {
      if j == |routes| {
        assert t[i] == routes[i];
      }
    }
    assert forall i :: 0 <= i < |t| ==> t[i].id >= 1 by {
      assert forall i :: 0 <= i < |routes| ==> t[i] == routes[i];
    }
  }

  /** Appending a rider with a fresh id, on a route that runs on the rider's
      date, under an unused (route_id, date, phone), keeps every invariant. */
  lemma JoinKeepsWellFormed(routes: seq<Route>, links: seq<Link>, l: Link)
    requires WellFormed(routes, links)
    requires HasRouteOn(routes, l.routeId, l.date)
    requires !HasLinkWithKey(links, KeyOfLink(l))
    requires forall i :: 0 <= i < |links| ==> links[i].id != l.id
    ensures WellFormed(routes, links + [l])
  {
    var t := links + [l];
    forall i | 0 <= i < |t| ensures HasRouteOn(routes, t[i].routeId, t[i].date) {
      if i < |links| {
        assert t[i] == links[i];
      }
    }
    forall i, j | 0 <= i < j < |t| ensures KeyOfLink(t[i]) != KeyOfLink(t[j]) && t[i].id != t[j].id {
      if j == |links| {
        assert t[i] == links[i];
      }
    }
  }

  /** Removing the rider at index `i` keeps every invariant and removes that
      row only: afterwards exactly the rows with another id remain. */
  lemma DeleteKeepsWellFormed(routes: seq<Route>, links: seq<Link>, i: nat)
    requires WellFormed(routes, links)
    requires i < |links|
    ensures WellFormed(routes, links[..i] + links[i + 1..])
    ensures forall l :: l in links[..i] + links[i + 1..] <==> l in links && l.id != links[i].id
  {
    var t := links[..i] + links[i + 1..];
    RemovedAt(links, i);
    assert forall k :: 0 <= k < |t| ==> t[k] == links[if k < i then k else k + 1];
    forall a, b | 0 <= a < b < |t|
      ensures KeyOfLink(t[a]) != KeyOfLink(t[b]) && t[a].id != t[b].id
    {
      var a', b' := if a < i then a else a + 1, if b < i then b else b + 1;
      assert t[a] == links[a'] && t[b] == links[b'];
    }
    forall k | 0 <= k < |t| ensures HasRouteOn(routes, t[k].routeId, t[k].date) {
      assert t[k] == links[if k < i then k else k + 1];
    }
    RemovedMembers(links, i);
  }

  lemma RemovedAt(links: seq<Link>, i: nat)
    requires i < |links|
    ensures |links[..i] + links[i + 1..]| == |links| - 1
    ensures forall k :: 0 <= k < i ==> (links[..i] + links[i + 1..])[k] == links[k]
    ensures forall k :: i < k < |links| ==> (links[..i] + links[i + 1..])[k - 1] == links[k]
  {
  }

  lemma RemovedMembers(links: seq<Link>, i: nat)
    requires LinkIdsUnique(links)
    requires i < |links|
    ensures forall l :: l in links[..i] + links[i + 1..] <==> l in links && l.id != links[i].id
  {
    var front, back := links[..i], links[i + 1..];
    assert links == front + [links[i]] + back;
    assert forall l :: l in front ==> l.id != links[i].id by {
      forall l | l in front ensures l.id != links[i].id {
        var k :| 0 <= k < |front| && front[k] == l;
        assert links[k] == l;
      }
    }
    assert forall l :: l in back ==> l.id != links[i].id by {
      forall l | l in back ensures l.id != links[i].id {
        var k :| 0 <= k < |back| && back[k] == l;
        assert links[i + 1 + k] == l;
      }
    }
  }
}
