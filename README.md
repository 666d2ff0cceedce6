# Route and rider bookkeeping of the RouteLink server, in Dafny

The server in `app.py` keeps two tables: `route` (a shared ride offered on a
date: slot label, end point, major stops, optional time, transport type) and
`link` (a rider registered on one route for one date: name, gender, drop
point, phone, course year, branch). Its handlers read and change them. This
project models those handlers as an in-memory state machine. Each handler
answers with the HTTP status it would send, and the tables change only when
it succeeds.

- `records.dfy` (module `Records`): the rows, the request bodies, the
  session, the statuses and the socket events. A JSON field is an
  `Option<string>`. `None` means the key is absent or null. Python's
  `x or default` is `OrElse`.
- `slot.dfy` (module `Slot`): the `next_slot` label `"SL"` + `str(n).zfill(4)`,
  and a decoder for it.
- `text.dfy` (module `Text`): `str.strip()` over Python's whitespace set,
  `str.lower()`, the name comparison of `delete_link`, and the
  `^\d{4}-\d{2}-\d{2}$` pattern of `calendar`.
- `queries.dfy` (module `Queries`): the read-only handlers (`next_slot`,
  `calendar`, `route_count`, `route_links`) as functions over the tables,
  the primary-key lookups, the table invariants, and lemmas on how each
  change affects the invariants and the rider counts.
- `store.dfy` (module `RouteStore`): class `Store` with `routes` and `links`
  sequence fields and a ghost log of broadcast events. Its methods
  `CreateRoute`, `JoinRoute` and `DeleteLink` are the mutating handlers, and
  four client methods walk through a session against the contracts alone.

The store invariant `Valid()` (that is, `Queries.WellFormed`) says:
- route ids are distinct and positive;
- no two routes share (date, end_point, time, transport_type);
- link ids are distinct;
- no two links share (route_id, date, phone);
- every link names an existing route that runs on the link's date.

Every mutating method keeps it.

Inputs that the code takes from its surroundings are parameters. The
session is a `Session(loggedIn, userName)`. `date.today()` is the `today`
argument of `JoinRoute` and `RouteLinks`.

The model follows the code where the system's design intent promises more:
- `create_route` stores the slot label the client sends. `next_slot` is only
  the route count plus one, so slot labels are neither reserved nor unique.
- The duplicate check is exact and case-sensitive, on the route table itself. There are no date-association rows.
- `join_route` does not check the drop point, the phone, the gender or past dates.
- There is no route update or route delete.

## Model

| member | source | states |
|---|---|---|
| `Slot.Decimal` | app.py:99 | `str(n)`: a non-empty digit string with no leading zero unless n is 0 |
| `Slot.Encode` | app.py:99 | the label starts with "SL", is at least six characters long, and the rest is digits |
| `Slot.DecodeEncode` | app.py:99 | decoding the label of n gives back n |
| `Slot.EncodeInjective` | app.py:99 | different numbers never get the same label |
| `Slot.EncodeLength` | app.py:99 | the label is "SL" plus `str(n)` padded to at least four digits, so six characters below 10000 |
| `Queries.NextSlot` | app.py:96-99 | the offered label decodes to the number of routes plus one and starts with "SL"; a function, so nothing changes |
| `Queries.NextSlotDistinct` | app.py:96-99 | tables of different sizes are offered different labels |
| `Text.MatchesIsoDateExactly` | app.py:107 | the date pattern accepts exactly four digits, dash, two digits, dash, two digits, optionally followed by one newline (Python's `$`) |
| `Text.TrimStartSpec` | app.py:159 | what `strip` removes in front is whitespace, and the kept part does not start with whitespace |
| `Text.TrimEndSpec` | app.py:159 | what `strip` removes at the end is whitespace, and the kept part does not end with whitespace |
| `Text.StripIgnoresPadding` | app.py:159 | whitespace added on either side does not change the stripped name |
| `Text.NormalizeIgnoresPadding` | app.py:159 | the normalised name ignores surrounding whitespace |
| `Text.NormalizeIgnoresCase` | app.py:159 | the normalised name ignores the case of ASCII letters |
| `Text.NormalizeIdempotent` | app.py:159 | normalising a normalised name changes nothing |
| `Queries.FindRoute` | app.py:145 | the lookup returns a stored route with that id, or `None` when no route has the id |
| `Queries.IndexOfLink` | app.py:157 | the lookup returns an index holding that link id, or `None` when no link has the id |
| `Queries.FreshId` | app.py:121 | a new row's id is positive and larger than every id in use |
| `Queries.RoutesOn` | app.py:108 | the date filter keeps each route dated d exactly as often as it is stored, and no other route |
| `Queries.SortBySlot` | app.py:108 | the result is sorted by slot label in the database's binary text order and is a permutation of the input |
| `Queries.LexLeTotal` | app.py:108 | any two slot labels are ordered one way or the other |
| `Queries.LexLeTransitive` | app.py:108 | the slot-label order is transitive |
| `Queries.Calendar` | app.py:105-109 | 400 exactly when the date fails the pattern, and then an empty list; otherwise 200 with exactly the routes of that date, sorted by slot label |
| `Queries.LinksForMultiset` | app.py:129 | the (route_id, date) filter keeps exactly the matching links, each as often as it is stored |
| `Queries.RouteCount` | app.py:125-130 | 0 when the date is missing or empty, or the route id is missing or 0; never more than the number of links |
| `Queries.RouteCountIsMatchingRows` | app.py:129 | with distinct link ids, the count equals the number of distinct links with that date and route id |
| `Queries.RouteLinks` | app.py:132-136 | exactly the links of that route on the requested date, which defaults to today |
| `Queries.OccupancyAfterAppend` | app.py:149-150 | appending a link raises the count of its (route_id, date) by 1 and leaves every other count unchanged |
| `Queries.OccupancyAfterRemove` | app.py:161 | removing a link lowers the count of its (route_id, date) by 1 and leaves every other count unchanged |
| `Queries.CreateKeepsWellFormed` | app.py:118-121 | appending a route with a fresh id and an unused (date, end_point, time, transport_type) keeps every table invariant, including uniqueness of that tuple |
| `Queries.JoinKeepsWellFormed` | app.py:145-150 | appending a link with a fresh id, on a route that runs on its date, under an unused (route_id, date, phone), keeps every invariant |
| `Queries.DeleteKeepsWellFormed` | app.py:157-161 | removing one link keeps every invariant; exactly the links with another id remain |
| `RouteStore.Store.CreateRoute` | app.py:111-123 | 401 when logged out; 400 when date, slot_no or end_point is missing or empty; 409 when a route has the same (date, end_point, time, transport_type); otherwise 201. On success it appends one route with the request's fields and a fresh id (missing transport type is "") and logs `route_created`. On failure routes and events are unchanged. Links never change |
| `RouteStore.Store.JoinRoute` | app.py:138-152 | 401 when logged out; 404 when no route with that id runs on the requested date (today by default); 409 when (route_id, date, phone) is taken; otherwise 201. On success it appends one link with the handler's defaults and a fresh id, and logs `link_created`. That count rises by exactly 1 and every other count is unchanged. Routes never change; on failure nothing changes |
| `RouteStore.Store.DeleteLink` | app.py:154-163 | 401 when logged out; 404 when no link has that id; 403 when the stripped, lower-cased session name differs from the link's; otherwise 204. On success it removes that one link and no other, and logs `link_deleted` with the link's route and date. That count falls by exactly 1 and every other count is unchanged. Routes never change; on failure nothing changes |

## Left out

- HTTP routing, JSON parsing and response bodies are left out: they are transport. Only the status codes are kept, plus the lists `calendar` and `route_links` return. JSON values that are not strings (numbers, lists) are not modelled; every field is an optional string.
- The `User` table and `register`, `login`, `me` and `logout` are left out, and so is password hashing. They are identity and a foreign library. The session comes in as a parameter.
- The socket broadcasts are recorded only as a ghost event log, appended after the table change. Delivery to clients is not modelled.
- `db.create_all`, `holidays` (which returns an empty list) and serving `index.html` are left out. They carry no bookkeeping rules.
- The clock is not modelled: `today` is a parameter.
- Transactions, concurrent requests and their races are left out. Database failures (HTTP 500) are also not modelled.
- `route_count` reads its route id with `type=int`, and a value that does not parse arrives as `None`. The parsing itself is not modelled.
- Text.MatchesIsoDate: in Python, `\d` also matches non-ASCII decimal digits. The model accepts only `0`-`9`.
- Text.NormalizeIgnoresCase: `str.lower()` is modelled on ASCII letters only. Python's full Unicode case mapping is not modelled, including mappings that change a string's length.
- Queries.FreshId: the model takes SQLite's rowid rule, the largest id plus one. Callers' contracts rely only on the id being fresh.
- Queries.Calendar: SQL leaves the order of routes with equal slot labels open. The model sorts stably, and the contract promises only sortedness and the exact rows.
- Queries.RouteLinks: without `order_by` the database's row order is unspecified. The model keeps table order, and the contract promises only the exact rows.
- The foreign key's `ON DELETE CASCADE` on `link.route_id` never fires, because no handler deletes routes.
