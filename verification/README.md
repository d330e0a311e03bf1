# IP-range redirect router — Dafny model

The router answers every HTTP request with a 302 redirect to one of three
upstream hosts. It converts the client's dotted-decimal IPv4 address to a
32-bit number, looks that number up in `blockData`, a table of address ranges
fetched lazily from a blocking API, and picks the host prefix `block-`,
`front-` or `origi-` from the raw status it found.

The model covers everything in `index.js` that decides the redirect:

- `ipToLong` at the level of the JavaScript operators (`<<` on 32-bit signed
  integers, `+`, `>>> 0`);
- the construction of `blockData` from the API's records (map, then a stable
  sort by `start`) and its all-or-nothing replacement;
- `binarySearch` as an imperative loop;
- the request handler: the lazy fetch, the default `blockValue` of 0, the
  strict comparisons that choose the prefix, and the redirect URL.

Files and modules:

| file | module | contents |
|---|---|---|
| wrappers.dfy | `Wrappers` | `Option` |
| ipcodec.dfy | `IpCodec` | `ToInt32`, `ToUint32`, `ShiftLeft8`, `JsFold`, `IpToLong`, the base-256 reference `Horner` |
| blocktable.dfy | `BlockTable` | `Json` statuses, `RawRecord`, `Entry`, conversion, stable insertion sort, `BuildTable`, `Refresh` |
| search.dfy | `Search` | `BinarySearch`, the reference scan `Lookup`, well-formedness |
| middleware.dfy | `Middleware` | `EnsureLoaded`, `RouteOf`, `RedirectUrl`, `HandleRequest`, request traces |

Modelling choices:

- The HTTP fetch is the parameter `fetched: Option<seq<RawRecord>>`.
  `None` stands for a network error, a timeout, or a body that is not an array.
  All three land in the same `catch`.
- A record's address field is `Option<Octets>`. `None` means the field is not
  a string, so calling `split` on it throws. One such record aborts the whole
  `map`, and `blockData` keeps its old value.
- Statuses are JSON values (`JBool`, `JNum`, `JStr`, `JNull`) and are never
  collapsed to a boolean. The handler compares them with `=== 1` and `=== 0`
  (index.js:69-71). A JSON `true` or `false` therefore matches neither and is
  routed to `origi-`. So if the API sends `isBlocked` as a JSON boolean, no
  request is ever sent to `block-` or `front-` by a table hit.
  `BooleanTableExample` shows the consequence: an address inside a range marked
  `true` ends up at the same host as an address in no range at all.
- `binarySearch` returns the number 2 when it finds nothing. This is `JNum(2)`
  (`Search.NotFound`), so an entry whose raw status is the number 2 cannot be
  told apart from a miss.
- The sort is `Array.prototype.sort` with comparator `a.start - b.start`.
  That sort is stable, so the model uses a stable insertion sort.
  `StableSortUnique` proves that every stable sort by `start` gives the same
  array, so the choice of algorithm does not matter.
- An empty table after the fetch attempt leaves `blockValue` at 0, which gives
  `front-`. An address in no range gives 2, which gives `origi-`.
- The fold adds each octet with `+`; it does not OR it in. The two differ only
  for octets above 255, and the model keeps `+`.
- Ties on `start` keep their input order, as the stable sort leaves them. The
  model does not break ties by `end`.

## Model

| member | source | states |
|---|---|---|
| IpCodec.ToInt32 | index.js:26 | the result is a signed 32-bit value that differs from the input by a multiple of 2^32 (what `<<` does to its operand) |
| IpCodec.ToUint32 | index.js:26 | the result of `>>> 0` lies in [0, 2^32) and is congruent to the input modulo 2^32 |
| IpCodec.ShiftLeft8 | index.js:26 | `acc << 8` is a signed 32-bit value congruent to acc·256 modulo 2^32 |
| IpCodec.JsFold | index.js:26 | the `reduce` before `>>> 0`: at least -2^31, and below 2^31 plus the last octet, since each step adds an octet to a signed 32-bit shift |
| IpCodec.FoldCongruent | index.js:26 | the wrapping JavaScript fold and the exact base-256 value of the octets differ only by a multiple of 2^32 |
| IpCodec.IpToLong | index.js:25-27 | for any count of non-negative octets the result is in [0, 2^32) and equals the base-256 value of the octets modulo 2^32 |
| IpCodec.QuadValue | index.js:25-27 | for four octets each at most 255 the result is a·2^24 + b·2^16 + c·2^8 + d, the big-endian IPv4 value |
| IpCodec.QuadInjective | index.js:25-27 | two well-formed dotted quads with the same number are the same quad |
| BlockTable.ToEntry | index.js:14-17 | a record converts exactly when both address fields are strings; the entry holds the converted bounds and the status unchanged |
| BlockTable.ConvertAll | index.js:14-17 | the map succeeds exactly when every record converts; the result then has the same length and holds each record's entry at the same index |
| BlockTable.Insert | index.js:18 | inserting into a table sorted by start keeps it sorted and adds exactly the one entry (multiset) |
| BlockTable.SortByStart | index.js:18 | the result is sorted ascending by start and is a permutation of the input |
| BlockTable.InsertStable | index.js:18 | insertion appends the new entry to the run of entries with its start and leaves every other run unchanged |
| BlockTable.SortStable | index.js:18 | for every start value, the entries with that start appear in the same order as in the input |
| BlockTable.StableSortUnique | index.js:18 | two tables sorted by start with the same per-start runs are equal, so any stable sort produces the same array |
| BlockTable.BuildTable | index.js:14-18 | construction succeeds exactly when the map does, and then yields a table of the input's length, sorted by start, that is a permutation of the mapped records |
| BlockTable.BuildTableStable | index.js:14-18 | in the constructed table, entries with equal start keep their input order |
| BlockTable.Refresh | index.js:8-22 | `blockData` is replaced by the constructed table only when the fetch succeeded and every record converted; otherwise it is left exactly as it was |
| Search.LookupSpec | index.js:30-47 | the reference scan `Lookup` answers 2 when no range contains the address (bounds inclusive), and otherwise the status of the first range that does |
| Search.AtMostOneContains | index.js:37-42 | in a table sorted by start whose consecutive ranges do not overlap, an address lies in at most one range |
| Search.BinarySearch | index.js:30-47 | on any table a result other than 2 is the status of an entry whose inclusive range contains the address; on a sorted, non-overlapping table the result equals the reference scan, and (when no status is itself 2) it is 2 exactly when no range contains the address; every probe indexes within [0, len-1] and the loop terminates because high - low decreases |
| Middleware.EnsureLoaded | index.js:55-58 | a non-empty table is kept whatever the fetch would return; an empty table is replaced only by a successfully built one, of the fetched length |
| Middleware.RouteOf | index.js:69-75 | the block host is chosen exactly for the number 1 and the front host exactly for the number 0; everything else, booleans included, goes to the origin |
| Middleware.Prefix | index.js:70-74 | every host prefix is six characters long |
| Middleware.BooleanStatusGoesToOrigin | index.js:69-75 | a raw boolean status, true or false, always yields the prefix `origi-` |
| Middleware.Decimal | index.js:66 | a port renders as a non-empty string of decimal digits with no leading zero; it starts with '0' only for 0 |
| Middleware.DecimalRoundTrip | index.js:66 | reading the rendered digits back gives the port number |
| Middleware.PortSuffix | index.js:66 | a missing or zero local port contributes nothing; any other port contributes ':' followed by digits, not starting with '0', that read back as the port |
| Middleware.NeedsFetch | index.js:56 | a fetch is attempted exactly when the table is empty |
| Middleware.RedirectUrl | index.js:66-75 | the redirect target: scheme, route prefix, Host header, port suffix, original URL |
| Middleware.RedirectUrlShape | index.js:66-75 | the redirect URL is `http://`, then the six-character prefix, then the Host header, then the port suffix (empty, or ':' and the port), and it ends with the original URL |
| Middleware.RouteRecoverable | index.js:69-75 | two equal redirect URLs carry the same route, so blocked, front and origin traffic never share a target |
| Middleware.HandleRequest | index.js:50-75 | the table afterwards follows the lazy-refresh rule; an empty table gives blockValue 0 and a `front-` URL; on a non-empty table blockValue is 2 or the status of a range containing the client's number, and on a well-formed table it is the reference scan's answer; the URL is built from the route of blockValue |
| Middleware.LoadedStaysLoaded | index.js:56-58 | once the table is non-empty, no later request fetches or changes it |
| Middleware.FailuresRetryEveryRequest | index.js:56-58 | while every fetch leaves the table empty (a failed request, a record that throws, or an empty array), every request attempts a fetch and the table stays empty |
| Middleware.FirstLoadIsFinal | index.js:56-58 | the first successful non-empty load fixes the table for all later requests, and only one fetch is made |
| Middleware.ExampleTable | index.js:14-18 | the records 1.0.0.0–1.0.0.255 (true) and 8.8.8.0–8.8.8.255 (false) build a two-entry table that is sorted and non-overlapping |
| Middleware.BooleanTableExample | index.js:69-75 | on that table 1.0.0.10 finds status true and 9.9.9.9 finds nothing, and both are routed to the origin host |

## Left out

- Express setup, `app.listen`, the `PORT` environment lookup and `res.redirect` (index.js:1-4, 78, 82-85): framework and I/O glue.
- The axios GET, its 1000 ms timeout and JSON decoding (index.js:10-11): the network client. Its outcome is the `fetched` parameter.
- Concurrent requests interleaving at the `await` (index.js:57): requests are handled one at a time. So the model does not show several requests fetching at once while the table is empty.
- Client-address extraction from `x-forwarded-for` or `remoteAddress` (index.js:51): header plumbing, comma-separated lists and IPv6 strings. The client address arrives as octets.
- `parseInt` leniency and `NaN` on non-numeric octets (index.js:26): JavaScript floating-point and `NaN` semantics. Octets are non-negative integers by type.
- IpCodec.IpToLong: assumes exact arithmetic in `acc + octet`, which JavaScript evaluates in doubles. An octet string above 2^53 - 2^31 would lose precision; the model does not show this.
- JSON numbers that are not integers are not modelled as statuses. None of them is strictly equal to 1 or 0, so they all route to the origin, like `JStr` and `JNull` do.
- A missing Host header renders as the text `undefined` in the URL. The model takes the header as a string.
- `console.error` and `console.log` (index.js:20, 84): logging.
- Classification does not depend on record order only when no two ranges share a start; the model does not state that order-independence. With equal starts, the stable sort keeps input order, and `SortStable` states exactly that.
