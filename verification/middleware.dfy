/** The request handler registered with `app.use` (index.js:50-79): the lazy
    refresh of `blockData`, the choice of `blockValue`, and the redirect URL.
    One request is handled at a time; the HTTP fetch is a parameter. */
module Middleware {
  import opened Wrappers
  import opened IpCodec
  import opened BlockTable
  import opened Search

  /** What the handler reads from the request: the client address (already
      split into octets), the Host header, the socket's local port (`None`
      when the socket reports none) and the original URL. */
  datatype Request = Request(client: Octets, host: string, localPort: Option<nat>, originalUrl: string)

  /** The three upstreams of index.js:69-75. */
  datatype Route = Block | Front | Origin

  /** A fetch is attempted exactly when the table is empty (index.js:56). */
  predicate NeedsFetch(blockData: seq<Entry>)
  {
    |blockData| == 0
  }

  /** The table after index.js:56-58 for one request, given what the fetch
      would return if it were attempted. */
  function EnsureLoaded(blockData: seq<Entry>, fetched: Option<seq<RawRecord>>): (d: seq<Entry>)
    ensures !NeedsFetch(blockData) ==> d == blockData
    ensures NeedsFetch(blockData) && fetched.None? ==> d == blockData
    ensures NeedsFetch(blockData) && fetched.Some? && ConvertAll(fetched.value).None? ==> d == blockData
    ensures NeedsFetch(blockData) && fetched.Some? && ConvertAll(fetched.value).Some? ==>
      d == BuildTable(fetched.value).value && |d| == |fetched.value|
  {
    if NeedsFetch(blockData) then Refresh(blockData, fetched) else blockData
  }

  /** The strict comparisons of index.js:69-75: only the number 1 blocks and
      only the number 0 goes to the front; a JSON boolean matches neither. */
  function RouteOf(blockValue: Json): (r: Route)
    ensures r == Block <==> blockValue == JNum(1)
    ensures r == Front <==> blockValue == JNum(0)
  {
    if blockValue == JNum(1) then Block
    else if blockValue == JNum(0) then Front
    else Origin
  }

  /** The host prefix each route puts in front of the Host header. */
  function Prefix(route: Route): (p: string)
    ensures |p| == 6
  {
    match route
    case Block => "block-"
    case Front => "front-"
    case Origin => "origi-"
  }

  /** If the API sends `isBlocked` as a JSON `true` or `false`, the request
      reaches neither the block nor the front host. */
  lemma BooleanStatusGoesToOrigin(b: bool)
    ensures RouteOf(JBool(b)) == Origin
    ensures Prefix(RouteOf(JBool(b))) == "origi-"
  {
  }

  function DigitChar(d: nat): (c: char)
    requires d < 10
    ensures '0' <= c <= '9'
  {
    "0123456789"[d]
  }

  /** The decimal rendering of a number inside a template literal. */
  function Decimal(n: nat): (s: string)
    ensures |s| > 0
    ensures forall i :: 0 <= i < |s| ==> '0' <= s[i] <= '9'
    ensures s[0] == '0' <==> n == 0
    ensures |s| == 1 || s[0] != '0'
  {
    if n < 10 then [DigitChar(n)] else Decimal(n / 10) + [DigitChar(n % 10)]
  }

  /** Reads a string of decimal digits back as a number. */
  function DecimalValue(s: string): nat
    requires forall i :: 0 <= i < |s| ==> '0' <= s[i] <= '9'
  {
    if |s| == 0 then 0
    else DecimalValue(s[..|s| - 1]) * 10 + (s[|s| - 1] as int - '0' as int)
  }

  /** The rendering loses nothing: reading it back yields the number. */
  lemma {:induction false} DecimalRoundTrip(n: nat)
    ensures DecimalValue(Decimal(n)) == n
  {
    if n >= 10 {
      DecimalRoundTrip(n / 10);
      var s := Decimal(n);
      assert s[..|s| - 1] == Decimal(n / 10);
    }
  }

  /** `port` at index.js:66: a colon and the number, or nothing when the local
      port is missing or 0 (both falsy). */
  function PortSuffix(localPort: Option<nat>): (s: string)
    ensures localPort.None? || localPort.value == 0 ==> s == ""
    ensures localPort.Some? && localPort.value != 0 ==>
      && |s| > 1 && s[0] == ':' && s[1] != '0'
      && (forall i :: 0 <= i < |s| - 1 ==> '0' <= s[1..][i] <= '9')
      && DecimalValue(s[1..]) == localPort.value
  {
    match localPort
    case Some(p) =>
      if p == 0 then ""
      else
        DecimalRoundTrip(p);
        assert (":" + Decimal(p))[1..] == Decimal(p);
        ":" + Decimal(p)
    case None => ""
  }

  /** The redirect target of index.js:69-75. */
  function RedirectUrl(route: Route, req: Request): string
  {
    "http://" + Prefix(route) + req.host + PortSuffix(req.localPort) + req.originalUrl
  }

  /** Every redirect is the scheme, the six-character prefix, the Host
      header, the port suffix and the original URL, in that order. */
  lemma RedirectUrlShape(route: Route, req: Request)
    ensures var url := RedirectUrl(route, req);
      && |url| >= 13 + |req.host| + |req.originalUrl|
      && url[..7] == "http://"
      && url[7..13] == Prefix(route)
      && url[13..13 + |req.host|] == req.host
      && url[13 + |req.host|..|url| - |req.originalUrl|] == PortSuffix(req.localPort)
      && url[|url| - |req.originalUrl|..] == req.originalUrl
  {
    var head := "http://" + Prefix(route) + req.host;
    var url := head + PortSuffix(req.localPort) + req.originalUrl;
    assert url == RedirectUrl(route, req);
    assert |head| == 13 + |req.host|;
    assert url[..|head|] == head;
    assert head[..7] == "http://" && head[7..13] == Prefix(route) && head[13..] == req.host;
  }

  /** The route can be read back from the URL: two requests routed
      differently never receive the same redirect. */
  lemma RouteRecoverable(r1: Route, q1: Request, r2: Route, q2: Request)
    requires RedirectUrl(r1, q1) == RedirectUrl(r2, q2)
    ensures r1 == r2
  {
    RedirectUrlShape(r1, q1);
    RedirectUrlShape(r2, q2);
  }

  /** One request through the handler: the table afterwards, the `blockValue`
      it settled on, and the redirect URL. */
  method HandleRequest(blockData: seq<Entry>, fetched: Option<seq<RawRecord>>, req: Request) returns (table: seq<Entry>, blockValue: Json, url: string)
    ensures table == EnsureLoaded(blockData, fetched)
    ensures |table| == 0 ==> blockValue == JNum(0) && url == RedirectUrl(Front, req)
    ensures |table| > 0 ==>
      (blockValue == NotFound ||
       exists i :: 0 <= i < |table| && Contains(table[i], IpToLong(req.client))
                   && blockValue == table[i].isBlocked)
    ensures |table| > 0 && WellFormed(table) ==> blockValue == Lookup(table, IpToLong(req.client))
    ensures url == RedirectUrl(RouteOf(blockValue), req)
  {
    var hash := IpToLong(req.client);
    blockValue := JNum(0);
    table := blockData;
    if NeedsFetch(table) {
      table := Refresh(table, fetched);
    }
    if |table| > 0 {
      blockValue := BinarySearch(table, hash);
    }
    url := RedirectUrl(RouteOf(blockValue), req);
  }

  /** The table after a run of requests, one fetch outcome per request. */
  function ServeAll(blockData: seq<Entry>, fetches: seq<Option<seq<RawRecord>>>): seq<Entry>
    decreases |fetches|
  {
    if |fetches| == 0 then blockData
    else ServeAll(EnsureLoaded(blockData, fetches[0]), fetches[1..])
  }

  /** How many of those requests start a fetch. */
  function FetchAttempts(blockData: seq<Entry>, fetches: seq<Option<seq<RawRecord>>>): nat
    decreases |fetches|
  {
    if |fetches| == 0 then 0
    else (if NeedsFetch(blockData) then 1 else 0) + FetchAttempts(EnsureLoaded(blockData, fetches[0]), fetches[1..])
  }

  /** Once loaded, the table is never fetched again nor changed: a one-shot
      warm cache for the life of the process. */
  lemma {:induction false} LoadedStaysLoaded(blockData: seq<Entry>, fetches: seq<Option<seq<RawRecord>>>)
    requires !NeedsFetch(blockData)
    ensures ServeAll(blockData, fetches) == blockData
    ensures FetchAttempts(blockData, fetches) == 0
  {
    if |fetches| > 0 {
      LoadedStaysLoaded(blockData, fetches[1..]);
    }
  }

  /** While fetches leave the table empty (a failed request, a record that
      throws, or an empty array), every request tries again and the table
      stays empty. */
  lemma {:induction false} FailuresRetryEveryRequest(fetches: seq<Option<seq<RawRecord>>>)
    requires forall i :: 0 <= i < |fetches| ==> EnsureLoaded([], fetches[i]) == []
    ensures ServeAll([], fetches) == []
    ensures FetchAttempts([], fetches) == |fetches|
  {
    if |fetches| > 0 {
      FailuresRetryEveryRequest(fetches[1..]);
    }
  }

  /** The first request whose fetch yields a usable non-empty table fixes the
      table for every later request, whatever their fetches would return. */
  lemma FirstLoadIsFinal(fetched: seq<RawRecord>, later: seq<Option<seq<RawRecord>>>)
    requires |fetched| > 0 && ConvertAll(fetched).Some?
    ensures ServeAll([], [Some(fetched)] + later) == BuildTable(fetched).value
    ensures FetchAttempts([], [Some(fetched)] + later) == 1
  {
    var fs := [Some(fetched)] + later;
    assert fs[0] == Some(fetched) && fs[1..] == later;
    LoadedStaysLoaded(BuildTable(fetched).value, later);
  }

  /** Two records whose statuses are JSON booleans. */
  const ExampleRecords: seq<RawRecord> :=
    [RawRecord(Some([1, 0, 0, 0]), Some([1, 0, 0, 255]), JBool(true)),
     RawRecord(Some([8, 8, 8, 0]), Some([8, 8, 8, 255]), JBool(false))]

  /** The entries the example records should produce. */
  const ExampleEntries: seq<Entry> :=
    [Entry(0x0100_0000, 0x0100_00FF, JBool(true)), Entry(0x0808_0800, 0x0808_08FF, JBool(false))]

  lemma ExampleConversions()
    ensures ToEntry(ExampleRecords[0]) == Some(ExampleEntries[0])
    ensures ToEntry(ExampleRecords[1]) == Some(ExampleEntries[1])
  {
    QuadValue([1, 0, 0, 0]);
    QuadValue([1, 0, 0, 255]);
    QuadValue([8, 8, 8, 0]);
    QuadValue([8, 8, 8, 255]);
  }

  /** The example records become two sorted, non-overlapping entries. */
  lemma ExampleTable()
    ensures BuildTable(ExampleRecords) == Some(ExampleEntries)
    ensures WellFormed(ExampleEntries)
  {
    ExampleConversions();
    var rs := ExampleRecords;
    forall i | 0 <= i < |rs|
      ensures ToEntry(rs[i]).Some?
    {
    }
    var es := ConvertAll(rs).value;
    assert es == ExampleEntries;
    var e1 := ExampleEntries[0];
    var e2 := ExampleEntries[1];
    assert SortByStart([e1, e2]) == [e1, e2] by {
      assert [e1, e2][..1] == [e1];
      assert [e1][..0] == [];
      assert SortByStart([e1]) == [e1];
      assert Insert([e1], e2) == [e1, e2];
    }
    assert [e1, e2] == ExampleEntries;
  }

  /** With boolean statuses, an address inside the blocked range
      1.0.0.0-1.0.0.255 finds its entry, yet the raw `true` sends it to the
      origin host, exactly like an address in no range at all. */
  lemma BooleanTableExample()
    ensures Lookup(ExampleEntries, IpToLong([1, 0, 0, 10])) == JBool(true)
    ensures Lookup(ExampleEntries, IpToLong([8, 8, 8, 8])) == JBool(false)
    ensures Lookup(ExampleEntries, IpToLong([9, 9, 9, 9])) == NotFound
    ensures RouteOf(Lookup(ExampleEntries, IpToLong([1, 0, 0, 10]))) == Origin
    ensures RouteOf(Lookup(ExampleEntries, IpToLong([9, 9, 9, 9]))) == Origin
  {
    var t := ExampleEntries;
    assert t[1..] == [t[1]] && t[1..][1..] == [];
    assert IpToLong([1, 0, 0, 10]) == 0x0100_000A by {
      QuadValue([1, 0, 0, 10]);
    }
    assert IpToLong([8, 8, 8, 8]) == 0x0808_0808 by {
      QuadValue([8, 8, 8, 8]);
    }
    assert IpToLong([9, 9, 9, 9]) == 0x0909_0909 by {
      QuadValue([9, 9, 9, 9]);
    }
  }
}
