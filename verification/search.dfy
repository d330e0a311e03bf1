/** `binarySearch` (index.js:30-47): an inclusive-bounds interval search over
    `blockData`, returning the matching entry's raw status or the number 2. */
module Search {
  import opened BlockTable

  /** The value `binarySearch` returns when no probed entry contains the address. */
  const NotFound: Json := JNum(2)

  /** Both bounds inclusive. */
  predicate Contains(e: Entry, ip: int)
  {
    e.start <= ip <= e.end
  }

  /** Consecutive ranges do not touch: each ends before the next one starts. */
  predicate NonOverlapping(es: seq<Entry>)
  {
    forall i :: 0 <= i < |es| - 1 ==> es[i].end < es[i + 1].start
  }

  /** The shape of table the search is designed for. */
  predicate WellFormed(es: seq<Entry>)
  {
    SortedByStart(es) && NonOverlapping(es)
  }

  /** Reference classification by a left-to-right scan: the status of the
      first entry containing ip, or `NotFound` when no entry contains it. */
  function Lookup(es: seq<Entry>, ip: int): Json
  {
    if |es| == 0 then NotFound
    else if Contains(es[0], ip) then es[0].isBlocked
    else Lookup(es[1..], ip)
  }

  /** The scan answers `NotFound` when no range contains ip, and otherwise the
      status of the first range that does. */
  lemma {:induction false} LookupSpec(es: seq<Entry>, ip: int)
    ensures (forall i :: 0 <= i < |es| ==> !Contains(es[i], ip)) ==> Lookup(es, ip) == NotFound
    ensures forall i :: 0 <= i < |es| && Contains(es[i], ip) && (forall j :: 0 <= j < i ==> !Contains(es[j], ip))
              ==> Lookup(es, ip) == es[i].isBlocked
  {
    if |es| > 0 {
      LookupSpec(es[1..], ip);
      if !Contains(es[0], ip) {
        forall i | 0 < i < |es| && Contains(es[i], ip) && (forall j :: 0 <= j < i ==> !Contains(es[j], ip))
          ensures Lookup(es, ip) == es[i].isBlocked
        {
          assert es[1..][i - 1] == es[i];
          forall j | 0 <= j < i - 1
            ensures !Contains(es[1..][j], ip)
          {
            assert es[1..][j] == es[j + 1];
          }
        }
      }
    }
  }

  /** In a well-formed table an address lies in at most one range. */
  lemma AtMostOneContains(es: seq<Entry>, ip: int, i: int, j: int)
    requires WellFormed(es)
    requires 0 <= i < j < |es|
    requires Contains(es[i], ip)
    ensures !Contains(es[j], ip)
  {
    assert es[i].end < es[i + 1].start <= es[j].start;
  }

  /** Every entry to the left of an entry starting at or below ip ends below
      ip, apart from that entry itself. */
  lemma LeftOfProbeMisses(es: seq<Entry>, ip: int, mid: int)
    requires WellFormed(es)
    requires 0 <= mid < |es| && es[mid].start <= ip
    ensures forall j :: 0 <= j < mid ==> !Contains(es[j], ip)
  {
    forall j | 0 <= j < mid
      ensures !Contains(es[j], ip)
    {
      assert es[j].end < es[j + 1].start <= es[mid].start;
    }
  }

  /** The search of index.js:30-47.
      Sound on any table: a result other than 2 is the status of some entry
      that contains ip. Complete on a well-formed table: it returns the status
      of the range containing ip, and 2 when there is none. */
  method BinarySearch(data: seq<Entry>, ip: int) returns (r: Json)
    ensures r == NotFound || exists i :: 0 <= i < |data| && Contains(data[i], ip) && r == data[i].isBlocked
    ensures WellFormed(data) ==> r == Lookup(data, ip)
    ensures WellFormed(data) && (forall i :: 0 <= i < |data| ==> data[i].isBlocked != NotFound) ==>
      (r == NotFound <==> forall i :: 0 <= i < |data| ==> !Contains(data[i], ip))
  {
    var low := 0;
    var high := |data| - 1;
    while low <= high
      invariant 0 <= low <= |data|
      invariant -1 <= high < |data|
      invariant WellFormed(data) ==>
        forall j :: 0 <= j < |data| && (j < low || high < j) ==> !Contains(data[j], ip)
      decreases high - low
    {
      var mid := (low + high) / 2;
      if ip < data[mid].start {
        high := mid - 1;
      } else if ip > data[mid].end {
        if WellFormed(data) {
          LeftOfProbeMisses(data, ip, mid);
        }
        low := mid + 1;
      } else {
        if WellFormed(data) {
          LeftOfProbeMisses(data, ip, mid);
          LookupSpec(data, ip);
        }
        return data[mid].isBlocked;
      }
    }
    LookupSpec(data, ip);
    return NotFound;
  }
}
