/** The block table of index.js: the records the blocking API returns, the
    entries `fetchAndCacheBlockData` builds from them (index.js:14-18), and the
    atomic replacement of `blockData` (index.js:8-22). */
module BlockTable {
  import opened Wrappers
  import opened IpCodec

  /** A JSON value as decoded from the API. Only the shapes the router can
      tell apart are kept: booleans, (integral) numbers, strings, and
      null/absent, which the strict comparisons treat alike. */
  datatype Json = JBool(b: bool) | JNum(n: int) | JStr(s: string) | JNull

  /** One element of the API's array. An address field is `None` when it is
      not a string (absent, null, a number, ...): calling `split` on it throws. */
  datatype RawRecord = RawRecord(startip: Option<Octets>, endip: Option<Octets>, isBlocked: Json)

  /** One element of `blockData`: both bounds inclusive, status kept raw. */
  datatype Entry = Entry(start: int, end: int, isBlocked: Json)

  /** The per-record arrow function of index.js:14-18; `None` means it threw. */
  function ToEntry(r: RawRecord): (e: Option<Entry>)
    ensures e.Some? <==> r.startip.Some? && r.endip.Some?
    ensures e.Some? ==>
      && e.value.start == IpToLong(r.startip.value)
      && e.value.end == IpToLong(r.endip.value)
      && e.value.isBlocked == r.isBlocked
  {
    match (r.startip, r.endip)
    case (Some(s), Some(t)) => Some(Entry(IpToLong(s), IpToLong(t), r.isBlocked))
    case _ => None
  }

  /** `Array.prototype.map` with the arrow above: the first record that throws
      aborts the whole map. */
  function ConvertAll(rs: seq<RawRecord>): (es: Option<seq<Entry>>)
    ensures es.Some? <==> forall i :: 0 <= i < |rs| ==> ToEntry(rs[i]).Some?
    ensures es.Some? ==> |es.value| == |rs|
    ensures es.Some? ==> forall i :: 0 <= i < |rs| ==> es.value[i] == ToEntry(rs[i]).value
  {
    if |rs| == 0 then Some([])
    else
      match ToEntry(rs[0])
      case None => None
      case Some(e) =>
        match ConvertAll(rs[1..])
        case None => None
        case Some(tail) => Some([e] + tail)
  }

  /** Ascending by `start`, the order the comparator `a.start - b.start` asks for. */
  predicate SortedByStart(es: seq<Entry>)
  {
    forall i, j :: 0 <= i < j < |es| ==> es[i].start <= es[j].start
  }

  /** The entries whose start is k, in their order of appearance. A sort is
      stable exactly when it keeps every one of these sub-sequences. */
  function WithStart(es: seq<Entry>, k: int): (r: seq<Entry>)
    ensures |r| <= |es|
  {
    if |es| == 0 then []
    else (if es[0].start == k then [es[0]] else []) + WithStart(es[1..], k)
  }

  /** Inserts e into a table sorted by start, after every entry whose start
      is not greater than e's. */
  function Insert(es: seq<Entry>, e: Entry): (r: seq<Entry>)
    requires SortedByStart(es)
    ensures SortedByStart(r)
    ensures multiset(r) == multiset(es) + multiset{e}
    ensures |r| == |es| + 1
    ensures r[0] == e || (|es| > 0 && r[0] == es[0])
  {
    if |es| == 0 then [e]
    else if es[0].start > e.start then [e] + es
    else
      var rest := Insert(es[1..], e);
      assert es[0].start <= rest[0].start;
      assert multiset(es) == multiset([es[0]]) + multiset(es[1..]) by {
        assert es == [es[0]] + es[1..];
      }
      [es[0]] + rest
  }

  /** The stable sort of index.js:18, as insertion of each entry in input order. */
  function SortByStart(es: seq<Entry>): (r: seq<Entry>)
    ensures SortedByStart(r)
    ensures multiset(r) == multiset(es)
    ensures |r| == |es|
  {
    if |es| == 0 then []
    else
      var p := es[..|es| - 1];
      assert es == p + [es[|es| - 1]];
      Insert(SortByStart(p), es[|es| - 1])
  }

  lemma {:induction false} WithStartConcat(a: seq<Entry>, b: seq<Entry>, k: int)
    ensures WithStart(a + b, k) == WithStart(a, k) + WithStart(b, k)
  {
    if |a| == 0 {
      assert a + b == b;
    } else {
      var ab := a + b;
      var h := if a[0].start == k then [a[0]] else [];
      assert ab[0] == a[0];
      assert ab[1..] == a[1..] + b;
      assert WithStart(ab, k) == h + WithStart(a[1..] + b, k);
      WithStartConcat(a[1..], b, k);
      assert WithStart(a, k) == h + WithStart(a[1..], k);
    }
  }

  /** In a table sorted by start whose first entry starts above k, nothing starts at k. */
  lemma {:induction false} NoneAtSmallerKey(es: seq<Entry>, k: int)
    requires SortedByStart(es)
    requires |es| > 0 && es[0].start > k
    ensures WithStart(es, k) == []
  {
    if |es| > 1 {
      NoneAtSmallerKey(es[1..], k);
    }
  }

  /** Insertion appends e to the run of its own key and leaves other runs alone. */
  lemma {:induction false} InsertStable(es: seq<Entry>, e: Entry, k: int)
    requires SortedByStart(es)
    ensures WithStart(Insert(es, e), k) == WithStart(es, k) + (if e.start == k then [e] else [])
  {
    if |es| == 0 {
    } else if es[0].start > e.start {
      if e.start == k {
        NoneAtSmallerKey(es, k);
      }
      assert ([e] + es)[1..] == es;
    } else {
      InsertStable(es[1..], e, k);
      assert ([es[0]] + Insert(es[1..], e))[1..] == Insert(es[1..], e);
    }
  }

  /** The sort is stable: entries with equal start keep their input order. */
  lemma {:induction false} SortStable(es: seq<Entry>, k: int)
    ensures WithStart(SortByStart(es), k) == WithStart(es, k)
  {
    if |es| > 0 {
      var p := es[..|es| - 1];
      var e := es[|es| - 1];
      SortStable(p, k);
      InsertStable(SortByStart(p), e, k);
      assert es == p + [e];
      WithStartConcat(p, [e], k);
      assert WithStart([e], k) == (if e.start == k then [e] else []) by {
        assert [e][1..] == [];
      }
    }
  }

  lemma {:induction false} WithStartNonEmpty(es: seq<Entry>, i: int)
    requires 0 <= i < |es|
    ensures WithStart(es, es[i].start) != []
  {
    if i > 0 {
      WithStartNonEmpty(es[1..], i - 1);
    }
  }

  /** Any two stable orderings of the same input coincide: a table sorted by
      start is fully determined by its per-key runs. Hence the insertion sort
      above yields exactly the array a stable library sort produces. */
  lemma {:induction false} StableSortUnique(a: seq<Entry>, b: seq<Entry>)
    requires SortedByStart(a) && SortedByStart(b)
    requires forall k :: WithStart(a, k) == WithStart(b, k)
    ensures a == b
  {
    if |a| == 0 {
      if |b| > 0 {
        WithStartNonEmpty(b, 0);
        assert false;
      }
    } else if |b| == 0 {
      WithStartNonEmpty(a, 0);
      assert false;
    } else {
      var m := a[0].start;
      var n := b[0].start;
      assert WithStart(a, m) == WithStart(b, m);
      assert WithStart(a, n) == WithStart(b, n);
      if m < n {
        NoneAtSmallerKey(b, m);
        WithStartNonEmpty(a, 0);
        assert false;
      } else if n < m {
        NoneAtSmallerKey(a, n);
        WithStartNonEmpty(b, 0);
        assert false;
      }
      assert a[0] == WithStart(a, m)[0] == WithStart(b, m)[0] == b[0];
      forall k
        ensures WithStart(a[1..], k) == WithStart(b[1..], k)
      {
        var h := if a[0].start == k then [a[0]] else [];
        assert WithStart(a, k) == h + WithStart(a[1..], k);
        assert WithStart(b, k) == h + WithStart(b[1..], k);
        assert WithStart(a[1..], k) == (h + WithStart(a[1..], k))[|h|..];
        assert WithStart(b[1..], k) == (h + WithStart(b[1..], k))[|h|..];
      }
      StableSortUnique(a[1..], b[1..]);
      assert a == [a[0]] + a[1..] && b == [b[0]] + b[1..];
    }
  }

  /** The table `fetchAndCacheBlockData` builds: mapped, then sorted. `None`
      when some record's conversion throws. */
  function BuildTable(rs: seq<RawRecord>): (t: Option<seq<Entry>>)
    ensures t.Some? <==> ConvertAll(rs).Some?
    ensures t.Some? ==> |t.value| == |rs| && SortedByStart(t.value)
    ensures t.Some? ==> multiset(t.value) == multiset(ConvertAll(rs).value)
  {
    match ConvertAll(rs)
    case None => None
    case Some(es) => Some(SortByStart(es))
  }

  /** Construction is a stable sort of the mapped records. */
  lemma BuildTableStable(rs: seq<RawRecord>, k: int)
    requires ConvertAll(rs).Some?
    ensures WithStart(BuildTable(rs).value, k) == WithStart(ConvertAll(rs).value, k)
  {
    SortStable(ConvertAll(rs).value, k);
  }

  /** `fetchAndCacheBlockData` with the HTTP outcome as a parameter: `blockData`
      is replaced only when the fetch succeeded and every record converted;
      otherwise the catch block leaves it exactly as it was. */
  function Refresh(blockData: seq<Entry>, fetched: Option<seq<RawRecord>>): (d: seq<Entry>)
    ensures fetched.None? ==> d == blockData
    ensures fetched.Some? && ConvertAll(fetched.value).None? ==> d == blockData
    ensures fetched.Some? && ConvertAll(fetched.value).Some? ==> d == BuildTable(fetched.value).value
  {
    match fetched
    case None => blockData
    case Some(rs) =>
      match BuildTable(rs)
      case None => blockData
      case Some(t) => t
  }
}
