/** Per-address statistics over the most recent transactions of an
    address: how many transactions, how much was received and sent, how
    many distinct counterparties, and the gaps between transaction times. */
module AddrStats {
  import opened Common
  import opened Transactions

  /** The decoded `rawaddr` record of one address: its `n_tx`,
      `total_received` and `total_sent` fields and its `txs` list. */
  datatype AddressRecord = AddressRecord(nTx: int, totalReceived: int, totalSent: int, txs: seq<Tx>)

  /** The statistics look at no more than this many transactions. */
  const WindowCap: nat := 50

  /** `range(min(int(n_tx), 50))` has this many elements. */
  function WindowSize(rec: AddressRecord): nat
  {
    if rec.nTx <= 0 then 0 else Min(rec.nTx, WindowCap)
  }

  /** The transactions the statistics look at: the first `min(n_tx, 50)` of
      `txs`. Raises (None) when fewer were returned. */
  function Window(rec: AddressRecord): (r: Option<seq<Tx>>)
    ensures r.Some? <==> WindowSize(rec) <= |rec.txs|
    ensures r.Some? ==> r.value <= rec.txs && |r.value| <= WindowCap
    ensures r.Some? && rec.nTx <= WindowCap ==> |r.value| == if rec.nTx <= 0 then 0 else rec.nTx
    ensures r.Some? && rec.nTx > WindowCap ==> |r.value| == WindowCap
  {
    if WindowSize(rec) <= |rec.txs| then Some(rec.txs[..WindowSize(rec)]) else None
  }

  /** `get_nodes`: one sender list and one receiver list per windowed
      transaction, flattened by the common rule (no wallet filter here). */
  function Nodes(rec: AddressRecord): (r: Option<seq<Row<Addr>>>)
    ensures r.Some? <==> WindowSize(rec) <= |rec.txs| && forall j | 0 <= j < WindowSize(rec) :: Flatten(rec.txs[j]).Some?
    ensures r.Some? ==> |r.value| == WindowSize(rec)
    ensures r.Some? ==> forall j | 0 <= j < WindowSize(rec) :: r.value[j] == Flatten(rec.txs[j]).value
  {
    match Window(rec)
    case None => None
    case Some(w) => FlattenAll(w)
  }

  /** All sender lists, concatenated (`senlist`): it holds exactly the
      addresses that are senders of some row. */
  function SenderList(rows: seq<Row<Addr>>): (r: seq<Addr>)
    ensures forall a :: a in r <==> exists j | 0 <= j < |rows| :: a in rows[j].senders
  {
    var xss := seq(|rows|, j requires 0 <= j < |rows| => rows[j].senders);
    assert forall a :: a in Concat(xss) <==> exists j | 0 <= j < |rows| :: a in rows[j].senders by {
      forall a
        ensures a in Concat(xss) <==> exists j | 0 <= j < |rows| :: a in rows[j].senders
      {
        ConcatMembership(xss, a);
        assert forall j | 0 <= j < |rows| :: xss[j] == rows[j].senders;
      }
    }
    Concat(xss)
  }

  /** All receiver lists, concatenated (`reclist`): it holds exactly the
      addresses that are receivers of some row. */
  function ReceiverList(rows: seq<Row<Addr>>): (r: seq<Addr>)
    ensures forall a :: a in r <==> exists j | 0 <= j < |rows| :: a in rows[j].receivers
  {
    var xss := seq(|rows|, j requires 0 <= j < |rows| => rows[j].receivers);
    assert forall a :: a in Concat(xss) <==> exists j | 0 <= j < |rows| :: a in rows[j].receivers by {
      forall a
        ensures a in Concat(xss) <==> exists j | 0 <= j < |rows| :: a in rows[j].receivers
      {
        ConcatMembership(xss, a);
        assert forall j | 0 <= j < |rows| :: xss[j] == rows[j].receivers;
      }
    }
    Concat(xss)
  }

  /** `n_senders`: the number of distinct sender addresses in the window.
      The self-exclusion at addrstats.py:35-36 compares the decoded record,
      not the address string, with the addresses, so it never removes
      anything and the address itself is counted when it sends. */
  function NSenders(rec: AddressRecord): (r: Option<nat>)
    ensures r.Some? <==> Nodes(rec).Some?
  {
    match Nodes(rec)
    case None => None
    case Some(rows) => Some(|Distinct(SenderList(rows))|)
  }

  /** `n_receivers`: the number of distinct receiver addresses in the
      window, with the same never-taken self-exclusion. */
  function NReceivers(rec: AddressRecord): (r: Option<nat>)
    ensures r.Some? <==> Nodes(rec).Some?
  {
    match Nodes(rec)
    case None => None
    case Some(rows) => Some(|Distinct(ReceiverList(rows))|)
  }

  /** An address is among the counted senders exactly when it sends in
      one of the windowed transactions, that is, it is the `prev_out.addr`
      of one of that transaction's first `vin_sz` inputs. */
  lemma SenderListMembership(rec: AddressRecord, a: Addr)
    requires Nodes(rec).Some?
    ensures a in Distinct(SenderList(Nodes(rec).value)) <==>
      exists j | 0 <= j < WindowSize(rec) :: a in Flatten(rec.txs[j]).value.senders
    ensures forall j | 0 <= j < WindowSize(rec) ::
      a in Flatten(rec.txs[j]).value.senders <==> exists i | 0 <= i < rec.txs[j].vinSz :: rec.txs[j].inputs[i].addr == Some(a)
  {
    var rows := Nodes(rec).value;
    var xss := seq(|rows|, j requires 0 <= j < |rows| => rows[j].senders);
    ConcatMembership(xss, a);
    assert a in Distinct(Concat(xss)) <==> a in Concat(xss);
    if a in Concat(xss) {
      var j :| 0 <= j < |xss| && a in xss[j];
      assert a in Flatten(rec.txs[j]).value.senders;
    }
    if exists j | 0 <= j < WindowSize(rec) :: a in Flatten(rec.txs[j]).value.senders {
      var j :| 0 <= j < WindowSize(rec) && a in Flatten(rec.txs[j]).value.senders;
      assert a in xss[j];
    }
    forall j | 0 <= j < WindowSize(rec)
      ensures a in Flatten(rec.txs[j]).value.senders <==> exists i | 0 <= i < rec.txs[j].vinSz :: rec.txs[j].inputs[i].addr == Some(a)
    {
      SenderMembership(rec.txs[j], a);
    }
  }

  /** An address is among the counted receivers exactly when it receives in
      one of the windowed transactions, that is, it is the `addr` of one of
      that transaction's first `vout_sz` outputs. */
  lemma ReceiverListMembership(rec: AddressRecord, a: Addr)
    requires Nodes(rec).Some?
    ensures a in Distinct(ReceiverList(Nodes(rec).value)) <==>
      exists j | 0 <= j < WindowSize(rec) :: a in Flatten(rec.txs[j]).value.receivers
    ensures forall j | 0 <= j < WindowSize(rec) ::
      a in Flatten(rec.txs[j]).value.receivers <==> exists i | 0 <= i < rec.txs[j].voutSz :: rec.txs[j].outputs[i].addr == Some(a)
  {
    var rows := Nodes(rec).value;
    var xss := seq(|rows|, j requires 0 <= j < |rows| => rows[j].receivers);
    ConcatMembership(xss, a);
    assert a in Distinct(Concat(xss)) <==> a in Concat(xss);
    if a in Concat(xss) {
      var j :| 0 <= j < |xss| && a in xss[j];
      assert a in Flatten(rec.txs[j]).value.receivers;
    }
    if exists j | 0 <= j < WindowSize(rec) :: a in Flatten(rec.txs[j]).value.receivers {
      var j :| 0 <= j < WindowSize(rec) && a in Flatten(rec.txs[j]).value.receivers;
      assert a in xss[j];
    }
    forall j | 0 <= j < WindowSize(rec)
      ensures a in Flatten(rec.txs[j]).value.receivers <==> exists i | 0 <= i < rec.txs[j].voutSz :: rec.txs[j].outputs[i].addr == Some(a)
    {
      ReceiverMembership(rec.txs[j], a);
    }
  }

  /** The distinct counts never exceed the number of senders (receivers)
      listed, and an address that sends (receives) in the window is counted
      among the senders (receivers): nothing is removed. */
  lemma CountsBound(rec: AddressRecord, a: Addr)
    requires Nodes(rec).Some?
    ensures NSenders(rec).value <= |SenderList(Nodes(rec).value)|
    ensures NReceivers(rec).value <= |ReceiverList(Nodes(rec).value)|
    ensures (exists j | 0 <= j < WindowSize(rec) :: a in Flatten(rec.txs[j]).value.senders) ==>
      NSenders(rec).value == |Distinct(SenderList(Nodes(rec).value)) - {a}| + 1
    ensures (exists j | 0 <= j < WindowSize(rec) :: a in Flatten(rec.txs[j]).value.receivers) ==>
      NReceivers(rec).value == |Distinct(ReceiverList(Nodes(rec).value)) - {a}| + 1
  {
    DistinctBound(SenderList(Nodes(rec).value));
    DistinctBound(ReceiverList(Nodes(rec).value));
    SenderListMembership(rec, a);
    ReceiverListMembership(rec, a);
  }

  /** The transaction times, in window order. */
  function Times(txs: seq<Tx>): (r: seq<int>)
    ensures |r| == |txs| && forall i | 0 <= i < |txs| :: r[i] == txs[i].time
  {
    seq(|txs|, i requires 0 <= i < |txs| => txs[i].time)
  }

  predicate Ascending(xs: seq<int>)
  {
    forall i, j | 0 <= i < j < |xs| :: xs[i] <= xs[j]
  }

  /** The tail of an ascending list is ascending, and no element of it is
      smaller than the head. */
  lemma AscendingTail(xs: seq<int>)
    requires Ascending(xs) && |xs| > 0
    ensures Ascending(xs[1..])
    ensures forall y | y in xs[1..] :: xs[0] <= y
  {
    forall i, j | 0 <= i < j < |xs| - 1
      ensures xs[1..][i] <= xs[1..][j]
    {
      assert xs[1..][i] == xs[i + 1] && xs[1..][j] == xs[j + 1];
    }
  }

  lemma AscendingCons(h: int, r: seq<int>)
    requires Ascending(r) && forall y | y in r :: h <= y
    ensures Ascending([h] + r)
  {
    var c := [h] + r;
    forall i, j | 0 <= i < j < |c|
      ensures c[i] <= c[j]
    {
      assert c[j] == r[j - 1];
      if i > 0 {
        assert c[i] == r[i - 1];
      } else {
        assert r[j - 1] in r;
      }
    }
  }

  /** Inserts `x` before the first element not smaller than it. */
  function Insert(x: int, xs: seq<int>): (r: seq<int>)
    requires Ascending(xs)
    ensures Ascending(r)
    ensures multiset(r) == multiset(xs) + multiset{x}
  {
    if |xs| == 0 then [x]
    else if x <= xs[0] then
      AscendingTail(xs);
      assert xs == [xs[0]] + xs[1..];
      AscendingCons(x, xs);
      [x] + xs
    else
      AscendingTail(xs);
      assert xs == [xs[0]] + xs[1..];
      var rest := Insert(x, xs[1..]);
      assert forall y | y in rest :: y in multiset(rest);
      AscendingCons(xs[0], rest);
      [xs[0]] + rest
  }

  /** `sorted(xs)`: ascending order. */
  function Sort(xs: seq<int>): (r: seq<int>)
    ensures Ascending(r)
    ensures multiset(r) == multiset(xs)
  {
    if |xs| == 0 then []
    else
      assert xs == [xs[0]] + xs[1..];
      Insert(xs[0], Sort(xs[1..]))
  }

  /** The head of an ascending list is its least element. */
  lemma AscendingHead(a: seq<int>, y: int)
    requires Ascending(a) && |a| > 0 && y in multiset(a)
    ensures a[0] <= y
  {
    var i :| 0 <= i < |a| && a[i] == y;
  }

  lemma MultisetTail(a: seq<int>)
    requires |a| > 0
    ensures multiset(a[1..]) == multiset(a) - multiset{a[0]}
  {
    assert a == [a[0]] + a[1..];
  }

  /** Two ascending lists with the same elements are equal, so `sorted`
      has exactly one possible result. */
  lemma {:induction false} AscendingUnique(a: seq<int>, b: seq<int>)
    requires Ascending(a) && Ascending(b) && multiset(a) == multiset(b)
    ensures a == b
  {
    assert |a| == |multiset(a)| == |multiset(b)| == |b|;
    if |a| > 0 {
      assert b[0] in multiset(a) && a[0] in multiset(b);
      AscendingHead(a, b[0]);
      AscendingHead(b, a[0]);
      assert a[0] == b[0];
      MultisetTail(a);
      MultisetTail(b);
      AscendingTail(a);
      AscendingTail(b);
      AscendingUnique(a[1..], b[1..]);
      assert a == [a[0]] + a[1..] && b == [b[0]] + b[1..];
    }
  }

  /** The differences between consecutive elements, each later element
      minus the one before it; empty for a list of at most one element. */
  function Gaps(xs: seq<int>): (r: seq<int>)
    ensures |r| == if |xs| == 0 then 0 else |xs| - 1
    ensures forall i | 0 <= i < |r| :: r[i] == xs[i + 1] - xs[i]
  {
    if |xs| <= 1 then [] else seq(|xs| - 1, i requires 0 <= i < |xs| - 1 => xs[i + 1] - xs[i])
  }

  function Sum(xs: seq<int>): int
  {
    if |xs| == 0 then 0 else Sum(xs[..|xs| - 1]) + xs[|xs| - 1]
  }

  function MaxOf(xs: seq<int>): (m: int)
    requires |xs| > 0
    ensures m in xs && forall x | x in xs :: x <= m
  {
    if |xs| == 1 then xs[0]
    else
      var m := MaxOf(xs[1..]);
      assert forall x | x in xs :: x == xs[0] || x in xs[1..];
      if xs[0] >= m then xs[0] else m
  }

  function MinOf(xs: seq<int>): (m: int)
    requires |xs| > 0
    ensures m in xs && forall x | x in xs :: m <= x
  {
    if |xs| == 1 then xs[0]
    else
      var m := MinOf(xs[1..]);
      assert forall x | x in xs :: x == xs[0] || x in xs[1..];
      if xs[0] <= m then xs[0] else m
  }

  /** The average gap of a sorted time list: 0 for one transaction,
      otherwise the sum of the gaps over the larger of 1 and the number of
      gaps, in true division. It is the mean of the gaps, and 0 when there
      is no gap at all. */
  function AvgGap(ts: seq<int>): (r: real)
    ensures |ts| <= 1 ==> r == 0.0
    ensures |ts| >= 2 ==> r * ((|ts| - 1) as real) == Sum(Gaps(ts)) as real
  {
    if |ts| == 1 then 0.0
    else (Sum(Gaps(ts)) as real) / ((if |ts| - 1 >= 1 then |ts| - 1 else 1) as real)
  }

  /** The largest gap: 0 for one transaction; raises (None) on an empty
      list, where `max([])` is an error. */
  function MaxGap(ts: seq<int>): (r: Option<int>)
    ensures r.None? <==> |ts| == 0
  {
    if |ts| == 1 then Some(0)
    else if |Gaps(ts)| == 0 then None
    else Some(MaxOf(Gaps(ts)))
  }

  /** The smallest gap, with the same special cases. */
  function MinGap(ts: seq<int>): (r: Option<int>)
    ensures r.None? <==> |ts| == 0
  {
    if |ts| == 1 then Some(0)
    else if |Gaps(ts)| == 0 then None
    else Some(MinOf(Gaps(ts)))
  }

  /** The sorted times of the window. */
  function SortedTimes(rec: AddressRecord): (r: Option<seq<int>>)
    ensures r.Some? <==> Window(rec).Some?
    ensures r.Some? ==> Ascending(r.value) && multiset(r.value) == multiset(Times(Window(rec).value))
  {
    match Window(rec)
    case None => None
    case Some(w) => Some(Sort(Times(w)))
  }

  /** `avg_timebtwtx`. */
  function AvgTimeBetween(rec: AddressRecord): (r: Option<real>)
    ensures r.Some? <==> Window(rec).Some?
  {
    match SortedTimes(rec)
    case None => None
    case Some(ts) => Some(AvgGap(ts))
  }

  /** `max_timebtwtx`. */
  function MaxTimeBetween(rec: AddressRecord): (r: Option<int>)
    ensures r.Some? <==> Window(rec).Some? && WindowSize(rec) > 0
  {
    match SortedTimes(rec)
    case None => None
    case Some(ts) => MaxGap(ts)
  }

  /** `min_timebtwtx`. */
  function MinTimeBetween(rec: AddressRecord): (r: Option<int>)
    ensures r.Some? <==> Window(rec).Some? && WindowSize(rec) > 0
  {
    match SortedTimes(rec)
    case None => None
    case Some(ts) => MinGap(ts)
  }

  /** The gaps of a list add up to the distance from its first element to
      its last. */
  lemma {:induction false} GapsTelescope(xs: seq<int>)
    requires |xs| > 0
    ensures Sum(Gaps(xs)) == xs[|xs| - 1] - xs[0]
  {
    if |xs| > 1 {
      var k := |xs| - 1;
      var g := Gaps(xs);
      GapsTelescope(xs[..k]);
      assert g[..k - 1] == Gaps(xs[..k]) by {
        forall i | 0 <= i < k - 1
          ensures g[..k - 1][i] == Gaps(xs[..k])[i]
        {
          assert xs[..k][i] == xs[i] && xs[..k][i + 1] == xs[i + 1];
        }
      }
      assert Sum(g) == Sum(g[..k - 1]) + g[k - 1];
    }
  }

  /** The average gap is the time span of the window over the number of
      gaps. */
  lemma AvgIsSpan(ts: seq<int>)
    requires |ts| >= 2
    ensures AvgGap(ts) == ((ts[|ts| - 1] - ts[0]) as real) / ((|ts| - 1) as real)
  {
    GapsTelescope(ts);
  }

  lemma {:induction false} SumBounds(xs: seq<int>, lo: int, hi: int)
    requires forall x | x in xs :: lo <= x <= hi
    ensures |xs| * lo <= Sum(xs) <= |xs| * hi
  {
    if |xs| > 0 {
      var k := |xs| - 1;
      assert forall x | x in xs[..k] :: x in xs;
      SumBounds(xs[..k], lo, hi);
      assert xs[k] in xs;
      assert |xs| * lo == k * lo + lo && |xs| * hi == k * hi + hi;
    }
  }

  /** On sorted times with at least two transactions, every gap is
      non-negative and the average lies between the smallest and the
      largest gap. */
  lemma GapOrder(ts: seq<int>)
    requires Ascending(ts) && |ts| >= 2
    ensures 0 <= MinGap(ts).value
    ensures (MinGap(ts).value as real) <= AvgGap(ts) <= (MaxGap(ts).value as real)
  {
    var g := Gaps(ts);
    assert g[0] in g;
    SumBounds(g, MinOf(g), MaxOf(g));
    AverageBetween(Sum(g), |ts| - 1, MinOf(g), MaxOf(g));
  }

  /** A mean lies between the bounds of what it averages. */
  lemma AverageBetween(s: int, k: int, lo: int, hi: int)
    requires k > 0 && k * lo <= s <= k * hi
    ensures (lo as real) <= (s as real) / (k as real) <= (hi as real)
  {
    var q := (s as real) / (k as real);
    assert q * (k as real) == s as real;
    assert (k * lo) as real == (k as real) * (lo as real);
    assert (k * hi) as real == (k as real) * (hi as real);
  }

  /** A window of one transaction has all three gap statistics 0. */
  lemma SingleTransaction(rec: AddressRecord)
    requires Window(rec).Some? && WindowSize(rec) == 1
    ensures AvgTimeBetween(rec) == Some(0.0)
    ensures MaxTimeBetween(rec) == Some(0)
    ensures MinTimeBetween(rec) == Some(0)
  {
    assert |SortedTimes(rec).value| == |multiset(Times(Window(rec).value))| == 1;
  }

  /** An empty window (`n_tx` is 0): the average is the empty sum over 1,
      that is 0, while the largest and the smallest gap raise. */
  lemma EmptyWindow(rec: AddressRecord)
    requires rec.nTx <= 0
    ensures AvgTimeBetween(rec) == Some(0.0)
    ensures MaxTimeBetween(rec).None? && MinTimeBetween(rec).None?
  {
  }

  /** Transactions at times 150, 100 and 140 are sorted to 100, 140, 150. */
  lemma SortExample()
    ensures Sort([150, 100, 140]) == [100, 140, 150]
  {
    assert [150, 100, 140][1..] == [100, 140] && [100, 140][1..] == [140] && [140][1..] == [];
    assert Sort([100, 140]) == Insert(100, [140]) == [100, 140];
    InsertLast();
  }

  lemma InsertLast()
    ensures Insert(150, [100, 140]) == [100, 140, 150]
  {
    assert [100, 140][1..] == [140] && [140][1..] == [];
    var r := Insert(150, [140]);
    assert r == [140] + Insert(150, []) == [140, 150];
  }

  /** Times 100, 140, 150 have gaps 40 and 10: average 25, largest 40,
      smallest 10. */
  lemma GapExample()
    ensures AvgGap([100, 140, 150]) == 25.0
    ensures MaxGap([100, 140, 150]) == Some(40)
    ensures MinGap([100, 140, 150]) == Some(10)
  {
    var g := Gaps([100, 140, 150]);
    assert g == [40, 10];
    assert g[..1] == [40] && g[..1][..0] == [];
    assert Sum(g) == 50;
    assert g[1..] == [10];
  }

  /** The result of `stats`, in its fixed order. */
  datatype Stats = Stats(
    nTx: int, totReceived: int, totSent: int,
    nSenders: nat, nReceivers: nat,
    avgTimeBetween: real, maxTimeBetween: int, minTimeBetween: int)

  /** `stats`: raises when any one statistic raises. */
  function AddressStats(rec: AddressRecord): (r: Option<Stats>)
    ensures r.Some? <==> Nodes(rec).Some? && WindowSize(rec) > 0
    ensures r.Some? ==> r.value.nTx == rec.nTx && r.value.totReceived == rec.totalReceived && r.value.totSent == rec.totalSent
    ensures r.Some? ==> r.value.nSenders == NSenders(rec).value && r.value.nReceivers == NReceivers(rec).value
    ensures r.Some? ==> r.value.avgTimeBetween == AvgTimeBetween(rec).value
    ensures r.Some? ==> r.value.maxTimeBetween == MaxTimeBetween(rec).value && r.value.minTimeBetween == MinTimeBetween(rec).value
  {
    match (NSenders(rec), NReceivers(rec), AvgTimeBetween(rec), MaxTimeBetween(rec), MinTimeBetween(rec))
    case (Some(s), Some(v), Some(avg), Some(hi), Some(lo)) =>
      Some(Stats(rec.nTx, rec.totalReceived, rec.totalSent, s, v, avg, hi, lo))
    case _ => None
  }

  /** Whenever `stats` succeeds, its gap statistics are ordered:
      0 <= min <= avg <= max. */
  lemma StatsGapOrder(rec: AddressRecord)
    requires AddressStats(rec).Some?
    ensures 0 <= AddressStats(rec).value.minTimeBetween
    ensures (AddressStats(rec).value.minTimeBetween as real) <= AddressStats(rec).value.avgTimeBetween
    ensures AddressStats(rec).value.avgTimeBetween <= (AddressStats(rec).value.maxTimeBetween as real)
  {
    var ts := SortedTimes(rec).value;
    assert |ts| == |multiset(Times(Window(rec).value))| == WindowSize(rec);
    if |ts| >= 2 {
      GapOrder(ts);
    }
  }
}
