/** The address view: the edge list of one address's transactions
    (`get_nodes`, `make_df`), the valued and filtered edge list
    (`make_df2`), the two neighbourhood crawls built on them, and the
    `origin` flag of `networkdf`.

    Fetching is a parameter: `fetch(a)` is the `txs` list the explorer
    returns for address `a`, or None when the request or the JSON decoding
    failed. */
module AddressVisualization {
  import opened Common
  import opened Transactions
  import opened Edges
  import opened CrawlTrace
  import opened Crawler

  /** `get_nodes`: every fetched transaction flattened to addresses, then
      passed through the wallet filter for `wallet`. */
  function GetNodes(wallet: Addr, txs: Option<seq<Tx>>): (r: Option<seq<Row<Addr>>>)
    ensures r.Some? <==> txs.Some? && forall j | 0 <= j < |txs.value| :: Flatten(txs.value[j]).Some?
    ensures r.Some? ==> |r.value| == |txs.value|
    ensures r.Some? ==> forall j | 0 <= j < |txs.value| :: r.value[j] == FilterRow(wallet, Flatten(txs.value[j]).value)
  {
    match txs
    case None => None
    case Some(ts) =>
      match FlattenAll(ts)
      case None => None
      case Some(rows) => Some(WalletFilter(wallet, rows))
  }

  /** `make_df`: the edge list of the filtered rows. */
  function MakeDf(wallet: Addr, txs: Option<seq<Tx>>): (r: Option<seq<Edge>>)
    ensures r.Some? <==> GetNodes(wallet, txs).Some?
  {
    match GetNodes(wallet, txs)
    case None => None
    case Some(rows) => Some(Product(rows))
  }

  /** The edge list has one edge per (transaction, sender, receiver) of the
      filtered rows; an edge is present exactly when its two ends share a
      row; and an edge drawn from a transaction the wallet takes part in
      has the wallet at one of its ends. */
  lemma MakeDfEdges(wallet: Addr, txs: Option<seq<Tx>>, l: Edge)
    requires GetNodes(wallet, txs).Some?
    ensures |MakeDf(wallet, txs).value| == Size(GetNodes(wallet, txs).value)
    ensures l in MakeDf(wallet, txs).value <==>
      exists j | 0 <= j < |txs.value| ::
        l.src in GetNodes(wallet, txs).value[j].senders && l.dst in GetNodes(wallet, txs).value[j].receivers
    ensures forall j | 0 <= j < |txs.value| && l.src in GetNodes(wallet, txs).value[j].senders && l.dst in GetNodes(wallet, txs).value[j].receivers ::
      (wallet in Flatten(txs.value[j]).value.senders || wallet in Flatten(txs.value[j]).value.receivers) ==>
        l.src == wallet || l.dst == wallet
  {
    var rows := FlattenAll(txs.value).value;
    ProductSize(WalletFilter(wallet, rows));
    ProductMembership(WalletFilter(wallet, rows), l);
    if l in MakeDf(wallet, txs).value {
      FilteredEdgesTouchTarget(wallet, rows, l);
    }
  }

  /** The wallet filter never changes which transactions the wallet takes
      part in, so neither does `get_nodes`. */
  lemma GetNodesKeepsWallet(wallet: Addr, txs: seq<Tx>, j: int)
    requires GetNodes(wallet, Some(txs)).Some? && 0 <= j < |txs|
    ensures wallet in GetNodes(wallet, Some(txs)).value[j].senders <==> wallet in Flatten(txs[j]).value.senders
    ensures wallet in GetNodes(wallet, Some(txs)).value[j].receivers <==> wallet in Flatten(txs[j]).value.receivers
  {
    WalletFilterKeepsTarget(wallet, FlattenAll(txs).value, j);
  }

  /** A valued edge touches `address` when the address sends or receives
      on it. */
  predicate Touches(address: Addr, l: Link<Entry>)
  {
    l.src.addr == address || l.dst.addr == address
  }

  /** The row selection at the end of `make_df2`: the rows whose sender
      or recipient is `address`, in their order. */
  function Touching(address: Addr, links: seq<Link<Entry>>): (r: seq<Link<Entry>>)
    ensures |r| <= |links|
    ensures forall l | l in r :: Touches(address, l)
  {
    if |links| == 0 then []
    else (if Touches(address, links[0]) then [links[0]] else []) + Touching(address, links[1..])
  }

  /** The filter keeps every touching row with its multiplicity and drops
      every other row. */
  lemma {:induction false} TouchingMultiplicity(address: Addr, links: seq<Link<Entry>>, l: Link<Entry>)
    ensures multiset(Touching(address, links))[l] == if Touches(address, l) then multiset(links)[l] else 0
  {
    if |links| > 0 {
      TouchingMultiplicity(address, links[1..], l);
      assert links == [links[0]] + links[1..];
    }
  }

  /** `make_df2`: every fetched transaction flattened to valued entries, the
      cross product of each, kept only where `address` sends or receives.
      Scaling the `Sent` column raises on an empty frame, so an empty
      product is an error. */
  function MakeDf2(address: Addr, txs: Option<seq<Tx>>): (r: Option<seq<Link<Entry>>>)
    ensures r.Some? ==> forall l | l in r.value :: Touches(address, l)
  {
    match txs
    case None => None
    case Some(ts) =>
      match FlattenAllEntries(ts)
      case None => None
      case Some(rows) =>
        var all := Product(rows);
        if |all| == 0 then None else Some(Touching(address, all))
  }

  lemma {:induction false} SizeZero<T>(rows: seq<Row<T>>)
    ensures Size(rows) == 0 <==> forall j | 0 <= j < |rows| :: |rows[j].senders| == 0 || |rows[j].receivers| == 0
  {
    if |rows| > 0 {
      SizeZero(rows[1..]);
      assert forall j | 1 <= j < |rows| :: rows[j] == rows[1..][j - 1];
    }
  }

  /** When `make_df2` fails: the fetch failed, a transaction could not be
      read, or no transaction has both a sender and a receiver. */
  lemma MakeDf2Fails(address: Addr, txs: Option<seq<Tx>>)
    ensures MakeDf2(address, txs).None? <==>
      || txs.None?
      || (exists j | 0 <= j < |txs.value| :: FlattenEntries(txs.value[j]).None?)
      || (forall j | 0 <= j < |txs.value| ::
            FlattenEntries(txs.value[j]).value.senders == [] || FlattenEntries(txs.value[j]).value.receivers == [])
  {
    if txs.Some? && FlattenAllEntries(txs.value).Some? {
      var rows := FlattenAllEntries(txs.value).value;
      ProductSize(rows);
      SizeZero(rows);
    }
  }

  /** The rows of `make_df2`: each pairs a sending input with a receiving
      output of one and the same transaction, with their values, and
      touches `address`; every such pair that touches `address` is kept,
      as often as the product produced it. */
  lemma MakeDf2Rows(address: Addr, txs: seq<Tx>, l: Link<Entry>)
    requires MakeDf2(address, Some(txs)).Some?
    ensures l in MakeDf2(address, Some(txs)).value <==>
      && Touches(address, l)
      && exists j | 0 <= j < |txs| ::
           l.src in FlattenEntries(txs[j]).value.senders && l.dst in FlattenEntries(txs[j]).value.receivers
    ensures multiset(MakeDf2(address, Some(txs)).value)[l] ==
      if Touches(address, l) then multiset(Product(FlattenAllEntries(txs).value))[l] else 0
  {
    var rows := FlattenAllEntries(txs).value;
    var kept := MakeDf2(address, Some(txs)).value;
    assert kept == Touching(address, Product(rows));
    TouchingMultiplicity(address, Product(rows), l);
    assert l in kept <==> Touches(address, l) && l in Product(rows) by {
      assert l in kept <==> multiset(kept)[l] > 0;
      assert l in Product(rows) <==> multiset(Product(rows))[l] > 0;
    }
    ProductMembership(rows, l);
    assert forall j | 0 <= j < |txs| :: rows[j] == FlattenEntries(txs[j]).value;
  }

  /** The `origin` column of `networkdf`: 1 on rows touching the address,
      0 elsewhere (the bitwise or of two 0/1 columns). */
  function Origin(address: Addr, l: Link<Entry>): (f: int)
    ensures f == 0 || f == 1
    ensures f == 1 <==> Touches(address, l)
  {
    if Touches(address, l) then 1 else 0
  }

  /** A row of `networkdf`'s result: a valued edge and its origin flag. */
  datatype NetworkRow = NetworkRow(link: Link<Entry>, origin: int)

  /** The frames the first crawl expands with: `make_df` on each address. */
  function EdgeFrames(fetch: Addr -> Option<seq<Tx>>): Addr -> Option<seq<Edge>>
  {
    a => MakeDf(a, fetch(a))
  }

  function EdgeSrc(l: Edge): Addr { l.src }

  function EdgeDst(l: Edge): Addr { l.dst }

  /** The frames the second crawl expands with: `make_df2` on each address. */
  function EntryFrames(fetch: Addr -> Option<seq<Tx>>): Addr -> Option<seq<Link<Entry>>>
  {
    a => MakeDf2(a, fetch(a))
  }

  function EntrySrc(l: Link<Entry>): Addr { l.src.addr }

  function EntryDst(l: Link<Entry>): Addr { l.dst.addr }

  /** The configuration of `make_df_ofdepth_sampling`: no ceiling. */
  function EdgeCrawl(fetch: Addr -> Option<seq<Tx>>, wallet: Addr, samplesize: nat): Config<Edge>
  {
    Config(wallet, samplesize, false, EdgeFrames(fetch), EdgeSrc, EdgeDst)
  }

  /** The configuration of `make_df2_ofdepth_sampling`: with the ceiling. */
  function EntryCrawl(fetch: Addr -> Option<seq<Tx>>, wallet: Addr, samplesize: nat): Config<Link<Entry>>
  {
    Config(wallet, samplesize, true, EntryFrames(fetch), EntrySrc, EntryDst)
  }

  /** `make_df_ofdepth_sampling`. Besides the contract of the generic crawl:
      every edge of the result is an edge of `make_df` for the wallet or
      for an expanded address. */
  method MakeDfOfDepthSampling(fetch: Addr -> Option<seq<Tx>>, wallet: Addr, depth: int, samplesize: nat)
    returns (r: Option<Neighborhood<Edge>>)
    ensures r.None? <==> MakeDf(wallet, fetch(wallet)).None?
    ensures r.Some? ==> Consistent(EdgeCrawl(fetch, wallet, samplesize), r.value, {wallet} + LogAddrs(r.value.log))
    ensures r.Some? ==> Complete(EdgeCrawl(fetch, wallet, samplesize), r.value, |r.value.rounds|)
    ensures r.Some? ==> |r.value.rounds| == if depth > 0 then depth else 0
    ensures r.Some? ==> forall l | l in r.value.frame ::
      exists a | a in {wallet} + LogAddrs(r.value.log) :: MakeDf(a, fetch(a)).Some? && l in MakeDf(a, fetch(a)).value
  {
    var cfg := EdgeCrawl(fetch, wallet, samplesize);
    r := Crawl(cfg, depth);
    if r.Some? {
      forall l | l in r.value.frame
        ensures exists a | a in {wallet} + LogAddrs(r.value.log) :: MakeDf(a, fetch(a)).Some? && l in MakeDf(a, fetch(a)).value
      {
        FrameProvenance(cfg, r.value, l);
      }
    }
  }

  /** `make_df2_ofdepth_sampling`. Besides the contract of the generic
      crawl: the frame stays below the ceiling plus one sample, and every
      row touches the wallet or an expanded address. */
  method MakeDf2OfDepthSampling(fetch: Addr -> Option<seq<Tx>>, wallet: Addr, depth: int, samplesize: nat)
    returns (r: Option<Neighborhood<Link<Entry>>>)
    ensures r.None? <==> MakeDf2(wallet, fetch(wallet)).None?
    ensures r.Some? ==> Consistent(EntryCrawl(fetch, wallet, samplesize), r.value, {wallet} + LogAddrs(r.value.log))
    ensures r.Some? ==> Complete(EntryCrawl(fetch, wallet, samplesize), r.value, |r.value.rounds|)
    ensures r.Some? ==> |r.value.rounds| == if depth > 0 then depth else 0
    ensures r.Some? ==> |r.value.frame| < RowCeiling + samplesize
    ensures r.Some? ==> forall l | l in r.value.frame ::
      exists a | a in {wallet} + LogAddrs(r.value.log) :: Touches(a, l)
  {
    var cfg := EntryCrawl(fetch, wallet, samplesize);
    r := Crawl(cfg, depth);
    if r.Some? {
      forall l | l in r.value.frame
        ensures exists a | a in {wallet} + LogAddrs(r.value.log) :: Touches(a, l)
      {
        FrameProvenance(cfg, r.value, l);
        var a :| a in {wallet} + LogAddrs(r.value.log) && cfg.expand(a).Some? && l in cfg.expand(a).value;
        assert cfg.expand(a) == MakeDf2(a, fetch(a));
      }
    }
  }

  /** `networkdf`: the bounded crawl from `address` with the origin flag
      added. Besides the rows, the method returns the trace of the crawl
      that produced them: row i carries row i of the crawled frame, so the
      rows sampled from the address's own `make_df2` frame come first, and
      all of them carry the flag. */
  method NetworkDf(fetch: Addr -> Option<seq<Tx>>, address: Addr, depth: int, samplesize: nat)
    returns (r: Option<seq<NetworkRow>>, trace: Neighborhood<Link<Entry>>)
    ensures r.None? <==> MakeDf2(address, fetch(address)).None?
    ensures r.Some? ==> Consistent(EntryCrawl(fetch, address, samplesize), trace, {address} + LogAddrs(trace.log))
    ensures r.Some? ==> Complete(EntryCrawl(fetch, address, samplesize), trace, |trace.rounds|)
    ensures r.Some? ==> |trace.rounds| == if depth > 0 then depth else 0
    ensures r.Some? ==> |r.value| == |trace.frame| && forall i | 0 <= i < |r.value| :: r.value[i].link == trace.frame[i]
    ensures r.Some? ==> |r.value| < RowCeiling + samplesize
    ensures r.Some? ==> forall i | 0 <= i < |r.value| ::
      r.value[i].origin == if Touches(address, r.value[i].link) then 1 else 0
    ensures r.Some? ==> Min(|MakeDf2(address, fetch(address)).value|, samplesize) <= |r.value|
    ensures r.Some? ==> forall i | 0 <= i < Min(|MakeDf2(address, fetch(address)).value|, samplesize) ::
      r.value[i].link in MakeDf2(address, fetch(address)).value && r.value[i].origin == 1
  {
    var crawled := MakeDf2OfDepthSampling(fetch, address, depth, samplesize);
    if crawled.None? {
      return None, Neighborhood([], [], [], []);
    }
    trace := crawled.value;
    SeedRowsTouch(fetch, address, samplesize, trace);
    var rows := seq(|trace.frame|, i requires 0 <= i < |trace.frame| => NetworkRow(trace.frame[i], Origin(address, trace.frame[i])));
    return Some(rows), trace;
  }

  /** The frame of the bounded crawl opens with the sample of the seed's own
      `make_df2` frame, and every row of that sample touches the seed. */
  lemma SeedRowsTouch(fetch: Addr -> Option<seq<Tx>>, address: Addr, samplesize: nat, n: Neighborhood<Link<Entry>>)
    requires Assembled(EntryCrawl(fetch, address, samplesize), n)
    ensures |n.seedSample| == Min(|MakeDf2(address, fetch(address)).value|, samplesize) <= |n.frame|
    ensures forall i | 0 <= i < |n.seedSample| ::
      n.frame[i] in MakeDf2(address, fetch(address)).value && Touches(address, n.frame[i])
  {
    var cfg := EntryCrawl(fetch, address, samplesize);
    assert cfg.expand(address) == MakeDf2(address, fetch(address));
    forall i | 0 <= i < |n.seedSample|
      ensures n.frame[i] in MakeDf2(address, fetch(address)).value && Touches(address, n.frame[i])
    {
      assert n.frame[i] == n.seedSample[i];
      assert n.seedSample[i] in multiset(n.seedSample);
    }
  }
}
