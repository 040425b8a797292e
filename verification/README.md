# Bitcoin address and block graphs, modelled in Dafny

This project models the data-shaping core of a small Bitcoin explorer.
The explorer fetches transaction records of an address or a block from a
blockchain explorer's JSON API and turns them into three things:

- sender/receiver edge lists (multigraphs) for drawing;
- a depth-bounded, sampled crawl of an address's neighbourhood;
- per-address statistics.

The model works on the decoded records. A transaction (`Transactions.Tx`)
is its inputs, its outputs, the `vin_sz`/`vout_sz` counts the code
iterates up to, and its `time`. The places where the Python code
can raise that the model represents (a missing `prev_out` or `addr`, an
index past the end of a list, a failed request, an empty frame handed to
the scaler) become `None` of `Common.Option`.

The modules follow the program:

- `Transactions` (transactions.dfy): the flattening rule shared by every
  view. A transaction becomes its senders (the `prev_out.addr` of the first
  `vin_sz` inputs) and its receivers (the addressed outputs among the
  first `vout_sz`, in order).
- `Edges` (edges.dfy): the per-transaction cross product of senders and
  receivers, concatenated without deduplication, and `wallet_filter`.
- `AddressVisualization` (address_visualization.dfy): `get_nodes`,
  `make_df`, `make_df2`, the two crawls and `networkdf`.
- `CrawlTrace` and `Crawler` (crawl_trace.dfy, crawler.dfy): the crawl
  loop shared by `make_df_ofdepth_sampling` and
  `make_df2_ofdepth_sampling`. It is generic in the row type. The fetch is
  an oracle `Addr -> Option<...>`, and `df.sample` is a nondeterministic
  choice of `min(len, S)` rows. Besides the frame, the crawl returns a
  trace of its rounds and expansions, so that the contracts can speak
  about snapshots, the visited set and the 500-row ceiling.
- `AddrStats` (addr_stats.dfy): `BitcoinAddress.get_nodes`, the distinct
  counterparty counts, the time-gap statistics and `stats`.
- `BlockGraph` (block_graph.dfy): `BitcoinBlock.get_addresses` and the
  block reshaping and multigraph of the web application's `figure()`.

One place where the code does something other than its evident intent
is modelled as written: `n_senders` and `n_receivers` try to drop the
address itself from the counts. The test compares against `self.address`,
which is the decoded JSON record, not the address string. It never
matches, so the address is counted among the senders whenever it sends,
and among the receivers whenever it receives (`AddrStats.CountsBound`).

## Model

| member | source | states |
|---|---|---|
| Transactions.SendEntries | BTCAddressVisualization.py:87-88 | the valued sender list raises exactly when fewer than `vin_sz` inputs exist or one lacks `prev_out.addr`; otherwise it has `vin_sz` entries, entry i being input i's address and value |
| Transactions.ReceiveEntries | BTCAddressVisualization.py:89-90 | the valued receiver list raises only when fewer than `vout_sz` outputs exist; it holds at most `vout_sz` entries, each an addressed output among the first `vout_sz`, and every such output appears |
| Transactions.AddressedMembership | BTCAddressVisualization.py:51 | an output contributes a receiver exactly when it carries an `addr`; nothing else is produced |
| Transactions.AddressedAppend | BTCAddressVisualization.py:51 | outputs are filtered independently, so receivers keep the outputs' order |
| Transactions.AddressedLength | BTCAddressVisualization.py:51 | filtering never adds receivers |
| Transactions.Senders | BTCAddressVisualization.py:49 | the sender list is defined exactly when the inputs are readable; it has length `vin_sz`, element i being input i's address |
| Transactions.Receivers | BTCAddressVisualization.py:51 | the receiver list is defined exactly when `vout_sz` outputs exist, and every receiver is the `addr` of one of the first `vout_sz` outputs |
| Transactions.Flatten | BTCAddressVisualization.py:49-51 | a transaction flattens exactly when both sides are readable, with `vin_sz` senders and the addressed outputs as receivers |
| Transactions.FlattenAll | BTCAddressVisualization.py:49-52 | the comprehension over all transactions fails exactly when one transaction fails, and keeps one row per transaction in order |
| Transactions.FlattenAllEntries | BTCAddressVisualization.py:87-90 | the same for the valued lists of `make_df2` |
| Transactions.FlattenEntries | BTCAddressVisualization.py:87-90 | one transaction's valued lists exist exactly when its inputs and outputs are readable; there are `vin_sz` sender entries, entry i being input i's address and value, and the receiver entries are the addressed outputs among the first `vout_sz`, in order |
| Transactions.SenderMembership | addrstats.py:25-26 | an address is a sender of a transaction exactly when one of its first `vin_sz` inputs spends from it |
| Transactions.ReceiverMembership | addrstats.py:27-28 | an address is a receiver exactly when one of the first `vout_sz` outputs carries it |
| Transactions.DistinctBound | addrstats.py:34 | `set(senlist)` has no more elements than the list |
| Edges.Fan | BTCAddressVisualization.py:62 | one edge per receiver, each leaving the given sender and reaching one of the receivers |
| Edges.Cross | BTCAddressVisualization.py:61-62 | the edges of one transaction (also the comprehensions at line 91 and in the block view) leave one of its senders and reach one of its receivers, and there are none exactly when it has no sender or no receiver |
| Edges.Product | BTCAddressVisualization.py:60-62 | every edge of the concatenated list is drawn by one single row: its tail is a sender and its head a receiver of that row |
| Edges.WalletFilter | BTCAddressVisualization.py:34-42 | row count kept; a row receiving the target gets receivers `[target]` with its senders unchanged; otherwise a row sending it gets senders `[target]` with its receivers unchanged; every other row is unchanged |
| Edges.FilterRow | BTCAddressVisualization.py:36-41 | the filter of one row keeps on which sides the target is; at most one side changes, and a changed side becomes `[target]`; no side grows |
| Edges.WalletFilterIdempotent | BTCAddressVisualization.py:34-42 | filtering twice equals filtering once |
| Edges.FilteredEdgesTouchTarget | BTCAddressVisualization.py:36-39 | every edge a filtered row yields starts or ends at the target when the target takes part in that row |
| Edges.CrossSize | BTCAddressVisualization.py:61-62 | one transaction yields len(senders) * len(receivers) edges |
| Edges.ProductSize | BTCAddressVisualization.py:60-62 | the edge list has exactly the sum over rows of len(senders) * len(receivers) edges |
| Edges.CrossMultiplicity | BTCAddressVisualization.py:61-62 | within one transaction, edge (a, b) occurs (occurrences of a among senders) * (occurrences of b among receivers) times |
| Edges.ProductMultiplicity | BTCAddressVisualization.py:60-62 | each edge occurs exactly as often as the reference multiplicity summed over rows: no deduplication, self-loops kept |
| Edges.CrossMembership | BTCAddressVisualization.py:61-62 | (a, b) is an edge of one transaction exactly when a sends and b receives in it |
| Edges.ProductMembership | BTCAddressVisualization.py:60-62 | (a, b) is an edge exactly when a sends and b receives in one single row |
| Edges.TwoByTwoExample | BTCAddressVisualization.py:60-62 | senders A, B and receivers C, D give A->C, A->D, B->C, B->D in that order |
| AddressVisualization.GetNodes | BTCAddressVisualization.py:45-55 | fails exactly when the fetch fails or a transaction cannot be flattened; otherwise row j is transaction j flattened and then filtered for the wallet |
| AddressVisualization.MakeDf | BTCAddressVisualization.py:58-62 | `make_df` fails exactly when `get_nodes` does |
| AddressVisualization.MakeDfEdges | BTCAddressVisualization.py:58-62 | edge count equals the sum of len(senders) * len(receivers) over the filtered rows; (a, b) is an edge exactly when one filtered row has a as sender and b as receiver; edges of rows involving the wallet touch the wallet |
| AddressVisualization.GetNodesKeepsWallet | BTCAddressVisualization.py:54 | after filtering, the wallet is on a side of row j exactly when it was before |
| AddressVisualization.Touching | BTCAddressVisualization.py:95 | the row filter keeps only rows whose sender or recipient is the address |
| AddressVisualization.TouchingMultiplicity | BTCAddressVisualization.py:95 | every touching row is kept with its multiplicity, every other row dropped |
| AddressVisualization.MakeDf2 | BTCAddressVisualization.py:83-95 | every returned row has the address as sender or recipient |
| AddressVisualization.SizeZero | BTCAddressVisualization.py:91-93 | the product frame is empty exactly when every transaction lacks senders or receivers (the case where the scaler raises) |
| AddressVisualization.MakeDf2Fails | BTCAddressVisualization.py:85-93 | `make_df2` fails exactly when the fetch fails, a transaction cannot be read, or the product frame is empty |
| AddressVisualization.MakeDf2Rows | BTCAddressVisualization.py:87-95 | a row is returned exactly when it touches the address and pairs an input's address and value with an output's address and value of one transaction; multiplicities are kept |
| AddressVisualization.Origin | BTCAddressVisualization.py:117-118 | the flag is 0 or 1, and 1 exactly when the row's sender or recipient is the address |
| AddressVisualization.MakeDfOfDepthSampling | BTCAddressVisualization.py:66-81 | fails exactly when the seed's own `make_df` fails; the result is a consistent, complete crawl of `max(depth, 0)` rounds, and every row comes from `make_df` of the seed or of an expanded address |
| AddressVisualization.MakeDf2OfDepthSampling | BTCAddressVisualization.py:98-113 | the same for `make_df2` with the ceiling: each round expands every unvisited address of its snapshot unless the frame had 500 rows by the end of that round; fewer than 500 + S rows; every row touches the seed or an expanded address |
| AddressVisualization.NetworkDf | BTCAddressVisualization.py:115-121 | fails exactly when the seed's `make_df2` fails; otherwise returns, alongside the rows, a trace of the bounded crawl that is consistent, has `max(depth, 0)` complete rounds, and whose frame row i is the link of row i; fewer than 500 + S rows, each flagged 1 exactly when it touches the address; the first min(len, S) rows are rows of the seed's own `make_df2` frame, all flagged 1 |
| AddressVisualization.SeedRowsTouch | BTCAddressVisualization.py:101-102 | the frame opens with the seed's sample of min(len, S) rows, each a row of the seed's own `make_df2` frame and touching the seed |
| CrawlTrace.SizeBeforeAll | BTCAddressVisualization.py:77 | once every expansion belongs to earlier rounds, the rows appended before the current round are all the appended rows |
| CrawlTrace.AppendConsistent | BTCAddressVisualization.py:73-77 | expanding an unvisited snapshot address (below the ceiling in the bounded variant) keeps every crawl invariant |
| CrawlTrace.StartRoundConsistent | BTCAddressVisualization.py:71-72 | starting a round with a fresh snapshot keeps every crawl invariant |
| CrawlTrace.StartRoundComplete | BTCAddressVisualization.py:71-72 | starting a round keeps the finished rounds complete |
| CrawlTrace.VisitedWasExpanded | BTCAddressVisualization.py:73-74 | a visited address other than the seed was expanded by the current round, so it is never expanded twice |
| CrawlTrace.ReachableConsistent | BTCAddressVisualization.py:67-80 | every state the loop can reach is consistent: the frame is the seed's sample plus each expansion's sample; each address is expanded at most once and never the seed; rounds expand only their snapshot's addresses; the bounded variant starts expansions only below 500 rows |
| CrawlTrace.FlatMembership | BTCAddressVisualization.py:77 | every appended row belongs to the sample of one expansion |
| CrawlTrace.FrameProvenance | BTCAddressVisualization.py:69-77 | every row of the frame was drawn from the frame of the seed or of an expanded address |
| Crawler.Sample | BTCAddressVisualization.py:70 | `df.sample(n)` returns n rows drawn without replacement from the frame |
| Crawler.Visit | BTCAddressVisualization.py:73-79 | a visited address is skipped; otherwise (below the ceiling) it is marked visited and expanded once, failure appending nothing; afterwards it is the seed, expanded, or the ceiling was reached |
| Crawler.VisitPending | BTCAddressVisualization.py:72-79 | one pass of the inner loop keeps the round invariant and shrinks the pending snapshot |
| Crawler.Round | BTCAddressVisualization.py:72-80 | one round deals with every address of the snapshot taken at its start, and keeps the state reachable |
| Crawler.Crawl | BTCAddressVisualization.py:66-81 | fails exactly when the seed's frame fails; runs `max(depth, 0)` rounds, each complete: every address of a round's snapshot is the seed or expanded by that round, or (bounded variant) the frame had 500 rows by the end of that round; the result is consistent; with depth 0 the frame is just the seed's sample |
| CrawlTrace.LateExpansionIncomplete | BTCAddressVisualization.py:103-109 | a trace whose first round ends with one row and leaves a snapshot address to the second round is not complete, however large the frame grows later |
| AddrStats.Window | addrstats.py:23 | the window is the first `min(n_tx, 50)` transactions, empty for `n_tx <= 0`, and raises when fewer are listed |
| AddrStats.Nodes | addrstats.py:22-29 | one flattened row per windowed transaction; fails exactly when the window or a flattening fails |
| AddrStats.NSenders | addrstats.py:31-37 | the count fails exactly when `get_nodes` fails |
| AddrStats.SenderList | addrstats.py:33 | `senlist` holds exactly the addresses that are senders of some windowed row |
| AddrStats.NReceivers | addrstats.py:39-45 | the count fails exactly when `get_nodes` fails |
| AddrStats.ReceiverList | addrstats.py:41 | `reclist` holds exactly the addresses that are receivers of some windowed row |
| AddrStats.SenderListMembership | addrstats.py:31-37 | an address is among the counted senders exactly when one of the first `vin_sz` inputs of a windowed transaction spends from it |
| AddrStats.ReceiverListMembership | addrstats.py:39-45 | an address is among the counted receivers exactly when one of the first `vout_sz` outputs of a windowed transaction carries it |
| AddrStats.CountsBound | addrstats.py:31-45 | counts never exceed the list lengths; an address that sends is counted among the senders and one that receives among the receivers: the self-exclusion removes nothing |
| AddrStats.Times | addrstats.py:48 | the time list has one entry per windowed transaction, in order |
| AddrStats.Insert | addrstats.py:48 | inserting into an ascending list keeps it ascending and adds exactly the element |
| AddrStats.Sort | addrstats.py:48 | `sorted` returns an ascending permutation of its input |
| AddrStats.AscendingUnique | addrstats.py:48 | two ascending permutations of the same values are equal, so the sorted list is unique |
| AddrStats.SortExample | addrstats.py:48 | sorting [150, 100, 140] gives [100, 140, 150] |
| AddrStats.Gaps | addrstats.py:52 | one gap per consecutive pair, gap i being `t[i+1] - t[i]` |
| AddrStats.AvgGap | addrstats.py:49-52 | 0 for at most one time (for none, the sum of no gaps divided by 1); otherwise a value that, times the number of gaps, gives the sum of the gaps: their exact mean |
| AddrStats.MaxOf | addrstats.py:59 | `max` of a non-empty list is an element and bounds all elements |
| AddrStats.MinOf | addrstats.py:66 | `min` of a non-empty list is an element and is bounded by all elements |
| AddrStats.MaxGap | addrstats.py:55-59 | undefined exactly for an empty window |
| AddrStats.MinGap | addrstats.py:62-66 | undefined exactly for an empty window |
| AddrStats.SortedTimes | addrstats.py:48 | the windowed times, sorted: ascending and a permutation of the window's times |
| AddrStats.AvgTimeBetween | addrstats.py:47-52 | defined exactly when the window exists |
| AddrStats.MaxTimeBetween | addrstats.py:54-59 | defined exactly when the window exists and is not empty |
| AddrStats.MinTimeBetween | addrstats.py:61-66 | defined exactly when the window exists and is not empty |
| AddrStats.GapsTelescope | addrstats.py:52 | the gaps of a list sum to last minus first |
| AddrStats.AvgIsSpan | addrstats.py:52 | with at least two times, the average gap is (last - first) / (len - 1) |
| AddrStats.SumBounds | addrstats.py:52 | a sum of k values between lo and hi lies between k * lo and k * hi |
| AddrStats.AverageBetween | addrstats.py:52 | the true-division average of values between lo and hi lies between lo and hi |
| AddrStats.GapOrder | addrstats.py:52-66 | on ascending times with at least two entries: 0 <= min gap <= average gap <= max gap |
| AddrStats.SingleTransaction | addrstats.py:49-64 | a one-transaction window gives 0 for the average, the maximum and the minimum |
| AddrStats.EmptyWindow | addrstats.py:47-66 | an empty window gives average 0 (empty sum over 1) while `max` and `min` raise |
| AddrStats.GapExample | addrstats.py:47-66 | times 100, 140, 150 give average 25, maximum 40, minimum 10 |
| AddrStats.AddressStats | addrstats.py:68-74 | `stats` succeeds exactly when `get_nodes` does and the window is not empty; the first three fields pass `n_tx`, `total_received`, `total_sent` through; the others are the five statistics in order |
| AddrStats.StatsGapOrder | addrstats.py:68-74 | in a successful `stats`, 0 <= min gap <= average gap <= max gap |
| BlockGraph.SenderLists | addrstats.py:90-91 | fails exactly when a transaction after the first has unreadable inputs; entry j - 1 is the sender list of transaction j |
| BlockGraph.ReceiverLists | addrstats.py:92-93 | fails exactly when a transaction lacks `vout_sz` outputs; entry j is the receiver list of transaction j |
| BlockGraph.BlockAddresses | addrstats.py:87-94 | `get_addresses` raises exactly when the block cannot be read: too few transactions, or unreadable inputs after the coinbase, or missing outputs |
| BlockGraph.SenderListsMembership | addrstats.py:90-91 | the sender lists hold exactly the addresses spending in a non-coinbase transaction |
| BlockGraph.ReceiverListsMembership | addrstats.py:92-93 | the receiver lists hold exactly the addresses paid by some transaction |
| BlockGraph.BlockAddressesMembership | addrstats.py:87-94 | an address is returned exactly when it spends in transactions 1 .. n_tx - 1 or is paid in transactions 0 .. n_tx - 1 |
| BlockGraph.SenderListsDetermined | addrstats.py:90-91 | the sender lists depend only on transactions 1 .. n_tx - 1 |
| BlockGraph.ReceiverListsDetermined | addrstats.py:92-93 | the receiver lists depend only on the receivers of transactions 0 .. n_tx - 1 |
| BlockGraph.CoinbaseInputsIgnored | addrstats.py:90-91 | replacing the coinbase's inputs changes neither whether `get_addresses` raises nor its result |
| BlockGraph.BlockRows | app.py:76-86 | fails exactly when `get_addresses` would; one row per transaction; row 0's senders are exactly `['N/A']`, row j's senders those of transaction j, and every row's receivers those of its own transaction |
| BlockGraph.Columns | app.py:83-86 | after the index shift, row 0 holds `['N/A']` and row j the sender list of transaction j, beside the receiver list of the same transaction |
| BlockGraph.BlockEdges | app.py:89-93 | the multigraph is built exactly when the block can be read |
| BlockGraph.BlockEdgesCount | app.py:89-93 | the graph has the sum over rows of len(senders) * len(receivers) edges, each with its exact multiplicity (parallel edges kept) |
| BlockGraph.BlockEdgesMembership | app.py:90-93 | an edge is drawn exactly when one transaction draws it: its head is a receiver of that transaction, and its tail is `N/A` for the coinbase and a sender otherwise |
| BlockGraph.PlaceholderFromCoinbase | app.py:83-93 | an edge leaving `N/A` exists only with at least one transaction, and comes from the coinbase row unless a later transaction really spends from an address spelled `N/A` |
| BlockGraph.BlockEdgesWithinAddresses | app.py:90-93 | every edge's head is returned by `get_addresses`, and so is its tail unless the tail is `N/A` |
| BlockGraph.PaidAddressDrawn | app.py:90-93 | every receiver of a transaction with a sender is the head of a drawn edge whose tail is `N/A` or the first sender |
| BlockGraph.ExampleEdges | app.py:76-93 | a coinbase paying M and a transfer from A to B and M give the edges N/A->M, A->B, A->M |
| BlockGraph.ExampleAddresses | addrstats.py:87-94 | the same block's address list is {M, A, B}: the coinbase input is not read |

## Left out

- Fetching is not modelled: `get_wallet_data`, the `BitcoinAddress` and
  `BitcoinBlock` constructors, and the latest-hash and raw-block requests of
  the web application. Decoded records are inputs. The crawl's per-address
  fetch is an oracle that returns `None` where the request or the frame
  construction raised.
- Crawler.Sample: models only the size `min(len, S)` and "drawn without
  replacement" (a sub-multiset), not the random distribution.
- AddressVisualization.MakeDf2: does not produce the `Scaled_Sent` and
  `Bitcoin Sent` columns. These are floating point (the `StandardScaler` and
  the `* 0.00000001` conversion). Only the scaler's failure on an empty frame
  is kept.
- AddressVisualization.NetworkDf: its rows carry the valued edge and the
  `origin` flag, not the dropped floating-point columns.
- Rendering is not modelled: `plot`, `plot2`, `create_figure`, the HoloViews,
  Bokeh and networkx layout. The same goes for the Flask routes, the
  templates and the batch script under `data/`. `plot` reads `Senders`,
  `Receivers` and an `isoriginal` column, none of which `networkdf`
  produces (its columns are `Sender`, `Recipient` and `origin`); that code
  path is not part of this model.
- Edges.WalletFilter: assumes that the chained in-place writes
  `Z['Receivers'][i] = ...` and `Z['Senders'][i] = ...` take effect, as
  they do in pandas without copy-on-write. Under copy-on-write they are
  lost and the filter leaves the frame unchanged; that behaviour is not
  modelled.
- pandas details beyond that are not modelled: dtypes, and the exact
  exception types of the bare `except:`, which the model folds into the
  single failure case `None`.
- AddrStats.AvgTimeBetween: divides exactly, as a `real`. Python's `/`
  returns a float64 that is rounded to the nearest representable value;
  that rounding is not modelled.
- Missing fields other than `prev_out` and `addr` are not modelled: the
  inputs' `prev_out['value']`, the outputs' `value`, a transaction's
  `vin_sz`, `vout_sz` and `time`, and the record's `n_tx`,
  `total_received` and `total_sent` are assumed present. The Python code
  raises a `KeyError` when one of them is missing; the datatypes always
  carry them, so that failure cannot be expressed.
- Transactions.Tx: `vin_sz` and `vout_sz` are natural numbers. A negative
  count (an empty `range` in Python) is outside the model.
- AddrStats.MaxGap and AddrStats.MinGap: on an empty window Python's `max([])`
  and `min([])` raise. The model returns `None` there instead of excluding
  the case.
- BlockGraph.BlockRows: with `n_tx <= 0` the Python frame still holds the
  `['N/A']` row, but the drawing loop reads no row. The model has no rows.
- BlockGraph.BlockAddresses: Python returns `list(set(...))` in an unspecified
  order. The model returns the set.
- The crawl's `samplesize` is a natural number. A negative sample size (which
  pandas rejects) is outside the model.
