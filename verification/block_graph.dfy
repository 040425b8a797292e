/** A block of the chain, as `BitcoinBlock.get_addresses` and the block
    view of the web application read it. The first `n_tx` transactions are
    flattened as everywhere else, except that the inputs of the first
    (coinbase) transaction are never read, since it spends no earlier
    output. The block view gives that transaction the placeholder sender
    "N/A" instead and draws every row as a multigraph. */
module BlockGraph {
  import opened Common
  import opened Transactions
  import opened Edges

  /** The `rawblock` record: its `n_tx` count and its `tx` list. */
  datatype Block = Block(nTx: int, txs: seq<Tx>)

  /** The sender the block view gives the coinbase transaction. */
  const Placeholder: Addr := "N/A"

  /** The number of elements of `range(n_tx)`. */
  function TxCount(b: Block): (n: nat)
    ensures b.nTx <= 0 ==> n == 0
    ensures b.nTx > 0 ==> n == b.nTx
  {
    if b.nTx <= 0 then 0 else b.nTx
  }

  /** Everything the block code reads can be read: `n_tx` transactions
      exist, each one after the first has readable inputs, and each one has
      readable outputs. */
  ghost predicate Readable(b: Block)
  {
    && TxCount(b) <= |b.txs|
    && (forall j | 1 <= j < TxCount(b) :: InputsReadable(b.txs[j]))
    && (forall j | 0 <= j < TxCount(b) :: OutputsReadable(b.txs[j]))
  }

  /** `txin`: the sender lists of transactions 1 to n_tx - 1; the list of
      transaction j sits at index j - 1. */
  function SenderLists(b: Block): (r: Option<seq<seq<Addr>>>)
    requires TxCount(b) <= |b.txs|
    ensures r.Some? <==> forall j | 1 <= j < TxCount(b) :: InputsReadable(b.txs[j])
    ensures r.Some? ==> |r.value| == if TxCount(b) == 0 then 0 else TxCount(b) - 1
    ensures r.Some? ==> forall j | 1 <= j < TxCount(b) :: r.value[j - 1] == Senders(b.txs[j]).value
  {
    var m := if TxCount(b) == 0 then 0 else TxCount(b) - 1;
    var xs := seq(m, k requires 0 <= k < m => Senders(b.txs[k + 1]));
    assert forall j | 1 <= j < TxCount(b) :: xs[j - 1] == Senders(b.txs[j]);
    AllSome(xs)
  }

  /** `txout`: the receiver lists of transactions 0 to n_tx - 1. */
  function ReceiverLists(b: Block): (r: Option<seq<seq<Addr>>>)
    requires TxCount(b) <= |b.txs|
    ensures r.Some? <==> forall j | 0 <= j < TxCount(b) :: OutputsReadable(b.txs[j])
    ensures r.Some? ==> |r.value| == TxCount(b)
    ensures r.Some? ==> forall j | 0 <= j < TxCount(b) :: r.value[j] == Receivers(b.txs[j]).value
  {
    var n := TxCount(b);
    var xs := seq(n, j requires 0 <= j < n => Receivers(b.txs[j]));
    assert forall j | 0 <= j < n :: xs[j] == Receivers(b.txs[j]);
    AllSome(xs)
  }

  /** `get_addresses`: the set of every sender of a non-coinbase
      transaction and every receiver of any transaction. The Python result
      is `list(set(...))`, whose order is unspecified, so the model returns
      the set. */
  function BlockAddresses(b: Block): (r: Option<set<Addr>>)
    ensures r.Some? <==> Readable(b)
  {
    if |b.txs| < TxCount(b) then None
    else match (SenderLists(b), ReceiverLists(b))
      case (Some(ins), Some(outs)) => Some(Distinct(Concat(ins) + Concat(outs)))
      case _ => None
  }

  /** An address spends in the block: one of the first `vin_sz` inputs of
      a non-coinbase transaction spends from it. */
  ghost predicate SpendsIn(b: Block, a: Addr)
  {
    exists j, i | 1 <= j < TxCount(b) && j < |b.txs| && 0 <= i < b.txs[j].vinSz && i < |b.txs[j].inputs| ::
      b.txs[j].inputs[i].addr == Some(a)
  }

  /** An address is paid in the block: one of the first `vout_sz` outputs
      of some transaction carries it. */
  ghost predicate PaidIn(b: Block, a: Addr)
  {
    exists j, i | 0 <= j < TxCount(b) && j < |b.txs| && 0 <= i < b.txs[j].voutSz && i < |b.txs[j].outputs| ::
      b.txs[j].outputs[i].addr == Some(a)
  }

  /** The sender lists hold exactly the addresses that spend in the block. */
  lemma SenderListsMembership(b: Block, a: Addr)
    requires TxCount(b) <= |b.txs| && SenderLists(b).Some?
    ensures a in Concat(SenderLists(b).value) <==> SpendsIn(b, a)
  {
    var ins := SenderLists(b).value;
    ConcatMembership(ins, a);
    if exists k | 0 <= k < |ins| :: a in ins[k] {
      var k :| 0 <= k < |ins| && a in ins[k];
      SenderMembership(b.txs[k + 1], a);
    }
    if SpendsIn(b, a) {
      var j, i :| 1 <= j < TxCount(b) && j < |b.txs| && 0 <= i < b.txs[j].vinSz && i < |b.txs[j].inputs| && b.txs[j].inputs[i].addr == Some(a);
      SenderMembership(b.txs[j], a);
      assert a in ins[j - 1];
    }
  }

  /** The receiver lists hold exactly the addresses paid in the block. */
  lemma ReceiverListsMembership(b: Block, a: Addr)
    requires TxCount(b) <= |b.txs| && ReceiverLists(b).Some?
    ensures a in Concat(ReceiverLists(b).value) <==> PaidIn(b, a)
  {
    var outs := ReceiverLists(b).value;
    ConcatMembership(outs, a);
    if exists k | 0 <= k < |outs| :: a in outs[k] {
      var k :| 0 <= k < |outs| && a in outs[k];
      ReceiverMembership(b.txs[k], a);
    }
    if PaidIn(b, a) {
      var j, i :| 0 <= j < TxCount(b) && j < |b.txs| && 0 <= i < b.txs[j].voutSz && i < |b.txs[j].outputs| && b.txs[j].outputs[i].addr == Some(a);
      ReceiverMembership(b.txs[j], a);
      assert a in outs[j];
    }
  }

  /** Membership in `get_addresses`, both directions: an address is listed
      exactly when it spends in a non-coinbase transaction or is paid by any
      transaction of the block. */
  lemma BlockAddressesMembership(b: Block, a: Addr)
    requires BlockAddresses(b).Some?
    ensures a in BlockAddresses(b).value <==> SpendsIn(b, a) || PaidIn(b, a)
  {
    var ins := SenderLists(b).value;
    var outs := ReceiverLists(b).value;
    assert a in BlockAddresses(b).value <==> a in Concat(ins) + Concat(outs);
    SenderListsMembership(b, a);
    ReceiverListsMembership(b, a);
  }

  /** The sender lists depend only on the transactions after the first. */
  lemma SenderListsDetermined(b: Block, b': Block)
    requires TxCount(b) == TxCount(b') && TxCount(b) <= |b.txs| && TxCount(b') <= |b'.txs|
    requires forall j | 1 <= j < TxCount(b) :: b.txs[j] == b'.txs[j]
    ensures SenderLists(b) == SenderLists(b')
  {
    if SenderLists(b).Some? {
      var s, s' := SenderLists(b).value, SenderLists(b').value;
      assert forall k | 0 <= k < |s| :: s[k] == s'[k] by {
        forall k | 0 <= k < |s| ensures s[k] == s'[k] {
          assert s[(k + 1) - 1] == s'[(k + 1) - 1];
        }
      }
      assert s == s';
    }
  }

  /** The receiver lists depend only on the outputs of the transactions. */
  lemma ReceiverListsDetermined(b: Block, b': Block)
    requires TxCount(b) == TxCount(b') && TxCount(b) <= |b.txs| && TxCount(b') <= |b'.txs|
    requires forall j | 0 <= j < TxCount(b) :: Receivers(b.txs[j]) == Receivers(b'.txs[j])
    ensures ReceiverLists(b) == ReceiverLists(b')
  {
    if ReceiverLists(b).Some? {
      var s, s' := ReceiverLists(b).value, ReceiverLists(b').value;
      assert forall k | 0 <= k < |s| :: s[k] == s'[k];
      assert s == s';
    }
  }

  /** The coinbase inputs are never read: replacing the first transaction
      by one with other inputs (and the same outputs) changes neither
      whether `get_addresses` raises nor what it returns. */
  lemma CoinbaseInputsIgnored(b: Block, ins: seq<Input>, vinSz: nat)
    requires |b.txs| > 0
    ensures BlockAddresses(b.(txs := b.txs[0 := b.txs[0].(inputs := ins, vinSz := vinSz)])) == BlockAddresses(b)
  {
    var b' := b.(txs := b.txs[0 := b.txs[0].(inputs := ins, vinSz := vinSz)]);
    if TxCount(b) <= |b.txs| {
      assert forall j | 1 <= j < TxCount(b) :: b.txs[j] == b'.txs[j];
      assert forall j | 0 <= j < TxCount(b) :: Receivers(b.txs[j]) == Receivers(b'.txs[j]);
      SenderListsDetermined(b, b');
      ReceiverListsDetermined(b, b');
    }
  }

  /** The rows the block view draws (`txg_nodes`): row 0 has the
      placeholder as its only sender, row j >= 1 the senders of transaction
      j, and every row the receivers of its transaction. With `n_tx <= 0`
      the drawing loop reads no row, so the model has none. */
  function BlockRows(b: Block): (r: Option<seq<Row<Addr>>>)
    ensures r.Some? <==> Readable(b)
    ensures r.Some? ==> |r.value| == TxCount(b)
    ensures r.Some? && TxCount(b) > 0 ==> r.value[0].senders == [Placeholder]
    ensures r.Some? ==> forall j | 1 <= j < TxCount(b) :: r.value[j].senders == Senders(b.txs[j]).value
    ensures r.Some? ==> forall j | 0 <= j < TxCount(b) :: r.value[j].receivers == Receivers(b.txs[j]).value
  {
    if |b.txs| < TxCount(b) then None
    else
      var ins, outs := SenderLists(b), ReceiverLists(b);
      if ins.None? || outs.None? then None
      else Some(Columns(TxCount(b), ins.value, outs.value))
  }

  /** `txg_nodes`: the `txin` column, with `['N/A']` prepended at index
      0, beside the `txout` column. */
  function Columns(n: nat, ins: seq<seq<Addr>>, outs: seq<seq<Addr>>): (r: seq<Row<Addr>>)
    requires |outs| == n && |ins| == if n == 0 then 0 else n - 1
    ensures |r| == n
    ensures n > 0 ==> r[0].senders == [Placeholder]
    ensures forall j | 1 <= j < n :: r[j].senders == ins[j - 1]
    ensures forall j | 0 <= j < n :: r[j].receivers == outs[j]
  {
    seq(n, j requires 0 <= j < n => Row(if j == 0 then [Placeholder] else ins[j - 1], outs[j]))
  }

  /** `G`: one edge per (row, sender, receiver), parallel edges kept. */
  function BlockEdges(b: Block): (r: Option<seq<Edge>>)
    ensures r.Some? <==> Readable(b)
  {
    match BlockRows(b)
    case Some(rows) => Some(Product(rows))
    case None => None
  }

  /** The block view raises exactly when `get_addresses` does. */
  lemma BlockEdgesAgree(b: Block)
    ensures BlockEdges(b).Some? <==> BlockAddresses(b).Some?
  {
  }

  /** The graph has one edge per receiver of the coinbase transaction plus
      `vin_sz` edges per receiver of every other transaction, and each edge
      (x, y) occurs as often as the reference multiplicity says. */
  lemma BlockEdgesCount(b: Block, x: Addr, y: Addr)
    requires BlockEdges(b).Some?
    ensures |BlockEdges(b).value| == Size(BlockRows(b).value)
    ensures multiset(BlockEdges(b).value)[Link(x, y)] == Weight(BlockRows(b).value, x, y)
  {
    ProductSize(BlockRows(b).value);
    ProductMultiplicity(BlockRows(b).value, x, y);
  }

  /** Transaction j of the block gives rise to the edge l: l.dst is one
      of its receivers, and l.src is the placeholder when j = 0 and one of
      its senders otherwise. */
  ghost predicate Draws(b: Block, j: int, l: Edge)
  {
    && 0 <= j < TxCount(b) && j < |b.txs|
    && Receivers(b.txs[j]).Some? && l.dst in Receivers(b.txs[j]).value
    && if j == 0 then l.src == Placeholder else Senders(b.txs[j]).Some? && l.src in Senders(b.txs[j]).value
  }

  /** Row j of the drawn rows yields l exactly when transaction j draws it. */
  lemma RowDraws(b: Block, j: int, l: Edge)
    requires BlockRows(b).Some? && 0 <= j < TxCount(b)
    ensures l.src in BlockRows(b).value[j].senders && l.dst in BlockRows(b).value[j].receivers <==> Draws(b, j, l)
  {
  }

  /** Provenance of an edge, both directions: (x, y) is drawn exactly when
      some transaction of the block draws it. */
  lemma BlockEdgesMembership(b: Block, l: Edge)
    requires BlockEdges(b).Some?
    ensures l in BlockEdges(b).value <==> exists j :: Draws(b, j, l)
  {
    var rows := BlockRows(b).value;
    ProductMembership(rows, l);
    if l in BlockEdges(b).value {
      var j :| 0 <= j < |rows| && l.src in rows[j].senders && l.dst in rows[j].receivers;
      RowDraws(b, j, l);
    }
    if exists j :: Draws(b, j, l) {
      var j :| Draws(b, j, l);
      RowDraws(b, j, l);
    }
  }

  /** An edge leaving the placeholder comes from the coinbase row, unless
      some later transaction really spends from an address spelled "N/A". */
  lemma PlaceholderFromCoinbase(b: Block, l: Edge)
    requires BlockEdges(b).Some? && l in BlockEdges(b).value && l.src == Placeholder
    ensures TxCount(b) > 0
    ensures !SpendsIn(b, Placeholder) ==> l.dst in Receivers(b.txs[0]).value
  {
    BlockEdgesMembership(b, l);
    var j :| Draws(b, j, l);
    if j > 0 {
      SenderMembership(b.txs[j], l.src);
      assert SpendsIn(b, Placeholder);
    }
  }

  /** The two views of a block agree: every drawn edge joins two listed
      addresses, except that its sender may be the coinbase placeholder. */
  lemma BlockEdgesWithinAddresses(b: Block, l: Edge)
    requires BlockEdges(b).Some? && l in BlockEdges(b).value
    ensures BlockAddresses(b).Some?
    ensures l.dst in BlockAddresses(b).value
    ensures l.src == Placeholder || l.src in BlockAddresses(b).value
  {
    BlockEdgesMembership(b, l);
    var j :| Draws(b, j, l);
    BlockAddressesMembership(b, l.dst);
    ReceiverMembership(b.txs[j], l.dst);
    assert PaidIn(b, l.dst);
    if j > 0 {
      BlockAddressesMembership(b, l.src);
      SenderMembership(b.txs[j], l.src);
      assert SpendsIn(b, l.src);
    }
  }

  /** Conversely, every receiver of a transaction is the head of a drawn
      edge, provided the transaction has a sender; its tail is the
      placeholder for the coinbase and the first sender otherwise. */
  lemma PaidAddressDrawn(b: Block, j: int, a: Addr)
    requires BlockEdges(b).Some?
    requires 0 <= j < TxCount(b)
    requires a in Receivers(b.txs[j]).value
    requires j > 0 ==> b.txs[j].vinSz > 0
    ensures Link(if j == 0 then Placeholder else b.txs[j].inputs[0].addr.value, a) in BlockEdges(b).value
  {
    var l := Link(if j == 0 then Placeholder else b.txs[j].inputs[0].addr.value, a);
    assert Draws(b, j, l);
    BlockEdgesMembership(b, l);
  }

  /** A block of two transactions: a coinbase paying M, then a transfer
      from A to B and M. */
  function ExampleBlock(): Block
  {
    Block(2, [Tx([Input(None, 0)], [Output(Some("M"), 50)], 1, 1, 0),
              Tx([Input(Some("A"), 30)], [Output(Some("B"), 20), Output(Some("M"), 10)], 1, 2, 0)])
  }

  /** The flattened sides of the two example transactions. */
  lemma ExampleSides()
    ensures Receivers(ExampleBlock().txs[0]) == Some(["M"])
    ensures Senders(ExampleBlock().txs[1]) == Some(["A"])
    ensures Receivers(ExampleBlock().txs[1]) == Some(["B", "M"])
  {
    var cb, t1 := ExampleBlock().txs[0], ExampleBlock().txs[1];
    AddressedSingle(Output(Some("M"), 50));
    assert cb.outputs[..1] == [Output(Some("M"), 50)];
    var r0 := Receivers(cb).value;
    assert |r0| == 1 && r0[0] == "M";
    assert r0 == ["M"];
    var s1 := Senders(t1).value;
    assert |s1| == 1 && s1[0] == "A";
    assert s1 == ["A"];
    assert t1.outputs[..2] == [Output(Some("B"), 20)] + [Output(Some("M"), 10)];
    AddressedAppend([Output(Some("B"), 20)], [Output(Some("M"), 10)]);
    AddressedSingle(Output(Some("B"), 20));
    AddressedSingle(Output(Some("M"), 10));
    var r1 := Receivers(t1).value;
    assert |r1| == 2 && r1[0] == "B" && r1[1] == "M";
    assert r1 == ["B", "M"];
  }

  /** Nothing the block code reads is missing from the example. */
  lemma ExampleReadable()
    ensures Readable(ExampleBlock())
  {
    var b := ExampleBlock();
    assert TxCount(b) == 2;
    assert InputsReadable(b.txs[1]);
    assert OutputsReadable(b.txs[0]) && OutputsReadable(b.txs[1]);
  }

  /** The example's rows: the placeholder pays M, A pays B and M. */
  lemma ExampleRows()
    ensures BlockRows(ExampleBlock()).Some?
    ensures |BlockRows(ExampleBlock()).value| == 2
    ensures BlockRows(ExampleBlock()).value[0] == Row([Placeholder], ["M"])
    ensures BlockRows(ExampleBlock()).value[1] == Row(["A"], ["B", "M"])
  {
    ExampleSides();
    ExampleReadable();
  }

  /** The example's graph: the coinbase row gives N/A -> M, the transfer
      gives A -> B and A -> M. */
  lemma ExampleEdges()
    ensures BlockEdges(ExampleBlock()) == Some([Link(Placeholder, "M"), Link("A", "B"), Link("A", "M")])
  {
    ExampleRows();
    var rows := BlockRows(ExampleBlock()).value;
    assert rows == [Row([Placeholder], ["M"]), Row(["A"], ["B", "M"])];
    ExampleProduct();
  }

  lemma ExampleProduct()
    ensures Product([Row([Placeholder], ["M"]), Row(["A"], ["B", "M"])]) ==
      [Link(Placeholder, "M"), Link("A", "B"), Link("A", "M")]
  {
    assert ["M"][1..] == [] && ["A"][1..] == [] && ["B", "M"][1..] == ["M"];
    assert Cross([Placeholder], ["M"]) == [Link(Placeholder, "M")];
    assert Cross(["A"], ["B", "M"]) == [Link("A", "B"), Link("A", "M")];
    var rows := [Row([Placeholder], ["M"]), Row(["A"], ["B", "M"])];
    assert rows[1..] == [Row(["A"], ["B", "M"])] && rows[1..][1..] == [];
    assert Product(rows[1..]) == [Link("A", "B"), Link("A", "M")];
    assert Product(rows) == [Link(Placeholder, "M")] + [Link("A", "B"), Link("A", "M")];
  }

  /** The example's address list: the coinbase input is not read. */
  lemma ExampleAddresses()
    ensures BlockAddresses(ExampleBlock()) == Some({"M", "A", "B"})
  {
    ExampleLists();
    var b := ExampleBlock();
    assert SenderLists(b).value == [["A"]];
    assert ReceiverLists(b).value == [["M"], ["B", "M"]];
    ExampleConcat();
  }

  /** The example's `txin` and `txout` columns. */
  lemma ExampleLists()
    ensures Readable(ExampleBlock())
    ensures SenderLists(ExampleBlock()).Some? && |SenderLists(ExampleBlock()).value| == 1
    ensures SenderLists(ExampleBlock()).value[0] == ["A"]
    ensures ReceiverLists(ExampleBlock()).Some? && |ReceiverLists(ExampleBlock()).value| == 2
    ensures ReceiverLists(ExampleBlock()).value[0] == ["M"]
    ensures ReceiverLists(ExampleBlock()).value[1] == ["B", "M"]
  {
    ExampleSides();
    ExampleReadable();
  }

  lemma ExampleConcat()
    ensures Distinct(Concat([["A"]]) + Concat([["M"], ["B", "M"]])) == {"M", "A", "B"}
  {
    var outs := [["M"], ["B", "M"]];
    assert outs[1..][1..] == [];
    assert Concat(outs) == ["M", "B", "M"];
    assert [["A"]][1..] == [];
    assert Concat([["A"]]) == ["A"];
  }
}
