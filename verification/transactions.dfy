/** Transaction records as the blockchain explorer returns them, and the
    flattening rule every part of the program applies to them: a transaction
    becomes the list of its senders (one per counted input) and the list of
    its receivers (one per counted output that carries an address). */
module Transactions {
  import opened Common

  /** An address identifier: an opaque string. */
  type Addr = string

  /** One input: the `prev_out` it spends. `addr` is None when the record
      carries no `prev_out.addr` (a coinbase input, for one). */
  datatype Input = Input(addr: Option<Addr>, value: int)

  /** One output; `addr` is None for outputs without an address field. */
  datatype Output = Output(addr: Option<Addr>, value: int)

  /** A transaction record: its inputs and outputs, the `vin_sz` and
      `vout_sz` counts the code iterates up to, and its `time` stamp. */
  datatype Tx = Tx(inputs: seq<Input>, outputs: seq<Output>, vinSz: nat, voutSz: nat, time: int)

  /** An address together with the amount (in satoshi) it sends or receives. */
  datatype Entry = Entry(addr: Addr, value: int)

  /** The flattened form of one transaction: its sender list and its
      receiver list, as entries or as bare addresses. */
  datatype Row<T> = Row(senders: seq<T>, receivers: seq<T>)

  /** The sender side: `inputs[i].prev_out` for every i below `n`. Raises
      (None) when an input is missing or has no `prev_out.addr`. */
  function SendEntries(ins: seq<Input>, n: nat): (r: Option<seq<Entry>>)
    ensures r.Some? <==> n <= |ins| && forall i | 0 <= i < n :: ins[i].addr.Some?
    ensures r.Some? ==> |r.value| == n
    ensures r.Some? ==> forall i | 0 <= i < n :: r.value[i] == Entry(ins[i].addr.value, ins[i].value)
  {
    if n == 0 then Some([])
    else if |ins| == 0 || ins[0].addr.None? then None
    else match SendEntries(ins[1..], n - 1)
      case None => None
      case Some(rest) => Some([Entry(ins[0].addr.value, ins[0].value)] + rest)
  }

  /** What one output contributes to the receiver side. */
  function EntryOf(o: Output): seq<Entry>
  {
    if o.addr.Some? then [Entry(o.addr.value, o.value)] else []
  }

  /** The outputs that carry an address, in order, as entries. */
  function Addressed(outs: seq<Output>): seq<Entry>
  {
    if |outs| == 0 then [] else EntryOf(outs[0]) + Addressed(outs[1..])
  }

  /** The receiver side: the addressed outputs among the first `n`. Raises
      (None) only when fewer than `n` outputs exist; an output without an
      address is skipped, not an error. */
  function ReceiveEntries(outs: seq<Output>, n: nat): (r: Option<seq<Entry>>)
    ensures r.Some? <==> n <= |outs|
    ensures r.Some? ==> |r.value| <= n
    ensures r.Some? ==> forall e | e in r.value :: exists i | 0 <= i < n :: outs[i] == Output(Some(e.addr), e.value)
    ensures r.Some? ==> forall i | 0 <= i < n && outs[i].addr.Some? :: Entry(outs[i].addr.value, outs[i].value) in r.value
  {
    if n <= |outs| then
      AddressedMembership(outs[..n]);
      AddressedLength(outs[..n]);
      Some(Addressed(outs[..n]))
    else None
  }

  lemma {:induction false} AddressedLength(outs: seq<Output>)
    ensures |Addressed(outs)| <= |outs|
  {
    if |outs| > 0 {
      AddressedLength(outs[1..]);
    }
  }

  /** An entry is produced exactly when some output carries it. */
  lemma {:induction false} AddressedMembership(outs: seq<Output>)
    ensures forall e | e in Addressed(outs) :: exists i | 0 <= i < |outs| :: outs[i] == Output(Some(e.addr), e.value)
    ensures forall i | 0 <= i < |outs| && outs[i].addr.Some? :: Entry(outs[i].addr.value, outs[i].value) in Addressed(outs)
  {
    if |outs| > 0 {
      AddressedMembership(outs[1..]);
      forall e | e in Addressed(outs)
        ensures exists i | 0 <= i < |outs| :: outs[i] == Output(Some(e.addr), e.value)
      {
        if e in EntryOf(outs[0]) {
          assert outs[0] == Output(Some(e.addr), e.value);
        } else {
          assert e in Addressed(outs[1..]);
          var j :| 0 <= j < |outs| - 1 && outs[1..][j] == Output(Some(e.addr), e.value);
          assert outs[j + 1] == Output(Some(e.addr), e.value);
        }
      }
      forall i | 0 <= i < |outs| && outs[i].addr.Some?
        ensures Entry(outs[i].addr.value, outs[i].value) in Addressed(outs)
      {
        if i > 0 {
          assert outs[1..][i - 1] == outs[i];
        }
      }
    }
  }

  /** Filtering distributes over concatenation: each output contributes its
      own entry (or nothing) independently of the others, so the receiver
      list keeps the outputs' order. */
  lemma {:induction false} AddressedAppend(a: seq<Output>, b: seq<Output>)
    ensures Addressed(a + b) == Addressed(a) + Addressed(b)
  {
    if |a| == 0 {
      assert a + b == b;
    } else {
      assert (a + b)[1..] == a[1..] + b;
      AddressedAppend(a[1..], b);
    }
  }

  /** An output without an address contributes no receiver; one with an
      address contributes exactly one, its own. */
  lemma AddressedSingle(o: Output)
    ensures o.addr.None? ==> Addressed([o]) == []
    ensures o.addr.Some? ==> Addressed([o]) == [Entry(o.addr.value, o.value)]
  {
    assert [o][1..] == [];
  }

  function AddrsOf(es: seq<Entry>): (r: seq<Addr>)
    ensures |r| == |es| && forall i | 0 <= i < |es| :: r[i] == es[i].addr
  {
    seq(|es|, i requires 0 <= i < |es| => es[i].addr)
  }

  /** The elements of a list, as a set: `set(xs)`. */
  function Distinct(xs: seq<Addr>): set<Addr>
  {
    set x | x in xs
  }

  /** A list has no more distinct elements than it has elements. */
  lemma {:induction false} DistinctBound(xs: seq<Addr>)
    ensures |Distinct(xs)| <= |xs|
  {
    if |xs| > 0 {
      var k := |xs| - 1;
      DistinctBound(xs[..k]);
      assert Distinct(xs) == Distinct(xs[..k]) + {xs[k]} by {
        forall x | x in Distinct(xs)
          ensures x in Distinct(xs[..k]) + {xs[k]}
        {
          var i :| 0 <= i < |xs| && xs[i] == x;
          if i < k {
            assert xs[..k][i] == x;
          }
        }
      }
    }
  }

  /** The input side of a transaction can be read: `vin_sz` inputs exist
      and each carries `prev_out.addr`. */
  ghost predicate InputsReadable(tx: Tx)
  {
    tx.vinSz <= |tx.inputs| && forall i | 0 <= i < tx.vinSz :: tx.inputs[i].addr.Some?
  }

  /** The output side of a transaction can be read: `vout_sz` outputs exist. */
  ghost predicate OutputsReadable(tx: Tx)
  {
    tx.voutSz <= |tx.outputs|
  }

  /** A transaction flattened to entries (make_df2's `LL`/`LLL`). */
  function FlattenEntries(tx: Tx): (r: Option<Row<Entry>>)
    ensures r.Some? <==> InputsReadable(tx) && OutputsReadable(tx)
    ensures r.Some? ==> |r.value.senders| == tx.vinSz
    ensures r.Some? ==> forall i | 0 <= i < tx.vinSz :: r.value.senders[i] == Entry(tx.inputs[i].addr.value, tx.inputs[i].value)
    ensures r.Some? ==> r.value.receivers == Addressed(tx.outputs[..tx.voutSz])
  {
    match (SendEntries(tx.inputs, tx.vinSz), ReceiveEntries(tx.outputs, tx.voutSz))
    case (Some(s), Some(o)) => Some(Row(s, o))
    case _ => None
  }

  /** The sender addresses of a transaction: one per counted input. */
  function Senders(tx: Tx): (r: Option<seq<Addr>>)
    ensures r.Some? <==> InputsReadable(tx)
    ensures r.Some? ==> |r.value| == tx.vinSz
    ensures r.Some? ==> forall i | 0 <= i < tx.vinSz :: r.value[i] == tx.inputs[i].addr.value
  {
    match SendEntries(tx.inputs, tx.vinSz)
    case Some(s) => Some(AddrsOf(s))
    case None => None
  }

  /** The receiver addresses of a transaction: the addressed outputs among
      the counted ones, in order. */
  function Receivers(tx: Tx): (r: Option<seq<Addr>>)
    ensures r.Some? <==> OutputsReadable(tx)
    ensures r.Some? ==> r.value == AddrsOf(Addressed(tx.outputs[..tx.voutSz]))
    ensures r.Some? ==> forall a | a in r.value :: exists i | 0 <= i < tx.voutSz :: tx.outputs[i].addr == Some(a)
  {
    match ReceiveEntries(tx.outputs, tx.voutSz)
    case Some(o) =>
      assert forall a | a in AddrsOf(o) :: exists e | e in o :: e.addr == a;
      Some(AddrsOf(o))
    case None => None
  }

  /** A transaction flattened to addresses (`get_nodes`' `LL`/`LLL`). */
  function Flatten(tx: Tx): (r: Option<Row<Addr>>)
    ensures r.Some? <==> InputsReadable(tx) && OutputsReadable(tx)
    ensures r.Some? ==> |r.value.senders| == tx.vinSz
    ensures r.Some? ==> forall i | 0 <= i < tx.vinSz :: r.value.senders[i] == tx.inputs[i].addr.value
    ensures r.Some? ==> r.value.receivers == AddrsOf(Addressed(tx.outputs[..tx.voutSz]))
    ensures r.Some? ==> r.value == Row(Senders(tx).value, Receivers(tx).value)
  {
    match (Senders(tx), Receivers(tx))
    case (Some(s), Some(o)) => Some(Row(s, o))
    case _ => None
  }

  /** Every transaction of a list flattened, index by index; one malformed
      transaction makes the whole comprehension raise. */
  function FlattenAll(txs: seq<Tx>): (r: Option<seq<Row<Addr>>>)
    ensures r.Some? <==> forall j | 0 <= j < |txs| :: Flatten(txs[j]).Some?
    ensures r.Some? ==> |r.value| == |txs| && forall j | 0 <= j < |txs| :: r.value[j] == Flatten(txs[j]).value
  {
    var xs := seq(|txs|, j requires 0 <= j < |txs| => Flatten(txs[j]));
    assert forall j | 0 <= j < |txs| :: xs[j] == Flatten(txs[j]);
    AllSome(xs)
  }

  /** Every transaction of a list flattened to entries. */
  function FlattenAllEntries(txs: seq<Tx>): (r: Option<seq<Row<Entry>>>)
    ensures r.Some? <==> forall j | 0 <= j < |txs| :: FlattenEntries(txs[j]).Some?
    ensures r.Some? ==> |r.value| == |txs| && forall j | 0 <= j < |txs| :: r.value[j] == FlattenEntries(txs[j]).value
  {
    var xs := seq(|txs|, j requires 0 <= j < |txs| => FlattenEntries(txs[j]));
    assert forall j | 0 <= j < |txs| :: xs[j] == FlattenEntries(txs[j]);
    AllSome(xs)
  }

  /** An address is a sender of a transaction with readable inputs exactly
      when one of its first `vin_sz` inputs spends from it. */
  lemma SenderMembership(tx: Tx, a: Addr)
    requires Senders(tx).Some?
    ensures a in Senders(tx).value <==> exists i | 0 <= i < tx.vinSz :: tx.inputs[i].addr == Some(a)
  {
    var s := Senders(tx).value;
    if a in s {
      var i :| 0 <= i < |s| && s[i] == a;
      assert tx.inputs[i].addr == Some(a);
    }
  }

  /** An address is a receiver of a transaction with readable outputs
      exactly when one of its first `vout_sz` outputs carries it. */
  lemma ReceiverMembership(tx: Tx, a: Addr)
    requires Receivers(tx).Some?
    ensures a in Receivers(tx).value <==> exists i | 0 <= i < tx.voutSz :: tx.outputs[i].addr == Some(a)
  {
    var outs := tx.outputs[..tx.voutSz];
    var es := Addressed(outs);
    var r := Receivers(tx).value;
    AddressedMembership(outs);
    if a in r {
      var k :| 0 <= k < |r| && r[k] == a;
      assert es[k] in es;
      var i :| 0 <= i < |outs| && outs[i] == Output(Some(es[k].addr), es[k].value);
      assert tx.outputs[i].addr == Some(a);
    }
    if exists i | 0 <= i < tx.voutSz :: tx.outputs[i].addr == Some(a) {
      var i :| 0 <= i < tx.voutSz && tx.outputs[i].addr == Some(a);
      var e := Entry(a, outs[i].value);
      assert e in es;
      var k :| 0 <= k < |es| && es[k] == e;
      assert r[k] == a;
    }
  }
}
