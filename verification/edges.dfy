/** The edge-list builder and the wallet filter: each flattened transaction
    contributes the cross product of its senders and its receivers, and the
    products are concatenated with no deduplication, so the result is a
    multigraph (parallel edges and self-loops kept). */
module Edges {
  import opened Transactions

  /** A directed edge from a sender to a receiver. */
  datatype Link<T> = Link(src: T, dst: T)

  type Edge = Link<Addr>

  /** The edges from one sender `x` to each receiver of `ys`, in the
      receivers' order. */
  function Fan<T>(x: T, ys: seq<T>): (r: seq<Link<T>>)
    ensures |r| == |ys|
    ensures forall k | 0 <= k < |r| :: r[k].src == x && r[k].dst in ys
  {
    if |ys| == 0 then [] else [Link(x, ys[0])] + Fan(x, ys[1..])
  }

  /** The edges of one transaction: every sender paired with every
      receiver, senders in the outer position. Nothing is invented: each
      edge leaves a sender and reaches a receiver, and there is no edge
      exactly when one side is empty. */
  function Cross<T>(xs: seq<T>, ys: seq<T>): (r: seq<Link<T>>)
    ensures |r| == 0 <==> |xs| == 0 || |ys| == 0
    ensures forall k | 0 <= k < |r| :: r[k].src in xs && r[k].dst in ys
  {
    if |xs| == 0 then [] else Fan(xs[0], ys) + Cross(xs[1..], ys)
  }

  /** The edge list of a list of rows: the edges of each row in turn,
      concatenated. Every edge is drawn by one single row, leaving one of
      its senders and reaching one of its receivers. */
  function Product<T>(rows: seq<Row<T>>): (r: seq<Link<T>>)
    ensures forall k | 0 <= k < |r| ::
      exists i | 0 <= i < |rows| :: r[k].src in rows[i].senders && r[k].dst in rows[i].receivers
  {
    if |rows| == 0 then []
    else
      var head := Cross(rows[0].senders, rows[0].receivers);
      var tail := Product(rows[1..]);
      assert forall k | 0 <= k < |tail| ::
        exists i | 0 <= i < |rows| :: tail[k].src in rows[i].senders && tail[k].dst in rows[i].receivers by {
        forall k | 0 <= k < |tail|
          ensures exists i | 0 <= i < |rows| :: tail[k].src in rows[i].senders && tail[k].dst in rows[i].receivers
        {
          var i :| 0 <= i < |rows| - 1 && tail[k].src in rows[1..][i].senders && tail[k].dst in rows[1..][i].receivers;
          assert rows[1..][i] == rows[i + 1];
        }
      }
      head + tail
  }

  /** Reference count: the sum over rows of |senders| * |receivers|. */
  function Size<T>(rows: seq<Row<T>>): nat
  {
    if |rows| == 0 then 0 else |rows[0].senders| * |rows[0].receivers| + Size(rows[1..])
  }

  /** Reference multiplicity of the edge (x, y): the sum over rows of the
      number of times x is a sender times the number of times y is a
      receiver. */
  ghost function Weight<T>(rows: seq<Row<T>>, x: T, y: T): nat
  {
    if |rows| == 0 then 0
    else multiset(rows[0].senders)[x] * multiset(rows[0].receivers)[y] + Weight(rows[1..], x, y)
  }

  lemma {:induction false} CrossSize<T>(xs: seq<T>, ys: seq<T>)
    ensures |Cross(xs, ys)| == |xs| * |ys|
  {
    if |xs| > 0 {
      CrossSize(xs[1..], ys);
      calc {
        |Cross(xs, ys)|;
        |ys| + |Cross(xs[1..], ys)|;
        |ys| + (|xs| - 1) * |ys|;
        |xs| * |ys|;
      }
    }
  }

  /** The edge list has exactly one edge per (row, sender, receiver)
      combination. */
  lemma {:induction false} ProductSize<T>(rows: seq<Row<T>>)
    ensures |Product(rows)| == Size(rows)
  {
    if |rows| > 0 {
      CrossSize(rows[0].senders, rows[0].receivers);
      ProductSize(rows[1..]);
    }
  }

  lemma {:induction false} FanMultiplicity<T>(x: T, ys: seq<T>, a: T, b: T)
    ensures multiset(Fan(x, ys))[Link(a, b)] == if a == x then multiset(ys)[b] else 0
  {
    if |ys| > 0 {
      FanMultiplicity(x, ys[1..], a, b);
      assert ys == [ys[0]] + ys[1..];
    }
  }

  lemma {:induction false} CrossMultiplicity<T>(xs: seq<T>, ys: seq<T>, a: T, b: T)
    ensures multiset(Cross(xs, ys))[Link(a, b)] == multiset(xs)[a] * multiset(ys)[b]
  {
    if |xs| > 0 {
      var x := xs[0];
      FanMultiplicity(x, ys, a, b);
      CrossMultiplicity(xs[1..], ys, a, b);
      CrossCons(xs, ys);
      HeadCount(xs, a);
      MulSucc(multiset(xs[1..])[a], multiset(ys)[b]);
    }
  }

  /** The edges of a transaction split into those of its first sender and
      those of the rest. */
  lemma CrossCons<T>(xs: seq<T>, ys: seq<T>)
    requires |xs| > 0
    ensures multiset(Cross(xs, ys)) == multiset(Fan(xs[0], ys)) + multiset(Cross(xs[1..], ys))
  {
  }

  lemma HeadCount<T>(xs: seq<T>, a: T)
    requires |xs| > 0
    ensures multiset(xs)[a] == (if a == xs[0] then 1 else 0) + multiset(xs[1..])[a]
  {
    assert xs == [xs[0]] + xs[1..];
  }

  lemma MulSucc(k: nat, m: nat)
    ensures (k + 1) * m == m + k * m
  {
  }

  /** The multigraph is exact: the edge (a, b) occurs as many times as the
      reference multiplicity says, so nothing is deduplicated and nothing is
      invented. */
  lemma {:induction false} ProductMultiplicity<T>(rows: seq<Row<T>>, a: T, b: T)
    ensures multiset(Product(rows))[Link(a, b)] == Weight(rows, a, b)
  {
    if |rows| > 0 {
      CrossMultiplicity(rows[0].senders, rows[0].receivers, a, b);
      ProductMultiplicity(rows[1..], a, b);
    }
  }

  lemma {:induction false} CrossMembership<T>(xs: seq<T>, ys: seq<T>, l: Link<T>)
    ensures l in Cross(xs, ys) <==> l.src in xs && l.dst in ys
  {
    if |xs| > 0 {
      FanMembership(xs[0], ys, l);
      CrossMembership(xs[1..], ys, l);
      assert xs == [xs[0]] + xs[1..];
    }
  }

  lemma {:induction false} FanMembership<T>(x: T, ys: seq<T>, l: Link<T>)
    ensures l in Fan(x, ys) <==> l.src == x && l.dst in ys
  {
    if |ys| > 0 {
      FanMembership(x, ys[1..], l);
      assert ys == [ys[0]] + ys[1..];
    }
  }

  /** Provenance, both directions: (a, b) is an edge exactly when, for one
      single row, a is among its senders and b among its receivers. */
  lemma {:induction false} ProductMembership<T>(rows: seq<Row<T>>, l: Link<T>)
    ensures l in Product(rows) <==> exists i | 0 <= i < |rows| :: l.src in rows[i].senders && l.dst in rows[i].receivers
  {
    if |rows| > 0 {
      CrossMembership(rows[0].senders, rows[0].receivers, l);
      ProductMembership(rows[1..], l);
      if exists i | 0 <= i < |rows| :: l.src in rows[i].senders && l.dst in rows[i].receivers {
        var i :| 0 <= i < |rows| && l.src in rows[i].senders && l.dst in rows[i].receivers;
        if i > 0 {
          assert rows[1..][i - 1] == rows[i];
        }
      }
      if l in Product(rows[1..]) {
        var i :| 0 <= i < |rows| - 1 && l.src in rows[1..][i].senders && l.dst in rows[1..][i].receivers;
        assert rows[i + 1] == rows[1..][i];
      }
    }
  }

  /** A transaction with inputs from A and B and outputs to C and D yields
      the four edges A->C, A->D, B->C, B->D, in that order. */
  lemma TwoByTwoExample()
    ensures Product([Row(["A", "B"], ["C", "D"])]) ==
      [Link("A", "C"), Link("A", "D"), Link("B", "C"), Link("B", "D")]
  {
    assert ["A", "B"][1..] == ["B"];
    assert ["C", "D"][1..] == ["D"];
  }

  /** The wallet filter applied to one row: a row whose receivers include
      the target collapses its receivers to the target; otherwise a row
      whose senders include it collapses its senders. */
  function FilterRow(target: Addr, row: Row<Addr>): (r: Row<Addr>)
    ensures target in r.receivers <==> target in row.receivers
    ensures target in r.senders <==> target in row.senders
    ensures r.senders == row.senders || r.receivers == row.receivers
    ensures r.senders == row.senders || r.senders == [target]
    ensures r.receivers == row.receivers || r.receivers == [target]
    ensures |r.senders| <= |row.senders| && |r.receivers| <= |row.receivers|
  {
    if target in row.receivers then row.(receivers := [target])
    else if target in row.senders then row.(senders := [target])
    else row
  }

  /** `wallet_filter`: the filter applied to every row, in place. */
  function WalletFilter(target: Addr, rows: seq<Row<Addr>>): (r: seq<Row<Addr>>)
    ensures |r| == |rows|
    ensures forall i | 0 <= i < |rows| && target in rows[i].receivers ::
      r[i].receivers == [target] && r[i].senders == rows[i].senders
    ensures forall i | 0 <= i < |rows| && target !in rows[i].receivers && target in rows[i].senders ::
      r[i].senders == [target] && r[i].receivers == rows[i].receivers
    ensures forall i | 0 <= i < |rows| && target !in rows[i].receivers && target !in rows[i].senders ::
      r[i] == rows[i]
  {
    seq(|rows|, i requires 0 <= i < |rows| => FilterRow(target, rows[i]))
  }

  /** Applying the wallet filter a second time changes nothing. */
  lemma WalletFilterIdempotent(target: Addr, rows: seq<Row<Addr>>)
    ensures WalletFilter(target, WalletFilter(target, rows)) == WalletFilter(target, rows)
  {
    var once := WalletFilter(target, rows);
    var twice := WalletFilter(target, once);
    forall i | 0 <= i < |rows|
      ensures twice[i] == once[i]
    {
      if target in rows[i].receivers {
        assert target in once[i].receivers;
      } else if target in rows[i].senders {
        assert target in once[i].senders;
      }
    }
  }

  /** The filter keeps who takes part: the target is on a side of a row
      after filtering exactly when it was on that side before. */
  lemma WalletFilterKeepsTarget(target: Addr, rows: seq<Row<Addr>>, i: int)
    requires 0 <= i < |rows|
    ensures target in WalletFilter(target, rows)[i].receivers <==> target in rows[i].receivers
    ensures target in WalletFilter(target, rows)[i].senders <==> target in rows[i].senders
  {
  }

  /** Every edge a filtered row produces touches the target when the target
      takes part in the row: the transaction is drawn as being "about" it. */
  lemma FilteredEdgesTouchTarget(target: Addr, rows: seq<Row<Addr>>, l: Edge)
    requires l in Product(WalletFilter(target, rows))
    ensures exists i | 0 <= i < |rows| :: l.src in WalletFilter(target, rows)[i].senders && l.dst in WalletFilter(target, rows)[i].receivers
    ensures forall i | 0 <= i < |rows| && l.src in WalletFilter(target, rows)[i].senders && l.dst in WalletFilter(target, rows)[i].receivers ::
      (target in rows[i].senders || target in rows[i].receivers) ==> l.src == target || l.dst == target
  {
    ProductMembership(WalletFilter(target, rows), l);
  }
}
