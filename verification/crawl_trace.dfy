/** The state of a neighbourhood crawl and the facts that hold of it
    between any two steps. */
module CrawlTrace {
  import opened Common
  import opened Transactions

  /** The bounded variant stops starting expansions once the frame holds
      this many rows. */
  const RowCeiling: nat := 500

  /** What is fixed for one crawl. */
  datatype Config<!R> = Config(
    seed: Addr,
    sampleSize: nat,
    bounded: bool,
    expand: Addr -> Option<seq<R>>,
    src: R -> Addr,
    dst: R -> Addr)

  /** One expanded address: the round that expanded it and the rows its
      expansion appended (none when building its frame raised). */
  datatype Expansion<R> = Expansion(addr: Addr, round: nat, sample: seq<R>)

  /** The result of a crawl: the accumulated frame, and the trace that
      produced it: the seed's sample, the expansions in order, and for each
      round the number of rows the frame had when the round started. */
  datatype Neighborhood<R> = Neighborhood(frame: seq<R>, seedSample: seq<R>, log: seq<Expansion<R>>, rounds: seq<nat>)

  /** The rows the expansions appended, in order. */
  function Flat<R>(log: seq<Expansion<R>>): seq<R>
  {
    if |log| == 0 then [] else Flat(log[..|log| - 1]) + log[|log| - 1].sample
  }

  /** How many rows the expansions of rounds before `r` appended. */
  function SizeBefore<R>(log: seq<Expansion<R>>, r: nat): nat
  {
    if |log| == 0 then 0
    else SizeBefore(log[..|log| - 1], r) + (if log[|log| - 1].round < r then |log[|log| - 1].sample| else 0)
  }

  /** The addresses appearing in a frame, as sender or as receiver of some
      row: the set a round of the crawl iterates over. */
  function Endpoints<R>(rows: seq<R>, src: R -> Addr, dst: R -> Addr): set<Addr>
  {
    (set i | 0 <= i < |rows| :: src(rows[i])) + (set i | 0 <= i < |rows| :: dst(rows[i]))
  }

  ghost function LogAddrs<R>(log: seq<Expansion<R>>): set<Addr>
  {
    set i | 0 <= i < |log| :: log[i].addr
  }

  /** Address `a` was expanded in round `r` or earlier. */
  ghost predicate ExpandedBy<R>(log: seq<Expansion<R>>, a: Addr, r: nat)
  {
    exists i | 0 <= i < |log| :: log[i].addr == a && log[i].round <= r
  }

  /** `sample` is what `df.sample(n = min(len(df), s))` may return for the
      frame `fetched`, or nothing when building that frame raised. */
  ghost predicate Sampled<R>(sample: seq<R>, fetched: Option<seq<R>>, s: nat)
  {
    match fetched
    case None => sample == []
    case Some(rows) => |sample| == Min(|rows|, s) && multiset(sample) <= multiset(rows)
  }

  /** The frame is the seed's sample followed by each expansion's rows,
      and every sample is a legal `df.sample` of the frame it was drawn from. */
  ghost predicate Assembled<R>(cfg: Config<R>, n: Neighborhood<R>)
  {
    && cfg.expand(cfg.seed).Some?
    && n.frame == n.seedSample + Flat(n.log)
    && Sampled(n.seedSample, cfg.expand(cfg.seed), cfg.sampleSize)
    && (forall i | 0 <= i < |n.log| :: Sampled(n.log[i].sample, cfg.expand(n.log[i].addr), cfg.sampleSize))
  }

  /** `visited` is the seed plus the expanded addresses, and no address,
      the seed included, is expanded twice. */
  ghost predicate VisitedOnce<R>(cfg: Config<R>, n: Neighborhood<R>, visited: set<Addr>)
  {
    && visited == {cfg.seed} + LogAddrs(n.log)
    && cfg.seed !in LogAddrs(n.log)
    && (forall i, j | 0 <= i < j < |n.log| :: n.log[i].addr != n.log[j].addr)
  }

  /** Rounds run in order; round r starts from the seed's sample plus the
      rows of the rounds before it; an expansion of round r expands an
      address of round r's snapshot. */
  ghost predicate RoundsInOrder<R>(cfg: Config<R>, n: Neighborhood<R>)
  {
    && (forall i, j | 0 <= i < j < |n.log| :: n.log[i].round <= n.log[j].round)
    && (forall r | 0 <= r < |n.rounds| :: n.rounds[r] == |n.seedSample| + SizeBefore(n.log, r))
    && (forall r | 0 <= r < |n.rounds| :: n.rounds[r] <= |n.frame|)
    && (forall i | 0 <= i < |n.log| :: n.log[i].round < |n.rounds|)
    && (forall i | 0 <= i < |n.log| ::
          n.log[i].addr in Endpoints(n.frame[..n.rounds[n.log[i].round]], cfg.src, cfg.dst))
  }

  /** In the bounded variant, every expansion started below the ceiling,
      so the frame overshoots it by less than one sample. */
  ghost predicate UnderCeiling<R>(cfg: Config<R>, n: Neighborhood<R>)
  {
    && (cfg.bounded ==> forall i | 0 <= i < |n.log| :: |n.seedSample| + |Flat(n.log[..i])| < RowCeiling)
    && (cfg.bounded ==> |n.frame| < RowCeiling + cfg.sampleSize)
  }

  /** What holds of the crawl state between any two steps. */
  ghost predicate Consistent<R>(cfg: Config<R>, n: Neighborhood<R>, visited: set<Addr>)
  {
    Assembled(cfg, n) && VisitedOnce(cfg, n, visited) && RoundsInOrder(cfg, n) && UnderCeiling(cfg, n)
  }

  /** The number of rows the frame had when round `r` ended: the size the
      next round started from, or the current size for the last round. */
  function RoundEnd<R>(n: Neighborhood<R>, r: nat): nat
  {
    if r + 1 < |n.rounds| then n.rounds[r + 1] else |n.frame|
  }

  /** Every address of `addrs` is the seed, was expanded by the end of round
      `r`, or was skipped because the ceiling had been reached, which can
      only be when the frame had `size` >= 500 rows by the end of round `r`. */
  ghost predicate Covered<R>(cfg: Config<R>, n: Neighborhood<R>, r: nat, size: nat, addrs: set<Addr>)
  {
    forall a | a in addrs :: a == cfg.seed || ExpandedBy(n.log, a, r) || (cfg.bounded && size >= RowCeiling)
  }

  /** Each of the first `finished` rounds dealt with its whole snapshot;
      an address of round r's snapshot may go unexpanded in the bounded
      variant only when the frame had reached the ceiling by the end of
      round r. */
  ghost predicate Complete<R>(cfg: Config<R>, n: Neighborhood<R>, finished: nat)
  {
    forall r | 0 <= r < finished && r < |n.rounds| && n.rounds[r] <= |n.frame| ::
      Covered(cfg, n, r, RoundEnd(n, r), Endpoints(n.frame[..n.rounds[r]], cfg.src, cfg.dst))
  }

  /** Completeness judges each round by the frame size at its own end: a
      trace whose first round ends with one row but which expands an
      address of that round's snapshot only in the second round is not
      complete, however large the frame has grown since. */
  lemma LateExpansionIncomplete(cfg: Config<int>, rest: seq<int>)
    requires cfg.seed != cfg.src(0)
    ensures !Complete(cfg, Neighborhood([0] + rest, [0], [Expansion(cfg.src(0), 1, rest)], [1, 1]), 2)
  {
    var n := Neighborhood([0] + rest, [0], [Expansion(cfg.src(0), 1, rest)], [1, 1]);
    var rows := n.frame[..n.rounds[0]];
    assert rows == [0] && cfg.src(rows[0]) in (set i | 0 <= i < |rows| :: cfg.src(rows[i]));
    assert cfg.src(0) in Endpoints(n.frame[..n.rounds[0]], cfg.src, cfg.dst);
    assert !ExpandedBy(n.log, cfg.src(0), 0);
  }

  lemma FlatAppend<R>(log: seq<Expansion<R>>, e: Expansion<R>)
    ensures Flat(log + [e]) == Flat(log) + e.sample
  {
    assert (log + [e])[..|log|] == log;
  }

  lemma SizeBeforeAppend<R>(log: seq<Expansion<R>>, e: Expansion<R>, r: nat)
    ensures SizeBefore(log + [e], r) == SizeBefore(log, r) + (if e.round < r then |e.sample| else 0)
  {
    assert (log + [e])[..|log|] == log;
  }

  /** When every expansion so far belongs to a round before `r`, all of
      their rows come before round `r`. */
  lemma {:induction false} SizeBeforeAll<R>(log: seq<Expansion<R>>, r: nat)
    requires forall i | 0 <= i < |log| :: log[i].round < r
    ensures SizeBefore(log, r) == |Flat(log)|
  {
    if |log| > 0 {
      SizeBeforeAll(log[..|log| - 1], r);
    }
  }

  /** Growing the log, or the size the ceiling test saw, keeps every
      coverage fact. */
  lemma CoveredGrows<R>(cfg: Config<R>, n: Neighborhood<R>, n': Neighborhood<R>, r: nat, size: nat, size': nat, addrs: set<Addr>)
    requires Covered(cfg, n, r, size, addrs)
    requires n.log <= n'.log && size <= size'
    ensures Covered(cfg, n', r, size', addrs)
  {
    forall a | a in addrs
      ensures a == cfg.seed || ExpandedBy(n'.log, a, r) || (cfg.bounded && size' >= RowCeiling)
    {
      if ExpandedBy(n.log, a, r) {
        var i :| 0 <= i < |n.log| && n.log[i].addr == a && n.log[i].round <= r;
        assert n'.log[i] == n.log[i];
      }
    }
  }

  lemma CompleteGrows<R>(cfg: Config<R>, n: Neighborhood<R>, n': Neighborhood<R>, finished: nat)
    requires Complete(cfg, n, finished)
    requires n.log <= n'.log && n.frame <= n'.frame
    requires finished <= |n.rounds| <= |n'.rounds| && n'.rounds[..|n.rounds|] == n.rounds
    requires forall r | 0 <= r < |n.rounds| :: n.rounds[r] <= |n.frame|
    requires forall r | 0 <= r < finished :: RoundEnd(n', r) == RoundEnd(n, r)
    ensures Complete(cfg, n', finished)
  {
    forall r | 0 <= r < finished && r < |n'.rounds| && n'.rounds[r] <= |n'.frame|
      ensures Covered(cfg, n', r, RoundEnd(n', r), Endpoints(n'.frame[..n'.rounds[r]], cfg.src, cfg.dst))
    {
      assert n'.rounds[r] == n.rounds[r];
      assert n'.frame[..n.rounds[r]] == n.frame[..n.rounds[r]];
      CoveredGrows(cfg, n, n', r, RoundEnd(n, r), RoundEnd(n', r), Endpoints(n.frame[..n.rounds[r]], cfg.src, cfg.dst));
    }
  }

  /** The state after appending expansion `e` to the trace. */
  function Append<R>(n: Neighborhood<R>, e: Expansion<R>): Neighborhood<R>
  {
    Neighborhood(n.frame + e.sample, n.seedSample, n.log + [e], n.rounds)
  }

  lemma AppendAssembled<R>(cfg: Config<R>, n: Neighborhood<R>, e: Expansion<R>)
    requires Assembled(cfg, n)
    requires Sampled(e.sample, cfg.expand(e.addr), cfg.sampleSize)
    ensures Assembled(cfg, Append(n, e))
  {
    FlatAppend(n.log, e);
    var n' := Append(n, e);
    forall i | 0 <= i < |n'.log|
      ensures Sampled(n'.log[i].sample, cfg.expand(n'.log[i].addr), cfg.sampleSize)
    {
      if i < |n.log| {
        assert n'.log[i] == n.log[i];
      }
    }
  }

  lemma AppendVisitedOnce<R>(cfg: Config<R>, n: Neighborhood<R>, visited: set<Addr>, e: Expansion<R>)
    requires VisitedOnce(cfg, n, visited)
    requires e.addr !in visited
    ensures VisitedOnce(cfg, Append(n, e), visited + {e.addr})
  {
    var n' := Append(n, e);
    assert forall i | 0 <= i < |n.log| :: n'.log[i] == n.log[i];
    assert n'.log[|n.log|] == e;
    assert LogAddrs(n'.log) == LogAddrs(n.log) + {e.addr};
    assert e.addr !in LogAddrs(n.log);
  }

  lemma AppendRoundsInOrder<R>(cfg: Config<R>, n: Neighborhood<R>, e: Expansion<R>)
    requires Assembled(cfg, n) && RoundsInOrder(cfg, n)
    requires |n.rounds| > 0 && e.round == |n.rounds| - 1
    requires e.addr in Endpoints(n.frame[..n.rounds[e.round]], cfg.src, cfg.dst)
    ensures RoundsInOrder(cfg, Append(n, e))
  {
    var n' := Append(n, e);
    assert forall i | 0 <= i < |n.log| :: n'.log[i] == n.log[i];
    assert n'.log[|n.log|] == e;
    forall r | 0 <= r < |n.rounds|
      ensures n'.rounds[r] == |n'.seedSample| + SizeBefore(n'.log, r)
    {
      SizeBeforeAppend(n.log, e, r);
    }
    forall i | 0 <= i < |n'.log|
      ensures n'.log[i].addr in Endpoints(n'.frame[..n'.rounds[n'.log[i].round]], cfg.src, cfg.dst)
    {
      var k := n.rounds[n'.log[i].round];
      assert n'.frame[..k] == n.frame[..k];
    }
  }

  lemma AppendUnderCeiling<R>(cfg: Config<R>, n: Neighborhood<R>, e: Expansion<R>)
    requires Assembled(cfg, n) && UnderCeiling(cfg, n)
    requires Sampled(e.sample, cfg.expand(e.addr), cfg.sampleSize)
    requires cfg.bounded ==> |n.frame| < RowCeiling
    ensures UnderCeiling(cfg, Append(n, e))
  {
    var n' := Append(n, e);
    if cfg.bounded {
      forall i | 0 <= i < |n'.log|
        ensures |n'.seedSample| + |Flat(n'.log[..i])| < RowCeiling
      {
        if i < |n.log| {
          assert n'.log[..i] == n.log[..i];
        } else {
          assert n'.log[..i] == n.log;
        }
      }
    }
  }

  /** The state at the start of a new round: its snapshot is the whole
      frame as it stands. */
  function StartRound<R>(n: Neighborhood<R>): Neighborhood<R>
  {
    n.(rounds := n.rounds + [|n.frame|])
  }

  lemma StartRoundInOrder<R>(cfg: Config<R>, n: Neighborhood<R>)
    requires n.frame == n.seedSample + Flat(n.log)
    requires RoundsInOrder(cfg, n)
    ensures RoundsInOrder(cfg, StartRound(n))
  {
    var n' := StartRound(n);
    SizeBeforeAll(n.log, |n.rounds|);
    assert forall i | 0 <= i < |n.log| :: n'.rounds[n.log[i].round] == n.rounds[n.log[i].round];
  }

  lemma StartRoundConsistent<R>(cfg: Config<R>, n: Neighborhood<R>, visited: set<Addr>)
    requires Consistent(cfg, n, visited)
    ensures Consistent(cfg, StartRound(n), visited)
  {
    StartRoundInOrder(cfg, n);
  }

  /** Starting a round takes along what the finished rounds covered. */
  lemma StartRoundComplete<R>(cfg: Config<R>, n: Neighborhood<R>, visited: set<Addr>)
    requires Consistent(cfg, n, visited)
    requires Complete(cfg, n, |n.rounds|)
    ensures Complete(cfg, StartRound(n), |n.rounds|)
  {
    var n' := StartRound(n);
    assert n'.rounds[..|n.rounds|] == n.rounds;
    assert forall r | 0 <= r < |n.rounds| :: RoundEnd(n', r) == RoundEnd(n, r);
    CompleteGrows(cfg, n, n', |n.rounds|);
  }

  lemma CompleteExtend<R>(cfg: Config<R>, n: Neighborhood<R>, finished: nat)
    requires Complete(cfg, n, finished)
    requires finished < |n.rounds| && n.rounds[finished] <= |n.frame|
    requires Covered(cfg, n, finished, RoundEnd(n, finished), Endpoints(n.frame[..n.rounds[finished]], cfg.src, cfg.dst))
    ensures Complete(cfg, n, finished + 1)
  {
  }

  lemma CoveredAdd<R>(cfg: Config<R>, n: Neighborhood<R>, r: nat, size: nat, done: set<Addr>, a: Addr)
    requires Covered(cfg, n, r, size, done)
    requires a == cfg.seed || ExpandedBy(n.log, a, r) || (cfg.bounded && size >= RowCeiling)
    ensures Covered(cfg, n, r, size, done + {a})
  {
  }


  /** The first state: the seed's frame was built and sampled, and nothing
      else has happened yet. */
  ghost predicate Initial<R>(cfg: Config<R>, n: Neighborhood<R>, visited: set<Addr>)
  {
    && cfg.expand(cfg.seed).Some?
    && Sampled(n.seedSample, cfg.expand(cfg.seed), cfg.sampleSize)
    && n.frame == n.seedSample && n.log == [] && n.rounds == []
    && visited == {cfg.seed}
  }

  /** Expansion `e` is a legal next step from `n`: it belongs to the current
      round, expands an unvisited address of that round's snapshot, starts
      below the ceiling in the bounded variant, and appends a legal sample
      of the address's frame. */
  ghost predicate CanExpand<R>(cfg: Config<R>, n: Neighborhood<R>, visited: set<Addr>, e: Expansion<R>)
  {
    && |n.rounds| > 0 && e.round == |n.rounds| - 1
    && n.rounds[e.round] <= |n.frame|
    && e.addr in Endpoints(n.frame[..n.rounds[e.round]], cfg.src, cfg.dst)
    && e.addr !in visited
    && (cfg.bounded ==> |n.frame| < RowCeiling)
    && Sampled(e.sample, cfg.expand(e.addr), cfg.sampleSize)
  }

  /** The step that produced a state, read off its trace: nothing yet, an
      expansion (the last logged one, when it belongs to the current
      round), or the start of the current round. */
  datatype LastStep<R> = Began | Expanded(e: Expansion<R>) | StartedRound

  function Last<R>(n: Neighborhood<R>): LastStep<R>
  {
    if |n.rounds| == 0 then Began
    else if |n.log| > 0 && n.log[|n.log| - 1].round == |n.rounds| - 1 then Expanded(n.log[|n.log| - 1])
    else StartedRound
  }

  /** The state before the last step. */
  function Previous<R>(n: Neighborhood<R>): Neighborhood<R>
  {
    match Last(n)
    case Began => n
    case Expanded(e) =>
      if |e.sample| <= |n.frame| && |n.log| > 0 then
        Neighborhood(n.frame[..|n.frame| - |e.sample|], n.seedSample, n.log[..|n.log| - 1], n.rounds)
      else n
    case StartedRound => n.(rounds := n.rounds[..|n.rounds| - 1])
  }

  /** A legal expansion keeps the state consistent. */
  lemma AppendConsistent<R>(cfg: Config<R>, n: Neighborhood<R>, visited: set<Addr>, e: Expansion<R>)
    requires Consistent(cfg, n, visited)
    requires CanExpand(cfg, n, visited, e)
    ensures Consistent(cfg, Append(n, e), visited + {e.addr})
  {
    AppendAssembled(cfg, n, e);
    AppendVisitedOnce(cfg, n, visited, e);
    AppendRoundsInOrder(cfg, n, e);
    AppendUnderCeiling(cfg, n, e);
  }

  /** In a reachable state, a visited address other than the seed was
      expanded in the current round or before. */
  lemma VisitedWasExpanded<R>(cfg: Config<R>, n: Neighborhood<R>, visited: set<Addr>, a: Addr)
    requires Reachable(cfg, n, visited)
    requires |n.rounds| > 0 && a in visited && a != cfg.seed
    ensures ExpandedBy(n.log, a, |n.rounds| - 1)
  {
    ReachableConsistent(cfg, n, visited);
    assert a in LogAddrs(n.log);
    var i :| 0 <= i < |n.log| && n.log[i].addr == a;
    assert n.log[i].round < |n.rounds|;
  }

  /** The states the crawl can reach: the initial state, and every state
      obtained from a reachable one by a legal expansion or by starting a
      round. */
  ghost predicate Reachable<R>(cfg: Config<R>, n: Neighborhood<R>, visited: set<Addr>)
    decreases |n.log| + |n.rounds|
  {
    match Last(n)
    case Began => Initial(cfg, n, visited)
    case Expanded(e) =>
      && |e.sample| <= |n.frame| && |n.log| > 0
      && n == Append(Previous(n), e)
      && e.addr in visited
      && CanExpand(cfg, Previous(n), visited - {e.addr}, e)
      && Reachable(cfg, Previous(n), visited - {e.addr})
    case StartedRound =>
      && n == StartRound(Previous(n))
      && Reachable(cfg, Previous(n), visited)
  }

  /** Every reachable state is consistent. */
  lemma {:induction false} ReachableConsistent<R>(cfg: Config<R>, n: Neighborhood<R>, visited: set<Addr>)
    requires Reachable(cfg, n, visited)
    ensures Consistent(cfg, n, visited)
    decreases |n.log| + |n.rounds|
  {
    var p := Previous(n);
    match Last(n)
    case Began =>
    case Expanded(e) =>
      var pv := visited - {e.addr};
      ReachableConsistent(cfg, p, pv);
      AppendConsistent(cfg, p, pv, e);
      assert pv + {e.addr} == visited;
    case StartedRound =>
      ReachableConsistent(cfg, p, visited);
      StartRoundConsistent(cfg, p, visited);
  }

  /** A legal expansion leads from a reachable state to a reachable state. */
  lemma ReachableAppend<R>(cfg: Config<R>, n: Neighborhood<R>, visited: set<Addr>, e: Expansion<R>)
    requires Reachable(cfg, n, visited)
    requires CanExpand(cfg, n, visited, e)
    ensures Reachable(cfg, Append(n, e), visited + {e.addr})
  {
    var n' := Append(n, e);
    assert n'.frame[..|n.frame|] == n.frame;
    assert n'.log[..|n.log|] == n.log;
    assert (visited + {e.addr}) - {e.addr} == visited;
  }

  /** Starting a round leads from a reachable state to a reachable state. */
  lemma ReachableStartRound<R>(cfg: Config<R>, n: Neighborhood<R>, visited: set<Addr>)
    requires Reachable(cfg, n, visited)
    ensures Reachable(cfg, StartRound(n), visited)
  {
    ReachableConsistent(cfg, n, visited);
    var n' := StartRound(n);
    assert n'.rounds[..|n.rounds|] == n.rounds;
    if |n.log| > 0 {
      assert n.log[|n.log| - 1].round < |n.rounds|;
    }
  }

  lemma {:induction false} FlatMembership<R>(log: seq<Expansion<R>>, x: R)
    requires x in Flat(log)
    ensures exists i | 0 <= i < |log| :: x in log[i].sample
  {
    var k := |log| - 1;
    if x in log[k].sample {
    } else {
      FlatMembership(log[..k], x);
      var i :| 0 <= i < k && x in log[..k][i].sample;
      assert log[i] == log[..k][i];
    }
  }

  /** Every row of the frame was drawn from the frame of the seed or of an
      expanded address. */
  lemma FrameProvenance<R>(cfg: Config<R>, n: Neighborhood<R>, x: R)
    requires Assembled(cfg, n)
    requires x in n.frame
    ensures exists a | a in {cfg.seed} + LogAddrs(n.log) :: cfg.expand(a).Some? && x in cfg.expand(a).value
  {
    var rows := cfg.expand(cfg.seed).value;
    if x in n.seedSample {
      assert x in multiset(n.seedSample);
      assert x in multiset(rows);
      assert cfg.seed in {cfg.seed} + LogAddrs(n.log);
    } else {
      assert x in Flat(n.log);
      FlatMembership(n.log, x);
      var i :| 0 <= i < |n.log| && x in n.log[i].sample;
      var e := n.log[i];
      assert Sampled(e.sample, cfg.expand(e.addr), cfg.sampleSize);
      assert x in multiset(e.sample);
      assert e.addr in LogAddrs(n.log);
      assert cfg.expand(e.addr).Some? && x in cfg.expand(e.addr).value;
    }
  }
}
