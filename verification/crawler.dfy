/** The depth-bounded neighbourhood crawl shared by
    `make_df_ofdepth_sampling` and `make_df2_ofdepth_sampling`.

    Starting from a seed address, the crawl builds the seed's frame and
    keeps a random sample of it. Then, for `depth` rounds, it takes the set
    of addresses appearing in the frame at the start of the round and
    expands each one not yet visited: marks it visited, builds its frame,
    and appends a sample of that frame. A failed expansion is swallowed and
    appends nothing; since the address was marked before the attempt, it is
    never retried. The bounded variant starts an expansion only while the
    frame has fewer than 500 rows.

    The model is generic in the row type `R`: `expand` builds the frame of
    an address (None when the fetch or the frame construction raised), and
    `src`/`dst` read the two addresses of a row. Besides the frame, the
    crawl returns a trace of what it did, so that the contracts can speak
    about rounds and snapshots. */
module Crawler {
  import opened Common
  import opened Transactions
  import opened CrawlTrace

  /** `df.sample(n = n)`: n rows drawn without replacement, in no particular
      order. Each draw is a nondeterministic choice, so nothing beyond the
      contract may be assumed of the result. */
  method Sample<R>(df: seq<R>, n: nat) returns (s: seq<R>)
    requires n <= |df|
    ensures |s| == n
    ensures multiset(s) <= multiset(df)
  {
    s := [];
    var rest := df;
    while |s| < n
      invariant |s| <= n
      invariant |s| + |rest| == |df|
      invariant multiset(s) + multiset(rest) == multiset(df)
    {
      var k :| 0 <= k < |rest|;
      assert rest == rest[..k] + [rest[k]] + rest[k + 1..];
      s := s + [rest[k]];
      rest := rest[..k] + rest[k + 1..];
    }
  }

  /** One iteration of the inner loop: expand `a` unless it was visited
      already (or, in the bounded variant, the frame has reached the
      ceiling). */
  method Visit<R>(cfg: Config<R>, n: Neighborhood<R>, visited: set<Addr>, a: Addr)
    returns (n': Neighborhood<R>, visited': set<Addr>)
    requires Reachable(cfg, n, visited)
    requires |n.rounds| > 0 && n.rounds[|n.rounds| - 1] <= |n.frame|
    requires a in Endpoints(n.frame[..n.rounds[|n.rounds| - 1]], cfg.src, cfg.dst)
    ensures Reachable(cfg, n', visited')
    ensures n'.rounds == n.rounds && n'.seedSample == n.seedSample
    ensures n.log <= n'.log && n.frame <= n'.frame
    ensures a in visited ==> n' == n && visited' == visited
    ensures a !in visited && (!cfg.bounded || |n.frame| < RowCeiling) ==>
      visited' == visited + {a} && |n'.log| == |n.log| + 1 && n'.log[|n.log|].addr == a
    ensures a == cfg.seed || ExpandedBy(n'.log, a, |n.rounds| - 1) || (cfg.bounded && |n'.frame| >= RowCeiling)
  {
    var cur := |n.rounds| - 1;
    if a !in visited && (!cfg.bounded || |n.frame| < RowCeiling) {
      visited' := visited + {a};
      var added: seq<R> := [];
      var fetched := cfg.expand(a);
      if fetched.Some? {
        added := Sample(fetched.value, Min(|fetched.value|, cfg.sampleSize));
      }
      var e := Expansion(a, cur, added);
      ReachableAppend(cfg, n, visited, e);
      n' := Append(n, e);
      assert n'.log[|n.log|] == e;
    } else {
      n', visited' := n, visited;
      if a != cfg.seed && a in visited {
        VisitedWasExpanded(cfg, n, visited, a);
      }
    }
  }

  /** What holds while round `|n.rounds|` runs from state `n`: the round
      started with the whole frame of `n` as its snapshot, and every
      address of the snapshot not pending any more has been dealt with. */
  ghost predicate InRound<R>(cfg: Config<R>, n: Neighborhood<R>, snapshot: set<Addr>,
                             n': Neighborhood<R>, visited': set<Addr>, pending: set<Addr>)
  {
    && Reachable(cfg, n', visited')
    && |n'.rounds| == |n.rounds| + 1 && n'.rounds[..|n.rounds|] == n.rounds
    && n'.rounds[|n.rounds|] == |n.frame|
    && (forall r | 0 <= r < |n'.rounds| :: n'.rounds[r] <= |n'.frame|)
    && n'.seedSample == n.seedSample && n.log <= n'.log && n.frame <= n'.frame
    && snapshot == Endpoints(n.frame, cfg.src, cfg.dst)
    && pending <= snapshot
    && Complete(cfg, n', |n.rounds|)
    && Covered(cfg, n', |n.rounds|, |n'.frame|, snapshot - pending)
  }

  /** One pass of the inner loop: pick a pending address and visit it. */
  method VisitPending<R>(cfg: Config<R>, n: Neighborhood<R>, snapshot: set<Addr>,
                         n': Neighborhood<R>, visited': set<Addr>, pending: set<Addr>)
    returns (n'': Neighborhood<R>, visited'': set<Addr>, pending': set<Addr>)
    requires InRound(cfg, n, snapshot, n', visited', pending)
    requires pending != {}
    ensures InRound(cfg, n, snapshot, n'', visited'', pending')
    ensures pending' < pending
  {
    var cur := |n.rounds|;
    var done := snapshot - pending;
    var a :| a in pending;
    assert n'.frame[..n'.rounds[cur]] == n.frame;
    n'', visited'' := Visit(cfg, n', visited', a);
    CompleteGrows(cfg, n', n'', cur);
    CoveredGrows(cfg, n', n'', cur, |n'.frame|, |n''.frame|, done);
    CoveredAdd(cfg, n'', cur, |n''.frame|, done, a);
    pending' := pending - {a};
    assert snapshot - pending' == done + {a};
  }

  /** Starting a round from a reachable state whose rounds so far are
      complete sets up the inner loop with the whole snapshot pending. */
  lemma BeginRound<R>(cfg: Config<R>, n: Neighborhood<R>, visited: set<Addr>)
    requires Reachable(cfg, n, visited)
    requires Complete(cfg, n, |n.rounds|)
    ensures InRound(cfg, n, Endpoints(n.frame, cfg.src, cfg.dst), StartRound(n), visited, Endpoints(n.frame, cfg.src, cfg.dst))
  {
    ReachableConsistent(cfg, n, visited);
    StartRoundComplete(cfg, n, visited);
    ReachableStartRound(cfg, n, visited);
    assert StartRound(n).rounds[..|n.rounds|] == n.rounds;
  }

  /** When nothing is pending, the round is complete. */
  lemma EndRound<R>(cfg: Config<R>, n: Neighborhood<R>, snapshot: set<Addr>, n': Neighborhood<R>, visited': set<Addr>)
    requires InRound(cfg, n, snapshot, n', visited', {})
    ensures Complete(cfg, n', |n'.rounds|)
  {
    assert n'.frame[..n'.rounds[|n.rounds|]] == n.frame;
    CompleteExtend(cfg, n', |n.rounds|);
  }

  /** One round of the outer loop: snapshot the addresses of the frame and
      visit each of them once, in any order. */
  method Round<R>(cfg: Config<R>, n: Neighborhood<R>, visited: set<Addr>)
    returns (n': Neighborhood<R>, visited': set<Addr>)
    requires Reachable(cfg, n, visited)
    requires Complete(cfg, n, |n.rounds|)
    ensures Reachable(cfg, n', visited')
    ensures |n'.rounds| == |n.rounds| + 1 && n'.rounds[..|n.rounds|] == n.rounds
    ensures n'.rounds[|n.rounds|] == |n.frame|
    ensures n'.seedSample == n.seedSample && n.log <= n'.log && n.frame <= n'.frame
    ensures Complete(cfg, n', |n'.rounds|)
  {
    var snapshot := Endpoints(n.frame, cfg.src, cfg.dst);
    var pending := snapshot;
    BeginRound(cfg, n, visited);
    n', visited' := StartRound(n), visited;
    while pending != {}
      invariant InRound(cfg, n, snapshot, n', visited', pending)
      decreases pending
    {
      n', visited', pending := VisitPending(cfg, n, snapshot, n', visited', pending);
    }
    EndRound(cfg, n, snapshot, n', visited');
  }

  /** The crawl. None when the seed's own frame cannot be built (that call
      is outside the try); otherwise the accumulated frame with its trace. */
  method Crawl<R>(cfg: Config<R>, depth: int) returns (r: Option<Neighborhood<R>>)
    ensures r.None? <==> cfg.expand(cfg.seed).None?
    ensures r.Some? ==> Consistent(cfg, r.value, {cfg.seed} + LogAddrs(r.value.log))
    ensures r.Some? ==> |r.value.rounds| == if depth > 0 then depth else 0
    ensures r.Some? ==> Complete(cfg, r.value, |r.value.rounds|)
    ensures r.Some? && depth <= 0 ==> r.value.log == [] && r.value.frame == r.value.seedSample
  {
    var first := cfg.expand(cfg.seed);
    if first.None? {
      return None;
    }
    var sample := Sample(first.value, Min(|first.value|, cfg.sampleSize));
    var n := Neighborhood(sample, sample, [], []);
    var visited := {cfg.seed};
    var d := depth;
    while d > 0
      invariant Reachable(cfg, n, visited)
      invariant Complete(cfg, n, |n.rounds|)
      invariant |n.rounds| == (if depth > 0 then depth else 0) - (if d > 0 then d else 0)
    {
      n, visited := Round(cfg, n, visited);
      d := d - 1;
    }
    ReachableConsistent(cfg, n, visited);
    return Some(n);
  }
}
