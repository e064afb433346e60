/** The pipeline's statistics over whole runs: per-CPU counters, merged with saturation, account
    for every packet. */
module XdpCounters {
  import opened Bits
  import opened Xdp

  ghost predicate WellFormed(stats: seq<Counters>) {
    forall c :: 0 <= c < |stats| ==> |stats[c]| == COUNTERS
  }

  /** A counter summed over the CPUs. */
  function Total(stats: seq<Counters>, k: nat): nat
    requires k < COUNTERS && WellFormed(stats)
  {
    if |stats| == 0 then 0 else Total(stats[..|stats| - 1], k) + stats[|stats| - 1][k]
  }

  /** The same with saturating addition, as the control plane merges. */
  function Merged(stats: seq<Counters>, k: nat): nat
    requires k < COUNTERS && WellFormed(stats)
  {
    if |stats| == 0 then 0 else SatAdd(Merged(stats[..|stats| - 1], k), stats[|stats| - 1][k], MAX64)
  }

  lemma {:induction false} MergedIsTotal(stats: seq<Counters>, k: nat)
    requires k < COUNTERS && WellFormed(stats)
    ensures Merged(stats, k) == Min(Total(stats, k), MAX64)
    decreases |stats|
  {
    if |stats| == 0 {
    } else {
      MergedIsTotal(stats[..|stats| - 1], k);
    }
  }

  lemma {:induction false} TotalBounds(stats: seq<Counters>, k: nat, c: nat)
    requires k < COUNTERS && WellFormed(stats) && c < |stats|
    ensures stats[c][k] <= Total(stats, k)
    decreases |stats|
  {
    if c == |stats| - 1 {
    } else {
      TotalBounds(stats[..|stats| - 1], k, c);
    }
  }

  lemma {:induction false} TotalUpdate(stats: seq<Counters>, c: nat, row: Counters, k: nat)
    requires k < COUNTERS && WellFormed(stats) && c < |stats| && |row| == COUNTERS
    ensures Total(stats[c := row], k) == Total(stats, k) - stats[c][k] + row[k]
    decreases |stats|
  {
    var n := |stats| - 1;
    if c < n {
      TotalUpdate(stats[..n], c, row, k);
      assert stats[c := row][..n] == stats[..n][c := row];
    } else {
      assert stats[c := row][..n] == stats[..n];
    }
  }

  /** Below saturation a bump adds one to the total of each bumped counter. */
  lemma {:induction false} BumpTotal(stats: seq<Counters>, cpu: nat, ks: set<nat>, k: nat)
    requires k < COUNTERS && WellFormed(stats) && cpu < |stats| && Total(stats, k) < MAX64
    ensures WellFormed(BumpOn(stats, cpu, ks))
    ensures Total(BumpOn(stats, cpu, ks), k) == Total(stats, k) + if k in ks then 1 else 0
  {
    TotalBounds(stats, k, cpu);
    TotalUpdate(stats, cpu, Bump(stats[cpu], ks), k);
  }

  // ---- runs ---------------------------------------------------------------------------------------

  function Packets(es: seq<Event>): nat {
    if |es| == 0 then 0 else Packets(es[..|es| - 1]) + if es[|es| - 1].Receive? then 1 else 0
  }

  /** How many packets of a run left the pipeline at a given exit. */
  function ExitCount(st: State, es: seq<Event>, x: Exit): nat
    decreases |es|
  {
    if |es| == 0 then 0
    else
      var before, e := es[..|es| - 1], es[|es| - 1];
      ExitCount(st, before, x) + if e.Receive? then Is(Process(Run(st, before), e.p).exit, x) else 0
  }

  /** Packets arrive on existing CPUs, and nothing else writes the counters. */
  ghost predicate KeepsStats(st: State, es: seq<Event>) {
    forall i :: 0 <= i < |es| ==>
      match es[i]
      case Receive(p) => p.cpu < |st.stats|
      case Outside(after) => after.stats == Run(st, es[..i]).stats
  }

  lemma {:induction false} KeepsStatsPrefix(st: State, es: seq<Event>, n: nat)
    requires KeepsStats(st, es) && n <= |es|
    ensures KeepsStats(st, es[..n])
  {
    hide Run;
    forall i | 0 <= i < n
      ensures match es[..n][i]
              case Receive(p) => p.cpu < |st.stats|
              case Outside(after) => after.stats == Run(st, es[..n][..i]).stats
    {
      assert es[..n][..i] == es[..i];
    }
  }

  ghost predicate AllZero(stats: seq<Counters>) {
    WellFormed(stats) && forall c, k :: 0 <= c < |stats| && 0 <= k < COUNTERS ==> stats[c][k] == 0
  }

  lemma {:induction false} ZeroTotal(stats: seq<Counters>, k: nat)
    requires AllZero(stats) && k < COUNTERS
    ensures Total(stats, k) == 0
    decreases |stats|
  {
    if |stats| == 0 {
    } else {
      ZeroTotal(stats[..|stats| - 1], k);
    }
  }

  lemma {:induction false} StatsAfter(st: State, p: Packet)
    ensures var o := Process(st, p); o.st.stats == BumpOn(st.stats, p.cpu, Bumped(o.exit))
  {
    hide Decide, BumpOn, Bumped;
    DecideEffect(st, p);
  }

  /** The number of packets that bump counter k. */
  function Expected(st: State, es: seq<Event>, k: nat): nat
    decreases |es|
  {
    if |es| == 0 then 0
    else
      var before, e := es[..|es| - 1], es[|es| - 1];
      Expected(st, before, k) + if e.Receive? then Adds(Process(Run(st, before), e.p).exit, k) else 0
  }

  function Adds(e: Exit, k: nat): nat {
    if k in Bumped(e) then 1 else 0
  }

  function Is(e: Exit, x: Exit): nat {
    if e == x then 1 else 0
  }

  lemma {:induction false} TotalIsExpected(st: State, es: seq<Event>, k: nat)
    requires k < COUNTERS && AllZero(st.stats) && KeepsStats(st, es) && Packets(es) <= MAX64
    ensures var after := Run(st, es).stats;
            && |after| == |st.stats| && WellFormed(after)
            && Total(after, k) == Expected(st, es, k) <= Packets(es)
    decreases |es|
  {
    hide Process, Bumped, Total, BumpOn;
    if |es| == 0 {
      ZeroTotal(st.stats, k);
    } else {
      var n := |es| - 1;
      KeepsStatsPrefix(st, es, n);
      TotalIsExpected(st, es[..n], k);
      var before := Run(st, es[..n]);
      if es[n].Receive? {
        var p := es[n].p;
        StatsAfter(before, p);
        BumpTotal(before.stats, p.cpu, Bumped(Process(before, p).exit), k);
      }
    }
  }

  // ---- what the counters add up to --------------------------------------------------------------------

  /** What each exit adds to each counter. */
  lemma {:induction false} AddsAre(e: Exit)
    ensures Adds(e, RX) + Is(e, Short) + Is(e, Unparsed) == 1
    ensures Adds(e, PASSED) == Is(e, NonIp) + Is(e, Passed)
    ensures Adds(e, HOT_DROPPED) == Is(e, FailsafeDrop) + Is(e, BlockDrop) + Is(e, RedirectFailed) + Is(e, SynBan)
    ensures Adds(e, DROPPED) == Is(e, BlockDrop) && Adds(e, FAILSAFE_DROPS) == Is(e, FailsafeDrop)
    ensures Adds(e, RATE_LIMITED) == Is(e, RateBan) + Is(e, SynFloodBan)
    ensures Adds(e, REDIRECTED) == Is(e, RedirectTx) + Is(e, RedirectFailed)
    ensures Adds(e, PARSE_ERRORS) == Is(e, Unparsed) && Adds(e, SYN_FLOOD_BANS) == Is(e, SynBan)
    ensures Adds(e, COOLING_BANS) == Is(e, SynBan) + Is(e, RateBan) + Is(e, SynFloodBan)
  {
    match e
    case Short =>
    case Unparsed =>
    case NonIp =>
    case FailsafeDrop =>
    case BlockDrop =>
    case RedirectTx =>
    case RedirectFailed =>
    case SynBan =>
    case RateBan =>
    case SynFloodBan =>
    case Passed =>
  }

  lemma {:induction false} ExpectedAre(st: State, es: seq<Event>)
    ensures Expected(st, es, RX) + ExitCount(st, es, Short) + ExitCount(st, es, Unparsed) == Packets(es)
    ensures Expected(st, es, PASSED) == ExitCount(st, es, NonIp) + ExitCount(st, es, Passed)
    ensures Expected(st, es, HOT_DROPPED)
         == ExitCount(st, es, FailsafeDrop) + ExitCount(st, es, BlockDrop) + ExitCount(st, es, RedirectFailed)
            + ExitCount(st, es, SynBan)
    ensures Expected(st, es, DROPPED) == ExitCount(st, es, BlockDrop)
    ensures Expected(st, es, FAILSAFE_DROPS) == ExitCount(st, es, FailsafeDrop)
    ensures Expected(st, es, RATE_LIMITED) == ExitCount(st, es, RateBan) + ExitCount(st, es, SynFloodBan)
    ensures Expected(st, es, REDIRECTED) == ExitCount(st, es, RedirectTx) + ExitCount(st, es, RedirectFailed)
    ensures Expected(st, es, PARSE_ERRORS) == ExitCount(st, es, Unparsed)
    ensures Expected(st, es, SYN_FLOOD_BANS) == ExitCount(st, es, SynBan)
    ensures Expected(st, es, COOLING_BANS)
         == ExitCount(st, es, SynBan) + ExitCount(st, es, RateBan) + ExitCount(st, es, SynFloodBan)
    decreases |es|
  {
    hide Process, Adds, Is;
    if |es| == 0 {
    } else {
      var n := |es| - 1;
      ExpectedAre(st, es[..n]);
      if es[n].Receive? { AddsAre(Process(Run(st, es[..n]), es[n].p).exit); }
    }
  }

  /** What the control plane reports. Drops are those of the hot path, which cover the blocklist
      drops of the cold path, failsafe drops, SYN floods and failed redirects. */
  datatype Report = Report(rxPackets: nat, dropped: nat, rateLimited: nat, passed: nat, redirected: nat,
                           failsafeDrops: nat, parseErrors: nat, coolingBans: nat, synFloodBans: nat)

  function ReportOf(stats: seq<Counters>): Report
    requires WellFormed(stats)
  {
    Report(Merged(stats, RX), Merged(stats, HOT_DROPPED), Merged(stats, RATE_LIMITED), Merged(stats, PASSED),
           Merged(stats, REDIRECTED), Merged(stats, FAILSAFE_DROPS), Merged(stats, PARSE_ERRORS),
           Merged(stats, COOLING_BANS), Merged(stats, SYN_FLOOD_BANS))
  }

  lemma OneExit(e: Exit)
    ensures Is(e, Short) + Is(e, Unparsed) + Is(e, NonIp) + Is(e, FailsafeDrop) + Is(e, BlockDrop) + Is(e, RedirectTx)
            + Is(e, RedirectFailed) + Is(e, SynBan) + Is(e, RateBan) + Is(e, SynFloodBan) + Is(e, Passed) == 1
  {
  }

  /** Every packet leaves the pipeline somewhere, once. */
  lemma {:induction false} AllExits(st: State, es: seq<Event>)
    ensures Packets(es)
         == ExitCount(st, es, Short) + ExitCount(st, es, Unparsed) + ExitCount(st, es, NonIp)
            + ExitCount(st, es, FailsafeDrop) + ExitCount(st, es, BlockDrop) + ExitCount(st, es, RedirectTx)
            + ExitCount(st, es, RedirectFailed) + ExitCount(st, es, SynBan) + ExitCount(st, es, RateBan)
            + ExitCount(st, es, SynFloodBan) + ExitCount(st, es, Passed)
    decreases |es|
  {
    hide Process, Is;
    if |es| == 0 {
    } else {
      AllExits(st, es[..|es| - 1]);
      if es[|es| - 1].Receive? { OneExit(Process(Run(st, es[..|es| - 1]), es[|es| - 1].p).exit); }
    }
  }

  /** In every run of fewer than 2^64 packets that starts with the counters at zero, each figure of the
      report is the number of packets that left the pipeline where the figure says. */
  lemma {:induction false} ReportExact(st: State, es: seq<Event>)
    requires AllZero(st.stats) && KeepsStats(st, es) && Packets(es) < 0x1_0000_0000_0000_0000
    ensures var s := Run(st, es).stats;
            && WellFormed(s)
            && var r := ReportOf(s);
            && r.rxPackets == Packets(es) - ExitCount(st, es, Short) - ExitCount(st, es, Unparsed)
            && r.passed == ExitCount(st, es, NonIp) + ExitCount(st, es, Passed)
            && r.dropped == ExitCount(st, es, FailsafeDrop) + ExitCount(st, es, BlockDrop)
                            + ExitCount(st, es, RedirectFailed) + ExitCount(st, es, SynBan)
            && r.rateLimited == ExitCount(st, es, RateBan) + ExitCount(st, es, SynFloodBan)
            && r.redirected == ExitCount(st, es, RedirectTx) + ExitCount(st, es, RedirectFailed)
            && r.failsafeDrops == ExitCount(st, es, FailsafeDrop) && r.parseErrors == ExitCount(st, es, Unparsed)
            && r.synFloodBans == ExitCount(st, es, SynBan)
            && r.coolingBans == ExitCount(st, es, SynBan) + ExitCount(st, es, RateBan) + ExitCount(st, es, SynFloodBan)
  {
    hide Run, Merged, Expected, ExitCount, Total, WellFormed;
    ExpectedAre(st, es);
    MergedIsExpected(st, es, RX);
    MergedIsExpected(st, es, PASSED);
    MergedIsExpected(st, es, HOT_DROPPED);
    MergedIsExpected(st, es, RATE_LIMITED);
    MergedIsExpected(st, es, REDIRECTED);
    MergedIsExpected(st, es, FAILSAFE_DROPS);
    MergedIsExpected(st, es, PARSE_ERRORS);
    MergedIsExpected(st, es, COOLING_BANS);
    MergedIsExpected(st, es, SYN_FLOOD_BANS);
  }

  /** So the report accounts for every packet: received are passed, dropped on the hot path, rate limited
      or sent to the honeypot, and bans are rate limits and SYN floods. */
  lemma {:induction false} CountersConserved(st: State, es: seq<Event>)
    requires AllZero(st.stats) && KeepsStats(st, es) && Packets(es) < 0x1_0000_0000_0000_0000
    ensures var s := Run(st, es).stats;
            && WellFormed(s)
            && var r := ReportOf(s);
            && r.rxPackets == r.passed + r.dropped + r.rateLimited + ExitCount(st, es, RedirectTx)
            && r.coolingBans == r.rateLimited + r.synFloodBans
  {
    hide Run, ReportOf, ExitCount, WellFormed, Packets;
    ReportExact(st, es);
    AllExits(st, es);
  }

  /** How many packets of a run got a given verdict. */
  function VerdictCount(st: State, es: seq<Event>, v: Verdict): nat
    decreases |es|
  {
    if |es| == 0 then 0
    else
      var before, e := es[..|es| - 1], es[|es| - 1];
      VerdictCount(st, before, v)
      + if e.Receive? && VerdictOf(Process(Run(st, before), e.p).exit) == v then 1 else 0
  }

  lemma {:induction false} VerdictsAre(st: State, es: seq<Event>)
    ensures VerdictCount(st, es, Pass) == ExitCount(st, es, NonIp) + ExitCount(st, es, Passed)
    ensures VerdictCount(st, es, Tx) == ExitCount(st, es, RedirectTx)
    ensures VerdictCount(st, es, Pass) + VerdictCount(st, es, Tx) + VerdictCount(st, es, Drop) == Packets(es)
    decreases |es|
  {
    hide Process;
    if |es| == 0 {
    } else {
      VerdictsAre(st, es[..|es| - 1]);
    }
  }

  /** And it agrees with what happened to the packets: those let through are the ones reported as passed,
      and those dropped are the ones reported as dropped, rate limited or malformed, and the frames too
      short to count. */
  lemma {:induction false} VerdictsReported(st: State, es: seq<Event>)
    requires AllZero(st.stats) && KeepsStats(st, es) && Packets(es) < 0x1_0000_0000_0000_0000
    ensures var s := Run(st, es).stats;
            && WellFormed(s)
            && var r := ReportOf(s);
            && VerdictCount(st, es, Pass) == r.passed
            && VerdictCount(st, es, Drop) == r.dropped + r.rateLimited + r.parseErrors + ExitCount(st, es, Short)
  {
    hide Run, ReportOf, ExitCount, WellFormed, Packets, VerdictCount;
    ReportExact(st, es);
    AllExits(st, es);
    VerdictsAre(st, es);
  }

  lemma {:induction false} MergedIsExpected(st: State, es: seq<Event>, k: nat)
    requires k < COUNTERS && AllZero(st.stats) && KeepsStats(st, es) && Packets(es) <= MAX64
    ensures WellFormed(Run(st, es).stats) && Merged(Run(st, es).stats, k) == Expected(st, es, k)
  {
    hide Run, Expected, Total, Merged;
    TotalIsExpected(st, es, k);
    MergedIsTotal(Run(st, es).stats, k);
  }

  /** The loops of ReadStats: the per-CPU values of every counter, folded. */
  method MergeStats(stats: seq<Counters>) returns (merged: Counters)
    requires WellFormed(stats)
    ensures |merged| == COUNTERS && forall k :: 0 <= k < COUNTERS ==> merged[k] == Merged(stats, k)
  {
    merged := seq(COUNTERS, _ => 0);
    for c := 0 to |stats|
      invariant |merged| == COUNTERS
      invariant forall k :: 0 <= k < COUNTERS ==> merged[k] == Merged(stats[..c], k)
    {
      var row := stats[c];
      assert stats[..c + 1][..c] == stats[..c];
      merged := seq(COUNTERS, k requires 0 <= k < COUNTERS && |row| == |merged| == COUNTERS =>
        SatAdd(merged[k], row[k], MAX64));
    }
    assert stats[..|stats|] == stats;
  }

  /** ReadStats: received, passed and dropped from the hot path, the rest from the cold path. */
  method ReadStats(stats: seq<Counters>) returns (r: Report)
    requires WellFormed(stats)
    ensures r == ReportOf(stats)
  {
    hide Merged;
    var m := MergeStats(stats);
    r := Report(m[RX], m[HOT_DROPPED], m[RATE_LIMITED], m[PASSED], m[REDIRECTED], m[FAILSAFE_DROPS],
                m[PARSE_ERRORS], m[COOLING_BANS], m[SYN_FLOOD_BANS]);
  }
}
