/** The packet program itself: every check reads and rewrites the shared maps and bumps its
    counters as it goes; proved to be the pipeline of module Xdp. */
module XdpProgram {
  import opened Basics
  import opened Bits
  import opened Xdp

  lemma {:induction false} BumpTwice(stats: seq<Counters>, cpu: nat, a: set<nat>, b: set<nat>)
    requires a !! b
    ensures BumpOn(BumpOn(stats, cpu, a), cpu, b) == BumpOn(stats, cpu, a + b)
  {
    if cpu < |stats| {
      var row := stats[cpu];
      assert Bump(Bump(row, a), b) == Bump(row, a + b);
    }
  }

  /** A stage's outcome with the counters its exit bumps, apart from the one for reception. */
  ghost function Counted(o: Outcome, p: Packet, stats: seq<Counters>): State {
    o.st.(stats := BumpOn(stats, p.cpu, Bumped(o.exit) - {RX}))
  }

  // ---- no stage looks at the counters -------------------------------------------------------------

  ghost function WithStats(o: Outcome, s: seq<Counters>): Outcome {
    Outcome(o.st.(stats := s), o.exit)
  }

  lemma {:induction false} Stage9Stats(st: State, p: Packet, s: seq<Counters>)
    ensures Stage9(st.(stats := s), p) == WithStats(Stage9(st, p), s)
  {
    hide CheckSynFlood, NextRepeat, ExpireAt;
  }

  lemma {:induction false} Stage8Stats(st: State, p: Packet, s: seq<Counters>)
    ensures Stage8(st.(stats := s), p) == WithStats(Stage8(st, p), s)
  {
    hide CheckRate, Stage9, NextRepeat, ExpireAt;
    var bucket := CheckRate(Lookup(st.rate, p.src), p.rateAt, ReadConfig(st)).bucket;
    Stage9Stats(st.(rate := st.rate[p.src := bucket]), p, s);
  }

  lemma {:induction false} Stage75Stats(st: State, p: Packet, s: seq<Counters>)
    ensures Stage75(st.(stats := s), p) == WithStats(Stage75(st, p), s)
  {
    hide CheckSyn, Stage8, NextRepeat, ExpireAt;
    Stage8Stats(st, p, s);
    Stage8Stats(st.(syn := CheckSyn(st.syn, p.src, p.flags).syn), p, s);
  }

  lemma {:induction false} Stage7Stats(st: State, p: Packet, s: seq<Counters>)
    ensures Stage7(st.(stats := s), p) == WithStats(Stage7(st, p), s)
    ensures RX in Bumped(Stage7(st, p).exit)
  {
    Stage7Effect(st, p);
    Stage75Stats(st, p, s);
    hide ActionOf, Stage75;
  }

  class XdpMaps {
    var config: Option<Config>
    var flood: Flood
    var block4: map<nat, Block>
    var block6: map<nat, Block>
    var bloom: set<nat>
    var syn: map<nat, SynEntry>
    var rate: map<nat, Bucket>
    var cooling: map<nat, nat>
    var stats: seq<Counters>

    ghost function V(): State
      reads this
    {
      State(config, flood, block4, block6, bloom, syn, rate, cooling, stats)
    }

    constructor (st: State)
      ensures V() == st
    {
      config, flood, block4, block6, bloom := st.config, st.flood, st.block4, st.block6, st.bloom;
      syn, rate, cooling, stats := st.syn, st.rate, st.cooling, st.stats;
    }

    /** bump_stat and bump_mapped of one counter. */
    method Count(cpu: nat, k: nat)
      modifies this`stats
      ensures stats == BumpOn(old(stats), cpu, {k})
    {
      if cpu < |stats| {
        var row := stats[cpu];
        if k < |row| { row := row[k := SatAdd(row[k], 1, MAX64)]; }
        assert row == Bump(stats[cpu], {k});
        stats := stats[cpu := row];
      }
    }

    method CountTwo(cpu: nat, k: nat, l: nat)
      requires k != l
      modifies this`stats
      ensures stats == BumpOn(old(stats), cpu, {k, l})
    {
      hide BumpOn;
      BumpTwice(stats, cpu, {k}, {l});
      assert {k} + {l} == {k, l};
      Count(cpu, k);
      Count(cpu, l);
    }

    /** apply_cooling_ban. */
    method ApplyCoolingBan(cpu: nat, src: nat, now: nat, minR: nat)
      modifies this`cooling, this`block4, this`bloom, this`stats
      ensures V() == Banned(old(V()), src, now, minR).(stats := BumpOn(old(stats), cpu, {COOLING_BANS}))
    {
      hide BumpOn, Pow2;
      var floor := if minR <= MAX_COOLING_SHIFT then minR else MAX_COOLING_SHIFT;
      var r := floor;
      if src in cooling {
        var prev := cooling[src];
        var natural := if prev < MAX_COOLING_SHIFT then prev + 1 else MAX_COOLING_SHIFT;
        r := if natural > floor then natural else floor;
      }
      cooling := cooling[src := r];
      block4 := block4[src := Block(SatAdd(now / SECOND, COOLING_BASE_S * Pow2(r), MAX64), DROP)];
      bloom := bloom + {src};
      Count(cpu, COOLING_BANS);
    }

    /** Stages 9 to 11. */
    method RunStage9(p: Packet) returns (v: Verdict)
      modifies this
      ensures var o := Stage9(old(V()), p); V() == Counted(o, p, old(stats)) && v == VerdictOf(o.exit)
    {
      hide BumpOn, Banned;
      if p.tcp && IsSynOnly(p.flags) && p.src in rate {
        var b := rate[p.src];
        if b.tokens < 10 {
          assert rate[p.src := b] == rate;
          BumpTwice(stats, p.cpu, {COOLING_BANS}, {RATE_LIMITED});
          assert Bumped(SynFloodBan) - {RX} == {COOLING_BANS} + {RATE_LIMITED};
          ApplyCoolingBan(p.cpu, p.src, p.synFloodAt, 0);
          Count(p.cpu, RATE_LIMITED);
          return Drop;
        }
        rate := rate[p.src := b.(tokens := b.tokens - 10)];
      }
      assert Bumped(Passed) - {RX} == {PASSED};
      Count(p.cpu, PASSED);
      return Pass;
    }

    /** check_rate_limit, without the ban. */
    method CheckRateLimit(src: nat, now: nat, cfg: Config) returns (ban: bool)
      modifies this`rate
      ensures var c := CheckRate(Lookup(old(rate), src), now, cfg); rate == old(rate)[src := c.bucket] && ban == c.ban
    {
      hide Refilled;
      if src !in rate {
        rate := rate[src := Bucket(SatSub(cfg.rateCapacity, 1), now, cfg.rateCapacity, cfg.rateRefillNs)];
        return false;
      }
      var b := RefillBucket(rate[src], now);
      if b.tokens == 0 {
        rate := rate[src := b];
        return true;
      }
      rate := rate[src := b.(tokens := b.tokens - 1)];
      return false;
    }

    /** Stages 8 to 11. */
    method RunStage8(p: Packet) returns (v: Verdict)
      modifies this
      ensures var o := Stage8(old(V()), p); V() == Counted(o, p, old(stats)) && v == VerdictOf(o.exit)
    {
      hide BumpOn, Banned, Stage9, CheckRate;
      var cfg := if config.Some? then config.value else DEFAULT_CONFIG;
      if !cfg.rateLimit {
        assert Bumped(Passed) - {RX} == {PASSED};
        Count(p.cpu, PASSED);
        return Pass;
      }
      var ban := CheckRateLimit(p.src, p.rateAt, cfg);
      if ban {
        BumpTwice(stats, p.cpu, {COOLING_BANS}, {RATE_LIMITED});
        assert Bumped(RateBan) - {RX} == {COOLING_BANS} + {RATE_LIMITED};
        ApplyCoolingBan(p.cpu, p.src, p.rateAt, 0);
        Count(p.cpu, RATE_LIMITED);
        return Drop;
      }
      v := RunStage9(p);
    }

    /** Stages 7.5 to 11. */
    method RunStage75(p: Packet) returns (v: Verdict)
      modifies this
      ensures var o := Stage75(old(V()), p); V() == Counted(o, p, old(stats)) && v == VerdictOf(o.exit)
    {
      hide BumpOn, Banned, Stage8;
      if p.tcp {
        var ban := CheckSynCounter(p.src, p.flags);
        if ban {
          SynBanCounters(stats, p.cpu);
          ApplyCoolingBan(p.cpu, p.src, p.synAt, SYN_FLOOD_PENALTY_R);
          CountTwo(p.cpu, SYN_FLOOD_BANS, HOT_DROPPED);
          return Drop;
        }
      }
      v := RunStage8(p);
    }

    /** check_syn_counter, without the ban. */
    method CheckSynCounter(src: nat, flags: nat) returns (ban: bool)
      modifies this`syn
      ensures var c := CheckSyn(old(syn), src, flags); syn == c.syn && ban == c.ban
    {
      if IsAck(flags) {
        if src in syn { syn := syn[src := SynEntry(0, SatAdd(syn[src].ack, 1, MAX32))]; }
        return false;
      }
      if !IsSynOnly(flags) { return false; }
      if src !in syn {
        syn := syn[src := SynEntry(1, 0)];
        return false;
      }
      var n := SatAdd(syn[src].syn, 1, MAX32);
      syn := syn[src := syn[src].(syn := n)];
      ban := n >= SYN_FLOOD_THRESHOLD && syn[src].ack == 0;
      if ban { syn := syn[src := syn[src].(syn := 0)]; }
    }

    /** Stages 6 to 11. */
    method RunStage7(p: Packet) returns (v: Verdict)
      modifies this
      ensures var o := Stage7(old(V()), p); V() == Counted(o, p, old(stats)) && v == VerdictOf(o.exit)
    {
      hide BumpOn, Stage75;
      Stage7Counters();
      if p.ipv6 {
        if ActionOf(block6, p.src6, p.blockAt) == DROP {
          CountTwo(p.cpu, DROPPED, HOT_DROPPED);
          return Drop;
        }
        Count(p.cpu, PASSED);
        return Pass;
      }
      if p.src in bloom || p.falsePositive {
        var action := ActionOf(block4, p.src, p.blockAt);
        if action == DROP {
          CountTwo(p.cpu, DROPPED, HOT_DROPPED);
          return Drop;
        }
        if action == REDIRECT {
          if p.redirectOk {
            Count(p.cpu, REDIRECTED);
            return Tx;
          }
          CountTwo(p.cpu, REDIRECTED, HOT_DROPPED);
          return Drop;
        }
      }
      v := RunStage75(p);
    }

    /** check_failsafe: drops exactly when the circuit is open afterwards. */
    method RunFailsafe(now: nat, len: nat) returns (drop: bool)
      modifies this`flood
      ensures flood == CheckFailsafe(old(flood), now, len) && drop == flood.open
    {
      var elapsed := SatSub(now, flood.windowStart);
      if elapsed >= SECOND {
        flood := flood.(pps := 1, bps := len * 8, windowStart := now);
      } else {
        flood := flood.(pps := SatAdd(flood.pps, 1, MAX64), bps := SatAdd(flood.bps, len * 8, MAX64));
      }
      if !flood.open && (flood.pps > flood.ppsThreshold || flood.bps > flood.bpsThreshold) {
        flood := flood.(open := true, openSince := now);
      }
      return flood.open;
    }

    /** Stages 5 to 11, the packet having been counted as received. */
    method RunStage5(p: Packet) returns (v: Verdict)
      modifies this
      ensures var o := Stage5(old(V()), p); V() == Counted(o, p, old(stats)) && v == VerdictOf(o.exit)
    {
      hide BumpOn, Stage7, CheckFailsafe;
      var cfg := if config.Some? then config.value else DEFAULT_CONFIG;
      if cfg.failsafe {
        var drop := RunFailsafe(p.failsafeAt, p.len);
        if drop {
          assert Bumped(FailsafeDrop) - {RX} == {FAILSAFE_DROPS, HOT_DROPPED};
          CountTwo(p.cpu, FAILSAFE_DROPS, HOT_DROPPED);
          return Drop;
        }
      }
      v := RunStage7(p);
    }

    /** process_packet is the pipeline: same maps, same counters, same verdict. */
    method ProcessPacket(p: Packet) returns (v: Verdict)
      modifies this
      ensures var o := Process(old(V()), p); V() == o.st && v == VerdictOf(o.exit)
    {
      hide BumpOn, Stage5;
      ghost var st := V();
      if !p.longEnough {
        NoBump(stats, p.cpu);
        return Drop;
      }
      if !p.parsed {
        Count(p.cpu, PARSE_ERRORS);
        return Drop;
      }
      Count(p.cpu, RX);
      if p.src == 0 && !p.ipv6 {
        Received(st.stats, p.cpu, Bumped(NonIp));
        assert Bumped(NonIp) - {RX} == {PASSED};
        Count(p.cpu, PASSED);
        return Pass;
      }
      Stage5Stats(st, p, stats);
      Received(st.stats, p.cpu, Bumped(Stage5(st, p).exit));
      v := RunStage5(p);
    }
  }

  lemma {:induction false} Stage5Stats(st: State, p: Packet, s: seq<Counters>)
    ensures Stage5(st.(stats := s), p) == WithStats(Stage5(st, p), s)
    ensures RX in Bumped(Stage5(st, p).exit) && Stage5(st, p).st.stats == st.stats
  {
    hide CheckFailsafe, Stage7;
    var st' := st.(flood := CheckFailsafe(st.flood, p.failsafeAt, p.len));
    Stage7Stats(st, p, s);
    Stage7Stats(st', p, s);
    Stage7Effect(st, p);
    Stage7Effect(st', p);
  }

  /** The refill of check_rate_limit. */
  method RefillBucket(b: Bucket, now: nat) returns (r: Bucket)
    ensures r == Refilled(b, now)
  {
    r := b;
    var elapsed := SatSub(now, b.lastRefill);
    var amount := 0;
    if b.refillRate != 0 { amount := elapsed / b.refillRate; }
    if amount > 0 {
      r := r.(tokens := Min(SatAdd(r.tokens, amount, MAX64), r.capacity));
      r := r.(lastRefill := now);
    }
  }

  lemma {:induction false} NoBump(stats: seq<Counters>, cpu: nat)
    ensures BumpOn(stats, cpu, {}) == stats
  {
    if cpu < |stats| { assert Bump(stats[cpu], {}) == stats[cpu]; }
  }

  lemma {:induction false} Received(stats: seq<Counters>, cpu: nat, ks: set<nat>)
    ensures RX in ks ==> BumpOn(BumpOn(stats, cpu, {RX}), cpu, ks - {RX}) == BumpOn(stats, cpu, ks)
  {
    BumpTwice(stats, cpu, {RX}, ks - {RX});
    assert RX in ks ==> {RX} + (ks - {RX}) == ks;
  }

  lemma {:induction false} SynBanCounters(stats: seq<Counters>, cpu: nat)
    ensures BumpOn(BumpOn(stats, cpu, {COOLING_BANS}), cpu, {SYN_FLOOD_BANS, HOT_DROPPED})
         == BumpOn(stats, cpu, Bumped(SynBan) - {RX})
  {
    BumpTwice(stats, cpu, {COOLING_BANS}, {SYN_FLOOD_BANS, HOT_DROPPED});
    assert Bumped(SynBan) - {RX} == {COOLING_BANS} + {SYN_FLOOD_BANS, HOT_DROPPED};
  }

  lemma Stage7Counters()
    ensures Bumped(BlockDrop) - {RX} == {DROPPED, HOT_DROPPED}
    ensures Bumped(Passed) - {RX} == {PASSED}
    ensures Bumped(RedirectTx) - {RX} == {REDIRECTED}
    ensures Bumped(RedirectFailed) - {RX} == {REDIRECTED, HOT_DROPPED}
  {
  }
}
