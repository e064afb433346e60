/** What the configuration map decides, and what holds when it is empty. */
module XdpConfig {
  import opened Basics
  import opened Xdp

  /** With the failsafe switched off the circuit neither drops nor counts; with the rate limiter switched
      off there are no bans by tokens and no buckets change. */
  lemma {:induction false} SwitchedOff(st: State, p: Packet, cfg: Config)
    requires st.config == Some(cfg)
    ensures !cfg.failsafe ==> Process(st, p).exit != FailsafeDrop && Process(st, p).st.flood == st.flood
    ensures !cfg.rateLimit ==> Process(st, p).exit !in {RateBan, SynFloodBan} && Process(st, p).st.rate == st.rate
  {
    hide CheckFailsafe, ActionOf, CheckSyn, CheckRate, CheckSynFlood, NextRepeat, ExpireAt, BumpOn;
    Stage7Effect(st, p);
    if !cfg.rateLimit {
      LimiterOff(st, p);
      LimiterOff(st.(flood := CheckFailsafe(st.flood, p.failsafeAt, p.len)), p);
    }
    hide Stage7;
  }

  lemma {:induction false} LimiterOff(st: State, p: Packet)
    requires !ReadConfig(st).rateLimit
    ensures Stage7(st, p).exit !in {RateBan, SynFloodBan} && Stage7(st, p).st.rate == st.rate
  {
    hide ActionOf, CheckSyn, NextRepeat, ExpireAt;
  }

  // ---- an empty map --------------------------------------------------------------------------------

  function Stored(st: State): State {
    st.(config := Some(Config(true, true, 1000, 1_000_000)))
  }

  ghost predicate AsStored(o: Outcome, o': Outcome) {
    o'.exit == o.exit && o'.st == Stored(o.st)
  }

  lemma {:induction false} BannedStored(st: State, src: nat, at: nat, minR: nat)
    ensures Banned(Stored(st), src, at, minR) == Stored(Banned(st, src, at, minR))
  {
    hide NextRepeat, ExpireAt;
  }

  lemma {:induction false} Stage9Stored(st: State, p: Packet)
    ensures AsStored(Stage9(st, p), Stage9(Stored(st), p))
  {
    hide Banned, CheckSynFlood;
    if p.src in st.rate {
      BannedStored(st.(rate := st.rate[p.src := CheckSynFlood(st.rate[p.src]).bucket]), p.src, p.synFloodAt, 0);
    }
  }

  lemma {:induction false} Stage8Stored(st: State, p: Packet)
    requires st.config == None
    ensures AsStored(Stage8(st, p), Stage8(Stored(st), p))
  {
    hide Banned, CheckRate, Stage9;
    var st' := st.(rate := st.rate[p.src := CheckRate(Lookup(st.rate, p.src), p.rateAt, ReadConfig(st)).bucket]);
    BannedStored(st', p.src, p.rateAt, 0);
    Stage9Stored(st', p);
  }

  lemma {:induction false} Stage75Stored(st: State, p: Packet)
    requires st.config == None
    ensures AsStored(Stage75(st, p), Stage75(Stored(st), p))
  {
    hide Banned, CheckSyn, Stage8;
    var st' := st.(syn := CheckSyn(st.syn, p.src, p.flags).syn);
    BannedStored(st', p.src, p.synAt, SYN_FLOOD_PENALTY_R);
    Stage8Stored(st, p);
    Stage8Stored(st', p);
  }

  lemma {:induction false} Stage7Stored(st: State, p: Packet)
    requires st.config == None
    ensures AsStored(Stage7(st, p), Stage7(Stored(st), p))
  {
    hide Stage75, ActionOf;
    Stage75Stored(st, p);
  }

  /** An empty configuration map means failsafe and rate limiter on, a thousand tokens, and one more every
      millisecond. */
  lemma {:induction false} MissingConfig(st: State, p: Packet)
    requires st.config == None
    ensures AsStored(Process(st, p), Process(Stored(st), p))
  {
    hide Stage7, CheckFailsafe, BumpOn;
    Stage7Stored(st, p);
    Stage7Stored(st.(flood := CheckFailsafe(st.flood, p.failsafeAt, p.len)), p);
  }
}
