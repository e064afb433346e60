/** The XDP packet pipeline: one packet, from the maps before it to the maps after it, the
    stage that decided its fate, and the verdict. */
module Xdp {
  import opened Basics
  import opened Bits

  const MAX64: nat := 0xFFFF_FFFF_FFFF_FFFF
  const MAX32: nat := 0xFFFF_FFFF
  const SECOND: nat := 1_000_000_000

  const COOLING_BASE_S: nat := 10
  const MAX_COOLING_SHIFT: nat := 16
  const SYN_FLOOD_THRESHOLD: nat := 50
  const SYN_FLOOD_PENALTY_R: nat := 8

  const DROP: nat := 2
  const REDIRECT: nat := 3

  const SYN_FLAG: nat := 2
  const ACK_FLAG: nat := 16

  function SatAdd(a: nat, b: nat, max: nat): nat {
    if a + b > max then max else a + b
  }

  function SatSub(a: nat, b: nat): nat {
    if a < b then 0 else a - b
  }

  // ---- map values --------------------------------------------------------------------------

  datatype Config = Config(rateLimit: bool, failsafe: bool, rateCapacity: nat, rateRefillNs: nat)

  const DEFAULT_CONFIG := Config(true, true, 1000, 1_000_000)

  datatype Flood = Flood(open: bool, pps: nat, bps: nat, openSince: nat, ppsThreshold: nat, bpsThreshold: nat,
                         windowStart: nat)

  datatype Block = Block(expireAt: nat, action: nat)

  datatype SynEntry = SynEntry(syn: nat, ack: nat)

  datatype Bucket = Bucket(tokens: nat, lastRefill: nat, capacity: nat, refillRate: nat)

  /** Counters of one CPU, hot and cold path. */
  type Counters = seq<nat>

  const RX: nat := 0
  const PASSED: nat := 1
  const HOT_DROPPED: nat := 2
  const DROPPED: nat := 3
  const RATE_LIMITED: nat := 4
  const REDIRECTED: nat := 5
  const FAILSAFE_DROPS: nat := 6
  const PARSE_ERRORS: nat := 7
  const COOLING_BANS: nat := 8
  const SYN_FLOOD_BANS: nat := 9
  const COUNTERS: nat := 10

  datatype State = State(
    config: Option<Config>, flood: Flood,
    block4: map<nat, Block>, block6: map<nat, Block>, bloom: set<nat>,
    syn: map<nat, SynEntry>, rate: map<nat, Bucket>, cooling: map<nat, nat>,
    stats: seq<Counters>)

  /** A packet with what the parser makes of it, what the environment contributes (CPU, whether
      the honeypot redirect works, a Bloom false positive), and the clock at each stage. */
  datatype Packet = Packet(
    cpu: nat, longEnough: bool, parsed: bool,
    src: nat, ipv6: bool, src6: nat, len: nat, tcp: bool, flags: nat,
    redirectOk: bool, falsePositive: bool,
    failsafeAt: nat, blockAt: nat, synAt: nat, rateAt: nat, synFloodAt: nat)

  /** Where a packet leaves the pipeline. */
  datatype Exit =
    | Short | Unparsed | NonIp | FailsafeDrop | BlockDrop | RedirectTx | RedirectFailed
    | SynBan | RateBan | SynFloodBan | Passed

  datatype Verdict = Pass | Drop | Tx

  function VerdictOf(e: Exit): Verdict {
    if e == NonIp || e == Passed then Pass else if e == RedirectTx then Tx else Drop
  }

  // ---- the stages -----------------------------------------------------------------------------

  function ReadConfig(st: State): Config {
    if st.config.Some? then st.config.value else DEFAULT_CONFIG
  }

  /** check_failsafe: the rolling window, then the circuit. */
  function Rolled(f: Flood, now: nat, len: nat): Flood {
    if SatSub(now, f.windowStart) >= SECOND then f.(pps := 1, bps := len * 8, windowStart := now)
    else f.(pps := SatAdd(f.pps, 1, MAX64), bps := SatAdd(f.bps, len * 8, MAX64))
  }

  function CheckFailsafe(f: Flood, now: nat, len: nat): Flood {
    var g := Rolled(f, now, len);
    if !g.open && (g.pps > g.ppsThreshold || g.bps > g.bpsThreshold) then g.(open := true, openSince := now) else g
  }

  /** The action of a blocklist entry that has not expired. */
  function ActionOf(list: map<nat, Block>, key: nat, now: nat): nat {
    if key in list && (list[key].expireAt == 0 || now / SECOND < list[key].expireAt) then list[key].action else 0
  }

  predicate IsAck(flags: nat) {
    flags / ACK_FLAG % 2 == 1 && flags / SYN_FLAG % 2 == 0
  }

  predicate IsSynOnly(flags: nat) {
    flags == SYN_FLAG
  }

  datatype SynCheck = SynCheck(syn: map<nat, SynEntry>, ban: bool)

  function CheckSyn(syn: map<nat, SynEntry>, src: nat, flags: nat): SynCheck {
    if IsAck(flags) then
      if src in syn then SynCheck(syn[src := SynEntry(0, SatAdd(syn[src].ack, 1, MAX32))], false)
      else SynCheck(syn, false)
    else if !IsSynOnly(flags) then SynCheck(syn, false)
    else if src !in syn then SynCheck(syn[src := SynEntry(1, 0)], false)
    else
      var n := SatAdd(syn[src].syn, 1, MAX32);
      if n >= SYN_FLOOD_THRESHOLD && syn[src].ack == 0 then SynCheck(syn[src := syn[src].(syn := 0)], true)
      else SynCheck(syn[src := syn[src].(syn := n)], false)
  }

  function Refilled(b: Bucket, now: nat): Bucket {
    var elapsed := SatSub(now, b.lastRefill);
    var amount := if b.refillRate == 0 then 0 else elapsed / b.refillRate;
    if amount == 0 then b
    else b.(tokens := Min(SatAdd(b.tokens, amount, MAX64), b.capacity), lastRefill := now)
  }

  datatype BucketCheck = BucketCheck(bucket: Bucket, ban: bool)

  /** check_rate_limit on a source's bucket, if it has one. */
  function CheckRate(bucket: Option<Bucket>, now: nat, cfg: Config): BucketCheck {
    match bucket
    case None => BucketCheck(Bucket(SatSub(cfg.rateCapacity, 1), now, cfg.rateCapacity, cfg.rateRefillNs), false)
    case Some(b) =>
      var r := Refilled(b, now);
      if r.tokens == 0 then BucketCheck(r, true) else BucketCheck(r.(tokens := r.tokens - 1), false)
  }

  /** check_syn_flood on a source's bucket. */
  function CheckSynFlood(b: Bucket): BucketCheck {
    if b.tokens < 10 then BucketCheck(b, true) else BucketCheck(b.(tokens := b.tokens - 10), false)
  }

  /** The repeat count of a source's next ban. */
  function NextRepeat(prev: Option<nat>, minR: nat): nat {
    var floor := Min(minR, MAX_COOLING_SHIFT);
    match prev
    case None => floor
    case Some(n) =>
      var natural := if n < MAX_COOLING_SHIFT then n + 1 else MAX_COOLING_SHIFT;
      if natural > floor then natural else floor
  }

  function BanSeconds(r: nat): nat {
    COOLING_BASE_S * Pow2(r)
  }

  function ExpireAt(now: nat, r: nat): nat {
    SatAdd(now / SECOND, BanSeconds(r), MAX64)
  }

  /** apply_cooling_ban. */
  function Banned(st: State, src: nat, now: nat, minR: nat): State {
    var r := NextRepeat(Lookup(st.cooling, src), minR);
    st.(cooling := st.cooling[src := r],
        block4 := st.block4[src := Block(ExpireAt(now, r), DROP)],
        bloom := st.bloom + {src})
  }

  // ---- the pipeline ------------------------------------------------------------------------------

  datatype Outcome = Outcome(st: State, exit: Exit)

  function Stage9(st: State, p: Packet): Outcome {
    if p.tcp && IsSynOnly(p.flags) && p.src in st.rate then
      var c := CheckSynFlood(st.rate[p.src]);
      var st' := st.(rate := st.rate[p.src := c.bucket]);
      if c.ban then Outcome(Banned(st', p.src, p.synFloodAt, 0), SynFloodBan) else Outcome(st', Passed)
    else Outcome(st, Passed)
  }

  function Stage8(st: State, p: Packet): Outcome {
    if ReadConfig(st).rateLimit then
      var c := CheckRate(Lookup(st.rate, p.src), p.rateAt, ReadConfig(st));
      var st' := st.(rate := st.rate[p.src := c.bucket]);
      if c.ban then Outcome(Banned(st', p.src, p.rateAt, 0), RateBan) else Stage9(st', p)
    else Outcome(st, Passed)
  }

  function Stage75(st: State, p: Packet): Outcome {
    if p.tcp then
      var c := CheckSyn(st.syn, p.src, p.flags);
      var st' := st.(syn := c.syn);
      if c.ban then Outcome(Banned(st', p.src, p.synAt, SYN_FLOOD_PENALTY_R), SynBan) else Stage8(st', p)
    else Stage8(st, p)
  }

  function Stage7(st: State, p: Packet): Outcome {
    if p.ipv6 then Outcome(st, if ActionOf(st.block6, p.src6, p.blockAt) == DROP then BlockDrop else Passed)
    else
      var action := if p.src in st.bloom || p.falsePositive then ActionOf(st.block4, p.src, p.blockAt) else 0;
      if action == DROP then Outcome(st, BlockDrop)
      else if action == REDIRECT then Outcome(st, if p.redirectOk then RedirectTx else RedirectFailed)
      else Stage75(st, p)
  }

  function Stage5(st: State, p: Packet): Outcome {
    if ReadConfig(st).failsafe then
      var st' := st.(flood := CheckFailsafe(st.flood, p.failsafeAt, p.len));
      if st'.flood.open then Outcome(st', FailsafeDrop) else Stage7(st', p)
    else Stage7(st, p)
  }

  /** Everything but the counters. */
  function Decide(st: State, p: Packet): Outcome {
    if !p.longEnough then Outcome(st, Short)
    else if !p.parsed then Outcome(st, Unparsed)
    else if p.src == 0 && !p.ipv6 then Outcome(st, NonIp)
    else Stage5(st, p)
  }

  /** The counters a packet adds one to. */
  function Bumped(e: Exit): set<nat> {
    match e
    case Short => {}
    case Unparsed => {PARSE_ERRORS}
    case NonIp => {RX, PASSED}
    case FailsafeDrop => {RX, FAILSAFE_DROPS, HOT_DROPPED}
    case BlockDrop => {RX, DROPPED, HOT_DROPPED}
    case RedirectTx => {RX, REDIRECTED}
    case RedirectFailed => {RX, REDIRECTED, HOT_DROPPED}
    case SynBan => {RX, COOLING_BANS, SYN_FLOOD_BANS, HOT_DROPPED}
    case RateBan => {RX, COOLING_BANS, RATE_LIMITED}
    case SynFloodBan => {RX, COOLING_BANS, RATE_LIMITED}
    case Passed => {RX, PASSED}
  }

  function Bump(c: Counters, ks: set<nat>): (r: Counters)
    ensures |r| == |c|
  {
    seq(|c|, k requires 0 <= k < |c| => if k in ks then SatAdd(c[k], 1, MAX64) else c[k])
  }

  function BumpOn(stats: seq<Counters>, cpu: nat, ks: set<nat>): (r: seq<Counters>)
    ensures |r| == |stats|
  {
    if cpu < |stats| then stats[cpu := Bump(stats[cpu], ks)] else stats
  }

  function Process(st: State, p: Packet): Outcome {
    var o := Decide(st, p);
    Outcome(o.st.(stats := BumpOn(o.st.stats, p.cpu, Bumped(o.exit))), o.exit)
  }

  // ---- runs ------------------------------------------------------------------------------------------

  /** A packet, or anything else that changes the maps between packets. */
  datatype Event = Receive(p: Packet) | Outside(after: State)

  function Step(st: State, e: Event): State {
    match e
    case Receive(p) => Process(st, p).st
    case Outside(after) => after
  }

  function Run(st: State, es: seq<Event>): State
    decreases |es|
  {
    if |es| == 0 then st else Step(Run(st, es[..|es| - 1]), es[|es| - 1])
  }

  lemma {:induction false} RunNext(st: State, es: seq<Event>, i: nat)
    requires i < |es|
    ensures Run(st, es[..i + 1]) == Step(Run(st, es[..i]), es[i])
  {
    assert es[..i + 1][..i] == es[..i];
  }

  // ---- what a packet leaves alone ----------------------------------------------------------------------

  predicate IsBan(e: Exit) {
    e == SynBan || e == RateBan || e == SynFloodBan
  }

  function BanTime(p: Packet, e: Exit): nat {
    if e == SynBan then p.synAt else if e == RateBan then p.rateAt else p.synFloodAt
  }

  function MinRepeat(e: Exit): nat {
    if e == SynBan then SYN_FLOOD_PENALTY_R else 0
  }

  /** A ban writes the source's entries from the maps as the packet found them; any other exit
      leaves blocklist, Bloom filter and cooling tracker alone. */
  ghost predicate BanEffect(st: State, p: Packet, o: Outcome) {
    if IsBan(o.exit) then
      var b := Banned(st, p.src, BanTime(p, o.exit), MinRepeat(o.exit));
      o.st.block4 == b.block4 && o.st.bloom == b.bloom && o.st.cooling == b.cooling
    else
      o.st.block4 == st.block4 && o.st.bloom == st.bloom && o.st.cooling == st.cooling
  }

  /** The maps that no late stage touches. */
  ghost predicate Untouched(st: State, st': State) {
    st'.config == st.config && st'.flood == st.flood && st'.block6 == st.block6 && st'.stats == st.stats
  }

  /** Two states with the same entries for bans. */
  ghost predicate SameBans(st: State, st': State) {
    st'.block4 == st.block4 && st'.bloom == st.bloom && st'.cooling == st.cooling
  }

  lemma {:induction false} BanEffectFrom(st: State, st': State, p: Packet, o: Outcome)
    requires SameBans(st, st') && BanEffect(st', p, o)
    ensures BanEffect(st, p, o)
  {
    hide NextRepeat, ExpireAt;
  }

  lemma {:induction false} Stage9Effect(st: State, p: Packet)
    ensures var o := Stage9(st, p); BanEffect(st, p, o) && Untouched(st, o.st) && (IsBan(o.exit) || o.exit == Passed)
  {
    hide CheckSynFlood, NextRepeat, ExpireAt;
  }

  lemma {:induction false} Stage8Effect(st: State, p: Packet)
    ensures var o := Stage8(st, p); BanEffect(st, p, o) && Untouched(st, o.st) && (IsBan(o.exit) || o.exit == Passed)
  {
    var c := CheckRate(Lookup(st.rate, p.src), p.rateAt, ReadConfig(st));
    var st' := st.(rate := st.rate[p.src := c.bucket]);
    Stage9Effect(st', p);
    BanEffectFrom(st, st', p, Stage9(st', p));
    hide CheckRate, Stage9, NextRepeat, ExpireAt;
  }

  lemma {:induction false} Stage75Effect(st: State, p: Packet)
    ensures var o := Stage75(st, p); BanEffect(st, p, o) && Untouched(st, o.st) && (IsBan(o.exit) || o.exit == Passed)
  {
    hide CheckSyn, Stage8, NextRepeat, ExpireAt;
    var st' := st.(syn := CheckSyn(st.syn, p.src, p.flags).syn);
    Stage8Effect(st, p);
    Stage8Effect(st', p);
    BanEffectFrom(st, st', p, Stage8(st', p));
  }

  lemma {:induction false} Stage7Effect(st: State, p: Packet)
    ensures var o := Stage7(st, p);
            BanEffect(st, p, o) && Untouched(st, o.st) && o.exit != Short && o.exit != Unparsed && o.exit != NonIp
            && o.exit != FailsafeDrop && (IsBan(o.exit) ==> !p.ipv6)
  {
    hide ActionOf, Stage75, Banned;
    Stage75Effect(st, p);
  }

  /** Apart from the counters: a packet leaves configuration and IPv6 blocklist alone, bans only
      IPv4 sources, and a ban is written from the maps as the packet found them. */
  lemma {:induction false} DecideEffect(st: State, p: Packet)
    ensures var o := Decide(st, p);
            && BanEffect(st, p, o) && o.st.config == st.config && o.st.block6 == st.block6 && o.st.stats == st.stats
            && (IsBan(o.exit) ==> p.longEnough && p.parsed && p.src != 0 && !p.ipv6)
  {
    hide CheckFailsafe, Stage7, Banned, BanEffect;
    var st' := st.(flood := CheckFailsafe(st.flood, p.failsafeAt, p.len));
    Stage7Effect(st, p);
    Stage7Effect(st', p);
    BanEffectFrom(st, st', p, Stage7(st', p));
    QuietEffect(st, st, p, Decide(st, p).exit);
    QuietEffect(st, st', p, Decide(st, p).exit);
  }

  lemma QuietEffect(st: State, st': State, p: Packet, e: Exit)
    requires SameBans(st, st')
    ensures IsBan(e) || BanEffect(st, p, Outcome(st', e))
  {
  }
}
