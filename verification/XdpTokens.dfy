/** The token buckets of the packet pipeline over whole runs: what a source spends is bounded
    by its capacity and the time its bucket has lived. */
module XdpTokens {
  import opened Basics
  import opened Bits
  import opened Xdp
  import opened XdpBans

  /** Tokens a packet spends from its source's bucket: one for passing stage 8, ten more for a
      SYN-only packet that passes stage 9. */
  function Spent(st: State, p: Packet): nat {
    if p.ipv6 || !ReadConfig(st).rateLimit then 0 else TokensOf(Process(st, p).exit, p)
  }

  function TokensOf(e: Exit, p: Packet): nat {
    if e == Passed then (if p.tcp && IsSynOnly(p.flags) then 11 else 1) else if e == SynFloodBan then 1 else 0
  }

  // ---- one packet and one bucket -------------------------------------------------------------------

  /** The bucket after stages 8 and 9. */
  function BucketAfter(b: Option<Bucket>, p: Packet, cfg: Config): Option<Bucket> {
    if !cfg.rateLimit then b
    else
      var c := CheckRate(b, p.rateAt, cfg);
      if c.ban || !(p.tcp && IsSynOnly(p.flags)) then Some(c.bucket) else Some(CheckSynFlood(c.bucket).bucket)
  }

  /** Tokens those stages take. */
  function Taken(b: Option<Bucket>, p: Packet, cfg: Config): nat {
    if !cfg.rateLimit then 0
    else
      var c := CheckRate(b, p.rateAt, cfg);
      if c.ban then 0
      else if p.tcp && IsSynOnly(p.flags) && !CheckSynFlood(c.bucket).ban then 11
      else 1
  }

  /** A packet that gets as far as stage 8 takes its source's bucket through stages 8 and 9; no
      other packet touches a bucket. */
  ghost predicate BucketEffect(st: State, p: Packet, o: Outcome) {
    var b, cfg := Lookup(st.rate, p.src), ReadConfig(st);
    if !p.ipv6 && cfg.rateLimit && (o.exit == RateBan || o.exit == SynFloodBan || o.exit == Passed) then
      && Lookup(o.st.rate, p.src) == BucketAfter(b, p, cfg) && Taken(b, p, cfg) == TokensOf(o.exit, p)
      && (o.exit == SynFloodBan ==> p.tcp && IsSynOnly(p.flags))
      && forall x :: x != p.src ==> Lookup(o.st.rate, x) == Lookup(st.rate, x)
    else o.st.rate == st.rate
  }

  lemma {:induction false} Stage8Bucket(st: State, p: Packet)
    requires !p.ipv6
    ensures BucketEffect(st, p, Stage8(st, p))
  {
    hide CheckRate, CheckSynFlood, NextRepeat, ExpireAt, ReadConfig;
  }

  lemma {:induction false} Stage75Bucket(st: State, p: Packet)
    requires !p.ipv6
    ensures BucketEffect(st, p, Stage75(st, p))
  {
    hide CheckSyn, Stage8, BucketAfter, Taken, NextRepeat, ExpireAt;
    Stage8Bucket(st, p);
    Stage8Bucket(st.(syn := CheckSyn(st.syn, p.src, p.flags).syn), p);
  }

  lemma {:induction false} Stage7Bucket(st: State, p: Packet)
    ensures BucketEffect(st, p, Stage7(st, p))
  {
    hide Stage75, ActionOf, BucketAfter, Taken;
    if !p.ipv6 { Stage75Bucket(st, p); }
  }

  lemma {:induction false} PacketBucket(st: State, p: Packet)
    ensures BucketEffect(st, p, Process(st, p))
    ensures Spent(st, p) > 0 ==> From(p, p.src)
  {
    hide CheckFailsafe, Stage7, BucketAfter, Taken;
    Stage7Bucket(st, p);
    Stage7Bucket(st.(flood := CheckFailsafe(st.flood, p.failsafeAt, p.len)), p);
  }

  // ---- the life of a bucket --------------------------------------------------------------------------

  function Max(a: nat, b: nat): nat {
    if a < b then b else a
  }

  /** Tokens that time can have added. */
  function Refills(elapsed: nat, rate: nat): nat {
    if rate == 0 then 0 else elapsed / rate
  }

  lemma {:induction false} RefillsAdd(a: nat, b: nat, rate: nat)
    ensures Refills(a, rate) + Refills(b, rate) <= Refills(a + b, rate)
  {
    if rate > 0 {
      var q, n := a / rate + b / rate, (a + b) / rate;
      assert a == rate * (a / rate) + a % rate && b == rate * (b / rate) + b % rate;
      assert rate * q == rate * (a / rate) + rate * (b / rate);
      assert a + b == rate * n + (a + b) % rate;
      assert rate * (n + 1) == rate * n + rate;
      if n < q { MulMono(rate, n + 1, q); }
    }
  }

  /** When a bucket was created and what has been spent from it. */
  datatype Life = Life(born: nat, spent: nat)

  ghost predicate InBudget(b: Bucket, l: Life) {
    && b.tokens <= b.capacity && l.born <= b.lastRefill
    && l.spent + b.tokens <= Max(b.capacity, 1) + Refills(b.lastRefill - l.born, b.refillRate)
  }

  lemma {:induction false} RefilledInBudget(b: Bucket, l: Life, now: nat)
    requires InBudget(b, l)
    ensures InBudget(Refilled(b, now), l)
    ensures var r := Refilled(b, now); r.capacity == b.capacity && r.refillRate == b.refillRate
  {
    if now >= b.lastRefill {
      RefillsAdd(b.lastRefill - l.born, now - b.lastRefill, b.refillRate);
      assert (b.lastRefill - l.born) + (now - b.lastRefill) == now - l.born;
    }
  }

  /** A packet takes a live bucket from budget to budget. */
  lemma {:induction false} TakenInBudget(b: Bucket, l: Life, p: Packet, cfg: Config)
    requires InBudget(b, l)
    ensures var after := BucketAfter(Some(b), p, cfg);
            && after.Some? && InBudget(after.value, l.(spent := l.spent + Taken(Some(b), p, cfg)))
            && after.value.capacity == b.capacity && after.value.refillRate == b.refillRate
  {
    hide Refilled, Refills;
    RefilledInBudget(b, l, p.rateAt);
  }

  /** A new bucket starts in budget. */
  lemma {:induction false} BornInBudget(p: Packet, cfg: Config)
    requires cfg.rateLimit
    ensures var after := BucketAfter(None, p, cfg);
            && after.Some? && InBudget(after.value, Life(p.rateAt, Taken(None, p, cfg)))
            && after.value.capacity == cfg.rateCapacity && after.value.refillRate == cfg.rateRefillNs
  {
  }

  // ---- runs ------------------------------------------------------------------------------------------------

  /** Nothing outside the pipeline touches the source's bucket. */
  ghost predicate KeepsBucket(x: nat, st: State, es: seq<Event>) {
    forall i :: 0 <= i < |es| && es[i].Outside? ==> Lookup(es[i].after.rate, x) == Lookup(Run(st, es[..i]).rate, x)
  }

  /** The life of a source's bucket at the end of a run. */
  function LifeOf(st: State, es: seq<Event>, x: nat): Option<Life>
    decreases |es|
  {
    if |es| == 0 then None
    else
      var before, e := es[..|es| - 1], es[|es| - 1];
      var l := LifeOf(st, before, x);
      if !e.Receive? || e.p.src != x then l
      else if l.Some? then Some(Life(l.value.born, l.value.spent + Spent(Run(st, before), e.p)))
      else if x in Run(st, es).rate then Some(Life(e.p.rateAt, Spent(Run(st, before), e.p)))
      else None
  }

  ghost predicate LifeMatches(b: Option<Bucket>, l: Option<Life>) {
    if l.None? then b.None? else b.Some? && InBudget(b.value, l.value)
  }

  lemma {:induction false} LifeStep(st: State, p: Packet, l: Option<Life>)
    requires LifeMatches(Lookup(st.rate, p.src), l)
    ensures var b' := Lookup(Process(st, p).st.rate, p.src);
            var l' := if l.Some? then Some(Life(l.value.born, l.value.spent + Spent(st, p)))
                      else if b'.Some? then Some(Life(p.rateAt, Spent(st, p))) else None;
            LifeMatches(b', l')
  {
    hide BucketAfter, Taken, InBudget, Process;
    PacketBucket(st, p);
    var b, cfg := Lookup(st.rate, p.src), ReadConfig(st);
    if b.Some? {
      TakenInBudget(b.value, l.value, p, cfg);
    } else if cfg.rateLimit {
      BornInBudget(p, cfg);
    }
  }

  lemma {:induction false} LivesInBudget(st: State, es: seq<Event>, x: nat)
    requires x !in st.rate && KeepsBucket(x, st, es)
    ensures LifeMatches(Lookup(Run(st, es).rate, x), LifeOf(st, es, x))
    decreases |es|
  {
    hide Process, LifeMatches, Spent;
    if |es| == 0 {
      NoLife(st, x);
    } else {
      var n := |es| - 1;
      var before, e := Run(st, es[..n]), es[n];
      KeepsBucketPrefix(x, st, es, n);
      LivesInBudget(st, es[..n], x);
      if e.Receive? {
        if e.p.src == x {
          LifeStep(before, e.p, LifeOf(st, es[..n], x));
        } else {
          OtherBucket(before, e.p, x);
        }
      }
    }
  }

  lemma NoLife(st: State, x: nat)
    requires x !in st.rate
    ensures LifeMatches(Lookup(st.rate, x), None)
  {
  }

  lemma {:induction false} OtherBucket(st: State, p: Packet, x: nat)
    requires p.src != x
    ensures Lookup(Process(st, p).st.rate, x) == Lookup(st.rate, x)
  {
    hide Process, BucketAfter, Taken;
    PacketBucket(st, p);
  }

  lemma {:induction false} KeepsBucketPrefix(x: nat, st: State, es: seq<Event>, n: nat)
    requires KeepsBucket(x, st, es) && n <= |es|
    ensures KeepsBucket(x, st, es[..n])
  {
    hide Run;
    forall i | 0 <= i < n && es[i].Outside?
      ensures Lookup(es[..n][i].after.rate, x) == Lookup(Run(st, es[..n][..i]).rate, x)
    {
      assert es[..n][..i] == es[..i];
    }
  }

  lemma {:induction false} RefillsMonotone(a: nat, b: nat, rate: nat)
    requires a <= b
    ensures Refills(a, rate) <= Refills(b, rate)
  {
    RefillsAdd(a, b - a, rate);
  }

  /** In every run that starts without a bucket for the source: at any time, what the source has
      spent is at most its capacity, or one, and a token per refill interval since its bucket was
      created; and the bucket never holds more than its capacity. */
  lemma {:induction false} TokenBound(st: State, es: seq<Event>, x: nat, now: nat)
    requires x !in st.rate && KeepsBucket(x, st, es)
    requires LifeOf(st, es, x).Some?
    ensures x in Run(st, es).rate
    ensures var b, l := Run(st, es).rate[x], LifeOf(st, es, x).value;
            && b.tokens <= b.capacity && l.born <= b.lastRefill
            && (b.lastRefill <= now ==> l.spent <= Max(b.capacity, 1) + Refills(now - l.born, b.refillRate))
  {
    hide Run, LifeOf, KeepsBucket, Refills;
    LivesInBudget(st, es, x);
    var b, l := Run(st, es).rate[x], LifeOf(st, es, x).value;
    if b.lastRefill <= now { RefillsMonotone(b.lastRefill - l.born, now - l.born, b.refillRate); }
  }
}
