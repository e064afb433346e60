/** When a source's tokens run out: exactly when, since some earlier visit, it has spent its capacity
    and everything that was refilled since. */
module XdpBudget {
  import opened Basics
  import opened Xdp
  import opened XdpTokens

  /** A packet that got as far as the rate limiter, and the tokens it took. */
  datatype Visit = Visit(at: nat, spent: nat)

  /** The capacity and refill interval a bucket was created with, and all visits to it. */
  datatype Account = Account(capacity: nat, rate: nat, visits: seq<Visit>)

  // ---- refills --------------------------------------------------------------------------------

  /** When the bucket was last refilled, as of visit n: the creation counts, a visit that adds nothing
      does not. */
  function LastRefill(a: Account, n: nat): nat
    requires n < |a.visits|
    decreases n, 1
  {
    if n == 0 then a.visits[0].at
    else if Amount(a, n) > 0 then a.visits[n].at
    else LastRefill(a, n - 1)
  }

  /** The tokens that visit n adds: one for every whole interval since the last refill. */
  function Amount(a: Account, n: nat): nat
    requires 0 < n < |a.visits|
    decreases n, 0
  {
    Refills(SatSub(a.visits[n].at, LastRefill(a, n - 1)), a.rate)
  }

  /** What capacity and refills since visit k leave at visit n after the spending in between; the
      visit that creates a bucket always has a token. */
  function Room(a: Account, k: nat, n: nat): int
    requires k <= n < |a.visits|
    decreases n
  {
    if k == n then (if k == 0 then Max(a.capacity, 1) else a.capacity)
    else Room(a, k, n - 1) - a.visits[n - 1].spent + Amount(a, n)
  }

  // ---- the bucket as a reflected sum -------------------------------------------------------------

  /** Tokens at visit n before it takes any. */
  function Available(a: Account, n: nat): int
    requires n < |a.visits|
  {
    if n == 0 then Max(a.capacity, 1)
    else
      var filled := Available(a, n - 1) - a.visits[n - 1].spent + Amount(a, n);
      if filled < a.capacity then filled else a.capacity
  }

  /** The tokens available are the least room there is since any earlier visit. */
  lemma {:induction false} LeastRoom(a: Account, n: nat) returns (k: nat)
    requires n < |a.visits|
    ensures forall j: nat :: j <= n ==> Available(a, n) <= Room(a, j, n)
    ensures k <= n && Available(a, n) == Room(a, k, n)
    decreases n
  {
    hide Amount;
    if n == 0 {
      k := 0;
    } else {
      var m := LeastRoom(a, n - 1);
      k := if Available(a, n) < a.capacity then m else n;
    }
  }

  // ---- prefixes ------------------------------------------------------------------------------------

  /** Later visits do not change what happened at earlier ones. */
  lemma {:induction false} Earlier(a: Account, v: Visit, n: nat)
    requires n < |a.visits|
    ensures var b := a.(visits := a.visits + [v]);
            LastRefill(b, n) == LastRefill(a, n) && Available(b, n) == Available(a, n)
    ensures n > 0 ==> Amount(a.(visits := a.visits + [v]), n) == Amount(a, n)
    decreases n
  {
    if n == 0 {
    } else {
      Earlier(a, v, n - 1);
    }
  }

  // ---- one visit ---------------------------------------------------------------------------------------

  /** The bucket is what its account says. */
  ghost predicate Balanced(b: Bucket, a: Account) {
    && |a.visits| > 0 && a.capacity <= MAX64
    && var n := |a.visits| - 1;
    && b.capacity == a.capacity && b.refillRate == a.rate && b.lastRefill == LastRefill(a, n)
    && b.tokens == Available(a, n) - a.visits[n].spent && b.tokens <= b.capacity
  }

  /** The account after a visit at a given time. */
  function Visited(a: Account, at: nat, spent: nat): Account {
    a.(visits := a.visits + [Visit(at, spent)])
  }

  lemma {:induction false} RefilledIs(b: Bucket, a: Account, at: nat, spent: nat)
    requires Balanced(b, a)
    ensures var a', n := Visited(a, at, spent), |a.visits|;
            && 0 <= Available(a', n) <= a.capacity
            && Refilled(b, at) == Bucket(Available(a', n), LastRefill(a', n), a.capacity, a.rate)
  {
    Earlier(a, Visit(at, spent), |a.visits| - 1);
  }

  /** A visit to a live bucket: refused exactly when nothing is available. */
  lemma {:induction false} VisitStep(b: Bucket, a: Account, p: Packet, cfg: Xdp.Config)
    requires Balanced(b, a) && cfg.rateLimit
    ensures var spent, n := Taken(Some(b), p, cfg), |a.visits|;
            var a' := Visited(a, p.rateAt, spent);
            && BucketAfter(Some(b), p, cfg).Some? && Balanced(BucketAfter(Some(b), p, cfg).value, a')
            && spent == (if Available(a', n) == 0 then 0
                         else if p.tcp && IsSynOnly(p.flags) && Available(a', n) > 10 then 11 else 1)
  {
    hide Refilled, LastRefill, Available;
    RefilledIs(b, a, p.rateAt, Taken(Some(b), p, cfg));
  }

  lemma {:induction false} FirstVisit(p: Packet, cfg: Xdp.Config)
    requires cfg.rateLimit && cfg.rateCapacity <= MAX64
    ensures var spent := Taken(None, p, cfg);
            var a := Account(cfg.rateCapacity, cfg.rateRefillNs, [Visit(p.rateAt, spent)]);
            && BucketAfter(None, p, cfg).Some? && Balanced(BucketAfter(None, p, cfg).value, a)
            && spent == if p.tcp && IsSynOnly(p.flags) && Available(a, 0) > 10 then 11 else 1
  {
  }

  // ---- runs ------------------------------------------------------------------------------------------------

  /** The packet gets to the rate limiter. */
  predicate AtLimiter(st: State, p: Packet) {
    !p.ipv6 && ReadConfig(st).rateLimit && Process(st, p).exit in {RateBan, SynFloodBan, Passed}
  }

  /** The account after one more packet of the source. */
  function Entered(st: State, a: Option<Account>, p: Packet): Option<Account> {
    if !AtLimiter(st, p) then a
    else match a
      case Some(acc) => Some(Visited(acc, p.rateAt, Spent(st, p)))
      case None =>
        var cfg := ReadConfig(st);
        Some(Account(cfg.rateCapacity, cfg.rateRefillNs, [Visit(p.rateAt, Spent(st, p))]))
  }

  /** The account of a source at the end of a run that starts without a bucket for it. */
  function AccountOf(st: State, es: seq<Event>, x: nat): Option<Account>
    decreases |es|
  {
    if |es| == 0 then None
    else
      var before, e := es[..|es| - 1], es[|es| - 1];
      var a := AccountOf(st, before, x);
      if e.Receive? && e.p.src == x then Entered(Run(st, before), a, e.p) else a
  }

  ghost predicate BooksMatch(b: Option<Bucket>, a: Option<Account>) {
    if a.None? then b.None? else b.Some? && Balanced(b.value, a.value)
  }

  /** How the limiter decides, by the account that includes the packet's own visit. */
  ghost predicate Decided(a: Account, p: Packet, exit: Exit)
    requires |a.visits| > 0
  {
    var n := |a.visits| - 1;
    && (exit == RateBan <==> Available(a, n) <= 0)
    && (exit == SynFloodBan <==> p.tcp && IsSynOnly(p.flags) && 0 < Available(a, n) <= 10)
  }

  lemma {:induction false} EnteredMatches(st: State, a: Option<Account>, p: Packet)
    requires BooksMatch(Lookup(st.rate, p.src), a) && ReadConfig(st).rateCapacity <= MAX64
    ensures BooksMatch(Lookup(Process(st, p).st.rate, p.src), Entered(st, a, p))
    ensures AtLimiter(st, p) ==> var a' := Entered(st, a, p);
              a'.Some? && |a'.value.visits| > 0 && Decided(a'.value, p, Process(st, p).exit)
  {
    hide BucketAfter, Taken, Balanced, Process, Available;
    PacketBucket(st, p);
    var b, cfg := Lookup(st.rate, p.src), ReadConfig(st);
    if AtLimiter(st, p) {
      assert Spent(st, p) == Taken(b, p, cfg);
      if a.Some? {
        VisitStep(b.value, a.value, p, cfg);
        VisitedRoom(b.value, a.value, p);
      } else {
        FirstVisit(p, cfg);
        FirstRoom(Entered(st, a, p).value);
      }
    }
  }

  lemma {:induction false} VisitedRoom(b: Bucket, a: Account, p: Packet)
    requires Balanced(b, a)
    ensures forall spent :: Available(Visited(a, p.rateAt, spent), |a.visits|) >= 0
  {
    forall spent: nat ensures Available(Visited(a, p.rateAt, spent), |a.visits|) >= 0 {
      RefilledIs(b, a, p.rateAt, spent);
    }
  }

  lemma FirstRoom(a: Account)
    requires |a.visits| == 1
    ensures Available(a, 0) >= 1
  {
  }

  /** The configuration holds 64-bit words. */
  ghost predicate Config64(st: State, es: seq<Event>) {
    forall i :: 0 <= i <= |es| ==> ReadConfig(Run(st, es[..i])).rateCapacity <= MAX64
  }

  lemma {:induction false} Config64At(st: State, es: seq<Event>, n: nat)
    requires Config64(st, es) && n <= |es|
    ensures Config64(st, es[..n]) && ReadConfig(Run(st, es[..n])).rateCapacity <= MAX64
  {
    hide Run, ReadConfig;
    forall i | 0 <= i <= n ensures ReadConfig(Run(st, es[..n][..i])).rateCapacity <= MAX64 {
      assert es[..n][..i] == es[..i];
    }
  }

  lemma {:induction false} BooksKept(st: State, es: seq<Event>, x: nat)
    requires x !in st.rate && KeepsBucket(x, st, es) && Config64(st, es)
    ensures BooksMatch(Lookup(Run(st, es).rate, x), AccountOf(st, es, x))
    decreases |es|
  {
    hide Process, BooksMatch, Entered, Config64;
    if |es| == 0 {
      NoBooks(st, x);
    } else {
      var n := |es| - 1;
      var before, e := Run(st, es[..n]), es[n];
      KeepsBucketPrefix(x, st, es, n);
      Config64At(st, es, n);
      BooksKept(st, es[..n], x);
      if e.Receive? {
        if e.p.src == x {
          EnteredMatches(before, AccountOf(st, es[..n], x), e.p);
        } else {
          OtherBucket(before, e.p, x);
        }
      }
    }
  }

  lemma NoBooks(st: State, x: nat)
    requires x !in st.rate
    ensures BooksMatch(Lookup(st.rate, x), None)
  {
  }

  /** In every run: a packet at the rate limiter is banned if and only if, since some visit of its
      source, the source has spent its capacity and all refills since; and a SYN-only packet that is not
      is banned if and only if ten tokens or fewer are left by that reckoning. */
  lemma {:induction false} BudgetExactly(st: State, es: seq<Event>, p: Packet)
    requires p.src !in st.rate && KeepsBucket(p.src, st, es) && Config64(st, es) && AtLimiter(Run(st, es), p)
    ensures var a := AccountOf(st, es + [Receive(p)], p.src);
            && a.Some? && |a.value.visits| > 0
            && var n, exit := |a.value.visits| - 1, Process(Run(st, es), p).exit;
            && (exit == RateBan <==> exists k: nat :: k <= n && Room(a.value, k, n) <= 0)
            && (exit == SynFloodBan <==>
                  && p.tcp && IsSynOnly(p.flags) && exit != RateBan
                  && exists k: nat :: k <= n && Room(a.value, k, n) <= 10)
  {
    hide Run, Process, BooksMatch, Entered, KeepsBucket, Available, Room;
    var es' := es + [Receive(p)];
    assert es'[..|es|] == es && es[..|es|] == es;
    BooksKept(st, es, p.src);
    Config64At(st, es, |es|);
    EnteredMatches(Run(st, es), AccountOf(st, es, p.src), p);
    var a := AccountOf(st, es', p.src).value;
    var k := LeastRoom(a, |a.visits| - 1);
  }
}
