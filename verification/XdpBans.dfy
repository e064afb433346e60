/** Cooling bans over whole runs of the packet pipeline: a banned source stays out until its
    ban expires, and its bans keep growing. */
module XdpBans {
  import opened Basics
  import opened Bits
  import opened Xdp

  /** An IPv4 packet of a source. */
  predicate From(p: Packet, x: nat) {
    p.longEnough && p.parsed && !p.ipv6 && p.src == x
  }

  /** Nothing outside the pipeline touches the source's entries: no eviction, no other writer. */
  ghost predicate KeepsBans(x: nat, st: State, after: State) {
    && Lookup(after.block4, x) == Lookup(st.block4, x)
    && Lookup(after.cooling, x) == Lookup(st.cooling, x)
    && (x in st.bloom ==> x in after.bloom)
  }

  ghost predicate Respects(x: nat, st: State, es: seq<Event>) {
    forall i :: 0 <= i < |es| && es[i].Outside? ==> KeepsBans(x, Run(st, es[..i]), es[i].after)
  }

  lemma {:induction false} RespectsPrefix(x: nat, st: State, es: seq<Event>, n: nat)
    requires Respects(x, st, es) && n <= |es|
    ensures Respects(x, st, es[..n])
  {
    hide Run, KeepsBans;
    forall i | 0 <= i < n && es[i].Outside? ensures KeepsBans(x, Run(st, es[..n][..i]), es[..n][i].after) {
      assert es[..n][..i] == es[..i];
    }
  }

  // ---- a ban holds ------------------------------------------------------------------------------

  /** x is banned by entry b, and the Bloom filter lets the blocklist see it. */
  ghost predicate UnderBan(st: State, x: nat, b: Block) {
    x != 0 && Lookup(st.block4, x) == Some(b) && b.action == DROP && x in st.bloom
  }

  /** An entry without expiry is always in force, any other before its second. */
  predicate InForce(b: Block, now: nat) {
    b.expireAt == 0 || now / 1_000_000_000 < b.expireAt
  }

  lemma {:induction false} BlockedPacket(st: State, x: nat, b: Block, p: Packet)
    requires UnderBan(st, x, b) && From(p, x) && InForce(b, p.blockAt)
    ensures var e := Process(st, p).exit; VerdictOf(e) == Drop && !IsBan(e)
  {
    hide CheckFailsafe, Stage75;
  }

  lemma {:induction false} BlockedPacket6(st: State, p: Packet)
    requires p.longEnough && p.parsed && p.ipv6 && p.src6 in st.block6
    requires st.block6[p.src6].action == DROP && InForce(st.block6[p.src6], p.blockAt)
    ensures VerdictOf(Process(st, p).exit) == Drop
  {
    hide CheckFailsafe, Stage75;
  }

  /** Nothing outside the pipeline touches the source's IPv6 entry. */
  ghost predicate Respects6(x: nat, st: State, es: seq<Event>) {
    forall i :: 0 <= i < |es| && es[i].Outside? ==>
      Lookup(es[i].after.block6, x) == Lookup(Run(st, es[..i]).block6, x)
  }

  lemma {:induction false} Block6Persists(st: State, x: nat, es: seq<Event>)
    requires Respects6(x, st, es)
    ensures Lookup(Run(st, es).block6, x) == Lookup(st.block6, x)
    decreases |es|
  {
    hide Decide;
    if |es| == 0 {
    } else {
      var n := |es| - 1;
      forall i | 0 <= i < n && es[..n][i].Outside?
        ensures Lookup(es[..n][i].after.block6, x) == Lookup(Run(st, es[..n][..i]).block6, x)
      {
        assert es[..n][..i] == es[..i];
      }
      Block6Persists(st, x, es[..n]);
      if es[n].Receive? { DecideEffect(Run(st, es[..n]), es[n].p); }
    }
  }

  /** An IPv6 drop entry, which no Bloom filter gates and no packet changes, stops every packet of its
      source in any run until it expires. */
  lemma {:induction false} BlockWindow6(st: State, es: seq<Event>, p: Packet)
    requires Respects6(p.src6, st, es) && p.longEnough && p.parsed && p.ipv6
    requires p.src6 in st.block6 && st.block6[p.src6].action == DROP && InForce(st.block6[p.src6], p.blockAt)
    ensures VerdictOf(Process(Run(st, es), p).exit) == Drop
  {
    hide Run, Process;
    Block6Persists(st, p.src6, es);
    BlockedPacket6(Run(st, es), p);
  }

  lemma {:induction false} OtherPacket(st: State, x: nat, p: Packet)
    requires !(From(p, x) && IsBan(Process(st, p).exit)) && x != 0
    ensures KeepsBans(x, st, Process(st, p).st)
  {
    hide Decide, NextRepeat, ExpireAt;
    DecideEffect(st, p);
  }

  lemma {:induction false} BanStep(st: State, x: nat, b: Block, e: Event)
    requires UnderBan(st, x, b)
    requires e.Outside? ==> KeepsBans(x, st, e.after)
    requires e.Receive? && From(e.p, x) ==> InForce(b, e.p.blockAt)
    ensures UnderBan(Step(st, e), x, b)
  {
    hide Process;
    if e.Receive? {
      if From(e.p, x) { BlockedPacket(st, x, b, e.p); }
      OtherPacket(st, x, e.p);
    }
  }

  lemma {:induction false} BanPersists(st: State, x: nat, b: Block, es: seq<Event>)
    requires UnderBan(st, x, b) && Respects(x, st, es)
    requires forall i :: 0 <= i < |es| && es[i].Receive? && From(es[i].p, x) ==> InForce(b, es[i].p.blockAt)
    ensures UnderBan(Run(st, es), x, b)
    decreases |es|
  {
    hide Step, UnderBan, KeepsBans, From, InForce;
    if |es| == 0 {
    } else {
      var n := |es| - 1;
      RespectsPrefix(x, st, es, n);
      BanPersists(st, x, b, es[..n]);
      BanStep(Run(st, es[..n]), x, b, es[n]);
    }
  }

  /** A drop entry without expiry stops every packet of its source, at any time in any run. */
  lemma {:induction false} PermanentBlock(st: State, x: nat, b: Block, es: seq<Event>, p: Packet)
    requires UnderBan(st, x, b) && b.expireAt == 0 && Respects(x, st, es) && From(p, x)
    ensures VerdictOf(Process(Run(st, es), p).exit) == Drop
  {
    hide Run, Process, UnderBan, KeepsBans;
    BanPersists(st, x, b, es);
    BlockedPacket(Run(st, es), x, b, p);
  }

  // ---- the bans of a source in a run ---------------------------------------------------------------

  /** When a ban was written, its number of doublings, when it ends, and the doublings it has at least:
      eight for a SYN flood. */
  datatype BanRecord = BanRecord(at: nat, r: nat, expireAt: nat, floor: nat)

  predicate Bans(st: State, e: Event, x: nat) {
    e.Receive? && From(e.p, x) && IsBan(Process(st, e.p).exit)
  }

  function RecordOf(st: State, p: Packet): BanRecord {
    var e := Process(st, p).exit;
    var r := NextRepeat(Lookup(st.cooling, p.src), MinRepeat(e));
    BanRecord(BanTime(p, e), r, ExpireAt(BanTime(p, e), r), if e == SynBan then 8 else 0)
  }

  function BanLog(st: State, es: seq<Event>, x: nat): seq<BanRecord>
    decreases |es|
  {
    if |es| == 0 then []
    else
      var before, e := es[..|es| - 1], es[|es| - 1];
      BanLog(st, before, x) + if Bans(Run(st, before), e, x) then [RecordOf(Run(st, before), e.p)] else []
  }

  function Larger(a: nat, b: nat): nat {
    if a < b then b else a
  }

  /** The doublings of a ban: one more than the ban before had, sixteen at most, but no fewer than the
      floor. */
  function Doublings(prev: Option<nat>, floor: nat): nat {
    match prev
    case None => floor
    case Some(n) => Larger(Min(n + 1, 16), floor)
  }

  lemma {:induction false} BanWritten(st: State, p: Packet)
    requires IsBan(Process(st, p).exit)
    ensures var b, st' := RecordOf(st, p), Process(st, p).st;
            && UnderBan(st', p.src, Block(b.expireAt, DROP))
            && Lookup(st'.cooling, p.src) == Some(b.r)
            && b.r == Doublings(Lookup(st.cooling, p.src), b.floor)
  {
    hide Decide, ExpireAt;
    DecideEffect(st, p);
  }

  /** The clock at the stages of a packet, and from packet to packet, does not run backwards. */
  predicate ClockOk(es: seq<Event>) {
    && (forall i :: 0 <= i < |es| && es[i].Receive? ==>
          es[i].p.blockAt <= es[i].p.synAt <= es[i].p.rateAt <= es[i].p.synFloodAt <= MAX64)
    && forall i, j :: 0 <= i < j < |es| && es[i].Receive? && es[j].Receive? ==> es[i].p.synFloodAt <= es[j].p.blockAt
  }

  /** No packet of the source comes between two events once the ban is over. */
  ghost predicate NoneSince(es: seq<Event>, x: nat, i: nat, j: nat, expireAt: nat)
    requires j <= |es|
  {
    forall k :: i < k < j && es[k].Receive? && From(es[k].p, x) ==> es[k].p.blockAt / SECOND < expireAt
  }

  lemma {:induction false} StillListed(st: State, es: seq<Event>, x: nat, i: nat, j: nat)
    requires i < j <= |es| && Respects(x, st, es) && Bans(Run(st, es[..i]), es[i], x)
    requires NoneSince(es, x, i, j, RecordOf(Run(st, es[..i]), es[i].p).expireAt)
    ensures UnderBan(Run(st, es[..j]), x, Block(RecordOf(Run(st, es[..i]), es[i].p).expireAt, DROP))
  {
    hide Run, Process, UnderBan, RecordOf, KeepsBans;
    var st0, st1 := Run(st, es[..i]), Run(st, es[..i + 1]);
    var rest := es[i + 1..j];
    RunNext(st, es, i);
    BanWritten(st0, es[i].p);
    RunSplit(st, es, i + 1, j);
    forall k | 0 <= k < |rest| && rest[k].Outside? ensures KeepsBans(x, Run(st1, rest[..k]), rest[k].after) {
      assert rest[k] == es[i + 1 + k];
      assert rest[..k] == es[i + 1..i + 1 + k];
      RunSplit(st, es, i + 1, i + 1 + k);
    }
    assert forall k :: 0 <= k < |rest| ==> rest[k] == es[i + 1 + k];
    BanPersists(st1, x, Block(RecordOf(st0, es[i].p).expireAt, DROP), rest);
  }

  /** From a ban until it expires, every packet of the source is dropped. */
  lemma {:induction false} BanWindow(st: State, es: seq<Event>, x: nat, i: nat, j: nat)
    requires i < j < |es| && Respects(x, st, es) && ClockOk(es)
    requires Bans(Run(st, es[..i]), es[i], x)
    requires es[j].Receive? && From(es[j].p, x)
    requires es[j].p.blockAt / SECOND < RecordOf(Run(st, es[..i]), es[i].p).expireAt
    ensures VerdictOf(Process(Run(st, es[..j]), es[j].p).exit) == Drop
  {
    hide Run, Process, UnderBan, RecordOf, Respects;
    var b := Block(RecordOf(Run(st, es[..i]), es[i].p).expireAt, DROP);
    forall k | i < k < j && es[k].Receive? && From(es[k].p, x) ensures es[k].p.blockAt / SECOND < b.expireAt {
      EarlierSecond(es[k].p.blockAt, es[j].p.blockAt);
    }
    StillListed(st, es, x, i, j);
    BlockedPacket(Run(st, es[..j]), x, b, es[j].p);
  }

  lemma {:induction false} EarlierSecond(s: nat, t: nat)
    requires s <= t
    ensures s / SECOND <= t / SECOND
  {
  }

  lemma {:induction false} RunSplit(st: State, es: seq<Event>, i: nat, j: nat)
    requires i <= j <= |es|
    ensures Run(st, es[..j]) == Run(Run(st, es[..i]), es[i..j])
    decreases j
  {
    hide Step;
    if i == j {
      assert es[i..j] == [];
    } else {
      RunSplit(st, es, i, j - 1);
      RunNext(st, es, j - 1);
      assert es[i..j][..j - 1 - i] == es[i..j - 1];
      RunNext(Run(st, es[..i]), es[i..j], j - 1 - i);
      assert es[i..j][..j - i] == es[i..j];
    }
  }

  // ---- successive bans -----------------------------------------------------------------------------------

  /** What the maps say about a source after its last ban. */
  ghost predicate LogMatches(st: State, x: nat, log: seq<BanRecord>) {
    if |log| == 0 then Lookup(st.cooling, x) == None
    else
      var last := log[|log| - 1];
      UnderBan(st, x, Block(last.expireAt, DROP)) && Lookup(st.cooling, x) == Some(last.r)
  }

  /** The k-th ban of a log has the doublings its turn gives it, and lasts accordingly. */
  ghost predicate InTurn(log: seq<BanRecord>, k: nat)
    requires k < |log|
  {
    && Min(k, 16) <= log[k].r <= 16 && (log[k].floor == 0 || log[k].floor == 8)
    && log[k].r == Doublings(if k == 0 then None else Some(log[k - 1].r), log[k].floor)
    && log[k].expireAt == log[k].at / 1_000_000_000 + 10 * Pow2(log[k].r)
  }

  /** Each ban expires after the one before, and each is in turn. */
  ghost predicate Growing(log: seq<BanRecord>) {
    && (forall i, j :: 0 <= i < j < |log| ==> log[i].expireAt < log[j].expireAt)
    && forall k :: 0 <= k < |log| ==> InTurn(log, k)
  }

  lemma {:induction false} ShiftBound(r: nat)
    requires r <= MAX_COOLING_SHIFT
    ensures COOLING_BASE_S <= BanSeconds(r) <= 655360
  {
    assert Pow2(8) == 256;
    assert Pow2(16) == 256 * Pow2(8);
    Pow2Monotone(r, 16);
  }

  lemma {:induction false} NotBlocked(st: State, x: nat, b: Block, p: Packet)
    requires UnderBan(st, x, b) && From(p, x) && IsBan(Process(st, p).exit)
    ensures p.blockAt / SECOND >= b.expireAt
  {
    hide Process;
    if p.blockAt / SECOND < b.expireAt { BlockedPacket(st, x, b, p); }
  }

  lemma {:induction false} RecordExpiry(st: State, p: Packet)
    requires IsBan(Process(st, p).exit) && p.blockAt <= p.synAt <= p.rateAt <= p.synFloodAt <= MAX64
    ensures var b := RecordOf(st, p);
            && b.expireAt == b.at / 1_000_000_000 + 10 * Pow2(b.r) && b.expireAt > p.blockAt / SECOND
            && (b.floor == 0 || b.floor == 8)
  {
    hide Process;
    BanWritten(st, p);
    ShiftBound(RecordOf(st, p).r);
    EarlierSecond(p.blockAt, RecordOf(st, p).at);
  }

  lemma {:induction false} GrowingStep(log: seq<BanRecord>, b: BanRecord)
    requires Growing(log) && (b.floor == 0 || b.floor == 8)
    requires b.r == Doublings(if |log| == 0 then None else Some(log[|log| - 1].r), b.floor)
    requires b.expireAt == b.at / 1_000_000_000 + 10 * Pow2(b.r)
    requires |log| > 0 ==> log[|log| - 1].expireAt < b.expireAt
    ensures Growing(log + [b])
  {
    var log', n := log + [b], |log|;
    assert InTurn(log', n) by {
      if n > 0 { assert InTurn(log, n - 1); }
    }
    forall k | 0 <= k < n ensures InTurn(log', k) {
      assert InTurn(log, k);
    }
    hide InTurn;
    forall i | 0 <= i < n ensures log[i].expireAt < b.expireAt {
      assert i < n - 1 ==> log[i].expireAt < log[n - 1].expireAt;
    }
  }

  lemma {:induction false} LogStep(st: State, x: nat, log: seq<BanRecord>, e: Event)
    requires x != 0 && LogMatches(st, x, log) && Growing(log) && Bans(st, e, x)
    requires e.p.blockAt <= e.p.synAt <= e.p.rateAt <= e.p.synFloodAt <= MAX64
    ensures var log' := log + [RecordOf(st, e.p)]; LogMatches(Step(st, e), x, log') && Growing(log')
  {
    hide Process, RecordOf, Growing, Doublings, Pow2;
    BanWritten(st, e.p);
    RecordExpiry(st, e.p);
    if |log| > 0 { NotBlocked(st, x, Block(log[|log| - 1].expireAt, DROP), e.p); }
    GrowingStep(log, RecordOf(st, e.p));
  }

  /** In every run in which nothing else touches the source's entries: its successive bans expire later
      and later, each with the doublings its turn gives it. */
  lemma {:induction false} BansGrow(st: State, es: seq<Event>, x: nat)
    requires x != 0 && Lookup(st.cooling, x) == None && Respects(x, st, es) && ClockOk(es)
    ensures Growing(BanLog(st, es, x)) && LogMatches(Run(st, es), x, BanLog(st, es, x))
    decreases |es|
  {
    hide Step, Growing, LogMatches, KeepsBans, RecordOf, Bans;
    if |es| == 0 {
      EmptyLog(st, x);
    } else {
      var n := |es| - 1;
      var before, e := Run(st, es[..n]), es[n];
      RespectsPrefix(x, st, es, n);
      BansGrow(st, es[..n], x);
      var log := BanLog(st, es[..n], x);
      if Bans(before, e, x) {
        BanIsReceive(before, e, x);
        LogStep(before, x, log, e);
      } else {
        QuietStep(before, x, log, e);
        assert log + [] == log;
      }
    }
  }

  lemma EmptyLog(st: State, x: nat)
    requires Lookup(st.cooling, x) == None
    ensures Growing([]) && LogMatches(st, x, [])
  {
  }

  lemma BanIsReceive(st: State, e: Event, x: nat)
    requires Bans(st, e, x)
    ensures e.Receive?
  {
  }

  lemma {:induction false} QuietStep(st: State, x: nat, log: seq<BanRecord>, e: Event)
    requires x != 0 && LogMatches(st, x, log) && !Bans(st, e, x)
    requires e.Outside? ==> KeepsBans(x, st, e.after)
    ensures LogMatches(Step(st, e), x, log)
  {
    hide Process;
    if e.Receive? { OtherPacket(st, x, e.p); }
  }

  /** Without SYN floods the k-th ban has k doublings, sixteen at most. */
  lemma {:induction false} PlainDoublings(log: seq<BanRecord>, k: nat)
    requires Growing(log) && k < |log| && forall j :: 0 <= j <= k ==> log[j].floor == 0
    ensures log[k].r == Min(k, 16)
    decreases k
  {
    if k == 0 {
    } else {
      PlainDoublings(log, k - 1);
    }
    assert InTurn(log, k);
  }

  /** The length of the k-th ban in seconds: between 10 * 2^min(k, 16) and 655360, counting from zero,
      and exactly the former for a source that was never banned for a SYN flood. */
  lemma {:induction false} BanLength(st: State, es: seq<Event>, x: nat, k: nat)
    requires x != 0 && Lookup(st.cooling, x) == None && Respects(x, st, es) && ClockOk(es)
    requires k < |BanLog(st, es, x)|
    ensures var log := BanLog(st, es, x);
            var length := log[k].expireAt - log[k].at / 1_000_000_000;
            && 10 * Pow2(Min(k, 16)) <= length <= 655360
            && ((forall j :: 0 <= j <= k ==> log[j].floor == 0) ==> length == 10 * Pow2(Min(k, 16)))
  {
    hide Respects, ClockOk, BanLog;
    BansGrow(st, es, x);
    var log := BanLog(st, es, x);
    assert InTurn(log, k);
    ShiftBound(log[k].r);
    Pow2Monotone(Min(k, 16), log[k].r);
    if forall j :: 0 <= j <= k ==> log[j].floor == 0 { PlainDoublings(log, k); }
  }
}
