/** Where bans end, and where they do not begin: a blocklist entry that has expired, or that the Bloom
    filter keeps from being read, is no entry at all. */
module XdpExpiry {
  import opened Basics
  import opened Xdp
  import opened XdpBans

  /** The state without some entries of the two blocklists. */
  function Removed(st: State, s4: set<nat>, s6: set<nat>): State {
    st.(block4 := st.block4 - s4, block6 := st.block6 - s6)
  }

  /** The Bloom filter reports the packet's source. */
  predicate Screened(st: State, p: Packet) {
    p.src in st.bloom || p.falsePositive
  }

  /** None of these entries is in force for the packet, or the Bloom filter keeps it from being read. */
  predicate Ignored(st: State, s4: set<nat>, s6: set<nat>, p: Packet) {
    if p.ipv6 then p.src6 in st.block6 && p.src6 in s6 ==> !InForce(st.block6[p.src6], p.blockAt)
    else Screened(st, p) && p.src in st.block4 && p.src in s4 ==> !InForce(st.block4[p.src], p.blockAt)
  }

  /** The same exit, and the same maps apart from those entries; a ban rewrites the source's own. */
  ghost predicate SameFate(s4: set<nat>, s6: set<nat>, p: Packet, o: Outcome, o': Outcome) {
    o'.exit == o.exit && o'.st == Removed(o.st, if IsBan(o.exit) then s4 - {p.src} else s4, s6)
  }

  lemma {:induction false} BannedSame(st: State, s4: set<nat>, s6: set<nat>, src: nat, at: nat, minR: nat)
    ensures Banned(Removed(st, s4, s6), src, at, minR) == Removed(Banned(st, src, at, minR), s4 - {src}, s6)
  {
    hide NextRepeat, ExpireAt;
    var b := Block(ExpireAt(at, NextRepeat(Lookup(st.cooling, src), minR)), DROP);
    assert (st.block4 - s4)[src := b] == st.block4[src := b] - (s4 - {src});
  }

  lemma {:induction false} Stage9Same(st: State, s4: set<nat>, s6: set<nat>, p: Packet)
    ensures SameFate(s4, s6, p, Stage9(st, p), Stage9(Removed(st, s4, s6), p))
  {
    hide Banned, CheckSynFlood;
    if p.src in st.rate {
      var st' := st.(rate := st.rate[p.src := CheckSynFlood(st.rate[p.src]).bucket]);
      BannedSame(st', s4, s6, p.src, p.synFloodAt, 0);
    }
  }

  lemma {:induction false} Stage8Same(st: State, s4: set<nat>, s6: set<nat>, p: Packet)
    ensures SameFate(s4, s6, p, Stage8(st, p), Stage8(Removed(st, s4, s6), p))
  {
    hide Banned, CheckRate, Stage9;
    var st' := st.(rate := st.rate[p.src := CheckRate(Lookup(st.rate, p.src), p.rateAt, ReadConfig(st)).bucket]);
    BannedSame(st', s4, s6, p.src, p.rateAt, 0);
    Stage9Same(st', s4, s6, p);
  }

  lemma {:induction false} Stage75Same(st: State, s4: set<nat>, s6: set<nat>, p: Packet)
    ensures SameFate(s4, s6, p, Stage75(st, p), Stage75(Removed(st, s4, s6), p))
  {
    hide Banned, CheckSyn, Stage8;
    var st' := st.(syn := CheckSyn(st.syn, p.src, p.flags).syn);
    BannedSame(st', s4, s6, p.src, p.synAt, SYN_FLOOD_PENALTY_R);
    Stage8Same(st, s4, s6, p);
    Stage8Same(st', s4, s6, p);
  }

  lemma {:induction false} Stage7Same(st: State, s4: set<nat>, s6: set<nat>, p: Packet)
    requires Ignored(st, s4, s6, p)
    ensures SameFate(s4, s6, p, Stage7(st, p), Stage7(Removed(st, s4, s6), p))
  {
    hide Stage75;
    Stage75Same(st, s4, s6, p);
  }

  /** Ignored entries change nothing: a packet leaves the pipeline at the same place, and leaves the same
      maps, as if they were absent. */
  lemma {:induction false} IgnoredAbsent(st: State, s4: set<nat>, s6: set<nat>, p: Packet)
    requires Ignored(st, s4, s6, p)
    ensures SameFate(s4, s6, p, Process(st, p), Process(Removed(st, s4, s6), p))
  {
    hide Stage7, CheckFailsafe, BumpOn;
    Stage7Same(st, s4, s6, p);
    Stage7Same(st.(flood := CheckFailsafe(st.flood, p.failsafeAt, p.len)), s4, s6, p);
  }

  lemma {:induction false} Stage7NotListed(st: State, p: Packet)
    requires if p.ipv6 then p.src6 !in st.block6 else p.src !in st.block4
    ensures Stage7(st, p).exit !in {BlockDrop, RedirectTx, RedirectFailed}
  {
    hide Stage75, BanEffect;
    Stage75Effect(st, p);
  }

  /** A source without an entry is neither dropped nor redirected by the blocklist. */
  lemma {:induction false} NotListed(st: State, p: Packet)
    requires if p.ipv6 then p.src6 !in st.block6 else p.src !in st.block4
    ensures Process(st, p).exit !in {BlockDrop, RedirectTx, RedirectFailed}
  {
    hide CheckFailsafe, Stage7;
    Stage7NotListed(st, p);
    Stage7NotListed(st.(flood := CheckFailsafe(st.flood, p.failsafeAt, p.len)), p);
  }

  /** A redirect entry, action 3, in force decides the packet unless the failsafe does. */
  lemma {:induction false} Redirected(st: State, x: nat, p: Packet)
    requires From(p, x) && x != 0 && x in st.block4 && x in st.bloom
    requires st.block4[x].action == 3 && InForce(st.block4[x], p.blockAt)
    ensures var exit := Process(st, p).exit;
            exit == FailsafeDrop || VerdictOf(exit) == if p.redirectOk then Tx else Drop
  {
    hide CheckFailsafe, Stage75;
  }

  /** A drop entry decides a packet that gets past the failsafe exactly when it is in force and the Bloom
      filter reports the source. */
  lemma {:induction false} DropExactly(st: State, x: nat, p: Packet)
    requires From(p, x) && x != 0 && x in st.block4 && st.block4[x].action == 2
    requires Process(st, p).exit != FailsafeDrop
    ensures Process(st, p).exit == BlockDrop <==> InForce(st.block4[x], p.blockAt) && Screened(st, p)
  {
    hide Process;
    if InForce(st.block4[x], p.blockAt) && Screened(st, p) {
      ScreenedDrop(st, x, p);
    } else {
      IgnoredAbsent(st, {x}, {}, p);
      NotListed(Removed(st, {x}, {}), p);
    }
  }

  lemma {:induction false} ScreenedDrop(st: State, x: nat, p: Packet)
    requires From(p, x) && x != 0 && x in st.block4 && st.block4[x].action == 2
    requires InForce(st.block4[x], p.blockAt) && Screened(st, p)
    ensures Process(st, p).exit in {FailsafeDrop, BlockDrop}
  {
    hide CheckFailsafe, Stage75;
  }

  // ---- runs -------------------------------------------------------------------------------------

  /** A ban holds exactly until it expires: before, the source's packets are dropped; the first one
      from then on is decided as if the ban had never been written, and not by the blocklist. */
  lemma {:induction false} BanExactly(st: State, es: seq<Event>, x: nat, i: nat, j: nat)
    requires i < j < |es| && Respects(x, st, es) && Bans(Run(st, es[..i]), es[i], x)
    requires es[j].Receive? && From(es[j].p, x)
    requires NoneSince(es, x, i, j, RecordOf(Run(st, es[..i]), es[i].p).expireAt)
    ensures var before, p := Run(st, es[..j]), es[j].p;
            var exit := Process(before, p).exit;
            if p.blockAt / SECOND < RecordOf(Run(st, es[..i]), es[i].p).expireAt then VerdictOf(exit) == Drop
            else
              && exit == Process(Removed(before, {x}, {}), p).exit
              && exit !in {BlockDrop, RedirectTx, RedirectFailed}
  {
    hide Run, Process, RecordOf, Respects;
    var before, p, b := Run(st, es[..j]), es[j].p, Block(RecordOf(Run(st, es[..i]), es[i].p).expireAt, DROP);
    StillListed(st, es, x, i, j);
    BanNonzero(Run(st, es[..i]), es[i].p);
    if p.blockAt / SECOND < b.expireAt {
      BlockedPacket(before, x, b, p);
    } else {
      IgnoredAbsent(before, {x}, {}, p);
      NotListed(Removed(before, {x}, {}), p);
    }
  }

  lemma {:induction false} BanNonzero(st: State, p: Packet)
    requires IsBan(Process(st, p).exit)
    ensures RecordOf(st, p).expireAt > 0
  {
    hide Process, NextRepeat;
  }

  // ---- what the Bloom filter keeps from being read --------------------------------------------------

  /** Nothing outside the pipeline inserts the source into the Bloom filter or removes it. */
  ghost predicate KeepsBloom(x: nat, st: State, es: seq<Event>) {
    forall i :: 0 <= i < |es| && es[i].Outside? ==> (x in es[i].after.bloom <==> x in Run(st, es[..i]).bloom)
  }

  /** Only the pipeline's own bans insert a source into the filter. */
  lemma {:induction false} ScreenedByBans(st: State, es: seq<Event>, x: nat)
    requires KeepsBloom(x, st, es)
    ensures x in Run(st, es).bloom <==> x in st.bloom || |BanLog(st, es, x)| > 0
    decreases |es|
  {
    hide Decide, RecordOf, NextRepeat, ExpireAt;
    if |es| == 0 {
    } else {
      var n := |es| - 1;
      forall i | 0 <= i < n && es[i].Outside?
        ensures x in es[..n][i].after.bloom <==> x in Run(st, es[..n][..i]).bloom
      {
        assert es[..n][..i] == es[..i];
      }
      ScreenedByBans(st, es[..n], x);
      if es[n].Receive? { DecideEffect(Run(st, es[..n]), es[n].p); }
    }
  }

  /** So an entry that something else writes has no effect on a source that the pipeline has not banned:
      unless the filter errs, its packets are decided as if the entry were absent. */
  lemma {:induction false} BlockUnseen(st: State, es: seq<Event>, p: Packet)
    requires KeepsBloom(p.src, st, es) && p.src !in st.bloom && |BanLog(st, es, p.src)| == 0
    requires !p.ipv6 && !p.falsePositive
    ensures var before := Run(st, es);
            && Process(before, p).exit == Process(Removed(before, {p.src}, {}), p).exit
            && Process(before, p).exit !in {BlockDrop, RedirectTx, RedirectFailed}
  {
    hide Run, Process, BanLog, KeepsBloom;
    ScreenedByBans(st, es, p.src);
    IgnoredAbsent(Run(st, es), {p.src}, {}, p);
    NotListed(Removed(Run(st, es), {p.src}, {}), p);
  }
}
