/** The SYN flood counter over whole runs of the packet pipeline: what it takes to be banned
    for a SYN flood, and how long such a ban is. */
module XdpSyn {
  import opened Basics
  import opened Bits
  import opened Xdp
  import opened XdpBans

  // ---- flags ---------------------------------------------------------------------------------------

  /** The control bits of a TCP header. */
  datatype TcpBits = TcpBits(cwr: bool, ece: bool, urg: bool, ack: bool, psh: bool, rst: bool, syn: bool, fin: bool)

  function Digit(b: bool): nat {
    if b then 1 else 0
  }

  /** The octet that carries them, as section 3.1 of RFC 9293 orders them. */
  function Octet(t: TcpBits): nat {
    128 * Digit(t.cwr) + 64 * Digit(t.ece) + 32 * Digit(t.urg) + 16 * Digit(t.ack)
    + 8 * Digit(t.psh) + 4 * Digit(t.rst) + 2 * Digit(t.syn) + Digit(t.fin)
  }

  /** What counts as an acknowledgement and what as a bare SYN. */
  lemma {:induction false} FlagsMean(t: TcpBits)
    ensures IsAck(Octet(t)) <==> t.ack && !t.syn
    ensures IsSynOnly(Octet(t)) <==> t == TcpBits(false, false, false, false, false, false, true, false)
  {
    var o := Octet(t);
    assert o / 16 == 8 * Digit(t.cwr) + 4 * Digit(t.ece) + 2 * Digit(t.urg) + Digit(t.ack);
    assert o / 2 == 64 * Digit(t.cwr) + 32 * Digit(t.ece) + 16 * Digit(t.urg) + 8 * Digit(t.ack)
                    + 4 * Digit(t.psh) + 2 * Digit(t.rst) + Digit(t.syn);
  }

  // ---- one packet --------------------------------------------------------------------------------------

  predicate GotThrough(p: Packet, e: Exit) {
    p.tcp && !p.ipv6 && (IsBan(e) || e == Passed)
  }

  /** The packet is one that check_syn_counter gets to see. */
  predicate Counted(st: State, p: Packet) {
    GotThrough(p, Process(st, p).exit)
  }

  ghost predicate SynEffect(st: State, p: Packet, o: Outcome) {
    var c := CheckSyn(st.syn, p.src, p.flags);
    && o.st.syn == (if GotThrough(p, o.exit) then c.syn else st.syn)
    && (o.exit == SynBan <==> GotThrough(p, o.exit) && c.ban)
  }

  lemma {:induction false} Stage8Syn(st: State, p: Packet)
    ensures var o := Stage8(st, p);
            o.st.syn == st.syn && o.exit != SynBan && (IsBan(o.exit) || o.exit == Passed)
  {
    hide CheckRate, CheckSynFlood, NextRepeat, ExpireAt;
  }

  lemma {:induction false} Stage75Syn(st: State, p: Packet)
    requires !p.ipv6
    ensures SynEffect(st, p, Stage75(st, p))
  {
    hide CheckSyn, Stage8, NextRepeat, ExpireAt;
    Stage8Syn(st, p);
    Stage8Syn(st.(syn := CheckSyn(st.syn, p.src, p.flags).syn), p);
  }

  lemma {:induction false} Stage7Syn(st: State, p: Packet)
    ensures SynEffect(st, p, Stage7(st, p))
  {
    hide CheckSyn, ActionOf, Stage75;
    if !p.ipv6 { Stage75Syn(st, p); }
  }

  /** A packet that the counter sees goes through it; no other packet changes it. */
  lemma {:induction false} SynAfter(st: State, p: Packet)
    ensures SynEffect(st, p, Process(st, p))
  {
    hide CheckFailsafe, CheckSyn, Stage7;
    Stage7Syn(st, p);
    Stage7Syn(st.(flood := CheckFailsafe(st.flood, p.failsafeAt, p.len)), p);
  }

  // ---- runs ----------------------------------------------------------------------------------------

  /** Over a run, for one source: SYN-only packets counted, SYN flood bans, and ACKs counted since
      the source has had an entry. */
  datatype Tally = Tally(syns: nat, bans: nat, acks: nat)

  function Tallied(st: State, es: seq<Event>, x: nat): Tally
    decreases |es|
  {
    if |es| == 0 then Tally(0, 0, 0)
    else
      var before, e := es[..|es| - 1], es[|es| - 1];
      var t, s := Tallied(st, before, x), Run(st, before);
      if !e.Receive? || e.p.src != x || !Counted(s, e.p) then t
      else if IsSynOnly(e.p.flags) then
        Tally(t.syns + 1, if Process(s, e.p).exit == SynBan then t.bans + 1 else t.bans, t.acks)
      else if IsAck(e.p.flags) && x in s.syn then t.(acks := t.acks + 1)
      else t
  }

  /** Nothing outside the pipeline touches the source's entry. */
  ghost predicate KeepsSyn(x: nat, st: State, es: seq<Event>) {
    forall i :: 0 <= i < |es| && es[i].Outside? ==> Lookup(es[i].after.syn, x) == Lookup(Run(st, es[..i]).syn, x)
  }

  lemma {:induction false} KeepsSynPrefix(x: nat, st: State, es: seq<Event>, n: nat)
    requires KeepsSyn(x, st, es) && n <= |es|
    ensures KeepsSyn(x, st, es[..n])
  {
    hide Run;
    forall i | 0 <= i < n && es[i].Outside?
      ensures Lookup(es[..n][i].after.syn, x) == Lookup(Run(st, es[..n][..i]).syn, x)
    {
      assert es[..n][..i] == es[..i];
    }
  }

  ghost predicate SynInv(entry: Option<SynEntry>, t: Tally) {
    match entry
    case None => t == Tally(0, 0, 0)
    case Some(s) =>
      && SYN_FLOOD_THRESHOLD * t.bans <= t.syns && (s.ack == 0 <==> t.acks == 0)
      && (t.acks == 0 ==> s.syn + SYN_FLOOD_THRESHOLD * t.bans == t.syns && s.syn < SYN_FLOOD_THRESHOLD)
  }

  lemma {:induction false} SynStep(syn: map<nat, SynEntry>, x: nat, flags: nat, t: Tally)
    requires SynInv(Lookup(syn, x), t)
    ensures var c := CheckSyn(syn, x, flags);
            var t' := if IsSynOnly(flags) then Tally(t.syns + 1, if c.ban then t.bans + 1 else t.bans, t.acks)
                      else if IsAck(flags) && x in syn then t.(acks := t.acks + 1) else t;
            && SynInv(Lookup(c.syn, x), t')
            && (c.ban ==> IsSynOnly(flags) && t.acks == 0)
  {
  }

  lemma {:induction false} SynElsewhere(syn: map<nat, SynEntry>, x: nat, y: nat, flags: nat)
    requires x != y
    ensures Lookup(CheckSyn(syn, y, flags).syn, x) == Lookup(syn, x)
  {
  }

  lemma {:induction false} SynRun(st: State, es: seq<Event>, x: nat)
    requires x !in st.syn && KeepsSyn(x, st, es)
    ensures SynInv(Lookup(Run(st, es).syn, x), Tallied(st, es, x))
    decreases |es|
  {
    hide Process, GotThrough, CheckSyn, IsAck, IsSynOnly, SynInv;
    if |es| == 0 {
      SynNone();
    } else {
      var n := |es| - 1;
      var s, e := Run(st, es[..n]), es[n];
      KeepsSynPrefix(x, st, es, n);
      SynRun(st, es[..n], x);
      if e.Receive? {
        SynAfter(s, e.p);
        if e.p.src == x {
          SynStep(s.syn, x, e.p.flags, Tallied(st, es[..n], x));
        } else {
          SynElsewhere(s.syn, x, e.p.src, e.p.flags);
        }
      }
    }
  }

  lemma SynNone()
    ensures SynInv(None, Tally(0, 0, 0))
  {
  }

  /** In every run that starts without an entry for the source: until it acknowledges something,
      one SYN flood ban for every fifty SYN-only packets, no more and no fewer. */
  lemma {:induction false} SynBansEarned(st: State, es: seq<Event>, x: nat)
    requires x !in st.syn && KeepsSyn(x, st, es)
    ensures var t := Tallied(st, es, x);
            && 50 * t.bans <= t.syns
            && (t.acks == 0 ==> t.bans == t.syns / 50)
  {
    hide Run, Tallied, KeepsSyn;
    SynRun(st, es, x);
  }

  /** A SYN-only packet that the counter sees is banned if and only if the source has no ACK on
      record and the packet completes another fifty: the fiftieth since the last such ban. */
  lemma {:induction false} SynBanExactly(st: State, es: seq<Event>, p: Packet)
    requires p.src !in st.syn && KeepsSyn(p.src, st, es)
    requires Counted(Run(st, es), p) && IsSynOnly(p.flags)
    ensures var t := Tallied(st, es, p.src);
            Process(Run(st, es), p).exit == SynBan
            <==> t.acks == 0 && t.syns + 1 == 50 * (t.bans + 1)
  {
    hide Process, Run, Tallied, KeepsSyn;
    SynRun(st, es, p.src);
    SynAfter(Run(st, es), p);
  }

  /** Nothing but a SYN-only packet is banned for a SYN flood, and the ban lasts 2560 seconds or
      more. */
  lemma {:induction false} SynBanMeans(st: State, p: Packet)
    requires Process(st, p).exit == SynBan && p.synAt <= MAX64
    ensures Counted(st, p) && IsSynOnly(p.flags)
    ensures var b := RecordOf(st, p);
            && b.expireAt - b.at / SECOND >= 2560
            && (p.src !in st.cooling ==> b.expireAt - b.at / SECOND == 2560)
  {
    hide Process, IsAck, NextRepeat;
    SynAfter(st, p);
    BanWritten(st, p);
    ShiftBound(RecordOf(st, p).r);
    AtLeastEight(Lookup(st.cooling, p.src));
    Pow2Monotone(8, RecordOf(st, p).r);
    assert Pow2(8) == 256;
  }

  lemma {:induction false} AtLeastEight(prev: Option<nat>)
    ensures NextRepeat(prev, SYN_FLOOD_PENALTY_R) >= 8
  {
  }
}
