/** The kernel's own flood detector over whole runs of the packet pipeline: how many packets it
    lets through in any one-second interval. */
module XdpWindow {
  import opened Basics
  import opened Bits
  import opened Xdp

  /** The packet gets to check_failsafe. */
  predicate Checked(st: State, p: Packet) {
    p.longEnough && p.parsed && !(p.src == 0 && !p.ipv6) && ReadConfig(st).failsafe
  }

  /** It passes check_failsafe. */
  predicate PassesFailsafe(st: State, p: Packet) {
    Checked(st, p) && !CheckFailsafe(st.flood, p.failsafeAt, p.len).open
  }

  function PassCount(st: State, es: seq<Event>): nat
    decreases |es|
  {
    if |es| == 0 then 0
    else
      var before, e := es[..|es| - 1], es[|es| - 1];
      PassCount(st, before) + if e.Receive? && PassesFailsafe(Run(st, before), e.p) then 1 else 0
  }

  /** Nothing outside the pipeline writes the failsafe state. */
  ghost predicate KeepsFlood(st: State, es: seq<Event>) {
    forall i :: 0 <= i < |es| && es[i].Outside? ==> es[i].after.flood == Run(st, es[..i]).flood
  }

  lemma {:induction false} KeepsFloodPrefix(st: State, es: seq<Event>, n: nat)
    requires KeepsFlood(st, es) && n <= |es|
    ensures KeepsFlood(st, es[..n])
  {
    hide Run;
    forall i | 0 <= i < n && es[i].Outside? ensures es[..n][i].after.flood == Run(st, es[..n][..i]).flood {
      assert es[..n][..i] == es[..i];
    }
  }

  /** Only check_failsafe changes the failsafe state, and a packet that it lets through is
      exactly one that the rest of the pipeline sees. */
  lemma {:induction false} FloodAfter(st: State, p: Packet)
    ensures Process(st, p).st.flood
         == if Checked(st, p) then CheckFailsafe(st.flood, p.failsafeAt, p.len) else st.flood
    ensures Checked(st, p) ==> (PassesFailsafe(st, p) <==> Process(st, p).exit != FailsafeDrop)
  {
    hide CheckFailsafe, Stage7;
    Stage7Effect(st, p);
    Stage7Effect(st.(flood := CheckFailsafe(st.flood, p.failsafeAt, p.len)), p);
  }

  // ---- after the circuit has opened ----------------------------------------------------------------

  /** Once open, the circuit stays open and lets nothing through. */
  lemma {:induction false} NoneAfterOpen(st: State, es: seq<Event>)
    requires st.flood.open && KeepsFlood(st, es)
    ensures Run(st, es).flood.open && PassCount(st, es) == 0
    decreases |es|
  {
    hide Process;
    if |es| == 0 {
    } else {
      var n := |es| - 1;
      KeepsFloodPrefix(st, es, n);
      NoneAfterOpen(st, es[..n]);
      if es[n].Receive? { FloodAfter(Run(st, es[..n]), es[n].p); }
    }
  }

  // ---- the bound --------------------------------------------------------------------------------------

  /** Every packet of the run is checked within one second from t. */
  ghost predicate WithinSecond(es: seq<Event>, t: nat) {
    forall i :: 0 <= i < |es| && es[i].Receive? ==> t <= es[i].p.failsafeAt < t + 1_000_000_000
  }

  /** With count packets let through since flood state f0, at most two windows were involved. */
  ghost predicate TwoWindows(f0: Flood, f: Flood, t: nat, count: nat) {
    var thr := f0.ppsThreshold;
    && f.ppsThreshold == thr
    && (|| (f.windowStart == f0.windowStart && count <= Min(f.pps, thr))
        || (f.windowStart >= t && count <= thr + Min(f.pps, thr)))
  }

  lemma {:induction false} CheckStep(f0: Flood, f: Flood, t: nat, count: nat, now: nat, len: nat)
    requires TwoWindows(f0, f, t, count) && t <= now < t + SECOND && f0.ppsThreshold < MAX64
    ensures var g := CheckFailsafe(f, now, len); TwoWindows(f0, g, t, count + if g.open then 0 else 1)
  {
  }

  lemma {:induction false} WindowInvariant(st: State, es: seq<Event>, t: nat)
    requires KeepsFlood(st, es) && WithinSecond(es, t) && st.flood.ppsThreshold < MAX64
    ensures TwoWindows(st.flood, Run(st, es).flood, t, PassCount(st, es))
    decreases |es|
  {
    hide Process, TwoWindows, CheckFailsafe;
    if |es| == 0 {
      NoPasses(st.flood, t);
    } else {
      var n := |es| - 1;
      KeepsFloodPrefix(st, es, n);
      WindowInvariant(st, es[..n], t);
      var before := Run(st, es[..n]);
      if es[n].Receive? {
        var p := es[n].p;
        FloodAfter(before, p);
        CheckStep(st.flood, before.flood, t, PassCount(st, es[..n]), p.failsafeAt, p.len);
      }
    }
  }

  lemma NoPasses(f: Flood, t: nat)
    ensures TwoWindows(f, f, t, 0)
  {
  }

  /** In any second, at most twice the threshold gets past the detector: from any state, for any
      packets, as long as nothing else writes the failsafe state. */
  lemma {:induction false} WindowBound(st: State, es: seq<Event>, t: nat)
    requires KeepsFlood(st, es) && WithinSecond(es, t) && st.flood.ppsThreshold < MAX64
    ensures PassCount(st, es) <= 2 * st.flood.ppsThreshold
  {
    hide Run, PassCount;
    WindowInvariant(st, es, t);
  }

  // ---- the one threshold without a bound -----------------------------------------------------------------

  const IP_PACKET := Packet(0, true, true, 1, false, 0, 0, false, 0, false, false, 0, 0, 0, 0, 0)

  /** With both thresholds at the counters' maximum nothing ever opens the circuit. */
  lemma {:induction false} AllPass(st: State, n: nat)
    requires st.config == None && !st.flood.open && st.flood.pps <= MAX64 && st.flood.bps <= MAX64
    requires st.flood.ppsThreshold == MAX64 && st.flood.bpsThreshold == MAX64
    ensures var es := Repeat(Receive(IP_PACKET), n);
            && PassCount(st, es) == n
            && var after := Run(st, es);
               after.config == None && !after.flood.open && after.flood.pps <= MAX64 && after.flood.bps <= MAX64
               && after.flood.ppsThreshold == MAX64 && after.flood.bpsThreshold == MAX64
    decreases n
  {
    hide Process;
    if n == 0 {
    } else {
      var e := Receive(IP_PACKET);
      assert Repeat(e, n)[..n - 1] == Repeat(e, n - 1);
      AllPass(st, n - 1);
      var before := Run(st, Repeat(e, n - 1));
      FloodAfter(before, IP_PACKET);
      ConfigKept(before, IP_PACKET);
    }
  }

  lemma {:induction false} ConfigKept(st: State, p: Packet)
    ensures Process(st, p).st.config == st.config
  {
    hide Decide;
    DecideEffect(st, p);
  }

  /** A flood state with a given packet threshold that nothing but packets can open. */
  function Quiet(thr: nat): State {
    State(None, Flood(false, 0, 0, 0, thr, MAX64, 0), map[], map[], {}, map[], map[], map[], [])
  }

  /** The bound holds for a threshold exactly when the 64-bit counter can exceed it. */
  lemma {:induction false} WindowExactly(thr: nat)
    requires thr < 0x1_0000_0000_0000_0000
    ensures (forall st: State, es, t: nat ::
               st.flood.ppsThreshold == thr && KeepsFlood(st, es) && WithinSecond(es, t) ==>
                 PassCount(st, es) <= 2 * thr)
       <==> thr < 0xFFFF_FFFF_FFFF_FFFF
  {
    hide PassCount, KeepsFlood, WithinSecond;
    if thr < MAX64 {
      forall st: State, es, t: nat | st.flood.ppsThreshold == thr && KeepsFlood(st, es) && WithinSecond(es, t)
        ensures PassCount(st, es) <= 2 * thr
      {
        WindowBound(st, es, t);
      }
    } else {
      var st, es := Quiet(thr), Repeat(Receive(IP_PACKET), 2 * thr + 1);
      AllPass(st, 2 * thr + 1);
      RepeatQuiet(st, 2 * thr + 1);
      assert st.flood.ppsThreshold == thr && KeepsFlood(st, es) && WithinSecond(es, 0);
    }
  }

  lemma RepeatQuiet(st: State, n: nat)
    ensures var es := Repeat(Receive(IP_PACKET), n); KeepsFlood(st, es) && WithinSecond(es, 0)
  {
  }
}
