/** The failsafe engine by its history: what its circuit, latch, backoff and kernel flag are after a
    run, in terms of the events of the run alone. */
module FailsafeRuns {
  import opened Basics
  import opened Failsafe
  import Xdp

  // ---- forced openings ----------------------------------------------------------------------

  /** Held open, with the kernel told. */
  ghost predicate HeldDropping(cfg: Config, e: Engine, since: int, trips: nat)
    requires cfg.baseCooldown > 0
  {
    Held(cfg, e, since, trips) && e.kernel.circuitOpen
  }

  lemma {:induction false} HeldDroppingStep(cfg: Config, e: Engine, ev: Event, since: int, trips: nat)
    requires cfg.baseCooldown > 0 && HeldDropping(cfg, e, since, trips) && Undisturbed(ev)
    requires ev.Tick? ==> e.halfOpenAt <= ev.now <= ev.later
    requires ev.Tick? ==> ev.now < since + CooldownFor(cfg, trips) + cfg.probeWindow
    ensures HeldDropping(cfg, Step(cfg, e, ev), since, trips)
  {
    hide CooldownFor;
    HeldStep(cfg, e, ev, since, trips);
  }

  lemma {:induction false} StaysDropping(cfg: Config, e: Engine, es: seq<Event>, since: int, trips: nat)
    requires cfg.baseCooldown > 0 && HeldDropping(cfg, e, since, trips) && Ordered(es)
    requires forall i :: 0 <= i < |es| ==> Undisturbed(es[i])
    requires forall i :: 0 <= i < |es| && es[i].Tick? ==>
               e.halfOpenAt <= es[i].now < since + CooldownFor(cfg, trips) + cfg.probeWindow
    ensures HeldDropping(cfg, Run(cfg, e, es), since, trips)
    decreases |es|
  {
    hide CooldownFor, Step, HeldDropping;
    if |es| == 0 {
    } else {
      var before, ev := es[..|es| - 1], es[|es| - 1];
      StaysDropping(cfg, e, before, since, trips);
      if ev.Tick? { HalfOpenPast(cfg, e, before, ev.now); }
      HeldDroppingStep(cfg, Run(cfg, e, before), ev, since, trips);
    }
  }

  /** A forced opening that is written makes the kernel drop at once, whatever state it comes in. From
      CLOSED or HALF_OPEN, absent later overrides and restarts, the circuit then stays open, and the
      kernel goes on dropping, at every tick before the cooldown of its trip count and the probe window
      are over. */
  lemma {:induction false} ForcedOpenHolds(cfg: Config, e0: Engine, es0: seq<Event>, cmd: Event, es: seq<Event>)
    requires cfg.baseCooldown > 0 && Starts(e0) && cmd.ForceOpen? && cmd.writeOk
    requires Ordered(es0 + [cmd] + es) && forall i :: 0 <= i < |es| ==> Undisturbed(es[i])
    ensures var e1 := Step(cfg, Run(cfg, e0, es0), cmd);
            e1.b.state == Open && e1.kernel.circuitOpen
    ensures var e1 := Step(cfg, Run(cfg, e0, es0), cmd);
            && Run(cfg, e0, es0).b.state != Open
            && (forall i :: 0 <= i < |es| && es[i].Tick? ==>
                  es[i].now < cmd.now + CooldownFor(cfg, e1.b.tripCount) + cfg.probeWindow)
            ==> Run(cfg, e1, es).b.state != Closed && Run(cfg, e1, es).kernel.circuitOpen
  {
    hide Run, CooldownFor;
    var e := Run(cfg, e0, es0);
    var e1 := Step(cfg, e, cmd);
    if e.b.state != Open && forall i :: 0 <= i < |es| && es[i].Tick? ==>
         es[i].now < cmd.now + CooldownFor(cfg, e1.b.tripCount) + cfg.probeWindow
    {
      hide Step, Ordered;
      Opening(cfg, e, cmd);
      OrderedTail(cfg, e0, es0, cmd, es);
      StaysDropping(cfg, e1, es, cmd.now, e1.b.tripCount);
    }
  }

  lemma {:induction false} OrderedTail(cfg: Config, e0: Engine, es0: seq<Event>, cmd: Event, es: seq<Event>)
    requires cfg.baseCooldown > 0 && Starts(e0) && Ordered(es0 + [cmd] + es)
    ensures Ordered(es)
    ensures forall i :: 0 <= i < |es| && es[i].Tick? ==> Run(cfg, e0, es0).halfOpenAt <= es[i].now
  {
    hide Run, Ordered;
    var all, m := es0 + [cmd] + es, |es0|;
    assert all[m + 1..] == es && all[m + 1..|all|] == all[m + 1..];
    OrderedSlice(all, m + 1, |all|);
    forall i | 0 <= i < |es| && es[i].Tick? ensures Run(cfg, e0, es0).halfOpenAt <= es[i].now {
      assert all[m + 1 + i] == es[i];
      TickFrom(all, m + 1 + i);
      forall k | 0 <= k < m && es0[k].Tick? ensures es0[k].later <= es[i].now {
        assert all[k] == es0[k];
        OrderedAt(all, k, m + 1 + i);
      }
      HalfOpenPast(cfg, e0, es0, es[i].now);
    }
  }

  lemma TickFrom(es: seq<Event>, i: nat)
    requires Ordered(es) && i < |es| && es[i].Tick?
    ensures 0 <= es[i].now <= es[i].later
  {
  }

  // ---- recovery ----------------------------------------------------------------------------------

  /** A tick that reads its statistics at t or later. */
  predicate Ready(ev: Event, t: int) {
    ev.Tick? && ev.readOk && ev.now >= t
  }

  /** The first such tick of a run. */
  function FirstAt(es: seq<Event>, t: int): (r: Option<nat>)
    ensures r.Some? ==> r.value < |es| && Ready(es[r.value], t)
  {
    if |es| == 0 then None
    else
      var before := FirstAt(es[..|es| - 1], t);
      if before.Some? then before else if Ready(es[|es| - 1], t) then Some(|es| - 1) else None
  }

  /** A probe that starts at the first tick from t on has been quiet for its whole window. */
  ghost predicate ProbeOver(es: seq<Event>, t: int, probe: nat) {
    var first := FirstAt(es, t);
    first.Some? && exists j :: first.value < j < |es| && Ready(es[j], es[first.value].later + probe)
  }

  predicate Calm(es: seq<Event>) {
    forall i :: 0 <= i < |es| ==> Undisturbed(es[i]) && (es[i].Tick? ==> !es[i].triggered)
  }

  ghost predicate Recovered(cfg: Config, e: Engine, es: seq<Event>, e': Engine)
    requires cfg.baseCooldown > 0
  {
    var until := e.b.openedAt + CooldownFor(cfg, e.b.tripCount);
    var first := FirstAt(es, until);
    if first.None? then e'.b == e.b
    else if ProbeOver(es, until, cfg.probeWindow) then e'.b.state == Closed
    else e'.b.state == HalfOpen && e'.halfOpenAt == es[first.value].later
  }

  lemma {:induction false} RecoveredStep(cfg: Config, e: Engine, es: seq<Event>, e': Engine)
    requires cfg.baseCooldown > 0 && e.b.state == Open && |es| > 0 && Calm(es)
    requires Recovered(cfg, e, es[..|es| - 1], e')
    ensures Recovered(cfg, e, es, Step(cfg, e', es[|es| - 1]))
  {
    hide CooldownFor, Latched, FirstAt;
    var n, until := |es| - 1, e.b.openedAt + CooldownFor(cfg, e.b.tripCount);
    FirstGrows(es, until);
    ProbeGrows(es, until, cfg.probeWindow);
  }

  lemma FirstGrows(es: seq<Event>, t: int)
    requires |es| > 0
    ensures var before := FirstAt(es[..|es| - 1], t);
            FirstAt(es, t) == if before.Some? then before else if Ready(es[|es| - 1], t) then Some(|es| - 1) else None
  {
  }

  lemma {:induction false} ProbeGrows(es: seq<Event>, t: int, probe: nat)
    requires |es| > 0
    ensures var before, first := es[..|es| - 1], FirstAt(es[..|es| - 1], t);
            ProbeOver(es, t, probe) <==>
              ProbeOver(before, t, probe)
              || (first.Some? && Ready(es[|es| - 1], before[first.value].later + probe))
  {
    FirstGrows(es, t);
    var before, first := es[..|es| - 1], FirstAt(es[..|es| - 1], t);
    hide FirstAt;
    if first.Some? {
      var from := es[first.value].later + probe;
      hide Ready;
      if ProbeOver(before, t, probe) {
        var j :| first.value < j < |before| && Ready(before[j], from);
        assert Ready(es[j], from);
      }
      if ProbeOver(es, t, probe) {
        var j :| first.value < j < |es| && Ready(es[j], from);
        assert j < |before| ==> Ready(before[j], from);
      }
    }
  }

  /** With a quiet detector and nobody interfering, an open circuit goes HALF_OPEN at the first readable
      tick after its cooldown, CLOSED at the first one a probe window after that, and not before. */
  lemma {:induction false} RecoversExactly(cfg: Config, e: Engine, es: seq<Event>)
    requires cfg.baseCooldown > 0 && e.b.state == Open && Calm(es)
    ensures Recovered(cfg, e, es, Run(cfg, e, es))
    decreases |es|
  {
    hide Recovered, Step;
    if |es| == 0 {
      NotYet(cfg, e);
    } else {
      RecoversExactly(cfg, e, es[..|es| - 1]);
      RecoveredStep(cfg, e, es, Run(cfg, e, es[..|es| - 1]));
    }
  }

  lemma NotYet(cfg: Config, e: Engine)
    requires cfg.baseCooldown > 0
    ensures Recovered(cfg, e, [], e)
  {
  }

  // ---- the operator's latch ----------------------------------------------------------------------

  /** The forced close that this process still remembers. */
  function Remembered(es: seq<Event>): Option<int> {
    if |es| == 0 then None
    else match es[|es| - 1]
      case ForceClose(now, _) => Some(now)
      case ForceOpen(_, _) => None
      case Restart(_) => None
      case _ => Remembered(es[..|es| - 1])
  }

  /** The time on the override file: of the last forced close or touch by another process, unless a
      forced opening has removed the file since. */
  function FileTime(es: seq<Event>, found: Option<int>): Option<int> {
    if |es| == 0 then found
    else match es[|es| - 1]
      case ForceClose(now, _) => Some(now)
      case TouchLatchFile(now) => Some(now)
      case ForceOpen(_, _) => None
      case _ => FileTime(es[..|es| - 1], found)
  }

  /** What the latches hold after a run whose ticks are not after now. */
  ghost predicate LatchesMatch(e: Engine, es: seq<Event>, found: Option<int>, now: int) {
    var m := Remembered(es);
    && e.latchFile == FileTime(es, found)
    && if e.latchUntil.Some? then m == Some(e.latchUntil.value - ADMIN_COOLDOWN)
       else m.Some? ==> now > m.value + ADMIN_COOLDOWN
  }

  lemma {:induction false} LatchStep(cfg: Config, e: Engine, es: seq<Event>, found: Option<int>, now: int)
    requires cfg.baseCooldown > 0 && |es| > 0 && LatchesMatch(e, es[..|es| - 1], found, now)
    requires es[|es| - 1].Tick? ==> es[|es| - 1].now <= now
    ensures LatchesMatch(Step(cfg, e, es[|es| - 1]), es, found, now)
  {
    hide CooldownFor;
  }

  lemma {:induction false} LatchesFollow(cfg: Config, e: Engine, es: seq<Event>, now: int)
    requires cfg.baseCooldown > 0 && e.latchUntil == None
    requires forall i :: 0 <= i < |es| && es[i].Tick? ==> es[i].now <= now
    ensures LatchesMatch(Run(cfg, e, es), es, e.latchFile, now)
    decreases |es|
  {
    hide Step;
    if |es| == 0 {
    } else {
      LatchesFollow(cfg, e, es[..|es| - 1], now);
      LatchStep(cfg, Run(cfg, e, es[..|es| - 1]), es, e.latchFile, now);
    }
  }

  /** In every run, the detector is kept from opening the circuit exactly for the five minutes after a
      forced close, by this process or, through the file, by another, that no forced opening has undone. */
  lemma {:induction false} LatchedExactly(cfg: Config, e: Engine, es: seq<Event>, now: int)
    requires cfg.baseCooldown > 0 && Starts(e)
    requires forall i :: 0 <= i < |es| && es[i].Tick? ==> es[i].now <= now
    ensures var m, f := Remembered(es), FileTime(es, e.latchFile);
            Latched(Run(cfg, e, es), now)
            <==> (m.Some? && now - m.value <= 300_000_000_000) || (f.Some? && now - f.value < 300_000_000_000)
  {
    hide Run, Remembered, FileTime;
    LatchesFollow(cfg, e, es, now);
  }

  // ---- the backoff -----------------------------------------------------------------------------------

  /** Something closed the circuit: a tick, or a forced close even of a CLOSED one. */
  predicate Closing(before: Engine, ev: Event, after: Engine) {
    ev.ForceClose? || (before.b.state != Closed && after.b.state == Closed && ev.Tick?)
  }

  /** When the circuit was last closed in the life of this engine. */
  function LastClosing(cfg: Config, e: Engine, es: seq<Event>): Option<int>
    requires cfg.baseCooldown > 0
  {
    if |es| == 0 then None
    else
      var before, ev := es[..|es| - 1], es[|es| - 1];
      if ev.Restart? then None
      else if Closing(Run(cfg, e, before), ev, Run(cfg, e, es)) then Some(if ev.Tick? then ev.later else ev.now)
      else LastClosing(cfg, e, before)
  }

  /** A readable tick that finds the circuit CLOSED, unlatched, and closed for the stable period. */
  predicate Stable(cfg: Config, e: Engine, es: seq<Event>, ev: Event)
    requires cfg.baseCooldown > 0
  {
    && ev.Tick? && ev.readOk && Run(cfg, e, es).b.state == Closed && !Latched(Run(cfg, e, es), ev.now)
    && var last := LastClosing(cfg, e, es);
       last.Some? && ev.now - last.value >= cfg.backoffResetAfter
  }

  /** The openings since the start of the engine or the last stable period. */
  function Openings(cfg: Config, e: Engine, es: seq<Event>): nat
    requires cfg.baseCooldown > 0
  {
    if |es| == 0 then 0
    else
      var before, ev := es[..|es| - 1], es[|es| - 1];
      if ev.Restart? then 0
      else
        (if Stable(cfg, e, before, ev) then 0 else Openings(cfg, e, before))
        + if Run(cfg, e, before).b.state != Open && Run(cfg, e, es).b.state == Open then 1 else 0
  }

  lemma {:induction false} ClosingStep(cfg: Config, e: Engine, ev: Event)
    requires cfg.baseCooldown > 0
    ensures var e' := Step(cfg, e, ev);
            e'.lastClosedAt == if ev.Restart? then None
                               else if Closing(e, ev, e') then Some(if ev.Tick? then ev.later else ev.now)
                               else e.lastClosedAt
  {
    hide CooldownFor, Latched;
  }

  /** The trip count, from which the cooldown is computed, is the number of openings since the engine
      started or the circuit had last been closed for the stable period. */
  lemma {:induction false} TripsAreOpenings(cfg: Config, e: Engine, es: seq<Event>)
    requires cfg.baseCooldown > 0 && Starts(e)
    ensures Run(cfg, e, es).b.tripCount == Openings(cfg, e, es)
    ensures Run(cfg, e, es).lastClosedAt == LastClosing(cfg, e, es)
    decreases |es|
  {
    hide Step, Latched;
    if |es| == 0 {
    } else {
      var before, ev := es[..|es| - 1], es[|es| - 1];
      TripsAreOpenings(cfg, e, before);
      ClosingStep(cfg, Run(cfg, e, before), ev);
      if ev.Restart? {
        RestartForgets(cfg, Run(cfg, e, before), ev);
      } else {
        TripsCounted(cfg, Run(cfg, e, before), ev);
      }
    }
  }

  lemma RestartForgets(cfg: Config, e: Engine, ev: Event)
    requires cfg.baseCooldown > 0 && ev.Restart?
    ensures Step(cfg, e, ev).b.tripCount == 0
  {
  }

  // ---- thresholds --------------------------------------------------------------------------------------

  /** The packet and bit thresholds last written, if any were. */
  function LastPushed(es: seq<Event>): Option<(nat, nat)> {
    if |es| == 0 then None
    else match es[|es| - 1]
      case PushThresholds(pps, bps, true) => Some((pps, bps))
      case _ => LastPushed(es[..|es| - 1])
  }

  /** In every run the kernel has the thresholds last written, whatever else happens. */
  lemma {:induction false} ThresholdsLast(cfg: Config, e: Engine, es: seq<Event>)
    requires cfg.baseCooldown > 0
    ensures var k := Run(cfg, e, es).kernel;
            (k.ppsThreshold, k.bpsThreshold)
            == match LastPushed(es) case Some(t) => t case None => (e.kernel.ppsThreshold, e.kernel.bpsThreshold)
    decreases |es|
  {
    hide CooldownFor, Latched;
    if |es| == 0 {
    } else {
      ThresholdsLast(cfg, e, es[..|es| - 1]);
    }
  }

  // ---- the kernel's side ---------------------------------------------------------------------------------

  /** The map as the packet pipeline and the engine see it. */
  predicate SameMap(f: Xdp.Flood, k: Kernel) {
    && f.open == k.circuitOpen && f.openSince == k.openSince
    && f.ppsThreshold == k.ppsThreshold && f.bpsThreshold == k.bpsThreshold
  }

  /** A packet does to the map what the engine's KernelOpens event says, when it takes a rate over its
      threshold, and otherwise leaves flag, time and thresholds alone. */
  lemma {:induction false} KernelOpensIs(cfg: Config, e: Engine, f: Xdp.Flood, now: nat, len: nat)
    requires cfg.baseCooldown > 0 && SameMap(f, e.kernel)
    ensures var g := Xdp.CheckFailsafe(f, now, len);
            var over := g.pps > f.ppsThreshold || g.bps > f.bpsThreshold;
            SameMap(g, (if over then Step(cfg, e, KernelOpens(now)) else e).kernel)
  {
  }
}
