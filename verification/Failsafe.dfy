/** The failsafe circuit breaker: hysteresis, exponential cooldown, operator overrides, and
    the kernel flag the engine has to agree with. */
module Failsafe {
  import opened Basics
  import opened Bits

  /** How long a forced close keeps the detector from tripping: five minutes. */
  const ADMIN_COOLDOWN: nat := 300_000_000_000

  datatype Config = Config(baseCooldown: nat, maxCooldown: nat, backoffResetAfter: nat, probeWindow: nat,
                           consecutiveViolations: nat)

  predicate Usable(cfg: Config) {
    cfg.baseCooldown > 0 && cfg.consecutiveViolations >= 1
  }

  // ---- the cooldown ----------------------------------------------------------------------

  function Log2(n: nat): nat
    requires n > 0
  {
    if n == 1 then 0 else 1 + Log2(n / 2)
  }

  /** CooldownFor in exact arithmetic. */
  function CooldownFor(cfg: Config, tripCount: nat): nat
    requires cfg.baseCooldown > 0
  {
    if tripCount <= 1 || cfg.maxCooldown < cfg.baseCooldown then cfg.baseCooldown
    else
      var maxShift := Log2(cfg.maxCooldown / cfg.baseCooldown) + 1;
      var shift := Min(tripCount - 1, maxShift);
      var d := cfg.baseCooldown * Pow2(shift);
      if d > cfg.maxCooldown then cfg.maxCooldown else d
  }

  lemma {:induction false} Log2Bound(n: nat)
    requires n > 0
    ensures n < Pow2(Log2(n) + 1)
    decreases n
  {
    if n == 1 {
    } else {
      Log2Bound(n / 2);
    }
  }

  lemma {:induction false} CapExceeds(base: nat, max: nat, shift: nat)
    requires 0 < base <= max && shift >= Log2(max / base) + 1
    ensures base * Pow2(shift) > max
  {
    var q := max / base;
    Log2Bound(q);
    Pow2Monotone(Log2(q) + 1, shift);
    DivBound(max, base);
    MulMono(base, q + 1, Pow2(shift));
  }

  lemma {:induction false} DivBound(a: nat, b: nat)
    requires b > 0
    ensures a < b * (a / b + 1)
  {
    var q := a / b;
    assert a == b * q + a % b;
    assert b * (q + 1) == b * q + b;
  }

  /** The capped shift loses nothing: the k-th cooldown is the doubled one, up to the cap. */
  lemma {:induction false} CooldownExact(cfg: Config, k: nat)
    requires 0 < cfg.baseCooldown <= cfg.maxCooldown && k >= 1
    ensures CooldownFor(cfg, k) == Min(cfg.baseCooldown * Pow2(k - 1), cfg.maxCooldown)
  {
    var base, max := cfg.baseCooldown, cfg.maxCooldown;
    if k > 1 {
      var maxShift := Log2(max / base) + 1;
      if k - 1 >= maxShift {
        CapExceeds(base, max, maxShift);
        CapExceeds(base, max, k - 1);
      }
    }
  }

  // ---- the breaker -------------------------------------------------------------------------

  datatype Circuit = Closed | Open | HalfOpen

  datatype Breaker = Breaker(state: Circuit, openedAt: int, tripCount: nat, violations: nat)

  function Tripped(b: Breaker, now: int): Breaker {
    if b.state == Open then b else Breaker(Open, now, b.tripCount + 1, 0)
  }

  function Recovering(b: Breaker): Breaker {
    if b.state == Open then b.(state := HalfOpen) else b
  }

  function Shut(b: Breaker): Breaker {
    b.(state := Closed)
  }

  function ReTripped(b: Breaker, now: int): Breaker {
    if b.state == HalfOpen then Breaker(Open, now, b.tripCount + 1, 0) else b
  }

  // ---- the kernel map ------------------------------------------------------------------------

  datatype Kernel = Kernel(circuitOpen: bool, openSince: int, ppsThreshold: nat, bpsThreshold: nat,
                           currentPps: nat, currentBps: nat)

  function SetCircuitOpen(k: Kernel, open: bool, now: int): Kernel {
    if open then k.(circuitOpen := true, openSince := now)
    else k.(circuitOpen := false, openSince := 0, currentPps := 0, currentBps := 0)
  }

  // ---- the engine ----------------------------------------------------------------------------

  datatype Engine = Engine(b: Breaker, halfOpenAt: int, lastClosedAt: Option<int>,
                           latchUntil: Option<int>, latchFile: Option<int>,
                           writeFailures: nat, kernel: Kernel)

  datatype Event =
    | Tick(now: int, later: int, readOk: bool, triggered: bool, writeOk: bool)
    | ForceOpen(now: int, writeOk: bool)
    | ForceClose(now: int, writeOk: bool)
    | PushThresholds(pps: nat, bps: nat, writeOk: bool)   // UpdateThresholds, on both sides
    | KernelOpens(now: int)                               // a packet takes the rate over the kernel's threshold
    | TouchLatchFile(now: int)                            // another process arms the override
    | Restart(readOk: bool)

  function LatchExpired(e: Engine, now: int): Engine {
    if e.latchUntil.Some? && now > e.latchUntil.value then e.(latchUntil := None) else e
  }

  predicate Latched(e: Engine, now: int) {
    || (e.latchUntil.Some? && now <= e.latchUntil.value)
    || (e.latchFile.Some? && now - e.latchFile.value < ADMIN_COOLDOWN)
  }

  /** SetCircuitOpen by the engine; a failed write is only counted. */
  function WriteFlag(e: Engine, open: bool, now: int, writeOk: bool): Engine {
    if writeOk then e.(kernel := SetCircuitOpen(e.kernel, open, now))
    else e.(writeFailures := e.writeFailures + 1)
  }

  function OpenCircuit(e: Engine, now: int, writeOk: bool): Engine {
    if e.b.state == Open then e else WriteFlag(e.(b := Tripped(e.b, now)), true, now, writeOk)
  }

  function CloseCircuit(e: Engine, now: int, writeOk: bool): Engine {
    if e.b.state == Closed then e
    else WriteFlag(e.(b := Shut(e.b), lastClosedAt := Some(now)), false, now, writeOk)
  }

  function BackoffReset(cfg: Config, e: Engine, now: int): Engine {
    if e.lastClosedAt.Some? && now - e.lastClosedAt.value >= cfg.backoffResetAfter
    then e.(b := e.b.(tripCount := 0))
    else e
  }

  function TickClosed(cfg: Config, e: Engine, t: Event): Engine
    requires t.Tick?
  {
    var e1 := LatchExpired(e, t.now);
    if Latched(e1, t.now) then e1.(b := e1.b.(violations := 0))
    else
      var e2 := BackoffReset(cfg, e1, t.now);
      if !t.triggered then e2.(b := e2.b.(violations := 0))
      else
        var e3 := e2.(b := e2.b.(violations := e2.b.violations + 1));
        if e3.b.violations >= cfg.consecutiveViolations then OpenCircuit(e3, t.later, t.writeOk) else e3
  }

  function TickOpen(cfg: Config, e: Engine, t: Event): Engine
    requires t.Tick? && cfg.baseCooldown > 0
  {
    if t.now - e.b.openedAt >= CooldownFor(cfg, e.b.tripCount)
    then e.(b := Recovering(e.b), halfOpenAt := t.later)
    else e
  }

  function TickHalfOpen(cfg: Config, e: Engine, t: Event): Engine
    requires t.Tick?
  {
    if t.triggered then e.(b := ReTripped(e.b, t.later))
    else if t.now - e.halfOpenAt >= cfg.probeWindow then CloseCircuit(e, t.later, t.writeOk)
    else e
  }

  function TickStep(cfg: Config, e: Engine, t: Event): Engine
    requires t.Tick? && cfg.baseCooldown > 0
  {
    if !t.readOk then e
    else match e.b.state
      case Closed => TickClosed(cfg, e, t)
      case Open => TickOpen(cfg, e, t)
      case HalfOpen => TickHalfOpen(cfg, e, t)
  }

  /** A new engine over the kernel map as it finds it. */
  function Restarted(e: Engine, readOk: bool): Engine {
    var b := if readOk && e.kernel.circuitOpen then Breaker(Open, e.kernel.openSince, 0, 0)
             else Breaker(Closed, 0, 0, 0);
    Engine(b, 0, None, None, e.latchFile, 0, e.kernel)
  }

  function Step(cfg: Config, e: Engine, ev: Event): Engine
    requires cfg.baseCooldown > 0
  {
    match ev
    case Tick(_, _, _, _, _) => TickStep(cfg, e, ev)
    case ForceOpen(now, ok) =>
      WriteFlag(e.(latchUntil := None, latchFile := None, b := Tripped(e.b, now)), true, now, ok)
    case ForceClose(now, ok) =>
      WriteFlag(e.(latchUntil := Some(now + ADMIN_COOLDOWN), latchFile := Some(now), b := Shut(e.b),
                   lastClosedAt := Some(now)), false, now, ok)
    case PushThresholds(pps, bps, ok) =>
      if ok then e.(kernel := e.kernel.(ppsThreshold := pps, bpsThreshold := bps)) else e
    case KernelOpens(now) =>
      if e.kernel.circuitOpen then e else e.(kernel := e.kernel.(circuitOpen := true, openSince := now))
    case TouchLatchFile(now) => e.(latchFile := Some(now))
    case Restart(ok) => Restarted(e, ok)
  }

  function Run(cfg: Config, e: Engine, es: seq<Event>): Engine
    requires cfg.baseCooldown > 0
    decreases |es|
  {
    if |es| == 0 then e else Step(cfg, Run(cfg, e, es[..|es| - 1]), es[|es| - 1])
  }

  /** An engine as it starts over some kernel map. */
  ghost predicate Starts(e: Engine) {
    exists e0: Engine, ok: bool :: e == Restarted(e0, ok)
  }

  // ---- agreement with the kernel --------------------------------------------------------------------

  /** Unless a write has failed, an engine that is not CLOSED has the kernel flag set. */
  ghost predicate Agrees(e: Engine) {
    e.writeFailures == 0 && e.b.state != Closed ==> e.kernel.circuitOpen
  }

  lemma {:induction false} StepAgrees(cfg: Config, e: Engine, ev: Event)
    requires cfg.baseCooldown > 0 && Agrees(e)
    ensures Agrees(Step(cfg, e, ev))
  {
    hide CooldownFor;
  }

  /** Whatever mix of ticks, overrides, threshold updates, kernel self-opening and restarts:
      OPEN and HALF_OPEN mean that the kernel drops, as long as no map write has failed. */
  lemma {:induction false} KernelAgreement(cfg: Config, e: Engine, es: seq<Event>)
    requires cfg.baseCooldown > 0 && Starts(e)
    ensures Agrees(Run(cfg, e, es))
    decreases |es|
  {
    hide Step;
    if |es| == 0 {
    } else {
      KernelAgreement(cfg, e, es[..|es| - 1]);
      StepAgrees(cfg, Run(cfg, e, es[..|es| - 1]), es[|es| - 1]);
    }
  }

  // ---- hysteresis ----------------------------------------------------------------------------------------

  ghost predicate Damped(cfg: Config, e: Engine) {
    e.b.violations < cfg.consecutiveViolations && (e.b.state != Closed ==> e.b.violations == 0)
  }

  lemma {:induction false} StepDamped(cfg: Config, e: Engine, ev: Event)
    requires Usable(cfg) && Damped(cfg, e)
    ensures Damped(cfg, Step(cfg, e, ev))
  {
    hide CooldownFor;
  }

  /** In every run the violation counter stays below the threshold, and at zero outside CLOSED. */
  lemma {:induction false} CounterBounded(cfg: Config, e: Engine, es: seq<Event>)
    requires Usable(cfg) && Starts(e)
    ensures Damped(cfg, Run(cfg, e, es))
    decreases |es|
  {
    hide Step;
    if |es| == 0 {
    } else {
      CounterBounded(cfg, e, es[..|es| - 1]);
      StepDamped(cfg, Run(cfg, e, es[..|es| - 1]), es[|es| - 1]);
    }
  }

  /** A tick that read its statistics, found the circuit CLOSED with no override in force, and
      saw the detector trigger. */
  predicate Violates(e: Engine, ev: Event)
    requires ev.Tick? && ev.readOk
  {
    e.b.state == Closed && !Latched(e, ev.now) && ev.triggered
  }

  /** An operator or a restart starts the count again. */
  predicate Interrupts(e: Engine, ev: Event) {
    ev.ForceOpen? || ev.Restart? || (ev.ForceClose? && e.b.state != Closed)
  }

  /** What an event adds to the record of ticks: whether a successful tick was a violation, and
      false for an interruption. */
  function MarkOf(e: Engine, ev: Event): seq<bool> {
    if ev.Tick? && ev.readOk then [Violates(e, ev)] else if Interrupts(e, ev) then [false] else []
  }

  function TickFlags(cfg: Config, e: Engine, es: seq<Event>): seq<bool>
    requires cfg.baseCooldown > 0
    decreases |es|
  {
    if |es| == 0 then []
    else
      var before := es[..|es| - 1];
      TickFlags(cfg, e, before) + MarkOf(Run(cfg, e, before), es[|es| - 1])
  }

  /** The last n flags are all true. */
  ghost predicate EndsWith(flags: seq<bool>, n: nat) {
    n <= |flags| && forall i :: |flags| - n <= i < |flags| ==> flags[i]
  }

  /** In CLOSED the violation counter is the length of the record's final run of violations. */
  ghost predicate Counts(e: Engine, flags: seq<bool>) {
    e.b.state == Closed ==>
      EndsWith(flags, e.b.violations) && (e.b.violations < |flags| ==> !flags[|flags| - e.b.violations - 1])
  }

  lemma {:induction false} LatchSame(e: Engine, now: int)
    ensures Latched(LatchExpired(e, now), now) == Latched(e, now)
  {
  }

  lemma {:induction false} StepCounts(cfg: Config, e: Engine, ev: Event, flags: seq<bool>)
    requires Usable(cfg) && Damped(cfg, e) && Counts(e, flags)
    ensures Counts(Step(cfg, e, ev), flags + MarkOf(e, ev))
    ensures e.b.state == Closed && ev.Tick? && ev.readOk ==>
              (Step(cfg, e, ev).b.state == Open <==> EndsWith(flags + MarkOf(e, ev), cfg.consecutiveViolations))
  {
    hide CooldownFor, Latched;
    if ev.Tick? { LatchSame(e, ev.now); }
  }

  lemma {:induction false} FlagsFollow(cfg: Config, e: Engine, es: seq<Event>)
    requires Usable(cfg) && Starts(e)
    ensures Counts(Run(cfg, e, es), TickFlags(cfg, e, es))
    decreases |es|
  {
    hide Step, Counts, MarkOf;
    if |es| == 0 {
      NoFlags(e);
    } else {
      FlagsFollow(cfg, e, es[..|es| - 1]);
      CounterBounded(cfg, e, es[..|es| - 1]);
      StepCounts(cfg, Run(cfg, e, es[..|es| - 1]), es[|es| - 1], TickFlags(cfg, e, es[..|es| - 1]));
    }
  }

  lemma NoFlags(e: Engine)
    requires Starts(e)
    ensures Counts(e, [])
  {
  }

  /** In every run, a successful tick opens a CLOSED circuit if and only if as many successful ticks
      in a row as the configuration asks for, this one included, were CLOSED, triggered and free of
      overrides, with no interruption between them. */
  lemma {:induction false} OpensExactly(cfg: Config, e: Engine, es: seq<Event>, ev: Event)
    requires Usable(cfg) && Starts(e) && ev.Tick? && ev.readOk && Run(cfg, e, es).b.state == Closed
    ensures Step(cfg, Run(cfg, e, es), ev).b.state == Open
       <==> EndsWith(TickFlags(cfg, e, es + [ev]), cfg.consecutiveViolations)
  {
    hide Run, EndsWith, Step, MarkOf;
    FlagsFollow(cfg, e, es);
    CounterBounded(cfg, e, es);
    StepCounts(cfg, Run(cfg, e, es), ev, TickFlags(cfg, e, es));
    assert (es + [ev])[..|es|] == es;
  }

  // ---- overrides -----------------------------------------------------------------------------------------------

  /** From every state, a forced opening leaves the circuit OPEN and a forced close leaves it CLOSED; if
      the map write succeeds the kernel drops, or does not, from then on. */
  lemma {:induction false} OverrideObeyed(cfg: Config, e: Engine, cmd: Event)
    requires cfg.baseCooldown > 0 && (cmd.ForceOpen? || cmd.ForceClose?)
    ensures var e' := Step(cfg, e, cmd);
            && e'.b.state == (if cmd.ForceOpen? then Open else Closed)
            && (cmd.writeOk ==> e'.kernel.circuitOpen == cmd.ForceOpen?)
            && (cmd.writeOk <==> e'.writeFailures == e.writeFailures)
  {
  }

  // ---- after a forced close --------------------------------------------------------------------------------

  /** The override file was written at time t or later. */
  ghost predicate Armed(e: Engine, t: int) {
    e.latchFile.Some? && e.latchFile.value >= t
  }

  /** No forced opening, and no forced closing or touching of the file before t. */
  predicate KeepsArmed(ev: Event, t: int) {
    match ev
    case ForceOpen(_, _) => false
    case ForceClose(now, _) => now >= t
    case TouchLatchFile(now) => now >= t
    case _ => true
  }

  lemma {:induction false} StaysArmed(cfg: Config, e: Engine, es: seq<Event>, t: int)
    requires cfg.baseCooldown > 0 && Armed(e, t)
    requires forall i :: 0 <= i < |es| ==> KeepsArmed(es[i], t)
    ensures Armed(Run(cfg, e, es), t)
    decreases |es|
  {
    if |es| == 0 {
    } else {
      StaysArmed(cfg, e, es[..|es| - 1], t);
      hide CooldownFor, Run;
    }
  }

  /** For five minutes after a forced close, whatever the detector says, no tick takes the engine
      from CLOSED to OPEN, even if it was restarted in between. */
  lemma {:induction false} QuietAfterForceClose(cfg: Config, e: Engine, closing: Event, es: seq<Event>, ev: Event)
    requires cfg.baseCooldown > 0 && closing.ForceClose? && ev.Tick?
    requires forall i :: 0 <= i < |es| ==> KeepsArmed(es[i], closing.now)
    requires ev.now - closing.now < ADMIN_COOLDOWN
    ensures var f := Run(cfg, Step(cfg, e, closing), es);
            f.b.state == Closed ==> Step(cfg, f, ev).b.state == Closed
  {
    hide Run, CooldownFor;
    StaysArmed(cfg, Step(cfg, e, closing), es, closing.now);
  }

  /** Without a restart, which may find the kernel's own flag set, the circuit simply stays CLOSED
      for those five minutes. */
  lemma {:induction false} ClosedAfterForceClose(cfg: Config, e: Engine, closing: Event, es: seq<Event>)
    requires cfg.baseCooldown > 0 && closing.ForceClose?
    requires forall i :: 0 <= i < |es| ==> KeepsArmed(es[i], closing.now) && !es[i].Restart?
    requires forall i :: 0 <= i < |es| && es[i].Tick? ==> es[i].now - closing.now < ADMIN_COOLDOWN
    ensures Run(cfg, Step(cfg, e, closing), es).b.state == Closed
    decreases |es|
  {
    hide CooldownFor, TickStep;
    if |es| == 0 {
    } else {
      var before, ev := es[..|es| - 1], es[|es| - 1];
      ClosedAfterForceClose(cfg, e, closing, before);
      if ev.Tick? { QuietAfterForceClose(cfg, e, closing, before, ev); }
    }
  }

  // ---- the trip count ------------------------------------------------------------------------------------------

  /** The backoff is forgotten at this event: an unlatched tick that finds the circuit closed for
      long enough. */
  predicate Forgets(cfg: Config, e: Engine, ev: Event) {
    && ev.Tick? && ev.readOk && e.b.state == Closed && !Latched(e, ev.now)
    && e.lastClosedAt.Some? && ev.now - e.lastClosedAt.value >= cfg.backoffResetAfter
  }

  /** The trip count goes up by one with every opening, starts again from zero when the backoff is
      forgotten, and changes in no other way while the engine lives. */
  lemma {:induction false} TripsCounted(cfg: Config, e: Engine, ev: Event)
    requires cfg.baseCooldown > 0 && !ev.Restart?
    ensures var e' := Step(cfg, e, ev);
            e'.b.tripCount == (if Forgets(cfg, e, ev) then 0 else e.b.tripCount)
                              + if e.b.state != Open && e'.b.state == Open then 1 else 0
  {
    hide CooldownFor, Latched;
    if ev.Tick? { LatchSame(e, ev.now); }
  }

  // ---- how long the circuit stays open ----------------------------------------------------------------------

  /** Ticks and forced openings: what can open the circuit. */
  predicate Timed(ev: Event) {
    ev.Tick? || ev.ForceOpen?
  }

  /** The last clock reading of such an event: the opening time, if it opens the circuit. */
  function Done(ev: Event): int
    requires Timed(ev)
  {
    if ev.Tick? then ev.later else ev.now
  }

  /** Clock readings do not run backwards, within an event or from one to the next. */
  predicate Ordered(es: seq<Event>) {
    && (forall i :: 0 <= i < |es| && Timed(es[i]) ==> 0 <= es[i].now <= Done(es[i]))
    && forall i, j :: 0 <= i < j < |es| && Timed(es[i]) && Timed(es[j]) ==> Done(es[i]) <= es[j].now
  }

  /** No operator override and no restart. */
  predicate Undisturbed(ev: Event) {
    !ev.ForceOpen? && !ev.ForceClose? && !ev.Restart?
  }

  /** Where an open period that began at since with so many trips can be. */
  ghost predicate Held(cfg: Config, e: Engine, since: int, trips: nat)
    requires cfg.baseCooldown > 0
  {
    var until := since + CooldownFor(cfg, trips);
    match e.b.state
    case Closed => false
    case Open => (e.b.openedAt == since && e.b.tripCount == trips) || e.b.openedAt >= until
    case HalfOpen => e.halfOpenAt >= until
  }

  /** A step of an open period keeps it open or comes late enough. */
  lemma {:induction false} HeldStep(cfg: Config, e: Engine, ev: Event, since: int, trips: nat)
    requires cfg.baseCooldown > 0 && Held(cfg, e, since, trips) && Undisturbed(ev)
    requires ev.Tick? ==> ev.now <= ev.later && e.halfOpenAt <= ev.now
    ensures var e' := Step(cfg, e, ev);
            || Held(cfg, e', since, trips)
            || (ev.Tick? && e'.b.state == Closed && ev.now >= since + CooldownFor(cfg, trips) + cfg.probeWindow)
  {
    hide CooldownFor;
  }

  /** The half-open time is never in the future. */
  lemma {:induction false} HalfOpenPast(cfg: Config, e: Engine, es: seq<Event>, now: int)
    requires cfg.baseCooldown > 0 && e.halfOpenAt <= now && 0 <= now
    requires forall i :: 0 <= i < |es| && es[i].Tick? ==> es[i].later <= now
    ensures Run(cfg, e, es).halfOpenAt <= now
    decreases |es|
  {
    if |es| == 0 {
    } else {
      var before := es[..|es| - 1];
      assert es[|es| - 1].Tick? ==> es[|es| - 1].later <= now;
      HalfOpenPast(cfg, e, before, now);
      hide CooldownFor, Run;
    }
  }

  /** No tick of a run finds the circuit closed again. */
  ghost predicate NeverClosed(cfg: Config, e: Engine, es: seq<Event>)
    requires cfg.baseCooldown > 0
  {
    forall n :: 0 <= n <= |es| ==> Run(cfg, e, es[..n]).b.state != Closed
  }

  lemma {:induction false} NeverClosedPrefix(cfg: Config, e: Engine, es: seq<Event>, m: nat)
    requires cfg.baseCooldown > 0 && NeverClosed(cfg, e, es) && m <= |es|
    ensures NeverClosed(cfg, e, es[..m]) && Run(cfg, e, es).b.state != Closed
  {
    hide Run;
    assert es[..|es|] == es;
    forall n | 0 <= n <= m ensures Run(cfg, e, es[..m][..n]).b.state != Closed {
      assert es[..m][..n] == es[..n];
    }
  }

  /** In every run of an engine, absent later overrides and restarts, a period that it opens, opens
      again after a failed probe, or is forced to open, lasts at least the cooldown of its trip count and
      the probe window: the tick that closes the circuit comes no earlier. */
  lemma {:induction false} OpenPeriod(
      cfg: Config, e0: Engine, es0: seq<Event>, opening: Event, es: seq<Event>, closing: Event)
    requires cfg.baseCooldown > 0 && Starts(e0) && Timed(opening) && closing.Tick?
    requires Ordered(es0 + [opening] + es + [closing])
    requires forall i :: 0 <= i < |es| ==> Undisturbed(es[i])
    requires var e := Run(cfg, e0, es0);
             var e1 := Step(cfg, e, opening);
             && e.b.state != Open && e1.b.state == Open && NeverClosed(cfg, e1, es)
             && Step(cfg, Run(cfg, e1, es), closing).b.state == Closed
    ensures var e1 := Step(cfg, Run(cfg, e0, es0), opening);
            closing.now >= Done(opening) + CooldownFor(cfg, e1.b.tripCount) + cfg.probeWindow
  {
    hide Run, CooldownFor, Step, NeverClosed, Ordered;
    var e := Run(cfg, e0, es0);
    var e1 := Step(cfg, e, opening);
    OrderedParts(es0, opening, es, closing);
    HalfOpenPast(cfg, e0, es0, opening.now);
    Opening(cfg, e, opening);
    StaysHeld(cfg, e1, es, Done(opening), e1.b.tripCount);
    HalfOpenPast(cfg, e1, es, closing.now);
    HeldStep(cfg, Run(cfg, e1, es), closing, Done(opening), e1.b.tripCount);
  }

  lemma {:induction false} OrderedParts(es0: seq<Event>, opening: Event, es: seq<Event>, closing: Event)
    requires Timed(opening) && closing.Tick? && Ordered(es0 + [opening] + es + [closing])
    ensures Ordered(es) && closing.now <= closing.later && 0 <= opening.now <= Done(opening) <= closing.now
    ensures forall i :: 0 <= i < |es0| && es0[i].Tick? ==> es0[i].later <= opening.now
    ensures forall i :: 0 <= i < |es| && es[i].Tick? ==> Done(opening) <= es[i].now && es[i].later <= closing.now
  {
    hide Ordered;
    var all, m := es0 + [opening] + es + [closing], |es0|;
    var z := m + |es| + 1;
    assert all[m] == opening && all[z] == closing;
    assert all[m + 1..z] == es;
    OrderedSlice(all, m + 1, z);
    OrderedAt(all, m, z);
    forall i | 0 <= i < m && es0[i].Tick? ensures es0[i].later <= opening.now {
      assert all[i] == es0[i];
      OrderedAt(all, i, m);
    }
    forall i | 0 <= i < |es| && es[i].Tick? ensures Done(opening) <= es[i].now && es[i].later <= closing.now {
      assert all[m + 1 + i] == es[i];
      OrderedAt(all, m, m + 1 + i);
      OrderedAt(all, m + 1 + i, z);
    }
  }

  lemma OrderedAt(es: seq<Event>, i: nat, j: nat)
    requires Ordered(es) && i < j < |es| && Timed(es[i]) && Timed(es[j])
    ensures 0 <= es[i].now <= Done(es[i]) <= es[j].now <= Done(es[j])
  {
  }

  lemma {:induction false} OrderedSlice(es: seq<Event>, a: nat, b: nat)
    requires Ordered(es) && a <= b <= |es|
    ensures Ordered(es[a..b])
  {
    var s := es[a..b];
    forall i, j | 0 <= i < j < |s| && Timed(s[i]) && Timed(s[j]) ensures Done(s[i]) <= s[j].now {
      OrderedAt(es, a + i, a + j);
    }
  }

  lemma {:induction false} StaysHeld(cfg: Config, e: Engine, es: seq<Event>, since: int, trips: nat)
    requires cfg.baseCooldown > 0 && Held(cfg, e, since, trips) && Ordered(es)
    requires forall i :: 0 <= i < |es| ==> Undisturbed(es[i])
    requires forall i :: 0 <= i < |es| && es[i].Tick? ==> e.halfOpenAt <= es[i].now
    requires NeverClosed(cfg, e, es)
    ensures Held(cfg, Run(cfg, e, es), since, trips)
    decreases |es|
  {
    hide CooldownFor, Step, NeverClosed;
    if |es| == 0 {
    } else {
      var before, ev := es[..|es| - 1], es[|es| - 1];
      NeverClosedPrefix(cfg, e, es, |es| - 1);
      StaysHeld(cfg, e, before, since, trips);
      if ev.Tick? { HalfOpenPast(cfg, e, before, ev.now); }
      HeldStep(cfg, Run(cfg, e, before), ev, since, trips);
    }
  }

  lemma {:induction false} Opening(cfg: Config, e: Engine, opening: Event)
    requires cfg.baseCooldown > 0 && Timed(opening) && e.b.state != Open && Step(cfg, e, opening).b.state == Open
    ensures var e1 := Step(cfg, e, opening);
            && e1.b.openedAt == Done(opening) && e1.halfOpenAt == e.halfOpenAt && e1.b.tripCount >= 1
            && ((e.b.state == Closed || opening.ForceOpen?) && opening.writeOk ==>
                  e1.kernel.circuitOpen && e1.kernel.openSince == Done(opening))
  {
    hide CooldownFor;
  }

  // ---- ... across restarts ---------------------------------------------------------------------------

  /** No operator override, and every restart can read the kernel map. */
  predicate Unforced(ev: Event) {
    !ev.ForceOpen? && !ev.ForceClose? && (ev.Restart? ==> ev.readOk)
  }

  function Earlier(a: int, b: int): int {
    if a < b then a else b
  }

  function Later(a: int, b: int): int {
    if a < b then b else a
  }

  /** When a period that began at from, with the kernel map saying since, can go HALF_OPEN. */
  function ProbeTime(cfg: Config, since: int, from: int): int {
    Later(Earlier(since, from) + cfg.baseCooldown, from)
  }

  /** Where such a period can be. */
  ghost predicate HeldByKernel(cfg: Config, e: Engine, since: int, from: int) {
    && e.kernel.circuitOpen && e.kernel.openSince == since
    && match e.b.state
       case Closed => false
       case Open => e.b.openedAt >= Earlier(since, from)
       case HalfOpen => e.halfOpenAt >= ProbeTime(cfg, since, from)
  }

  lemma {:induction false} CooldownAtLeast(cfg: Config, k: nat)
    requires cfg.baseCooldown > 0
    ensures CooldownFor(cfg, k) >= cfg.baseCooldown
  {
    if k >= 1 && cfg.baseCooldown <= cfg.maxCooldown {
      CooldownExact(cfg, k);
      MulMono(cfg.baseCooldown, 1, Pow2(k - 1));
    }
  }

  lemma {:induction false} HeldByKernelStep(cfg: Config, e: Engine, ev: Event, since: int, from: int)
    requires cfg.baseCooldown > 0 && HeldByKernel(cfg, e, since, from) && Unforced(ev)
    requires ev.Tick? ==> from <= ev.now <= ev.later && e.halfOpenAt <= ev.now
    ensures var e' := Step(cfg, e, ev);
            || HeldByKernel(cfg, e', since, from)
            || (ev.Tick? && e'.b.state == Closed && ev.now >= ProbeTime(cfg, since, from) + cfg.probeWindow)
  {
    hide CooldownFor;
    CooldownAtLeast(cfg, e.b.tripCount);
  }

  lemma {:induction false} StaysHeldByKernel(cfg: Config, e: Engine, es: seq<Event>, since: int, from: int)
    requires cfg.baseCooldown > 0 && HeldByKernel(cfg, e, since, from) && Ordered(es)
    requires forall i :: 0 <= i < |es| ==> Unforced(es[i])
    requires forall i :: 0 <= i < |es| && es[i].Tick? ==> from <= es[i].now && e.halfOpenAt <= es[i].now
    requires NeverClosed(cfg, e, es)
    ensures HeldByKernel(cfg, Run(cfg, e, es), since, from)
    decreases |es|
  {
    hide CooldownFor, Step, NeverClosed, ProbeTime;
    if |es| == 0 {
    } else {
      var before, ev := es[..|es| - 1], es[|es| - 1];
      NeverClosedPrefix(cfg, e, es, |es| - 1);
      StaysHeldByKernel(cfg, e, before, since, from);
      if ev.Tick? { HalfOpenPast(cfg, e, before, ev.now); }
      HeldByKernelStep(cfg, Run(cfg, e, before), ev, since, from);
    }
  }

  /** A run in which opening starts a period, from CLOSED, again after a failed probe or by force, that
      the kernel map has on record, and closing ends it. */
  ghost predicate RecordedPeriod(
      cfg: Config, e0: Engine, es0: seq<Event>, opening: Event, es: seq<Event>, closing: Event)
    requires cfg.baseCooldown > 0
  {
    && Starts(e0) && Timed(opening) && closing.Tick? && Ordered(es0 + [opening] + es + [closing])
    && (forall i :: 0 <= i < |es| ==> Unforced(es[i]))
    && var e := Run(cfg, e0, es0);
       var e1 := Step(cfg, e, opening);
    && e.b.state != Open && e1.b.state == Open && e1.kernel.circuitOpen && NeverClosed(cfg, e1, es)
    && Step(cfg, Run(cfg, e1, es), closing).b.state == Closed
  }

  /** A restart forgets the trip count and takes the opening time from the kernel map, which a failed
      probe does not rewrite. With any number of restarts, the circuit closes no earlier than one base
      cooldown after the time in the map, and one probe window after the opening. */
  lemma {:induction false} OpenPeriodRestarted(cfg: Config, e0: Engine, es0: seq<Event>, opening: Event,
                                               es: seq<Event>, closing: Event)
    requires cfg.baseCooldown > 0 && RecordedPeriod(cfg, e0, es0, opening, es, closing)
    ensures var since := Step(cfg, Run(cfg, e0, es0), opening).kernel.openSince;
            closing.now >= ProbeTime(cfg, since, Done(opening)) + cfg.probeWindow
  {
    hide Run, CooldownFor, Step, NeverClosed, Ordered;
    var e := Run(cfg, e0, es0);
    var e1 := Step(cfg, e, opening);
    var since := e1.kernel.openSince;
    OrderedParts(es0, opening, es, closing);
    HalfOpenPast(cfg, e0, es0, opening.now);
    Opening(cfg, e, opening);
    StaysHeldByKernel(cfg, e1, es, since, Done(opening));
    HalfOpenPast(cfg, e1, es, closing.now);
    HeldByKernelStep(cfg, Run(cfg, e1, es), closing, since, Done(opening));
  }

  /** In particular, a period opened from CLOSED or by force and written to the map lasts the base cooldown and the
      probe window. */
  lemma {:induction false} WrittenPeriodRestarted(cfg: Config, e0: Engine, es0: seq<Event>, opening: Event,
                                                  es: seq<Event>, closing: Event)
    requires cfg.baseCooldown > 0 && RecordedPeriod(cfg, e0, es0, opening, es, closing)
    requires opening.writeOk && (opening.ForceOpen? || Run(cfg, e0, es0).b.state == Closed)
    ensures closing.now >= Done(opening) + cfg.baseCooldown + cfg.probeWindow
  {
    hide Run, CooldownFor, Step, NeverClosed, Ordered;
    OpenPeriodRestarted(cfg, e0, es0, opening, es, closing);
    Opening(cfg, Run(cfg, e0, es0), opening);
  }

  function QuietTick(t: int): Event {
    Tick(t, t, true, false, true)
  }

  lemma {:induction false} RunTwo(cfg: Config, e: Engine, a: Event, b: Event)
    requires cfg.baseCooldown > 0
    ensures Run(cfg, e, [a]) == Step(cfg, e, a) && Run(cfg, e, [a, b]) == Step(cfg, Step(cfg, e, a), b)
  {
    hide Step;
    assert [a, b][..1] == [a] && [a][..0] == [];
    assert Run(cfg, e, []) == e;
  }

  /** The bound is met, whatever the trip count was: an engine restarted in a period that began at from
      goes HALF_OPEN and closes at exactly those times. */
  lemma {:induction false} RestartShortens(cfg: Config, e: Engine, from: int)
    requires cfg.baseCooldown > 0 && e.b.state == Open && e.kernel.circuitOpen && e.kernel.openSince <= from
    ensures var t := ProbeTime(cfg, e.kernel.openSince, from);
            var es := [Restart(true), QuietTick(t)];
            && t >= from && NeverClosed(cfg, e, es)
            && Step(cfg, Run(cfg, e, es), QuietTick(t + cfg.probeWindow)).b.state == Closed
  {
    var t := ProbeTime(cfg, e.kernel.openSince, from);
    var r, a := Restart(true), QuietTick(t);
    RunTwo(cfg, e, r, a);
    assert CooldownFor(cfg, 0) == cfg.baseCooldown;
    assert Step(cfg, e, r).b == Breaker(Open, e.kernel.openSince, 0, 0);
    assert Step(cfg, Step(cfg, e, r), a).b.state == HalfOpen;
    hide Run;
    forall n | 0 <= n <= 2 ensures Run(cfg, e, [r, a][..n]).b.state != Closed {
      assert [r, a][..0] == [] && [r, a][..1] == [r] && [r, a][..2] == [r, a];
      RunNone(cfg, e);
    }
  }

  lemma RunNone(cfg: Config, e: Engine)
    requires cfg.baseCooldown > 0
    ensures Run(cfg, e, []) == e
  {
  }

  /** A period opened again by a failed probe and cut by a restart to the probe window alone: no
      cooldown at all, though its trip count asks for one. */
  lemma {:induction false} ReopenedPeriodCut(cfg: Config, kernel: Kernel)
    requires cfg.baseCooldown > 0 && kernel.circuitOpen && kernel.openSince == 0
    ensures var base := cfg.baseCooldown;
            var e0 := Engine(Breaker(Open, 0, 0, 0), 0, None, None, None, 0, kernel);
            var opening := Tick(base, base, true, true, true);
            var closing := QuietTick(base + cfg.probeWindow);
            && RecordedPeriod(cfg, e0, [QuietTick(base)], opening, [Restart(true), QuietTick(base)], closing)
            && closing.now - opening.later == cfg.probeWindow
  {
    var base := cfg.baseCooldown;
    var e0 := Engine(Breaker(Open, 0, 0, 0), 0, None, None, None, 0, kernel);
    var first, opening := QuietTick(base), Tick(base, base, true, true, true);
    var closing := QuietTick(base + cfg.probeWindow);
    assert e0 == Restarted(e0, true);
    assert CooldownFor(cfg, 0) == base;
    RunTwo(cfg, e0, first, opening);
    var e := Run(cfg, e0, [first]);
    var e1 := Step(cfg, e, opening);
    assert e1.b.state == Open && e1.kernel == kernel;
    hide Run, Step, NeverClosed;
    RestartShortens(cfg, e1, base);
    var all := [first] + [opening] + [Restart(true), first] + [closing];
    assert all == [first, opening, Restart(true), first, closing];
  }

  // ---- what clears the kernel flag --------------------------------------------------------------------

  /** A forced close, or the tick that ends a quiet probe, written to the map. */
  predicate Clears(cfg: Config, e: Engine, ev: Event) {
    || (ev.ForceClose? && ev.writeOk)
    || (&& ev.Tick? && ev.readOk && ev.writeOk && e.b.state == HalfOpen && !ev.triggered
        && ev.now - e.halfOpenAt >= cfg.probeWindow)
  }

  lemma {:induction false} ClearsExactly(cfg: Config, e: Engine, ev: Event)
    requires cfg.baseCooldown > 0 && e.kernel.circuitOpen
    ensures !Step(cfg, e, ev).kernel.circuitOpen <==> Clears(cfg, e, ev)
  {
    hide CooldownFor;
  }

  /** What clears the flag leaves a clean map: no opening time, no rates, the thresholds as they were. */
  lemma {:induction false} ClearedClean(cfg: Config, e: Engine, ev: Event)
    requires cfg.baseCooldown > 0 && Clears(cfg, e, ev)
    ensures Step(cfg, e, ev).kernel == Kernel(false, 0, e.kernel.ppsThreshold, e.kernel.bpsThreshold, 0, 0)
  {
    hide CooldownFor;
  }

  /** A flag that the kernel sets by itself stays set for as long as the engine stays CLOSED and no
      operator forces it closed. */
  lemma {:induction false} KernelOpeningStays(cfg: Config, e: Engine, es: seq<Event>)
    requires cfg.baseCooldown > 0 && e.kernel.circuitOpen
    requires forall n :: 0 <= n <= |es| ==> Run(cfg, e, es[..n]).b.state == Closed
    requires forall i :: 0 <= i < |es| ==> !(es[i].ForceClose? && es[i].writeOk)
    ensures Run(cfg, e, es).kernel.circuitOpen
    decreases |es|
  {
    hide Step;
    if |es| == 0 {
    } else {
      var n := |es| - 1;
      forall m | 0 <= m <= n ensures Run(cfg, e, es[..n][..m]).b.state == Closed {
        assert es[..n][..m] == es[..m];
      }
      KernelOpeningStays(cfg, e, es[..n]);
      ClearsExactly(cfg, Run(cfg, e, es[..n]), es[n]);
    }
  }

  /** A run without operator action in which the detector never triggers; restarts find the kernel map
      readable only if readable. */
  predicate QuietRun(es: seq<Event>, readable: bool) {
    forall i :: 0 <= i < |es| ==>
      && !es[i].ForceOpen? && !es[i].ForceClose? && (es[i].Tick? ==> !es[i].triggered)
      && (es[i].Restart? && es[i].readOk ==> readable)
  }

  lemma {:induction false} QuietStaysClosed(cfg: Config, e: Engine, es: seq<Event>)
    requires cfg.baseCooldown > 0 && e.b.state == Closed && e.kernel.circuitOpen && QuietRun(es, false)
    ensures Run(cfg, e, es).b.state == Closed && Run(cfg, e, es).kernel.circuitOpen
    decreases |es|
  {
    if |es| == 0 {
    } else {
      QuietStaysClosed(cfg, e, es[..|es| - 1]);
      hide Run, CooldownFor, Latched;
    }
  }

  /** A flag that the kernel sets by itself under a CLOSED engine can be cleared in a quiet run if and
      only if a restart can read the map: the restarted engine takes the opening over and recovers. */
  lemma {:induction false} KernelOpeningExactly(cfg: Config, e: Engine, readable: bool)
    requires cfg.baseCooldown > 0 && e.b.state == Closed && e.kernel.circuitOpen
    ensures (exists es :: QuietRun(es, readable) && !Run(cfg, e, es).kernel.circuitOpen) <==> readable
  {
    if readable {
      var t := e.kernel.openSince + cfg.baseCooldown;
      var r, a, b := Restart(true), QuietTick(t), QuietTick(t + cfg.probeWindow);
      RunTwo(cfg, e, r, a);
      assert CooldownFor(cfg, 0) == cfg.baseCooldown;
      var e2 := Run(cfg, e, [r, a]);
      assert e2.b.state == HalfOpen && e2.halfOpenAt == t && e2.kernel == e.kernel;
      assert [r, a, b][..2] == [r, a];
      ClearsExactly(cfg, e2, b);
      hide Step;
      assert Run(cfg, e, [r, a, b]) == Step(cfg, e2, b);
      assert QuietRun([r, a, b], true);
    } else {
      hide Run, QuietRun;
      forall es | QuietRun(es, false) ensures Run(cfg, e, es).kernel.circuitOpen { QuietStaysClosed(cfg, e, es); }
    }
  }

  // ---- the objects ----------------------------------------------------------------------------------

  class CircuitBreaker {
    var state: Circuit
    var openedAt: int
    var tripCount: nat
    var violations: nat

    ghost function B(): Breaker
      reads this
    {
      Breaker(state, openedAt, tripCount, violations)
    }

    constructor ()
      ensures B() == Breaker(Closed, 0, 0, 0)
    {
      state, openedAt, tripCount, violations := Closed, 0, 0, 0;
    }

    method Trip(now: int) returns (changed: bool)
      modifies this
      ensures B() == Tripped(old(B()), now) && changed == (old(state) != Open)
      ensures if changed then state == Open && openedAt == now else B() == old(B())
    {
      if state == Open { return false; }
      state, openedAt := Open, now;
      tripCount := tripCount + 1;
      violations := 0;
      return true;
    }

    method AttemptRecovery() returns (changed: bool)
      modifies this
      ensures B() == Recovering(old(B())) && changed == (old(state) == Open)
      ensures if changed then state == HalfOpen else B() == old(B())
    {
      if state != Open { return false; }
      state := HalfOpen;
      return true;
    }

    method Close() returns (changed: bool)
      modifies this
      ensures B() == Shut(old(B())) && changed == (old(state) != Closed)
      ensures if changed then state == Closed else B() == old(B())
    {
      if state == Closed { return false; }
      state := Closed;
      return true;
    }

    method ReTrip(now: int) returns (changed: bool)
      modifies this
      ensures B() == ReTripped(old(B()), now) && changed == (old(state) == HalfOpen)
      ensures if changed then state == Open && openedAt == now else B() == old(B())
    {
      if state != HalfOpen { return false; }
      state, openedAt := Open, now;
      tripCount := tripCount + 1;
      violations := 0;
      return true;
    }

    method IncrViolation(threshold: nat) returns (reached: bool)
      modifies this
      ensures B() == old(B()).(violations := old(violations) + 1) && reached == (violations >= threshold)
    {
      violations := violations + 1;
      return violations >= threshold;
    }

    method ResetViolation()
      modifies this
      ensures B() == old(B()).(violations := 0)
    {
      violations := 0;
    }

    method ResetTripCount()
      modifies this
      ensures B() == old(B()).(tripCount := 0)
    {
      tripCount := 0;
    }
  }

  /** The engine's fields; every method is one step, or part of one, of the machine above. */
  class FailsafeEngine {
    const cfg: Config
    const cb: CircuitBreaker
    var halfOpenAt: int
    var lastClosedAt: Option<int>
    var latchUntil: Option<int>
    var latchFile: Option<int>
    var writeFailures: nat
    var kernel: Kernel

    ghost function E(): Engine
      reads this, cb
    {
      Engine(cb.B(), halfOpenAt, lastClosedAt, latchUntil, latchFile, writeFailures, kernel)
    }

    /** NewEngine and its synchronisation with the kernel map. */
    constructor (cfg: Config, kernel: Kernel, latchFile: Option<int>, readOk: bool)
      ensures this.cfg == cfg && fresh(cb) && E().kernel == kernel && E().latchFile == latchFile
      ensures Starts(E()) && E() == Restarted(E(), readOk)
    {
      this.cfg, this.kernel, this.latchFile := cfg, kernel, latchFile;
      halfOpenAt, lastClosedAt, latchUntil, writeFailures := 0, None, None, 0;
      cb := new CircuitBreaker();
      new;
      if readOk && kernel.circuitOpen {
        cb.state, cb.openedAt := Open, kernel.openSince;
      }
      assert E() == Restarted(E(), readOk);
    }

    method SetFlag(open: bool, now: int, writeOk: bool)
      modifies this`kernel, this`writeFailures
      ensures E() == WriteFlag(old(E()), open, now, writeOk)
    {
      if writeOk {
        kernel := SetCircuitOpen(kernel, open, now);
      } else {
        writeFailures := writeFailures + 1;
      }
    }

    method DoOpen(now: int, writeOk: bool)
      modifies this`kernel, this`writeFailures, cb
      ensures E() == OpenCircuit(old(E()), now, writeOk)
    {
      var changed := cb.Trip(now);
      if changed { SetFlag(true, now, writeOk); }
    }

    method DoClose(now: int, writeOk: bool)
      modifies this`kernel, this`writeFailures, this`lastClosedAt, cb
      ensures E() == CloseCircuit(old(E()), now, writeOk)
    {
      var changed := cb.Close();
      if changed {
        lastClosedAt := Some(now);
        SetFlag(false, now, writeOk);
      }
    }

    /** The in-memory latch or the sentinel file is in force. */
    method OverrideActive(now: int) returns (active: bool)
      modifies this`latchUntil
      ensures E() == LatchExpired(old(E()), now) && active == Latched(E(), now)
    {
      active := false;
      if latchUntil.Some? {
        if now > latchUntil.value { latchUntil := None; } else { active := true; }
      }
      if latchFile.Some? && now - latchFile.value < ADMIN_COOLDOWN { active := true; }
    }

    method RunClosed(t: Event)
      requires t.Tick?
      modifies this, cb
      ensures E() == TickClosed(cfg, old(E()), t)
    {
      var active := OverrideActive(t.now);
      if active {
        cb.ResetViolation();
        return;
      }
      if lastClosedAt.Some? && t.now - lastClosedAt.value >= cfg.backoffResetAfter {
        if cb.tripCount > 0 { cb.ResetTripCount(); }
      }
      if t.triggered {
        var reached := cb.IncrViolation(cfg.consecutiveViolations);
        if reached { DoOpen(t.later, t.writeOk); }
      } else {
        cb.ResetViolation();
      }
    }

    method RunOpen(t: Event)
      requires t.Tick? && cfg.baseCooldown > 0 && cb.state == Open
      modifies this`halfOpenAt, cb
      ensures E() == TickOpen(cfg, old(E()), t)
    {
      if t.now - cb.openedAt >= CooldownFor(cfg, cb.tripCount) {
        var changed := cb.AttemptRecovery();
        if changed { halfOpenAt := t.later; }
      }
    }

    method RunHalfOpen(t: Event)
      requires t.Tick?
      modifies this, cb
      ensures E() == TickHalfOpen(cfg, old(E()), t)
    {
      if t.triggered {
        var changed := cb.ReTrip(t.later);
      } else if t.now - halfOpenAt >= cfg.probeWindow {
        DoClose(t.later, t.writeOk);
      }
    }

    /** tick is the machine's tick step. */
    method RunTick(t: Event)
      requires t.Tick? && cfg.baseCooldown > 0
      modifies this, cb
      ensures E() == Step(cfg, old(E()), t)
    {
      hide TickClosed, TickOpen, TickHalfOpen;
      if !t.readOk { return; }
      match cb.state
      case Closed => RunClosed(t);
      case Open => RunOpen(t);
      case HalfOpen => RunHalfOpen(t);
    }

    /** UpdateThresholds leaves breaker and flag alone. */
    method UpdateThresholds(pps: nat, bps: nat, writeOk: bool)
      requires cfg.baseCooldown > 0
      modifies this`kernel
      ensures E() == Step(cfg, old(E()), PushThresholds(pps, bps, writeOk))
    {
      if writeOk { kernel := kernel.(ppsThreshold := pps, bpsThreshold := bps); }
    }

    /** applyOverride is the machine's override step. */
    method ApplyOverride(cmd: Event)
      requires (cmd.ForceOpen? || cmd.ForceClose?) && cfg.baseCooldown > 0
      modifies this, cb
      ensures E() == Step(cfg, old(E()), cmd)
    {
      if cmd.ForceOpen? {
        latchUntil, latchFile := None, None;
        var changed := cb.Trip(cmd.now);
        SetFlag(true, cmd.now, cmd.writeOk);
      } else {
        latchUntil, latchFile := Some(cmd.now + ADMIN_COOLDOWN), Some(cmd.now);
        var changed := cb.Close();
        SetFlag(false, cmd.now, cmd.writeOk);
        lastClosedAt := Some(cmd.now);
      }
    }
  }
}
