/** When the kernel's flood detector opens the circuit: exactly when the packets or the bits of one
    window exceed a threshold. */
module XdpDetector {
  import opened Bits
  import opened Xdp
  import opened XdpWindow

  /** A packet that the detector checks. */
  datatype Sight = Sight(at: nat, len: nat)

  /** The packets that the detector checks in a run. */
  function Sights(st: State, es: seq<Event>): seq<Sight>
    decreases |es|
  {
    if |es| == 0 then []
    else
      var before, e := es[..|es| - 1], es[|es| - 1];
      Sights(st, before)
      + if e.Receive? && Checked(Run(st, before), e.p) then [Sight(e.p.failsafeAt, e.p.len)] else []
  }

  // ---- windows ----------------------------------------------------------------------------------

  /** When the window that packet n falls into began: a packet a second or more after the beginning of
      the last window begins one. */
  function Began(f: Flood, v: seq<Sight>, n: nat): nat
    requires n <= |v|
    decreases n, 0
  {
    if n == 0 then f.windowStart
    else if Begins(f, v, n - 1) then v[n - 1].at
    else Began(f, v, n - 1)
  }

  predicate Begins(f: Flood, v: seq<Sight>, n: nat)
    requires n < |v|
    decreases n, 1
  {
    SatSub(v[n].at, Began(f, v, n)) >= SECOND
  }

  /** The packets of the current window among the first n; of the window found at the start, those
      already counted too. */
  function PacketsIn(f: Flood, v: seq<Sight>, n: nat): nat
    requires n <= |v|
  {
    if n == 0 then f.pps else if Begins(f, v, n - 1) then 1 else PacketsIn(f, v, n - 1) + 1
  }

  function BitsIn(f: Flood, v: seq<Sight>, n: nat): nat
    requires n <= |v|
  {
    if n == 0 then f.bps
    else if Begins(f, v, n - 1) then 8 * v[n - 1].len
    else BitsIn(f, v, n - 1) + 8 * v[n - 1].len
  }

  // ---- the detector's counters ----------------------------------------------------------------------

  function Detected(f: Flood, v: seq<Sight>): Flood {
    if |v| == 0 then f else CheckFailsafe(Detected(f, v[..|v| - 1]), v[|v| - 1].at, v[|v| - 1].len)
  }

  lemma {:induction false} DetectorRuns(st: State, es: seq<Event>)
    requires KeepsFlood(st, es)
    ensures Run(st, es).flood == Detected(st.flood, Sights(st, es))
    decreases |es|
  {
    hide Process, CheckFailsafe;
    if |es| == 0 {
    } else {
      var n := |es| - 1;
      KeepsFloodPrefix(st, es, n);
      DetectorRuns(st, es[..n]);
      var v := Sights(st, es[..n]);
      if es[n].Receive? && Checked(Run(st, es[..n]), es[n].p) {
        FloodAfter(Run(st, es[..n]), es[n].p);
        var x := Sight(es[n].p.failsafeAt, es[n].p.len);
        assert Sights(st, es) == v + [x] && (v + [x])[..|v|] == v;
      } else {
        if es[n].Receive? { FloodAfter(Run(st, es[..n]), es[n].p); }
        assert Sights(st, es) == v;
      }
    }
  }

  lemma {:induction false} Prefixes(f: Flood, v: seq<Sight>, m: nat, n: nat)
    requires n <= m <= |v|
    ensures Began(f, v[..m], n) == Began(f, v, n) && PacketsIn(f, v[..m], n) == PacketsIn(f, v, n)
    ensures BitsIn(f, v[..m], n) == BitsIn(f, v, n)
    decreases n
  {
    if n == 0 {
    } else {
      Prefixes(f, v, m, n - 1);
    }
  }

  /** After n packets, a counter exceeds its threshold. */
  predicate Over(f: Flood, v: seq<Sight>, n: nat)
    requires n <= |v|
  {
    Min(PacketsIn(f, v, n), MAX64) > f.ppsThreshold || Min(BitsIn(f, v, n), MAX64) > f.bpsThreshold
  }

  ghost predicate FirstOver(f: Flood, v: seq<Sight>, m: nat) {
    0 < m <= |v| && Over(f, v, m) && forall k :: 0 < k < m ==> !Over(f, v, k)
  }

  predicate Short(v: seq<Sight>) {
    forall i :: 0 <= i < |v| ==> v[i].len <= MAX32
  }

  /** The counters after packets: those of the current window. */
  ghost predicate Counted(f: Flood, v: seq<Sight>, g: Flood) {
    var n := |v|;
    && g.windowStart == Began(f, v, n) && g.ppsThreshold == f.ppsThreshold && g.bpsThreshold == f.bpsThreshold
    && g.pps == Min(PacketsIn(f, v, n), MAX64) && g.bps == Min(BitsIn(f, v, n), MAX64)
  }

  /** The circuit after packets: open since the first time a counter was over, if there was one. */
  ghost predicate Latched(f: Flood, v: seq<Sight>, g: Flood) {
    if g.open then exists m :: FirstOver(f, v, m) && g.openSince == v[m - 1].at
    else forall m :: 0 < m <= |v| ==> !Over(f, v, m)
  }

  lemma {:induction false} CountStep(f: Flood, v: seq<Sight>, g: Flood)
    requires |v| > 0 && Short(v) && Counted(f, v[..|v| - 1], g)
    ensures var g' := CheckFailsafe(g, v[|v| - 1].at, v[|v| - 1].len);
            && Counted(f, v, g') && (g'.open <==> g.open || Over(f, v, |v|))
            && g'.openSince == if g'.open && !g.open then v[|v| - 1].at else g.openSince
  {
    Prefixes(f, v, |v| - 1, |v| - 1);
  }

  lemma {:induction false} LatchStep(f: Flood, v: seq<Sight>, g: Flood, g': Flood)
    requires |v| > 0 && Latched(f, v[..|v| - 1], g) && (g'.open <==> g.open || Over(f, v, |v|))
    requires g'.openSince == if g'.open && !g.open then v[|v| - 1].at else g.openSince
    ensures Latched(f, v, g')
  {
    var n, u := |v| - 1, v[..|v| - 1];
    forall m | 0 < m <= n ensures Over(f, u, m) == Over(f, v, m) { Prefixes(f, v, n, m); }
    hide Over;
    if g.open {
      var m :| FirstOver(f, u, m) && g.openSince == u[m - 1].at;
      assert FirstOver(f, v, m);
    } else if g'.open {
      assert FirstOver(f, v, n + 1);
    }
  }

  lemma {:induction false} Tally(f: Flood, v: seq<Sight>)
    requires !f.open && f.pps <= MAX64 && f.bps <= MAX64 && Short(v)
    ensures Counted(f, v, Detected(f, v)) && Latched(f, v, Detected(f, v))
    decreases |v|
  {
    hide Counted, Latched, CheckFailsafe, Over;
    if |v| == 0 {
      NothingSeen(f);
    } else {
      var g := Detected(f, v[..|v| - 1]);
      Tally(f, v[..|v| - 1]);
      CountStep(f, v, g);
      LatchStep(f, v, g, Detected(f, v));
    }
  }

  lemma NothingSeen(f: Flood)
    requires !f.open && f.pps <= MAX64 && f.bps <= MAX64
    ensures Counted(f, [], f) && Latched(f, [], f)
  {
  }

  // ---- by windows ---------------------------------------------------------------------------------------

  /** Packets i to m - 1 are those of one window up to m: i begins it, or it was found at the start. */
  ghost predicate OneWindow(f: Flood, v: seq<Sight>, i: nat, m: nat) {
    && i < m <= |v| && (i == 0 || Begins(f, v, i))
    && forall k :: i < k < m ==> !Begins(f, v, k)
  }

  function Lengths(v: seq<Sight>): nat {
    if |v| == 0 then 0 else Lengths(v[..|v| - 1]) + v[|v| - 1].len
  }

  /** Packets i to m - 1, with what was counted before if their window was found at the start, are more
      than one of the thresholds allows, as far as 64-bit counters can tell. */
  ghost predicate Exceeds(f: Flood, v: seq<Sight>, i: nat, m: nat) {
    && i < m <= |v|
    && var pps, bps := if Begins(f, v, i) then 0 else f.pps, if Begins(f, v, i) then 0 else f.bps;
    || Min(pps + (m - i), MAX64) > f.ppsThreshold
    || Min(bps + 8 * Lengths(v[i..m]), MAX64) > f.bpsThreshold
  }

  /** Up to m, the window of packet m - 1 exceeds a threshold. */
  ghost predicate Flooded(f: Flood, v: seq<Sight>, m: nat) {
    exists i: nat :: OneWindow(f, v, i, m) && Exceeds(f, v, i, m)
  }

  lemma {:induction false} WindowCounts(f: Flood, v: seq<Sight>, i: nat, m: nat)
    requires OneWindow(f, v, i, m)
    ensures i < m <= |v|
    ensures PacketsIn(f, v, m) == (if Begins(f, v, i) then 0 else f.pps) + (m - i)
    ensures BitsIn(f, v, m) == (if Begins(f, v, i) then 0 else f.bps) + 8 * Lengths(v[i..m])
    decreases m
  {
    hide Begins;
    var s := v[i..m];
    assert s[..|s| - 1] == v[i..m - 1];
    assert Lengths(s) == Lengths(v[i..m - 1]) + v[m - 1].len;
    if m == i + 1 {
      assert v[i..i] == [];
    } else {
      WindowCounts(f, v, i, m - 1);
    }
  }

  lemma {:induction false} SomeWindow(f: Flood, v: seq<Sight>, m: nat) returns (i: nat)
    requires 0 < m <= |v|
    ensures OneWindow(f, v, i, m)
    decreases m
  {
    hide Begins;
    if m == 1 || Begins(f, v, m - 1) {
      i := m - 1;
    } else {
      i := SomeWindow(f, v, m - 1);
    }
  }

  lemma {:induction false} OverIsFlooded(f: Flood, v: seq<Sight>, m: nat)
    requires 0 < m <= |v|
    ensures Over(f, v, m) <==> Flooded(f, v, m)
  {
    hide Begins, OneWindow, Lengths;
    var i := SomeWindow(f, v, m);
    WindowCounts(f, v, i, m);
    if Over(f, v, m) {
      assert Exceeds(f, v, i, m);
    }
    if Flooded(f, v, m) {
      var j: nat :| OneWindow(f, v, j, m) && Exceeds(f, v, j, m);
      WindowCounts(f, v, j, m);
    }
  }

  /** In every run that finds the circuit closed: it is open at the end if and only if at some packet the
      packets of one window so far, or their bits, exceeded a threshold; and it is on record as open
      since the first such packet. */
  lemma {:induction false} CircuitOpensExactly(st: State, es: seq<Event>)
    requires KeepsFlood(st, es) && Short(Sights(st, es))
    requires !st.flood.open && st.flood.pps <= MAX64 && st.flood.bps <= MAX64
    ensures var f, v, g := st.flood, Sights(st, es), Run(st, es).flood;
            if exists m: nat :: Flooded(f, v, m) then
              g.open && exists m: nat :: Flooded(f, v, m) && 0 < m <= |v| && g.openSince == v[m - 1].at
                                    && forall k: nat :: k < m ==> !Flooded(f, v, k)
            else !g.open
  {
    hide Run, Sights, KeepsFlood, Over;
    var f, v, g := st.flood, Sights(st, es), Run(st, es).flood;
    DetectorRuns(st, es);
    Tally(f, v);
    forall m: nat ensures Flooded(f, v, m) <==> 0 < m <= |v| && Over(f, v, m) {
      if 0 < m <= |v| { OverIsFlooded(f, v, m); }
    }
    hide Flooded;
    if g.open {
      var m :| FirstOver(f, v, m) && g.openSince == v[m - 1].at;
      assert Flooded(f, v, m);
    }
  }
}
