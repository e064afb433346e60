/** The writer's limit on map writes per 100 milliseconds, over runs of requests. */
module WriteWindow {
  const WINDOW_NS: nat := 100_000_000

  /** Operations charged to the current window, and the time at which it is over. */
  datatype Window = Window(count: nat, reset: nat)

  /** A new window starts with the first request after the last one is over. */
  function Rolled(w: Window, now: nat): Window {
    if now > w.reset then Window(0, now + WINDOW_NS) else w
  }

  predicate Admits(w: Window, max: nat, now: nat, ops: nat) {
    Rolled(w, now).count + ops <= max
  }

  /** The window after a request for so many operations, all admitted or none. */
  function Charged(w: Window, max: nat, now: nat, ops: nat): (r: Window)
    ensures w.count <= max ==> r.count <= max
  {
    var r := Rolled(w, now);
    if Admits(w, max, now, ops) then r.(count := r.count + ops) else r
  }

  // ---- runs ------------------------------------------------------------------------------

  datatype Request = Request(now: nat, ops: nat)

  function After(w: Window, max: nat, rs: seq<Request>): Window {
    if |rs| == 0 then w
    else
      var r := rs[|rs| - 1];
      Charged(After(w, max, rs[..|rs| - 1]), max, r.now, r.ops)
  }

  /** Operations admitted over a run of requests. */
  function Admitted(w: Window, max: nat, rs: seq<Request>): nat {
    if |rs| == 0 then 0
    else
      var before, r := rs[..|rs| - 1], rs[|rs| - 1];
      Admitted(w, max, before) + if Admits(After(w, max, before), max, r.now, r.ops) then r.ops else 0
  }

  /** All requests come within 100 milliseconds from t. */
  ghost predicate Within(rs: seq<Request>, t: nat) {
    forall i :: 0 <= i < |rs| ==> t <= rs[i].now <= t + 100_000_000
  }

  /** With so many operations admitted since window w0, at most two windows were charged. */
  ghost predicate TwoWindows(w0: Window, w: Window, max: nat, t: nat, ops: nat) {
    && w.count <= max
    && (|| (w.reset == w0.reset && ops <= w.count)
        || (w.reset >= t + WINDOW_NS && ops <= max + w.count))
  }

  lemma {:induction false} WindowInvariant(w: Window, max: nat, rs: seq<Request>, t: nat)
    requires w.count <= max && Within(rs, t)
    ensures TwoWindows(w, After(w, max, rs), max, t, Admitted(w, max, rs))
    decreases |rs|
  {
    if |rs| == 0 {
    } else {
      WindowInvariant(w, max, rs[..|rs| - 1], t);
    }
  }

  /** In any 100 milliseconds at most twice the window's limit is admitted: from any state of the
      window, for any requests, single writes and batches mixed. */
  lemma {:induction false} WindowBound(w: Window, max: nat, rs: seq<Request>, t: nat)
    requires w.count <= max && Within(rs, t)
    ensures Admitted(w, max, rs) <= 2 * max
  {
    WindowInvariant(w, max, rs, t);
  }

  /** ... and no smaller bound holds: two full batches can come one nanosecond apart. */
  lemma {:induction false} WindowBoundMet(max: nat, t: nat)
    ensures var rs := [Request(t, max), Request(t + 1, max)];
            Within(rs, t) && Admitted(Window(0, t), max, rs) == 2 * max
  {
    var a, b := Request(t, max), Request(t + 1, max);
    assert [a, b][..1] == [a] && [a][..0] == [];
    assert After(Window(0, t), max, [a]) == Window(max, t);
    assert Admitted(Window(0, t), max, [a]) == max;
  }
}
