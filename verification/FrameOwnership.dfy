/** Ownership of UMEM frames: the free pool, the four places a frame can be on its way
    through the kernel, and the frames each loop of the bridge has in hand, as a state
    machine with one step per ring or pool call. */
module FrameOwnership {
  import opened Basics
  import opened Bits

  const FILL_RING: nat := 4096
  const COMPLETION_RING: nat := 4096
  const RX_RING: nat := 2048

  /** Frame addresses, by place. quota is how many frames the fill loop still means to
      allocate before it submits what it has in hand. */
  datatype World = World(
    numFrames: nat,
    pool: seq<nat>, fill: seq<nat>, kernel: seq<nat>, rx: seq<nat>, comp: seq<nat>,
    rxHand: seq<nat>, fillHand: seq<nat>, compHand: seq<nat>,
    lost: seq<nat>, quota: nat)

  datatype Event =
    | Alloc                  // prefill and replenish: AllocFrame, or give up on an empty pool
    | SubmitFill             // prefill and replenish: FillProduce of the frames in hand
    | StartReplenish         // replenishFillRing decides how many frames to move
    | RxTake(batch: nat)     // rxLoop: RxConsume
    | RxRefill               // rxLoop: FillProduce of the processed frames
    | CompTake(batch: nat)   // completionLoop: CompletionConsume
    | FreeOne                // completionLoop: FreeFrame
    | KernelFill(n: nat)     // the kernel takes frames from the fill ring,
    | KernelRx(i: nat)       // gives one back with a packet in it,
    | KernelComp(i: nat)     // or gives one back as transmitted

  /** How many of n frames a fill ring with the given contents takes. */
  function Room(fill: seq<nat>, n: nat): (k: nat)
    ensures k <= n
  {
    if |fill| >= FILL_RING then 0 else Min(n, FILL_RING - |fill|)
  }

  function Without(s: seq<nat>, i: nat): seq<nat>
    requires i < |s|
  {
    s[..i] + s[i + 1..]
  }

  /** One step; an event that does not apply changes nothing. */
  function Step(w: World, e: Event): World {
    match e
    case Alloc =>
      if w.quota == 0 then w
      else if w.pool == [] then w.(quota := 0)
      else w.(pool := w.pool[1..], fillHand := w.fillHand + [w.pool[0]], quota := w.quota - 1)
    case SubmitFill =>
      if w.quota > 0 then w
      else
        var k := Room(w.fill, |w.fillHand|);
        w.(fill := w.fill + w.fillHand[..k], lost := w.lost + w.fillHand[k..], fillHand := [])
    case StartReplenish =>
      if w.quota > 0 || w.fillHand != [] then w else w.(quota := |w.pool| / 2)
    case RxTake(batch) =>
      if w.rxHand != [] then w
      else
        var n := Min(batch, |w.rx|);
        w.(rxHand := w.rx[..n], rx := w.rx[n..])
    case RxRefill =>
      var k := Room(w.fill, |w.rxHand|);
      w.(fill := w.fill + w.rxHand[..k], lost := w.lost + w.rxHand[k..], rxHand := [])
    case CompTake(batch) =>
      if w.compHand != [] then w
      else
        var n := Min(batch, |w.comp|);
        w.(compHand := w.comp[..n], comp := w.comp[n..])
    case FreeOne =>
      if w.compHand == [] then w
      else if |w.pool| < w.numFrames then w.(pool := w.pool + [w.compHand[0]], compHand := w.compHand[1..])
      else w.(lost := w.lost + [w.compHand[0]], compHand := w.compHand[1..])
    case KernelFill(n) =>
      var k := Min(n, |w.fill|);
      w.(kernel := w.kernel + w.fill[..k], fill := w.fill[k..])
    case KernelRx(i) =>
      if i >= |w.kernel| || |w.rx| >= RX_RING then w
      else w.(rx := w.rx + [w.kernel[i]], kernel := Without(w.kernel, i))
    case KernelComp(i) =>
      if i >= |w.kernel| || |w.comp| >= COMPLETION_RING then w
      else w.(comp := w.comp + [w.kernel[i]], kernel := Without(w.kernel, i))
  }

  function Run(w: World, es: seq<Event>): World
    decreases |es|
  {
    if |es| == 0 then w else Step(Run(w, es[..|es| - 1]), es[|es| - 1])
  }

  /** The frames of a UMEM: each is the offset of one chunk. */
  function Frames(numFrames: nat, frameSize: nat): seq<nat> {
    seq(numFrames, i requires 0 <= i => i * frameSize)
  }

  /** All frames in the pool, and the fill ring about to be filled for the first time. */
  function Initial(numFrames: nat, frameSize: nat): World {
    World(numFrames, Frames(numFrames, frameSize), [], [], [], [], [], [], [], [], FILL_RING)
  }

  // ---- conservation ---------------------------------------------------------------------------

  /** Every frame, place by place. */
  function Everything(w: World): seq<nat> {
    w.pool + w.fill + w.kernel + w.rx + w.comp + w.rxHand + w.fillHand + w.compHand + w.lost
  }

  ghost function Count(s: seq<nat>, f: nat): nat {
    multiset(s)[f]
  }

  /** How often a frame occurs in all places together. */
  ghost function Copies(w: World, f: nat): nat {
    Count(w.pool, f) + Count(w.fill, f) + Count(w.kernel, f) + Count(w.rx, f) + Count(w.comp, f)
    + Count(w.rxHand, f) + Count(w.fillHand, f) + Count(w.compHand, f) + Count(w.lost, f)
  }

  lemma {:induction false} CopiesInEverything(w: World, f: nat)
    ensures Copies(w, f) == multiset(Everything(w))[f]
  {
  }

  lemma {:induction false} CountAppend(s: seq<nat>, t: seq<nat>, f: nat)
    ensures Count(s + t, f) == Count(s, f) + Count(t, f)
  {
  }

  lemma {:induction false} CountCut(s: seq<nat>, k: nat, f: nat)
    requires k <= |s|
    ensures Count(s, f) == Count(s[..k], f) + Count(s[k..], f)
    ensures Count([], f) == 0
  {
    assert s == s[..k] + s[k..];
  }

  lemma {:induction false} CountFirst(s: seq<nat>, f: nat)
    requires s != []
    ensures Count(s, f) == Count([s[0]], f) + Count(s[1..], f)
  {
    assert s == [s[0]] + s[1..];
  }

  lemma {:induction false} CountPicked(s: seq<nat>, i: nat, f: nat)
    requires i < |s|
    ensures Count(s, f) == Count([s[i]], f) + Count(Without(s, i), f)
  {
    assert s == s[..i] + ([s[i]] + s[i + 1..]);
  }

  lemma {:induction false} RefillConserves(w: World, e: Event, f: nat)
    requires e.SubmitFill? || e.RxRefill?
    ensures Copies(Step(w, e), f) == Copies(w, f)
  {
    hide Count;
    var hand := if e.SubmitFill? then w.fillHand else w.rxHand;
    var k := Room(w.fill, |hand|);
    CountCut(hand, k, f);
    CountAppend(w.fill, hand[..k], f);
    CountAppend(w.lost, hand[k..], f);
  }

  lemma {:induction false} TakeConserves(w: World, e: Event, f: nat)
    requires e.RxTake? || e.CompTake? || e.KernelFill?
    ensures Copies(Step(w, e), f) == Copies(w, f)
  {
    hide Count;
    CountCut([], 0, f);
    match e
    case RxTake(batch) => CountCut(w.rx, Min(batch, |w.rx|), f);
    case CompTake(batch) => CountCut(w.comp, Min(batch, |w.comp|), f);
    case KernelFill(n) =>
      var k := Min(n, |w.fill|);
      CountCut(w.fill, k, f);
      CountAppend(w.kernel, w.fill[..k], f);
  }

  lemma {:induction false} PoolConserves(w: World, e: Event, f: nat)
    requires e.Alloc? || e.StartReplenish? || e.FreeOne?
    ensures Copies(Step(w, e), f) == Copies(w, f)
  {
    hide Count;
    if e.Alloc? && w.pool != [] {
      CountFirst(w.pool, f);
      CountAppend(w.fillHand, [w.pool[0]], f);
    } else if e.FreeOne? && w.compHand != [] {
      CountFirst(w.compHand, f);
      CountAppend(w.pool, [w.compHand[0]], f);
      CountAppend(w.lost, [w.compHand[0]], f);
    }
  }

  lemma {:induction false} KernelConserves(w: World, e: Event, f: nat)
    requires e.KernelRx? || e.KernelComp?
    ensures Copies(Step(w, e), f) == Copies(w, f)
  {
    hide Count, Without;
    if e.i < |w.kernel| {
      CountPicked(w.kernel, e.i, f);
      CountAppend(w.rx, [w.kernel[e.i]], f);
      CountAppend(w.comp, [w.kernel[e.i]], f);
    }
  }

  /** No step creates, duplicates or forgets a frame. */
  lemma {:induction false} StepConserves(w: World, e: Event, f: nat)
    ensures Copies(Step(w, e), f) == Copies(w, f) && Step(w, e).numFrames == w.numFrames
  {
    hide Copies;
    match e
    case SubmitFill => RefillConserves(w, e, f);
    case RxRefill => RefillConserves(w, e, f);
    case Alloc => PoolConserves(w, e, f);
    case StartReplenish => PoolConserves(w, e, f);
    case FreeOne => PoolConserves(w, e, f);
    case KernelRx(_) => KernelConserves(w, e, f);
    case KernelComp(_) => KernelConserves(w, e, f);
    case _ => TakeConserves(w, e, f);
  }

  lemma {:induction false} RunConserves(w: World, es: seq<Event>, f: nat)
    ensures Copies(Run(w, es), f) == Copies(w, f) && Run(w, es).numFrames == w.numFrames
    decreases |es|
  {
    hide Step, Copies;
    if |es| == 0 {
    } else {
      RunConserves(w, es[..|es| - 1], f);
      StepConserves(Run(w, es[..|es| - 1]), es[|es| - 1], f);
    }
  }

  /** In every run all frames together are the frames of the UMEM. */
  lemma {:induction false} FramesConserved(numFrames: nat, frameSize: nat, es: seq<Event>)
    ensures var w := Run(Initial(numFrames, frameSize), es);
            multiset(Everything(w)) == multiset(Frames(numFrames, frameSize)) && w.numFrames == numFrames
  {
    var w0 := Initial(numFrames, frameSize);
    assert Everything(w0) == Frames(numFrames, frameSize);
    hide Run, Everything, Copies, Frames;
    var w := Run(w0, es);
    forall f ensures multiset(Everything(w))[f] == multiset(Frames(numFrames, frameSize))[f] {
      RunConserves(w0, es, f);
      CopiesInEverything(w, f);
      CopiesInEverything(w0, f);
    }
    RunConserves(w0, es, 0);
  }

  // ---- each frame in one place -----------------------------------------------------------------

  ghost predicate Distinct(s: seq<nat>) {
    forall i, j :: 0 <= i < j < |s| ==> s[i] != s[j]
  }

  lemma {:induction false} FramesDistinct(numFrames: nat, frameSize: nat)
    requires frameSize > 0
    ensures Distinct(Frames(numFrames, frameSize))
  {
    forall i, j | 0 <= i < j < numFrames ensures i * frameSize != j * frameSize {
      MulMono(frameSize, i + 1, j);
    }
  }

  lemma {:induction false} TwiceCounts(s: seq<nat>, i: nat, j: nat)
    requires i < j < |s| && s[i] == s[j]
    ensures multiset(s)[s[i]] >= 2
  {
    assert s == s[..j] + s[j..];
    assert s[..j][i] == s[i] && s[j..][0] == s[i];
    assert s[i] in s[..j] && s[i] in s[j..];
  }

  lemma {:induction false} OnceCounts(s: seq<nat>, x: nat)
    requires Distinct(s)
    ensures multiset(s)[x] <= 1
    decreases |s|
  {
    if s == [] {
    } else {
      assert s == [s[0]] + s[1..];
      OnceCounts(s[1..], x);
      if x == s[0] { assert x !in s[1..]; }
    }
  }

  lemma {:induction false} DistinctByCount(s: seq<nat>, t: seq<nat>)
    requires Distinct(s) && multiset(s) == multiset(t)
    ensures Distinct(t) && |s| == |t|
  {
    forall i, j | 0 <= i < j < |t| ensures t[i] != t[j] {
      if t[i] == t[j] {
        TwiceCounts(t, i, j);
        OnceCounts(s, t[i]);
      }
    }
    assert |s| == |multiset(s)| && |t| == |multiset(t)|;
  }

  /** In every run, every frame is in exactly one place, once. */
  lemma {:induction false} OneOwner(numFrames: nat, frameSize: nat, es: seq<Event>)
    requires frameSize > 0
    ensures var w := Run(Initial(numFrames, frameSize), es);
            && Distinct(Everything(w))
            && |Everything(w)| == numFrames
            && forall f :: f in Everything(w) <==> f in Frames(numFrames, frameSize)
  {
    hide Run, Everything, Frames, Distinct;
    var w, fs := Run(Initial(numFrames, frameSize), es), Frames(numFrames, frameSize);
    FramesConserved(numFrames, frameSize, es);
    FrameCount(numFrames, frameSize);
    FramesDistinct(numFrames, frameSize);
    DistinctByCount(fs, Everything(w));
    forall f ensures f in Everything(w) <==> f in fs {
      assert f in multiset(fs) <==> f in fs;
      assert f in multiset(Everything(w)) <==> f in Everything(w);
    }
  }

  lemma FrameCount(numFrames: nat, frameSize: nat)
    ensures |Frames(numFrames, frameSize)| == numFrames
  {
  }

  // ---- the pool never overflows ---------------------------------------------------------------------

  /** Whenever a frame is about to be freed, the pool has room for it. */
  lemma {:induction false} PoolHasRoom(numFrames: nat, frameSize: nat, es: seq<Event>)
    ensures var w := Run(Initial(numFrames, frameSize), es); w.compHand != [] ==> |w.pool| < w.numFrames
  {
    var w := Run(Initial(numFrames, frameSize), es);
    RunSize(numFrames, frameSize, es);
  }

  lemma {:induction false} RunSize(numFrames: nat, frameSize: nat, es: seq<Event>)
    ensures var w := Run(Initial(numFrames, frameSize), es); |Everything(w)| == numFrames == w.numFrames
  {
    hide Run, Everything, Frames;
    var w := Run(Initial(numFrames, frameSize), es);
    FramesConserved(numFrames, frameSize, es);
    FrameCount(numFrames, frameSize);
    assert |multiset(Everything(w))| == |multiset(Frames(numFrames, frameSize))|;
  }

  // ---- what is lost ------------------------------------------------------------------------------------

  /** The frames a step loses: those a full fill ring has no room for. */
  function Spilled(w: World, e: Event): seq<nat> {
    if e.RxRefill? then w.rxHand[Room(w.fill, |w.rxHand|)..]
    else if e.SubmitFill? && w.quota == 0 then w.fillHand[Room(w.fill, |w.fillHand|)..]
    else []
  }

  /** In every run a frame is lost only by a short FillProduce. */
  lemma {:induction false} LostOnlyByShortFill(numFrames: nat, frameSize: nat, es: seq<Event>, e: Event)
    ensures var w := Run(Initial(numFrames, frameSize), es); Step(w, e).lost == w.lost + Spilled(w, e)
  {
    PoolHasRoom(numFrames, frameSize, es);
  }

  /** A fill ring at least as large as the UMEM never spills. */
  lemma {:induction false} NothingLost(numFrames: nat, frameSize: nat, es: seq<Event>)
    requires numFrames <= FILL_RING
    ensures Run(Initial(numFrames, frameSize), es).lost == []
    decreases |es|
  {
    hide Step;
    if |es| == 0 {
    } else {
      var before, e := es[..|es| - 1], es[|es| - 1];
      var w := Run(Initial(numFrames, frameSize), before);
      NothingLost(numFrames, frameSize, before);
      LostOnlyByShortFill(numFrames, frameSize, before, e);
      RunSize(numFrames, frameSize, before);
      assert |w.fill| + |w.rxHand| <= FILL_RING && |w.fill| + |w.fillHand| <= FILL_RING;
    }
  }

  lemma {:induction false} RunAppend(w: World, es: seq<Event>, fs: seq<Event>)
    ensures Run(w, es + fs) == Run(Run(w, es), fs)
    decreases |fs|
  {
    hide Step;
    if |fs| == 0 {
      assert es + fs == es;
    } else {
      var n := |fs| - 1;
      assert (es + fs)[..|es| + n] == es + fs[..n];
      RunAppend(w, es, fs[..n]);
    }
  }

  lemma {:induction false} RunOne(w: World, e: Event)
    ensures Run(w, [e]) == Step(w, e)
  {
    hide Step;
    assert [e][..0] == [];
    assert Run(w, []) == w;
  }

  lemma {:induction false} AllocMany(w: World, k: nat)
    requires k <= w.quota
    ensures var m := Min(k, |w.pool|);
            Run(w, Repeat(Alloc, k))
            == w.(pool := w.pool[m..], fillHand := w.fillHand + w.pool[..m],
                  quota := if k <= |w.pool| then w.quota - k else 0)
    decreases k
  {
    if k == 0 {
      assert w.pool[0..] == w.pool && w.fillHand + w.pool[..0] == w.fillHand;
    } else {
      AllocMany(w, k - 1);
      assert Repeat(Alloc, k)[..k - 1] == Repeat(Alloc, k - 1);
      if k <= |w.pool| { assert w.pool[..k] == w.pool[..k - 1] + [w.pool[k - 1]]; }
    }
  }

  /** Allocating up to k frames and submitting them. */
  function MoveFrames(k: nat): seq<Event> {
    Repeat(Alloc, k) + [SubmitFill]
  }

  lemma {:induction false} MoveMany(w: World)
    requires w.fillHand == []
    ensures var m := Min(w.quota, |w.pool|);
            var k := Room(w.fill, m);
            Run(w, MoveFrames(w.quota))
            == w.(pool := w.pool[m..], fill := w.fill + w.pool[..k], lost := w.lost + w.pool[..m][k..], quota := 0)
  {
    var q, m := w.quota, Min(w.quota, |w.pool|);
    var k := Room(w.fill, m);
    AllocMany(w, q);
    RunAppend(w, Repeat(Alloc, q), [SubmitFill]);
    RunOne(Run(w, Repeat(Alloc, q)), SubmitFill);
    assert [] + w.pool[..m] == w.pool[..m];
    assert w.pool[..m][..k] == w.pool[..k];
  }

  /** Prefill, then one replenish while the kernel has taken nothing yet. */
  function SpillRun(numFrames: nat): seq<Event>
    requires numFrames >= FILL_RING
  {
    MoveFrames(FILL_RING) + [StartReplenish] + MoveFrames((numFrames - FILL_RING) / 2)
  }

  lemma {:induction false} Spills(numFrames: nat, frameSize: nat)
    requires numFrames >= FILL_RING + 2
    ensures Run(Initial(numFrames, frameSize), SpillRun(numFrames)).lost != []
  {
    hide Run, Frames;
    var w0 := Initial(numFrames, frameSize);
    var pre := MoveFrames(FILL_RING);
    FrameCount(numFrames, frameSize);
    MoveMany(w0);
    var w1 := Run(w0, pre);
    RunAppend(w0, pre, [StartReplenish]);
    RunOne(w1, StartReplenish);
    var w2 := Step(w1, StartReplenish);
    assert w2.quota == (numFrames - FILL_RING) / 2;
    RunAppend(w0, pre + [StartReplenish], MoveFrames(w2.quota));
    MoveMany(w2);
  }

  predicate PowerOfTwo(n: nat) {
    n == 1 || (n > 1 && n % 2 == 0 && PowerOfTwo(n / 2))
  }

  lemma {:induction false} NextPower(n: nat, k: nat)
    requires PowerOfTwo(n) && n > Pow2(k)
    ensures n >= 2 * Pow2(k)
    decreases k
  {
    if k == 0 {
    } else {
      NextPower(n / 2, k - 1);
    }
  }

  /** No run loses a frame exactly when the UMEM fits in the fill ring. */
  lemma {:induction false} LossExactly(numFrames: nat, frameSize: nat)
    requires PowerOfTwo(numFrames)
    ensures (forall es :: Run(Initial(numFrames, frameSize), es).lost == []) <==> numFrames <= FILL_RING
  {
    hide Run, PowerOfTwo;
    assert Pow2(6) == 64;
    assert Pow2(12) == FILL_RING;
    if numFrames <= FILL_RING {
      forall es ensures Run(Initial(numFrames, frameSize), es).lost == [] { NothingLost(numFrames, frameSize, es); }
    } else {
      NextPower(numFrames, 12);
      Spills(numFrames, frameSize);
    }
  }
}
