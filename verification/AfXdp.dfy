/** The UMEM frame pool and the bridge's loops, each proved to be a run of the ownership
    machine's steps. */
module AfXdp {
  import opened Basics
  import opened Bits
  import opened FrameOwnership
  import opened XdpRing

  const FRAME_HEADROOM: nat := 256

  /** A receive descriptor. */
  datatype Desc = Desc(addr: nat, len: nat)

  function Addresses(ds: seq<Desc>): (s: seq<nat>)
    ensures |s| == |ds|
  {
    seq(|ds|, i requires 0 <= i < |ds| => ds[i].addr)
  }

  class Umem {
    const numFrames: nat
    const frameSize: nat
    var freeFrames: seq<nat>

    ghost predicate Valid()
      reads this
    {
      |freeFrames| <= numFrames < MOD32
    }

    /** The pool of NewUMEM starts with every frame, in order. */
    constructor (numFrames: nat, frameSize: nat)
      requires numFrames < MOD32
      ensures Valid() && freeFrames == Frames(numFrames, frameSize)
      ensures this.numFrames == numFrames && this.frameSize == frameSize
    {
      var pool := [];
      for i := 0 to numFrames
        invariant pool == Frames(i, frameSize)
      {
        pool := pool + [i * frameSize];
      }
      this.numFrames, this.frameSize, freeFrames := numFrames, frameSize, pool;
    }

    method AllocFrame() returns (frame: nat, ok: bool)
      requires Valid()
      modifies this
      ensures Valid() && ok == (old(freeFrames) != [])
      ensures ok ==> old(freeFrames) == [frame] + freeFrames
      ensures !ok ==> frame == 0 && freeFrames == old(freeFrames)
    {
      if freeFrames == [] { return 0, false; }
      frame, ok := freeFrames[0], true;
      freeFrames := freeFrames[1..];
    }

    /** FreeFrame; a frame that meets a full pool is lost. */
    method FreeFrame(offset: nat) returns (kept: bool)
      requires Valid()
      modifies this
      ensures Valid() && kept == (old(|freeFrames|) < numFrames)
      ensures freeFrames == old(freeFrames) + if kept then [offset] else []
    {
      kept := |freeFrames| < numFrames;
      if kept { freeFrames := freeFrames + [offset]; }
    }

    /** Up to k frames, oldest first. */
    method AllocUpTo(k: nat) returns (frames: seq<nat>)
      requires Valid()
      modifies this
      ensures Valid()
      ensures var m := Min(k, old(|freeFrames|));
              frames == old(freeFrames)[..m] && freeFrames == old(freeFrames)[m..]
    {
      frames := [];
      ghost var pool := freeFrames;
      while |frames| < k
        invariant Valid() && |frames| <= Min(k, |pool|)
        invariant frames == pool[..|frames|] && freeFrames == pool[|frames|..]
      {
        ghost var i := |frames|;
        var frame, ok := AllocFrame();
        if !ok { break; }
        assert pool[i..] == [pool[i]] + pool[i + 1..];
        frames := frames + [frame];
      }
    }
  }

  /** NewUMEM refuses frame counts and sizes it cannot use. */
  method NewUmem(numFrames: nat, frameSize: nat) returns (u: Umem?)
    requires numFrames < MOD32
    ensures u != null <==> PowerOfTwo(numFrames) && (frameSize == 2048 || frameSize == 4096)
    ensures u != null ==> fresh(u) && u.Valid() && u.numFrames == numFrames
    ensures u != null ==> u.freeFrames == Frames(numFrames, frameSize)
  {
    if !PowerOfTwo(numFrames) || (frameSize != 2048 && frameSize != 4096) { return null; }
    u := new Umem(numFrames, frameSize);
  }

  /** The packets of a batch that are longer than a frame's data or do not parse. */
  function Unusable(ds: seq<Desc>, frameSize: nat, parses: Desc -> bool): set<nat> {
    set i | 0 <= i < |ds| && (ds[i].len > frameSize - FRAME_HEADROOM || !parses(ds[i]))
  }

  lemma {:induction false} UnusableNext(ds: seq<Desc>, i: nat, frameSize: nat, parses: Desc -> bool)
    requires i < |ds|
    ensures |Unusable(ds[..i + 1], frameSize, parses)|
         == |Unusable(ds[..i], frameSize, parses)|
            + if ds[i].len > frameSize - FRAME_HEADROOM || !parses(ds[i]) then 1 else 0
  {
    var bad, next := Unusable(ds[..i], frameSize, parses), Unusable(ds[..i + 1], frameSize, parses);
    if ds[i].len > frameSize - FRAME_HEADROOM || !parses(ds[i]) {
      assert next == bad + {i};
    } else {
      assert next == bad;
    }
  }

  lemma UnusableNone(frameSize: nat, parses: Desc -> bool)
    ensures Unusable([], frameSize, parses) == {}
  {
  }

  /** The loop of rxLoop over a batch of descriptors. */
  method Collect(descs: seq<Desc>, frameSize: nat, parses: Desc -> bool) returns (toRefill: seq<nat>, errors: nat)
    ensures toRefill == Addresses(descs) && errors == |Unusable(descs, frameSize, parses)|
  {
    hide Unusable;
    toRefill, errors := [], 0;
    UnusableNone(frameSize, parses);
    for i := 0 to |descs|
      invariant toRefill == Addresses(descs[..i]) && errors == |Unusable(descs[..i], frameSize, parses)|
    {
      UnusableNext(descs, i, frameSize, parses);
      if frameSize - FRAME_HEADROOM < descs[i].len || !parses(descs[i]) { errors := errors + 1; }
      toRefill := toRefill + [descs[i].addr];
    }
    assert descs[..|descs|] == descs;
  }

  lemma {:induction false} AddressesOf(ds: seq<Desc>, n: nat)
    requires n <= |ds|
    ensures Addresses(ds[..n]) == Addresses(ds)[..n] && Addresses(ds[n..]) == Addresses(ds)[n..]
  {
  }

  class Bridge {
    const umem: Umem
    const fill: Ring<nat>
    const rx: Ring<Desc>
    const comp: Ring<nat>
    ghost var kernel: seq<nat>
    ghost var lost: seq<nat>

    /** NewBridge: a UMEM with every frame free, and empty rings. */
    constructor (umem: Umem)
      requires umem.Valid() && umem.freeFrames == FrameOwnership.Frames(umem.numFrames, umem.frameSize)
      ensures Valid() && this.umem == umem && fresh(fill) && fresh(rx) && fresh(comp)
      ensures Frames(FILL_RING) == Initial(umem.numFrames, umem.frameSize)
    {
      RingSizes();
      this.umem := umem;
      fill := new Ring<nat>(FILL_RING);
      rx := new Ring<Desc>(RX_RING);
      comp := new Ring<nat>(COMPLETION_RING);
      kernel, lost := [], [];
    }

    ghost predicate Valid()
      reads this, umem, fill, rx, comp
    {
      && umem.Valid() && fill.Valid() && rx.Valid() && comp.Valid()
      && fill != comp && fill.desc != comp.desc
      && fill.desc.Length == FILL_RING && rx.desc.Length == RX_RING && comp.desc.Length == COMPLETION_RING
    }

    /** Where the frames are while no loop has any in hand. */
    ghost function Frames(quota: nat): World
      requires Valid()
      reads this, umem, fill, fill.desc, rx, rx.desc, comp, comp.desc
    {
      World(umem.numFrames, umem.freeFrames, fill.Contents(), kernel, Addresses(rx.Contents()), comp.Contents(),
            [], [], [], lost, quota)
    }

    /** FillProduce of frames in hand; what does not fit is gone. */
    method Submit(frames: seq<nat>)
      requires Valid() && |frames| < MOD32
      modifies this, fill, fill.desc
      ensures Valid() && kernel == old(kernel)
      ensures var k := Room(old(fill.Contents()), |frames|);
              fill.Contents() == old(fill.Contents()) + frames[..k] && lost == old(lost) + frames[k..]
    {
      hide RingSize;
      var n := fill.Produce(frames);
      lost := lost + frames[n..];
    }

    /** prefillFillRing, when the socket is created. */
    method Prefill() returns (ok: bool)
      requires Valid()
      modifies this, umem, fill, fill.desc
      ensures Valid() && ok == (old(umem.freeFrames) != [])
      ensures Frames(0) == Run(old(Frames(FILL_RING)), MoveFrames(FILL_RING))
    {
      hide Run, RingSize, Ring.Contents, Ring.Valid;
      MoveMany(Frames(FILL_RING));
      var frames := umem.AllocUpTo(FILL_RING);
      ok := |frames| > 0;
      if ok { Submit(frames); }
    }

    /** replenishFillRing moves half of the pool to the fill ring. */
    method ReplenishFillRing()
      requires Valid()
      modifies this, umem, fill, fill.desc
      ensures Valid()
      ensures var w := old(Frames(0)); Frames(0) == Run(w, [StartReplenish] + MoveFrames(|w.pool| / 2))
    {
      hide Run, RingSize, Ring.Contents, Ring.Valid;
      ghost var w := Frames(0);
      var toAdd := |umem.freeFrames| / 2;
      RunOne(w, StartReplenish);
      RunAppend(w, [StartReplenish], MoveFrames(toAdd));
      MoveMany(Step(w, StartReplenish));
      if toAdd == 0 { return; }
      var frames := umem.AllocUpTo(toAdd);
      if |frames| > 0 { Submit(frames); }
    }

    /** One round of rxLoop: every received frame goes back to the fill ring, whatever
        became of its packet. */
    method RxRound(batch: nat, parses: Desc -> bool) returns (errors: nat)
      requires Valid() && batch < MOD32
      modifies this, rx`consumer, fill, fill.desc
      ensures Valid() && umem.freeFrames == old(umem.freeFrames)
      ensures Frames(0) == Run(old(Frames(0)), [RxTake(batch), RxRefill])
      ensures var taken := old(rx.Contents())[..Min(batch, |old(rx.Contents())|)];
              errors == |Unusable(taken, umem.frameSize, parses)|
    {
      hide Run, Step, Room, Addresses, RingSize, Ring.Contents, Ring.Valid;
      ghost var w := Frames(0);
      RxSteps(w, batch);
      ghost var received := rx.Contents();
      var rxDescs := TakeBatch(rx, batch);
      AddressesOf(received, |rxDescs|);
      var toRefill: seq<nat>;
      toRefill, errors := Collect(rxDescs, umem.frameSize, parses);
      Submit(toRefill);
    }

    /** The loop of completionLoop over a batch of frames, w being where all frames are. */
    method FreeAll(frames: seq<nat>, ghost w: World)
      requires umem.Valid() && w.numFrames == umem.numFrames && w.pool == umem.freeFrames && w.lost == lost
      requires w.compHand == frames
      modifies this`lost, umem
      ensures umem.Valid()
      ensures Run(w, Repeat(FreeOne, |frames|)) == w.(pool := umem.freeFrames, lost := lost, compHand := [])
    {
      hide Run;
      FreeNext(w, 0);
      for i := 0 to |frames|
        invariant umem.Valid()
        invariant Run(w, Repeat(FreeOne, i)) == w.(pool := umem.freeFrames, lost := lost, compHand := frames[i..])
      {
        FreeNext(w, i);
        var kept := umem.FreeFrame(frames[i]);
        if !kept { lost := lost + [frames[i]]; }
      }
    }

    /** One round of completionLoop. */
    method CompletionRound(batch: nat)
      requires Valid() && batch < MOD32
      modifies this`lost, umem, comp`consumer
      ensures Valid()
      ensures var w := old(Frames(0));
              Frames(0) == Run(w, [CompTake(batch)] + Repeat(FreeOne, Min(batch, |w.comp|)))
    {
      hide Run, Step, Repeat, Addresses, RingSize, Ring.Contents, Ring.Valid;
      ghost var w := Frames(0);
      var frames := TakeBatch(comp, batch);
      CompStart(w, batch, |frames|);
      FreeAll(frames, Step(w, CompTake(batch)));
    }
  }

  lemma RingSizes()
    ensures RingSize(FILL_RING) && RingSize(RX_RING) && RingSize(COMPLETION_RING)
  {
    assert Pow2(6) == 64;
    assert Pow2(11) == RX_RING && Pow2(12) == FILL_RING;
  }

  lemma {:induction false} RxSteps(w: World, batch: nat)
    requires w.rxHand == []
    ensures var n := Min(batch, |w.rx|);
            var k := Room(w.fill, n);
            Run(w, [RxTake(batch), RxRefill])
            == w.(rx := w.rx[n..], fill := w.fill + w.rx[..n][..k], lost := w.lost + w.rx[..n][k..])
  {
    RunOne(w, RxTake(batch));
    RunOne(Run(w, [RxTake(batch)]), RxRefill);
    RunAppend(w, [RxTake(batch)], [RxRefill]);
    assert [RxTake(batch)] + [RxRefill] == [RxTake(batch), RxRefill];
  }

  lemma {:induction false} CompStart(w: World, batch: nat, n: nat)
    requires w.compHand == [] && n == Min(batch, |w.comp|)
    ensures Step(w, CompTake(batch)) == w.(comp := w.comp[n..], compHand := w.comp[..n])
    ensures Run(w, [CompTake(batch)] + Repeat(FreeOne, n)) == Run(Step(w, CompTake(batch)), Repeat(FreeOne, n))
  {
    RunOne(w, CompTake(batch));
    RunAppend(w, [CompTake(batch)], Repeat(FreeOne, n));
  }

  lemma {:induction false} FreeNext(w: World, i: nat)
    ensures Run(w, Repeat(FreeOne, i + 1)) == Step(Run(w, Repeat(FreeOne, i)), FreeOne)
    ensures Run(w, Repeat(FreeOne, 0)) == w
  {
    hide Step;
    assert Repeat(FreeOne, i + 1)[..i] == Repeat(FreeOne, i);
  }
}
