/** The single-producer single-consumer ring, one atomic load or store, or one word of a
    slot copy, at a time. */
module Spsc {
  import opened Basics
  import opened Bits

  const CAPACITY: nat := 16384
  const WORDS: nat := 16

  /** A packet snapshot of 128 bytes, as words. */
  type Item = m: seq<nat> | |m| == WORDS witness seq(WORDS, _ => 0)

  // ---- the program ------------------------------------------------------------------------

  /** Push between its steps: the head is loaded, the ring was found full, or so many words
      of the slot have been written. */
  datatype Producer = PIdle | PLoaded(m: Item, head: nat) | PFull | PCopying(m: Item, head: nat, done: nat)

  /** Pop between its steps: the tail is loaded, or the words read so far. */
  datatype Consumer = CIdle | CLoaded(tail: nat) | CCopying(tail: nat, got: seq<nat>)

  /** Shared memory. */
  datatype Ring = Ring(head: nat, tail: nat, dropped: nat, slots: seq<Item>)

  /** What the callers saw: items whose push returned true, items popped, pushes refused,
      pushes returned from. */
  datatype Log = Log(accepted: seq<Item>, popped: seq<Item>, refused: nat, attempts: nat)

  datatype State = State(ring: Ring, p: Producer, c: Consumer, log: Log)

  datatype Event =
    | LoadHead(m: Item)   // Push is called
    | CheckTail           // Push loads the tail and decides
    | CountDrop           // Push adds to the drop counter and returns false
    | WriteWord
    | StoreHead           // Push returns true
    | LoadTail            // Pop is called
    | CheckHead           // Pop loads the head and decides
    | ReadWord
    | StoreTail           // Pop returns the item

  predicate WellFormed(r: Ring) {
    |r.slots| == CAPACITY && r.head < MOD64 && r.tail < MOD64 && r.dropped < MOD64
  }

  function Sub64(a: nat, b: nat): nat {
    (a - b) % MOD64
  }

  function Inc64(a: nat): nat {
    (a + 1) % MOD64
  }

  function SetWord(r: Ring, slot: nat, i: nat, w: nat): Ring
    requires slot < |r.slots| && i < WORDS
  {
    r.(slots := r.slots[slot := r.slots[slot][i := w]])
  }

  /** One step of the producer; an event that is not its next step changes nothing. */
  function ProducerStep(s: State, e: Event): State
    requires WellFormed(s.ring)
  {
    match (s.p, e)
    case (PIdle, LoadHead(m)) => s.(p := PLoaded(m, s.ring.head))
    case (PLoaded(m, h), CheckTail) =>
      s.(p := if Sub64(h, s.ring.tail) >= CAPACITY then PFull else PCopying(m, h, 0))
    case (PFull, CountDrop) =>
      s.(p := PIdle, ring := s.ring.(dropped := Inc64(s.ring.dropped)),
         log := s.log.(refused := s.log.refused + 1, attempts := s.log.attempts + 1))
    case (PCopying(m, h, i), WriteWord) =>
      if i >= WORDS then s
      else s.(p := PCopying(m, h, i + 1), ring := SetWord(s.ring, h % CAPACITY, i, m[i]))
    case (PCopying(m, h, i), StoreHead) =>
      if i < WORDS then s
      else s.(p := PIdle, ring := s.ring.(head := Inc64(h)),
              log := s.log.(accepted := s.log.accepted + [m], attempts := s.log.attempts + 1))
    case _ => s
  }

  function ConsumerStep(s: State, e: Event): State
    requires WellFormed(s.ring)
  {
    match (s.c, e)
    case (CIdle, LoadTail) => s.(c := CLoaded(s.ring.tail))
    case (CLoaded(t), CheckHead) => s.(c := if s.ring.head == t then CIdle else CCopying(t, []))
    case (CCopying(t, got), ReadWord) =>
      if |got| >= WORDS then s
      else s.(c := CCopying(t, got + [s.ring.slots[t % CAPACITY][|got|]]))
    case (CCopying(t, got), StoreTail) =>
      if |got| != WORDS then s
      else s.(c := CIdle, ring := s.ring.(tail := Inc64(t)), log := s.log.(popped := s.log.popped + [got]))
    case _ => s
  }

  function Step(s: State, e: Event): (s': State)
    requires WellFormed(s.ring)
    ensures WellFormed(s'.ring)
  {
    if e.LoadTail? || e.CheckHead? || e.ReadWord? || e.StoreTail? then ConsumerStep(s, e)
    else ProducerStep(s, e)
  }

  /** A run: any interleaving of the two threads' steps. */
  function Run(s: State, es: seq<Event>): (s': State)
    requires WellFormed(s.ring)
    ensures WellFormed(s'.ring)
    decreases |es|
  {
    if |es| == 0 then s else Step(Run(s, es[..|es| - 1]), es[|es| - 1])
  }

  // ---- the invariant --------------------------------------------------------------------------

  /** Items accepted and not yet popped. */
  function Occupancy(l: Log): int {
    |l.accepted| - |l.popped|
  }

  ghost predicate Counters(r: Ring, l: Log) {
    && WellFormed(r) && 0 <= Occupancy(l) <= CAPACITY
    && r.head == |l.accepted| % MOD64 && r.tail == |l.popped| % MOD64
    && r.dropped == l.refused % MOD64
    && |l.accepted| + l.refused == l.attempts
  }

  ghost predicate Contents(r: Ring, l: Log) {
    && WellFormed(r) && 0 <= Occupancy(l)
    && l.popped == l.accepted[..|l.popped|]
    && forall k :: |l.popped| <= k < |l.accepted| ==> r.slots[k % CAPACITY] == l.accepted[k]
  }

  ghost predicate ProducerOk(s: State) {
    && WellFormed(s.ring)
    && match s.p
       case PIdle => true
       case PFull => true
       case PLoaded(_, h) => h == s.ring.head
       case PCopying(m, h, i) =>
         h == s.ring.head && i <= WORDS && Occupancy(s.log) < CAPACITY && s.ring.slots[h % CAPACITY][..i] == m[..i]
  }

  ghost predicate ConsumerOk(s: State) {
    match s.c
    case CIdle => true
    case CLoaded(t) => t == s.ring.tail
    case CCopying(t, got) =>
      t == s.ring.tail && Occupancy(s.log) > 0 && |got| <= WORDS && got == s.log.accepted[|s.log.popped|][..|got|]
  }

  ghost predicate Inv(s: State) {
    Counters(s.ring, s.log) && Contents(s.ring, s.log) && ProducerOk(s) && ConsumerOk(s)
  }

  predicate Initial(s: State) {
    && WellFormed(s.ring) && s.ring.head == s.ring.tail == s.ring.dropped == 0
    && s.p == PIdle && s.c == CIdle && s.log == Log([], [], 0, 0)
  }

  // ---- index arithmetic --------------------------------------------------------------------------

  lemma {:induction false} SlotOf(a: nat)
    ensures a % MOD64 % CAPACITY == a % CAPACITY
    ensures Inc64(a % MOD64) == (a + 1) % MOD64
  {
  }

  /** Wrapped indices at most a ring apart differ by their distance. */
  lemma {:induction false} WrappedDistance(a: nat, b: nat)
    requires b <= a <= b + CAPACITY
    ensures Sub64(a % MOD64, b % MOD64) == a - b
    ensures a % MOD64 == b % MOD64 <==> a == b
  {
  }

  // ---- every step keeps it ---------------------------------------------------------------------------

  lemma {:induction false} CheckTailKeeps(s: State)
    requires Inv(s)
    ensures Inv(Step(s, CheckTail))
    ensures s.p.PLoaded? ==> (Step(s, CheckTail).p == PFull <==> Occupancy(s.log) == CAPACITY)
  {
    WrappedDistance(|s.log.accepted|, |s.log.popped|);
  }

  lemma {:induction false} WriteWordKeeps(s: State)
    requires Inv(s)
    ensures Inv(Step(s, WriteWord))
  {
    hide Counters;
    if s.p.PCopying? && s.p.done < WORDS {
      var l, r, i := s.log, s.ring, s.p.done;
      var r' := Step(s, WriteWord).ring;
      assert WellFormed(r) && 0 <= Occupancy(l) && r.head == |l.accepted| % MOD64 by { CountersGive(s); }
      SlotOf(|l.accepted|);
      forall k | |l.popped| <= k < |l.accepted| ensures r'.slots[k % CAPACITY] == l.accepted[k] {
        SlotsDiffer(|l.accepted|, k, CAPACITY);
      }
      var old' := r.slots[r.head % CAPACITY];
      assert old'[i := s.p.m[i]][..i + 1] == old'[..i] + [s.p.m[i]];
      assert s.p.m[..i + 1] == s.p.m[..i] + [s.p.m[i]];
      assert Counters(r', l) by { CountersKept(r, r', l); }
    }
  }

  lemma CountersGive(s: State)
    requires Inv(s)
    ensures 0 <= Occupancy(s.log) <= CAPACITY
    ensures s.ring.head == |s.log.accepted| % MOD64 && s.ring.tail == |s.log.popped| % MOD64
  {
  }

  lemma CountersKept(r: Ring, r': Ring, l: Log)
    requires Counters(r, l) && |r'.slots| == CAPACITY && r' == r.(slots := r'.slots)
    ensures Counters(r', l)
  {
  }

  lemma {:induction false} StoreHeadKeeps(s: State)
    requires Inv(s)
    ensures Inv(Step(s, StoreHead))
  {
    if s.p.PCopying? && s.p.done >= WORDS {
      var l, r := s.log, s.ring;
      SlotOf(|l.accepted|);
      var m := s.p.m;
      assert r.slots[r.head % CAPACITY] == m by {
        assert r.slots[r.head % CAPACITY][..WORDS] == r.slots[r.head % CAPACITY] && m[..WORDS] == m;
      }
    }
  }

  lemma {:induction false} ReadWordKeeps(s: State)
    requires Inv(s)
    ensures Inv(Step(s, ReadWord))
  {
    if s.c.CCopying? && |s.c.got| < WORDS {
      var l, got := s.log, s.c.got;
      var k := |l.popped|;
      SlotOf(k);
      var m := l.accepted[k];
      assert s.ring.slots[k % CAPACITY] == m;
      assert m[..|got| + 1] == m[..|got|] + [m[|got|]];
    }
  }

  lemma {:induction false} StoreTailKeeps(s: State)
    requires Inv(s)
    ensures Inv(Step(s, StoreTail))
  {
    if s.c.CCopying? && |s.c.got| == WORDS {
      var l := s.log;
      var k := |l.popped|;
      SlotOf(k);
      assert l.accepted[k][..WORDS] == l.accepted[k];
      assert l.accepted[..k + 1] == l.accepted[..k] + [l.accepted[k]];
    }
  }

  lemma {:induction false} CheckHeadKeeps(s: State)
    requires Inv(s)
    ensures Inv(Step(s, CheckHead))
    ensures s.c.CLoaded? ==> (Step(s, CheckHead).c == CIdle <==> Occupancy(s.log) == 0)
  {
    WrappedDistance(|s.log.accepted|, |s.log.popped|);
  }

  lemma {:induction false} CountDropKeeps(s: State)
    requires Inv(s)
    ensures Inv(Step(s, CountDrop))
  {
    SlotOf(s.log.refused);
  }

  lemma {:induction false} StepKeeps(s: State, e: Event)
    requires Inv(s)
    ensures Inv(Step(s, e))
  {
    match e
    case LoadHead(_) =>
    case CheckTail => CheckTailKeeps(s);
    case CountDrop => CountDropKeeps(s);
    case WriteWord => WriteWordKeeps(s);
    case StoreHead => StoreHeadKeeps(s);
    case LoadTail =>
    case CheckHead => CheckHeadKeeps(s);
    case ReadWord => ReadWordKeeps(s);
    case StoreTail => StoreTailKeeps(s);
  }

  lemma {:induction false} RunKeeps(s: State, es: seq<Event>)
    requires Inv(s)
    ensures Inv(Run(s, es))
    decreases |es|
  {
    hide Step, Contents, ProducerOk, ConsumerOk;
    if |es| == 0 {
    } else {
      RunKeeps(s, es[..|es| - 1]);
      StepKeeps(Run(s, es[..|es| - 1]), es[|es| - 1]);
    }
  }

  // ---- what every interleaving guarantees ---------------------------------------------------------------

  /** The items in the ring's memory, from tail to head. */
  function Buffered(r: Ring): seq<Item>
    requires WellFormed(r)
  {
    seq(Sub64(r.head, r.tail), k requires 0 <= k => r.slots[(r.tail + k) % CAPACITY])
  }

  /** The producer is writing a slot that the consumer is reading. */
  predicate Collision(s: State) {
    s.p.PCopying? && s.c.CCopying? && s.p.head % CAPACITY == s.c.tail % CAPACITY
  }

  /** In every interleaving: what was popped, then what the ring holds, is what was
      accepted, in order; the two threads never share a slot; the ring never overfills;
      every completed push was accepted or counted as dropped. */
  lemma {:induction false} RingSafety(s: State, es: seq<Event>)
    requires Initial(s)
    ensures var s' := Run(s, es);
            && s'.log.popped + Buffered(s'.ring) == s'.log.accepted
            && |Buffered(s'.ring)| <= CAPACITY
            && !Collision(s')
            && |s'.log.accepted| + s'.log.refused == s'.log.attempts
            && s'.ring.dropped == s'.log.refused % MOD64
  {
    hide Run;
    RunKeeps(s, es);
    var s' := Run(s, es);
    var l, r := s'.log, s'.ring;
    WrappedDistance(|l.accepted|, |l.popped|);
    BufferedIs(s');
    assert l.popped + Buffered(r) == l.accepted;
    NoCollision(s');
  }

  lemma {:induction false} SlotAfterTail(t: nat, k: nat)
    ensures (t % MOD64 + k) % CAPACITY == (t + k) % CAPACITY
  {
  }

  lemma {:induction false} NoCollision(s: State)
    requires Inv(s)
    ensures !Collision(s)
  {
    var a, b := |s.log.accepted|, |s.log.popped|;
    SlotOf(a);
    SlotOf(b);
    if s.p.PCopying? && s.c.CCopying? { SlotsDiffer(a, b, CAPACITY); }
  }

  // ---- the calls without interference ---------------------------------------------------------------------

  /** The steps of a whole Push, and of a whole Pop. */
  function PushEvents(m: Item, ok: bool): seq<Event> {
    [LoadHead(m), CheckTail] + if ok then Repeat(WriteWord, WORDS) + [StoreHead] else [CountDrop]
  }

  function PopEvents(ok: bool): seq<Event> {
    [LoadTail, CheckHead] + if ok then Repeat(ReadWord, WORDS) + [StoreTail] else []
  }

  lemma {:induction false} RunAppend(s: State, es: seq<Event>, fs: seq<Event>)
    requires WellFormed(s.ring)
    ensures Run(s, es + fs) == Run(Run(s, es), fs)
    decreases |fs|
  {
    hide Step;
    if |fs| == 0 {
      assert es + fs == es;
    } else {
      var n := |fs| - 1;
      assert (es + fs)[..|es| + n] == es + fs[..n];
      RunAppend(s, es, fs[..n]);
    }
  }

  lemma {:induction false} RunTwo(s: State, e: Event, f: Event)
    requires WellFormed(s.ring)
    ensures Run(s, [e, f]) == Step(Step(s, e), f)
    ensures Run(s, [e]) == Step(s, e)
  {
    hide Step;
    assert [e, f][..1] == [e] && [e][..0] == [];
    assert Run(s, []) == s;
  }

  lemma {:induction false} WriteWords(s: State, n: nat)
    requires WellFormed(s.ring) && s.p.PCopying? && s.p.done == 0 && n <= WORDS
    ensures var slot := s.p.head % CAPACITY;
            Run(s, Repeat(WriteWord, n))
            == s.(p := s.p.(done := n),
                  ring := s.ring.(slots := s.ring.slots[slot := s.p.m[..n] + s.ring.slots[slot][n..]]))
    decreases n
  {
    var slot := s.p.head % CAPACITY;
    var before := s.ring.slots[slot];
    if n == 0 {
      assert s.p.m[..0] + before[0..] == before;
      assert s.ring.slots[slot := before] == s.ring.slots;
    } else {
      WriteWords(s, n - 1);
      assert Repeat(WriteWord, n)[..n - 1] == Repeat(WriteWord, n - 1);
      var half := s.p.m[..n - 1] + before[n - 1..];
      assert half[n - 1 := s.p.m[n - 1]] == s.p.m[..n] + before[n..];
    }
  }

  lemma {:induction false} ReadWords(s: State, n: nat)
    requires WellFormed(s.ring) && s.c.CCopying? && s.c.got == [] && n <= WORDS
    ensures Run(s, Repeat(ReadWord, n)) == s.(c := s.c.(got := s.ring.slots[s.c.tail % CAPACITY][..n]))
    decreases n
  {
    if n == 0 {
    } else {
      var m := s.ring.slots[s.c.tail % CAPACITY];
      ReadWords(s, n - 1);
      assert Repeat(ReadWord, n)[..n - 1] == Repeat(ReadWord, n - 1);
      assert m[..n] == m[..n - 1] + [m[n - 1]];
    }
  }

  /** A push that runs alone. */
  lemma {:induction false} PushAlone(s: State, m: Item)
    requires WellFormed(s.ring) && s.p == PIdle
    ensures var ok := Sub64(s.ring.head, s.ring.tail) < CAPACITY;
            Run(s, PushEvents(m, ok))
            == if ok then
                 s.(ring := s.ring.(head := Inc64(s.ring.head),
                                    slots := s.ring.slots[s.ring.head % CAPACITY := m]),
                    log := s.log.(accepted := s.log.accepted + [m], attempts := s.log.attempts + 1))
               else
                 s.(ring := s.ring.(dropped := Inc64(s.ring.dropped)),
                    log := s.log.(refused := s.log.refused + 1, attempts := s.log.attempts + 1))
  {
    hide Run;
    var ok := Sub64(s.ring.head, s.ring.tail) < CAPACITY;
    RunTwo(s, LoadHead(m), CheckTail);
    var t := Run(s, [LoadHead(m), CheckTail]);
    if ok {
      var writes := Repeat(WriteWord, WORDS);
      RunAppend(s, [LoadHead(m), CheckTail], writes + [StoreHead]);
      RunAppend(t, writes, [StoreHead]);
      WriteWords(t, WORDS);
      assert m[..WORDS] + s.ring.slots[s.ring.head % CAPACITY][WORDS..] == m;
      RunTwo(Run(t, writes), StoreHead, StoreHead);
    } else {
      RunAppend(s, [LoadHead(m), CheckTail], [CountDrop]);
      RunTwo(t, CountDrop, CountDrop);
    }
  }

  /** A pop that runs alone. */
  lemma {:induction false} PopAlone(s: State)
    requires WellFormed(s.ring) && s.c == CIdle
    ensures var ok := s.ring.head != s.ring.tail;
            Run(s, PopEvents(ok))
            == if ok then
                 s.(ring := s.ring.(tail := Inc64(s.ring.tail)),
                    log := s.log.(popped := s.log.popped + [s.ring.slots[s.ring.tail % CAPACITY]]))
               else s
  {
    hide Run;
    var ok := s.ring.head != s.ring.tail;
    RunTwo(s, LoadTail, CheckHead);
    var t := Run(s, [LoadTail, CheckHead]);
    if ok {
      var copy := Repeat(ReadWord, WORDS);
      RunAppend(s, [LoadTail, CheckHead], copy + [StoreTail]);
      RunAppend(t, copy, [StoreTail]);
      ReadWords(t, WORDS);
      var m := s.ring.slots[s.ring.tail % CAPACITY];
      assert m[..WORDS] == m;
      RunTwo(Run(t, copy), StoreTail, StoreTail);
    } else {
      assert [LoadTail, CheckHead] + [] == [LoadTail, CheckHead];
    }
  }

  class SPSCRing {
    var head: nat
    var tail: nat
    var dropped: nat
    var slots: array<Item>
    ghost var log: Log

    ghost function Shared(): Ring
      reads this, slots
    {
      Ring(head, tail, dropped, slots[..])
    }

    /** The ring between calls. */
    ghost function Between(): State
      reads this, slots
    {
      State(Shared(), PIdle, CIdle, log)
    }

    ghost predicate Valid()
      reads this, slots
    {
      Inv(Between())
    }

    /** NewSPSCRing. */
    constructor ()
      ensures Valid() && fresh(slots) && Initial(Between())
    {
      head, tail, dropped := 0, 0, 0;
      slots := new Item[CAPACITY](_ => seq(WORDS, _ => 0));
      log := Log([], [], 0, 0);
    }

    /** Push is accepted exactly when the ring is not full, and is one run of its steps. */
    method Push(m: Item) returns (ok: bool)
      requires Valid()
      modifies this, slots
      ensures Valid() && slots == old(slots)
      ensures Between() == Run(old(Between()), PushEvents(m, ok))
      ensures ok <==> old(|Buffered(Shared())|) < CAPACITY
      ensures Buffered(Shared()) == old(Buffered(Shared())) + if ok then [m] else []
    {
      ghost var s := Between();
      PushKeeps(s, m);
      hide Run, Inv;
      PushAlone(s, m);
      var h := head;
      if Sub64(h, tail) >= CAPACITY {
        dropped := Inc64(dropped);
        log := log.(refused := log.refused + 1, attempts := log.attempts + 1);
        return false;
      }
      slots[h % CAPACITY] := m;
      head := Inc64(h);
      log := log.(accepted := log.accepted + [m], attempts := log.attempts + 1);
      return true;
    }

    /** Pop takes the oldest item, or reports an empty ring. */
    method Pop() returns (m: Item, ok: bool)
      requires Valid()
      modifies this
      ensures Valid() && slots == old(slots)
      ensures Between() == Run(old(Between()), PopEvents(ok))
      ensures ok <==> old(Buffered(Shared())) != []
      ensures ok ==> old(Buffered(Shared())) == [m] + Buffered(Shared())
      ensures !ok ==> Buffered(Shared()) == old(Buffered(Shared()))
    {
      ghost var s := Between();
      PopKeeps(s);
      hide Run, Inv;
      PopAlone(s);
      var t := tail;
      if head == t { return seq(WORDS, _ => 0), false; }
      m := slots[t % CAPACITY];
      tail := Inc64(t);
      log := log.(popped := log.popped + [m]);
      return m, true;
    }
  }

  lemma {:induction false} BufferedIs(s: State)
    requires Inv(s)
    ensures |s.log.popped| <= |s.log.accepted| && Buffered(s.ring) == s.log.accepted[|s.log.popped|..]
  {
    var l, r := s.log, s.ring;
    WrappedDistance(|l.accepted|, |l.popped|);
    forall k | 0 <= k < |Buffered(r)| ensures Buffered(r)[k] == l.accepted[|l.popped| + k] {
      SlotAfterTail(|l.popped|, k);
    }
  }

  lemma {:induction false} PushKeeps(s: State, m: Item)
    requires Inv(s) && s.p == PIdle
    ensures var ok := Sub64(s.ring.head, s.ring.tail) < CAPACITY;
            var s' := Run(s, PushEvents(m, ok));
            Inv(s') && Buffered(s'.ring) == Buffered(s.ring) + if ok then [m] else []
    ensures |Buffered(s.ring)| == Sub64(s.ring.head, s.ring.tail)
  {
    var ok := Sub64(s.ring.head, s.ring.tail) < CAPACITY;
    RunKeeps(s, PushEvents(m, ok));
    hide Run, Buffered, Contents, ProducerOk, ConsumerOk;
    var s' := Run(s, PushEvents(m, ok));
    PushAlone(s, m);
    BufferedIs(s);
    BufferedIs(s');
    WrappedDistance(|s.log.accepted|, |s.log.popped|);
  }

  lemma {:induction false} PopKeeps(s: State)
    requires Inv(s) && s.c == CIdle
    ensures var ok := s.ring.head != s.ring.tail;
            var s' := Run(s, PopEvents(ok));
            && Inv(s')
            && ok == (Buffered(s.ring) != [])
            && Buffered(s.ring) == (if ok then [s.ring.slots[s.ring.tail % CAPACITY]] else []) + Buffered(s'.ring)
  {
    var ok := s.ring.head != s.ring.tail;
    RunKeeps(s, PopEvents(ok));
    var s' := Run(s, PopEvents(ok));
    PopAlone(s);
    BufferedIs(s);
    BufferedIs(s');
    var l := s.log;
    SlotOf(|l.popped|);
    WrappedDistance(|l.accepted|, |l.popped|);
    hide Run, Buffered, ProducerOk, ConsumerOk;
    if ok { assert l.accepted[|l.popped|..] == [l.accepted[|l.popped|]] + l.accepted[|l.popped| + 1..]; }
  }
}
