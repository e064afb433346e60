/** A descriptor ring shared with the kernel: a power-of-two array and two free-running
    32-bit indices, as a bounded queue. */
module XdpRing {
  import opened Bits

  const MOD32: nat := 0x1_0000_0000

  /** The sizes a ring may have: powers of two that a 32-bit size can hold. */
  ghost predicate RingSize(size: nat) {
    exists k: nat :: k < 32 && size == Pow2(k)
  }

  function Sub32(a: nat, b: nat): (r: nat)
    ensures r < MOD32
  {
    (a - b) % MOD32
  }

  function Add32(a: nat, b: nat): (r: nat)
    ensures r < MOD32
  {
    (a + b) % MOD32
  }

  // ---- index arithmetic -----------------------------------------------------------------

  lemma {:induction false} SizeDivides(size: nat) returns (q: nat)
    requires RingSize(size)
    ensures size > 0 && q > 1 && MOD32 == size * q
  {
    var k: nat :| k < 32 && size == Pow2(k);
    q := Pow2(32 - k);
    Pow2Split(k, 32 - k);
    Pow2Of32();
    assert Pow2(32 - k) == 2 * Pow2(31 - k);
  }

  /** Reducing an index to 32 bits does not move its slot. */
  lemma {:induction false} SlotOfWrapped(a: nat, size: nat)
    requires RingSize(size)
    ensures size > 0 && a % MOD32 % size == a % size
  {
    var q := SizeDivides(size);
    var w := a % MOD32;
    var d := a / MOD32;
    assert a == size * q * d + w && w == size * (w / size) + w % size;
    assert size * q * d + size * (w / size) == size * (q * d + w / size) by { Distribute(size, q * d, w / size); }
    DivUnique(a, size, q * d + w / size, w % size);
  }

  // ---- the ring --------------------------------------------------------------------------

  class Ring<T(0)> {
    var producer: nat
    var consumer: nat
    const desc: array<T>

    ghost predicate Valid()
      reads this
    {
      && RingSize(desc.Length) && producer < MOD32 && consumer < MOD32
      && Sub32(producer, consumer) <= desc.Length
    }

    /** The queue: what has been produced and not yet consumed, oldest first. */
    ghost function Contents(): seq<T>
      requires Valid()
      reads this, desc
    {
      var d, c := desc, consumer;
      seq(Sub32(producer, consumer), k requires 0 <= k reads d => d[Slot(c, k, d.Length)])
    }

    constructor (size: nat)
      requires RingSize(size)
      ensures Valid() && fresh(desc) && desc.Length == size && Contents() == []
    {
      producer, consumer := 0, 0;
      desc := new T[size];
    }

    /** fillFreeSlots and txFreeSlots. */
    method FreeSlots() returns (free: nat)
      requires Valid()
      ensures free == desc.Length - |Contents()|
    {
      hide RingSize;
      free := Sub32(desc.Length, Sub32(producer, consumer));
      SizeBound(desc.Length);
    }

    /** FillProduce and TxProduce: as many items as fit, appended in order. */
    method Produce(items: seq<T>) returns (n: nat)
      requires Valid()
      modifies this, desc
      ensures Valid()
      ensures n == Min(|items| % MOD32, desc.Length - old(|Contents()|))
      ensures Contents() == old(Contents()) + items[..n]
    {
      hide RingSize, Slot, Add32, Sub32;
      var free := FreeSlots();
      n := |items| % MOD32;
      if n > free { n := free; }
      if n == 0 {
        assert items[..n] == [];
        return;
      }
      ghost var all := Contents() + items[..n];
      var prod := producer;
      SizeBound(desc.Length);
      WriteDescs(items, n, all);
      producer := Add32(prod, n);
      NewDistance(prod, consumer, n);
      assert Contents() == all;
    }

    /** Its loop over the descriptors. */
    method WriteDescs(items: seq<T>, n: nat, ghost all: seq<T>)
      requires Valid() && n <= |items| && |Contents()| + n <= desc.Length && all == Contents() + items[..n]
      modifies desc
      ensures forall k :: 0 <= k < |all| ==> desc[Slot(consumer, k, desc.Length)] == all[k]
    {
      hide RingSize, Slot, Add32, Sub32;
      ghost var used, size := Sub32(producer, consumer), desc.Length;
      for i := 0 to n
        invariant forall k :: 0 <= k < used + i ==> desc[Slot(consumer, k, size)] == all[k]
      {
        var idx := Add32(producer, i) % desc.Length;
        ProducerSlot(producer, consumer, i, size);
        forall k | 0 <= k < used + i ensures Slot(consumer, k, size) != idx {
          SlotsApart(consumer, k, used + i, size);
        }
        desc[idx] := items[i];
      }
    }

    /** CompletionConsume and RxConsume: as many items as there are and as out can hold,
        taken from the front. */
    method Consume(out: array<T>) returns (n: nat)
      requires Valid() && out != desc
      modifies this`consumer, out
      ensures Valid()
      ensures n == Min(out.Length % MOD32, old(|Contents()|))
      ensures out[..n] == old(Contents())[..n] && out[n..] == old(out[n..])
      ensures Contents() == old(Contents())[n..]
    {
      hide RingSize, Slot;
      n := out.Length % MOD32;
      var avail := Sub32(producer, consumer);
      if n > avail { n := avail; }
      if n == 0 { return; }
      ghost var before := Contents();
      var cons := consumer;
      SizeBound(desc.Length);
      for i := 0 to n
        invariant consumer == cons
        invariant forall k :: 0 <= k < i ==> out[k] == before[k]
        invariant forall k :: n <= k < out.Length ==> out[k] == old(out[k])
      {
        ConsumerSlot(cons, i, desc.Length);
        out[i] := desc[Add32(cons, i) % desc.Length];
      }
      consumer := Add32(cons, n);
      OldDistance(producer, cons, n);
      forall k | 0 <= k < avail - n ensures Slot(consumer, k, desc.Length) == Slot(cons, n + k, desc.Length) {
        LaterSlot(cons, n, k, desc.Length);
      }
      assert Contents() == before[n..];
      assert out[n..] == old(out[n..]);
    }
  }

  /** Consume into a batch buffer of the caller's own. */
  method TakeBatch<T(0)>(ring: Ring<T>, batch: nat) returns (items: seq<T>)
    requires ring.Valid() && batch < MOD32
    modifies ring`consumer
    ensures ring.Valid()
    ensures items == old(ring.Contents())[..Min(batch, old(|ring.Contents()|))]
    ensures ring.Contents() == old(ring.Contents())[|items|..]
  {
    hide Ring.Contents, Ring.Valid;
    var buffer := new T[batch];
    var n := ring.Consume(buffer);
    items := buffer[..n];
  }

  /** The slot of the k-th item after the consumer index. */
  ghost function Slot(consumer: nat, k: nat, size: nat): (i: nat)
    ensures size > 0 ==> i < size
  {
    if size == 0 then 0 else (consumer + k) % size
  }

  lemma {:induction false} SizeBound(size: nat)
    requires RingSize(size)
    ensures 0 < size <= MOD32 / 2
  {
    var q := SizeDivides(size);
    MulMono(size, 2, q);
  }

  lemma {:induction false} ConsumerSlot(cons: nat, i: nat, size: nat)
    requires RingSize(size)
    ensures size > 0 && Add32(cons, i) % size == Slot(cons, i, size)
  {
    SlotOfWrapped(cons + i, size);
  }

  lemma {:induction false} ProducerSlot(prod: nat, cons: nat, i: nat, size: nat)
    requires RingSize(size) && prod < MOD32 && cons < MOD32
    ensures size > 0 && Add32(prod, i) % size == Slot(cons, Sub32(prod, cons) + i, size)
  {
    var a := cons + Sub32(prod, cons) + i;
    assert a % MOD32 == (prod + i) % MOD32;
    SlotOfWrapped(a, size);
  }

  lemma {:induction false} SlotsApart(cons: nat, k: nat, j: nat, size: nat)
    requires k < j < k + size
    ensures Slot(cons, k, size) != Slot(cons, j, size)
  {
    SlotsDiffer(cons + j, cons + k, size);
  }

  lemma {:induction false} LaterSlot(cons: nat, n: nat, k: nat, size: nat)
    requires RingSize(size)
    ensures Slot(Add32(cons, n), k, size) == Slot(cons, n + k, size)
  {
    SlotOfWrapped(Add32(cons, n) + k, size);
    SlotOfWrapped(cons + n + k, size);
    AddWrapped(cons, n, k);
  }

  lemma {:induction false} AddWrapped(a: nat, b: nat, c: nat)
    ensures (Add32(a, b) + c) % MOD32 == (a + b + c) % MOD32
  {
  }

  lemma {:induction false} NewDistance(prod: nat, cons: nat, n: nat)
    requires prod < MOD32 && cons < MOD32 && Sub32(prod, cons) + n < MOD32
    ensures Sub32(Add32(prod, n), cons) == Sub32(prod, cons) + n
  {
  }

  lemma {:induction false} OldDistance(prod: nat, cons: nat, n: nat)
    requires prod < MOD32 && cons < MOD32 && n <= Sub32(prod, cons)
    ensures Sub32(prod, Add32(cons, n)) == Sub32(prod, cons) - n
  {
  }
}
