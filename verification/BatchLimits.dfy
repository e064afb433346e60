/** Which batches of blocklist decisions can leave the writer's counter wrong, and which can
    delete a ban that is live in the kernel: conditions on what the caller passes in. */
module BatchLimits {
  import opened Basics
  import opened HardenedWriter
  import Xdp

  // ---- which decisions are written ------------------------------------------------------

  /** The fingerprint on record for an address before decision i: that of the latest decision
      naming it, or the cache's. */
  function OnRecord(cache: map<Address, nat>, ds: seq<Decision>, i: nat, a: Address): Option<nat>
    requires i <= |ds|
    decreases i
  {
    if i == 0 then Lookup(cache, a)
    else if ds[i - 1].ip == a then Some(Fingerprint(ds[i - 1].entry))
    else OnRecord(cache, ds, i - 1, a)
  }

  /** Decision i is no duplicate of what is on record. */
  predicate WritesFrom(cache: map<Address, nat>, ds: seq<Decision>, i: nat)
    requires i < |ds|
  {
    OnRecord(cache, ds, i, ds[i].ip) != Some(Fingerprint(ds[i].entry))
  }

  /** The same by the batch alone. */
  predicate Writes(ds: seq<Decision>, i: nat)
    requires i < |ds|
  {
    WritesFrom(map[], ds, i)
  }

  /** As long as nothing has failed, the cache holds what is on record. */
  lemma {:induction false} CacheOnRecord(s: Store, ds: seq<Decision>, cs: seq<Moment>, i: nat, a: Address)
    requires i <= |ds| == |cs| && !Reach(s, ds[..i], cs[..i]).failed
    ensures Lookup(Reach(s, ds[..i], cs[..i]).s.cache, a) == OnRecord(s.cache, ds, i, a)
    decreases i
  {
    hide Fingerprint, Reach, LogOf;
    if i == 0 {
      ReachNone(s, ds, cs);
    } else {
      ReachNext(s, ds, cs, i - 1);
      CacheOnRecord(s, ds, cs, i - 1, a);
    }
  }

  lemma ReachNone(s: Store, ds: seq<Decision>, cs: seq<Moment>)
    requires |ds| == |cs|
    ensures Reach(s, ds[..0], cs[..0]) == Progress(s, [], false)
  {
  }

  lemma {:induction false} SkipsExactly(s: Store, ds: seq<Decision>, cs: seq<Moment>, i: nat)
    requires i < |ds| == |cs| && !Reach(s, ds[..i], cs[..i]).failed
    ensures Skips(Reach(s, ds[..i], cs[..i]).s, ds[i]) <==> !WritesFrom(s.cache, ds, i)
  {
    hide Fingerprint, Reach, OnRecord;
    CacheOnRecord(s, ds, cs, i, ds[i].ip);
  }

  /** One step of a batch that has not failed yet. */
  lemma {:induction false} BatchStep(s: Store, ds: seq<Decision>, cs: seq<Moment>, i: nat)
    requires i < |ds| == |cs| && !Reach(s, ds[..i], cs[..i]).failed
    ensures var q, p := Reach(s, ds[..i], cs[..i]), Reach(s, ds[..i + 1], cs[..i + 1]);
            if !WritesFrom(s.cache, ds, i) then p == q
            else if Fails(ds[i], cs[i]) then p == q.(failed := true)
            else p == Progress(Written(q.s, ds[i], cs[i]), q.log + [LogOf(q.s, ds[i], cs[i])], false)
  {
    hide Reach, WritesFrom, Written, LogOf, Skips;
    ReachNext(s, ds, cs, i);
    SkipsExactly(s, ds, cs, i);
  }

  /** Every decision before k that is written is one the map can take. */
  predicate Takes(cache: map<Address, nat>, ds: seq<Decision>, k: nat)
    requires k <= |ds|
  {
    forall j :: 0 <= j < k && WritesFrom(cache, ds, j) ==> ds[j].ip.V4?
  }

  /** A batch that fails does so at some decision, with the log it had before. */
  lemma {:induction false} FailsAt(s: Store, ds: seq<Decision>, cs: seq<Moment>, n: nat) returns (k: nat)
    requires n <= |ds| == |cs| && Reach(s, ds[..n], cs[..n]).failed
    ensures k < n && !Reach(s, ds[..k], cs[..k]).failed && WritesFrom(s.cache, ds, k) && Takes(s.cache, ds, k)
    ensures Reach(s, ds[..n], cs[..n]).log == Reach(s, ds[..k], cs[..k]).log
    decreases n
  {
    hide Reach, WritesFrom, Written, LogOf;
    if n == 0 {
      ReachNone(s, ds, cs);
    } else if Reach(s, ds[..n - 1], cs[..n - 1]).failed {
      k := FailsAt(s, ds, cs, n - 1);
      ReachNext(s, ds, cs, n - 1);
    } else {
      k := n - 1;
      BatchStep(s, ds, cs, k);
      AllTaken(s, ds, cs, k);
    }
  }

  lemma {:induction false} AllTaken(s: Store, ds: seq<Decision>, cs: seq<Moment>, k: nat)
    requires k <= |ds| == |cs| && !Reach(s, ds[..k], cs[..k]).failed
    ensures Takes(s.cache, ds, k)
    decreases k
  {
    hide Reach, WritesFrom, Written, LogOf;
    if k == 0 {
    } else {
      ReachNext(s, ds, cs, k - 1);
      AllTaken(s, ds, cs, k - 1);
      BatchStep(s, ds, cs, k - 1);
    }
  }

  /** With every write before k admitted, the batch gets to k. */
  lemma {:induction false} GetsTo(s: Store, ds: seq<Decision>, cs: seq<Moment>, k: nat)
    requires k <= |ds| == |cs| && Takes(s.cache, ds, k)
    requires forall i :: 0 <= i < k ==> cs[i].admitted
    ensures !Reach(s, ds[..k], cs[..k]).failed
    decreases k
  {
    hide Reach, WritesFrom, Written, LogOf;
    if k == 0 {
      ReachNone(s, ds, cs);
    } else {
      GetsTo(s, ds, cs, k - 1);
      BatchStep(s, ds, cs, k - 1);
    }
  }

  /** ... and fails there if that decision is written and refused. */
  lemma {:induction false} FailsThere(s: Store, ds: seq<Decision>, cs: seq<Moment>, k: nat)
    requires k < |ds| == |cs| && Takes(s.cache, ds, k) && WritesFrom(s.cache, ds, k)
    requires (forall i :: 0 <= i < k ==> cs[i].admitted) && !cs[k].admitted
    ensures Reach(s, ds, cs).failed && Reach(s, ds, cs).log == Reach(s, ds[..k], cs[..k]).log
  {
    hide WritesFrom, Written, LogOf, ApplyAll;
    GetsTo(s, ds, cs, k);
    BatchStep(s, ds, cs, k);
    FailedStays(Progress(s, [], false), ds, cs, k + 1);
  }

  // ---- the counter ------------------------------------------------------------------------

  /** The latest decision before i that writes an address, by the batch alone; -1 if none. */
  function LatestWrite(ds: seq<Decision>, i: nat, a: Address): (w: int)
    requires i <= |ds|
    ensures -1 <= w < i
    ensures w >= 0 ==> ds[w].ip == a && Writes(ds, w)
    decreases i
  {
    if i == 0 then -1
    else if ds[i - 1].ip == a && Writes(ds, i - 1) then i - 1
    else LatestWrite(ds, i - 1, a)
  }

  /** Decision n writes an address again after an entry that can expire. */
  predicate Rewrites(ds: seq<Decision>, n: nat)
    requires n < |ds|
  {
    && ds[n].ip.V4? && Writes(ds, n)
    && var m := LatestWrite(ds, n, ds[n].ip); m >= 0 && ds[m].entry.expireAt != 0
  }

  /** A decision that writes an address again after an entry that can expire, and behind it one
      that is written too and so can fail. */
  predicate Risky(ds: seq<Decision>) {
    exists k :: 0 <= k < |ds| && Writes(ds, k) && Takes(map[], ds, k) && exists n :: 0 <= n < k && Rewrites(ds, n)
  }

  /** Once the batch has named an address, what the cache held before no longer matters. */
  lemma {:induction false} RecordSettled(c: map<Address, nat>, ds: seq<Decision>, i: nat, a: Address)
    requires i <= |ds|
    ensures OnRecord(map[], ds, i, a).Some? ==> OnRecord(c, ds, i, a) == OnRecord(map[], ds, i, a)
    ensures LatestWrite(ds, i, a) >= 0 ==> OnRecord(map[], ds, i, a).Some?
    decreases i
  {
    hide Fingerprint, WritesFrom;
    if i == 0 {
    } else {
      RecordSettled(c, ds, i - 1, a);
    }
  }

  lemma {:induction false} WritesEitherWay(c: map<Address, nat>, ds: seq<Decision>, i: nat)
    requires i < |ds|
    ensures WritesFrom(c, ds, i) ==> Writes(ds, i)
    ensures LatestWrite(ds, i, ds[i].ip) >= 0 ==> (WritesFrom(c, ds, i) <==> Writes(ds, i))
  {
    hide Fingerprint, OnRecord, LatestWrite;
    RecordSettled(c, ds, i, ds[i].ip);
  }

  /** What a run of the batch from some store shows about its fresh addresses. */
  ghost predicate Traced(ds: seq<Decision>, cs: seq<Moment>, i: nat, q: Progress)
    requires i <= |ds| == |cs|
  {
    && (forall a :: a in Fresh(q.log) ==>
          && a.V4? && a.key in q.s.list && LatestWrite(ds, i, a) >= 0
          && var w := LatestWrite(ds, i, a); q.s.list[a.key] == Absolute(ds[w].entry, cs[w].write))
    && (FreshOnce(q.log) || exists n :: 0 <= n < i && Rewrites(ds, n))
  }

  lemma {:induction false} TraceSkip(c: map<Address, nat>, ds: seq<Decision>, cs: seq<Moment>, i: nat, q: Progress)
    requires i < |ds| == |cs| && Traced(ds, cs, i, q) && !WritesFrom(c, ds, i)
    ensures Traced(ds, cs, i + 1, q)
  {
    hide Fresh, FreshOnce, Absolute, WritesFrom;
    WritesEitherWay(c, ds, i);
    if !FreshOnce(q.log) {
      var n :| 0 <= n < i && Rewrites(ds, n);
      assert 0 <= n < i + 1 && Rewrites(ds, n);
    }
  }

  lemma {:induction false} TraceWrite(c: map<Address, nat>, ds: seq<Decision>, cs: seq<Moment>, i: nat, q: Progress)
    requires i < |ds| == |cs| && Traced(ds, cs, i, q) && WritesFrom(c, ds, i) && ds[i].ip.V4?
    ensures Traced(ds, cs, i + 1, Progress(Written(q.s, ds[i], cs[i]), q.log + [LogOf(q.s, ds[i], cs[i])], false))
  {
    hide Fresh, FreshOnce, WritesFrom, Fingerprint;
    var d, l := ds[i], LogOf(q.s, ds[i], cs[i]);
    var log := q.log + [l];
    WritesEitherWay(c, ds, i);
    LogIp(q.s, d, cs[i]);
    FreshStep(log);
    FreshOnceStep(log);
    assert log[..|q.log|] == q.log;
    if FreshOnce(q.log) {
      if !l.existed && d.ip in Fresh(q.log) {
        assert Rewrites(ds, i);
      }
    } else {
      var n :| 0 <= n < i && Rewrites(ds, n);
      assert 0 <= n < i + 1 && Rewrites(ds, n);
    }
  }

  lemma {:induction false} TraceAll(s: Store, ds: seq<Decision>, cs: seq<Moment>, i: nat)
    requires i <= |ds| == |cs| && !Reach(s, ds[..i], cs[..i]).failed
    ensures Traced(ds, cs, i, Reach(s, ds[..i], cs[..i]))
    decreases i
  {
    hide Reach, Traced, WritesFrom, Written, LogOf;
    if i == 0 {
      ReachNone(s, ds, cs);
      TraceNone(s, ds, cs);
    } else {
      ReachNext(s, ds, cs, i - 1);
      TraceAll(s, ds, cs, i - 1);
      BatchStep(s, ds, cs, i - 1);
      var q := Reach(s, ds[..i - 1], cs[..i - 1]);
      if WritesFrom(s.cache, ds, i - 1) {
        TraceWrite(s.cache, ds, cs, i - 1, q);
      } else {
        TraceSkip(s.cache, ds, cs, i - 1, q);
      }
    }
  }

  lemma TraceNone(s: Store, ds: seq<Decision>, cs: seq<Moment>)
    requires |ds| == |cs|
    ensures Traced(ds, cs, 0, Progress(s, [], false))
  {
  }

  ghost predicate OnlyV4(cache: map<Address, nat>) {
    forall a :: a in cache ==> a.V4?
  }

  lemma {:induction false} TakesEitherWay(c: map<Address, nat>, ds: seq<Decision>, k: nat)
    requires k <= |ds| && OnlyV4(c) && Takes(c, ds, k)
    ensures Takes(map[], ds, k)
  {
    forall j | 0 <= j < k && Writes(ds, j) ensures ds[j].ip.V4? { FirstNaming(c, ds, k, j); }
  }

  /** If all that is written is IPv4, nothing else is even named. */
  lemma {:induction false} FirstNaming(c: map<Address, nat>, ds: seq<Decision>, k: nat, j: nat)
    requires j < k <= |ds| && OnlyV4(c) && Takes(c, ds, k)
    ensures ds[j].ip.V4?
    decreases j
  {
    hide Fingerprint;
    if !ds[j].ip.V4? {
      forall i | 0 <= i < j ensures ds[i].ip.V4? { FirstNaming(c, ds, k, i); }
      NeverNamed(c, ds, j, ds[j].ip);
    }
  }

  lemma {:induction false} NeverNamed(c: map<Address, nat>, ds: seq<Decision>, i: nat, a: Address)
    requires i <= |ds| && a !in c && forall j :: 0 <= j < i ==> ds[j].ip != a
    ensures OnRecord(c, ds, i, a) == None
    decreases i
  {
    if i == 0 {
    } else {
      NeverNamed(c, ds, i - 1, a);
    }
  }

  /** A batch that is not risky keeps the counter, from every store and however it goes. */
  lemma {:induction false} SafeKeepsCount(s: Store, ds: seq<Decision>, cs: seq<Moment>, us: seq<nat>)
    requires |ds| == |cs| == |us| && s.count == |s.cache| && OnlyV4(s.cache) && !Risky(ds)
    ensures var s' := Batch(s, ds, cs, us); s'.count == |s'.cache|
  {
    hide Reach, Batch, FreshOnce, Fresh, WritesFrom, Rewrites, Takes;
    CountExactly(s, ds, cs, us);
    assert ds[..|ds|] == ds && cs[..|cs|] == cs;
    if Reach(s, ds, cs).failed {
      var k := FailsAt(s, ds, cs, |ds|);
      TraceAll(s, ds, cs, k);
      WritesEitherWay(s.cache, ds, k);
      TakesEitherWay(s.cache, ds, k);
    }
  }

  // ---- the counter goes wrong ----------------------------------------------------------------

  const EMPTY := Store(map[], map[], 0)

  /** Clock readings that let decision m's entry expire before the next decision, and a refusal
      at decision k. */
  function Mishap(ds: seq<Decision>, m: nat, k: nat): (cs: seq<Moment>)
    requires m < |ds|
    ensures |cs| == |ds|
  {
    var late := RELATIVE_TTL + ds[m].entry.expireAt;
    seq(|ds|, i => if i <= m then Moment(RELATIVE_TTL, RELATIVE_TTL, i != k) else Moment(late, late, i != k))
  }

  /** From the empty store, every address named is fresh and nothing else is in the map. */
  lemma {:induction false} AllFresh(ds: seq<Decision>, cs: seq<Moment>, i: nat, a: Address)
    requires i <= |ds| == |cs| && !Reach(EMPTY, ds[..i], cs[..i]).failed && a.V4?
    ensures var q := Reach(EMPTY, ds[..i], cs[..i]);
            && (OnRecord(map[], ds, i, a).Some? ==> a in Fresh(q.log))
            && (OnRecord(map[], ds, i, a).None? ==> a.key !in q.s.list)
    decreases i
  {
    hide Reach, Fresh, Fingerprint;
    if i == 0 {
      ReachNone(EMPTY, ds, cs);
    } else {
      ReachNext(EMPTY, ds, cs, i - 1);
      AllFresh(ds, cs, i - 1, a);
      BatchStep(EMPTY, ds, cs, i - 1);
      var q, p := Reach(EMPTY, ds[..i - 1], cs[..i - 1]), Reach(EMPTY, ds[..i], cs[..i]);
      if p.log != q.log {
        LogIp(q.s, ds[i - 1], cs[i - 1]);
        FreshStep(p.log);
        assert p.log[..|q.log|] == q.log;
      }
    }
  }

  lemma {:induction false} FreshTwiceStays(s: Store, ds: seq<Decision>, cs: seq<Moment>, i: nat, k: nat)
    requires i <= k <= |ds| == |cs| && !Reach(s, ds[..k], cs[..k]).failed
    requires !FreshOnce(Reach(s, ds[..i], cs[..i]).log)
    ensures !FreshOnce(Reach(s, ds[..k], cs[..k]).log)
    decreases k
  {
    hide Reach, FreshOnce, WritesFrom, Written, LogOf;
    if i == k {
    } else {
      ReachNext(s, ds, cs, k - 1);
      FreshTwiceStays(s, ds, cs, i, k - 1);
      BatchStep(s, ds, cs, k - 1);
      var q, p := Reach(s, ds[..k - 1], cs[..k - 1]), Reach(s, ds[..k], cs[..k]);
      if p.log != q.log {
        FreshOnceStep(p.log);
        assert p.log[..|q.log|] == q.log;
      }
    }
  }

  lemma {:induction false} MishapRewrites(ds: seq<Decision>, n: nat, k: nat)
    requires n < k < |ds| && Rewrites(ds, n) && Takes(map[], ds, k)
    ensures var cs := Mishap(ds, LatestWrite(ds, n, ds[n].ip), k);
            !Reach(EMPTY, ds[..n + 1], cs[..n + 1]).failed && !FreshOnce(Reach(EMPTY, ds[..n + 1], cs[..n + 1]).log)
  {
    hide Reach, Fresh, FreshOnce, Fingerprint, OnRecord, LatestWrite;
    var a := ds[n].ip;
    var m := LatestWrite(ds, n, a);
    var cs := Mishap(ds, m, k);
    GetsTo(EMPTY, ds, cs, n);
    BatchStep(EMPTY, ds, cs, n);
    TraceAll(EMPTY, ds, cs, n);
    RecordSettled(map[], ds, n, a);
    AllFresh(ds, cs, n, a);
    var q, p := Reach(EMPTY, ds[..n], cs[..n]), Reach(EMPTY, ds[..n + 1], cs[..n + 1]);
    assert a in Fresh(q.log);
    assert q.s.list[a.key] == Absolute(ds[m].entry, RELATIVE_TTL);
    FreshOnceStep(p.log);
    assert p.log[..|q.log|] == q.log;
  }

  /** A risky batch can leave the counter wrong, on clocks that run forward. */
  lemma {:induction false} RiskyDrifts(ds: seq<Decision>) returns (cs: seq<Moment>)
    requires Risky(ds)
    ensures |cs| == |ds|
    ensures forall i :: 0 <= i < |cs| ==> RELATIVE_TTL <= cs[i].check == cs[i].write
    ensures forall i, j :: 0 <= i < j < |cs| ==> cs[i].write <= cs[j].check
    ensures forall us :: |us| == |ds| ==> var s' := Batch(EMPTY, ds, cs, us); s'.count != |s'.cache|
  {
    hide Reach, Batch, FreshOnce, WritesFrom, Rewrites, Takes;
    var k :| 0 <= k < |ds| && Writes(ds, k) && Takes(map[], ds, k) && exists n :: 0 <= n < k && Rewrites(ds, n);
    var n :| 0 <= n < k && Rewrites(ds, n);
    assert LatestWrite(ds, n, ds[n].ip) >= 0 by { RewritesAfter(ds, n); }
    cs := Mishap(ds, LatestWrite(ds, n, ds[n].ip), k);
    MishapRewrites(ds, n, k);
    GetsTo(EMPTY, ds, cs, k);
    FreshTwiceStays(EMPTY, ds, cs, n + 1, k);
    FailsThere(EMPTY, ds, cs, k);
    forall us | |us| == |ds| ensures Batch(EMPTY, ds, cs, us).count != |Batch(EMPTY, ds, cs, us).cache| {
      CountExactly(EMPTY, ds, cs, us);
    }
  }

  lemma RewritesAfter(ds: seq<Decision>, n: nat)
    requires n < |ds| && Rewrites(ds, n)
    ensures LatestWrite(ds, n, ds[n].ip) >= 0
  {
  }

  /** The counter equals the cache size after a batch, from every consistent store and however
      the batch goes, if and only if the batch is not risky. */
  lemma {:induction false} CountExactlyByBatch(ds: seq<Decision>)
    ensures (forall s: Store, cs, us ::
               |cs| == |us| == |ds| && s.count == |s.cache| && OnlyV4(s.cache) ==>
               Batch(s, ds, cs, us).count == |Batch(s, ds, cs, us).cache|)
       <==> !Risky(ds)
  {
    hide Batch, Risky, OnlyV4;
    if Risky(ds) {
      var cs := RiskyDrifts(ds);
      var us := seq(|ds|, _ => 0);
      assert OnlyV4(EMPTY.cache) by { EmptyOnlyV4(); }
      assert Batch(EMPTY, ds, cs, us).count != |Batch(EMPTY, ds, cs, us).cache|;
    } else {
      forall s: Store, cs, us | |cs| == |us| == |ds| && s.count == |s.cache| && OnlyV4(s.cache)
        ensures Batch(s, ds, cs, us).count == |Batch(s, ds, cs, us).cache|
      {
        SafeKeepsCount(s, ds, cs, us);
      }
    }
  }

  lemma EmptyOnlyV4()
    ensures OnlyV4(EMPTY.cache)
  {
  }

  // ---- the kernel's view ------------------------------------------------------------------------

  /** An entry that the wall clock takes for expired and the kernel's uptime clock does not. */
  predicate Stale(list: Blocklist, key: nat, now: nat, up: nat) {
    View(list, key, now).None? && View(list, key, up).Some?
  }

  /** The batch writes an address with such an entry, and behind it a decision that can fail. */
  predicate Overrides(s: Store, ds: seq<Decision>, now: nat, up: nat) {
    exists k :: 0 <= k < |ds| && WritesFrom(s.cache, ds, k) && Takes(s.cache, ds, k) &&
      exists n :: 0 <= n < k && WritesFrom(s.cache, ds, n) && ds[n].ip.V4? && Stale(s.list, ds[n].ip.key, now, up)
  }

  ghost predicate WritesKey(cache: map<Address, nat>, ds: seq<Decision>, i: nat, key: nat)
    requires i <= |ds|
  {
    exists j :: 0 <= j < i && WritesFrom(cache, ds, j) && ds[j].ip == V4(key)
  }

  lemma {:induction false} SeenIfWritten(s: Store, ds: seq<Decision>, cs: seq<Moment>, i: nat, key: nat)
    requires i <= |ds| == |cs| && !Reach(s, ds[..i], cs[..i]).failed
    ensures FirstSeen(Reach(s, ds[..i], cs[..i]).log, key).Some? <==> WritesKey(s.cache, ds, i, key)
    decreases i
  {
    hide Reach, WritesFrom, Written, LogOf;
    if i == 0 {
      ReachNone(s, ds, cs);
    } else {
      var n := i - 1;
      ReachNext(s, ds, cs, n);
      SeenIfWritten(s, ds, cs, n, key);
      BatchStep(s, ds, cs, n);
      WritesKeyStep(s.cache, ds, n, key);
      var q, p := Reach(s, ds[..n], cs[..n]), Reach(s, ds[..i], cs[..i]);
      if p.log != q.log {
        assert p.log[..|q.log|] == q.log;
        LogIp(q.s, ds[n], cs[n]);
      }
    }
  }

  lemma {:induction false} WritesKeyStep(c: map<Address, nat>, ds: seq<Decision>, i: nat, key: nat)
    requires i < |ds|
    ensures WritesKey(c, ds, i + 1, key)
       <==> WritesKey(c, ds, i, key) || (WritesFrom(c, ds, i) && ds[i].ip == V4(key))
  {
    hide WritesFrom;
    if WritesKey(c, ds, i, key) {
      var j :| 0 <= j < i && WritesFrom(c, ds, j) && ds[j].ip == V4(key);
      assert 0 <= j < i + 1 && WritesFrom(c, ds, j) && ds[j].ip == V4(key);
    }
  }

  /** At a wall clock past the range of relative expiries, a failed batch leaves at each key it
      wrote what the wall clock saw there, and every other key alone. */
  lemma {:induction false} LeftInMap(
      s: Store, ds: seq<Decision>, cs: seq<Moment>, us: seq<nat>, now: nat, k: nat, key: nat)
    requires |ds| == |cs| == |us| && AllAt(cs, us, now) && now >= RELATIVE_TTL - 1
    requires k < |ds| && !Reach(s, ds[..k], cs[..k]).failed
    requires Reach(s, ds, cs).failed && Reach(s, ds, cs).log == Reach(s, ds[..k], cs[..k]).log
    ensures Lookup(Batch(s, ds, cs, us).list, key)
         == if WritesKey(s.cache, ds, k, key) then View(s.list, key, now) else Lookup(s.list, key)
  {
    hide Reach, Batch, FirstSeen, WritesKey, View;
    RolledBackKey(s, ds, cs, us, key);
    SeenIfWritten(s, ds, cs, k, key);
  }

  /** A failed batch keeps what the kernel drops at uptime up, however it fails, if and only if
      it does not override a stale entry. */
  lemma {:induction false} KernelViewExactly(s: Store, ds: seq<Decision>, now: nat, up: nat)
    requires now >= RELATIVE_TTL - 1
    ensures (forall cs, us, key: nat ::
               |cs| == |us| == |ds| && AllAt(cs, us, now) && Reach(s, ds, cs).failed ==>
               View(Batch(s, ds, cs, us).list, key, up) == View(s.list, key, up))
       <==> !Overrides(s, ds, now, up)
  {
    hide Reach, Batch, WritesFrom, Takes, AllAt;
    if Overrides(s, ds, now, up) {
      var cs, us, key := KernelLoses(s, ds, now, up);
      assert View(Batch(s, ds, cs, us).list, key, up) != View(s.list, key, up);
    } else {
      forall cs, us, key: nat | |cs| == |us| == |ds| && AllAt(cs, us, now) && Reach(s, ds, cs).failed
        ensures View(Batch(s, ds, cs, us).list, key, up) == View(s.list, key, up)
      {
        KernelKeeps(s, ds, cs, us, now, up, key);
      }
    }
  }

  lemma {:induction false} KernelKeeps(
      s: Store, ds: seq<Decision>, cs: seq<Moment>, us: seq<nat>, now: nat, up: nat, key: nat)
    requires |ds| == |cs| == |us| && AllAt(cs, us, now) && now >= RELATIVE_TTL - 1
    requires Reach(s, ds, cs).failed && !Overrides(s, ds, now, up)
    ensures View(Batch(s, ds, cs, us).list, key, up) == View(s.list, key, up)
  {
    hide Reach, Batch, WritesFrom, Takes, AllAt;
    assert ds[..|ds|] == ds && cs[..|cs|] == cs;
    var k := FailsAt(s, ds, cs, |ds|);
    LeftInMap(s, ds, cs, us, now, k, key);
    if WritesKey(s.cache, ds, k, key) {
      var n :| 0 <= n < k && WritesFrom(s.cache, ds, n) && ds[n].ip == V4(key);
      assert !Stale(s.list, ds[n].ip.key, now, up);
    }
  }

  /** A live kernel ban deleted by a rollback. */
  lemma {:induction false} KernelLoses(s: Store, ds: seq<Decision>, now: nat, up: nat)
      returns (cs: seq<Moment>, us: seq<nat>, key: nat)
    requires now >= RELATIVE_TTL - 1 && Overrides(s, ds, now, up)
    ensures |cs| == |us| == |ds| && AllAt(cs, us, now) && Reach(s, ds, cs).failed
    ensures View(s.list, key, up).Some? && View(Batch(s, ds, cs, us).list, key, up) == None
  {
    hide Reach, Batch, WritesFrom, Takes;
    var k :| 0 <= k < |ds| && WritesFrom(s.cache, ds, k) && Takes(s.cache, ds, k) &&
      exists n :: 0 <= n < k && WritesFrom(s.cache, ds, n) && ds[n].ip.V4? && Stale(s.list, ds[n].ip.key, now, up);
    var n :| 0 <= n < k && WritesFrom(s.cache, ds, n) && ds[n].ip.V4? && Stale(s.list, ds[n].ip.key, now, up);
    key := ds[n].ip.key;
    cs, us := seq(|ds|, i => Moment(now, now, i != k)), seq(|ds|, _ => now);
    GetsTo(s, ds, cs, k);
    FailsThere(s, ds, cs, k);
    LeftInMap(s, ds, cs, us, now, k, key);
  }

  /** A blocklist entry of the kernel's, as the control plane reads it: rule 255, score the repeat count. */
  function AsEntry(b: Xdp.Block, r: nat, reason: nat): BlockEntry {
    BlockEntry(b.expireAt, b.action, 0xFF, r, reason)
  }

  /** Such entries exist: a cooling ban that is still running, on any machine whose uptime is behind
      the wall clock's relative range, is overridden by a batch that names its source and then fails. */
  lemma {:induction false} CoolingBanOverridden(st: Xdp.State, src: nat, at: nat, minR: nat, reason: nat,
                                                e': BlockEntry, up: nat, now: nat)
    requires var b := Xdp.Banned(st, src, at, minR).block4[src];
             at / Xdp.SECOND <= up < b.expireAt < RELATIVE_TTL <= now
    ensures var ban := Xdp.Banned(st, src, at, minR);
            var e := AsEntry(ban.block4[src], ban.cooling[src], reason);
            var s := Store(map[src := e], map[], 0);
            Overrides(s, [Decision(V4(src), e'), Decision(NotV4("::1"), e')], now, up)
  {
    hide Fingerprint, Xdp.NextRepeat, Xdp.ExpireAt;
    var ban := Xdp.Banned(st, src, at, minR);
    var e := AsEntry(ban.block4[src], ban.cooling[src], reason);
    var s, ds := Store(map[src := e], map[], 0), [Decision(V4(src), e'), Decision(NotV4("::1"), e')];
    NeverNamed(s.cache, ds, 0, ds[0].ip);
    NeverNamed(s.cache, ds, 1, ds[1].ip);
    assert WritesFrom(s.cache, ds, 0) && WritesFrom(s.cache, ds, 1);
    assert Stale(s.list, ds[0].ip.key, now, up);
  }
}
