/** The hardened blocklist writer: deduplicated writes, and batches that are undone from
    a log when a write fails. */
module HardenedWriter {
  import opened Basics
  import opened Bits
  import opened WriteWindow

  const RELATIVE_TTL: nat := 1_000_000_000

  /** An address as callers pass it; only IPv4 addresses have a map key. */
  datatype Address = V4(key: nat) | NotV4(text: string)

  datatype BlockEntry = BlockEntry(expireAt: nat, action: nat, ruleId: nat, threatScore: nat, reason: nat)

  datatype Decision = Decision(ip: Address, entry: BlockEntry)

  /** What the environment contributes to one write: the clock when the previous entry is
      looked up, the clock when the entry is written, and whether the write is admitted. */
  datatype Moment = Moment(check: nat, write: nat, admitted: bool)

  type Blocklist = map<nat, BlockEntry>

  /** Map contents, dedup cache by address, and the entry counter. */
  datatype Store = Store(list: Blocklist, cache: map<Address, nat>, count: int)

  datatype LogEntry = LogEntry(ip: Address, existed: bool, entry: BlockEntry)

  // ---- the blocklist --------------------------------------------------------------------

  /** Small expiry values are seconds from now. */
  function Absolute(e: BlockEntry, now: nat): BlockEntry {
    if 0 < e.expireAt < RELATIVE_TTL then e.(expireAt := now + e.expireAt) else e
  }

  predicate Live(e: BlockEntry, t: nat) {
    e.expireAt == 0 || t < e.expireAt
  }

  /** IsBlockedIPv4: the entry of a key that has not expired. */
  function View(list: Blocklist, key: nat, t: nat): Option<BlockEntry> {
    if key in list && Live(list[key], t) then Some(list[key]) else None
  }

  const FNV_OFFSET: nat := 14695981039346656037
  const FNV_PRIME: nat := 1099511628211

  function Mix(h: nat, v: nat): nat {
    Xor(h, v) * FNV_PRIME % MOD64
  }

  function Fingerprint(e: BlockEntry): nat {
    Mix(Mix(Mix(Mix(FNV_OFFSET, e.action), e.ruleId), e.threatScore), e.reason)
  }

  // ---- what a fingerprint tells apart ------------------------------------------------------

  /** The fields fit 64-bit words. */
  predicate Fits64(e: BlockEntry) {
    e.action < MOD64 && e.ruleId < MOD64 && e.threatScore < MOD64 && e.reason < MOD64
  }

  /** Multiplication by the prime can be undone modulo 2^64. */
  lemma {:induction false} PrimeInvertible(a: nat, b: nat)
    requires a < MOD64 && b < MOD64 && a * FNV_PRIME % MOD64 == b * FNV_PRIME % MOD64
    ensures a == b
  {
    var inverse, k := 14886173955864302971, 887285111055;
    assert FNV_PRIME * inverse == 1 + MOD64 * k;
    Undone(a, a * FNV_PRIME, FNV_PRIME, inverse, k);
    Undone(b, b * FNV_PRIME, FNV_PRIME, inverse, k);
  }

  lemma {:induction false} Undone(a: nat, m: nat, p: nat, q: nat, k: nat)
    requires a < MOD64 && m == a * p && p * q == 1 + MOD64 * k
    ensures m % MOD64 * q % MOD64 == a
  {
    var t := m / MOD64;
    Times(a, m, p, q, k, t);
    var n := a * k - t * q;
    DivUnique(m % MOD64 * q, MOD64, n, a);
  }

  lemma {:induction false} Times(a: nat, m: nat, p: nat, q: nat, k: nat, t: nat)
    requires a < MOD64 && m == a * p && p * q == 1 + MOD64 * k && t == m / MOD64
    ensures m % MOD64 * q == MOD64 * (a * k - t * q) + a && a * k - t * q >= 0
  {
    var r := m % MOD64;
    assert m * q == a * (p * q) == a + MOD64 * (a * k) by { Regroup(a, p, q, MOD64 * k); Regroup(a, MOD64, k, 0); }
    assert m == MOD64 * t + r;
    assert m * q == MOD64 * (t * q) + r * q;
    assert MOD64 * (a * k - t * q) == MOD64 * (a * k) - MOD64 * (t * q);
    assert r * q >= 0;
  }

  lemma {:induction false} Regroup(a: nat, p: nat, q: nat, b: nat)
    ensures a * p * q == a * (p * q) && a * (1 + b) == a + a * b && a * (p * q) == p * (a * q)
  {
  }

  lemma {:induction false} MixInjective(h: nat, h': nat, v: nat, v': nat)
    requires h < MOD64 && h' < MOD64 && v < MOD64 && v' < MOD64 && Mix(h, v) == Mix(h', v')
    ensures Xor(h, v) == Xor(h', v') && (h == h' <==> v == v')
  {
    Pow2Of64();
    XorBound(h, v, 64);
    XorBound(h', v', 64);
    PrimeInvertible(Xor(h, v), Xor(h', v'));
    if v == v' { XorInjective(h, h', v); }
    if h == h' {
      XorComm(h, v);
      XorComm(h, v');
      XorInjective(v, v', h);
    }
  }

  /** The hash before the last field. */
  function Hash3(e: BlockEntry): (h: nat)
    ensures h < MOD64
  {
    Mix(Mix(Mix(FNV_OFFSET, e.action), e.ruleId), e.threatScore)
  }

  /** Entries that differ in the reason alone have different fingerprints. */
  lemma {:induction false} ReasonMatters(e: BlockEntry, e': BlockEntry)
    requires e.reason < MOD64 && e'.reason < MOD64 && e.reason != e'.reason && e' == e.(reason := e'.reason)
    ensures Fingerprint(e) != Fingerprint(e')
  {
    hide Mix;
    if Fingerprint(e) == Fingerprint(e') { MixInjective(Hash3(e), Hash3(e'), e.reason, e'.reason); }
  }

  // ---- one write ------------------------------------------------------------------------

  predicate Skips(s: Store, d: Decision) {
    d.ip in s.cache && s.cache[d.ip] == Fingerprint(d.entry)
  }

  predicate Fails(d: Decision, c: Moment) {
    !c.admitted || !d.ip.V4?
  }

  function Written(s: Store, d: Decision, c: Moment): Store
    requires d.ip.V4?
  {
    Store(s.list[d.ip.key := Absolute(d.entry, c.write)],
          s.cache[d.ip := Fingerprint(d.entry)],
          if d.ip in s.cache then s.count else s.count + 1)
  }

  const NO_ENTRY := BlockEntry(0, 0, 0, 0, 0)

  function LogOf(s: Store, d: Decision, c: Moment): LogEntry
    requires d.ip.V4?
  {
    match View(s.list, d.ip.key, c.check)
    case Some(e) => LogEntry(d.ip, true, e)
    case None => LogEntry(d.ip, false, NO_ENTRY)
  }

  // ---- a batch --------------------------------------------------------------------------

  datatype Progress = Progress(s: Store, log: seq<LogEntry>, failed: bool)

  function Apply(p: Progress, d: Decision, c: Moment): Progress {
    if p.failed || Skips(p.s, d) then p
    else if Fails(d, c) then p.(failed := true)
    else Progress(Written(p.s, d, c), p.log + [LogOf(p.s, d, c)], false)
  }

  function ApplyAll(p: Progress, ds: seq<Decision>, cs: seq<Moment>): Progress
    requires |ds| == |cs|
    decreases |ds|
  {
    if |ds| == 0 then p
    else Apply(ApplyAll(p, ds[..|ds| - 1], cs[..|ds| - 1]), ds[|ds| - 1], cs[|ds| - 1])
  }

  /** Undo writes are admitted, and happen at clock reading now. */
  function Undo(s: Store, l: LogEntry, now: nat): Store {
    if !l.ip.V4? then s
    else if l.existed then s.(list := s.list[l.ip.key := Absolute(l.entry, now)])
    else Store(s.list - {l.ip.key}, s.cache - {l.ip}, s.count - 1)
  }

  /** The log undone from its last entry to its first. */
  function UndoAll(s: Store, log: seq<LogEntry>, us: seq<nat>): Store
    requires |log| <= |us|
    decreases |log|
  {
    if |log| == 0 then s
    else UndoAll(Undo(s, log[|log| - 1], us[|log| - 1]), log[..|log| - 1], us)
  }

  lemma {:induction false} LogLength(p: Progress, ds: seq<Decision>, cs: seq<Moment>)
    requires |ds| == |cs|
    ensures |ApplyAll(p, ds, cs).log| <= |p.log| + |ds|
    decreases |ds|
  {
    if |ds| == 0 {
    } else {
      LogLength(p, ds[..|ds| - 1], cs[..|ds| - 1]);
    }
  }

  /** How far a batch gets, from an empty log. */
  function Reach(s: Store, ds: seq<Decision>, cs: seq<Moment>): (p: Progress)
    requires |ds| == |cs|
    ensures |p.log| <= |ds|
  {
    LogLength(Progress(s, [], false), ds, cs);
    ApplyAll(Progress(s, [], false), ds, cs)
  }

  /** The store after a batch. */
  function Batch(s: Store, ds: seq<Decision>, cs: seq<Moment>, us: seq<nat>): Store
    requires |ds| == |cs| == |us|
  {
    var p := Reach(s, ds, cs);
    if p.failed then UndoAll(p.s, p.log, us) else p.s
  }

  lemma {:induction false} ReachNext(s: Store, ds: seq<Decision>, cs: seq<Moment>, i: nat)
    requires i < |ds| == |cs|
    ensures Reach(s, ds[..i + 1], cs[..i + 1]) == Apply(Reach(s, ds[..i], cs[..i]), ds[i], cs[i])
  {
    hide Apply;
    ApplyNext(Progress(s, [], false), ds, cs, i);
  }

  // ---- a failed batch leaves no trace ------------------------------------------------------

  ghost predicate AllV4(log: seq<LogEntry>) {
    forall i :: 0 <= i < |log| ==> log[i].ip.V4?
  }

  /** What the log says about the first write to a key: nothing, or what was blocked then. */
  function FirstSeen(log: seq<LogEntry>, key: nat): Option<Option<BlockEntry>> {
    if |log| == 0 then None
    else
      var first, last := FirstSeen(log[..|log| - 1], key), log[|log| - 1];
      if first.Some? then first
      else if last.ip == V4(key) then Some(if last.existed then Some(last.entry) else None)
      else None
  }

  /** Undo writes put entries back as they were. */
  ghost predicate Restorable(log: seq<LogEntry>, us: seq<nat>)
    requires |log| <= |us|
  {
    forall i :: 0 <= i < |log| && log[i].existed ==> Absolute(log[i].entry, us[i]) == log[i].entry
  }

  /** Undoing a log leaves at each key what the log saw there first. */
  lemma {:induction false} UndoneKey(x: Store, log: seq<LogEntry>, us: seq<nat>, key: nat)
    requires |log| <= |us| && AllV4(log) && Restorable(log, us)
    ensures Lookup(UndoAll(x, log, us).list, key)
         == match FirstSeen(log, key) case Some(v) => v case None => Lookup(x.list, key)
    decreases |log|
  {
    hide Absolute;
    if |log| == 0 {
    } else {
      var n := |log| - 1;
      UndoneKey(Undo(x, log[n], us[n]), log[..n], us, key);
    }
  }

  /** Clock readings at which undo writes cannot be taken for relative expiries. */
  ghost predicate ClockSafe(cs: seq<Moment>, us: seq<nat>) {
    || (forall i :: 0 <= i < |cs| ==> cs[i].check >= RELATIVE_TTL - 1)
    || (forall j :: 0 <= j < |us| ==> us[j] == 0)
  }

  ghost predicate NotAfter(cs: seq<Moment>, t: nat) {
    forall i :: 0 <= i < |cs| ==> cs[i].check <= t
  }

  /** The first write to a key logs what was blocked there before the batch. */
  ghost predicate FromStore(s: Store, ds: seq<Decision>, cs: seq<Moment>, key: nat, seen: Option<BlockEntry>)
    requires |ds| == |cs|
  {
    exists i :: 0 <= i < |ds| && ds[i].ip == V4(key) && seen == View(s.list, key, cs[i].check)
  }

  lemma {:induction false} ReachRestorable(s: Store, ds: seq<Decision>, cs: seq<Moment>, us: seq<nat>)
    requires |ds| == |cs| <= |us| && ClockSafe(cs, us)
    ensures var log := Reach(s, ds, cs).log; AllV4(log) && Restorable(log, us)
    decreases |ds|
  {
    hide Skips, Written;
    if |ds| == 0 {
    } else {
      var n := |ds| - 1;
      ReachRestorable(s, ds[..n], cs[..n], us);
      assert Reach(s, ds, cs) == Apply(Reach(s, ds[..n], cs[..n]), ds[n], cs[n]);
    }
  }

  lemma {:induction false} ReachFirstSeen(s: Store, ds: seq<Decision>, cs: seq<Moment>, key: nat)
    requires |ds| == |cs|
    ensures var p := Reach(s, ds, cs);
            match FirstSeen(p.log, key)
            case None => Lookup(p.s.list, key) == Lookup(s.list, key)
            case Some(v) => FromStore(s, ds, cs, key, v)
    decreases |ds|
  {
    hide Skips, Fingerprint, FromStore;
    if |ds| == 0 {
    } else {
      var n := |ds| - 1;
      var d, c := ds[n], cs[n];
      var q, p := Reach(s, ds[..n], cs[..n]), Reach(s, ds, cs);
      ReachFirstSeen(s, ds[..n], cs[..n], key);
      assert p == Apply(q, d, c);
      var first := FirstSeen(q.log, key);
      if first.Some? { FromStoreMore(s, ds, cs, n, key, first.value); }
      if p.log != q.log {
        assert p.log[..|q.log|] == q.log && p.log[|q.log|] == LogOf(q.s, d, c);
        if d.ip == V4(key) { FromStoreAt(s, ds, cs, n, key); }
      }
    }
  }

  lemma FromStoreAt(s: Store, ds: seq<Decision>, cs: seq<Moment>, i: nat, key: nat)
    requires i < |ds| == |cs| && ds[i].ip == V4(key)
    ensures FromStore(s, ds, cs, key, View(s.list, key, cs[i].check))
  {
  }

  lemma {:induction false} FromStoreMore(
      s: Store, ds: seq<Decision>, cs: seq<Moment>, n: nat, key: nat, seen: Option<BlockEntry>)
    requires n <= |ds| == |cs| && FromStore(s, ds[..n], cs[..n], key, seen)
    ensures FromStore(s, ds, cs, key, seen)
  {
    hide View;
    var i :| 0 <= i < n && ds[..n][i].ip == V4(key) && seen == View(s.list, key, cs[..n][i].check);
    assert ds[i].ip == V4(key) && seen == View(s.list, key, cs[i].check);
  }

  /** What a failed batch leaves in the map, key by key. */
  lemma {:induction false} RolledBackKey(s: Store, ds: seq<Decision>, cs: seq<Moment>, us: seq<nat>, key: nat)
    requires |ds| == |cs| == |us| && ClockSafe(cs, us) && Reach(s, ds, cs).failed
    ensures Lookup(Batch(s, ds, cs, us).list, key)
         == match FirstSeen(Reach(s, ds, cs).log, key) case Some(v) => v case None => Lookup(s.list, key)
    ensures FirstSeen(Reach(s, ds, cs).log, key).Some? ==>
              FromStore(s, ds, cs, key, FirstSeen(Reach(s, ds, cs).log, key).value)
  {
    hide Reach, UndoAll, FirstSeen, ClockSafe, FromStore, Restorable;
    ReachRestorable(s, ds, cs, us);
    ReachFirstSeen(s, ds, cs, key);
    var p := Reach(s, ds, cs);
    UndoneKey(p.s, p.log, us, key);
  }

  /** A batch that fails leaves every address as blocked, or not, as it was before: now
      and at any later time, whatever addresses repeat and whatever entries had expired. */
  lemma {:induction false} FailedBatchInvisible(
      s: Store, ds: seq<Decision>, cs: seq<Moment>, us: seq<nat>, t: nat, key: nat)
    requires |ds| == |cs| == |us| && ClockSafe(cs, us) && NotAfter(cs, t)
    requires Reach(s, ds, cs).failed
    ensures View(Batch(s, ds, cs, us).list, key, t) == View(s.list, key, t)
  {
    hide Reach, Batch, FirstSeen, ClockSafe;
    RolledBackKey(s, ds, cs, us, key);
  }

  // ---- at which clock readings that holds --------------------------------------------------

  /** Every reading of a batch and its rollback is now. */
  ghost predicate AllAt(cs: seq<Moment>, us: seq<nat>, now: nat) {
    && (forall i :: 0 <= i < |cs| ==> cs[i].check == cs[i].write == now)
    && forall j :: 0 <= j < |us| ==> us[j] == now
  }

  /** Where they differ: an undo write restarts the entry's time to live, and the entry is still
      seen when it should have expired. */
  lemma {:induction false} EarlyClockShows(key: nat, e: BlockEntry, e': BlockEntry, now: nat)
    requires 0 < now < e.expireAt < RELATIVE_TTL
    ensures var s := Store(map[key := e], map[], 0);
            var ds := [Decision(V4(key), e'), Decision(NotV4("::1"), e')];
            var c := Moment(now, now, true);
            var s' := Batch(s, ds, [c, c], [now, now]);
            Reach(s, ds, [c, c]).failed && View(s'.list, key, e.expireAt) != View(s.list, key, e.expireAt) == None
  {
    hide Fingerprint, Reach, UndoAll;
    var c, a := Moment(now, now, true), V4(key);
    var d0, d1 := Decision(a, e'), Decision(NotV4("::1"), e');
    var s := Store(map[key := e], map[], 0);
    ReachTwo(s, d0, d1, c);
    var p := Reach(s, [d0, d1], [c, c]);
    var l := LogEntry(a, true, e);
    assert p.log == [l] && p.failed;
    UndoOne(p.s, l, now);
  }

  lemma {:induction false} UndoOne(s: Store, l: LogEntry, now: nat)
    ensures UndoAll(s, [l], [now, now]) == Undo(s, l, now)
  {
    hide Undo;
    assert [l][..0] == [];
    assert UndoAll(s, [l], [now, now]) == UndoAll(Undo(s, l, now), [], [now, now]);
  }

  lemma {:induction false} ReachTwo(s: Store, d0: Decision, d1: Decision, c: Moment)
    ensures Reach(s, [d0, d1], [c, c]) == Apply(Apply(Progress(s, [], false), d0, c), d1, c)
  {
    hide Apply;
    var p := Progress(s, [], false);
    assert [d0, d1][..1] == [d0] && [d0][..0] == [] && [c, c][..1] == [c] && [c][..0] == [];
    assert ApplyAll(p, [d0], [c]) == Apply(ApplyAll(p, [], []), d0, c);
  }

  /** All failed batches are invisible at a clock reading exactly when it is zero or at least
      one second short of the range of absolute expiries. */
  lemma {:induction false} ClockExactly(now: nat)
    ensures (forall s, ds, cs, us, t: nat, key: nat ::
               |ds| == |cs| == |us| && AllAt(cs, us, now) && now <= t && Reach(s, ds, cs).failed ==>
               View(Batch(s, ds, cs, us).list, key, t) == View(s.list, key, t))
       <==> now == 0 || now >= RELATIVE_TTL - 1
  {
    hide Reach, Batch, View;
    if now == 0 || now >= RELATIVE_TTL - 1 {
      forall s, ds, cs, us, t: nat, key: nat |
        |ds| == |cs| == |us| && AllAt(cs, us, now) && now <= t && Reach(s, ds, cs).failed
        ensures View(Batch(s, ds, cs, us).list, key, t) == View(s.list, key, t)
      {
        FailedBatchInvisible(s, ds, cs, us, t, key);
      }
    } else {
      var e := NO_ENTRY.(expireAt := now + 1);
      var s, c := Store(map[0 := e], map[], 0), Moment(now, now, true);
      var ds := [Decision(V4(0), e), Decision(NotV4("::1"), e)];
      EarlyClockShows(0, e, e, now);
      assert AllAt([c, c], [now, now], now);
      assert View(Batch(s, ds, [c, c], [now, now]).list, 0, now + 1) != View(s.list, 0, now + 1);
    }
  }

  // ---- the counter -----------------------------------------------------------------------------

  /** Counter minus cache size. */
  function Gap(s: Store): int {
    s.count - |s.cache|
  }

  lemma {:induction false} GrowMap(m: map<Address, nat>, k: Address, v: nat)
    ensures |m[k := v]| == if k in m then |m| else |m| + 1
  {
    assert m[k := v].Keys == m.Keys + {k};
    assert |m[k := v]| == |m[k := v].Keys| && |m| == |m.Keys|;
  }

  lemma {:induction false} ShrinkMap(m: map<Address, nat>, k: Address)
    ensures |m - {k}| == if k in m then |m| - 1 else |m|
    ensures (m - {k}).Keys == m.Keys - {k}
  {
    assert |m - {k}| == |(m - {k}).Keys| && |m| == |m.Keys|;
    if k in m { assert m.Keys == (m.Keys - {k}) + {k}; }
  }

  lemma {:induction false} WrittenKeepsGap(s: Store, d: Decision, c: Moment)
    requires d.ip.V4?
    ensures Gap(Written(s, d, c)) == Gap(s)
  {
    hide Fingerprint;
    GrowMap(s.cache, d.ip, Fingerprint(d.entry));
  }

  /** Addresses that the log says were not blocked before they were written. */
  function Fresh(log: seq<LogEntry>): set<Address> {
    set i | 0 <= i < |log| && !log[i].existed :: log[i].ip
  }

  function FreshCount(log: seq<LogEntry>): nat {
    if |log| == 0 then 0
    else FreshCount(log[..|log| - 1]) + if log[|log| - 1].existed then 0 else 1
  }

  lemma {:induction false} FreshStep(log: seq<LogEntry>)
    requires |log| > 0
    ensures var l := log[|log| - 1];
            Fresh(log) == Fresh(log[..|log| - 1]) + if l.existed then {} else {l.ip}
  {
    var n := |log| - 1;
    var l := log[n];
    var f := Fresh(log[..n]);
    forall a ensures a in Fresh(log) <==> a in f || (!l.existed && a == l.ip) {
      if a in Fresh(log) {
        var i :| 0 <= i < |log| && !log[i].existed && log[i].ip == a;
        if i < n { assert log[..n][i] == log[i]; }
      }
      if a in f {
        var i :| 0 <= i < n && !log[..n][i].existed && log[..n][i].ip == a;
        assert log[i].ip == a && !log[i].existed;
      }
      if !l.existed && a == l.ip { assert !log[n].existed && log[n].ip == a; }
    }
  }

  /** Undoing a log moves the counter once per fresh entry, the cache once per fresh address
      that it still holds. */
  lemma {:induction false} UndoGap(s: Store, log: seq<LogEntry>, us: seq<nat>)
    requires |log| <= |us| && AllV4(log)
    ensures Gap(UndoAll(s, log, us)) == Gap(s) - FreshCount(log) + |Fresh(log) * s.cache.Keys|
    decreases |log|
  {
    hide Fresh;
    if |log| == 0 {
      assert Fresh(log) == {} by { FreshEmpty(log); }
      assert Fresh(log) * s.cache.Keys == {};
    } else {
      var n := |log| - 1;
      var l := log[n];
      var s', f := Undo(s, l, us[n]), Fresh(log[..n]);
      UndoGap(s', log[..n], us);
      FreshStep(log);
      if l.existed {
        assert f + {} == f;
      } else {
        ShrinkMap(s.cache, l.ip);
        Overlap(f, s.cache.Keys, l.ip);
      }
    }
  }

  lemma FreshEmpty(log: seq<LogEntry>)
    requires |log| == 0
    ensures Fresh(log) == {}
  {
  }

  lemma {:induction false} Overlap(f: set<Address>, keys: set<Address>, a: Address)
    ensures |(f + {a}) * keys| == |f * (keys - {a})| + if a in keys then 1 else 0
  {
    if a in keys {
      assert (f + {a}) * keys == f * (keys - {a}) + {a};
    } else {
      assert (f + {a}) * keys == f * (keys - {a});
    }
  }

  lemma {:induction false} ReachGap(s: Store, ds: seq<Decision>, cs: seq<Moment>)
    requires |ds| == |cs|
    ensures var p := Reach(s, ds, cs);
            Gap(p.s) == Gap(s) && AllV4(p.log) && Fresh(p.log) <= p.s.cache.Keys
    decreases |ds|
  {
    hide LogOf, Fresh, Gap;
    if |ds| == 0 {
      FreshEmpty([]);
    } else {
      var n := |ds| - 1;
      var d, c := ds[n], cs[n];
      var q, p := Reach(s, ds[..n], cs[..n]), Reach(s, ds, cs);
      assert p == Apply(q, d, c);
      ReachGap(s, ds[..n], cs[..n]);
      if p.log != q.log {
        WrittenKeepsGap(q.s, d, c);
        LogIp(q.s, d, c);
        FreshStep(p.log);
        assert p.log[..|q.log|] == q.log;
      }
    }
  }

  lemma LogIp(s: Store, d: Decision, c: Moment)
    requires d.ip.V4?
    ensures LogOf(s, d, c).ip == d.ip
  {
  }

  /** The counter follows the cache through a batch, except that a failed batch lowers it by
      one for each fresh log entry whose address the log holds already. */
  lemma {:induction false} BatchGap(s: Store, ds: seq<Decision>, cs: seq<Moment>, us: seq<nat>)
    requires |ds| == |cs| == |us|
    ensures var p := Reach(s, ds, cs);
            Gap(Batch(s, ds, cs, us)) == Gap(s) - if p.failed then FreshCount(p.log) - |Fresh(p.log)| else 0
  {
    hide Reach, UndoAll, Fresh, FreshCount;
    var p := Reach(s, ds, cs);
    ReachGap(s, ds, cs);
    if p.failed {
      UndoGap(p.s, p.log, us);
      assert Fresh(p.log) * p.s.cache.Keys == Fresh(p.log);
    }
  }

  ghost predicate FreshOnce(log: seq<LogEntry>) {
    forall i, j :: 0 <= i < j < |log| && !log[i].existed && !log[j].existed ==> log[i].ip != log[j].ip
  }

  lemma {:induction false} FreshCounting(log: seq<LogEntry>)
    ensures |Fresh(log)| <= FreshCount(log)
    ensures |Fresh(log)| == FreshCount(log) <==> FreshOnce(log)
    decreases |log|
  {
    if |log| == 0 {
      FreshEmpty(log);
    } else {
      var n := |log| - 1;
      var l, m := log[n], log[..n];
      FreshStep(log);
      FreshCounting(m);
      FreshOnceStep(log);
      assert l.existed ==> Fresh(m) + {} == Fresh(m);
      assert l.ip in Fresh(m) ==> Fresh(m) + {l.ip} == Fresh(m);
    }
  }

  lemma {:induction false} FreshOnceStep(log: seq<LogEntry>)
    requires |log| > 0
    ensures var l, m := log[|log| - 1], log[..|log| - 1];
            FreshOnce(log) <==> FreshOnce(m) && (l.existed || l.ip !in Fresh(m))
  {
    var n := |log| - 1;
    var l, m := log[n], log[..n];
    assert forall i :: 0 <= i < n ==> m[i] == log[i];
    if FreshOnce(m) && (l.existed || l.ip !in Fresh(m)) {
      forall i, j | 0 <= i < j < |log| && !log[i].existed && !log[j].existed ensures log[i].ip != log[j].ip {
        if j == n { assert m[i].ip in Fresh(m); } else { assert m[i].ip != m[j].ip; }
      }
    }
  }

  /** The counter stays equal to the cache size exactly when the batch succeeds or logs no
      address as fresh twice. */
  lemma {:induction false} CountExactly(s: Store, ds: seq<Decision>, cs: seq<Moment>, us: seq<nat>)
    requires |ds| == |cs| == |us| && s.count == |s.cache|
    ensures var p := Reach(s, ds, cs);
            var s' := Batch(s, ds, cs, us);
            s'.count == |s'.cache| <==> !p.failed || FreshOnce(p.log)
  {
    hide Reach, Batch, Fresh, FreshCount, FreshOnce;
    BatchGap(s, ds, cs, us);
    FreshCounting(Reach(s, ds, cs).log);
  }

  /** Nothing the batch writes expires before a later decision on the same address. */
  ghost predicate NoLapse(ds: seq<Decision>, cs: seq<Moment>)
    requires |ds| == |cs|
  {
    forall m, n :: 0 <= m < n < |ds| && ds[m].ip == ds[n].ip ==>
      Live(Absolute(ds[m].entry, cs[m].write), cs[n].check)
  }

  /** The blocklist holds, for every fresh address, what some decision wrote. */
  ghost predicate FreshWritten(p: Progress, ds: seq<Decision>, cs: seq<Moment>)
    requires |ds| == |cs|
  {
    forall a :: a in Fresh(p.log) ==>
      && a.V4? && a.key in p.s.list
      && exists m :: 0 <= m < |ds| && ds[m].ip == a && p.s.list[a.key] == Absolute(ds[m].entry, cs[m].write)
  }

  lemma {:induction false} FreshWrittenStep(q: Progress, ds: seq<Decision>, cs: seq<Moment>)
    requires |ds| == |cs| > 0 && FreshWritten(q, ds[..|ds| - 1], cs[..|ds| - 1])
    ensures FreshWritten(Apply(q, ds[|ds| - 1], cs[|ds| - 1]), ds, cs)
  {
    hide Fresh, Absolute, Skips, Fingerprint;
    var n := |ds| - 1;
    var d, c := ds[n], cs[n];
    var p := Apply(q, d, c);
    if p.log != q.log {
      LogIp(q.s, d, c);
      FreshStep(p.log);
      assert p.log[..|q.log|] == q.log;
    }
    forall a | a in Fresh(p.log)
      ensures a.V4? && a.key in p.s.list
      ensures exists m :: 0 <= m < |ds| && ds[m].ip == a && p.s.list[a.key] == Absolute(ds[m].entry, cs[m].write)
    {
      if p.log != q.log && a == d.ip {
        assert ds[n].ip == a;
      } else {
        var m :| 0 <= m < n && ds[..n][m].ip == a && q.s.list[a.key] == Absolute(ds[..n][m].entry, cs[..n][m].write);
        assert ds[m].ip == a && p.s.list[a.key] == Absolute(ds[m].entry, cs[m].write);
      }
    }
  }

  lemma {:induction false} NoLapseFreshOnce(s: Store, ds: seq<Decision>, cs: seq<Moment>)
    requires |ds| == |cs| && NoLapse(ds, cs)
    ensures FreshOnce(Reach(s, ds, cs).log) && FreshWritten(Reach(s, ds, cs), ds, cs)
    decreases |ds|
  {
    hide Fresh, Absolute, Skips, Fingerprint, Live, FreshOnce;
    if |ds| == 0 {
      FreshEmpty([]);
      assert FreshOnce([]) by { FreshOnceEmpty(); }
    } else {
      var n := |ds| - 1;
      var d, c := ds[n], cs[n];
      var q, p := Reach(s, ds[..n], cs[..n]), Reach(s, ds, cs);
      assert p == Apply(q, d, c);
      assert NoLapse(ds[..n], cs[..n]);
      NoLapseFreshOnce(s, ds[..n], cs[..n]);
      FreshWrittenStep(q, ds, cs);
      if p.log != q.log {
        FreshOnceStep(p.log);
        assert p.log[..|q.log|] == q.log;
        if d.ip in Fresh(q.log) {
          var m :| 0 <= m < n && ds[..n][m].ip == d.ip
                   && q.s.list[d.ip.key] == Absolute(ds[..n][m].entry, cs[..n][m].write);
          assert ds[m].ip == ds[n].ip;
        }
        LogIp(q.s, d, c);
      }
    }
  }

  lemma FreshOnceEmpty()
    ensures FreshOnce([])
  {
  }

  /** So the counter is right after any batch whose own writes outlive it, in particular
      after any batch that names no address twice. */
  lemma {:induction false} CountKept(s: Store, ds: seq<Decision>, cs: seq<Moment>, us: seq<nat>)
    requires |ds| == |cs| == |us| && s.count == |s.cache| && NoLapse(ds, cs)
    ensures var s' := Batch(s, ds, cs, us); s'.count == |s'.cache|
  {
    hide Reach, Batch, FreshOnce, NoLapse, FreshWritten;
    NoLapseFreshOnce(s, ds, cs);
    CountExactly(s, ds, cs, us);
  }

  /** An address written twice with entries that have expired already and differ in the reason,
      on a batch that then fails: the counter ends one below the cache size. */
  lemma {:induction false} CountDrifts(key: nat, e: BlockEntry, now: nat)
    requires RELATIVE_TTL <= e.expireAt <= now && e.reason == 0
    ensures var ds := [Decision(V4(key), e), Decision(V4(key), e.(reason := 1)), Decision(NotV4("::1"), e)];
            var c := Moment(now, now, true);
            var s' := Batch(Store(map[], map[], 0), ds, [c, c, c], [now, now, now]);
            s'.count == |s'.cache| - 1
  {
    ReasonMatters(e, e.(reason := 1));
    hide Fingerprint, Batch, Fresh, FreshCount;
    var a, c := V4(key), Moment(now, now, true);
    var d0, d1, d2 := Decision(a, e), Decision(a, e.(reason := 1)), Decision(NotV4("::1"), e);
    var s, ds, cs := Store(map[], map[], 0), [d0, d1, d2], [c, c, c];
    var l := LogEntry(a, false, NO_ENTRY);
    assert Reach(s, ds, cs).log == [l, l] && Reach(s, ds, cs).failed by { ReachThree(s, d0, d1, d2, c); }
    BatchGap(s, ds, cs, [now, now, now]);
    FreshPair(l);
  }

  lemma {:induction false} FreshPair(l: LogEntry)
    requires !l.existed
    ensures FreshCount([l, l]) == 2 && |Fresh([l, l])| == 1
  {
    assert [l, l][..1] == [l] && [l][..0] == [];
    FreshEmpty([]);
    FreshStep([l]);
    FreshStep([l, l]);
    assert Fresh([l, l]) == {l.ip};
    assert FreshCount([l]) == 1;
  }

  lemma {:induction false} ReachThree(s: Store, d0: Decision, d1: Decision, d2: Decision, c: Moment)
    ensures var p := Progress(s, [], false);
            Reach(s, [d0, d1, d2], [c, c, c]) == Apply(Apply(Apply(p, d0, c), d1, c), d2, c)
  {
    hide Apply;
    var p := Progress(s, [], false);
    assert [d0, d1, d2][..2] == [d0, d1] && [d0, d1][..1] == [d0] && [d0][..0] == [];
    assert [c, c, c][..2] == [c, c] && [c, c][..1] == [c] && [c][..0] == [];
    assert ApplyAll(p, [d0], [c]) == Apply(ApplyAll(p, [], []), d0, c);
    assert ApplyAll(p, [d0, d1], [c, c]) == Apply(ApplyAll(p, [d0], [c]), d1, c);
  }

  // ---- the writer ---------------------------------------------------------------------------------

  datatype Outcome = Done | Duplicate | WindowFull | CapacityFull | WriteFailed

  datatype BatchOutcome = Committed | OverWindow | RolledBack

  class Writer {
    var list: Blocklist
    var cache: map<Address, nat>
    var count: int
    var windowCount: nat
    var windowReset: nat
    const windowMaxOps: nat
    const capacityLimit: int

    ghost function S(): Store
      reads this
    {
      Store(list, cache, count)
    }

    ghost function W(): Window
      reads this
    {
      Window(windowCount, windowReset)
    }

    /** Cached addresses are IPv4, and the window never holds more writes than it allows. */
    ghost predicate Valid()
      reads this
    {
      (forall a :: a in cache ==> a.V4?) && windowCount <= windowMaxOps
    }

    /** NewHardenedWriter over a blocklist; limit is 95% of the map's size. */
    constructor (list: Blocklist, maxOps: int, limit: int, now: nat)
      ensures Valid() && S() == Store(list, map[], 0) && W() == Window(0, now)
      ensures windowMaxOps == if maxOps <= 0 then 1000 else maxOps
      ensures capacityLimit == limit
    {
      this.list, cache, count := list, map[], 0;
      windowCount, windowReset := 0, now;
      windowMaxOps := if maxOps <= 0 then 1000 else maxOps;
      capacityLimit := limit;
    }

    /** A new window starts once the last one is over. */
    method RollWindow(now: nat)
      requires Valid()
      modifies this`windowCount, this`windowReset
      ensures Valid() && W() == Rolled(old(W()), now)
    {
      if now > windowReset {
        windowCount, windowReset := 0, now + WINDOW_NS;
      }
    }

    /** checkWindow admits a write exactly while the current window has room, and charges it. */
    method CheckWindow(now: nat) returns (ok: bool)
      requires Valid()
      modifies this`windowCount, this`windowReset
      ensures Valid() && W() == Charged(old(W()), windowMaxOps, now, 1)
      ensures ok <==> Admits(old(W()), windowMaxOps, now, 1)
    {
      RollWindow(now);
      if windowCount >= windowMaxOps { return false; }
      windowCount := windowCount + 1;
      return true;
    }

    /** BlockIPv4 writes an entry unless it is a duplicate, the window or the map is full, or the
        write is refused, in that order; only duplicates are not charged to the window. */
    method BlockIPv4(d: Decision, now: nat, c: Moment) returns (r: Outcome)
      requires Valid()
      modifies this
      ensures Valid()
      ensures r == if Skips(old(S()), d) then Duplicate
                   else if !Admits(old(W()), windowMaxOps, now, 1) then WindowFull
                   else if old(count) >= capacityLimit then CapacityFull
                   else if Fails(d, c) then WriteFailed
                   else Done
      ensures W() == if r == Duplicate then old(W()) else Charged(old(W()), windowMaxOps, now, 1)
      ensures S() == if r == Done && d.ip.V4? then Written(old(S()), d, c) else old(S())
      ensures Gap(S()) == old(Gap(S()))
    {
      hide Fingerprint, Admits, Charged;
      var fingerprint := Fingerprint(d.entry);
      var found := d.ip in cache;
      if found {
        if cache[d.ip] == fingerprint { return Duplicate; }
      }
      var room := CheckWindow(now);
      if !room { return WindowFull; }
      if count >= capacityLimit { return CapacityFull; }
      if Fails(d, c) { return WriteFailed; }
      WrittenKeepsGap(S(), d, c);
      list := list[d.ip.key := Absolute(d.entry, c.write)];
      if !found { count := count + 1; }
      cache := cache[d.ip := fingerprint];
      return Done;
    }

    /** The body of WriteBatch's loop, up to the rollback log. */
    method WriteOne(d: Decision, c: Moment) returns (w: WriteResult)
      requires Valid()
      modifies this`list, this`cache, this`count
      ensures Valid()
      ensures w == Skipped ==> Skips(old(S()), d) && S() == old(S())
      ensures w == Refused ==> !Skips(old(S()), d) && Fails(d, c) && S() == old(S())
      ensures w.Logged? ==> && !Skips(old(S()), d) && !Fails(d, c)
                            && w.l == LogOf(old(S()), d, c) && S() == Written(old(S()), d, c)
    {
      hide Fingerprint;
      var fingerprint := Fingerprint(d.entry);
      var found := d.ip in cache;
      if found {
        if cache[d.ip] == fingerprint { return Skipped; }
      }
      if Fails(d, c) { return Refused; }
      var prev := View(list, d.ip.key, c.check);
      w := Logged(if prev.Some? then LogEntry(d.ip, true, prev.value) else LogEntry(d.ip, false, NO_ENTRY));
      list := list[d.ip.key := Absolute(d.entry, c.write)];
      if !found { count := count + 1; }
      cache := cache[d.ip := fingerprint];
    }

    /** WriteBatch commits every decision or shows none. */
    method WriteBatch(ds: seq<Decision>, now: nat, cs: seq<Moment>, us: seq<nat>) returns (r: BatchOutcome)
      requires Valid() && |ds| == |cs| == |us|
      modifies this
      ensures Valid()
      ensures r == OverWindow <==> |ds| > 0 && !Admits(old(W()), windowMaxOps, now, |ds|)
      ensures W() == if |ds| == 0 then old(W()) else Charged(old(W()), windowMaxOps, now, |ds|)
      ensures r == OverWindow ==> S() == old(S())
      ensures r != OverWindow ==> S() == Batch(old(S()), ds, cs, us)
      ensures r != OverWindow ==> (r == RolledBack <==> Reach(old(S()), ds, cs).failed)
      ensures r == RolledBack ==> forall t, key :: ClockSafe(cs, us) && NotAfter(cs, t) ==>
                View(list, key, t) == old(View(list, key, t))
    {
      hide Skips, Fails, Written, LogOf, Undo, UndoAll, ClockSafe, View;
      ghost var s := S();
      ghost var p0 := Progress(s, [], false);
      if |ds| == 0 { return Committed; }
      RollWindow(now);
      if windowCount + |ds| > windowMaxOps { return OverWindow; }
      windowCount := windowCount + |ds|;
      var log: seq<LogEntry> := [];
      for i := 0 to |ds|
        invariant Valid() && |log| <= i && W() == Charged(old(W()), windowMaxOps, now, |ds|)
        invariant ApplyAll(p0, ds[..i], cs[..i]) == Progress(S(), log, false)
      {
        ApplyNext(p0, ds, cs, i);
        var w := WriteOne(ds[i], cs[i]);
        if w.Logged? { log := log + [w.l]; }
        if w == Refused {
          FailedStays(p0, ds, cs, i + 1);
          Rollback(log, us);
          forall t, key | ClockSafe(cs, us) && NotAfter(cs, t) ensures View(list, key, t) == View(s.list, key, t) {
            FailedBatchInvisible(s, ds, cs, us, t, key);
          }
          return RolledBack;
        }
      }
      assert ds[..|ds|] == ds && cs[..|ds|] == cs;
      return Committed;
    }

    /** rollback undoes the log, last entry first. */
    method Rollback(log: seq<LogEntry>, us: seq<nat>)
      requires Valid() && |log| <= |us|
      modifies this`list, this`cache, this`count
      ensures Valid() && S() == UndoAll(old(S()), log, us)
    {
      var i := |log|;
      assert log[..i] == log;
      while i > 0
        invariant 0 <= i <= |log| && Valid()
        invariant UndoAll(old(S()), log, us) == UndoAll(S(), log[..i], us)
      {
        i := i - 1;
        var e := log[i];
        assert log[..i + 1][..i] == log[..i];
        if e.ip.V4? {
          if e.existed {
            list := list[e.ip.key := Absolute(e.entry, us[i])];
          } else {
            list := list - {e.ip.key};
            cache := cache - {e.ip};
            count := count - 1;
          }
        }
      }
    }

    /** PurgeExpiredDedup forgets the addresses that are no longer blocked. */
    method PurgeExpiredDedup(now: Address -> nat)
      requires Valid()
      modifies this`cache, this`count
      ensures Valid()
      ensures cache.Keys == set a | a in old(cache) && StillBlocked(list, a, now(a))
      ensures forall a :: a in cache ==> cache[a] == old(cache)[a]
      ensures Gap(S()) == old(Gap(S()))
    {
      var todo := cache.Keys;
      while todo != {}
        invariant Valid() && todo <= cache.Keys <= old(cache).Keys
        invariant forall a :: a in cache ==> cache[a] == old(cache)[a] && (a in todo || StillBlocked(list, a, now(a)))
        invariant forall a :: a in old(cache) && StillBlocked(list, a, now(a)) ==> a in cache
        invariant Gap(S()) == old(Gap(S()))
        decreases todo
      {
        var a :| a in todo;
        todo := todo - {a};
        if !StillBlocked(list, a, now(a)) {
          ShrinkMap(cache, a);
          cache := cache - {a};
          count := count - 1;
        }
      }
    }
  }

  datatype WriteResult = Skipped | Refused | Logged(l: LogEntry)

  predicate StillBlocked(list: Blocklist, a: Address, t: nat) {
    a.V4? && View(list, a.key, t).Some?
  }

  lemma {:induction false} ApplyNext(p: Progress, ds: seq<Decision>, cs: seq<Moment>, i: nat)
    requires i < |ds| == |cs|
    ensures ApplyAll(p, ds[..i + 1], cs[..i + 1]) == Apply(ApplyAll(p, ds[..i], cs[..i]), ds[i], cs[i])
  {
    assert ds[..i + 1][..i] == ds[..i] && cs[..i + 1][..i] == cs[..i];
  }

  /** Once a write has failed the rest of the batch is not attempted. */
  lemma {:induction false} FailedStays(p: Progress, ds: seq<Decision>, cs: seq<Moment>, i: nat)
    requires i <= |ds| == |cs| && ApplyAll(p, ds[..i], cs[..i]).failed
    ensures ApplyAll(p, ds, cs) == ApplyAll(p, ds[..i], cs[..i])
    decreases |ds|
  {
    if i == |ds| {
      assert ds[..i] == ds && cs[..i] == cs;
    } else {
      var n := |ds| - 1;
      assert ds[..n][..i] == ds[..i] && cs[..n][..i] == cs[..i];
      FailedStays(p, ds[..n], cs[..n], i);
    }
  }
}
