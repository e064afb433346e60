/** What the hardened writer leaves in the blocklist when nothing fails. */
module Commits {
  import opened Basics
  import opened HardenedWriter
  import opened BatchLimits

  /** When an entry handed over at a clock reading stops blocking: never, so many seconds later if it
      is below 10^9, or at the second it names. */
  function Until(e: BlockEntry, now: nat): Option<nat> {
    if e.expireAt == 0 then None
    else if e.expireAt < 1_000_000_000 then Some(now + e.expireAt)
    else Some(e.expireAt)
  }

  /** A written entry blocks its address, with the action, rule, score and reason it came with, exactly
      until its time is up; no other address changes. */
  lemma {:induction false} WrittenBlocks(s: Store, d: Decision, c: Moment, key: nat, t: nat)
    requires d.ip.V4?
    ensures var view, until := View(Written(s, d, c).list, key, t), Until(d.entry, c.write);
            if key != d.ip.key then view == View(s.list, key, t)
            else
              && (view.Some? <==> until.None? || t < until.value)
              && (view.Some? ==> view.value.(expireAt := d.entry.expireAt) == d.entry)
  {
    hide Fingerprint;
  }

  /** The latest of the first n decisions that is written for a key. */
  function LastWrite(cache: map<Address, nat>, ds: seq<Decision>, n: nat, key: nat): (i: Option<nat>)
    requires n <= |ds|
    ensures i.Some? ==> i.value < n && ds[i.value].ip == V4(key) && WritesFrom(cache, ds, i.value)
  {
    if n == 0 then None
    else if ds[n - 1].ip == V4(key) && WritesFrom(cache, ds, n - 1) then Some(n - 1)
    else LastWrite(cache, ds, n - 1, key)
  }

  /** As far as a batch gets without failing, each key holds the entry last written for it, and the keys
      that nothing was written for hold what they held. */
  lemma {:induction false} ListFollows(s: Store, ds: seq<Decision>, cs: seq<Moment>, n: nat, key: nat)
    requires n <= |ds| == |cs| && !Reach(s, ds[..n], cs[..n]).failed
    ensures Lookup(Reach(s, ds[..n], cs[..n]).s.list, key)
         == match LastWrite(s.cache, ds, n, key)
            case Some(i) => Some(Absolute(ds[i].entry, cs[i].write))
            case None => Lookup(s.list, key)
    decreases n
  {
    hide Fingerprint, Reach, Absolute, LogOf, WritesFrom;
    if n == 0 {
      ReachNone(s, ds, cs);
    } else {
      if Reach(s, ds[..n - 1], cs[..n - 1]).failed {
        FailedOn(s, ds, cs, n - 1);
      }
      ListFollows(s, ds, cs, n - 1, key);
      BatchStep(s, ds, cs, n - 1);
    }
  }

  lemma {:induction false} FailedOn(s: Store, ds: seq<Decision>, cs: seq<Moment>, n: nat)
    requires n < |ds| == |cs| && Reach(s, ds[..n], cs[..n]).failed
    ensures Reach(s, ds[..n + 1], cs[..n + 1]).failed
  {
    hide Reach;
    ReachNext(s, ds, cs, n);
  }

  /** A batch that is committed leaves at every address the latest entry it wrote there, blocking
      exactly until that entry's time is up, and every other address as it was. */
  lemma {:induction false} CommittedShown(
      s: Store, ds: seq<Decision>, cs: seq<Moment>, us: seq<nat>, key: nat, t: nat)
    requires |ds| == |cs| == |us| && !Reach(s, ds, cs).failed
    ensures var view, last := View(Batch(s, ds, cs, us).list, key, t), LastWrite(s.cache, ds, |ds|, key);
            if last.None? then view == View(s.list, key, t)
            else
              var e, until := ds[last.value].entry, Until(ds[last.value].entry, cs[last.value].write);
              && (view.Some? <==> until.None? || t < until.value)
              && (view.Some? ==> view.value.(expireAt := e.expireAt) == e)
  {
    hide Reach, LastWrite;
    assert ds[..|ds|] == ds && cs[..|ds|] == cs;
    ListFollows(s, ds, cs, |ds|, key);
  }
}
