/** The control plane's expiry sweep over the kernel's blocklist: it reads wall-clock seconds, while
    the kernel writes its bans in seconds of uptime. */
module XdpSweep {
  import opened Xdp
  import opened XdpBans
  import opened XdpExpiry

  predicate Kept(b: Block, wall: nat) {
    b.expireAt == 0 || wall < b.expireAt
  }

  function Swept(list: map<nat, Block>, wall: nat): map<nat, Block> {
    map key | key in list && Kept(list[key], wall) :: list[key]
  }

  /** The iteration of sweepBlocklistV4. */
  method CollectExpired(list: map<nat, Block>, wall: nat) returns (toDelete: set<nat>)
    ensures forall key :: key in toDelete <==> key in list && !Kept(list[key], wall)
  {
    toDelete := {};
    var rest := list.Keys;
    while rest != {}
      invariant rest <= list.Keys
      invariant forall key :: key in toDelete <==> key in list && key !in rest && !Kept(list[key], wall)
      decreases rest
    {
      var key :| key in rest;
      if list[key].expireAt != 0 && wall >= list[key].expireAt { toDelete := toDelete + {key}; }
      rest := rest - {key};
    }
  }

  /** Its deletions. */
  method DeleteAll(list: map<nat, Block>, toDelete: set<nat>) returns (swept: map<nat, Block>, removed: nat)
    requires toDelete <= list.Keys
    ensures swept == list - toDelete && removed == |list| - |swept|
  {
    swept, removed := list, 0;
    var left := toDelete;
    while left != {}
      invariant left <= toDelete && left <= swept.Keys && swept - left == list - toDelete
      invariant removed == |list| - |swept|
      decreases left
    {
      var key :| key in left;
      Delete(swept, key);
      swept, left, removed := swept - {key}, left - {key}, removed + 1;
    }
    assert swept - left == swept;
  }

  /** sweepBlocklistV4 removes exactly what the wall clock takes for expired. */
  method SweepBlocklist(list: map<nat, Block>, wall: nat) returns (swept: map<nat, Block>, removed: nat)
    ensures swept == Swept(list, wall) && removed == |list| - |swept|
  {
    var toDelete := CollectExpired(list, wall);
    swept, removed := DeleteAll(list, toDelete);
  }

  lemma {:induction false} Delete(m: map<nat, Block>, key: nat)
    requires key in m
    ensures |m - {key}| == |m| - 1
  {
    assert |m| == |m.Keys| && |m - {key}| == |(m - {key}).Keys|;
    assert m.Keys == (m - {key}).Keys + {key};
  }

  /** A sweep between packets. */
  function AfterSweep(st: State, wall: nat): State {
    st.(block4 := Swept(st.block4, wall), block6 := Swept(st.block6, wall))
  }

  // ---- what a sweep does to a ban ----------------------------------------------------------

  lemma {:induction false} SweepKeeps(st: State, x: nat, b: Block, wall: nat)
    requires UnderBan(st, x, b) && 0 < b.expireAt
    ensures UnderBan(AfterSweep(st, wall), x, b) <==> wall < b.expireAt
    ensures wall >= b.expireAt ==> x !in AfterSweep(st, wall).block4
  {
  }

  /** With failsafe and rate limit off, a packet that is no TCP passes unless the blocklist has its
      source. */
  lemma {:induction false} PassesUnlisted(st: State, p: Packet)
    requires From(p, p.src) && p.src != 0 && !p.tcp && p.src !in st.block4
    requires !ReadConfig(st).failsafe && !ReadConfig(st).rateLimit
    ensures VerdictOf(Process(st, p).exit) == Pass
  {
  }

  /** A packet of a source, at a second of uptime. */
  function PacketAt(x: nat, up: nat): Packet {
    var t := up * SECOND;
    Packet(0, true, true, x, false, 0, 0, false, 0, false, false, t, t, t, t, t)
  }

  /** Where no other stage drops, the window of a ban survives a sweep if and only if the sweep's wall
      clock is before the ban's expiry. */
  lemma {:induction false} BanSurvivesSweepExactly(st: State, x: nat, b: Block, wall: nat)
    requires UnderBan(st, x, b) && 0 < b.expireAt && !ReadConfig(st).failsafe && !ReadConfig(st).rateLimit
    ensures (forall p :: From(p, x) && p.blockAt / SECOND < b.expireAt ==>
               VerdictOf(Process(AfterSweep(st, wall), p).exit) == Drop)
       <==> wall < b.expireAt
  {
    hide Process, Swept;
    SweepKeeps(st, x, b, wall);
    var after := AfterSweep(st, wall);
    if wall < b.expireAt {
      forall p | From(p, x) && p.blockAt / SECOND < b.expireAt ensures VerdictOf(Process(after, p).exit) == Drop {
        BlockedPacket(after, x, b, p);
      }
    } else {
      var p := PacketAt(x, 0);
      PassesUnlisted(after, p);
      assert From(p, x) && p.blockAt / SECOND < b.expireAt;
    }
  }

  /** A sweep that is not ahead of the kernel's clock changes no packet's fate. */
  lemma {:induction false} SweepUnseen(st: State, p: Packet, wall: nat)
    requires wall <= p.blockAt / SECOND
    ensures Process(AfterSweep(st, wall), p).exit == Process(st, p).exit
  {
    hide Process;
    var s4 := set key | key in st.block4 && !Kept(st.block4[key], wall);
    var s6 := set key | key in st.block6 && !Kept(st.block6[key], wall);
    assert Swept(st.block4, wall) == st.block4 - s4 && Swept(st.block6, wall) == st.block6 - s6;
    IgnoredAbsent(st, s4, s6, p);
  }

  /** A cooling ban does not outlive a sweep on any machine whose uptime is at least 655360 seconds
      behind the wall clock: the longest ban there is. */
  lemma {:induction false} CoolingBanSwept(st: State, p: Packet, wall: nat)
    requires IsBan(Process(st, p).exit) && BanTime(p, Process(st, p).exit) / SECOND + 655360 <= wall
    ensures p.src in Process(st, p).st.block4 && p.src !in AfterSweep(Process(st, p).st, wall).block4
  {
    hide Process, Swept, BanSeconds;
    BanWritten(st, p);
    var b := RecordOf(st, p);
    ShiftBound(b.r);
    SweepKeeps(Process(st, p).st, p.src, Block(b.expireAt, DROP), wall);
  }
}
