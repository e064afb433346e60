/** Which blocklist entries the writer takes for duplicates: its fingerprint against the fields it
    stands for. */
module Fingerprints {
  import opened Basics
  import opened Bits
  import opened HardenedWriter
  import opened BatchLimits

  /** The entries say the same but for when they expire. */
  predicate SameBlock(e: BlockEntry, e': BlockEntry) {
    e'.(expireAt := e.expireAt) == e
  }

  /** The four fields that the fingerprint is taken of. */
  function Fields(e: BlockEntry): seq<nat> {
    [e.action, e.ruleId, e.threatScore, e.reason]
  }

  /** The entries differ in exactly one of them. */
  ghost predicate OneChange(e: BlockEntry, e': BlockEntry) {
    exists k :: 0 <= k < 4 && Fields(e')[k] != Fields(e)[k]
                && forall i :: 0 <= i < 4 && i != k ==> Fields(e')[i] == Fields(e)[i]
  }

  /** A change of one field always changes the fingerprint, a change of the expiry never does. */
  lemma {:induction false} OneFieldMatters(e: BlockEntry, e': BlockEntry)
    requires Fits64(e) && Fits64(e')
    ensures OneChange(e, e') ==> Fingerprint(e) != Fingerprint(e')
    ensures SameBlock(e, e') ==> Fingerprint(e) == Fingerprint(e')
  {
    if OneChange(e, e') && Fingerprint(e) == Fingerprint(e') {
      var k :| 0 <= k < 4 && Fields(e')[k] != Fields(e)[k]
               && forall i :: 0 <= i < 4 && i != k ==> Fields(e')[i] == Fields(e)[i];
      assert forall i :: 0 <= i < 4 && i != k ==> Fields(e')[i] == Fields(e)[i];
      assert Fields(e)[0] == e.action && Fields(e)[1] == e.ruleId && Fields(e)[2] == e.threatScore;
      assert Fields(e)[3] == e.reason && Fields(e')[3] == e'.reason;
      hide Fields;
      StagesMatter(e, e');
    }
  }

  lemma {:induction false} StagesMatter(e: BlockEntry, e': BlockEntry)
    requires Fits64(e) && Fits64(e') && Fingerprint(e) == Fingerprint(e')
    ensures e.action == e'.action && e.ruleId == e'.ruleId && e.threatScore == e'.threatScore ==> e.reason == e'.reason
    ensures e.action == e'.action && e.ruleId == e'.ruleId && e.reason == e'.reason ==> e.threatScore == e'.threatScore
    ensures e.action == e'.action && e.threatScore == e'.threatScore && e.reason == e'.reason ==> e.ruleId == e'.ruleId
    ensures e.ruleId == e'.ruleId && e.threatScore == e'.threatScore && e.reason == e'.reason ==> e.action == e'.action
  {
    var h1, h1' := Mix(FNV_OFFSET, e.action), Mix(FNV_OFFSET, e'.action);
    var h2, h2' := Mix(h1, e.ruleId), Mix(h1', e'.ruleId);
    var h3, h3' := Mix(h2, e.threatScore), Mix(h2', e'.threatScore);
    MixInjective(h3, h3', e.reason, e'.reason);
    if h3 == h3' { MixInjective(h2, h2', e.threatScore, e'.threatScore); }
    if h2 == h2' { MixInjective(h1, h1', e.ruleId, e'.ruleId); }
    if h1 == h1' { MixInjective(FNV_OFFSET, FNV_OFFSET, e.action, e'.action); }
  }

  lemma {:induction false} FourZeros(e: BlockEntry, h1: nat, h2: nat, h3: nat, h4: nat)
    requires e == NO_ENTRY && FNV_OFFSET * FNV_PRIME % MOD64 == h1 && h1 * FNV_PRIME % MOD64 == h2
    requires h2 * FNV_PRIME % MOD64 == h3 && h3 * FNV_PRIME % MOD64 == h4
    ensures Fingerprint(e) == h4
  {
    hide Xor;
    XorZero(FNV_OFFSET);
    XorZero(h1);
    XorZero(h2);
    XorZero(h3);
  }

  /** The hash of the zero entry: the offset basis times the prime's fourth power. */
  lemma {:induction false} ZeroEntry()
    ensures Fingerprint(NO_ENTRY) == 5558979605539197941
  {
    hide Fingerprint;
    FourZeros(NO_ENTRY, 12638153115695167455, 590684067820433389, 15658191375538532279, 5558979605539197941);
  }

  // ---- small changes spread ---------------------------------------------------------------------

  /** Exclusive or with a number of k bits leaves the higher bits alone. */
  lemma {:induction false} XorHigh(h: nat, v: nat, k: nat)
    requires v < Pow2(k)
    ensures Xor(h, v) / Pow2(k) == h / Pow2(k)
    decreases k
  {
    if k == 0 {
      XorZero(h);
    } else {
      XorStep(h, v);
      XorHigh(h / 2, v / 2, k - 1);
      DivHalf(h, Pow2(k - 1));
      DivHalf(Xor(h, v), Pow2(k - 1));
    }
  }

  lemma {:induction false} XorByte(h: nat, v: nat)
    requires v < 256
    ensures Xor(h, v) / 256 == h / 256
  {
    assert Pow2(8) == 256;
    XorHigh(h, v, 8);
  }

  lemma {:induction false} XorWord(h: nat, v: nat)
    requires v < 0x1_0000_0000
    ensures Xor(h, v) / 0x1_0000_0000 == h / 0x1_0000_0000
  {
    Pow2Of32();
    XorHigh(h, v, 32);
  }

  /** The hash before the reason as a number: f1 and f2 are what rule and score add. */
  lemma {:induction false} Expanded(e: BlockEntry) returns (f1: int, f2: int, k: int)
    requires Widths(e)
    ensures var h1 := Mix(FNV_OFFSET, e.action); f1 == Xor(h1, e.ruleId) - h1
    ensures var h2 := Mix(Mix(FNV_OFFSET, e.action), e.ruleId); f2 == Xor(h2, e.threatScore) - h2
    ensures -255 <= f1 <= 255 && -255 <= f2 <= 255
    ensures Hash3(e) == CUBE * Xor(FNV_OFFSET, e.action) + SQUARE * f1 + FNV_PRIME * f2 - MOD64 * k
  {
    var x := Xor(FNV_OFFSET, e.action);
    var h1 := Mix(FNV_OFFSET, e.action);
    var y := Xor(h1, e.ruleId);
    var h2 := Mix(h1, e.ruleId);
    var z := Xor(h2, e.threatScore);
    XorByte(h1, e.ruleId);
    XorByte(h2, e.threatScore);
    f1, f2 := y - h1, z - h2;
    hide Xor;
    var k1, k2, k3 := x * FNV_PRIME / MOD64, y * FNV_PRIME / MOD64, z * FNV_PRIME / MOD64;
    assert h1 == x * FNV_PRIME - MOD64 * k1;
    assert h2 == y * FNV_PRIME - MOD64 * k2;
    assert Hash3(e) == z * FNV_PRIME - MOD64 * k3;
    k := SQUARE * k1 + FNV_PRIME * k2 + k3;
  }

  const SQUARE: nat := FNV_PRIME * FNV_PRIME
  const CUBE: nat := FNV_PRIME * FNV_PRIME * FNV_PRIME

  /** The widths of an entry's fields. */
  predicate Widths(e: BlockEntry) {
    e.action < 256 && e.ruleId < 256 && e.threatScore < 256 && e.reason < 0x1_0000_0000
  }

  /** The prime is 2^40 + 435. For hashes that agree above their low 32 bits, what differs is only
      what modulo 2^24 cancels out above bit 40. */
  lemma {:induction false} HighBitsCancel(d: int, e1: int, e2: int, k: int) returns (m: int)
    requires -31 <= d <= 31 && -510 <= e1 <= 510 && -510 <= e2 <= 510
    requires -0x1_0000_0000 < CUBE * d + SQUARE * e1 + FNV_PRIME * e2 - MOD64 * k < 0x1_0000_0000
    ensures 567675 * d + 870 * e1 + e2 == 0x100_0000 * m
  {
    assert SQUARE == MOD64 * 65536 + 0x100_0000_0000 * 870 + 189225;
    assert CUBE == MOD64 * 72057594123452416 + 0x100_0000_0000 * 567675 + 82312875;
    m := k - 72057594123452416 * d - 65536 * e1;
    var a, b := 567675 * d + 870 * e1 + e2, 82312875 * d + 189225 * e1 + 435 * e2;
    assert CUBE * d + SQUARE * e1 + FNV_PRIME * e2 - MOD64 * k == 0x100_0000_0000 * (a - 0x100_0000 * m) + b;
  }

  /** Equal fingerprints: the hashes agree above the bits that the reason can change. */
  lemma {:induction false} EqualHigh(e: BlockEntry, e': BlockEntry)
    requires Widths(e) && Widths(e') && Fingerprint(e) == Fingerprint(e')
    ensures -0x1_0000_0000 < Hash3(e) - Hash3(e') < 0x1_0000_0000
    ensures Hash3(e) == Hash3(e') ==> e.reason == e'.reason
  {
    var h, h' := Hash3(e), Hash3(e');
    assert Mix(h, e.reason) == Mix(h', e'.reason);
    hide Mix, Xor, Hash3;
    MixInjective(h, h', e.reason, e'.reason);
    XorWord(h, e.reason);
    XorWord(h', e'.reason);
  }

  // ---- the bound on actions -------------------------------------------------------------------------

  /** The first word of the hash for a small action: its low five bits are the action's with two flipped. */
  lemma {:induction false} FirstWord(a: nat)
    requires a < 26
    ensures Xor(FNV_OFFSET, a) == FNV_OFFSET - 5 + Xor(5, a) && Xor(5, a) <= 29
    ensures Xor(5, a) == 29 ==> a == 24
    ensures Xor(5, a) == 0 ==> a == 5
  {
    hide Xor;
    XorZeroEqual(5, a);
    LowFive(FNV_OFFSET / 32, 5, a);
    SmallXor(a);
  }

  lemma {:induction false} LowFive(q: nat, u: nat, v: nat)
    requires u < 32 && v < 32
    ensures Xor(32 * q + u, v) == 32 * q + Xor(u, v)
  {
    assert Pow2(5) == 32;
    XorBound(u, v, 5);
    XorHigh(32 * q + u, v, 5);
    LowBits(32 * q + u, v, u, 5, q);
  }

  /** The low k bits of an exclusive or are those of the operands'. */
  lemma {:induction false} LowBits(h: nat, v: nat, u: nat, k: nat, q: nat)
    requires h == Pow2(k) * q + u && u < Pow2(k) && v < Pow2(k)
    ensures Xor(h, v) == Pow2(k) * q + Xor(u, v)
    decreases k
  {
    if k == 0 {
      XorZero(q);
    } else {
      var p := Pow2(k - 1);
      assert h == 2 * (p * q) + u && h / 2 == p * q + u / 2;
      LowBits(h / 2, v / 2, u / 2, k - 1, q);
      XorStep(h, v);
      XorStep(u, v);
      assert Pow2(k) * q == 2 * (p * q);
    }
  }

  lemma {:induction false} SmallXor(a: nat)
    requires a < 26
    ensures Xor(5, a) <= 29 && (Xor(5, a) == 29 ==> a == 24)
  {
    hide Xor;
    var b, c := a / 2, a / 4;
    XorStep(5, a);
    XorStep(2, b);
    XorStep(1, c);
    XorZero(c / 2);
    assert Xor(1, c) == c + 1 - 2 * (c % 2);
  }

  /** The one pair of actions far enough apart to cancel out differs too much in its next byte. */
  lemma {:induction false} FarPair(e: BlockEntry, e': BlockEntry)
    requires Widths(e) && Widths(e') && e.action == 24 && e'.action == 5
    ensures var h, h' := Mix(FNV_OFFSET, e.action), Mix(FNV_OFFSET, e'.action);
            (Xor(h, e.ruleId) - h) - (Xor(h', e'.ruleId) - h') <= 184
  {
    var h, h' := Mix(FNV_OFFSET, e.action), Mix(FNV_OFFSET, e'.action);
    hide Xor;
    LowFive(FNV_OFFSET / 32, 5, e.action);
    LowFive(FNV_OFFSET / 32, 5, e'.action);
    FarXors(e.action, e'.action);
    assert h == (FNV_OFFSET + 24) * FNV_PRIME % MOD64 && h' == (FNV_OFFSET - 5) * FNV_PRIME % MOD64;
    assert h % 256 == 167 && h' % 256 == 96;
    XorByte(h, e.ruleId);
    XorByte(h', e'.ruleId);
  }

  lemma FarXors(a: nat, a': nat)
    requires a == 24 && a' == 5
    ensures Xor(5, a) == 29 && Xor(5, a') == 0
  {
    assert Xor(5, 24) == 29;
    XorSelf(5);
  }

  /** The arithmetic of HighBitsCancel: nothing cancels but nothing. */
  lemma {:induction false} OnlyZero(d: int, e1: int, e2: int, m: int)
    requires 0 <= d <= 29 && -510 <= e1 <= 510 && -510 <= e2 <= 510 && (d == 29 ==> e1 <= 184)
    requires 567675 * d + 870 * e1 + e2 == 0x100_0000 * m
    ensures d == 0 && e1 == 0 && e2 == 0
  {
    assert 0 <= m <= 1;
  }

  /** Entries whose actions are below 26 have equal fingerprints only if they say the same. */
  lemma {:induction false} SmallActionsApart(e: BlockEntry, e': BlockEntry)
    requires Widths(e) && Widths(e') && e.action < 26 && e'.action < 26 && Fingerprint(e) == Fingerprint(e')
    requires Xor(FNV_OFFSET, e'.action) <= Xor(FNV_OFFSET, e.action)
    ensures SameBlock(e, e')
  {
    hide Xor, Mix, Hash3, Fingerprint;
    var x, x' := Xor(FNV_OFFSET, e.action), Xor(FNV_OFFSET, e'.action);
    EqualHigh(e, e');
    FirstWord(e.action);
    FirstWord(e'.action);
    var f1, f2, k := Expanded(e);
    var f1', f2', k' := Expanded(e');
    if x - x' == 29 { FarPair(e, e'); }
    var m := HighBitsCancel(x - x', f1 - f1', f2 - f2', k - k');
    OnlyZero(x - x', f1 - f1', f2 - f2', m);
    XorComm(FNV_OFFSET, e.action);
    XorComm(FNV_OFFSET, e'.action);
    XorInjective(e.action, e'.action, FNV_OFFSET);
    SameAdds(e, e');
  }

  /** From equal actions on, equal contributions mean equal fields. */
  lemma {:induction false} SameAdds(e: BlockEntry, e': BlockEntry)
    requires Widths(e) && Widths(e') && Fingerprint(e) == Fingerprint(e') && e.action == e'.action
    requires var h := Mix(FNV_OFFSET, e.action); Xor(h, e.ruleId) == Xor(h, e'.ruleId)
    requires var h := Mix(FNV_OFFSET, e.action);
             var h2, h2' := Mix(h, e.ruleId), Mix(h, e'.ruleId);
             Xor(h2, e.threatScore) - h2 == Xor(h2', e'.threatScore) - h2'
    ensures SameBlock(e, e')
  {
    EqualHigh(e, e');
    var h := Mix(FNV_OFFSET, e.action);
    XorComm(h, e.ruleId);
    XorComm(h, e'.ruleId);
    XorInjective(e.ruleId, e'.ruleId, h);
    var h2 := Mix(h, e.ruleId);
    XorComm(h2, e.threatScore);
    XorComm(h2, e'.threatScore);
    XorInjective(e.threatScore, e'.threatScore, h2);
  }

  // ---- where the fingerprint fails -------------------------------------------------------------------

  /** Whatever the first three fields are, if the hashes of two entries agree above their low 32 bits
      then some reasons give them the same fingerprint. */
  lemma {:induction false} ReasonCollides(e: BlockEntry, e': BlockEntry)
    requires Widths(e) && Widths(e') && e.reason == 0
    requires Hash3(e) / 0x1_0000_0000 == Hash3(e') / 0x1_0000_0000
    ensures var f := e'.(reason := Xor(Hash3(e), Hash3(e'))); Widths(f) && Fingerprint(e) == Fingerprint(f)
  {
    var h, h' := Hash3(e), Hash3(e');
    assert Fingerprint(e) == Mix(h, 0);
    assert Fingerprint(e'.(reason := Xor(h, h'))) == Mix(h', Xor(h, h'));
    hide Hash3, Fingerprint, Xor;
    Pow2Of32();
    EqualTops(h, h', 32);
    XorZero(h);
    XorComm(h, h');
    XorAssoc(h', h', h);
    XorSelf(h');
  }

  lemma {:induction false} EqualTops(a: nat, b: nat, k: nat)
    requires a / Pow2(k) == b / Pow2(k)
    ensures Xor(a, b) < Pow2(k)
    decreases k
  {
    if k == 0 {
      XorSelf(a);
    } else {
      DivHalf(a, Pow2(k - 1));
      DivHalf(b, Pow2(k - 1));
      XorStep(a, b);
      EqualTops(a / 2, b / 2, k - 1);
    }
  }

  const CLASH_A := BlockEntry(0, 7, 132, 72, 0)
  const CLASH_B := BlockEntry(0, 26, 254, 239, 0)

  /** Exclusive or with a byte, by the low byte. */
  lemma {:induction false} MixIs(h: nat, v: nat, x: nat, r: nat)
    requires v < 256 && x / 256 == h / 256 && Xor(h % 256, v) == x % 256 && x * FNV_PRIME % MOD64 == r
    ensures Mix(h, v) == r
  {
    hide Xor;
    assert Pow2(8) == 256;
    LowBits(h, v, h % 256, 8, h / 256);
  }

  lemma {:induction false} ClashXorsA()
    ensures Xor(37, 7) == 34 && Xor(198, 132) == 66 && Xor(38, 72) == 110
  {
    hide Xor;
    XorZero(4);
    XorStep(9, 1);
    XorStep(18, 3);
    XorStep(37, 7);
    XorZero(0);
    XorStep(1, 1);
    XorStep(3, 2);
    XorStep(6, 4);
    XorStep(12, 8);
    XorStep(24, 16);
    XorStep(49, 33);
    XorStep(99, 66);
    XorStep(198, 132);
    XorZero(1);
    XorStep(1, 2);
    XorStep(2, 4);
    XorStep(4, 9);
    XorStep(9, 18);
    XorStep(19, 36);
    XorStep(38, 72);
  }

  lemma {:induction false} ClashXorsB()
    ensures Xor(37, 26) == 63 && Xor(13, 254) == 243 && Xor(233, 239) == 6
  {
    hide Xor;
    XorZero(1);
    XorStep(2, 1);
    XorStep(4, 3);
    XorStep(9, 6);
    XorStep(18, 13);
    XorStep(37, 26);
    XorZero(15);
    XorStep(1, 31);
    XorStep(3, 63);
    XorStep(6, 127);
    XorStep(13, 254);
    XorZero(0);
    XorStep(1, 1);
    XorStep(3, 3);
    XorStep(7, 7);
    XorStep(14, 14);
    XorStep(29, 29);
    XorStep(58, 59);
    XorStep(116, 119);
    XorStep(233, 239);
  }

  lemma {:induction false} ClashA(e: BlockEntry)
    requires e == CLASH_A
    ensures Hash3(e) == 13659506834876828906
  {
    hide Xor, Mix;
    ClashXorsA();
    MixIs(FNV_OFFSET, e.action, 14695981039346656034, 12638149817160282822);
    MixIs(12638149817160282822, e.ruleId, 12638149817160282690, 587669206936446502);
    MixIs(587669206936446502, e.threatScore, 587669206936446574, 13659506834876828906);
  }

  lemma {:induction false} ClashB(e: BlockEntry)
    requires e == CLASH_B
    ensures Hash3(e) == 13659506837332271666
  {
    hide Xor, Mix;
    ClashXorsB();
    MixIs(FNV_OFFSET, e.action, 14695981039346656063, 12638181702997500941);
    MixIs(12638181702997500941, e.ruleId, 12638181702997501171, 615807908520134889);
    MixIs(615807908520134889, e.threatScore, 615807908520134662, 13659506837332271666);
  }

  /** Two entries that say different things and have the same fingerprint. */
  lemma {:induction false} Clash() returns (e: BlockEntry, e': BlockEntry)
    ensures Widths(e) && Widths(e') && e.action == 7 && e'.action == 26 && Fingerprint(e) == Fingerprint(e')
  {
    hide Hash3, Fingerprint, Xor;
    ClashA(CLASH_A);
    ClashB(CLASH_B);
    ReasonCollides(CLASH_A, CLASH_B);
    e, e' := CLASH_A, CLASH_B.(reason := Xor(Hash3(CLASH_A), Hash3(CLASH_B)));
  }

  /** Entries with actions below n are told apart by their fingerprints if and only if n is at most 26;
      the actions in use are 1 to 4. */
  lemma {:induction false} FingerprintExactly(n: nat)
    requires n <= 256
    ensures (forall e, e' :: Widths(e) && Widths(e') && e.action < n && e'.action < n ==>
               (Fingerprint(e) == Fingerprint(e') <==> SameBlock(e, e')))
       <==> n <= 26
  {
    hide Xor;
    if n <= 26 {
      forall e, e' | Widths(e) && Widths(e') && e.action < n && e'.action < n
        ensures Fingerprint(e) == Fingerprint(e') <==> SameBlock(e, e')
      {
        ToldApart(e, e');
      }
    } else {
      var e, e' := Clash();
      assert !SameBlock(e, e');
      hide Fingerprint;
    }
  }

  lemma {:induction false} ToldApart(e: BlockEntry, e': BlockEntry)
    requires Widths(e) && Widths(e') && e.action < 26 && e'.action < 26
    ensures Fingerprint(e) == Fingerprint(e') <==> SameBlock(e, e')
  {
    hide Xor;
    if Fingerprint(e) == Fingerprint(e') {
      hide Fingerprint;
      if Xor(FNV_OFFSET, e'.action) <= Xor(FNV_OFFSET, e.action) {
        SmallActionsApart(e, e');
      } else {
        SmallActionsApart(e', e);
      }
    }
  }

  // ---- what is skipped ----------------------------------------------------------------------------------

  /** After an entry is written for an address, another one is skipped as its duplicate exactly when it
      says the same; a change of one field is never skipped, whatever the fields' widths. */
  lemma {:induction false} SkippedExactly(s: Store, d: Decision, c: Moment, e': BlockEntry)
    requires d.ip.V4? && Fits64(d.entry) && Fits64(e')
    ensures var skips := Skips(Written(s, d, c), Decision(d.ip, e'));
            && (OneChange(d.entry, e') ==> !skips) && (SameBlock(d.entry, e') ==> skips)
            && (Widths(d.entry) && Widths(e') && d.entry.action < 26 && e'.action < 26 ==>
                  (skips <==> SameBlock(d.entry, e')))
  {
    hide Fingerprint, OneChange;
    OneFieldMatters(d.entry, e');
    if Widths(d.entry) && Widths(e') && d.entry.action < 26 && e'.action < 26 { ToldApart(d.entry, e'); }
  }

  /** The same within a batch, against the latest decision on the address before. */
  lemma {:induction false} SkippedInBatch(cache: map<Address, nat>, ds: seq<Decision>, i: nat, j: nat)
    requires i < j < |ds| && ds[i].ip == ds[j].ip && Fits64(ds[i].entry) && Fits64(ds[j].entry)
    requires forall k :: i < k < j ==> ds[k].ip != ds[j].ip
    ensures var writes, e, e' := WritesFrom(cache, ds, j), ds[i].entry, ds[j].entry;
            && (OneChange(e, e') ==> writes) && (SameBlock(e, e') ==> !writes)
            && (Widths(e) && Widths(e') && e.action < 26 && e'.action < 26 ==> (writes <==> !SameBlock(e, e')))
  {
    hide Fingerprint, OneChange;
    OneFieldMatters(ds[i].entry, ds[j].entry);
    LatestOnRecord(cache, ds, i, j, j);
    var e, e' := ds[i].entry, ds[j].entry;
    if Widths(e) && Widths(e') && e.action < 26 && e'.action < 26 { ToldApart(e, e'); }
  }

  lemma {:induction false} LatestOnRecord(cache: map<Address, nat>, ds: seq<Decision>, i: nat, j: nat, n: nat)
    requires i < n <= j < |ds| && ds[i].ip == ds[j].ip && forall k :: i < k < j ==> ds[k].ip != ds[j].ip
    ensures OnRecord(cache, ds, n, ds[j].ip) == Some(Fingerprint(ds[i].entry))
    decreases n
  {
    hide Fingerprint;
    if n == i + 1 {
    } else {
      LatestOnRecord(cache, ds, i, j, n - 1);
    }
  }
}
