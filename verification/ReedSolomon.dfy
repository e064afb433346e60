/** Systematic Reed-Solomon encoding over GF(2^8): the division loop, its zero
    syndromes and the minimum distance of the resulting code. */
module ReedSolomon {
  import opened Bits
  import opened Gf256

  // ---- polynomials, highest degree first ---------------------------------------

  function Eval(p: seq<byte>, x: byte): byte {
    if |p| == 0 then 0 else Add(Mul(Eval(p[..|p| - 1], x), x), p[|p| - 1])
  }

  function Zeros(n: nat): seq<byte> {
    seq(n, _ => 0)
  }

  function Sum(p: seq<byte>, q: seq<byte>): seq<byte>
    requires |p| == |q|
  {
    seq(|p|, i requires 0 <= i < |p| => Add(p[i], q[i]))
  }

  function Scale(c: byte, p: seq<byte>): seq<byte> {
    seq(|p|, i requires 0 <= i < |p| => Mul(c, p[i]))
  }

  lemma {:induction false} EvalLast(p: seq<byte>, c: byte, x: byte)
    ensures Eval(p + [c], x) == Add(Mul(Eval(p, x), x), c)
  {
    assert (p + [c])[..|p|] == p;
  }

  lemma {:induction false} EvalSum(p: seq<byte>, q: seq<byte>, x: byte)
    requires |p| == |q|
    ensures Eval(Sum(p, q), x) == Add(Eval(p, x), Eval(q, x))
  {
    if |p| == 0 {
      AddZero(0);
    } else {
      var p', q' := p[..|p| - 1], q[..|q| - 1];
      var a, b := p[|p| - 1], q[|q| - 1];
      EvalSum(p', q', x);
      assert Sum(p, q)[..|p| - 1] == Sum(p', q');
      MulDistribLeft(Eval(p', x), Eval(q', x), x);
      AddSwap(Mul(Eval(p', x), x), a, Mul(Eval(q', x), x), b);
    }
  }

  lemma {:induction false} EvalScale(c: byte, p: seq<byte>, x: byte)
    ensures Eval(Scale(c, p), x) == Mul(c, Eval(p, x))
  {
    if |p| == 0 {
      MulZero(c);
    } else {
      var p', a := p[..|p| - 1], p[|p| - 1];
      EvalScale(c, p', x);
      assert Scale(c, p)[..|p| - 1] == Scale(c, p');
      MulAssoc(c, Eval(p', x), x);
      MulDistrib(c, Mul(Eval(p', x), x), a);
    }
  }

  lemma {:induction false} EvalLeadingZero(p: seq<byte>, x: byte)
    ensures Eval([0] + p, x) == Eval(p, x)
  {
    if |p| == 0 {
      assert [0] + p == [] + [0];
      EvalLast([], 0, x);
      MulZero(x);
      AddZero(0);
    } else {
      var p', a := p[..|p| - 1], p[|p| - 1];
      EvalLeadingZero(p', x);
      assert [0] + p == ([0] + p') + [a];
      EvalLast([0] + p', a, x);
    }
  }

  lemma {:induction false} EvalLeadingZeros(n: nat, p: seq<byte>, x: byte)
    ensures Eval(Zeros(n) + p, x) == Eval(p, x)
    decreases n
  {
    if n == 0 {
      assert Zeros(n) + p == p;
    } else {
      assert Zeros(n) + p == [0] + (Zeros(n - 1) + p);
      EvalLeadingZero(Zeros(n - 1) + p, x);
      EvalLeadingZeros(n - 1, p, x);
    }
  }

  /** A root stays a root when the polynomial is multiplied by x^n. */
  lemma {:induction false} RootOfShift(p: seq<byte>, n: nat, x: byte)
    requires Eval(p, x) == 0
    ensures Eval(p + Zeros(n), x) == 0
    decreases n
  {
    if n == 0 {
      assert p + Zeros(n) == p;
    } else {
      RootOfShift(p, n - 1, x);
      assert p + Zeros(n) == (p + Zeros(n - 1)) + [0];
      EvalLast(p + Zeros(n - 1), 0, x);
      MulZero(x);
      AddZero(0);
    }
  }

  // ---- the generator polynomial ---------------------------------------------------

  /** Multiplication by (x + r), one round of the generator loop. */
  function TimesRoot(g: seq<byte>, r: byte): seq<byte> {
    Sum(g + [0], [0] + Scale(r, g))
  }

  lemma {:induction false} EvalTimesRoot(g: seq<byte>, r: byte, x: byte)
    ensures Eval(TimesRoot(g, r), x) == Mul(Eval(g, x), Add(x, r))
  {
    var v := Eval(g, x);
    EvalSum(g + [0], [0] + Scale(r, g), x);
    EvalLast(g, 0, x);
    AddZero(Mul(v, x));
    EvalLeadingZero(Scale(r, g), x);
    EvalScale(r, g, x);
    MulComm(r, v);
    MulDistrib(v, x, r);
  }

  /** The product of (x + x^i) for i below n. */
  function Generator(n: nat): (g: seq<byte>)
    ensures |g| == n + 1
  {
    if n == 0 then [1] else TimesRoot(Generator(n - 1), Exp(n - 1))
  }

  lemma {:induction false} GeneratorMonic(n: nat)
    ensures Generator(n)[0] == 1
  {
    if n == 0 {
    } else {
      GeneratorMonic(n - 1);
      AddZero(1);
    }
  }

  lemma {:induction false} RootsOfProduct(g: seq<byte>, r: byte, x: byte)
    ensures Eval(g, x) == 0 || x == r ==> Eval(TimesRoot(g, r), x) == 0
  {
    EvalTimesRoot(g, r, x);
    MulZero(Add(x, r));
    AddZero(x);
    MulZero(Eval(g, x));
  }

  lemma {:induction false} GeneratorRoots(n: nat, k: nat)
    requires k < n
    ensures Eval(Generator(n), Exp(k)) == 0
  {
    if k < n - 1 { GeneratorRoots(n - 1, k); }
    RootsOfProduct(Generator(n - 1), Exp(n - 1), Exp(k));
  }

  // ---- long division ----------------------------------------------------------------

  /** One division step: cancel the leading coefficient with a multiple of the
      monic divisor g and drop it. */
  function DivStep(m: seq<byte>, g: seq<byte>): (r: seq<byte>)
    requires 1 <= |g| <= |m|
    ensures |r| == |m| - 1
  {
    seq(|m| - 1, k requires 0 <= k < |m| - 1 =>
      if k + 1 < |g| then Add(m[k + 1], Mul(m[0], g[k + 1])) else m[k + 1])
  }

  /** The first i division steps. */
  function Reduce(m: seq<byte>, g: seq<byte>, i: nat): (r: seq<byte>)
    requires 1 <= |g| && i + |g| <= |m| + 1
    ensures |r| == |m| - i
    decreases i
  {
    if i == 0 then m else DivStep(Reduce(m, g, i - 1), g)
  }

  /** The n error-correction codewords of data: the remainder of data * x^n by the generator. */
  function Ecc(data: seq<byte>, n: nat): (r: seq<byte>)
    ensures |r| == n
  {
    Reduce(data + Zeros(n), Generator(n), |data|)
  }

  lemma {:induction false} DivStepCancels(m: seq<byte>, g: seq<byte>)
    requires 1 <= |g| <= |m| && g[0] == 1
    ensures [0] + DivStep(m, g) == Sum(m, Scale(m[0], g + Zeros(|m| - |g|)))
  {
    var c, gz := m[0], g + Zeros(|m| - |g|);
    var r, q := [0] + DivStep(m, g), Scale(c, gz);
    forall k | 0 <= k < |m| ensures r[k] == Add(m[k], q[k]) {
      if k == 0 {
        MulOne(c);
        AddZero(c);
      } else if k >= |g| {
        MulZero(c);
        AddZero(m[k]);
      }
    }
    assert r == Sum(m, q);
  }

  lemma {:induction false} EvalDivStep(m: seq<byte>, g: seq<byte>, x: byte)
    requires 1 <= |g| <= |m| && g[0] == 1 && Eval(g, x) == 0
    ensures Eval(DivStep(m, g), x) == Eval(m, x)
  {
    var c, z := m[0], Zeros(|m| - |g|);
    DivStepCancels(m, g);
    EvalLeadingZero(DivStep(m, g), x);
    EvalSum(m, Scale(c, g + z), x);
    MulZero(c);
    EvalScale(c, g + z, x);
    RootOfShift(g, |z|, x);
    AddZero(Eval(m, x));
  }

  lemma {:induction false} EvalReduce(m: seq<byte>, g: seq<byte>, i: nat, x: byte)
    requires 1 <= |g| && i + |g| <= |m| + 1 && g[0] == 1 && Eval(g, x) == 0
    ensures Eval(Reduce(m, g, i), x) == Eval(m, x)
    decreases i
  {
    if i == 0 {
    } else {
      EvalReduce(m, g, i - 1, x);
      EvalDivStep(Reduce(m, g, i - 1), g, x);
    }
  }

  lemma {:induction false} ConcatIsSum(p: seq<byte>, q: seq<byte>)
    ensures p + q == Sum(p + Zeros(|q|), Zeros(|p|) + q)
  {
    forall i | 0 <= i < |p| + |q| ensures (p + q)[i] == Add((p + Zeros(|q|))[i], (Zeros(|p|) + q)[i]) {
      AddZero((p + q)[i]);
    }
  }

  /** Every syndrome of an encoded block is zero. */
  lemma {:induction false} SyndromesVanish(data: seq<byte>, n: nat, k: nat)
    requires k < n
    ensures Eval(data + Ecc(data, n), Exp(k)) == 0
  {
    var x, ec, z := Exp(k), Ecc(data, n), Zeros(n);
    var v := Eval(data + z, x);
    GeneratorMonic(n);
    GeneratorRoots(n, k);
    EvalReduce(data + z, Generator(n), |data|, x);
    EvalLeadingZeros(|data|, ec, x);
    ConcatIsSum(data, ec);
    EvalSum(data + z, Zeros(|data|) + ec, x);
    AddZero(v);
  }

  // ---- minimum distance ------------------------------------------------------------------

  /** The number of non-zero symbols. */
  function Weight(w: seq<byte>): nat {
    if |w| == 0 then 0 else (if w[0] != 0 then 1 else 0) + Weight(w[1..])
  }

  /** The number of positions in which two words differ. */
  function Distance(a: seq<byte>, b: seq<byte>): nat
    requires |a| == |b|
  {
    if |a| == 0 then 0 else (if a[0] != b[0] then 1 else 0) + Distance(a[1..], b[1..])
  }

  lemma {:induction false} DistanceIsWeight(a: seq<byte>, b: seq<byte>)
    requires |a| == |b|
    ensures Distance(a, b) == Weight(Sum(a, b))
  {
    if |a| == 0 {
    } else {
      DistanceIsWeight(a[1..], b[1..]);
      assert Sum(a, b)[1..] == Sum(a[1..], b[1..]);
      AddCancel(a[0], b[0]);
      AddZero(a[0]);
    }
  }

  /** (x^e)^k */
  function Power(e: nat, k: nat): byte {
    Exp(e * k)
  }

  lemma {:induction false} NextPower(c: byte, e: nat, k: nat)
    ensures Mul(Mul(c, Power(e, k)), Exp(e)) == Mul(c, Power(e, k + 1))
  {
    var m := e * k;
    MulAssoc(c, Exp(m), Exp(e));
    ExpAdd(m, e);
    assert e * (k + 1) == m + e;
  }

  lemma {:induction false} PowerZero(e: nat, k: nat)
    ensures k == 0 ==> Power(e, k) == 1
    ensures Power(e, k) == Power(k, e)
  {
    assert e * k == k * e;
  }

  lemma {:induction false} EvalFirst(c: byte, p: seq<byte>, e: nat)
    ensures Eval([c] + p, Exp(e)) == Add(Mul(c, Power(e, |p|)), Eval(p, Exp(e)))
    decreases |p|
  {
    var x := Exp(e);
    if |p| == 0 {
      assert [c] + p == [] + [c];
      EvalLast([], c, x);
      PowerZero(e, |p|);
      MulZero(x);
      AddZero(c);
      MulOne(c);
    } else {
      var p', a := p[..|p| - 1], p[|p| - 1];
      EvalFirst(c, p', e);
      assert [c] + p == ([c] + p') + [a];
      EvalLast([c] + p', a, x);
      var h, t := Mul(c, Power(e, |p'|)), Eval(p', x);
      MulDistribLeft(h, t, x);
      NextPower(c, e, |p'|);
      AddAssoc(Mul(h, x), Mul(t, x), a);
    }
  }

  /** The symbols of w weighed with the values of a polynomial at their locators;
      the locator of the last symbol is x^0, of the one before it x^1, and so on. */
  function Pair(w: seq<byte>, p: seq<byte>): byte {
    if |w| == 0 then 0
    else Add(Mul(w[0], Eval(p, Exp(|w| - 1))), Pair(w[1..], p))
  }

  /** The pairing is a combination of syndromes. */
  lemma {:induction false} PairFirst(w: seq<byte>, c: byte, p: seq<byte>)
    ensures Pair(w, [c] + p) == Add(Mul(c, Eval(w, Exp(|p|))), Pair(w, p))
  {
    if |w| == 0 {
      MulZero(c);
      AddZero(0);
    } else {
      var w', a, e := w[1..], w[0], |w| - 1;
      var y, v := Power(e, |p|), Eval(p, Exp(e));
      var s := Eval(w', Exp(|p|));
      PairFirst(w', c, p);
      EvalFirst(c, p, e);
      assert w == [a] + w';
      EvalFirst(a, w', |p|);
      PowerZero(e, |p|);
      // a * (c*y + v) == c * (a*y) + a*v, and c * (a*y + s) == c * (a*y) + c*s
      MulDistrib(a, Mul(c, y), v);
      MulDistrib(c, Mul(a, y), s);
      MulAssoc(a, c, y);
      MulComm(a, c);
      MulAssoc(c, a, y);
      AddSwap(Mul(c, Mul(a, y)), Mul(a, v), Mul(c, s), Pair(w', p));
    }
  }

  lemma {:induction false} PairVanishes(w: seq<byte>, p: seq<byte>)
    requires forall k :: 0 <= k < |p| ==> Eval(w, Exp(k)) == 0
    ensures Pair(w, p) == 0
    decreases |p|
  {
    if |p| == 0 {
      PairEmpty(w);
    } else {
      PairVanishes(w, p[1..]);
      assert p == [p[0]] + p[1..];
      PairFirst(w, p[0], p[1..]);
      MulZero(p[0]);
      AddZero(0);
    }
  }

  lemma {:induction false} PairEmpty(w: seq<byte>)
    ensures Pair(w, []) == 0
  {
    if |w| == 0 {
    } else {
      PairEmpty(w[1..]);
      MulZero(w[0]);
      AddZero(0);
    }
  }

  /** The polynomial that vanishes at the locators of all non-zero symbols but the s-th. */
  function Locator(w: seq<byte>, s: int): seq<byte> {
    if |w| == 0 then [1]
    else if w[0] != 0 && s != 0 then TimesRoot(Locator(w[1..], s - 1), Exp(|w| - 1))
    else Locator(w[1..], s - 1)
  }

  lemma {:induction false} LocatorLength(w: seq<byte>, s: int)
    ensures |Locator(w, s)| == 1 + Weight(w) - if 0 <= s < |w| && w[s] != 0 then 1 else 0
  {
    if |w| == 0 {
    } else {
      LocatorLength(w[1..], s - 1);
    }
  }

  lemma {:induction false} LocatorVanishes(w: seq<byte>, s: int, p: nat, d: nat)
    requires p < |w| && p != s && w[p] != 0 && d == |w| - 1 - p
    ensures Eval(Locator(w, s), Exp(d)) == 0
  {
    var rest := Locator(w[1..], s - 1);
    if p > 0 {
      LocatorVanishes(w[1..], s - 1, p - 1, d);
      RootsOfProduct(rest, Exp(|w| - 1), Exp(d));
    } else {
      RootsOfProduct(rest, Exp(d), Exp(d));
    }
  }

  lemma {:induction false} LocatorNonZero(w: seq<byte>, s: int, e: nat)
    requires |w| <= 255 && e < 255 && e == |w| - 1 - s
    ensures Eval(Locator(w, s), Exp(e)) != 0
  {
    if |w| == 0 {
      EvalLast([], 1, Exp(e));
      assert [] + [1] == [1];
      MulZero(Exp(e));
      AddZero(1);
    } else {
      var rest, r := Locator(w[1..], s - 1), Exp(|w| - 1);
      LocatorNonZero(w[1..], s - 1, e);
      if w[0] != 0 && s != 0 {
        EvalTimesRoot(rest, r, Exp(e));
        if e < |w| - 1 { ExpInjective(e, |w| - 1); } else { ExpInjective(|w| - 1, e); }
        AddCancel(Exp(e), r);
        NoZeroDivisors(Eval(rest, Exp(e)), Add(Exp(e), r));
      }
    }
  }

  /** Only the s-th symbol survives a pairing with a polynomial that vanishes at
      the locators of the others. */
  lemma {:induction false} PairSingle(w: seq<byte>, q: seq<byte>, s: int)
    requires forall p :: 0 <= p < |w| && p != s && w[p] != 0 ==> Eval(q, Exp(|w| - 1 - p)) == 0
    ensures Pair(w, q) == if 0 <= s < |w| then Mul(w[s], Eval(q, Exp(|w| - 1 - s))) else 0
  {
    if |w| == 0 {
    } else {
      var v := Eval(q, Exp(|w| - 1));
      forall p | 0 <= p < |w| - 1 && p != s - 1 && w[1..][p] != 0
        ensures Eval(q, Exp(|w| - 1 - 1 - p)) == 0
      {
        assert w[p + 1] != 0 && |w| - 1 - (p + 1) == |w| - 1 - 1 - p;
      }
      PairSingle(w[1..], q, s - 1);
      if s != 0 {
        MulZero(w[0]);
        MulZero(v);
        AddZero(Pair(w[1..], q));
      } else {
        AddZero(Mul(w[0], v));
      }
    }
  }

  /** A non-zero word of at most 255 symbols whose first n syndromes vanish has
      more than n non-zero symbols. */
  lemma {:induction false} MinimumWeight(w: seq<byte>, n: nat, s: nat)
    requires |w| <= 255 && s < |w| && w[s] != 0
    requires forall k :: 0 <= k < n ==> Eval(w, Exp(k)) == 0
    ensures Weight(w) > n
  {
    hide Mul, Exp, Locator, Pair, Weight;
    if Weight(w) <= n {
      var q, e := Locator(w, s), |w| - 1 - s;
      LocatorLength(w, s);
      PairVanishes(w, q);
      forall p | 0 <= p < |w| && p != s && w[p] != 0 ensures Eval(q, Exp(|w| - 1 - p)) == 0 {
        LocatorVanishes(w, s, p, |w| - 1 - p);
      }
      PairSingle(w, q, s);
      LocatorNonZero(w, s, e);
      NoZeroDivisors(w[s], Eval(q, Exp(e)));
    }
  }

  /** The transmitted block: the data followed by its error-correction codewords. */
  function Codeword(data: seq<byte>, n: nat): seq<byte> {
    data + Ecc(data, n)
  }

  /** Two blocks with different data differ in at least n + 1 positions. */
  lemma {:induction false} CodeDistance(a: seq<byte>, b: seq<byte>, n: nat)
    requires |a| == |b| && |a| + n <= 255 && a != b
    ensures Distance(Codeword(a, n), Codeword(b, n)) >= n + 1
  {
    var u, v := Codeword(a, n), Codeword(b, n);
    var s :| 0 <= s < |a| && a[s] != b[s];
    AddCancel(a[s], b[s]);
    forall k | 0 <= k < n ensures Eval(Sum(u, v), Exp(k)) == 0 {
      EvalSum(u, v, Exp(k));
      SyndromesVanish(a, n, k);
      SyndromesVanish(b, n, k);
      AddZero(0);
    }
    MinimumWeight(Sum(u, v), n, s);
    DistanceIsWeight(u, v);
  }

  lemma {:induction false} DistanceWitness(a: seq<byte>, b: seq<byte>) returns (s: nat)
    requires |a| == |b| && Distance(a, b) > 0
    ensures s < |a| && a[s] != b[s]
  {
    if a[0] != b[0] {
      s := 0;
    } else {
      s := DistanceWitness(a[1..], b[1..]);
      s := s + 1;
    }
  }

  /** Corrupting between 1 and n symbols of a block always shows in a syndrome. */
  lemma {:induction false} CorruptionDetected(data: seq<byte>, n: nat, received: seq<byte>) returns (k: nat)
    requires |received| == |data| + n <= 255
    requires 1 <= Distance(Codeword(data, n), received) <= n
    ensures k < n && Eval(received, Exp(k)) != 0
  {
    var u := Codeword(data, n);
    if !exists k :: 0 <= k < n && Eval(received, Exp(k)) != 0 {
      var s := DistanceWitness(u, received);
      AddCancel(u[s], received[s]);
      forall k | 0 <= k < n ensures Eval(Sum(u, received), Exp(k)) == 0 {
        EvalSum(u, received, Exp(k));
        SyndromesVanish(data, n, k);
        AddZero(0);
      }
      MinimumWeight(Sum(u, received), n, s);
      DistanceIsWeight(u, received);
    }
    k :| 0 <= k < n && Eval(received, Exp(k)) != 0;
  }

  // ---- the encoder loop -------------------------------------------------------------------

  /** qrRS: builds the generator, then divides in place. */
  method QrRS(t: Tables, data: seq<byte>, n: nat) returns (ec: seq<byte>)
    requires t.Valid() && n <= 512
    ensures ec == Ecc(data, n)
  {
    var g := BuildGenerator(t, n);
    var msg := LoadMessage(data, n);
    ghost var m0 := data + Zeros(n);
    for i := 0 to |data|
      invariant msg[i..] == Reduce(m0, g, i)
      invariant t.Valid()
    {
      DivideStep(t, msg, g, i);
    }
    ec := msg[|data|..];
  }

  /** The message slice: the data with room for n remainder bytes. */
  method LoadMessage(data: seq<byte>, n: nat) returns (msg: array<byte>)
    ensures fresh(msg) && msg[..] == data + Zeros(n)
  {
    msg := new byte[|data| + n](_ => 0);
    for i := 0 to |data|
      invariant forall k :: 0 <= k < msg.Length ==> msg[k] == if k < i then data[k] else 0
    {
      msg[i] := data[i];
    }
  }

  method BuildGenerator(t: Tables, n: nat) returns (g: seq<byte>)
    requires t.Valid() && n <= 512
    ensures g == Generator(n)
  {
    g := [1];
    for i := 0 to n
      invariant g == Generator(i)
    {
      g := MultiplyByRoot(t, g, i);
    }
  }

  /** The inner generator loop: g * (x + qrExp[i]) accumulated into a fresh slice. */
  method MultiplyByRoot(t: Tables, g: seq<byte>, i: nat) returns (r: seq<byte>)
    requires t.Valid() && i < 512
    ensures r == TimesRoot(g, Exp(i))
  {
    var p := new byte[|g| + 1](_ => 0);
    ghost var hi, lo := g + [0], [0] + Scale(Exp(i), g);
    for j := 0 to |g|
      invariant forall k :: 0 <= k < j ==> p[k] == Add(hi[k], lo[k])
      invariant p[j] == lo[j]
      invariant forall k :: j < k < p.Length ==> p[k] == 0
    {
      var c := g[j];
      var d := t.QrMul(c, t.qrExp[i]);
      MulComm(c, Exp(i));
      AddComm(p[j], c);
      AddZero(d);
      AddComm(0, d);
      p[j] := Add(p[j], c);
      p[j + 1] := Add(p[j + 1], d);
    }
    AddZero(p[|g|]);
    r := p[..];
  }

  /** The body of the division loop at index i. */
  method DivideStep(t: Tables, msg: array<byte>, g: seq<byte>, i: nat)
    requires t.Valid() && msg != t.qrExp && msg != t.qrLog
    requires 1 <= |g| && i + |g| <= msg.Length
    modifies msg
    ensures msg[i + 1..] == DivStep(old(msg[i..]), g)
  {
    var c := msg[i];
    ghost var m := msg[i..];
    if c != 0 {
      for j := 1 to |g|
        invariant msg[i] == c
        invariant forall k :: 1 <= k < j ==> msg[i + k] == Add(m[k], Mul(c, g[k]))
        invariant forall k :: j <= k < |m| ==> msg[i + k] == m[k]
      {
        msg[i + j] := Add(msg[i + j], t.QrMul(c, g[j]));
      }
    } else {
      forall k | 1 <= k < |g| ensures Add(m[k], Mul(c, g[k])) == m[k] {
        MulZero(g[k]);
        AddZero(m[k]);
      }
    }
    var r := DivStep(m, g);
    forall k | 0 <= k < |m| - 1 ensures msg[i + 1..][k] == r[k] {
      assert msg[i + 1..][k] == msg[i + (k + 1)];
    }
  }
}
