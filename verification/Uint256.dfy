/** The multi-limb integer `base_uint` of uint256.h, for every number of limbs: each
    operation computes the matching integer operation modulo 2^(32 * WIDTH). */
module Uint256 {
  import opened Limbs

  //
  // Bits of limbs
  //

  lemma Pow2Times(m: nat, n: nat, a: nat, b: nat)
    requires Pow2(m) == a && Pow2(n) == b
    ensures Pow2(m + n) == a * b
  {
    Pow2Add(m, n);
  }

  lemma Pow2Is32()
    ensures Pow2(32) == BASE
  {
    assert Pow2(8) == 256;
    Pow2Times(8, 8, 256, 256);
    Pow2Times(16, 16, 65536, 65536);
  }

  /** The bitwise or of two naturals. */
  function BitOr(a: nat, b: nat): nat
    decreases a + b
  {
    if a == 0 && b == 0 then 0
    else (if a % 2 == 1 || b % 2 == 1 then 1 else 0) + 2 * BitOr(a / 2, b / 2)
  }

  lemma {:induction false} BitOrZero(b: nat)
    ensures BitOr(0, b) == b && BitOr(b, 0) == b
  {
    if b > 0 {
      BitOrZero(b / 2);
    }
  }

  /** Operands that share no bit position add up. */
  lemma {:induction false} BitOrDisjoint(x: nat, h: nat, s: nat)
    requires x < Pow2(s)
    ensures BitOr(x, Pow2(s) * h) == x + Pow2(s) * h
    ensures BitOr(Pow2(s) * h, x) == x + Pow2(s) * h
  {
    if s == 0 {
      BitOrZero(h);
    } else {
      var y := Pow2(s - 1) * h;
      assert Pow2(s) * h == 2 * y;
      BitOrDisjoint(x / 2, h, s - 1);
      assert 2 * y % 2 == 0 && 2 * y / 2 == y;
    }
  }

  //
  // Increment and decrement
  //

  function Incr(s: seq<Limb>): (r: seq<Limb>)
    ensures |r| == |s|
  {
    if s == [] then [] else if s[0] + 1 < BASE then [s[0] + 1] + s[1..] else [0] + Incr(s[1..])
  }

  function Decr(s: seq<Limb>): (r: seq<Limb>)
    ensures |r| == |s|
  {
    if s == [] then [] else if s[0] > 0 then [s[0] - 1] + s[1..] else [BASE - 1] + Decr(s[1..])
  }

  /** x is r plus q wraps of size p. */
  predicate Wraps(x: int, r: int, q: int, p: int) {
    x == r + q * p
  }

  /** r is x modulo 2^(32 * n), for any integer x. */
  ghost predicate IsMod(x: int, n: nat, r: int) {
    0 <= r < Pow(n) && exists q :: Wraps(x, r, q, Pow(n))
  }

  /** IsMod is the remainder. */
  lemma IsModMeaning(x: int, n: nat, r: int)
    ensures Pow(n) > 0
    ensures IsMod(x, n, r) <==> r == x % Pow(n)
  {
    PowPositive(n);
    var p := Pow(n);
    if IsMod(x, n, r) {
      var q :| Wraps(x, r, q, p);
      RemainderIs(x, p, r, q);
    } else if r == x % p {
      assert Wraps(x, r, x / p, p);
      assert false;
    }
  }

  lemma {:induction false} IncrValue(s: seq<Limb>)
    ensures Value(Incr(s)) == if Value(s) + 1 == Pow(|s|) then 0 else Value(s) + 1
  {
    ValueBound(s);
    if s != [] {
      IncrValue(s[1..]);
      ValueBound(s[1..]);
      assert Incr(s)[1..] == if s[0] + 1 < BASE then s[1..] else Incr(s[1..]);
    }
  }

  lemma {:induction false} DecrValue(s: seq<Limb>)
    ensures Value(Decr(s)) == if Value(s) == 0 then Pow(|s|) - 1 else Value(s) - 1
  {
    if s != [] {
      DecrValue(s[1..]);
      assert Decr(s)[1..] == if s[0] > 0 then s[1..] else Decr(s[1..]);
    }
  }

  /** Where the increment stops carrying fixes its result. */
  lemma {:induction false} IncrAt(s: seq<Limb>, r: seq<Limb>, i: nat)
    requires |r| == |s| && i < |s|
    requires forall j :: 0 <= j < i ==> s[j] == BASE - 1 && r[j] == 0
    requires r[i] == (s[i] + 1) % BASE && (r[i] == 0 ==> i == |s| - 1)
    requires forall j :: i < j < |s| ==> r[j] == s[j]
    ensures r == Incr(s)
  {
    if i > 0 {
      IncrAt(s[1..], r[1..], i - 1);
      assert r == [0] + r[1..];
    } else {
      assert r[1..] == s[1..];
      assert r == [r[0]] + r[1..];
    }
  }

  lemma {:induction false} DecrAt(s: seq<Limb>, r: seq<Limb>, i: nat)
    requires |r| == |s| && i < |s|
    requires forall j :: 0 <= j < i ==> s[j] == 0 && r[j] == BASE - 1
    requires r[i] == (s[i] - 1) % BASE && (r[i] == BASE - 1 ==> i == |s| - 1)
    requires forall j :: i < j < |s| ==> r[j] == s[j]
    ensures r == Decr(s)
  {
    if i > 0 {
      DecrAt(s[1..], r[1..], i - 1);
      assert r == [BASE - 1] + r[1..];
    } else {
      assert r[1..] == s[1..];
      assert r == [r[0]] + r[1..];
    }
  }

  lemma IncrMod(s: seq<Limb>)
    ensures IsMod(Value(s) + 1, |s|, Value(Incr(s)))
  {
    IncrValue(s);
    ValueBound(s);
    PowPositive(|s|);
    assert Wraps(Value(s) + 1, Value(Incr(s)), if Value(s) + 1 == Pow(|s|) then 1 else 0, Pow(|s|));
  }

  lemma DecrMod(s: seq<Limb>)
    ensures IsMod(Value(s) - 1, |s|, Value(Decr(s)))
  {
    DecrValue(s);
    ValueBound(s);
    PowPositive(|s|);
    assert Wraps(Value(s) - 1, Value(Decr(s)), if Value(s) == 0 then -1 else 0, Pow(|s|));
  }

  //
  // Addition, complement
  //

  /** Limbwise addition with carry. */
  function Sum(a: seq<Limb>, b: seq<Limb>, carry: nat): (r: seq<Limb>)
    requires |a| == |b| && carry <= 1
    ensures |r| == |a|
  {
    if a == [] then []
    else
      var n := carry + a[0] + b[0];
      [n % BASE] + Sum(a[1..], b[1..], n / BASE)
  }

  function CarryOut(a: seq<Limb>, b: seq<Limb>, carry: nat): (r: nat)
    requires |a| == |b| && carry <= 1
    ensures r <= 1
  {
    if a == [] then carry else CarryOut(a[1..], b[1..], (carry + a[0] + b[0]) / BASE)
  }

  lemma SumAt(x: seq<Limb>, y: seq<Limb>, i: nat, carry: nat)
    requires |x| == |y| && i < |x| && carry <= 1
    ensures var n := carry + x[i] + y[i];
      n / BASE <= 1 && Sum(x[i..], y[i..], carry) == [n % BASE] + Sum(x[i + 1..], y[i + 1..], n / BASE)
  {
    CarryBound(carry, x[i], y[i]);
    assert x[i..][1..] == x[i + 1..] && y[i..][1..] == y[i + 1..];
  }

  lemma CarryBound(carry: nat, a: Limb, b: Limb)
    requires carry <= 1
    ensures 0 <= (carry + a + b) / BASE <= 1 && 0 <= (carry + a + b) % BASE < BASE
  {
  }

  lemma CarryStep(n: nat, v: nat, sum: nat, c: nat, p: nat)
    requires v + n / BASE == sum + c * p
    ensures n + BASE * v == n % BASE + BASE * sum + c * (BASE * p)
  {
    assert c * (BASE * p) == BASE * (c * p);
  }

  lemma {:induction false} SumValue(a: seq<Limb>, b: seq<Limb>, carry: nat)
    requires |a| == |b| && carry <= 1
    ensures Value(a) + Value(b) + carry == Value(Sum(a, b, carry)) + CarryOut(a, b, carry) * Pow(|a|)
  {
    if a != [] {
      var n := carry + a[0] + b[0];
      var c := CarryOut(a, b, carry);
      SumValue(a[1..], b[1..], n / BASE);
      assert Sum(a, b, carry)[1..] == Sum(a[1..], b[1..], n / BASE);
      CarryStep(n, Value(a[1..]) + Value(b[1..]), Value(Sum(a[1..], b[1..], n / BASE)), c, Pow(|a| - 1));
    }
  }

  lemma SumMod(a: seq<Limb>, b: seq<Limb>)
    requires |a| == |b|
    ensures IsMod(Value(a) + Value(b), |a|, Value(Sum(a, b, 0)))
  {
    SumValue(a, b, 0);
    ValueBound(Sum(a, b, 0));
    assert Wraps(Value(a) + Value(b), Value(Sum(a, b, 0)), CarryOut(a, b, 0), Pow(|a|));
  }

  function Complement(s: seq<Limb>): (r: seq<Limb>)
    ensures |r| == |s|
  {
    seq(|s|, i requires 0 <= i < |s| => BASE - 1 - s[i])
  }

  lemma {:induction false} ComplementValue(s: seq<Limb>)
    ensures Value(Complement(s)) == Pow(|s|) - 1 - Value(s)
  {
    if s != [] {
      ComplementValue(s[1..]);
      assert Complement(s)[1..] == Complement(s[1..]);
    }
  }

  lemma NegateMod(s: seq<Limb>)
    ensures IsMod(0 - Value(s), |s|, Value(Incr(Complement(s))))
  {
    ComplementValue(s);
    IncrValue(Complement(s));
    ValueBound(s);
    var q := NegateWraps(Value(s), Value(Incr(Complement(s))), Pow(|s|));
  }

  lemma NegateWraps(v: nat, r: nat, p: nat) returns (q: int)
    requires v < p && r == if v == 0 then 0 else p - v
    ensures r < p && Wraps(0 - v, r, q, p)
  {
    q := if v == 0 then 0 else -1;
  }

  lemma WrapsTwice(v: int, w: int, nw: int, r: int, x: int, y: int, p: int)
    requires Wraps(v + nw, r, x, p) && Wraps(0 - w, nw, y, p)
    ensures Wraps(v - w, r, x + y, p)
  {
    assert (x + y) * p == x * p + y * p;
  }

  lemma SubtractMod(v: int, w: int, nw: int, n: nat, r: int)
    requires IsMod(v + nw, n, r) && IsMod(0 - w, n, nw)
    ensures IsMod(v - w, n, r)
  {
    var p := Pow(n);
    var x :| Wraps(v + nw, r, x, p);
    var y :| Wraps(0 - w, nw, y, p);
    WrapsTwice(v, w, nw, r, x, y, p);
  }

  //
  // Shifts
  //

  /** A limb array shifted left by s < 32 bits; `below` is the limb under the first. */
  function LeftLimbs(a: seq<Limb>, s: nat, below: Limb): (r: seq<Limb>)
    requires s < 32
    ensures |r| == |a|
  {
    if a == [] then [] else [LeftLimb(a[0], below, s)] + LeftLimbs(a[1..], s, a[0])
  }

  /** One limb of a left shift: the low bits of x moved up, the high bits of the limb below. */
  function LeftLimb(x: Limb, below: Limb, s: nat): Limb
    requires s < 32
  {
    LeftParts(x, below, s);
    x * Pow2(s) % BASE + below * Pow2(s) / BASE
  }

  lemma LeftParts(x: Limb, below: Limb, s: nat)
    requires s < 32
    ensures x * Pow2(s) % BASE + below * Pow2(s) / BASE < BASE
    ensures below * Pow2(s) / BASE < Pow2(s)
    ensures exists h: nat :: x * Pow2(s) % BASE == Pow2(s) * h
  {
    Pow2Is32();
    Pow2Add(s, 32 - s);
    HighPart(below, Pow2(s), Pow2(32 - s));
    LowPart(x, Pow2(s), Pow2(32 - s));
  }

  lemma Regroup(x: nat, m: nat, k: nat, q: nat, r: nat)
    requires x == q * k + r && r < k && m > 0
    ensures x * m == r * m + q * (m * k) && 0 <= r * m <= m * k - m
  {
    assert (q * k) * m == q * (m * k);
    MulStep(m, r, k);
  }

  lemma QuotientBelow(x: nat, m: nat, k: nat, q: nat, r: nat)
    requires x == q * k + r && x < m * k
    ensures q < m
  {
    assert (m - q) * k == m * k - q * k > 0;
  }

  lemma HighPart(x: Limb, m: nat, k: nat)
    requires m > 0 && k > 0 && m * k == BASE
    ensures x * m / BASE == x / k && x / k < m
  {
    var q: nat, r: nat := x / k, x % k;
    Regroup(x, m, k, q, r);
    RemainderIs(x * m, BASE, r * m, q);
    QuotientBelow(x, m, k, q, r);
  }

  lemma LowPart(x: Limb, m: nat, k: nat)
    requires m > 0 && k > 0 && m * k == BASE
    ensures x * m % BASE == m * (x % k) && m * (x % k) <= BASE - m
  {
    var q: nat, r: nat := x / k, x % k;
    Regroup(x, m, k, q, r);
    RemainderIs(x * m, BASE, r * m, q);
  }

  lemma QuotientBounds(x: nat, p: nat, q: int, r: int)
    requires x == q * p + r && 0 <= r < p
    ensures 0 <= q <= x
  {
    if q < 0 {
      MulAtLeast(-q, p);
    } else if q > 0 {
      MulAtLeast(p, q);
    }
  }

  lemma QuotientLimb(x: Limb, p: nat)
    requires p > 0
    ensures 0 <= x / p < BASE
  {
    QuotientBounds(x, p, x / p, x % p);
  }

  /** `>>` and `<<` on one limb. */
  function Lowered(x: Limb, s: nat): Limb {
    QuotientLimb(x, Pow2(s));
    x / Pow2(s)
  }

  function Raised(x: Limb, s: nat): Limb {
    x * Pow2(s) % BASE
  }

  /** What a limb pushes out at the top when shifted left by s. */
  function Spill(x: Limb, s: nat): nat
    requires s < 32
  {
    x * Pow2(s) / BASE
  }

  lemma {:induction false} LeftValue(a: seq<Limb>, s: nat, below: Limb)
    requires s < 32
    ensures Value(LeftLimbs(a, s, below)) + Pow(|a|) * Spill(if a == [] then below else a[|a| - 1], s)
         == Value(a) * Pow2(s) + Spill(below, s)
  {
    if a != [] {
      var x, t, m := a[0], a[1..], Pow2(s);
      var top := Spill(a[|a| - 1], s);
      LeftValue(t, s, x);
      assert t != [] ==> t[|t| - 1] == a[|a| - 1];
      assert LeftLimbs(a, s, below)[1..] == LeftLimbs(t, s, x);
      LeftStep(x, m, x * m % BASE, Spill(x, s), Spill(below, s), Value(t), Value(LeftLimbs(t, s, x)), Pow(|t|), top);
    }
  }

  lemma LeftStep(x: nat, m: nat, lo: nat, hi: nat, hb: nat, vt: nat, vr: nat, pt: nat, top: nat)
    requires x * m == lo + BASE * hi && vr + pt * top == vt * m + hi
    ensures (lo + hb + BASE * vr) + (BASE * pt) * top == (x + BASE * vt) * m + hb
  {
    assert (BASE * pt) * top == BASE * (pt * top);
    assert (x + BASE * vt) * m == x * m + BASE * (vt * m);
  }

  /** A limb array moved up by k whole limbs, the top ones dropped. */
  function UpLimbs(a: seq<Limb>, k: nat): (r: seq<Limb>)
    ensures |r| == |a|
  {
    seq(|a|, j requires 0 <= j < |a| => if j < k then 0 else a[j - k])
  }

  function Zeros(n: nat): (r: seq<Limb>)
    ensures |r| == n
  {
    seq(n, _ => 0)
  }

  lemma {:induction false} ZerosValue(n: nat)
    ensures Value(Zeros(n)) == 0
  {
    if n > 0 {
      ZerosValue(n - 1);
      assert Zeros(n)[1..] == Zeros(n - 1);
    }
  }

  lemma UpValue(a: seq<Limb>, k: nat) returns (q: int)
    ensures Wraps(Value(a) * Pow(k), Value(UpLimbs(a, k)), q, Pow(|a|))
  {
    if k >= |a| {
      q := UpValueAll(a, k);
    } else {
      q := UpValuePart(a, k);
    }
  }

  lemma UpValueAll(a: seq<Limb>, k: nat) returns (q: int)
    requires k >= |a|
    ensures Wraps(Value(a) * Pow(k), Value(UpLimbs(a, k)), q, Pow(|a|))
  {
    var n := |a|;
    assert UpLimbs(a, k) == Zeros(n);
    ZerosValue(n);
    PowAdd(n, k - n);
    UpAll(Value(a), Pow(n), Pow(k - n), Pow(k));
    q := Value(a) * Pow(k - n);
  }

  lemma UpValuePart(a: seq<Limb>, k: nat) returns (q: int)
    requires k < |a|
    ensures Wraps(Value(a) * Pow(k), Value(UpLimbs(a, k)), q, Pow(|a|))
  {
    var n := |a|;
    var low, top := a[..n - k], a[n - k..];
    assert a == low + top;
    ValueConcat(low, top);
    UpIsZerosAndLow(a, k);
    ValueConcat(Zeros(k), low);
    ZerosValue(k);
    PowAdd(n - k, k);
    UpPart(Value(low), Value(top), Pow(n - k), Pow(k), Pow(n));
    q := Value(top);
  }

  lemma UpIsZerosAndLow(a: seq<Limb>, k: nat)
    requires k < |a|
    ensures UpLimbs(a, k) == Zeros(k) + a[..|a| - k]
  {
  }

  lemma UpAll(v: nat, pn: nat, rest: nat, pk: nat)
    requires pk == pn * rest
    ensures Wraps(v * pk, 0, v * rest, pn)
  {
    assert v * (pn * rest) == (v * rest) * pn;
  }

  lemma UpPart(low: nat, top: nat, pl: nat, pk: nat, pn: nat)
    requires pn == pl * pk
    ensures Wraps((low + pl * top) * pk, pk * low, top, pn)
  {
    assert (low + pl * top) * pk == pk * low + top * (pl * pk);
  }

  /** 2^(32 k + s). */
  lemma {:induction false} Pow2Limbs(k: nat, s: nat)
    ensures Pow2(32 * k + s) == Pow(k) * Pow2(s)
  {
    if k > 0 {
      Pow2Limbs(k - 1, s);
      OneLimbUp(32 * (k - 1) + s);
      TimesBase(Pow(k - 1), Pow2(s));
    }
  }

  lemma OneLimbUp(n: nat)
    ensures Pow2(n + 32) == BASE * Pow2(n)
  {
    Pow2Is32();
    Pow2Add(32, n);
  }

  lemma TimesBase(p: nat, m: nat)
    ensures (BASE * p) * m == BASE * (p * m)
  {
  }

  /** The limbs a left shift leaves are the product modulo 2^(32 WIDTH). */
  lemma LeftShiftMod(a: seq<Limb>, shift: nat, k: nat, s: nat)
    requires s < 32 && shift == 32 * k + s
    ensures IsMod(Value(a) * Pow2(shift), |a|, Value(LeftLimbs(UpLimbs(a, k), s, 0)))
  {
    var q := UpValue(a, k);
    var t := LeftTop(UpLimbs(a, k), s);
    Pow2Limbs(k, s);
    var r := Value(LeftLimbs(UpLimbs(a, k), s, 0));
    ShiftWraps(Value(a), Pow(k), Pow2(s), Value(UpLimbs(a, k)), q, Pow(|a|), r, t);
    ValueBound(LeftLimbs(UpLimbs(a, k), s, 0));
  }

  lemma LeftTop(x: seq<Limb>, s: nat) returns (t: nat)
    requires s < 32
    ensures Value(LeftLimbs(x, s, 0)) + Pow(|x|) * t == Value(x) * Pow2(s)
  {
    LeftValue(x, s, 0);
    t := Spill(if x == [] then 0 else x[|x| - 1], s);
  }

  lemma ShiftWraps(v: nat, pk: nat, m: nat, x: nat, q: int, p: nat, r: nat, t: nat)
    requires Wraps(v * pk, x, q, p) && r + p * t == x * m
    ensures Wraps(v * (pk * m), r, q * m + t, p)
  {
    assert v * (pk * m) == (v * pk) * m == x * m + (q * p) * m;
    assert (q * p) * m + p * t == (q * m + t) * p;
  }

  /** One limb of a right shift: the high bits of x moved down, the low bits of the limb above. */
  function RightLimb(x: Limb, above: Limb, s: nat): Limb
    requires s < 32
  {
    RightParts(x, above, s);
    x / Pow2(s) + above * Pow2(32 - s) % BASE
  }

  lemma RightParts(x: Limb, above: Limb, s: nat)
    requires s < 32
    ensures above * Pow2(32 - s) % BASE == Pow2(32 - s) * (above % Pow2(s))
    ensures x / Pow2(s) < Pow2(32 - s)
    ensures 0 <= x / Pow2(s) + above * Pow2(32 - s) % BASE < BASE
  {
    Pow2Is32();
    Pow2Add(s, 32 - s);
    RightBound(x, above, Pow2(s), Pow2(32 - s));
  }

  lemma RightBound(x: Limb, above: Limb, m: nat, k: nat)
    requires m > 0 && k > 0 && m * k == BASE
    ensures above * k % BASE == k * (above % m) && x / m < k
    ensures 0 <= x / m + above * k % BASE < BASE
  {
    LowPart(above, k, m);
    HighPart(x, k, m);
    QuotientLimb(x, m);
  }

  function RightLimbs(a: seq<Limb>, s: nat): (r: seq<Limb>)
    requires s < 32
    ensures |r| == |a|
  {
    if a == [] then [] else [RightLimb(a[0], if |a| > 1 then a[1] else 0, s)] + RightLimbs(a[1..], s)
  }

  /** Shifting right by s < 32 bits divides, leaving the low bits of the first limb. */
  lemma {:induction false} RightValue(a: seq<Limb>, s: nat)
    requires s < 32
    ensures Value(a) == Pow2(s) * Value(RightLimbs(a, s)) + (if a == [] then 0 else a[0] % Pow2(s))
  {
    if a != [] {
      var x, t := a[0], a[1..];
      var above: Limb := if t == [] then 0 else t[0];
      RightValue(t, s);
      RightParts(x, above, s);
      Pow2Is32();
      Pow2Add(s, 32 - s);
      assert RightLimbs(a, s)[1..] == RightLimbs(t, s);
      RightStep(x, above, Pow2(s), Pow2(32 - s), Value(t), Value(RightLimbs(t, s)));
    }
  }

  lemma RightStep(x: nat, above: nat, m: nat, k: nat, vt: nat, vr: nat)
    requires m > 0 && m * k == BASE && vt == m * vr + above % m
    ensures x + BASE * vt == m * ((x / m + k * (above % m)) + BASE * vr) + x % m
  {
    var y := above % m;
    assert m * (k * y) == BASE * y by { assert m * (k * y) == (m * k) * y; }
    assert m * (BASE * vr) == BASE * (m * vr);
    assert x == m * (x / m) + x % m;
  }

  /** A limb array moved down by k whole limbs. */
  function DownLimbs(a: seq<Limb>, k: nat): (r: seq<Limb>)
    ensures |r| == |a|
  {
    seq(|a|, j requires 0 <= j < |a| => if j + k < |a| then a[j + k] else 0)
  }

  lemma DownValue(a: seq<Limb>, k: nat) returns (low: nat)
    ensures low < Pow(k) && Value(a) == Pow(k) * Value(DownLimbs(a, k)) + low
  {
    var n := |a|;
    if k >= n {
      assert DownLimbs(a, k) == Zeros(n);
      ZerosValue(n);
      low := Value(a);
      ValueBound(a);
      PowMonotone(n, k);
    } else {
      assert a == a[..k] + a[k..];
      ValueConcat(a[..k], a[k..]);
      DownIsTopAndZeros(a, k);
      ValueConcat(a[k..], Zeros(k));
      ZerosValue(k);
      ValueBound(a[..k]);
      low := Value(a[..k]);
    }
  }

  lemma DownIsTopAndZeros(a: seq<Limb>, k: nat)
    requires k < |a|
    ensures DownLimbs(a, k) == a[k..] + Zeros(k)
  {
  }

  lemma PowMonotone(n: nat, k: nat)
    requires n <= k
    ensures Pow(n) <= Pow(k)
  {
    PowAdd(n, k - n);
    PowPositive(k - n);
    PowPositive(n);
    MulAtLeast(Pow(k - n), Pow(n));
  }

  /** q is x divided by d, rounded down. */
  ghost predicate IsQuotient(x: nat, d: nat, q: nat) {
    exists r :: 0 <= r < d && Wraps(x, r, q, d)
  }

  /** The limbs a right shift leaves are the quotient by 2^shift. */
  lemma RightShiftQuotient(a: seq<Limb>, shift: nat, k: nat, s: nat)
    requires s < 32 && shift == 32 * k + s
    ensures IsQuotient(Value(a), Pow2(shift), Value(RightLimbs(DownLimbs(a, k), s)))
  {
    var low := DownValue(a, k);
    var x := DownLimbs(a, k);
    RightValue(x, s);
    var rest := if x == [] then 0 else x[0] % Pow2(s);
    Pow2Limbs(k, s);
    TwoQuotients(Value(a), Pow(k), Pow2(s), Value(x), Value(RightLimbs(x, s)), low, rest);
  }

  lemma TwoQuotients(v: nat, pk: nat, m: nat, x: nat, r: nat, low: nat, rest: nat)
    requires v == pk * x + low && low < pk && x == m * r + rest && rest < m
    ensures IsQuotient(v, pk * m, r)
  {
    assert pk * x == pk * (m * r) + pk * rest;
    assert pk * (m * r) == (pk * m) * r;
    MulStep(pk, rest, m);
    assert Wraps(v, pk * rest + low, r, pk * m);
  }

  lemma DifferentLimb(a: seq<Limb>, b: seq<Limb>, i: nat)
    requires |a| == |b| && i < |a| && a[i] != b[i]
    ensures Value(a) != Value(b)
  {
    if Value(a) == Value(b) {
      ValueInjective(a, b);
    }
  }

  /** Or-ing the two parts of a shifted limb puts it together, in either order. */
  lemma OrLeft(x: Limb, below: Limb, s: nat)
    requires s < 32
    ensures BitOr(Spill(below, s), Raised(x, s)) == LeftLimb(x, below, s)
    ensures Spill(below, s) < BASE
  {
    LeftParts(x, below, s);
    var h: nat :| Raised(x, s) == Pow2(s) * h;
    BitOrDisjoint(Spill(below, s), h, s);
  }

  lemma OrRight(x: Limb, above: Limb, s: nat)
    requires s < 32
    ensures BitOr(Lowered(x, s), Raised(above, 32 - s)) == RightLimb(x, above, s)
  {
    RightParts(x, above, s);
    BitOrDisjoint(Lowered(x, s), above % Pow2(s), 32 - s);
  }

  /** The first part or-ed into a zero limb. */
  lemma OrZero(x: Limb, s: nat)
    requires 0 < s < 32
    ensures BitOr(0, Lowered(x, 32 - s)) == Spill(x, s) && Spill(x, s) < BASE
  {
    SpillIs(x, s);
    BitOrZero(Lowered(x, 32 - s));
  }

  lemma SpillIs(x: Limb, s: nat)
    requires 0 < s < 32
    ensures Spill(x, s) == Lowered(x, 32 - s)
  {
    Pow2Is32();
    Pow2Add(s, 32 - s);
    HighPart(x, Pow2(s), Pow2(32 - s));
    MulAtLeast(Pow2(32 - s), Pow2(s));
  }

  lemma SpillNone(x: Limb)
    ensures Spill(x, 0) == 0
  {
    assert Pow2(0) == 1;
  }

  lemma LeftLimbZero(s: nat)
    requires s < 32
    ensures LeftLimb(0, 0, s) == 0
  {
    LeftParts(0, 0, s);
  }

  /** A limb before the part from above is or-ed in. */
  lemma RightLimbLow(x: Limb, s: nat)
    requires s < 32
    ensures RightLimb(x, 0, s) == Lowered(x, s)
  {
    RightParts(x, 0, s);
  }

  lemma RightLimbZero(s: nat)
    requires s < 32
    ensures RightLimb(0, 0, s) == 0
  {
    RightParts(0, 0, s);
  }

  /** Each limb of a shifted array. */
  lemma {:induction false} LeftLimbsAt(a: seq<Limb>, s: nat, below: Limb, j: nat)
    requires s < 32 && j < |a|
    ensures LeftLimbs(a, s, below)[j] == LeftLimb(a[j], if j == 0 then below else a[j - 1], s)
  {
    if j > 0 {
      LeftLimbsAt(a[1..], s, a[0], j - 1);
    }
  }

  lemma {:induction false} RightLimbsAt(a: seq<Limb>, s: nat, j: nat)
    requires s < 32 && j < |a|
    ensures RightLimbs(a, s)[j] == RightLimb(a[j], if j + 1 < |a| then a[j + 1] else 0, s)
  {
    if j > 0 {
      RightLimbsAt(a[1..], s, j - 1);
    }
  }

  /** The arithmetic of one shifted limb, by name, so that the loops need not look inside. */
  datatype LeftRule = LeftRule(spill: Limb -> nat, join: (Limb, Limb) -> Limb)

  type RightRule = (Limb, Limb) -> Limb

  ghost predicate LeftFollows(l: LeftRule, s: nat) {
    && s < 32
    && (forall x: Limb {:trigger Spill(x, s)} :: l.spill(x) == Spill(x, s))
    && (forall x: Limb, below: Limb {:trigger LeftLimb(x, below, s)} :: l.join(x, below) == LeftLimb(x, below, s))
  }

  ghost predicate RightFollows(r: RightRule, s: nat) {
    && s < 32
    && (forall x: Limb, above: Limb {:trigger RightLimb(x, above, s)} :: r(x, above) == RightLimb(x, above, s))
  }

  function LeftRuleFor(s: nat): LeftRule
    requires s < 32
  {
    LeftRule((x: Limb) => Spill(x, s), (x: Limb, below: Limb) => LeftLimb(x, below, s))
  }

  function RightRuleFor(s: nat): RightRule
    requires s < 32
  {
    (x: Limb, above: Limb) => RightLimb(x, above, s)
  }

  lemma LeftRuleFollows(s: nat)
    requires s < 32
    ensures LeftFollows(LeftRuleFor(s), s) && LeftRuleFor(s).spill(0) == 0 && LeftRuleFor(s).join(0, 0) == 0
  {
    LeftLimbZero(s);
  }

  lemma RightRuleFollows(s: nat)
    requires s < 32
    ensures RightFollows(RightRuleFor(s), s) && RightRuleFor(s)(0, 0) == 0
  {
    RightLimbZero(s);
  }

  /** The limb above; beyond the end there are zeros. */
  function Above(y: seq<Limb>, j: nat): Limb
    requires j < |y|
  {
    if j + 1 < |y| then y[j + 1] else 0
  }

  /** The limb below; before the first there are zeros. */
  function Previous(a: seq<Limb>, i: nat): Limb
    requires i <= |a|
  {
    if i == 0 then 0 else a[i - 1]
  }

  /** r is what moving a up by k limbs and joining neighbours gives. */
  ghost predicate LeftPlan(a: seq<Limb>, k: nat, l: LeftRule, r: seq<Limb>)
    requires |a| == |r|
  {
    && (forall j :: 0 <= j < |r| && j < k ==> r[j] == 0)
    && (forall i {:trigger Previous(a, i)} :: 0 <= i < |a| && i + k < |r| ==> r[i + k] == l.join(a[i], Previous(a, i)))
  }

  lemma LeftPlanned(a: seq<Limb>, k: nat, s: nat)
    requires s < 32
    ensures LeftPlan(a, k, LeftRuleFor(s), LeftLimbs(UpLimbs(a, k), s, 0))
  {
    var x, r := UpLimbs(a, k), LeftLimbs(UpLimbs(a, k), s, 0);
    LeftLimbZero(s);
    forall j | 0 <= j < |r| && j < k ensures r[j] == 0 {
      LeftLimbsAt(x, s, 0, j);
    }
    forall i | 0 <= i < |a| && i + k < |r|
      ensures r[i + k] == LeftRuleFor(s).join(a[i], Previous(a, i))
    {
      LeftLimbsAt(x, s, 0, i + k);
    }
  }

  lemma RightByRule(y: seq<Limb>, s: nat, r: seq<Limb>)
    requires s < 32 && |r| == |y|
    requires forall j :: 0 <= j < |y| ==> r[j] == RightRuleFor(s)(y[j], Above(y, j))
    ensures r == RightLimbs(y, s)
  {
    forall j | 0 <= j < |y| ensures r[j] == RightLimbs(y, s)[j] {
      RightLimbsAt(y, s, j);
      assert r[j] == RightRuleFor(s)(y[j], Above(y, j));
    }
  }

  /** y is a moved down by k limbs. */
  ghost predicate MovedDown(a: seq<Limb>, k: nat, y: seq<Limb>)
    requires |a| == |y|
  {
    && (forall j :: 0 <= j < |y| && j + k >= |y| ==> y[j] == 0)
    && (forall i :: k <= i < |a| ==> y[i - k] == a[i])
  }

  /** Without a bit shift nothing comes down from the limb above. */
  lemma RightWhole(x: Limb, above: Limb)
    ensures RightLimb(x, above, 0) == RightLimb(x, 0, 0)
  {
    RightParts(x, above, 0);
    RightParts(x, 0, 0);
    assert Pow2(0) == 1;
  }

  //
  // The object
  //

  /** `base_uint`: an array of limbs, least significant first. */
  class BaseUint {
    const pn: array<Limb>

    ghost predicate Valid() {
      pn.Length > 0
    }

    ghost function Int(): nat
      reads pn
    {
      Value(pn[..])
    }

    constructor (width: nat)
      requires width > 0
      ensures Valid() && pn.Length == width && fresh(pn)
    {
      pn := new Limb[width](_ => 0);
    }

    /** Prefix `++`. */
    method Increment()
      requires Valid()
      modifies pn
      ensures pn[..] == Incr(old(pn[..])) && IsMod(old(Int()) + 1, pn.Length, Int())
    {
      ghost var s := pn[..];
      var i := 0;
      pn[0] := (pn[0] + 1) % BASE;
      while pn[i] == 0 && i < pn.Length - 1
        invariant 0 <= i < pn.Length
        invariant pn[i] == (s[i] + 1) % BASE
        invariant forall j :: 0 <= j < i ==> s[j] == BASE - 1 && pn[j] == 0
        invariant forall j :: i < j < pn.Length ==> pn[j] == s[j]
      {
        i := i + 1;
        pn[i] := (pn[i] + 1) % BASE;
      }
      IncrAt(s, pn[..], i);
      IncrMod(s);
    }

    /** Prefix `--`. */
    method Decrement()
      requires Valid()
      modifies pn
      ensures pn[..] == Decr(old(pn[..])) && IsMod(old(Int()) - 1, pn.Length, Int())
    {
      ghost var s := pn[..];
      var i := 0;
      pn[0] := (pn[0] - 1) % BASE;
      while pn[i] == BASE - 1 && i < pn.Length - 1
        invariant 0 <= i < pn.Length
        invariant pn[i] == (s[i] - 1) % BASE
        invariant forall j :: 0 <= j < i ==> s[j] == 0 && pn[j] == BASE - 1
        invariant forall j :: i < j < pn.Length ==> pn[j] == s[j]
      {
        i := i + 1;
        pn[i] := (pn[i] - 1) % BASE;
      }
      DecrAt(s, pn[..], i);
      DecrMod(s);
    }

    /** `+=`; the operand may be the object itself. */
    method AddAssign(b: BaseUint)
      requires Valid() && b.pn.Length == pn.Length
      modifies pn
      ensures IsMod(old(Int()) + old(b.Int()), pn.Length, Int())
    {
      ghost var x, y := pn[..], b.pn[..];
      AddLimbs(b);
      SumMod(x, y);
    }

    method AddLimbs(b: BaseUint)
      requires Valid() && b.pn.Length == pn.Length
      modifies pn
      ensures pn[..] == Sum(old(pn[..]), old(b.pn[..]), 0)
    {
      ghost var x, y := pn[..], b.pn[..];
      var carry: nat := 0;
      ghost var rest := Sum(x, y, 0);
      assert x[0..] == x && y[0..] == y;
      for i := 0 to pn.Length
        invariant carry <= 1 && |rest| == pn.Length - i && rest == Sum(x[i..], y[i..], carry)
        invariant forall j :: i <= j < pn.Length ==> pn[j] == x[j] && b.pn[j] == y[j]
        invariant Sum(x, y, 0) == pn[..i] + rest
      {
        SumAt(x, y, i, carry);
        carry := AddLimb(b, i, carry, rest);
        rest := rest[1..];
      }
    }

    /** One limb of the sum; `rest` is what the sum has from this limb on. */
    method AddLimb(b: BaseUint, i: nat, carry0: nat, ghost rest: seq<Limb>) returns (carry: nat)
      requires Valid() && b.pn.Length == pn.Length && i < pn.Length && carry0 <= 1
      requires |rest| == pn.Length - i && rest[0] == (carry0 + pn[i] + b.pn[i]) % BASE
      modifies pn
      ensures carry == old((carry0 + pn[i] + b.pn[i]) / BASE)
      ensures pn[..i + 1] + rest[1..] == old(pn[..i]) + rest
      ensures forall j :: i < j < pn.Length ==> pn[j] == old(pn[j]) && b.pn[j] == old(b.pn[j])
    {
      ghost var done := pn[..i];
      CarryBound(carry0, pn[i], b.pn[i]);
      var n := carry0 + pn[i] + b.pn[i];
      pn[i] := n % BASE;
      carry := n / BASE;
      assert pn[..i + 1] == done + [rest[0]];
    }

    /** Unary minus: complement and add one. */
    method Negate() returns (ret: BaseUint)
      requires Valid()
      ensures fresh(ret) && fresh(ret.pn) && ret.Valid() && ret.pn.Length == pn.Length
      ensures IsMod(0 - Int(), pn.Length, ret.Int())
    {
      ret := new BaseUint(pn.Length);
      for i := 0 to pn.Length
        invariant forall j :: 0 <= j < i ==> ret.pn[j] == BASE - 1 - pn[j]
      {
        ret.pn[i] := BASE - 1 - pn[i];
      }
      assert ret.pn[..] == Complement(pn[..]);
      ret.Increment();
      NegateMod(pn[..]);
    }

    /** `-=`: add the negation. */
    method SubAssign(b: BaseUint)
      requires Valid() && b.pn.Length == pn.Length
      modifies pn
      ensures IsMod(old(Int()) - old(b.Int()), pn.Length, Int())
    {
      ghost var v, w := Int(), b.Int();
      var minus := b.Negate();
      ghost var nw := minus.Int();
      AddAssign(minus);
      SubtractMod(v, w, nw, pn.Length, Int());
    }

    method Clear()
      requires Valid()
      modifies pn
      ensures forall j :: 0 <= j < pn.Length ==> pn[j] == 0
    {
      for i := 0 to pn.Length
        invariant forall j :: 0 <= j < i ==> pn[j] == 0
      {
        pn[i] := 0;
      }
    }

    /** The first `|=` of the `<<=` loop, into a limb that is still zero. */
    method OrSpill(at: nat, x: Limb, s: nat, ghost l: LeftRule)
      requires Valid() && at < pn.Length && pn[at] == 0 && LeftFollows(l, s)
      modifies pn
      ensures pn[at] == l.spill(x) && forall j :: 0 <= j < pn.Length && j != at ==> pn[j] == old(pn[j])
    {
      ghost var spilled := Spill(x, s);
      assert l.spill(x) == spilled;
      if s != 0 {
        OrZero(x, s);
        pn[at] := BitOr(pn[at], Lowered(x, 32 - s));
      } else {
        SpillNone(x);
      }
    }

    /** The second `|=`, which completes a limb. */
    method OrShifted(at: nat, x: Limb, ghost below: Limb, s: nat, ghost l: LeftRule)
      requires Valid() && at < pn.Length && pn[at] == l.spill(below) && LeftFollows(l, s)
      modifies pn
      ensures pn[at] == l.join(x, below) && forall j :: 0 <= j < pn.Length && j != at ==> pn[j] == old(pn[j])
    {
      ghost var spilled, joined := Spill(below, s), LeftLimb(x, below, s);
      OrLeft(x, below, s);
      pn[at] := BitOr(pn[at], Raised(x, s));
    }

    /** What one round of the `<<=` loop does to the limbs from `at` on. */
    method LeftRound(at: nat, limb: Limb, s: nat, ghost below: Limb, ghost l: LeftRule)
      requires Valid() && LeftFollows(l, s)
      requires at < pn.Length ==> pn[at] == l.spill(below)
      requires at + 1 < pn.Length ==> pn[at + 1] == 0
      modifies pn
      ensures at < pn.Length ==> pn[at] == l.join(limb, below)
      ensures at + 1 < pn.Length ==> pn[at + 1] == l.spill(limb)
      ensures forall j :: 0 <= j < pn.Length && j != at && j != at + 1 ==> pn[j] == old(pn[j])
    {
      if at + 1 < pn.Length {
        OrSpill(at + 1, limb, s, l);
      }
      if at < pn.Length {
        assert pn[at] == old(pn[at]);
        OrShifted(at, limb, below, s, l);
      }
    }

    /** The limbs below `at` are done, and `below` has spilled into the one at `at`. */
    ghost predicate LeftDone(at: nat, below: Limb, l: LeftRule, r: seq<Limb>)
      reads pn
    {
      && |r| == pn.Length
      && (forall j :: 0 <= j < pn.Length && j < at ==> pn[j] == r[j])
      && (at < pn.Length ==> pn[at] == l.spill(below))
      && (forall j :: at < j < pn.Length ==> pn[j] == 0)
    }

    method LeftAdvance(at: nat, limb: Limb, s: nat, ghost below: Limb, ghost l: LeftRule, ghost r: seq<Limb>)
      requires Valid() && LeftFollows(l, s) && LeftDone(at, below, l, r)
      requires at < pn.Length ==> r[at] == l.join(limb, below)
      modifies pn
      ensures LeftDone(at + 1, limb, l, r)
    {
      LeftRound(at, limb, s, below, l);
    }

    /** The main loop of `<<=`: each limb is or-ed into two places. */
    method MergeLeft(a: seq<Limb>, k: nat, s: nat, ghost l: LeftRule, ghost r: seq<Limb>)
      requires Valid() && |a| == |r| == pn.Length && LeftFollows(l, s) && l.spill(0) == 0 && LeftPlan(a, k, l, r)
      requires forall j :: 0 <= j < pn.Length ==> pn[j] == 0
      modifies pn
      ensures pn[..] == r
    {
      for i := 0 to pn.Length
        invariant LeftDone(i + k, Previous(a, i), l, r)
      {
        assert i + k < pn.Length ==> r[i + k] == l.join(a[i], Previous(a, i));
        LeftAdvance(i + k, a[i], s, Previous(a, i), l, r);
      }
    }

    /** `<<=`, for every shift amount. */
    method ShiftLeft(shift: nat)
      requires Valid()
      modifies pn
      ensures IsMod(old(Int()) * Pow2(shift), pn.Length, Int())
    {
      var a := pn[..];
      Clear();
      var k, s := shift / 32, shift % 32;
      ghost var l, r := LeftRuleFor(s), LeftLimbs(UpLimbs(a, k), s, 0);
      LeftRuleFollows(s);
      LeftPlanned(a, k, s);
      MergeLeft(a, k, s, l, r);
      assert shift == 32 * k + s;
      LeftShiftMod(a, shift, k, s);
    }

    /** The first `|=` of the `>>=` loop, which completes the limb below. */
    method OrCarried(at: nat, ghost x: Limb, above: Limb, s: nat, ghost r: RightRule)
      requires Valid() && at < pn.Length && pn[at] == r(x, 0) && RightFollows(r, s)
      modifies pn
      ensures pn[at] == r(x, above) && forall j :: 0 <= j < pn.Length && j != at ==> pn[j] == old(pn[j])
    {
      ghost var before, joined := RightLimb(x, 0, s), RightLimb(x, above, s);
      RightLimbLow(x, s);
      OrRight(x, above, s);
      if s != 0 {
        pn[at] := BitOr(pn[at], Raised(above, 32 - s));
      } else {
        RightWhole(x, above);
      }
    }

    method OrLowered(at: nat, x: Limb, s: nat, ghost r: RightRule)
      requires Valid() && at < pn.Length && pn[at] == 0 && RightFollows(r, s)
      modifies pn
      ensures pn[at] == r(x, 0) && forall j :: 0 <= j < pn.Length && j != at ==> pn[j] == old(pn[j])
    {
      ghost var joined := RightLimb(x, 0, s);
      BitOrZero(Lowered(x, s));
      RightLimbLow(x, s);
      pn[at] := BitOr(pn[at], Lowered(x, s));
    }

    /** What one round of the `>>=` loop does to the limbs around `at`. */
    method RightRound(at: int, limb: Limb, s: nat, ghost y: seq<Limb>, ghost r: RightRule)
      requires Valid() && at < |y| == pn.Length && RightFollows(r, s)
      requires at >= 0 ==> y[at] == limb && pn[at] == 0
      requires at - 1 >= 0 ==> pn[at - 1] == r(y[at - 1], 0)
      modifies pn
      ensures at - 1 >= 0 ==> pn[at - 1] == r(y[at - 1], limb)
      ensures at >= 0 ==> pn[at] == r(limb, 0)
      ensures forall j :: 0 <= j < pn.Length && j != at && j != at - 1 ==> pn[j] == old(pn[j])
    {
      if at - 1 >= 0 {
        OrCarried(at - 1, y[at - 1], limb, s, r);
      }
      if at >= 0 {
        OrLowered(at, limb, s, r);
      }
    }

    /** The main loop of `>>=`. */
    method MergeRight(a: seq<Limb>, k: nat, s: nat, ghost y: seq<Limb>, ghost r: RightRule)
      requires Valid() && |a| == |y| == pn.Length && RightFollows(r, s) && MovedDown(a, k, y) && r(0, 0) == 0
      requires forall j :: 0 <= j < pn.Length ==> pn[j] == 0
      modifies pn
      ensures forall j :: 0 <= j < pn.Length ==> pn[j] == r(y[j], Above(y, j))
    {
      for i := 0 to pn.Length
        invariant forall j :: 0 <= j < i - k - 1 ==> pn[j] == r(y[j], Above(y, j))
        invariant 0 <= i - k - 1 ==> pn[i - k - 1] == r(y[i - k - 1], 0)
        invariant forall j :: 0 <= j < pn.Length && i - k <= j ==> pn[j] == 0
      {
        RightRound(i - k, a[i], s, y, r) by {
          assert i - k >= 0 ==> y[i - k] == a[i];
        }
        assert i - k - 1 >= 0 ==> Above(y, i - k - 1) == a[i];
      }
    }

    /** `>>=`, for every shift amount. */
    method ShiftRight(shift: nat)
      requires Valid()
      modifies pn
      ensures IsQuotient(old(Int()), Pow2(shift), Int())
    {
      var a := pn[..];
      Clear();
      var k, s := shift / 32, shift % 32;
      ghost var y, r := DownLimbs(a, k), RightRuleFor(s);
      RightRuleFollows(s);
      MergeRight(a, k, s, y, r);
      RightByRule(y, s, pn[..]);
      assert pn[..] == RightLimbs(y, s) && shift == 32 * k + s;
      RightShiftQuotient(a, shift, k, s);
    }

    /** `<`: decide at the most significant differing limb. */
    method Less(b: BaseUint) returns (r: bool)
      requires Valid() && b.pn.Length == pn.Length
      ensures r <==> Int() < b.Int()
    {
      var i := pn.Length - 1;
      while i >= 0
        invariant -1 <= i < pn.Length
        invariant pn[..][i + 1..] == b.pn[..][i + 1..]
      {
        if pn[i] < b.pn[i] {
          TopLimbDecides(pn[..], b.pn[..], i);
          return true;
        } else if pn[i] > b.pn[i] {
          TopLimbDecides(b.pn[..], pn[..], i);
          return false;
        }
        i := i - 1;
      }
      assert pn[..][i + 1..] == pn[..] && b.pn[..][i + 1..] == b.pn[..];
      return false;
    }

    /** `<=`. */
    method LessOrEqual(b: BaseUint) returns (r: bool)
      requires Valid() && b.pn.Length == pn.Length
      ensures r <==> Int() <= b.Int()
    {
      var i := pn.Length - 1;
      while i >= 0
        invariant -1 <= i < pn.Length
        invariant pn[..][i + 1..] == b.pn[..][i + 1..]
      {
        if pn[i] < b.pn[i] {
          TopLimbDecides(pn[..], b.pn[..], i);
          return true;
        } else if pn[i] > b.pn[i] {
          TopLimbDecides(b.pn[..], pn[..], i);
          return false;
        }
        i := i - 1;
      }
      assert pn[..][i + 1..] == pn[..] && b.pn[..][i + 1..] == b.pn[..];
      return true;
    }

    /** `>`. */
    method Greater(b: BaseUint) returns (r: bool)
      requires Valid() && b.pn.Length == pn.Length
      ensures r <==> Int() > b.Int()
    {
      var i := pn.Length - 1;
      while i >= 0
        invariant -1 <= i < pn.Length
        invariant pn[..][i + 1..] == b.pn[..][i + 1..]
      {
        if pn[i] > b.pn[i] {
          TopLimbDecides(b.pn[..], pn[..], i);
          return true;
        } else if pn[i] < b.pn[i] {
          TopLimbDecides(pn[..], b.pn[..], i);
          return false;
        }
        i := i - 1;
      }
      assert pn[..][i + 1..] == pn[..] && b.pn[..][i + 1..] == b.pn[..];
      return false;
    }

    /** `>=`. */
    method GreaterOrEqual(b: BaseUint) returns (r: bool)
      requires Valid() && b.pn.Length == pn.Length
      ensures r <==> Int() >= b.Int()
    {
      var i := pn.Length - 1;
      while i >= 0
        invariant -1 <= i < pn.Length
        invariant pn[..][i + 1..] == b.pn[..][i + 1..]
      {
        if pn[i] > b.pn[i] {
          TopLimbDecides(b.pn[..], pn[..], i);
          return true;
        } else if pn[i] < b.pn[i] {
          TopLimbDecides(pn[..], b.pn[..], i);
          return false;
        }
        i := i - 1;
      }
      assert pn[..][i + 1..] == pn[..] && b.pn[..][i + 1..] == b.pn[..];
      return true;
    }

    /** `==`. */
    method Equal(b: BaseUint) returns (r: bool)
      requires Valid() && b.pn.Length == pn.Length
      ensures r <==> Int() == b.Int()
    {
      for i := 0 to pn.Length
        invariant forall j :: 0 <= j < i ==> pn[j] == b.pn[j]
      {
        if pn[i] != b.pn[i] {
          DifferentLimb(pn[..], b.pn[..], i);
          return false;
        }
      }
      assert pn[..] == b.pn[..];
      return true;
    }
  }
}
