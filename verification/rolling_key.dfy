/** The hash key of a window: the numeric value of its last K digits, kept
    up to date by a rolling update as digits are read.

    Lemmas about `Value` and `KeyAfter` carry `{:induction false}` even when
    their proof is direct: an induction hypothesis Dafny would add on its own
    only feeds the solver more nonlinear arithmetic. */
module RollingKey {
  import opened DigitStream

  /** 10^k; the size of the key space for k-digit keys (K10). */
  function Pow10(k: nat): (r: nat)
    ensures r >= 1
  {
    if k == 0 then 1 else 10 * Pow10(k - 1)
  }

  /** The number whose decimal digits, most significant first, are `ds`. */
  function Value(ds: seq<Digit>): (v: nat)
    ensures v < Pow10(|ds|)
  {
    if |ds| == 0 then 0
    else
      var pre := Value(ds[..|ds| - 1]);
      assert pre * 10 <= (Pow10(|ds| - 1) - 1) * 10;
      pre * 10 + ds[|ds| - 1]
  }

  /** The key of window `w`: the value of its last `k` digits. */
  function KeyOf(w: seq<Digit>, k: nat): (key: nat)
    requires k <= |w|
    ensures key < Pow10(k)
  {
    Value(w[|w| - k..])
  }

  /** One rolling update `key = (key*10 + v) % K10`; the result is a valid
      key whatever `key` held before. */
  function KeyStep(key: nat, v: Digit, k10: nat): (r: nat)
    requires k10 >= 1
    ensures r < k10
  {
    (key * 10 + v) % k10
  }

  /** The key after feeding the digits `ds`, in order, to the rolling update,
      starting from `key`. */
  function KeyAfter(key: nat, ds: seq<Digit>, k10: nat): nat
    requires k10 >= 1
    decreases |ds|
  {
    if |ds| == 0 then key else KeyStep(KeyAfter(key, ds[..|ds| - 1], k10), ds[|ds| - 1], k10)
  }

  /** Computes 10^k the way the program does, by k multiplications. */
  method TenToThe(k: nat) returns (k10: nat)
    ensures k10 == Pow10(k)
  {
    k10 := 1;
    var i := 0;
    while i < k
      invariant 0 <= i <= k
      invariant k10 == Pow10(i)
    {
      k10 := k10 * 10;
      i := i + 1;
    }
  }

  /** After at least k updates the key is the value of the last k digits fed,
      whatever it held before: a stale key carried over from an earlier batch
      is flushed. */
  lemma {:induction false} KeyAfterSuffix(key: nat, ds: seq<Digit>, k: nat)
    requires k <= |ds| && |ds| > 0
    ensures KeyAfter(key, ds, Pow10(k)) == Value(ds[|ds| - k..])
    decreases |ds|
  {
    if k == 0 {
      var pre := ds[..|ds| - 1];
      assert KeyAfter(key, ds, 1) == (KeyAfter(key, pre, 1) * 10 + ds[|ds| - 1]) % 1;
    } else if |ds| == k {
      KeyAfterWhole(key, ds);
    } else {
      KeyAfterSuffix(key, ds[..|ds| - 1], k);
      KeyAfterSlide(key, ds, k);
    }
  }

  /** Feeding exactly k digits leaves their value, the old key having been
      shifted out entirely. */
  lemma {:induction false} KeyAfterWhole(key: nat, ds: seq<Digit>)
    requires |ds| > 0
    ensures KeyAfter(key, ds, Pow10(|ds|)) == Value(ds)
  {
    var m := Pow10(|ds|);
    KeyAfterIsMod(key, ds, m);
    ModMultipleAdd(key, m, Value(ds));
  }

  /** One more digit slides the k-digit window of the key by one. */
  lemma {:induction false} KeyAfterSlide(key: nat, ds: seq<Digit>, k: nat)
    requires 1 <= k < |ds|
    requires KeyAfter(key, ds[..|ds| - 1], Pow10(k)) == Value(ds[..|ds| - 1][|ds| - 1 - k..])
    ensures KeyAfter(key, ds, Pow10(k)) == Value(ds[|ds| - k..])
  {
    var m := Pow10(k);
    var pre := ds[..|ds| - 1];
    var v := ds[|ds| - 1];
    var w := pre[|pre| - k..];
    assert |w| == k;
    assert w == ds[..|ds| - 1][|ds| - 1 - k..];
    var prior := KeyAfter(key, pre, m);
    assert prior == Value(w);
    assert KeyAfter(key, ds, m) == KeyStep(prior, v, m);
    SlideValue(w, v);
    KeyStepIsMod(prior, v, m);
    SlideWindow(ds, k);
    assert w[1..] + [v] == ds[|ds| - k..];
  }

  lemma SlideWindow(ds: seq<Digit>, k: nat)
    requires 1 <= k < |ds|
    ensures ds[..|ds| - 1][|ds| - 1 - k..][1..] + [ds[|ds| - 1]] == ds[|ds| - k..]
  {
  }

  /** Shifting one digit into a k-digit key drops the oldest digit. */
  lemma {:induction false} SlideValue(w: seq<Digit>, v: Digit)
    requires |w| >= 1
    ensures (Value(w) * 10 + v) % Pow10(|w|) == Value(w[1..] + [v])
  {
    SlideSum(w, v);
    ModOfSplit(Value(w) * 10 + v, w[0], Pow10(|w|), Value(w[1..] + [v]));
  }

  /** Appending a digit to `w` splits into the leading digit, now weighing
      10^|w|, and the value of the remaining digits with the new one. */
  lemma {:induction false} SlideSum(w: seq<Digit>, v: Digit)
    requires |w| >= 1
    ensures Value(w) * 10 + v == w[0] * Pow10(|w|) + Value(w[1..] + [v])
    ensures Value(w[1..] + [v]) < Pow10(|w|)
  {
    var rest := w[1..];
    ValueHead(w);
    assert (rest + [v])[..|rest + [v]| - 1] == rest;
    ConsArith(w[0], Pow10(|rest|), Value(rest), v);
  }

  lemma KeyStepIsMod(key: nat, v: Digit, k10: nat)
    requires k10 >= 1
    ensures KeyStep(key, v, k10) == (key * 10 + v) % k10
  {
  }

  /** The leading digit of `w` weighs 10^(|w|-1). */
  lemma {:induction false} ValueHead(w: seq<Digit>)
    requires |w| >= 1
    ensures Value(w) == w[0] * Pow10(|w| - 1) + Value(w[1..])
  {
    assert w == [w[0]] + w[1..];
    ValueCons(w[0], w[1..]);
  }

  lemma {:induction false} ValueCons(d: Digit, rest: seq<Digit>)
    ensures Value([d] + rest) == d * Pow10(|rest|) + Value(rest)
    decreases |rest|
  {
    if |rest| == 0 {
      assert [d] + rest == [d];
      assert [d][..0] == [];
    } else {
      var r' := rest[..|rest| - 1];
      assert ([d] + rest)[..|rest|] == [d] + r';
      ValueCons(d, r');
      ConsArith(d, Pow10(|r'|), Value(r'), rest[|rest| - 1]);
    }
  }

  lemma ConsArith(d: nat, p: nat, r: nat, x: nat)
    ensures (d * p + r) * 10 + x == d * (10 * p) + (r * 10 + x)
  {
  }

  /** The key obtained incrementally is the full value taken modulo K10. */
  lemma {:induction false} KeyAfterIsMod(key: nat, ds: seq<Digit>, m: nat)
    requires m >= 1 && |ds| > 0
    ensures KeyAfter(key, ds, m) == (key * Pow10(|ds|) + Value(ds)) % m
    decreases |ds|
  {
    var pre := ds[..|ds| - 1];
    var v := ds[|ds| - 1];
    if |pre| == 0 {
      assert Value(ds) == v;
    } else {
      KeyAfterIsMod(key, pre, m);
      var x := key * Pow10(|pre|) + Value(pre);
      ModTimesTen(x, v, m);
      assert KeyAfter(key, ds, m) == ((x % m) * 10 + v) % m;
      assert Value(ds) == Value(pre) * 10 + v;
      assert Pow10(|ds|) == Pow10(|pre|) * 10;
      MulAssoc(key, Pow10(|pre|), 10);
      assert x * 10 + v == key * Pow10(|ds|) + Value(ds);
    }
  }

  /** Two digit strings of the same length with the same value are equal. */
  lemma {:induction false} ValueInjective(a: seq<Digit>, b: seq<Digit>)
    requires |a| == |b| && Value(a) == Value(b)
    ensures a == b
    decreases |a|
  {
    if |a| > 0 {
      var pa, pb := a[..|a| - 1], b[..|b| - 1];
      DivModDigit(Value(pa), a[|a| - 1]);
      DivModDigit(Value(pb), b[|b| - 1]);
      ValueInjective(pa, pb);
      assert a == pa + [a[|a| - 1]] && b == pb + [b[|b| - 1]];
    }
  }

  lemma MulAssoc(a: int, b: int, c: int)
    ensures a * (b * c) == (a * b) * c
  {
  }

  lemma ModMultipleAdd(q: nat, m: nat, y: nat)
    requires m >= 1 && y < m
    ensures (q * m + y) % m == y
  {
    ModUnique(q * m + y, m, q, y);
  }

  lemma ModOfSplit(x: nat, q: nat, m: nat, y: nat)
    requires m >= 1 && y < m && x == q * m + y
    ensures x % m == y
  {
    ModUnique(x, m, q, y);
  }

  /** Euclidean division has one quotient and one remainder. */
  lemma ModUnique(x: nat, m: nat, d: nat, r: nat)
    requires m >= 1 && r < m && x == d * m + r
    ensures x % m == r && x / m == d
  {
    var d', r' := x / m, x % m;
    if d' < d {
      MulDist(d, d', m);
      MulAtLeast(d - d', m);
      assert false;
    } else if d < d' {
      MulDist(d', d, m);
      MulAtLeast(d' - d, m);
      assert false;
    }
  }

  lemma MulDist(a: int, b: int, m: int)
    ensures a * m - b * m == (a - b) * m
  {
  }

  lemma MulAtLeast(a: int, m: nat)
    requires a >= 1
    ensures a * m >= m
  {
  }

  lemma ModTimesTen(x: nat, v: Digit, m: nat)
    requires m >= 1
    ensures ((x % m) * 10 + v) % m == (x * 10 + v) % m
  {
    var q := x / m;
    var r := x % m;
    assert x == q * m + r;
    assert x * 10 + v == (q * 10) * m + (r * 10 + v);
    ModShift(q * 10, m, r * 10 + v);
  }

  lemma ModShift(q: nat, m: nat, y: nat)
    requires m >= 1
    ensures (q * m + y) % m == y % m
  {
    var r := y % m;
    assert y == (y / m) * m + r;
    assert q * m + y == (q + y / m) * m + r;
    ModMultipleAdd(q + y / m, m, r);
  }

  lemma DivModDigit(x: nat, d: Digit)
    ensures (x * 10 + d) / 10 == x && (x * 10 + d) % 10 == d
  {
    ModMultipleAdd(x, 10, d);
  }
}
