/** Mixed-radix numerals, least significant digit first: the arithmetic behind every
    dense layout. A buffer offset is the value of the index digits, read in
    minor-to-major order, with the dimension sizes as radices. */
module MixedRadix {

  function Product(r: seq<nat>): nat {
    if r == [] then 1 else r[0] * Product(r[1..])
  }

  ghost predicate InRange(d: seq<int>, r: seq<nat>) {
    |d| == |r| && forall k :: 0 <= k < |d| ==> 0 <= d[k] < r[k]
  }

  ghost predicate AllPositive(r: seq<nat>) {
    forall k :: 0 <= k < |r| ==> r[k] > 0
  }

  function Value(d: seq<int>, r: seq<nat>): int
    requires |d| == |r|
  {
    if d == [] then 0 else d[0] + r[0] * Value(d[1..], r[1..])
  }

  function Digits(n: int, r: seq<nat>): (d: seq<int>)
    requires AllPositive(r)
    ensures |d| == |r|
    decreases |r|
  {
    if r == [] then [] else [n % r[0]] + Digits(n / r[0], r[1..])
  }

  // ---- arithmetic helpers ----

  lemma MulLe(a: int, b: int, c: int)
    requires 0 <= a && b <= c
    ensures a * b <= a * c
  {}

  lemma DivBound(n: int, a: nat, b: nat)
    requires 0 <= n < a * b && a > 0
    ensures 0 <= n / a < b
  {
    if n / a >= b { MulLe(a, b, n / a); }
  }

  lemma DivModUnique(q: int, r: int, a: nat)
    requires 0 <= r < a
    ensures (r + a * q) / a == q && (r + a * q) % a == r
  {
    var n := r + a * q;
    var e := n / a - q;
    assert n == a * (n / a) + n % a;
    assert a * (n / a) - a * q == a * e;
    if e >= 1 { MulLe(a, 1, e); }
    if e <= -1 { MulLe(a, e, -1); }
  }

  lemma DivDiv(n: int, a: nat, b: nat)
    requires 0 <= n && a > 0 && b > 0
    ensures a * b > 0 && (n / a) / b == n / (a * b)
  {
    assert a * b > 0 by { MulLe(a, 1, b); }
    var q, r := n / a, n % a;
    var s, t := q / b, q % b;
    assert n == r + a * q && q == t + b * s;
    assert n == (r + a * t) + (a * b) * s by { assert a * (b * s) == (a * b) * s; }
    assert 0 <= r + a * t < a * b by { MulLe(a, t, b - 1); MulLe(a, 0, t); }
    DivModUnique(s, r + a * t, a * b);
  }

  // ---- products ----

  lemma {:induction false} ProductConcat(a: seq<nat>, b: seq<nat>)
    ensures Product(a + b) == Product(a) * Product(b)
  {
    if a == [] {
      assert a + b == b;
    } else {
      assert (a + b)[1..] == a[1..] + b;
      ProductConcat(a[1..], b);
    }
  }

  lemma ProductStep(r: seq<nat>, k: nat)
    requires k < |r|
    ensures Product(r[..k + 1]) == Product(r[..k]) * r[k]
  {
    assert r[..k + 1] == r[..k] + [r[k]];
    ProductConcat(r[..k], [r[k]]);
    assert Product([r[k]]) == r[k];
  }

  lemma SizeOfTwo(dims: seq<nat>)
    requires |dims| == 2
    ensures Product(dims) == dims[0] * dims[1]
  {
    assert Product(dims[1..]) == dims[1];
  }

  lemma {:induction false} ProductPositive(r: seq<nat>)
    ensures Product(r) > 0 <==> AllPositive(r)
  {
    if r != [] {
      ProductPositive(r[1..]);
      assert AllPositive(r) <==> r[0] > 0 && AllPositive(r[1..]) by {
        if AllPositive(r[1..]) {
          assert forall k :: 1 <= k < |r| ==> r[k] == r[1..][k - 1];
        }
      }
    }
  }

  // ---- digits and values are mutually inverse ----

  lemma {:induction false} ValueBound(d: seq<int>, r: seq<nat>)
    requires InRange(d, r)
    ensures 0 <= Value(d, r) < Product(r)
  {
    if d != [] {
      ValueBound(d[1..], r[1..]);
      DigitBound(d[0], r[0], Value(d[1..], r[1..]), Product(r[1..]));
    }
  }

  lemma DigitBound(d: int, b: int, v: int, p: int)
    requires 0 <= d < b && 0 <= v < p
    ensures 0 <= d + b * v < b * p
  {
    MulLe(b, v, p - 1);
    MulLe(b, 0, v);
  }

  lemma {:induction false} DigitsOfValue(d: seq<int>, r: seq<nat>)
    requires InRange(d, r)
    ensures AllPositive(r) && Digits(Value(d, r), r) == d
  {
    if d != [] {
      DigitsOfValue(d[1..], r[1..]);
      assert AllPositive(r);
      DivModUnique(Value(d[1..], r[1..]), d[0], r[0]);
      assert d == [d[0]] + d[1..];
    }
  }

  lemma {:induction false} ValueOfDigits(n: int, r: seq<nat>)
    requires 0 <= n < Product(r)
    ensures AllPositive(r) && InRange(Digits(n, r), r) && Value(Digits(n, r), r) == n
    decreases |r|
  {
    ProductPositive(r);
    if r != [] {
      DivBound(n, r[0], Product(r[1..]));
      ValueOfDigits(n / r[0], r[1..]);
      PrependDigit(n, Digits(n / r[0], r[1..]), r);
    }
  }

  lemma PrependDigit(n: int, rest: seq<int>, r: seq<nat>)
    requires r != [] && r[0] > 0 && InRange(rest, r[1..]) && Value(rest, r[1..]) == n / r[0]
    ensures InRange([n % r[0]] + rest, r) && Value([n % r[0]] + rest, r) == n
  {
    var d := [n % r[0]] + rest;
    assert d[1..] == rest;
    forall k | 1 <= k < |d| ensures 0 <= d[k] < r[k] { assert d[k] == rest[k - 1] && r[k] == r[1..][k - 1]; }
  }

  /** Every digit in closed form. */
  lemma {:induction false} DigitAt(n: int, r: seq<nat>, k: nat)
    requires 0 <= n && AllPositive(r) && k < |r|
    ensures Product(r[..k]) > 0 && Digits(n, r)[k] == (n / Product(r[..k])) % r[k]
    decreases |r|
  {
    if k > 0 {
      DigitAt(n / r[0], r[1..], k - 1);
      assert r[..k][1..] == r[1..][..k - 1];
      DivDiv(n, r[0], Product(r[1..][..k - 1]));
    }
  }

  lemma ValueInjective(a: seq<int>, b: seq<int>, r: seq<nat>)
    requires InRange(a, r) && InRange(b, r) && Value(a, r) == Value(b, r)
    ensures a == b
  {
    DigitsOfValue(a, r);
    DigitsOfValue(b, r);
  }

  /** Changing digit `k` moves the value by the weight of that digit, the product of the
      radices below it. This is the stride of a dimension. */
  lemma {:induction false} ValueUpdate(d: seq<int>, r: seq<nat>, k: nat, x: int)
    requires |d| == |r| && k < |d|
    ensures Value(d[k := x], r) == Value(d, r) + (x - d[k]) * Product(r[..k])
  {
    var e := d[k := x];
    if k == 0 {
      assert e[1..] == d[1..];
    } else {
      assert e[1..] == d[1..][k - 1 := x];
      ValueUpdate(d[1..], r[1..], k - 1, x);
      assert r[..k][1..] == r[1..][..k - 1];
      ScaleDifference(r[0], d[0], Value(e[1..], r[1..]), Value(d[1..], r[1..]), x - d[k], Product(r[1..][..k - 1]));
    }
  }

  lemma ScaleDifference(b: int, d: int, u: int, v: int, x: int, w: int)
    requires u == v + x * w
    ensures d + b * u == d + b * v + x * (b * w)
  {}

  /** Splits one more digit off the tail of a partially summed value. */
  lemma ValueSplit(d: seq<int>, r: seq<nat>, k: nat)
    requires |d| == |r| && k < |d|
    ensures Product(r[..k]) * Value(d[k..], r[k..])
         == Product(r[..k]) * d[k] + Product(r[..k + 1]) * Value(d[k + 1..], r[k + 1..])
  {
    ProductStep(r, k);
    assert d[k..][1..] == d[k + 1..] && r[k..][1..] == r[k + 1..];
    var w, v := Product(r[..k]), Value(d[k + 1..], r[k + 1..]);
    MulDistribute(w, d[k], r[k], v);
  }

  lemma MulDistribute(w: int, a: int, b: int, v: int)
    ensures w * (a + b * v) == w * a + (w * b) * v
  {}

  /** Leading zeros do not count. */
  lemma {:induction false} ValuePadded(d: seq<int>, r: seq<nat>, k: nat)
    requires |d| == |r| && k <= |d| && forall j :: k <= j < |d| ==> d[j] == 0
    ensures Value(d, r) == Value(d[..k], r[..k])
  {
    if k == 0 {
      ValueOfZeros(d, r);
    } else {
      ValuePadded(d[1..], r[1..], k - 1);
      assert d[..k][1..] == d[1..][..k - 1] && r[..k][1..] == r[1..][..k - 1];
    }
  }

  lemma ValueOfZeros(d: seq<int>, r: seq<nat>)
    requires |d| == |r| && forall k :: 0 <= k < |d| ==> d[k] == 0
    ensures Value(d, r) == 0
  {}

  /** Values are ordered by their most significant difference. */
  lemma {:induction false} ValueOrder(a: seq<int>, b: seq<int>, r: seq<nat>, k: nat)
    requires InRange(a, r) && InRange(b, r) && k < |r|
    requires a[k] < b[k] && a[k + 1..] == b[k + 1..]
    ensures Value(a, r) < Value(b, r)
  {
    var va, vb := Value(a[1..], r[1..]), Value(b[1..], r[1..]);
    if k == 0 {
      assert a[1..] == b[1..];
    } else {
      assert a[1..][k..] == a[k + 1..] && b[1..][k..] == b[k + 1..];
      ValueOrder(a[1..], b[1..], r[1..], k - 1);
      HigherWins(a[0], b[0], r[0], va, vb);
    }
  }

  lemma HigherWins(a: int, b: int, r: int, u: int, v: int)
    requires 0 <= a < r && 0 <= b && u < v
    ensures a + r * u < b + r * v
  {
    MulLe(r, u + 1, v);
  }
}
