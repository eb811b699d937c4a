/** Positional number systems: the arithmetic that Base58, Z85 and the packed integers share.
    Sequences of digits are written most significant first. */
module Positional {

  function Pow(base: int, n: nat): int {
    if n == 0 then 1 else base * Pow(base, n - 1)
  }

  /** The number that `ds` denotes in `base`. */
  function Value(base: int, ds: seq<int>): int {
    if |ds| == 0 then 0 else Value(base, ds[..|ds| - 1]) * base + ds[|ds| - 1]
  }

  predicate InBase(base: int, ds: seq<int>) {
    forall i :: 0 <= i < |ds| ==> 0 <= ds[i] < base
  }

  /** The `len` low-order digits of `n`, padded with zeros on the left. */
  function Digits(base: int, n: int, len: nat): (ds: seq<int>)
    requires base >= 2
    ensures |ds| == len && InBase(base, ds)
    decreases len
  {
    if len == 0 then []
    else
      DivModBounds(base, n);
      Digits(base, n / base, len - 1) + [n % base]
  }

  /** The shortest nonempty sequence of digits that denotes `n`. */
  function Minimal(base: int, n: nat): (ds: seq<int>)
    requires base >= 2
    ensures ds != [] && InBase(base, ds)
    ensures |ds| == 1 || ds[0] != 0
    decreases n
  {
    if n < base then [n]
    else
      DivideShrinks(base, n);
      DivModBounds(base, n);
      Minimal(base, n / base) + [n % base]
  }

  lemma DivModBounds(base: int, n: int)
    requires base >= 1
    ensures n == (n / base) * base + n % base && 0 <= n % base < base
  {
  }

  lemma DivideShrinks(base: int, n: int)
    requires base >= 2 && n >= base
    ensures 0 < n / base < n
  {
    var q, r := n / base, n % base;
    assert n == base * q + r;
    if q <= 0 { MulMonotone(base, q, 0); }
    MulMonotone(q, 2, base);
  }

  lemma MulMonotone(a: int, x: int, y: int)
    requires a >= 0 && x <= y
    ensures a * x <= a * y
  {
  }

  lemma DivModUnique(base: int, q: int, r: int)
    requires base >= 1 && 0 <= r < base
    ensures (q * base + r) / base == q && (q * base + r) % base == r
  {
    var n := q * base + r;
    var q', r' := n / base, n % base;
    assert (q - q') * base == r' - r;
    if q > q' { MulMonotone(base, 1, q - q'); }
    if q < q' { MulMonotone(base, 1, q' - q); }
  }

  lemma PowPositive(base: int, n: nat)
    requires base >= 1
    ensures Pow(base, n) >= 1
  {
    if n > 0 {
      PowPositive(base, n - 1);
      MulMonotone(base, 1, Pow(base, n - 1));
    }
  }

  lemma {:induction false} PowAdd(base: int, m: nat, n: nat)
    ensures Pow(base, m + n) == Pow(base, m) * Pow(base, n)
  {
    if m > 0 {
      PowAdd(base, m - 1, n);
      var a, b := Pow(base, m - 1), Pow(base, n);
      assert base * (a * b) == (base * a) * b;
    }
  }

  lemma PowMonotone(base: int, m: nat, n: nat)
    requires base >= 1 && m <= n
    ensures Pow(base, m) <= Pow(base, n)
  {
    PowAdd(base, m, n - m);
    PowPositive(base, m);
    PowPositive(base, n - m);
    MulMonotone(Pow(base, m), 1, Pow(base, n - m));
  }

  lemma {:induction false} PowPow(base: int, m: nat, n: nat)
    ensures Pow(Pow(base, m), n) == Pow(base, m * n)
  {
    if n == 0 {
      assert m * n == 0;
    } else {
      PowPow(base, m, n - 1);
      assert m * n == m + m * (n - 1);
      PowAdd(base, m, m * (n - 1));
    }
  }

  lemma {:induction false} PowBaseStrict(a: int, b: int, n: nat)
    requires 1 <= a < b && n >= 1
    ensures Pow(a, n) < Pow(b, n)
  {
    if n == 1 {
      assert Pow(a, 1) == a * Pow(a, 0) && Pow(b, 1) == b * Pow(b, 0);
    } else {
      PowBaseStrict(a, b, n - 1);
      PowPositive(a, n - 1);
      MulMonotone(a, Pow(a, n - 1), Pow(b, n - 1));
      assert (b - a) * Pow(b, n - 1) > 0;
    }
  }

  lemma {:induction false} PowBaseMonotone(a: int, b: int, n: nat)
    requires 1 <= a <= b
    ensures Pow(a, n) <= Pow(b, n)
  {
    if a < b && n >= 1 { PowBaseStrict(a, b, n); }
  }

  lemma {:induction false} ValueConcat(base: int, a: seq<int>, b: seq<int>)
    ensures Value(base, a + b) == Value(base, a) * Pow(base, |b|) + Value(base, b)
  {
    if |b| == 0 {
      assert a + b == a;
    } else {
      var b' := b[..|b| - 1];
      assert (a + b)[..|a + b| - 1] == a + b';
      ValueConcat(base, a, b');
      var x, p, y := Value(base, a), Pow(base, |b'|), Value(base, b');
      assert (x * p + y) * base == x * (base * p) + y * base;
    }
  }

  lemma AppendDigitBound(base: int, v: int, d: int, p: int)
    requires 0 <= v < p && 0 <= d < base
    ensures 0 <= v * base + d < base * p
  {
    MulMonotone(base, v + 1, p);
    MulMonotone(base, 0, v);
  }

  lemma {:induction false} ValueBound(base: int, ds: seq<int>)
    requires base >= 1 && InBase(base, ds)
    ensures 0 <= Value(base, ds) < Pow(base, |ds|)
  {
    if |ds| > 0 {
      var ds' := ds[..|ds| - 1];
      ValueBound(base, ds');
      AppendDigitBound(base, Value(base, ds'), ds[|ds| - 1], Pow(base, |ds'|));
    }
  }

  /** Writing a number with enough digits and reading it back. */
  lemma {:induction false} ValueOfDigits(base: int, n: int, len: nat)
    requires base >= 2 && 0 <= n < Pow(base, len)
    ensures Value(base, Digits(base, n, len)) == n
    decreases len
  {
    if len > 0 {
      var ds := Digits(base, n, len);
      assert ds[..len - 1] == Digits(base, n / base, len - 1);
      var q, p := n / base, Pow(base, len - 1);
      DivModBounds(base, n);
      if q >= p { MulMonotone(base, p, q); }
      if q < 0 { MulMonotone(base, q, -1); }
      ValueOfDigits(base, q, len - 1);
    }
  }

  /** Reading digits and writing the number back. */
  lemma {:induction false} DigitsOfValue(base: int, ds: seq<int>)
    requires base >= 2 && InBase(base, ds)
    ensures Digits(base, Value(base, ds), |ds|) == ds
  {
    if |ds| > 0 {
      var ds' := ds[..|ds| - 1];
      DivModUnique(base, Value(base, ds'), ds[|ds| - 1]);
      DigitsOfValue(base, ds');
      assert ds == ds' + [ds[|ds| - 1]];
    }
  }

  lemma {:induction false} ValueOfMinimal(base: int, n: nat)
    requires base >= 2
    ensures Value(base, Minimal(base, n)) == n
    decreases n
  {
    if n < base {
      assert Value(base, [n]) == Value(base, [n][..0]) * base + n;
      assert [n][..0] == [];
    } else {
      DivideShrinks(base, n);
      DivModBounds(base, n);
      var q := n / base;
      ValueOfMinimal(base, q);
      assert Minimal(base, n)[..|Minimal(base, n)| - 1] == Minimal(base, q);
    }
  }

  /** A sequence without a superfluous leading zero is the minimal one for its value. */
  lemma {:induction false} MinimalOfValue(base: int, ds: seq<int>)
    requires base >= 2 && InBase(base, ds)
    requires ds != [] && (|ds| == 1 || ds[0] != 0)
    ensures 0 <= Value(base, ds)
    ensures Minimal(base, Value(base, ds)) == ds
    decreases |ds|
  {
    ValueBound(base, ds);
    var ds', d := ds[..|ds| - 1], ds[|ds| - 1];
    ValueBound(base, ds');
    if |ds| == 1 {
      assert Value(base, ds) == d;
    } else {
      LeadingDigitBound(base, ds');
      PowPositive(base, |ds'| - 1);
      MulMonotone(base, 1, Value(base, ds'));
      DivModUnique(base, Value(base, ds'), d);
      MinimalOfValue(base, ds');
      assert ds == ds' + [d];
    }
  }

  lemma {:induction false} LeadingDigitBound(base: int, ds: seq<int>)
    requires base >= 2 && InBase(base, ds) && ds != [] && ds[0] != 0
    ensures Value(base, ds) >= Pow(base, |ds| - 1)
  {
    assert ds == ds[..1] + ds[1..];
    ValueConcat(base, ds[..1], ds[1..]);
    assert ds[..1][..0] == [];
    assert Value(base, ds[..1]) == ds[0];
    ValueBound(base, ds[1..]);
    PowPositive(base, |ds| - 1);
    MulMonotone(Pow(base, |ds| - 1), 1, ds[0]);
  }

  /** A number has more than `k` digits exactly from base^k on. */
  lemma MinimalLength(base: int, n: nat, k: nat)
    requires base >= 2 && k >= 1
    ensures |Minimal(base, n)| > k <==> n >= Pow(base, k)
  {
    var ds := Minimal(base, n);
    ValueOfMinimal(base, n);
    ValueBound(base, ds);
    if |ds| > k {
      LeadingDigitBound(base, ds);
      PowMonotone(base, k, |ds| - 1);
    } else {
      PowMonotone(base, |ds|, k);
    }
  }

  function Zeros(n: nat): (ds: seq<int>)
    ensures |ds| == n && forall i :: 0 <= i < n ==> ds[i] == 0
  {
    seq(n, _ => 0)
  }

  lemma {:induction false} ValueOfZeros(base: int, n: nat)
    ensures Value(base, Zeros(n)) == 0
  {
    if n > 0 {
      assert Zeros(n)[..n - 1] == Zeros(n - 1);
      ValueOfZeros(base, n - 1);
    }
  }

  function Reversed<T>(s: seq<T>): (r: seq<T>)
    ensures |r| == |s| && forall i :: 0 <= i < |s| ==> r[i] == s[|s| - 1 - i]
  {
    if |s| == 0 then [] else Reversed(s[1..]) + [s[0]]
  }
}
