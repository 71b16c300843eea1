/**
 * Unsigned big integers and their positional representations. All three
 * ports read a chunk as a big-endian unsigned integer and write it out in
 * base 62, most significant digit first; the same functions serve base 256
 * (bytes) and base 62 (digits).
 */
module Radix {

  function Min(a: nat, b: nat): nat {
    if a <= b then a else b
  }

  function Pow(b: nat, e: nat): (r: nat)
    ensures b >= 1 ==> r >= 1
  {
    if e == 0 then 1 else b * Pow(b, e - 1)
  }

  lemma MulAssoc(x: int, y: int, z: int)
    ensures x * (y * z) == (x * y) * z
  {
  }

  lemma {:induction false} PowAdd(b: nat, m: nat, n: nat)
    ensures Pow(b, m + n) == Pow(b, m) * Pow(b, n)
  {
    if m > 0 {
      PowAdd(b, m - 1, n);
      var p, q := Pow(b, m - 1), Pow(b, n);
      assert Pow(b, m + n) == b * Pow(b, m - 1 + n) == b * (p * q);
      MulAssoc(b, p, q);
    }
  }

  lemma {:induction false} PowPow(b: nat, m: nat, n: nat)
    ensures Pow(Pow(b, m), n) == Pow(b, m * n)
  {
    if n > 0 {
      PowPow(b, m, n - 1);
      PowAdd(b, m, m * (n - 1));
      assert m + m * (n - 1) == m * n;
    }
  }

  /** A larger exponent gives a strictly larger power. */
  lemma {:induction false} PowStrictlyIncreasing(b: nat, m: nat, n: nat)
    requires b >= 2 && m < n
    ensures Pow(b, m) < Pow(b, n)
  {
    if n - 1 > m {
      PowStrictlyIncreasing(b, m, n - 1);
    }
    assert Pow(b, n) == b * Pow(b, n - 1);
    assert Pow(b, m) <= Pow(b, n - 1);
  }

  lemma PowMonotone(b: nat, m: nat, n: nat)
    requires b >= 2 && m <= n
    ensures Pow(b, m) <= Pow(b, n)
  {
    if m < n {
      PowStrictlyIncreasing(b, m, n);
    }
  }

  lemma MulLeft(x: int, y: int, z: nat)
    requires x <= y
    ensures z * x <= z * y
  {
  }

  lemma MulStrict(x: int, y: int, z: nat)
    requires x < y && z > 0
    ensures z * x < z * y
  {
  }

  /** A larger base gives a strictly larger power. */
  lemma {:induction false} PowBaseStrictlyIncreasing(a: nat, b: nat, e: nat)
    requires 1 <= a < b && e >= 1
    ensures Pow(a, e) < Pow(b, e)
  {
    if e > 1 {
      var pa, pb := Pow(a, e - 1), Pow(b, e - 1);
      PowBaseStrictlyIncreasing(a, b, e - 1);
      MulLeft(pa, pb, a);
      MulStrict(a, b, pb);
      assert a * pb == pb * a && b * pb == pb * b;
    }
  }

  lemma {:induction false} PowExceedsExponent(b: nat, e: nat)
    requires b >= 2
    ensures e < Pow(b, e)
  {
    if e > 0 {
      PowExceedsExponent(b, e - 1);
      assert Pow(b, e) == b * Pow(b, e - 1);
    }
  }

  /** Quotient and remainder are determined by the division equation. */
  lemma DivModUnique(n: int, m: int, q: int, r: int)
    requires m > 0 && 0 <= r < m && n == q * m + r
    ensures n / m == q && n % m == r
  {
    var q', r' := n / m, n % m;
    assert q' * m + r' == q * m + r;
    assert (q' - q) * m == r - r' by {
      assert (q' - q) * m == q' * m - q * m;
    }
    if q' > q {
      MulLeft(1, q' - q, m);
    } else if q' < q {
      MulLeft(1, q - q', m);
    }
  }

  /** Taking `n` modulo `a * c` splits into a low part below `a` and a high part. */
  lemma ModMul(n: nat, a: nat, c: nat)
    requires a > 0 && c > 0
    ensures ((n / a) % c) * a + n % a == n % (a * c)
    ensures (n / a) / c == n / (a * c)
  {
    var q := n / a;
    var lo := (q % c) * a + n % a;
    assert q == (q / c) * c + q % c;
    assert n == q * a + n % a;
    assert n == (q / c) * (a * c) + lo by {
      assert q * a == ((q / c) * c + q % c) * a;
      assert ((q / c) * c + q % c) * a == (q / c) * (a * c) + (q % c) * a;
    }
    assert 0 <= lo < a * c by {
      assert q % c <= c - 1;
      assert (q % c) * a <= (c - 1) * a;
      assert (c - 1) * a + a == a * c;
    }
    DivModUnique(n, a * c, q / c, lo);
  }

  lemma DivModBasics(n: nat, m: nat)
    requires m >= 2
    ensures n == (n / m) * m + n % m && 0 <= n % m < m
    ensures n > 0 ==> n / m < n
  {
    var q := n / m;
    MulLeft(2, m, q);
    assert q * 2 <= q * m <= n;
  }

  predicate IsDigits(s: seq<int>, base: nat) {
    forall i :: 0 <= i < |s| ==> 0 <= s[i] < base
  }

  lemma DigitStep(hi: nat, d: int, base: nat, p: nat)
    requires hi < p && 0 <= d < base
    ensures hi * base + d < p * base
  {
    assert hi * base <= (p - 1) * base;
  }

  /** The value of a big-endian digit sequence (most significant first). */
  function FromDigits(s: seq<int>, base: nat): (n: nat)
    requires IsDigits(s, base)
    ensures n < Pow(base, |s|)
    decreases |s|
  {
    if |s| == 0 then 0
    else
      var hi := FromDigits(s[..|s| - 1], base);
      DigitStep(hi, s[|s| - 1], base, Pow(base, |s| - 1));
      hi * base + s[|s| - 1]
  }

  /** The `width` low-order digits of `n`, most significant first. */
  function ToDigits(n: nat, base: nat, width: nat): (s: seq<int>)
    requires base >= 2
    ensures |s| == width && IsDigits(s, base)
    decreases width
  {
    if width == 0 then [] else ToDigits(n / base, base, width - 1) + [n % base]
  }

  /** The digits are those of `n` modulo `base^width`. */
  lemma {:induction false} ToDigitsValue(n: nat, base: nat, width: nat)
    requires base >= 2
    ensures FromDigits(ToDigits(n, base, width), base) == n % Pow(base, width)
    decreases width
  {
    if width > 0 {
      var hi := ToDigits(n / base, base, width - 1);
      assert ToDigits(n, base, width) == hi + [n % base];
      ToDigitsValue(n / base, base, width - 1);
      FromDigitsSnoc(hi, n % base, base);
      ModMul(n, base, Pow(base, width - 1));
    }
  }

  /** Appending a digit shifts the value one place. */
  lemma FromDigitsSnoc(s: seq<int>, d: int, base: nat)
    requires IsDigits(s, base) && 0 <= d < base
    ensures IsDigits(s + [d], base)
    ensures FromDigits(s + [d], base) == FromDigits(s, base) * base + d
  {
    assert (s + [d])[..|s|] == s;
  }

  lemma LeadingWeight(n: nat, base: nat, k: nat)
    requires base >= 2 && k >= 1 && Pow(base, k - 1) <= n / base
    ensures Pow(base, k) <= n
  {
    var p := Pow(base, k - 1);
    assert Pow(base, k) == base * p;
    MulLeft(p, n / base, base);
    assert base * (n / base) <= n;
  }

  /** The digits of `n` without leading zeros; empty for zero. */
  function MinimalDigits(n: nat, base: nat): (s: seq<int>)
    requires base >= 2
    ensures IsDigits(s, base) && FromDigits(s, base) == n
    ensures |s| == 0 <==> n == 0
    ensures |s| > 0 ==> s[0] != 0 && Pow(base, |s| - 1) <= n
    decreases n
  {
    if n == 0 then []
    else
      DivModBasics(n, base);
      var hi := MinimalDigits(n / base, base);
      FromDigitsSnoc(hi, n % base, base);
      if |hi| > 0 then
        LeadingWeight(n, base, |hi|);
        hi + [n % base]
      else
        [n % base]
  }

  /** A value below `base^w` has at most `w` significant digits. */
  lemma MinimalDigitsFit(n: nat, base: nat, w: nat)
    requires base >= 2 && n < Pow(base, w)
    ensures |MinimalDigits(n, base)| <= w
  {
    var s := MinimalDigits(n, base);
    if |s| > w {
      PowMonotone(base, w, |s| - 1);
    }
  }

  lemma ShiftDistributes(x: int, p: int, y: int, b: int, d: int)
    ensures (x * p + y) * b + d == x * (b * p) + (y * b + d)
  {
  }

  lemma {:induction false} FromDigitsAppend(a: seq<int>, c: seq<int>, base: nat)
    requires IsDigits(a, base) && IsDigits(c, base)
    ensures IsDigits(a + c, base)
    ensures FromDigits(a + c, base) == FromDigits(a, base) * Pow(base, |c|) + FromDigits(c, base)
    decreases |c|
  {
    if |c| == 0 {
      assert a + c == a;
    } else {
      var c', d := c[..|c| - 1], c[|c| - 1];
      assert c == c' + [d];
      assert a + c == (a + c') + [d];
      FromDigitsAppend(a, c', base);
      FromDigitsSnoc(a + c', d, base);
      FromDigitsSnoc(c', d, base);
      var x, p, y := FromDigits(a, base), Pow(base, |c'|), FromDigits(c', base);
      assert Pow(base, |c|) == base * p;
      ShiftDistributes(x, p, y, base, d);
    }
  }

  /** The leading digit carries weight `base^(|s|-1)`. */
  lemma FromDigitsFront(s: seq<int>, base: nat)
    requires IsDigits(s, base) && |s| > 0
    ensures FromDigits(s, base) == s[0] * Pow(base, |s| - 1) + FromDigits(s[1..], base)
  {
    assert s == [s[0]] + s[1..];
    FromDigitsAppend([s[0]], s[1..], base);
    assert [s[0]][..0] == [];
  }

  lemma AppendAssoc<T>(a: seq<T>, b: seq<T>, c: seq<T>)
    ensures a + (b + c) == (a + b) + c
  {
  }

  lemma TakeDrop<T>(b: seq<T>, c: nat)
    requires c <= |b|
    ensures b[..c] + b[c..] == b
  {
  }

  function Repeat<T>(x: T, k: nat): (r: seq<T>)
    ensures |r| == k && forall i :: 0 <= i < k ==> r[i] == x
  {
    seq(k, _ => x)
  }

  lemma {:induction false} FromDigitsZeros(k: nat, base: nat)
    requires base >= 1
    ensures FromDigits(Repeat(0, k), base) == 0
  {
    if k > 0 {
      assert Repeat(0, k)[..k - 1] == Repeat(0, k - 1);
      FromDigitsZeros(k - 1, base);
    }
  }

  /** Reading a digit sequence and writing it back at the same width is the identity. */
  lemma {:induction false} ToDigitsFromDigits(s: seq<int>, base: nat)
    requires base >= 2 && IsDigits(s, base)
    ensures ToDigits(FromDigits(s, base), base, |s|) == s
    decreases |s|
  {
    if |s| > 0 {
      var pre, d := s[..|s| - 1], s[|s| - 1];
      assert s == pre + [d];
      FromDigitsSnoc(pre, d, base);
      var n, hi := FromDigits(s, base), FromDigits(pre, base);
      DivModUnique(n, base, hi, d);
      ToDigitsFromDigits(pre, base);
      assert ToDigits(n, base, |s|) == ToDigits(hi, base, |pre|) + [d];
    }
  }

  /** Digit sequences of equal length are equal exactly when their values are. */
  lemma DigitsInjective(s: seq<int>, t: seq<int>, base: nat)
    requires base >= 2 && IsDigits(s, base) && IsDigits(t, base) && |s| == |t|
    requires FromDigits(s, base) == FromDigits(t, base)
    ensures s == t
  {
    ToDigitsFromDigits(s, base);
    ToDigitsFromDigits(t, base);
  }

  /** A value that fits in `width` digits is recovered from them. */
  lemma FromDigitsToDigits(n: nat, base: nat, width: nat)
    requires base >= 2 && n < Pow(base, width)
    ensures FromDigits(ToDigits(n, base, width), base) == n
  {
    ToDigitsValue(n, base, width);
    DivModUnique(n, Pow(base, width), 0, n);
  }

  /** Writing `n` at width `w1 + w2` is its high part at `w1` followed by its low part at `w2`. */
  lemma ToDigitsSplit(n: nat, base: nat, w1: nat, w2: nat)
    requires base >= 2
    ensures ToDigits(n, base, w1 + w2)
         == ToDigits(n / Pow(base, w2), base, w1) + ToDigits(n % Pow(base, w2), base, w2)
  {
    var p1, p2 := Pow(base, w1), Pow(base, w2);
    var hi := ToDigits(n / p2, base, w1);
    var lo := ToDigits(n % p2, base, w2);
    ToDigitsValue(n / p2, base, w1);
    ToDigitsValue(n % p2, base, w2);
    ToDigitsValue(n, base, w1 + w2);
    FromDigitsAppend(hi, lo, base);
    assert (n % p2) % p2 == n % p2 by {
      DivModUnique(n % p2, p2, 0, n % p2);
    }
    ModMul(n, p2, p1);
    PowAdd(base, w2, w1);
    assert p2 * p1 == Pow(base, w1 + w2);
    DigitsInjective(ToDigits(n, base, w1 + w2), hi + lo, base);
  }

  /** `k` groups of `w` digits of `n`, the lowest group last: `n` taken `base^w` at a time. */
  function DigitGroups(n: nat, base: nat, w: nat, k: nat): (s: seq<int>)
    requires base >= 2
    ensures IsDigits(s, base)
    decreases k
  {
    if k == 0 then [] else DigitGroups(n / Pow(base, w), base, w, k - 1) + ToDigits(n % Pow(base, w), base, w)
  }

  /** Writing `n` a group at a time gives its `w * k` low-order digits. */
  lemma {:induction false} DigitGroupsDigits(n: nat, base: nat, w: nat, k: nat)
    requires base >= 2
    ensures DigitGroups(n, base, w, k) == ToDigits(n, base, w * k)
    decreases k
  {
    if k > 0 {
      DigitGroupsDigits(n / Pow(base, w), base, w, k - 1);
      assert w * k == w * (k - 1) + w;
      ToDigitsSplit(n, base, w * (k - 1), w);
    }
  }

  /** Left-pad `s` with `z` to at least `w` elements; never truncates. */
  function PadLeft<T>(s: seq<T>, w: nat, z: T): (r: seq<T>)
    ensures |s| >= w ==> r == s
    ensures |s| < w ==> |r| == w && r[w - |s|..] == s
    ensures forall i :: 0 <= i < |r| - |s| ==> r[i] == z
  {
    if |s| >= w then s else Repeat(z, w - |s|) + s
  }

  /** Significant digits padded with zeros to the width are the fixed-width digits. */
  lemma PadMinimalDigits(n: nat, base: nat, w: nat)
    requires base >= 2 && n < Pow(base, w)
    ensures PadLeft(MinimalDigits(n, base), w, 0) == ToDigits(n, base, w)
  {
    var m := MinimalDigits(n, base);
    MinimalDigitsFit(n, base, w);
    var z := Repeat(0, w - |m|);
    var p := z + m;
    assert PadLeft(m, w, 0) == p by {
      if |m| == w {
        assert z == [];
      }
    }
    FromDigitsAppend(z, m, base);
    FromDigitsZeros(w - |m|, base);
    var v := FromDigits(p, base);
    assert v == 0 * Pow(base, |m|) + n;
    FromDigitsToDigits(n, base, w);
    DigitsInjective(p, ToDigits(n, base, w), base);
  }
}
