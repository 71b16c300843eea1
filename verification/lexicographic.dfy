/**
 * Lexicographic order: byte buffers compared byte by byte, and strings
 * compared character by character. In both the first difference decides and
 * a proper prefix comes first. A Dafny `char` is a Unicode scalar value;
 * JavaScript's `<` compares UTF-16 code units, and the two orders agree on
 * text without surrogate pairs, which includes all ASCII text.
 */
module Lexicographic {
  import opened Radix

  /** `x` sorts strictly before `y`. */
  predicate Less(x: seq<int>, y: seq<int>)
    decreases |x|
  {
    if |x| == 0 then |y| > 0
    else |y| > 0 && (x[0] < y[0] || (x[0] == y[0] && Less(x[1..], y[1..])))
  }

  /** The scalar values of a string, as numbers. */
  function Codes(s: string): (r: seq<int>)
    ensures |r| == |s| && forall i :: 0 <= i < |s| ==> r[i] == s[i] as int
  {
    seq(|s|, i requires 0 <= i < |s| => s[i] as int)
  }

  /** String order; JavaScript's `<` on text without surrogate pairs. */
  predicate StringLess(x: string, y: string) {
    Less(Codes(x), Codes(y))
  }

  lemma CodesAppend(x: string, y: string)
    ensures Codes(x + y) == Codes(x) + Codes(y)
  {
  }

  lemma CodesInjective(x: string, y: string)
    ensures Codes(x) == Codes(y) <==> x == y
  {
    if Codes(x) == Codes(y) {
      assert forall i :: 0 <= i < |x| ==> x[i] as int == y[i] as int;
    }
  }

  /** Of two sequences of one length, the first difference decides: equal fronts hand over to the rests. */
  lemma {:induction false} LessAppend(x1: seq<int>, x2: seq<int>, y1: seq<int>, y2: seq<int>)
    requires |x1| == |y1|
    ensures Less(x1 + x2, y1 + y2) <==> Less(x1, y1) || (x1 == y1 && Less(x2, y2))
    decreases |x1|
  {
    if |x1| > 0 {
      var x, y := x1 + x2, y1 + y2;
      assert x[0] == x1[0] && y[0] == y1[0];
      assert x[1..] == x1[1..] + x2 && y[1..] == y1[1..] + y2;
      LessAppend(x1[1..], x2, y1[1..], y2);
      assert x1 == y1 <==> x1[0] == y1[0] && x1[1..] == y1[1..] by {
        if x1[0] == y1[0] && x1[1..] == y1[1..] {
          assert x1 == [x1[0]] + x1[1..] && y1 == [y1[0]] + y1[1..];
        }
      }
    } else {
      assert x1 + x2 == x2 && y1 + y2 == y2;
    }
  }

  /**
   * Mapping both sequences position by position through values that compare
   * as the originals do keeps their order.
   */
  lemma {:induction false} LessMap(x: seq<int>, y: seq<int>, u: seq<int>, v: seq<int>)
    requires |u| == |x| && |v| == |y|
    requires forall i, j :: 0 <= i < |x| && 0 <= j < |y| ==> (u[i] < v[j] <==> x[i] < y[j])
    requires forall i, j :: 0 <= i < |x| && 0 <= j < |y| ==> (u[i] == v[j] <==> x[i] == y[j])
    ensures Less(u, v) <==> Less(x, y)
    decreases |x|
  {
    if |x| > 0 && |y| > 0 {
      var x', y', u', v' := x[1..], y[1..], u[1..], v[1..];
      forall i, j | 0 <= i < |x'| && 0 <= j < |y'|
        ensures (u'[i] < v'[j] <==> x'[i] < y'[j]) && (u'[i] == v'[j] <==> x'[i] == y'[j])
      {
        assert u'[i] == u[i + 1] && v'[j] == v[j + 1] && x'[i] == x[i + 1] && y'[j] == y[j + 1];
      }
      LessMap(x', y', u', v');
      assert (u[0] < v[0] <==> x[0] < y[0]) && (u[0] == v[0] <==> x[0] == y[0]);
    }
  }

  lemma LeadingDigitDecides(a: int, b: int, ra: int, rb: int, p: int)
    requires a < b && 0 <= ra < p && 0 <= rb
    ensures a * p + ra < b * p + rb
  {
    MulLeft(a + 1, b, p);
  }

  /** For digit sequences of one length, sorting first is having the smaller value. */
  lemma {:induction false} LessIsSmallerValue(x: seq<int>, y: seq<int>, base: nat)
    requires IsDigits(x, base) && IsDigits(y, base) && |x| == |y|
    ensures Less(x, y) <==> FromDigits(x, base) < FromDigits(y, base)
    decreases |x|
  {
    if |x| > 0 {
      FromDigitsFront(x, base);
      FromDigitsFront(y, base);
      var p := Pow(base, |x| - 1);
      var rx, ry := FromDigits(x[1..], base), FromDigits(y[1..], base);
      LessIsSmallerValue(x[1..], y[1..], base);
      if x[0] < y[0] {
        LeadingDigitDecides(x[0], y[0], rx, ry, p);
      } else if y[0] < x[0] {
        LeadingDigitDecides(y[0], x[0], ry, rx, p);
      }
    }
  }
}
