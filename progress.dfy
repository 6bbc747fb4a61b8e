/** The progress notifications the detector broadcasts during a scan: one START,
    one update per image column carrying a rounded percentage and the message
    "Step i of N", and one END. */
module ProgressReport {

  datatype Event = Start | Update(percent: int, message: string) | End

  predicate IsDigit(c: char)
  {
    '0' <= c <= '9'
  }

  predicate AllDigits(s: string)
  {
    forall k :: 0 <= k < |s| ==> IsDigit(s[k])
  }

  function Digit(d: nat): (c: char)
    requires d < 10
    ensures IsDigit(c) && c as int - '0' as int == d
  {
    ('0' as int + d) as char
  }

  /** The decimal rendering Java's string concatenation gives a non-negative int:
      digits only, and a leading zero only for zero itself. */
  function Decimal(n: nat): (s: string)
    ensures |s| >= 1 && AllDigits(s)
    ensures s[0] == '0' <==> n == 0
    decreases n
  {
    if n < 10 then [Digit(n)] else Decimal(n / 10) + [Digit(n % 10)]
  }

  /** The number a string of decimal digits denotes. */
  function DigitsValue(s: string): nat
    requires AllDigits(s)
  {
    if s == [] then 0 else 10 * DigitsValue(s[..|s| - 1]) + (s[|s| - 1] as int - '0' as int)
  }

  lemma {:induction false} DecimalRoundTrip(n: nat)
    ensures DigitsValue(Decimal(n)) == n
  {
    if n >= 10 {
      var s := Decimal(n);
      assert s[..|s| - 1] == Decimal(n / 10);
      DecimalRoundTrip(n / 10);
    }
  }

  lemma DecimalInjective(a: nat, b: nat)
    requires Decimal(a) == Decimal(b)
    ensures a == b
  {
    DecimalRoundTrip(a);
    DecimalRoundTrip(b);
  }

  /** The message of the update fired after `i` of `total` pixels were visited:
      "Step ", the step count, " of ", the total, both read back from the text. */
  function Message(i: nat, total: nat): (s: string)
    ensures |s| == 9 + |Decimal(i)| + |Decimal(total)|
    ensures s[..5] == "Step " && s[5 + |Decimal(i)|..9 + |Decimal(i)|] == " of "
    ensures AllDigits(s[5..5 + |Decimal(i)|]) && DigitsValue(s[5..5 + |Decimal(i)|]) == i
    ensures AllDigits(s[9 + |Decimal(i)|..]) && DigitsValue(s[9 + |Decimal(i)|..]) == total
  {
    var d, e := Decimal(i), Decimal(total);
    var s := "Step " + d + " of " + e;
    assert s[5..5 + |d|] == d && s[9 + |d|..] == e;
    DecimalRoundTrip(i);
    DecimalRoundTrip(total);
    s
  }

  /** In a message the step count's digits run from position 5 up to the space before "of". */
  lemma StepField(i: nat, total: nat)
    ensures forall j :: 5 <= j < 5 + |Decimal(i)| ==> IsDigit(Message(i, total)[j])
    ensures Message(i, total)[5 + |Decimal(i)|] == ' '
  {
    var m, n := Message(i, total), |Decimal(i)|;
    forall j | 5 <= j < 5 + n
      ensures IsDigit(m[j])
    {
      assert m[j] == m[5..5 + n][j - 5];
    }
    assert m[5 + n] == m[5 + n..9 + n][0];
  }

  /** A message names its step count and its total unambiguously. */
  lemma MessageInjective(i1: nat, t1: nat, i2: nat, t2: nat)
    requires Message(i1, t1) == Message(i2, t2)
    ensures i1 == i2 && t1 == t2
  {
    var n1, n2 := |Decimal(i1)|, |Decimal(i2)|;
    var m := Message(i1, t1);
    // at the shorter rendering's end one message has the space, the other a digit
    var k := if n1 < n2 then n1 else n2;
    StepField(i1, t1);
    StepField(i2, t2);
    assert m[5 + k] == ' ';
    assert n1 == n2;
  }

  /** `Math.round(i * (100.0 / total))` over exact rationals: the percentage rounded
      half up.  A zero total gives 0, as Java's rounding of NaN does. */
  function Percent(i: nat, total: nat): (p: int)
    ensures total == 0 ==> p == 0
    ensures total > 0 ==> 2 * total * p - total <= 200 * i < 2 * total * p + total
    ensures i <= total ==> 0 <= p <= 100
    ensures 0 < total == i ==> p == 100
  {
    if total == 0 then 0
    else
      var p := (200 * i + total) / (2 * total);
      DivBounds(200 * i + total, 2 * total, p);
      if i <= total then PercentRange(i, total, p); p else p
  }

  /** The defining inequalities of Euclidean division by a positive divisor. */
  lemma DivBounds(n: int, d: int, q: int)
    requires d > 0 && q == n / d
    ensures d * q <= n < d * q + d
  {
  }

  lemma PercentRange(i: nat, total: nat, p: int)
    requires 0 < total && i <= total
    requires 2 * total * p - total <= 200 * i < 2 * total * p + total
    ensures 0 <= p <= 100
    ensures i == total ==> p == 100
  {
    if p > 100 {
      assert 2 * total * p >= 2 * total * 101 by { MulMono(2 * total, 101, p); }
    }
    if i == total && p < 100 {
      assert 2 * total * p <= 2 * total * 99 by { MulMono(2 * total, p, 99); }
    }
  }

  lemma MulSucc(x: int, h: int)
    ensures (x + 1) * h == x * h + h
  {
  }

  lemma MulMono(c: int, a: int, b: int)
    requires c >= 0 && a <= b
    ensures c * a <= c * b
  {
    assert c * b - c * a == c * (b - a);
  }

  /** More visited pixels never give a smaller percentage. */
  lemma PercentMonotone(i: nat, j: nat, total: nat)
    requires i <= j
    ensures Percent(i, total) <= Percent(j, total)
  {
    if total > 0 {
      var p, q := Percent(i, total), Percent(j, total);
      if q < p {
        MulMono(2 * total, q, p - 1);
      }
    }
  }

  /** The update fired once `i` of `total` pixels have been visited. */
  function ProgressEvent(i: nat, total: nat): Event
  {
    Update(Percent(i, total), Message(i, total))
  }

  /** The k-th column's update never counts more pixels than the image has. */
  lemma StepWithinTotal(w: nat, h: nat, k: nat)
    requires k < w
    ensures (k + 1) * h <= w * h
  {
    MulMono(h, k + 1, w);
  }

  /** The updates of a scan of a `w x h` image: one per column, the k-th fired
      after `(k + 1) * h` visited pixels. */
  function ProgressTrace(w: nat, h: nat): (tr: seq<Event>)
    ensures |tr| == w
    ensures forall k :: 0 <= k < w ==> tr[k].Update? && 0 <= tr[k].percent <= 100
  {
    var tr := seq(w, k requires 0 <= k < w => ProgressEvent((k + 1) * h, w * h));
    assert forall k :: 0 <= k < w ==> 0 <= tr[k].percent <= 100 by {
      forall k | 0 <= k < w
        ensures 0 <= tr[k].percent <= 100
      {
        StepWithinTotal(w, h, k);
      }
    }
    tr
  }

  /** The updates fired for the first `x + 1` columns extend those of the first `x`
      columns by the update fired after `(x + 1) * h` visited pixels. */
  lemma TracePrefixStep(w: nat, h: nat, x: nat, i: nat)
    requires x < w && i == x * h + h
    ensures ProgressTrace(w, h)[..x + 1] == ProgressTrace(w, h)[..x] + [ProgressEvent(i, w * h)]
  {
    assert i == (x + 1) * h;
  }

  /** A scan fires exactly one update per column, and the last one reports every
      pixel visited and 100 percent. */
  lemma TraceEndsComplete(w: nat, h: nat)
    requires w > 0 && h > 0
    ensures |ProgressTrace(w, h)| == w
    ensures ProgressTrace(w, h)[w - 1] == Update(100, "Step " + Decimal(w * h) + " of " + Decimal(w * h))
  {
    assert (w - 1 + 1) * h == w * h;
  }

  /** The percentages of a scan's updates never decrease, and each lies in [0, 100]. */
  lemma TracePercentsNondecreasing(w: nat, h: nat, j: nat, k: nat)
    requires j <= k < w
    ensures 0 <= ProgressTrace(w, h)[j].percent <= ProgressTrace(w, h)[k].percent <= 100
  {
    MulMono(h, j + 1, k + 1);
    MulMono(h, k + 1, w);
    PercentMonotone((j + 1) * h, (k + 1) * h, w * h);
  }
}
