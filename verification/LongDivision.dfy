/** Unsigned and signed 64-bit division: Knuth's Algorithm D (The Art of Computer
    Programming, vol. 2, section 4.3.1) in base 2^16 on 32-bit words, as in kernel/util/math.c.

    Every arithmetic operation of the source on `unsigned long` is written through `W32`,
    which wraps at 2^32.  A bitwise `|` of two words whose set bits cannot overlap is the sum of
    the two words; `Or` states that condition as its precondition. */
module LongDivision {
  import opened Arithmetic
  import opened Lists

  const B: nat := 0x1_0000

  type uint64 = x: int | 0 <= x < 0x1_0000_0000_0000_0000
  type int64 = x: int | -0x8000_0000_0000_0000 <= x < 0x8000_0000_0000_0000

  function Pow(b: nat, e: nat): nat {
    if e == 0 then 1 else b * Pow(b, e - 1)
  }

  /** The value kept by a 32-bit `unsigned long`. */
  function W32(x: int): nat {
    x % 0x1_0000_0000
  }

  function HHalf(x: nat): nat { x / B }

  function LHalf(x: nat): nat { x % B }

  /** `hi | lo` where `hi` has the bits below the power of two `unit` clear and `lo` fits in them. */
  function Or(hi: nat, lo: nat, unit: nat): nat
    requires 0 < unit && hi % unit == 0 && lo < unit
  {
    hi + lo
  }

  /** Two digits combined into one word (the COMBINE macro). */
  function Combine(a: nat, b: nat): nat
    requires b < B
  {
    Or(W32(a * B), b, B)
  }

  /** The number a big-endian digit string stands for. */
  function Value(s: seq<nat>): nat {
    if s == [] then 0 else Value(s[..|s| - 1]) * B + s[|s| - 1]
  }

  ghost predicate Digits(s: seq<nat>) {
    forall k :: 0 <= k < |s| ==> s[k] < B
  }

  // ----- arithmetic helpers -----

  lemma MulPred(a: int, b: int)
    ensures (a - 1) * b == a * b - b
  {
  }

  lemma MulDigits(a: int, b: int)
    requires 0 <= a < B && 0 <= b < B
    ensures 0 <= a * b <= (B - 1) * (B - 1)
  {
    MulNonNeg(a, b);
    MulMono(a, B - 1, b);
  }

  lemma CombineValue(a: nat, b: nat)
    requires a < B && b < B
    ensures Combine(a, b) == a * B + b < 0x1_0000_0000
  {
  }

  // ----- D3: the trial digit -----

  /** Capped quotient of the leading digits. */
  function Capped(uTop: int, vTop: int): int
    requires 0 < vTop
  {
    if uTop / vTop < B then uTop / vTop else B - 1
  }

  lemma CappedUnique(uTop: int, vTop: int, q: int)
    requires 0 <= uTop && 0 < vTop && q < B && q * vTop <= uTop
    requires q == B - 1 || uTop < (q + 1) * vTop
    ensures q == Capped(uTop, vTop)
  {
    QuotientRemainder(uTop, vTop);
    MulCancel(q, uTop / vTop + 1, vTop);
    if q < B - 1 { MulCancel(uTop / vTop, q + 1, vTop); }
  }

  /** Where D3 starts counting down from. */
  function FirstEstimate(uj0: int, uj1: int, v1: int): int
    requires 0 < v1
  {
    if uj0 == v1 then B else (uj0 * B + uj1) / v1
  }

  /** The test of D3 compares the trial digit times the two leading divisor digits with the three
      leading dividend digits. */
  lemma TrialTest(qhat: int, rhat: int, n0: int, uj2: int, v1: int, v2: int)
    requires qhat * v1 + rhat == n0
    ensures v2 * qhat > rhat * B + uj2 <==> qhat * (v1 * B + v2) > n0 * B + uj2
  {
    assert qhat * (v1 * B + v2) == (qhat * v1) * B + v2 * qhat;
  }

  /** What D3 keeps: `rhat` is what is left of the two leading dividend digits, and the trial
      digit is not below the capped quotient. */
  ghost predicate TrialInv(uj0: int, uj1: int, uj2: int, v1: int, v2: int, qhat: int, rhat: int) {
    && qhat * v1 + rhat == uj0 * B + uj1
    && (qhat == B - 1 || (uj0 * B + uj1) * B + uj2 < (qhat + 1) * (v1 * B + v2))
  }

  lemma TrialStart(uj0: int, uj1: int, uj2: int, v1: int, v2: int)
    requires 0 <= uj0 < v1 < B && 0 <= uj1 < B && 0 <= uj2 < B && 0 <= v2 < B
    ensures var n0 := uj0 * B + uj1;
            && 0 <= n0 / v1 == FirstEstimate(uj0, uj1, v1) < B && 0 <= n0 % v1 < v1
            && TrialInv(uj0, uj1, uj2, v1, v2, n0 / v1, n0 % v1)
  {
    var n0 := uj0 * B + uj1;
    var q := n0 / v1;
    QuotientRemainder(n0, v1);
    MulMono(uj0 + 1, v1, B);
    MulCancel(q, B, v1);
    MulMono(n0 + 1, (q + 1) * v1, B);
    assert (q + 1) * (v1 * B + v2) == ((q + 1) * v1) * B + (q + 1) * v2;
    MulNonNeg(q + 1, v2);
  }

  lemma TrialForced(v1: int, uj1: int, uj2: int, v2: int)
    requires 0 < v1 < B && 0 <= uj1 < B
    ensures FirstEstimate(v1, uj1, v1) == B
    ensures W32(uj1 + v1) == uj1 + v1 && TrialInv(v1, uj1, uj2, v1, v2, B - 1, uj1 + v1)
  {
  }

  /** One turn of the loop of D3, whose product stays within 32 bits. */
  lemma TrialStep(uj0: int, uj1: int, uj2: int, v1: int, v2: int, qhat: int, rhat: int)
    requires 0 <= qhat < B && 0 <= rhat && 0 <= uj2 < B && 0 <= v1 && 0 <= v2 < B
    requires TrialInv(uj0, uj1, uj2, v1, v2, qhat, rhat)
    ensures 0 <= v2 * qhat < 0x1_0000_0000
    ensures rhat < B ==> (W32(v2 * qhat) > Combine(rhat, uj2) <==> v2 * qhat > rhat * B + uj2)
    ensures v2 * qhat > rhat * B + uj2 ==>
              && 0 < qhat && TrialInv(uj0, uj1, uj2, v1, v2, qhat - 1, rhat + v1)
              && (rhat < B && v1 < B ==> W32(rhat + v1) == rhat + v1)
  {
    MulDigits(v2, qhat);
    TrialTest(qhat, rhat, uj0 * B + uj1, uj2, v1, v2);
    MulPred(qhat, v1);
  }

  lemma TrialStop(uj0: int, uj1: int, uj2: int, v1: int, v2: int, qhat: int, rhat: int)
    requires 0 <= qhat < B && 0 <= uj2 && 0 <= v2 < B && 0 < v1 && 0 <= uj0 && 0 <= uj1
    requires TrialInv(uj0, uj1, uj2, v1, v2, qhat, rhat)
    requires B <= rhat || v2 * qhat <= rhat * B + uj2
    ensures qhat == Capped((uj0 * B + uj1) * B + uj2, v1 * B + v2)
  {
    MulDigits(v2, qhat);
    TrialTest(qhat, rhat, uj0 * B + uj1, uj2, v1, v2);
    CappedUnique((uj0 * B + uj1) * B + uj2, v1 * B + v2, qhat);
  }

  /** D3.  The loop leaves the quotient of the three leading dividend digits by the two leading
      divisor digits, capped at B - 1; with a normalised divisor it takes at most two
      decrements.  Where the source jumps into the middle of its loop, the loop's first turn is
      written out. */
  method TrialDigit(uj0: nat, uj1: nat, uj2: nat, v1: nat, v2: nat) returns (qhat: nat)
    requires uj0 <= v1 < B && uj1 < B && uj2 < B && v2 < B
    requires B / 2 <= v1
    ensures qhat == Capped((uj0 * B + uj1) * B + uj2, v1 * B + v2) < B
    ensures qhat <= FirstEstimate(uj0, uj1, v1) <= qhat + 2
  {
    hide W32, Combine, TrialInv, Capped, FirstEstimate;
    ghost var q0: int := FirstEstimate(uj0, uj1, v1);
    var rhat: nat;
    if uj0 == v1 {
      TrialForced(uj0, uj1, uj2, v2);
      qhat, rhat := B, uj1;
      qhat := qhat - 1;
      rhat := W32(rhat + v1);
    } else {
      TrialStart(uj0, uj1, uj2, v1, v2);
      CombineValue(uj0, uj1);
      var nn := Combine(uj0, uj1);
      qhat, rhat := nn / v1, nn % v1;
    }
    while rhat < B && W32(v2 * qhat) > Combine(rhat, uj2)
      invariant qhat < B && rhat < 2 * B
      invariant TrialInv(uj0, uj1, uj2, v1, v2, qhat, rhat)
      invariant qhat == q0 || (qhat == q0 - 1 && v1 <= rhat) || (qhat == q0 - 2 && B <= rhat)
    {
      TrialStep(uj0, uj1, uj2, v1, v2, qhat, rhat);
      qhat := qhat - 1;
      rhat := W32(rhat + v1);
    }
    TrialStep(uj0, uj1, uj2, v1, v2, qhat, rhat);
    TrialStop(uj0, uj1, uj2, v1, v2, qhat, rhat);
  }

  /** A quotient never exceeds that of the leading parts. */
  lemma TrueDigitBelow(u: int, v: int, uTop: int, vTop: int, p: int, q: int)
    requires 0 < p && 0 <= uTop && 0 <= q && 0 < vTop
    requires u < (uTop + 1) * p && vTop * p <= v
    requires q * v <= u
    ensures q <= uTop / vTop
  {
    MulMono(vTop * p, v, q);
    assert (vTop * p) * q == (q * vTop) * p;
    MulCancel(q * vTop, uTop + 1, p);
    QuotientRemainder(uTop, vTop);
    MulCancel(q, uTop / vTop + 1, vTop);
  }

  /** One less than the capped quotient of the leading parts is never too much. */
  lemma CappedLessOneFits(u: int, v: int, uTop: int, vTop: int, p: int, k: int)
    requires 0 < p && 0 <= k < B <= vTop && uTop * p <= u && v <= (vTop + 1) * p
    requires (k + 1) * vTop <= uTop
    ensures k * v <= u
  {
    MulMono(v, (vTop + 1) * p, k);
    assert k * ((vTop + 1) * p) == (k * (vTop + 1)) * p;
    assert k * (vTop + 1) == (k + 1) * vTop - vTop + k;
    MulMono(k * (vTop + 1), uTop, p);
  }

  /** Knuth's theorem for the test of D3: the trial digit is the true digit or one more. */
  lemma TrialDigitClose(u: int, v: int, uTop: int, vTop: int, p: int)
    requires 0 < p && 0 <= uTop && uTop * p <= u < (uTop + 1) * p
    requires B <= vTop && vTop * p <= v <= (vTop + 1) * p
    requires 0 < v && 0 <= u < B * v
    ensures u / v <= Capped(uTop, vTop) <= u / v + 1 && 0 <= u / v < B
  {
    var q := u / v;
    QuotientRemainder(u, v);
    MulCancel(q, B, v);
    TrueDigitBelow(u, v, uTop, vTop, p, q);
    var qhat := Capped(uTop, vTop);
    QuotientRemainder(uTop, vTop);
    MulMono(qhat, uTop / vTop, vTop);
    if 0 < qhat {
      CappedLessOneFits(u, v, uTop, vTop, p, qhat - 1);
      MulCancel(qhat - 1, q + 1, v);
    }
  }

  // ----- digit strings -----

  lemma ValueAppend(s: seq<nat>, d: nat)
    ensures Value(s + [d]) == Value(s) * B + d
  {
    assert (s + [d])[..|s|] == s;
  }

  lemma {:induction false} ValueConcat(s: seq<nat>, t: seq<nat>)
    ensures Value(s + t) == Value(s) * Pow(B, |t|) + Value(t)
  {
    if t == [] {
      assert s + t == s;
    } else {
      var t', d := t[..|t| - 1], t[|t| - 1];
      ValueConcat(s, t');
      assert s + t == (s + t') + [d];
      ValueAppend(s + t', d);
      MulAssociative(Value(s), Pow(B, |t'|), B);
    }
  }

  /** A slice starting at `i` splits off its leading digit. */
  lemma ValueHead(a: seq<nat>, i: nat, hi: nat)
    requires i < hi <= |a|
    ensures Value(a[i..hi]) == a[i] * Pow(B, hi - i - 1) + Value(a[i + 1..hi])
  {
    assert a[i..hi] == [a[i]] + a[i + 1..hi];
    ValueConcat([a[i]], a[i + 1..hi]);
    assert Value([a[i]]) == a[i] by {
      ValueAppend([], a[i]);
      assert [] + [a[i]] == [a[i]];
    }
  }

  /** A slice ending after `i` splits off its trailing digit. */
  lemma ValueLast(a: seq<nat>, lo: nat, i: nat)
    requires lo <= i < |a|
    ensures Value(a[lo..i + 1]) == Value(a[lo..i]) * B + a[i]
  {
    assert a[lo..i + 1] == a[lo..i] + [a[i]];
    ValueAppend(a[lo..i], a[i]);
  }

  lemma ValueSplit(a: seq<nat>, lo: nat, mid: nat, hi: nat)
    requires lo <= mid <= hi <= |a|
    ensures Value(a[lo..hi]) == Value(a[lo..mid]) * Pow(B, hi - mid) + Value(a[mid..hi])
  {
    assert a[lo..hi] == a[lo..mid] + a[mid..hi];
    ValueConcat(a[lo..mid], a[mid..hi]);
  }

  lemma {:induction false} ValueBound(s: seq<nat>)
    requires Digits(s)
    ensures 0 <= Value(s) < Pow(B, |s|)
  {
    if s != [] {
      ValueBound(s[..|s| - 1]);
      MulMono(Value(s[..|s| - 1]) + 1, Pow(B, |s| - 1), B);
    }
  }

  lemma {:induction false} ValueZeros(s: seq<nat>)
    requires forall k :: 0 <= k < |s| ==> s[k] == 0
    ensures Value(s) == 0
  {
    if s != [] {
      ValueZeros(s[..|s| - 1]);
    }
  }

  lemma {:induction false} PowPositive(b: nat, e: nat)
    requires 0 < b
    ensures 0 < Pow(b, e)
  {
    if e > 0 {
      PowPositive(b, e - 1);
      MulMono(1, Pow(b, e - 1), b);
    }
  }

  // ----- D4 and D6: subtract a multiple of the divisor, add it back -----

  /** One digit of D4: the wrapped difference `t` splits into the digit kept and the borrow. */
  lemma BorrowDigit(ui: int, vi: int, qhat: int, t: int)
    requires 0 <= ui < B && 0 <= vi < B && 0 <= qhat < B && 0 <= t < B
    ensures var w := W32(ui - vi * qhat - t); var d, t' := LHalf(w), W32(B - HHalf(w)) % B;
            && 0 <= d < B && 0 <= t' < B
            && ui - vi * qhat - t == d - t' * B
  {
    MulDigits(vi, qhat);
    var x := ui - vi * qhat - t;
    assert -0x1_0000_0000 < x < B;
  }

  /** D4's running equation moves up one digit. */
  lemma BorrowStep(p: int, d: int, t': int, t: int, ui: int, vi: int, qhat: int,
                   newLow: int, oldLow: int, vLow: int)
    requires ui - vi * qhat - t == d - t' * B
    requires newLow - t * p == oldLow - qhat * vLow
    ensures (d * p + newLow) - t' * (B * p) == (ui * p + oldLow) - qhat * (vi * p + vLow)
  {
    assert (ui - vi * qhat - t) * p == ui * p - qhat * (vi * p) - t * p;
    assert (d - t' * B) * p == d * p - t' * (B * p);
  }

  /** D4's running equation after the digit at `k` has been replaced. */
  lemma MultiplySubtractStep(u: seq<nat>, u0: seq<nat>, k: nat, end: nat, v: seq<nat>, j: nat, jEnd: nat,
                             qhat: nat, t: nat, t': nat, low: seq<nat>)
    requires k < end <= |u| == |u0| && j < jEnd <= |v| && end - k == jEnd - j
    requires u[k + 1..end] == low
    requires u0[k] - v[j] * qhat - t == u[k] - t' * B
    requires Value(low) - t * Pow(B, end - k - 1)
          == Value(u0[k + 1..end]) - qhat * Value(v[j + 1..jEnd])
    ensures Value(u[k..end]) - t' * Pow(B, end - k) == Value(u0[k..end]) - qhat * Value(v[j..jEnd])
  {
    ValueHead(u, k, end);
    ValueHead(u0, k, end);
    ValueHead(v, j, jEnd);
    BorrowStep(Pow(B, end - k - 1), u[k], t', t, u0[k], v[j], qhat,
               Value(low), Value(u0[k + 1..end]), Value(v[j + 1..jEnd]));
  }

  lemma TopProduct(d: int, ui: int, t: int, c: int, p: int)
    requires d == ui - t + c
    ensures d * p == ui * p - t * p + c * p
  {
  }

  lemma BorrowTop(ui: int, t: int)
    requires 0 <= ui < B && 0 <= t < B
    ensures var w := W32(ui - t);
            0 <= LHalf(w) == ui - t + (if HHalf(w) != 0 then B else 0) < B
  {
  }

  /** The last step of D4: the top digit absorbs the borrow, wrapping once if it must. */
  lemma MultiplySubtractTop(u: seq<nat>, u0: seq<nat>, k: nat, end: nat, v: seq<nat>, qhat: nat, t: nat)
    requires k < end <= |u| == |u0| && |v| == end - k - 1
    requires 0 <= t < B && 0 <= u0[k] < B && u[k] == LHalf(W32(u0[k] - t))
    requires Value(u[k + 1..end]) - t * Pow(B, |v|) == Value(u0[k + 1..end]) - qhat * Value(v)
    ensures u[k] < B
    ensures Value(u[k..end]) == Value(u0[k..end]) - qhat * Value(v)
            + (if HHalf(W32(u0[k] - t)) != 0 then Pow(B, end - k) else 0)
  {
    hide W32, LHalf, HHalf, Value;
    BorrowTop(u0[k], t);
    ValueHead(u, k, end);
    ValueHead(u0, k, end);
    TopProduct(u[k], u0[k], t, if HHalf(W32(u0[k] - t)) != 0 then B else 0, Pow(B, |v|));
  }

  /** The loop of D4 with `i` digits to go: the digits below are subtracted but for the borrow `t`. */
  ghost predicate Subtracting(u: seq<nat>, u0: seq<nat>, uo: nat, v: seq<nat>, vo: nat, n: nat, i: nat, qhat: nat,
                              t: nat) {
    && |u| == |u0| && uo + n < |u| && vo + n <= |v| && i <= n && t < B && Digits(u)
    && (forall k :: 0 <= k < |u| && !(uo + i < k <= uo + n) ==> u[k] == u0[k])
    && Value(u[uo + i + 1..uo + n + 1]) - t * Pow(B, n - i)
       == Value(u0[uo + i + 1..uo + n + 1]) - qhat * Value(v[vo + i..vo + n])
  }

  lemma SubtractStart(u: seq<nat>, uo: nat, v: seq<nat>, vo: nat, n: nat, qhat: nat)
    requires uo + n < |u| && vo + n <= |v| && Digits(u)
    ensures Subtracting(u, u, uo, v, vo, n, n, qhat, 0)
  {
    ValueZeros(u[uo + n + 1..uo + n + 1]);
    ValueZeros(v[vo + n..vo + n]);
  }

  lemma SubtractStep(u: seq<nat>, u0: seq<nat>, uo: nat, v: seq<nat>, vo: nat, n: nat, i: nat, qhat: nat, t: nat)
    requires Subtracting(u, u0, uo, v, vo, n, i, qhat, t) && i > 0 && qhat < B && Digits(v)
    ensures var w := W32(u[uo + i] - v[vo + i - 1] * qhat - t);
            && 0 <= LHalf(w) < B && 0 <= W32(B - HHalf(w)) % B
            && Subtracting(u[uo + i := LHalf(w)], u0, uo, v, vo, n, i - 1, qhat, W32(B - HHalf(w)) % B)
  {
    hide W32, LHalf, HHalf, Value, Pow;
    BorrowDigit(u[uo + i], v[vo + i - 1], qhat, t);
    var w := W32(u[uo + i] - v[vo + i - 1] * qhat - t);
    var u' := u[uo + i := LHalf(w)];
    assert u'[uo + i + 1..uo + n + 1] == u[uo + i + 1..uo + n + 1];
    MultiplySubtractStep(u', u0, uo + i, uo + n + 1, v, vo + i - 1, vo + n, qhat, t, W32(B - HHalf(w)) % B,
                         u[uo + i + 1..uo + n + 1]);
  }

  lemma SubtractEnd(u: seq<nat>, u0: seq<nat>, uo: nat, v: seq<nat>, vo: nat, n: nat, qhat: nat, t: nat)
    requires Subtracting(u, u0, uo, v, vo, n, 0, qhat, t) && Digits(u0)
    ensures var w := W32(u[uo] - t);
            && 0 <= LHalf(w) < B
            && var u' := u[uo := LHalf(w)];
               && Digits(u') && (forall k :: 0 <= k < |u| && !(uo <= k <= uo + n) ==> u'[k] == u0[k])
               && Value(u'[uo..uo + n + 1]) == Value(u0[uo..uo + n + 1]) - qhat * Value(v[vo..vo + n])
                                               + (if HHalf(w) != 0 then Pow(B, n + 1) else 0)
  {
    hide W32, LHalf, HHalf, Value, Pow;
    BorrowTop(u0[uo], t);
    var u' := u[uo := LHalf(W32(u[uo] - t))];
    assert u'[uo + 1..uo + n + 1] == u[uo + 1..uo + n + 1];
    MultiplySubtractTop(u', u0, uo, uo + n + 1, v[vo..vo + n], qhat, t);
  }

  /** D4.  Subtracts `qhat` times the divisor digits from the window of the dividend in place;
      when the difference is negative the result is taken modulo the window and a borrow is
      reported. */
  method MultiplySubtract(u: array<nat>, uo: nat, v: array<nat>, vo: nat, n: nat, qhat: nat)
    returns (borrow: bool)
    requires u != v && uo + n < u.Length && vo + n <= v.Length
    requires Digits(u[..]) && Digits(v[..]) && qhat < B
    modifies u
    ensures Digits(u[..])
    ensures forall k :: 0 <= k < u.Length && !(uo <= k <= uo + n) ==> u[k] == old(u[k])
    ensures Value(u[uo..uo + n + 1]) ==
            old(Value(u[uo..uo + n + 1])) - qhat * Value(v[vo..vo + n])
            + (if borrow then Pow(B, n + 1) else 0)
  {
    hide W32, LHalf, HHalf, Value, Pow, Subtracting, Digits;
    ghost var u0, vs := u[..], v[..];
    var t: nat, i := 0, n;
    SubtractStart(u0, uo, vs, vo, n, qhat);
    while i > 0
      invariant 0 <= i <= n && Subtracting(u[..], u0, uo, vs, vo, n, i, qhat, t)
    {
      SubtractStep(u[..], u0, uo, vs, vo, n, i, qhat, t);
      ghost var us := u[..];
      t := W32(u[uo + i] - v[vo + i - 1] * qhat - t);
      u[uo + i] := LHalf(t);
      assert u[..] == us[uo + i := LHalf(t)];
      t := W32(B - HHalf(t)) % B;
      i := i - 1;
    }
    SubtractEnd(u[..], u0, uo, vs, vo, n, qhat, t);
    ghost var us := u[..];
    t := W32(u[uo] - t);
    u[uo] := LHalf(t);
    assert u[..] == us[uo := LHalf(t)];
    assert u[..][uo..uo + n + 1] == u[uo..uo + n + 1] && vs[vo..vo + n] == v[vo..vo + n];
    borrow := HHalf(t) != 0;
  }

  lemma CarryDigit(ui: int, vi: int, t: int)
    requires 0 <= ui < B && 0 <= vi < B && 0 <= t <= 1
    ensures var w := W32(t + W32(ui + vi));
            && 0 <= LHalf(w) < B && 0 <= HHalf(w) <= 1
            && LHalf(w) + HHalf(w) * B == t + ui + vi
  {
  }

  lemma CarryTop(ui: int, t: int) returns (c: nat)
    requires 0 <= ui < B && 0 <= t <= 1
    ensures 0 <= LHalf(W32(ui + t)) < B && LHalf(W32(ui + t)) + c * B == ui + t
  {
    c := HHalf(ui + t);
  }

  lemma CarryStep(p: int, d: int, t': int, t: int, ui: int, vi: int, newLow: int, oldLow: int, vLow: int)
    requires d + t' * B == t + ui + vi
    requires newLow + t * p == oldLow + vLow
    ensures (d * p + newLow) + t' * (B * p) == (ui * p + oldLow) + (vi * p + vLow)
  {
    assert (d + t' * B) * p == d * p + t' * (B * p);
    assert (t + ui + vi) * p == t * p + ui * p + vi * p;
  }

  lemma AddBackStep(u: seq<nat>, u0: seq<nat>, k: nat, end: nat, v: seq<nat>, j: nat, jEnd: nat,
                    t: nat, t': nat, low: seq<nat>)
    requires k < end <= |u| == |u0| && j < jEnd <= |v| && end - k == jEnd - j
    requires u[k + 1..end] == low
    requires u[k] + t' * B == t + u0[k] + v[j]
    requires Value(low) + t * Pow(B, end - k - 1) == Value(u0[k + 1..end]) + Value(v[j + 1..jEnd])
    ensures Value(u[k..end]) + t' * Pow(B, end - k) == Value(u0[k..end]) + Value(v[j..jEnd])
  {
    ValueHead(u, k, end);
    ValueHead(u0, k, end);
    ValueHead(v, j, jEnd);
    CarryStep(Pow(B, end - k - 1), u[k], t', t, u0[k], v[j],
              Value(low), Value(u0[k + 1..end]), Value(v[j + 1..jEnd]));
  }

  /** D6.  Adds the divisor back to the window in place, dropping the carry out of it. */
  method AddBack(u: array<nat>, uo: nat, v: array<nat>, vo: nat, n: nat) returns (ghost carry: nat)
    requires u != v && uo + n < u.Length && vo + n <= v.Length
    requires Digits(u[..]) && Digits(v[..])
    modifies u
    ensures Digits(u[..])
    ensures forall k :: 0 <= k < u.Length && !(uo <= k <= uo + n) ==> u[k] == old(u[k])
    ensures Value(u[uo..uo + n + 1]) + carry * Pow(B, n + 1)
         == old(Value(u[uo..uo + n + 1])) + Value(v[vo..vo + n])
  {
    hide W32, LHalf, HHalf, Value, Pow;
    ghost var u0, vs, end := u[..], v[..], uo + n + 1;
    var t: nat, i := 0, n;
    ValueZeros(u0[end..end]);
    ValueZeros(vs[vo + n..vo + n]);
    while i > 0
      invariant 0 <= i <= n && t <= 1
      invariant Digits(u[..])
      invariant forall k :: 0 <= k < u.Length && !(uo + i < k <= uo + n) ==> u[k] == u0[k]
      invariant Value(u[..][uo + i + 1..end]) + t * Pow(B, n - i)
             == Value(u0[uo + i + 1..end]) + Value(vs[vo + i..vo + n])
    {
      CarryDigit(u[uo + i], v[vo + i - 1], t);
      ghost var low, t0 := u[..][uo + i + 1..end], t;
      t := W32(t + W32(u[uo + i] + v[vo + i - 1]));
      u[uo + i] := LHalf(t);
      t := HHalf(t);
      AddBackStep(u[..], u0, uo + i, end, vs, vo + i - 1, vo + n, t0, t, low);
      i := i - 1;
    }
    assert u[..][uo + 1..end] == u[uo + 1..end];
    carry := CarryTop(u[uo], t);
    u[uo] := LHalf(W32(u[uo] + t));
    AddBackTop(u[..], u0, uo, end, vs[vo..vo + n], t, carry);
  }

  lemma AddBackTop(u: seq<nat>, u0: seq<nat>, k: nat, end: nat, v: seq<nat>, t: nat, c: nat)
    requires k < end <= |u| == |u0| && |v| == end - k - 1
    requires u[k] + c * B == u0[k] + t
    requires Value(u[k + 1..end]) + t * Pow(B, |v|) == Value(u0[k + 1..end]) + Value(v)
    ensures Value(u[k..end]) + c * Pow(B, end - k) == Value(u0[k..end]) + Value(v)
  {
    ValueHead(u, k, end);
    ValueHead(u0, k, end);
    CarryStep(Pow(B, |v|), u[k], c, t, u0[k], 0, Value(u[k + 1..end]), Value(u0[k + 1..end]), Value(v));
  }

  // ----- D3 to D6: one quotient digit -----

  /** The leading digits of window and divisor, and the power of the base below them. */
  lemma LeadingDigits(w: seq<nat>, v: seq<nat>)
    requires 2 <= |v| && |w| == |v| + 1 && Digits(w) && Digits(v) && B / 2 <= v[0]
    requires Value(w) < B * Value(v)
    ensures w[0] <= v[0] && 0 < Value(v)
    ensures var qhat := Capped((w[0] * B + w[1]) * B + w[2], v[0] * B + v[1]);
            var q := Value(w) / Value(v);
            q <= qhat <= q + 1 && 0 <= q < B
  {
    hide Capped;
    var p := Pow(B, |v| - 2);
    PowPositive(B, |v| - 2);
    ValueTop3(w);
    ValueTop2(v);
    var uTop: int, vTop: int := (w[0] * B + w[1]) * B + w[2], v[0] * B + v[1];
    LeadingBound(Value(w), Value(v), w[0], uTop, v[0], vTop, p);
    TrialDigitClose(Value(w), Value(v), uTop, vTop, p);
  }

  lemma LeadingBound(u: int, v: int, w0: int, uTop: int, v1: int, vTop: int, p: int)
    requires 0 < p && uTop * p <= u < B * v && v < (vTop + 1) * p
    requires w0 * B * B <= uTop && vTop < (v1 + 1) * B
    ensures w0 <= v1
  {
    MulMono(vTop + 1, (v1 + 1) * B, p);
    assert B * ((v1 + 1) * B * p) == ((v1 + 1) * B * B) * p;
    MulCancel(uTop, (v1 + 1) * B * B, p);
  }

  lemma ValueTop2(v: seq<nat>)
    requires 2 <= |v| && Digits(v)
    ensures var p := Pow(B, |v| - 2); var top := v[0] * B + v[1];
            top * p <= Value(v) < (top + 1) * p
  {
    hide Value, Pow;
    ValueSplit(v, 0, 2, |v|);
    assert v[0..|v|] == v;
    ValueBound(v[2..|v|]);
    ValueLast(v, 0, 1);
    ValueLast(v, 0, 0);
    ValueZeros(v[0..0]);
    TopBracket(v[0] * B + v[1], Pow(B, |v| - 2), Value(v[2..|v|]));
  }

  lemma TopBracket(top: int, p: int, low: int)
    requires 0 <= low < p
    ensures top * p <= top * p + low < (top + 1) * p
  {
  }

  lemma ValueTop3(w: seq<nat>)
    requires 3 <= |w| && Digits(w)
    ensures var p := Pow(B, |w| - 3); var top := (w[0] * B + w[1]) * B + w[2];
            top * p <= Value(w) < (top + 1) * p
  {
    hide Value, Pow;
    ValueSplit(w, 0, 3, |w|);
    assert w[0..|w|] == w;
    ValueBound(w[3..|w|]);
    ValueLast(w, 0, 2);
    ValueLast(w, 0, 1);
    ValueLast(w, 0, 0);
    ValueZeros(w[0..0]);
    TopBracket((w[0] * B + w[1]) * B + w[2], Pow(B, |w| - 3), Value(w[3..|w|]));
  }

  /** D4 with a digit that is right leaves the remainder, with a digit one too large it borrows
      and adding the divisor back once leaves the remainder. */
  lemma OneAddBackSuffices(u: int, v: int, qhat: int, p: int, w: int, borrow: bool)
    requires 0 <= u && 0 < v < p && u / v <= qhat <= u / v + 1
    requires w == u - qhat * v + (if borrow then p else 0) && 0 <= w < p
    ensures borrow <==> qhat == u / v + 1
    ensures !borrow ==> w == u % v
    ensures borrow ==> w + v == u % v + p
  {
    QuotientRemainder(u, v);
    if qhat == u / v + 1 {
      assert qhat * v == (u / v) * v + v;
    }
  }

  /** Steps D3 to D6 for one position: the quotient digit is exact and the window keeps the
      remainder. */
  method DivideStep(u: array<nat>, uo: nat, v: array<nat>, vo: nat, n: nat) returns (qhat: nat)
    requires u != v && uo + n < u.Length && vo + n <= v.Length && 2 <= n
    requires Digits(u[..]) && Digits(v[..]) && B / 2 <= v[vo]
    requires Value(u[uo..uo + n + 1]) < B * Value(v[vo..vo + n])
    modifies u
    ensures Digits(u[..]) && 0 < Value(v[vo..vo + n])
    ensures forall k :: 0 <= k < u.Length && !(uo <= k <= uo + n) ==> u[k] == old(u[k])
    ensures qhat == old(Value(u[uo..uo + n + 1])) / Value(v[vo..vo + n]) < B
    ensures Value(u[uo..uo + n + 1]) == old(Value(u[uo..uo + n + 1])) % Value(v[vo..vo + n])
  {
    hide Value, Pow, Capped, FirstEstimate;
    ghost var w, d := u[uo..uo + n + 1], v[vo..vo + n];
    LeadingDigits(w, d);
    ValueBound(d);
    qhat := TrialDigit(u[uo], u[uo + 1], u[uo + 2], v[vo], v[vo + 1]);
    var borrow := MultiplySubtract(u, uo, v, vo, n, qhat);
    ValueBound(u[uo..uo + n + 1]);
    PowGrows(n);
    OneAddBackSuffices(Value(w), Value(d), qhat, Pow(B, n + 1), Value(u[uo..uo + n + 1]), borrow);
    if borrow {
      qhat := qhat - 1;
      ghost var carry := AddBack(u, uo, v, vo, n);
      ValueBound(u[uo..uo + n + 1]);
      DropCarry(Value(u[uo..uo + n + 1]), carry, Value(w) % Value(d), Pow(B, n + 1));
    }
  }

  lemma DropCarry(w: int, carry: int, r: int, p: int)
    requires 0 <= w < p && 0 <= r < p && 0 <= carry && w + carry * p == r + p
    ensures w == r
  {
    if carry == 0 {
    } else if 2 <= carry {
      MulMono(2, carry, p);
    }
  }

  lemma PowGrows(n: nat)
    ensures 0 < Pow(B, n) < Pow(B, n + 1)
  {
    PowPositive(B, n);
    MulMono(2, B, Pow(B, n));
  }

  // ----- D1 and D8: normalise, denormalise -----

  lemma MulAssociative(a: int, b: int, c: int)
    ensures a * (b * c) == (a * b) * c
  {
  }

  lemma {:induction false} PowAdd(b: nat, d: nat, e: nat)
    ensures Pow(b, d + e) == Pow(b, d) * Pow(b, e)
  {
    if d > 0 {
      PowAdd(b, d - 1, e);
      MulAssociative(b, Pow(b, d - 1), Pow(b, e));
    }
  }

  lemma SixteenBits()
    ensures Pow(2, 16) == B
  {
    assert Pow(2, 4) == 16;
    PowAdd(2, 4, 4);
    PowAdd(2, 8, 8);
  }

  /** A shift count splits the base into two powers of two. */
  lemma SplitBase(d: nat)
    requires d <= 16
    ensures Pow(2, d) * Pow(2, 16 - d) == B && 0 < Pow(2, d) && 0 < Pow(2, 16 - d)
  {
    PowAdd(2, d, 16 - d);
    PowPositive(2, d);
    PowPositive(2, 16 - d);
    SixteenBits();
  }

  /** The bits of a digit that stay in it when it is shifted left. */
  function StayingBits(x: nat, sh: nat): nat {
    LHalf(W32(x * Pow(2, sh)))
  }

  /** The bits of a digit that move into its left neighbour when it is shifted left. */
  function MovingBits(x: nat, sh: nat): nat
    requires sh <= 16
  {
    PowPositive(2, 16 - sh);
    x / Pow(2, 16 - sh)
  }

  lemma ShiftArith(x: int, k: int, g: int)
    requires 0 <= x < B && 0 < k && 0 < g && k * g == B
    ensures x * k == (x / g) * B + (x % g) * k && 0 <= (x % g) * k <= B - k
    ensures 0 <= x / g < k && 0 <= x * k < 0x1_0000_0000
  {
    QuotientRemainder(x, g);
    assert x * k == ((x / g) * g) * k + (x % g) * k;
    assert ((x / g) * g) * k == (x / g) * B;
    MulNonNeg(x % g, k);
    MulMono(x % g + 1, g, k);
    MulCancel(x / g, k, g);
    MulMono(1, g, k);
    MulMono(k, B, x);
    MulNonNeg(x, k);
  }

  /** Shifting a digit left splits it into the bits that stay and the bits that move. */
  lemma ShiftDigit(x: nat, sh: nat)
    requires x < B && sh <= 16
    ensures x * Pow(2, sh) == MovingBits(x, sh) * B + StayingBits(x, sh)
    ensures 0 < Pow(2, sh) && 0 < Pow(2, 16 - sh) && StayingBits(x, sh) % Pow(2, sh) == 0
    ensures StayingBits(x, sh) == (x % Pow(2, 16 - sh)) * Pow(2, sh)
    ensures 0 <= StayingBits(x, sh) <= B - Pow(2, sh) && 0 <= MovingBits(x, sh) < Pow(2, sh)
  {
    hide Pow;
    var k, g := Pow(2, sh), Pow(2, 16 - sh);
    SplitBase(sh);
    ShiftArith(x, k, g);
    QuotientUnique(x * k, B, x / g);
    QuotientUnique((x % g) * k, k, x % g);
  }

  lemma NothingMoves(x: nat, sh: nat)
    requires sh <= 16 && x < Pow(2, 16 - sh)
    ensures MovingBits(x, sh) == 0
  {
    QuotientUnique(x, Pow(2, 16 - sh), 0);
  }

  /** Shifts the digits `p[off..off+len]` left by `sh` bits in place.  With no bit falling out at
      the top, the number they stand for is multiplied by 2^sh. */
  method Shl(p: array<nat>, off: nat, len: nat, sh: nat)
    requires off + len < p.Length && 0 < sh < 16 && Digits(p[..])
    requires p[off] < Pow(2, 16 - sh)
    modifies p
    ensures Digits(p[..])
    ensures forall k :: 0 <= k < p.Length && !(off <= k <= off + len) ==> p[k] == old(p[k])
    ensures Value(p[off..off + len + 1]) == old(Value(p[off..off + len + 1])) * Pow(2, sh)
    ensures old(p[off]) * Pow(2, sh) <= p[off]
  {
    hide Value, Pow, StayingBits, MovingBits;
    ghost var p0 := p[..];
    ValueZeros(p0[off..off]);
    ShiftDigit(p0[off], sh);
    NothingMoves(p0[off], sh);
    var i := 0;
    while i < len
      invariant 0 <= i <= len && Digits(p[..])
      invariant forall j :: 0 <= j < p.Length && !(off <= j < off + i) ==> p[j] == p0[j]
      invariant Value(p[..][off..off + i])
             == Value(p0[off..off + i]) * Pow(2, sh) + MovingBits(p0[off + i], sh)
      invariant 0 < i ==> StayingBits(p0[off], sh) <= p[off]
    {
      ghost var done := p[..][off..off + i];
      ShiftDigit(p0[off + i], sh);
      ShiftDigit(p0[off + i + 1], sh);
      p[off + i] := Or(StayingBits(p[off + i], sh), MovingBits(p[off + i + 1], sh), Pow(2, sh));
      ShlStep(p[..], p0, off, off + i, sh, done);
      i := i + 1;
    }
    ghost var done := p[..][off..off + i];
    ShiftDigit(p0[off + i], sh);
    p[off + i] := StayingBits(p[off + i], sh);
    ShlStep(p[..], p0, off, off + i, sh, done);
    assert p[..][off..off + len + 1] == p[off..off + len + 1];
  }

  lemma ShlStep(p: seq<nat>, p0: seq<nat>, off: nat, i: nat, sh: nat, done: seq<nat>)
    requires off <= i < |p| == |p0| && p[off..i] == done && sh <= 16 && p0[i] < B
    requires Value(done) == Value(p0[off..i]) * Pow(2, sh) + MovingBits(p0[i], sh)
    ensures Value(p[off..i + 1])
         == Value(p0[off..i + 1]) * Pow(2, sh) + (p[i] - StayingBits(p0[i], sh))
  {
    hide Pow, StayingBits, MovingBits, Value;
    ValueLast(p, off, i);
    ValueLast(p0, off, i);
    ShiftDigit(p0[i], sh);
    ShlArith(Value(p0[off..i]), Pow(2, sh), MovingBits(p0[i], sh), p0[i], StayingBits(p0[i], sh));
  }

  lemma ShlArith(low: int, k: int, h: int, d: int, l: int)
    requires d * k == h * B + l
    ensures (low * k + h) * B + l == (low * B + d) * k
  {
    assert (low * B + d) * k == (low * k) * B + d * k;
  }

  /** D1's multiplier: the shift count that brings the leading divisor digit to at least B / 2. */
  method NormalisingShift(v1: nat) returns (d: nat)
    requires 0 < v1 < B
    ensures d < 16 && B / 2 <= v1 * Pow(2, d) < B
  {
    d := 0;
    var t := v1;
    while t < B / 2
      invariant t == v1 * Pow(2, d) < B
      decreases B - t
    {
      ShiftGrows(v1, d);
      t := W32(t * 2);
      d := d + 1;
    }
    if 16 <= d {
      PowAdd(2, 16, d - 16);
      SixteenBits();
      PowPositive(2, d - 16);
      MulMono(1, Pow(2, d - 16), B);
      MulMono(1, v1, Pow(2, d));
    }
  }

  lemma ShiftGrows(v1: nat, d: nat)
    requires 0 < v1
    ensures v1 * Pow(2, d + 1) == 2 * (v1 * Pow(2, d)) && 0 < v1 * Pow(2, d)
  {
    PowPositive(2, d);
    MulMono(1, v1, Pow(2, d));
  }

  /** D8.  Shifts the digits `u[lo..]` right by `d` bits in place, the digit before them being
      zero: the number they stand for is divided by 2^d. */
  method Shr(u: array<nat>, lo: nat, d: nat)
    requires 0 < lo <= u.Length && 0 < d < 16 && Digits(u[..]) && u[lo - 1] == 0
    modifies u
    ensures Digits(u[..]) && 0 < Pow(2, d)
    ensures forall k :: 0 <= k < lo ==> u[k] == old(u[k])
    ensures Value(u[lo..]) == old(Value(u[lo..])) / Pow(2, d)
  {
    hide Value, Pow, StayingBits;
    ghost var u0, end := u[..], u.Length;
    SplitBase(d);
    ValueZeros(u0[end..end]);
    PowZero();
    ShrBits(u0[end - 1], d);
    var i := u.Length - 1;
    while i >= lo
      invariant lo - 1 <= i < end && Digits(u[..])
      invariant forall k :: 0 <= k <= i ==> u[k] == u0[k]
      invariant Pow(2, d) * Value(u[..][i + 1..end]) + u0[end - 1] % Pow(2, d)
             == Value(u0[i + 1..end]) + (u0[i] % Pow(2, d)) * Pow(B, end - i - 1)
    {
      ghost var low := u[..][i + 1..end];
      ShrBits(u0[i], d);
      ShrBits(u0[i - 1], d);
      u[i] := Or(StayingBits(u[i - 1], 16 - d), u[i] / Pow(2, d), Pow(2, 16 - d));
      ShrStep(u[..], u0, i, end, d, low);
      i := i - 1;
    }
    assert u[..][lo..end] == u[lo..] && u0[lo..end] == u0[lo..];
    ShrEnd(Value(u[lo..]), Value(u0[lo..]), u0[end - 1], Pow(2, d), Pow(B, end - lo));
  }

  lemma PowStep(e: nat)
    ensures Pow(B, e + 1) == B * Pow(B, e)
  {
  }

  lemma PowZero()
    ensures Pow(B, 0) == 1
  {
  }

  /** A digit shifted right by `d` keeps its high bits; its low bits reappear at the top of the
      digit on its right. */
  lemma ShrBits(x: nat, d: nat)
    requires x < B && d <= 16
    ensures 0 < Pow(2, d) && 0 < Pow(2, 16 - d)
    ensures StayingBits(x, 16 - d) == (x % Pow(2, d)) * Pow(2, 16 - d) <= B - Pow(2, 16 - d)
    ensures StayingBits(x, 16 - d) % Pow(2, 16 - d) == 0
    ensures 0 <= x / Pow(2, d) < Pow(2, 16 - d)
    ensures Pow(2, d) * (x / Pow(2, d)) + x % Pow(2, d) == x
    ensures Pow(2, d) * StayingBits(x, 16 - d) == (x % Pow(2, d)) * B
  {
    hide Pow, StayingBits;
    ShiftDigit(x, 16 - d);
    SplitBase(d);
    var k, g := Pow(2, d), Pow(2, 16 - d);
    QuotientRemainder(x, k);
    MulCancel(x / k, g, k);
    assert k * ((x % k) * g) == (x % k) * (k * g);
  }

  lemma ShrStep(u: seq<nat>, u0: seq<nat>, i: nat, end: nat, d: nat, low: seq<nat>)
    requires 0 < i < end == |u| == |u0| && d <= 16 && u0[i] < B && u0[i - 1] < B && 0 < Pow(2, d)
    requires u[i + 1..end] == low
    requires u[i] == StayingBits(u0[i - 1], 16 - d) + u0[i] / Pow(2, d)
    requires Pow(2, d) * Value(low) + u0[end - 1] % Pow(2, d)
          == Value(u0[i + 1..end]) + (u0[i] % Pow(2, d)) * Pow(B, end - i - 1)
    ensures Pow(2, d) * Value(u[i..end]) + u0[end - 1] % Pow(2, d)
         == Value(u0[i..end]) + (u0[i - 1] % Pow(2, d)) * Pow(B, end - i)
  {
    hide Pow, StayingBits, Value;
    var p := Pow(B, end - i - 1);
    PowStep(end - i - 1);
    ValueHead(u, i, end);
    ValueHead(u0, i, end);
    ShrBits(u0[i], d);
    ShrBits(u0[i - 1], d);
    ShrArith(Pow(2, d), u0[i] / Pow(2, d), u0[i] % Pow(2, d), StayingBits(u0[i - 1], 16 - d),
             u0[i - 1] % Pow(2, d), u0[i], p, Value(low), Value(u0[i + 1..end]), u0[end - 1] % Pow(2, d));
  }

  lemma ShrArith(k: int, h: int, l: int, s: int, l1: int, x: int, p: int, newLow: int, oldLow: int, r: int)
    requires k * h + l == x && k * s == l1 * B
    requires k * newLow + r == oldLow + l * p
    ensures k * ((s + h) * p + newLow) + r == (x * p + oldLow) + l1 * (B * p)
  {
    assert k * ((s + h) * p + newLow) == (k * s) * p + (k * h) * p + k * newLow;
    assert (k * h + l) * p == (k * h) * p + l * p;
    assert (l1 * B) * p == l1 * (B * p);
  }

  lemma ShrEnd(newValue: int, oldValue: int, last: int, k: int, p: int)
    requires 0 < k && 0 <= oldValue && 0 <= last
    requires k * newValue + last % k == oldValue + (0 % k) * p
    ensures newValue == oldValue / k
  {
    QuotientRemainder(last, k);
    DivideZero(k);
    assert (newValue + 1) * k == newValue * k + k;
    QuotientUnique(oldValue, k, newValue);
  }

  lemma DivideZero(k: int)
    requires 0 < k
    ensures 0 % k == 0
  {
    QuotientUnique(0, k, 0);
  }

  // ----- D2 to D7: all quotient digits -----

  /** The part of the loop invariant of D2 to D7 about values: what has been divided so far. */
  ghost predicate Divided(u: seq<nat>, uo: nat, q: seq<nat>, v: int, total: int, rest: nat) {
    uo <= |u| && total == Value(u[uo..]) + Value(q) * (v * Pow(B, rest))
  }

  lemma LeadingZeros(u: seq<nat>, lo: nat, mid: nat, hi: nat)
    requires lo <= mid <= hi <= |u|
    requires forall k :: lo <= k < mid ==> u[k] == 0
    ensures Value(u[lo..hi]) == Value(u[mid..hi])
  {
    ValueSplit(u, lo, mid, hi);
    ValueZeros(u[lo..mid]);
  }

  lemma LeadingDigitZero(u: seq<nat>, i: nat, hi: nat)
    requires i < hi <= |u| && Value(u[i..hi]) < Pow(B, hi - i - 1)
    ensures u[i] == 0
  {
    ValueHead(u, i, hi);
    if 1 <= u[i] {
      MulMono(1, u[i], Pow(B, hi - i - 1));
    }
  }

  /** The window for the next digit is less than B divisors. */
  lemma NextWindow(u: seq<nat>, i: nat, mid: nat, v: int)
    requires i <= mid < |u| && u[mid] < B && Value(u[i..mid]) < v
    ensures Value(u[i..mid + 1]) < B * v
  {
    ValueLast(u, i, mid);
  }

  /** Dividing one more window keeps the total. */
  lemma DividedStep(u0: seq<nat>, u: seq<nat>, uo: nat, j: nat, n: nat, q: seq<nat>, digit: nat,
                    v: int, total: int, rest: nat)
    requires |u0| == |u| == uo + j + n + 1 + rest && 0 < v < Pow(B, n)
    requires forall k :: 0 <= k < |u| && !(uo + j <= k <= uo + j + n) ==> u[k] == u0[k]
    requires forall k :: uo <= k < uo + j ==> u0[k] == 0
    requires digit == Value(u0[uo + j..uo + j + n + 1]) / v
    requires Value(u[uo + j..uo + j + n + 1]) == Value(u0[uo + j..uo + j + n + 1]) % v
    requires Divided(u0, uo, q, v, total, rest + 1)
    ensures Divided(u, uo, q + [digit], v, total, rest)
  {
    var mid := uo + j + n + 1;
    var p := Pow(B, rest);
    hide Pow, Value;
    PowStep(rest);
    assert u[uo..] == u[uo..|u|] && u0[uo..] == u0[uo..|u0|];
    LeadingZeros(u, uo, uo + j, |u|);
    LeadingZeros(u0, uo, uo + j, |u|);
    ValueSplit(u, uo + j, mid, |u|);
    ValueSplit(u0, uo + j, mid, |u|);
    assert u[mid..|u|] == u0[mid..|u|];
    ValueAppend(q, digit);
    var w := Value(u0[uo + j..mid]);
    QuotientRemainder(w, v);
    DividedArith(w, digit, v, w % v, p, Value(q), Value(u[mid..|u|]));
  }

  /** A window that holds a remainder starts with a zero digit. */
  lemma WindowLeft(u: seq<nat>, i: nat, mid: nat, w: int, v: int)
    requires i < mid <= |u| && 0 <= w && 0 < v < Pow(B, mid - i - 1) && Value(u[i..mid]) == w % v
    ensures u[i] == 0 && Value(u[i + 1..mid]) < v
  {
    QuotientRemainder(w, v);
    LeadingDigitZero(u, i, mid);
    LeadingZeros(u, i, i + 1, mid);
  }

  lemma DividedArith(w: int, digit: int, v: int, r: int, p: int, q: int, low: int)
    requires w == digit * v + r
    ensures (w * p + low) + q * (v * (B * p)) == (r * p + low) + (q * B + digit) * (v * p)
  {
    assert w * p == (digit * v) * p + r * p;
    assert (digit * v) * p == digit * (v * p);
    assert q * (v * (B * p)) == (q * B) * (v * p);
    assert (q * B + digit) * (v * p) == (q * B) * (v * p) + digit * (v * p);
  }

  /** One turn of the loop of D2 to D7, at the window that starts with digit `i` of the dividend;
      `done` are the quotient digits found before. */
  method NextDigit(u: array<nat>, uo: nat, i: nat, v: array<nat>, vo: nat, n: nat, rest: nat,
                   ghost done: seq<nat>, ghost total: int)
    returns (digit: nat)
    requires u != v && 2 <= n && uo <= i
    requires u.Length == i + n + 1 + rest && v.Length == vo + n
    requires Digits(u[..]) && Digits(v[..]) && B / 2 <= v[vo]
    requires forall k :: 0 <= k < i ==> u[k] == 0
    requires Value(u[..][i..i + n]) < Value(v[vo..])
    requires Divided(u[..], uo, done, Value(v[vo..]), total, rest + 1)
    modifies u
    ensures Digits(u[..]) && digit < B
    ensures forall k :: 0 <= k < i + 1 ==> u[k] == 0
    ensures Value(u[..][i + 1..i + 1 + n]) < Value(v[vo..])
    ensures Divided(u[..], uo, done + [digit], Value(v[vo..]), total, rest)
  {
    hide Value, Pow, Divided;
    ghost var u0, d := u[..], v[vo..];
    assert v[vo..vo + n] == d;
    ValueBound(d);
    NextWindow(u0, i, i + n, Value(d));
    assert u[i..i + n + 1] == u0[i..i + n + 1];
    digit := DivideStep(u, i, v, vo, n);
    assert u[..][i..i + n + 1] == u[i..i + n + 1];
    DividedStep(u0, u[..], uo, i - uo, n, done, digit, Value(d), total, rest);
    WindowLeft(u[..], i, i + n + 1, Value(u0[i..i + n + 1]), Value(d));
  }

  /** The loop of D2 to D7 over normalised operands: digits `u[uo..]` are divided by `v[vo..]`,
      the quotient digits go to `q[qo..]` and the remainder stays in the low digits of `u`. */
  method DivideDigits(u: array<nat>, uo: nat, v: array<nat>, vo: nat, n: nat, q: array<nat>, qo: nat, m: nat)
    requires u != v && v != q && u != q && 2 <= n
    requires u.Length == uo + m + n + 1 && v.Length == vo + n && q.Length == qo + m + 1
    requires Digits(u[..]) && Digits(v[..]) && B / 2 <= v[vo]
    requires forall k :: 0 <= k < uo ==> u[k] == 0
    requires Value(u[..][uo..uo + n]) < Value(v[vo..])
    modifies u, q
    ensures Digits(u[..]) && Digits(q[qo..])
    ensures forall k :: 0 <= k < qo ==> q[k] == old(q[k])
    ensures forall k :: 0 <= k <= uo + m ==> u[k] == 0
    ensures old(Value(u[uo..])) == Value(q[qo..]) * Value(v[vo..]) + Value(u[uo + m + 1..])
    ensures Value(u[uo + m + 1..]) < Value(v[vo..])
  {
    hide Value, Pow, Divided;
    ghost var total: int, d := Value(u[uo..]), v[vo..];
    DividedStart(u[..], uo, Value(d), m + 1);
    assert u[uo..] == u[..][uo..] && q[..][qo..qo] == [];
    var j := 0;
    while j <= m
      invariant 0 <= j <= m + 1 && Digits(u[..]) && v[vo..] == d
      invariant forall k :: qo <= k < qo + j ==> q[k] < B
      invariant forall k :: 0 <= k < qo ==> q[k] == old(q[k])
      invariant forall k :: 0 <= k < uo + j ==> u[k] == 0
      invariant Value(u[..][uo + j..uo + j + n]) < Value(d)
      invariant Divided(u[..], uo, q[..][qo..qo + j], Value(d), total, m + 1 - j)
    {
      ghost var done := q[..][qo..qo + j];
      var digit := NextDigit(u, uo, uo + j, v, vo, n, m - j, done, total);
      q[qo + j] := digit;
      assert q[..][qo..qo + j + 1] == done + [digit];
      j := j + 1;
    }
    assert q[..][qo..qo + j] == q[qo..];
    assert u[..][uo + j..uo + j + n] == u[uo + m + 1..];
    DividedEnd(u[..], uo, uo + j, q[qo..], Value(d), total);
  }

  lemma DividedStart(u: seq<nat>, uo: nat, v: int, rest: nat)
    requires uo <= |u|
    ensures Divided(u, uo, [], v, Value(u[uo..]), rest)
  {
    ValueZeros([]);
  }

  lemma DividedEnd(u: seq<nat>, uo: nat, mid: nat, q: seq<nat>, v: int, total: int)
    requires Divided(u, uo, q, v, total, 0) && uo <= mid <= |u|
    requires forall k :: uo <= k < mid ==> u[k] == 0
    ensures total == Value(q) * v + Value(u[mid..])
  {
    hide Value, Pow;
    PowZero();
    LeadingZeros(u, uo, mid, |u|);
    assert u[uo..|u|] == u[uo..] && u[mid..|u|] == u[mid..];
    assert Value(q) * (v * Pow(B, 0)) == Value(q) * v;
  }

  // ----- the whole division -----

  datatype Division = DivideByZero | Quotient(quotient: uint64, remainder: uint64)

  /** Four digits below a leading zero, the way `uspace` and `qspace` hold a 64-bit number. */
  lemma FourDigits(a: seq<nat>)
    requires |a| == 5 && Digits(a)
    ensures Value(a[1..]) == ((a[1] * B + a[2]) * B + a[3]) * B + a[4] < 0x1_0000_0000_0000_0000
    ensures a[0] == 0 ==> Value(a) == Value(a[1..])
  {
    assert a[1..] == a[1..5] && a == a[0..5];
    ValueZeros(a[1..1]);
    ValueLast(a, 1, 1);
    ValueLast(a, 1, 2);
    ValueLast(a, 1, 3);
    ValueLast(a, 1, 4);
    if a[0] == 0 { LeadingZeros(a, 0, 1, 5); }
  }

  /** The two 32-bit halves of a 64-bit number, each split into two digits. */
  method Split(x: uint64, a: array<nat>)
    requires a.Length == 5
    modifies a
    ensures a[0] == 0 && Digits(a[..]) && Value(a[..]) == x
  {
    var hi: nat, lo: nat := x / 0x1_0000_0000, x % 0x1_0000_0000;
    a[0] := 0;
    a[1], a[2] := HHalf(hi), LHalf(hi);
    a[3], a[4] := HHalf(lo), LHalf(lo);
    FourDigits(a[..]);
    assert (a[1] * B + a[2]) == hi && (a[3] * B + a[4]) == lo;
  }

  /** The 64-bit number reassembled from the digits 1 to 4. */
  function Join(a: seq<nat>): (x: uint64)
    requires |a| == 5 && Digits(a)
    ensures x == Value(a[1..])
  {
    FourDigits(a);
    CombineValue(a[1], a[2]);
    CombineValue(a[3], a[4]);
    Combine(a[1], a[2]) * 0x1_0000_0000 + Combine(a[3], a[4])
  }

  /** One digit of the short division of exercise 16. */
  lemma ShortStep(u: int, q: int, r: int, t: int, d: int)
    requires u == q * t + r && 0 <= r < t < B && 0 <= d < B
    ensures var rbj := r * B + d;
            && 0 <= rbj / t < B && 0 <= rbj % t < t
            && u * B + d == (q * B + rbj / t) * t + rbj % t
  {
    var rbj := r * B + d;
    QuotientRemainder(rbj, t);
    MulCancel(rbj / t, B, t);
    assert (q * B + rbj / t) * t == (q * t) * B + (rbj / t) * t;
  }

  /** Division by a single digit, unrolled as in the source. */
  method ShortDivision(u: seq<nat>, t: nat) returns (q: uint64, r: uint64)
    requires |u| == 5 && Digits(u) && 0 < t < B
    ensures q == Value(u[1..]) / t && r == Value(u[1..]) % t
  {
    FourDigits(u);
    hide Value, Combine;
    QuotientRemainder(u[1], t);
    DivideDigit(u[1], t);
    var q1 := u[1] / t;
    CombineValue(u[1] % t, u[2]);
    ShortStep(u[1], q1, u[1] % t, t, u[2]);
    var rbj := Combine(u[1] % t, u[2]);
    var q2 := rbj / t;
    ghost var v2, w2 := u[1] * B + u[2], q1 * B + q2;
    CombineValue(rbj % t, u[3]);
    ShortStep(v2, w2, rbj % t, t, u[3]);
    rbj := Combine(rbj % t, u[3]);
    var q3 := rbj / t;
    ghost var v3, w3 := v2 * B + u[3], w2 * B + q3;
    CombineValue(rbj % t, u[4]);
    ShortStep(v3, w3, rbj % t, t, u[4]);
    rbj := Combine(rbj % t, u[4]);
    var q4 := rbj / t;
    r := rbj % t;
    CombineValue(q1, q2);
    CombineValue(q3, q4);
    q := Combine(q1, q2) * 0x1_0000_0000 + Combine(q3, q4);
    ShortEnd(v3 * B + u[4], q, t, r);
  }

  lemma DivideDigit(x: int, t: int)
    requires 0 <= x < B && 0 < t
    ensures 0 <= x / t < B
  {
    QuotientRemainder(x, t);
    MulMono(1, t, x / t);
    MulNonNeg(x / t, t);
  }

  lemma ShortEnd(u: int, q: int, t: int, r: int)
    requires 0 <= u && u == q * t + r && 0 <= r < t
    ensures u / t == q && u % t == r
  {
    assert (q + 1) * t == q * t + t;
    QuotientUnique(u, t, q);
  }

  /** Division is unchanged by scaling both operands, and the remainder scales with them. */
  lemma ScaledDivision(u: int, v: int, k: int, q: int, r: int)
    requires 0 <= u && 0 < v && 0 < k
    requires u * k == q * (v * k) + r && 0 <= r < v * k
    ensures q == u / v && r == (u % v) * k && r / k == u % v
  {
    assert q * (v * k) == (q * v) * k;
    assert r == (u - q * v) * k;
    MulCancel(-1, u - q * v, k);
    MulCancel(u - q * v, v, k);
    assert (q + 1) * v == q * v + v;
    QuotientUnique(u, v, q);
    QuotientUnique(r, k, u - q * v);
  }

  /** The leading `n` digits of the dividend are below the divisor, also after both are scaled. */
  lemma TopBelowDivisor(u: seq<nat>, uo: nat, n: nat, m: nat, total: int, v: int, k: int)
    requires |u| == uo + m + n + 1 && 0 < n
    requires Value(u[uo..]) == total * k && 0 < k
    requires 0 <= total < Pow(B, m + n) && Pow(B, n - 1) <= v
    ensures Value(u[uo..uo + n]) < v * k
  {
    var p := Pow(B, m + 1);
    PowPositive(B, m + 1);
    PowAdd(B, m + 1, n - 1);
    ValueSplit(u, uo, uo + n, |u|);
    assert u[uo..] == u[uo..|u|];
    hide Pow, Value;
    TopArith(Value(u[uo..uo + n]), p, total, v, k, Pow(B, n - 1));
  }

  lemma TopArith(top: int, p: int, total: int, v: int, k: int, b: int)
    requires 0 < p && 0 < k && top * p <= total * k && total < p * b && b <= v
    ensures top < v * k
  {
    MulMono(b, v, p);
    assert total < v * p;
    assert (total + 1) * k <= (v * p) * k by { MulMono(total + 1, v * p, k); }
    assert (v * p) * k == (v * k) * p;
    MulCancel(top, v * k, p);
  }

  lemma DivisorBounds(v: seq<nat>, n: nat)
    requires |v| == 5 && 0 < n < 5 && Digits(v) && v[5 - n] != 0
    requires forall k :: 0 <= k < 5 - n ==> v[k] == 0
    ensures Value(v) == Value(v[5 - n..])
    ensures 0 < Pow(B, n - 1) <= Value(v)
  {
    assert v == v[0..5] && v[5 - n..5] == v[5 - n..];
    LeadingZeros(v, 0, 5 - n, 5);
    ValueHead(v, 5 - n, 5);
    PowPositive(B, n - 1);
    MulMono(1, v[5 - n], Pow(B, n - 1));
  }

  lemma DividendBounds(u: seq<nat>, uo: nat)
    requires |u| == 5 && uo < 5 && Digits(u)
    requires forall k :: 0 <= k <= uo ==> u[k] == 0
    ensures Value(u) == Value(u[uo..]) < Pow(B, 4 - uo)
  {
    assert u == u[0..5] && u[uo..5] == u[uo..];
    LeadingZeros(u, 0, uo, 5);
    LeadingZeros(u, 0, uo + 1, 5);
    ValueBound(u[uo + 1..5]);
  }

  lemma TwoToTheZero()
    ensures Pow(2, 0) == 1
  {
  }

  /** D1 to D8 on the digit arrays: `us` holds the dividend with its first nonzero digit at
      `uo + 1`, `vs` the divisor with its first nonzero digit at `5 - n`. */
  method AlgorithmD(us: array<nat>, uo: nat, vs: array<nat>, n: nat, qs: array<nat>, m: nat)
    requires us.Length == vs.Length == qs.Length == 5 && us != vs && vs != qs && us != qs
    requires 2 <= n && uo + m + n == 4
    requires Digits(us[..]) && Digits(vs[..])
    requires forall k :: 0 <= k <= uo ==> us[k] == 0
    requires forall k :: 0 <= k < 5 - n ==> vs[k] == 0
    requires vs[5 - n] != 0
    modifies us, vs, qs
    ensures Digits(us[..]) && Digits(qs[..]) && 0 < old(Value(vs[..]))
    ensures Value(qs[1..]) == old(Value(us[..])) / old(Value(vs[..]))
    ensures Value(us[1..]) == old(Value(us[..])) % old(Value(vs[..]))
  {
    hide Value, Pow;
    ghost var u, v := us[..], vs[..];
    DivisorBounds(v, n);
    DividendBounds(u, uo);
    var i := 4 - m;
    while i > 0
      modifies qs
      invariant 0 <= i <= 4 - m
      invariant forall k :: i <= k < 4 - m ==> qs[k] == 0
    {
      i := i - 1;
      qs[i] := 0;
    }
    assert us[..] == u && vs[..] == v;
    var d := Normalise(us, uo, vs, n);
    TopBelowDivisor(us[..], uo, n, m, Value(u), Value(v), Pow(2, d));
    DivideDigits(us, uo, vs, 5 - n, n, qs, 4 - m, m);
    ScaledDivision(Value(u), Value(v), Pow(2, d), Value(qs[4 - m..]), Value(us[5 - n..]));
    if d > 0 {
      Shr(us, 5 - n, d);
    } else {
      TwoToTheZero();
    }
    LowDigits(us[..], 5 - n);
    LowDigits(qs[..], 4 - m);
    assert us[..][1..] == us[1..] && us[..][5 - n..] == us[5 - n..];
    assert qs[..][1..] == qs[1..] && qs[..][4 - m..] == qs[4 - m..];
  }

  lemma LowDigits(a: seq<nat>, lo: nat)
    requires |a| == 5 && 1 <= lo <= 5 && forall k :: 1 <= k < lo ==> a[k] == 0
    ensures Value(a[1..]) == Value(a[lo..])
  {
    assert a[1..] == a[1..5] && a[lo..] == a[lo..5];
    LeadingZeros(a, 1, lo, 5);
  }

  /** D1: both operands are shifted left until the leading divisor digit is at least B / 2. */
  method Normalise(us: array<nat>, uo: nat, vs: array<nat>, n: nat) returns (d: nat)
    requires us.Length == vs.Length == 5 && us != vs && uo < 5 && 1 <= n <= 4
    requires Digits(us[..]) && Digits(vs[..]) && us[uo] == 0 && vs[5 - n] != 0
    modifies us, vs
    ensures d < 16 && 0 < Pow(2, d)
    ensures Digits(us[..]) && Digits(vs[..]) && B / 2 <= vs[5 - n]
    ensures forall k :: 0 <= k < uo ==> us[k] == old(us[k])
    ensures Value(us[..][uo..]) == Value(us[uo..]) == old(Value(us[..][uo..])) * Pow(2, d)
    ensures Value(vs[5 - n..]) == old(Value(vs[..][5 - n..])) * Pow(2, d)
  {
    hide Value, Pow;
    ghost var u, v := us[..], vs[..];
    assert u[uo..] == u[uo..5] && v[5 - n..] == v[5 - n..5];
    d := NormalisingShift(vs[5 - n]);
    SplitBase(d);
    if d > 0 {
      assert us[uo..5] == u[uo..5];
      Shl(us, uo, 4 - uo, d);
      assert vs[..] == v && vs[5 - n..5] == v[5 - n..5];
      MulCancel(vs[5 - n], Pow(2, 16 - d), Pow(2, d));
      Shl(vs, 5 - n, n - 1, d);
    } else {
      TwoToTheZero();
    }
    assert us[uo..5] == us[uo..] == us[..][uo..] && vs[5 - n..5] == vs[5 - n..];
  }

  /** The whole of `__qdivrem`: for every dividend and every nonzero divisor it returns the exact
      quotient and stores the exact remainder; a zero divisor traps. */
  method Qdivrem(uq: uint64, vq: uint64) returns (result: Division)
    ensures vq == 0 <==> result.DivideByZero?
    ensures vq != 0 ==> result == Quotient(uq / vq, uq % vq)
  {
    hide Value, Join;
    if vq == 0 {
      return DivideByZero;
    }
    if uq < vq {
      SmallDividend(uq, vq);
      return Quotient(0, uq);
    }
    var us, vs, qs := new nat[5], new nat[5], new nat[5];
    Split(uq, us);
    ghost var u0 := us[..];
    Split(vq, vs);
    ghost var v0 := vs[..];
    var n, vb := 4, 0;
    while vs[vb + 1] == 0
      invariant us[..] == u0 && vs[..] == v0
      invariant 0 <= vb <= 2 && n == 4 - vb
      invariant forall k :: 0 <= k <= vb ==> vs[k] == 0
      decreases n
    {
      n := n - 1;
      if n == 1 {
        SingleDigit(v0);
        FourDigits(u0);
        var q, r := ShortDivision(us[..], vs[vb + 2]);
        return Quotient(q, r);
      }
      vb := vb + 1;
    }
    var m, uo := 4 - n, 0;
    while us[uo + 1] == 0
      invariant us[..] == u0 && vs[..] == v0
      invariant 0 <= m && uo + m + n == 4
      invariant forall k :: 0 <= k <= uo ==> us[k] == 0
      decreases m
    {
      EnoughDigits(u0, uo + 1, v0, n);
      uo, m := uo + 1, m - 1;
    }
    AlgorithmD(us, uo, vs, n, qs, m);
    assert us[..][1..] == us[1..] && qs[..][1..] == qs[1..];
    result := Quotient(Join(qs[..]), Join(us[..]));
  }

  lemma SmallDividend(u: int, v: int)
    requires 0 <= u < v
    ensures u / v == 0 && u % v == u
  {
    QuotientUnique(u, v, 0);
  }

  lemma SingleDigit(v: seq<nat>)
    requires |v| == 5 && forall k :: 0 <= k < 4 ==> v[k] == 0
    ensures Value(v) == v[4]
  {
    assert v == v[0..5];
    LeadingZeros(v, 0, 4, 5);
    ValueZeros(v[4..4]);
    ValueLast(v, 4, 4);
  }

  /** A dividend that is not below the divisor has at least as many digits. */
  lemma EnoughDigits(u: seq<nat>, uo: nat, v: seq<nat>, n: nat)
    requires |u| == |v| == 5 && 0 < n < 5 && uo < 5 && Digits(u) && Digits(v) && v[5 - n] != 0
    requires forall k :: 0 <= k < 5 - n ==> v[k] == 0
    requires forall k :: 0 <= k <= uo ==> u[k] == 0
    requires Value(v) <= Value(u)
    ensures uo + n <= 4
  {
    DivisorBounds(v, n);
    DividendBounds(u, uo);
    if 4 < uo + n {
      PowMono(4 - uo, n - 1);
    }
  }

  lemma {:induction false} PowMono(d: nat, e: nat)
    requires d <= e
    ensures Pow(B, d) <= Pow(B, e)
  {
    if d < e {
      PowMono(d, e - 1);
      PowGrows(e - 1);
    }
  }

  // ----- the wrappers -----

  /** C's truncating quotient of two signed numbers. */
  function Truncated(a: int, b: int): int
    requires b != 0
  {
    var q := (if a < 0 then -a else a) / (if b < 0 then -b else b);
    if (a < 0) != (b < 0) then -q else q
  }

  /** A 64-bit pattern read as a signed number. */
  function AsSigned(x: int): (y: int64) {
    var w := x % 0x1_0000_0000_0000_0000;
    if w < 0x8000_0000_0000_0000 then w else w - 0x1_0000_0000_0000_0000
  }

  lemma SignedValue(x: int)
    requires -0x8000_0000_0000_0000 <= x <= 0x8000_0000_0000_0000
    ensures AsSigned(x) == if x == 0x8000_0000_0000_0000 then -x else x
  {
  }

  /** `__divdi3` is C's truncating division except for the one quotient that has no 64-bit
      representation, which wraps to the dividend itself; None is the trap of a zero divisor. */
  method SignedDivide(a: int64, b: int64) returns (q: Option<int64>)
    ensures q.None? <==> b == 0
    ensures b != 0 ==> (q.value == Truncated(a, b) <==> !(a == -0x8000_0000_0000_0000 && b == -1))
    ensures a == -0x8000_0000_0000_0000 && b == -1 ==> q.value == a
  {
    hide Magnitude, Truncated, AsSigned;
    Magnitudes(a);
    Magnitudes(b);
    var neg := (a < 0) != (b < 0);
    var ua, ub := Magnitude(a), Magnitude(b);
    var d := Qdivrem(ua, ub);
    if d.DivideByZero? {
      return None;
    }
    var uq: int := d.quotient;
    SignedQuotient(a, b, uq);
    q := Some(if neg then AsSigned(-uq) else AsSigned(uq));
  }

  /** What the wrapper makes of an operand: the negated 64-bit pattern of a negative one. */
  function Magnitude(a: int): uint64
    requires -0x8000_0000_0000_0000 <= a < 0x8000_0000_0000_0000
  {
    if a < 0 then (-a) % 0x1_0000_0000_0000_0000 else a
  }

  lemma Magnitudes(a: int)
    requires -0x8000_0000_0000_0000 <= a < 0x8000_0000_0000_0000
    ensures Magnitude(a) == if a < 0 then -a else a
  {
  }

  lemma SignedQuotient(a: int64, b: int64, uq: int)
    requires b != 0 && Magnitude(b) != 0 && uq == Magnitude(a) / Magnitude(b)
    ensures var q := if (a < 0) != (b < 0) then AsSigned(-uq) else AsSigned(uq);
            && (q == Truncated(a, b) <==> !(a == -0x8000_0000_0000_0000 && b == -1))
            && (a == -0x8000_0000_0000_0000 && b == -1 ==> q == a)
  {
    hide Magnitude, Truncated, AsSigned;
    Magnitudes(a);
    Magnitudes(b);
    SignedBound(a, b);
    SignedValue(uq);
    SignedValue(-uq);
  }

  lemma SignedBound(a: int, b: int)
    requires -0x8000_0000_0000_0000 <= a < 0x8000_0000_0000_0000 && b != 0
    ensures var ua, ub := if a < 0 then -a else a, if b < 0 then -b else b;
            && 0 <= ua / ub <= 0x8000_0000_0000_0000
            && Truncated(a, b) == (if (a < 0) != (b < 0) then -(ua / ub) else ua / ub)
            && (ua / ub == 0x8000_0000_0000_0000 <==> a == -0x8000_0000_0000_0000 && ub == 1)
  {
    var ua, ub := if a < 0 then -a else a, if b < 0 then -b else b;
    QuotientRemainder(ua, ub);
    MulMono(1, ub, ua / ub);
    if 2 <= ub {
      MulMono(2, ub, ua / ub);
    }
  }

  method UnsignedDivide(a: uint64, b: uint64) returns (q: Option<uint64>)
    ensures q.None? <==> b == 0
    ensures b != 0 ==> q.value == a / b
  {
    var d := Qdivrem(a, b);
    q := if d.DivideByZero? then None else Some(d.quotient);
  }

  method UnsignedModulo(a: uint64, b: uint64) returns (r: Option<uint64>)
    ensures r.None? <==> b == 0
    ensures b != 0 ==> r.value == a % b
  {
    var d := Qdivrem(a, b);
    r := if d.DivideByZero? then None else Some(d.remainder);
  }
}
