/** What a printed number looks like, character by character, and signed numbers (kernel/util/printf.c). */
module NumberFields {
  import opened Arithmetic
  import opened Numbers

  predicate InRange(num: int) {
    -0x8000_0000_0000_0000 <= num < 0x8000_0000_0000_0000
  }

  /** How many characters come before the digits: the sign and the prefix. */
  function Before(num: int, base: int, f: Flags): nat {
    (if f.sign && (num < 0 || f.plus || f.space) then 1 else 0)
    + (if f.special && base == 16 then 2 else if f.special && base == 8 then 1 else 0)
  }

  lemma BeforeIs(num: int, base: int, f: Flags)
    ensures Before(num, base, f) == |SignText(num, f)| + |PrefixText(base, f)|
  {
  }

  lemma {:induction false} RepeatAt(c: char, n: int, i: nat)
    requires i < n
    ensures Repeat(c, n)[i] == c
  {
    if i < n - 1 { RepeatAt(c, n - 1, i); }
  }

  lemma RepeatNone(c: char, n: int)
    requires n <= 0
    ensures Repeat(c, n) == ""
  {
  }

  /** The field without a width. */
  lemma Narrow(num: int, base: int, precision: int, f: Flags)
    requires InRange(num) && 2 <= base <= 36
    ensures var d := Numeral(Magnitude(num, f), base, f.large);
            Formatted(num, base, 0, precision, f) ==
            SignText(num, f) + PrefixText(base, f) + Repeat('0', precision - |d|) + d
  {
    hide Numeral, Repeat, SignText, PrefixText, Magnitude;
    var d := Numeral(Magnitude(num, f), base, f.large);
    var head, z := SignText(num, f) + PrefixText(base, f), Repeat('0', precision - |d|);
    var fill := 0 - |SignText(num, f)| - |PrefixText(base, f)| - Max(|d|, precision);
    RepeatNone(' ', fill);
    RepeatNone('0', fill);
    assert "" + SignText(num, f) + PrefixText(base, f) + "" + z + d + "" == head + z + d;
  }

  /** Field `s` is `t`, with the sign and prefix in its first `h` characters, and characters added. */
  ghost predicate Padded(s: string, t: string, h: nat, f: Flags) {
    && h <= |t| <= |s|
    && var more := |s| - |t|;
       if f.left then s[..|t|] == t && forall i :: |t| <= i < |s| ==> s[i] == ' '
       else if f.zeropad then
         s[..h] == t[..h] && s[h + more..] == t[h..] && forall i :: h <= i < h + more ==> s[i] == '0'
       else s[more..] == t && forall i :: 0 <= i < more ==> s[i] == ' '
  }

  /** A width only adds to the field, up to that many characters: spaces on the right when it is
      left-adjusted, else zeros before the digits when it is zero-padded, else spaces on the left. */
  lemma Padding(num: int, base: int, size: int, precision: int, f: Flags)
    requires InRange(num) && 2 <= base <= 36
    ensures var s, t := Formatted(num, base, size, precision, f), Formatted(num, base, 0, precision, f);
            |s| == Max(size, |t|) && Before(num, base, f) < |t| && Padded(s, t, Before(num, base, f), f)
  {
    hide Padded, Whole, Formatted, Numeral, Repeat, SignText, PrefixText, Magnitude;
    var d := Numeral(Magnitude(num, f), base, f.large);
    var head, tail := SignText(num, f) + PrefixText(base, f), Repeat('0', precision - |d|) + d;
    var fill := size - |SignText(num, f)| - |PrefixText(base, f)| - Max(|d|, precision);
    NumeralNonempty(Magnitude(num, f), base, f.large);
    BeforeIs(num, base, f);
    Narrow(num, base, precision, f);
    var t := Formatted(num, base, 0, precision, f);
    assert t == head + tail;
    Parts(num, base, size, precision, f);
    Filled(head, tail, fill, f);
  }

  lemma Parts(num: int, base: int, size: int, precision: int, f: Flags)
    requires InRange(num) && 2 <= base <= 36
    ensures var d := Numeral(Magnitude(num, f), base, f.large);
            var head, tail := SignText(num, f) + PrefixText(base, f), Repeat('0', precision - |d|) + d;
            Formatted(num, base, size, precision, f) ==
            Whole(head, tail, size - |SignText(num, f)| - |PrefixText(base, f)| - Max(|d|, precision), f)
  {
    hide Numeral, Repeat, SignText, PrefixText, Magnitude;
    var d := Numeral(Magnitude(num, f), base, f.large);
    var sign, prefix, z := SignText(num, f), PrefixText(base, f), Repeat('0', precision - |d|);
    var fill := size - |sign| - |prefix| - Max(|d|, precision);
    var a := if !f.zeropad && !f.left then Repeat(' ', fill) else "";
    var b := if f.zeropad && !f.left then Repeat('0', fill) else "";
    var c := if f.left then Repeat(' ', fill) else "";
    assert a + sign + prefix + b + z + d + c == a + (sign + prefix) + b + (z + d) + c;
  }

  function Whole(head: string, tail: string, fill: int, f: Flags): string {
    (if !f.zeropad && !f.left then Repeat(' ', fill) else "") + head
    + (if f.zeropad && !f.left then Repeat('0', fill) else "") + tail
    + (if f.left then Repeat(' ', fill) else "")
  }

  lemma Filled(head: string, tail: string, fill: int, f: Flags)
    ensures var s, t := Whole(head, tail, fill, f), head + tail;
            |s| == |t| + Max(fill, 0) && Padded(s, t, |head|, f)
  {
    hide Repeat;
    var s, t, h := Whole(head, tail, fill, f), head + tail, |head|;
    var more := |s| - |t|;
    forall i: nat | i < fill
      ensures Repeat(' ', fill)[i] == ' ' && Repeat('0', fill)[i] == '0'
    {
      RepeatAt(' ', fill, i);
      RepeatAt('0', fill, i);
    }
    if f.left {
      assert s == t + Repeat(' ', fill);
    } else if f.zeropad {
      assert s == head + Repeat('0', fill) + tail;
    } else {
      assert s == Repeat(' ', fill) + t;
    }
  }

  lemma DigitPlain(d: nat, large: bool)
    requires d < 36
    ensures var c := DigitChar(d, large); c != '-' && c != '+' && c != ' '
  {
  }

  lemma {:induction false} NumeralFirst(n: nat, base: nat, large: bool)
    requires 2 <= base <= 36
    ensures Numeral(n, base, large) != ""
    ensures var c := Numeral(n, base, large)[0]; c != '-' && c != '+' && c != ' '
  {
    hide DigitChar;
    if n < base {
      DigitPlain(n, large);
    } else {
      NumeralFirst(n / base, base, large);
    }
  }

  /** A number begins with its sign, if it has one, and then with the prefix of its base. */
  lemma FirstCharacters(num: int, base: int, precision: int, f: Flags)
    requires InRange(num) && 2 <= base <= 36
    ensures var t, h := Formatted(num, base, 0, precision, f), Before(num, base, f);
            && |t| > h
            && (t[0] == '-' <==> f.sign && num < 0)
            && (t[0] == '+' <==> f.sign && num >= 0 && f.plus)
            && (t[0] == ' ' <==> f.sign && num >= 0 && !f.plus && f.space)
            && (f.special && base == 16 ==> t[h - 2] == '0' && t[h - 1] == if f.large then 'X' else 'x')
            && (f.special && base == 8 ==> t[h - 1] == '0')
  {
    hide Numeral, Repeat, Formatted, Magnitude;
    var d := Numeral(Magnitude(num, f), base, f.large);
    NumeralFirst(Magnitude(num, f), base, f.large);
    Narrow(num, base, precision, f);
    BeforeIs(num, base, f);
    var z := Repeat('0', precision - |d|);
    if z != "" { RepeatAt('0', precision - |d|, 0); }
    var head := SignText(num, f) + PrefixText(base, f);
    var t := Formatted(num, base, 0, precision, f);
    assert t == head + (z + d);
    assert t[0] == if head != "" then head[0] else if z != "" then z[0] else d[0];
    assert forall i :: 0 <= i < |head| ==> t[i] == head[i];
  }

  /** Behind them are digits whose value is the number, the magnitude of a signed one, and modulo 2^64 of
      one that is not; as many as the precision, or else no zero in front. */
  lemma DigitPart(num: int, base: int, precision: int, f: Flags)
    requires InRange(num) && 2 <= base <= 16
    ensures var t := Formatted(num, base, 0, precision, f);
            && Before(num, base, f) < |t|
            && var d := t[Before(num, base, f)..];
               && AllDigits(d, base) && |d| >= precision
               && Eval(d, base, 0) == (if num >= 0 then num else if f.sign then -num else num + 0x1_0000_0000_0000_0000)
               && (|d| > precision && |d| > 1 ==> d[0] != '0')
  {
    hide Numeral, Repeat, Formatted, Eval, AllDigits;
    var n := Magnitude(num, f);
    var d := Numeral(n, base, f.large);
    Narrow(num, base, precision, f);
    BeforeIs(num, base, f);
    NumeralBack(n, base, f.large);
    var z := Repeat('0', precision - |d|);
    ZerosEval(precision - |d|, base);
    EvalConcat(z, d, base, 0);
    DigitsConcat(z, d, base);
    var head := SignText(num, f) + PrefixText(base, f);
    var t := Formatted(num, base, 0, precision, f);
    assert t == head + (z + d);
    assert t[|head|..] == z + d;
    if |z + d| > precision {
      RepeatNone('0', precision - |d|);
      assert z + d == d;
      if n == 0 { NumeralZero(base, f.large); }
    }
  }

  lemma NumeralZero(base: nat, large: bool)
    requires 2 <= base <= 36
    ensures |Numeral(0, base, large)| == 1
  {
  }

  function Power(base: nat, k: nat): nat {
    if k == 0 then 1 else base * Power(base, k - 1)
  }

  lemma DivDiv(n: nat, a: nat, b: nat)
    requires a > 0 && b > 0
    ensures a * b > 0 && n / a / b == n / (a * b)
  {
    var q, r := n / a, n % a;
    var u, v := q / b, q % b;
    assert n == q * a + r && q == u * b + v;
    assert q * a == (u * b + v) * a == u * (a * b) + v * a;
    assert v * a + r < a * b by { MulMono(v + 1, b, a); }
    assert (u + 1) * (a * b) == u * (a * b) + a * b;
    MulNonNeg(v, a);
    QuotientUnique(n, a * b, u);
  }

  lemma {:induction false} PowerPositive(base: nat, k: nat)
    requires base > 0
    ensures Power(base, k) > 0
  {
    if k > 0 { PowerPositive(base, k - 1); }
  }

  /** The `k`-th digit from the right is that of the `k`-th power of the base. */
  lemma {:induction false} NumeralAt(n: nat, base: nat, large: bool, k: nat)
    requires 2 <= base <= 36 && k < |Numeral(n, base, large)|
    ensures Power(base, k) > 0
    ensures Numeral(n, base, large)[|Numeral(n, base, large)| - 1 - k] == DigitChar(n / Power(base, k) % base, large)
    decreases k
  {
    hide DigitChar;
    PowerPositive(base, k);
    if k > 0 {
      assert n >= base;
      NumeralAt(n / base, base, large, k - 1);
      DivDiv(n, base, Power(base, k - 1));
    }
  }

  // ----- signed numbers -----

  /** 64 bits as a signed number. */
  function Signed(x: int): (r: int)
    ensures InRange(r)
  {
    var u := x % TWO64;
    if u < 0x8000_0000_0000_0000 then u else u - TWO64
  }

  /** The number at the beginning of a string, and where it ends. */
  ghost function SignedValue(cp: string, base0: nat): (int, nat) {
    var minus := cp != "" && cp[0] == '-';
    var s := if minus then cp[1..] else cp;
    var (p, base) := Start(s, base0);
    var e := DigitsEnd(s, p, base);
    var v := if p <= |s| then Eval(s[p..e], base, 0) else 0;
    (Signed(if minus then -v else v), if minus then e + 1 else e)
  }

  /** `simple_strtoll`. */
  method Strtoll(cp: string, base: nat) returns (result: int, endp: nat)
    ensures (result, endp) == SignedValue(cp, base)
  {
    hide Eval, DigitsEnd;
    if CharAt(cp, 0) == '-' {
      var r, e := Strtoull(cp[1..], base);
      StartWithin(cp[1..], base);
      NegateMod(Eval(cp[1..][Start(cp[1..], base).0..e], Start(cp[1..], base).1, 0));
      return Signed((TWO64 - r) % TWO64), e + 1;
    }
    var r, e := Strtoull(cp, base);
    StartWithin(cp, base);
    SameMod(Eval(cp[Start(cp, base).0..e], Start(cp, base).1, 0));
    return Signed(r), e;
  }

  lemma StartWithin(s: string, base: nat)
    ensures Start(s, base).0 <= |s|
  {
  }

  lemma NegateMod(v: int)
    ensures Signed((TWO64 - v % TWO64) % TWO64) == Signed(-v)
  {
    var q, r := v / TWO64, v % TWO64;
    assert v == q * TWO64 + r;
    assert (-v) % TWO64 == (TWO64 - r) % TWO64;
  }

  lemma SameMod(v: nat)
    ensures Signed(v % TWO64) == Signed(v)
  {
  }

  lemma SignedBack(num: int)
    requires InRange(num)
    ensures Signed(num) == num
  {
  }

  /** The number without its sign. */
  function Absolute(num: int): int {
    if num < 0 && num != -0x8000_0000_0000_0000 then -num else num
  }

  /** Without spaces, a signed field is its sign and the field of the number without it. */
  lemma SignSplit(num: int, base: int, size: int, precision: int, f: Flags)
    requires InRange(num) && 2 <= base <= 36 && f.sign && NoSpaces(num, base, size, precision, f)
    ensures var num0, size0, f0 := Absolute(num), size - |SignText(num, f)|, f.(sign := false);
            && Magnitude(num0, f0) == Magnitude(num, f) && NoSpaces(num0, base, size0, precision, f0)
            && Formatted(num, base, size, precision, f) ==
               SignText(num, f) + Formatted(num0, base, size0, precision, f0)
  {
    hide Numeral, Repeat, PrefixText;
    var f0 := f.(sign := false);
    assert PrefixText(base, f0) == PrefixText(base, f) by { SamePrefix(base, f); }
    var d, prefix := Numeral(Magnitude(num, f), base, f.large), PrefixText(base, f);
    var fill := size - |SignText(num, f)| - |prefix| - Max(|d|, precision);
    RepeatClip(' ', fill);
    NoSpace(0);
    var z := Repeat('0', precision - |d|);
    var b := if f.zeropad && !f.left then Repeat('0', fill) else "";
    assert "" + SignText(num, f) + prefix + b + z + d + "" ==
           SignText(num, f) + ("" + "" + prefix + b + z + d + "");
  }

  lemma SamePrefix(base: int, f: Flags)
    ensures PrefixText(base, f.(sign := false)) == PrefixText(base, f)
  {
  }

  /** Printing any signed number, without spaces, and parsing it in the same base gives it back. */
  lemma SignedRoundTrip(num: int, base: int, size: int, precision: int, f: Flags, rest: string)
    requires InRange(num) && 2 <= base <= 16 && f.sign && !f.plus && !f.space && !(f.special && base == 16)
    requires NoSpaces(num, base, size, precision, f) && (rest == "" || !IsDigit(rest[0], base))
    ensures var s := Formatted(num, base, size, precision, f);
            SignedValue(s + rest, base) == (num, |s|)
  {
    hide Numeral, Repeat, Formatted, Eval, DigitsEnd, IsDigit, NoSpaces;
    var num0, size0, f0 := Absolute(num), size - |SignText(num, f)|, f.(sign := false);
    SignSplit(num, base, size, precision, f);
    RoundTrip(num0, base, size0, precision, f0, rest);
    var t := Formatted(num0, base, size0, precision, f0);
    var s := Formatted(num, base, size, precision, f);
    assert (t + rest)[0..|t|] == (t + rest)[..|t|];
    SignedBack(num);
    if num < 0 {
      assert (s + rest)[0] == '-' && (s + rest)[1..] == t + rest;
      SignedModulo(Eval((t + rest)[..|t|], base, 0), -num);
    } else {
      assert s == t;
      NoMinus(num0, base, size0, precision, f0);
      SignedModulo(Eval((t + rest)[..|t|], base, 0), num);
    }
  }

  lemma SignedModulo(v: int, n: int)
    requires v % TWO64 == n <= 0x8000_0000_0000_0000
    ensures Signed(-v) == Signed(-n) && Signed(v) == Signed(n)
  {
    var q := v / TWO64;
    assert v == q * TWO64 + n;
    assert (-v) % TWO64 == (-n) % TWO64;
  }

  lemma NoMinus(num: int, base: int, size: int, precision: int, f: Flags)
    requires InRange(num) && 2 <= base <= 16 && !f.sign && NoSpaces(num, base, size, precision, f)
    ensures var t := Formatted(num, base, size, precision, f); t != "" && t[0] != '-'
  {
    hide Numeral, Repeat, Formatted;
    PlainField(num, base, size, precision, f);
    var k, d := Zeros(num, base, size, precision, f), Numeral(Magnitude(num, f), base, f.large);
    NumeralFirst(Magnitude(num, f), base, f.large);
    if k > 0 { RepeatAt('0', k, 0); } else { NoZeros(); }
    var z := Repeat('0', k);
    var prefix := PrefixText(base, f);
    assert (prefix + z + d)[0] == if prefix != "" then prefix[0] else if z != "" then z[0] else d[0];
  }
}
