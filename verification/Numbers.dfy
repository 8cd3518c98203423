/** Printing and parsing of numbers (kernel/util/printf.c): `number` with all its flags, and
    `simple_strtoull`. */
module Numbers {
  import opened Arithmetic


  const TWO64: nat := 0x1_0000_0000_0000_0000

  datatype Flags = Flags(zeropad: bool, sign: bool, plus: bool, space: bool, left: bool, special: bool, large: bool)

  const SmallDigits: string := "0123456789abcdefghijklmnopqrstuvwxyz"
  const LargeDigits: string := "0123456789ABCDEFGHIJKLMNOPQRSTUVWXYZ"

  function DigitChar(d: nat, large: bool): char
    requires d < 36
  {
    if large then LargeDigits[d] else SmallDigits[d]
  }

  // ----- what is printed -----

  /** The numeral of `n`, the highest digit first. */
  function Numeral(n: nat, base: nat, large: bool): string
    requires 2 <= base <= 36
  {
    if n < base then [DigitChar(n, large)] else Numeral(n / base, base, large) + [DigitChar(n % base, large)]
  }

  function Repeat(c: char, n: int): (s: string)
    ensures |s| == if n < 0 then 0 else n
  {
    if n <= 0 then "" else Repeat(c, n - 1) + [c]
  }

  /** The 64 bits printed: the magnitude of a signed number, an unsigned number as it is. */
  function Magnitude(num: int, f: Flags): nat
    requires -0x8000_0000_0000_0000 <= num < 0x8000_0000_0000_0000
  {
    if num >= 0 then num else if f.sign then -num else num + TWO64
  }

  function SignText(num: int, f: Flags): string {
    if !f.sign then "" else if num < 0 then "-" else if f.plus then "+" else if f.space then " " else ""
  }

  function PrefixText(base: int, f: Flags): string {
    if !f.special then "" else if base == 8 then "0" else if base == 16 then if f.large then "0X" else "0x" else ""
  }

  /** The field: spaces to the left unless it is zero-padded or left-adjusted, sign, prefix, zeros for
      the width and for the precision, digits, and spaces to the right if it is left-adjusted. */
  function Formatted(num: int, base: int, size: int, precision: int, f: Flags): string
    requires -0x8000_0000_0000_0000 <= num < 0x8000_0000_0000_0000
  {
    if base < 2 || base > 36 then ""
    else
      var digits := Numeral(Magnitude(num, f), base, f.large);
      var fill := size - |SignText(num, f)| - |PrefixText(base, f)| - Max(|digits|, precision);
      (if !f.zeropad && !f.left then Repeat(' ', fill) else "")
      + SignText(num, f) + PrefixText(base, f)
      + (if f.zeropad && !f.left then Repeat('0', fill) else "")
      + Repeat('0', precision - |digits|) + digits
      + (if f.left then Repeat(' ', fill) else "")
  }

  lemma HalfOrLess(n: nat, base: nat)
    requires base >= 2
    ensures 2 * (n / base) <= n
  {
    var q, r := n / base, n % base;
    assert n == q * base + r;
    MulMono(2, base, q);
  }

  /** The digits of `n` above the ones done: none once nothing is left. */
  ghost function Rest(n: nat, base: nat, large: bool): string
    requires 2 <= base <= 36
  {
    if n == 0 then "" else Numeral(n, base, large)
  }

  lemma RestStep(n: nat, base: nat, large: bool)
    requires 2 <= base <= 36 && n > 0
    ensures Rest(n, base, large) == Rest(n / base, base, large) + [DigitChar(n % base, large)]
  {
    hide DigitChar;
    if n < base {
      assert n / base == 0 && n % base == n;
    } else {
      DivPositive(n, base);
    }
  }

  lemma DivPositive(n: nat, base: nat)
    requires n >= base >= 1
    ensures n / base > 0
  {
  }

  /** The digits into `tmp`, the lowest first: at most 64 of them. */
  method Digits(tmp: array<char>, n: nat, base: nat, large: bool) returns (i: nat)
    requires tmp.Length == 66 && n < TWO64 && 2 <= base <= 36
    modifies tmp
    ensures i <= 64 && |Numeral(n, base, large)| == i
    ensures forall k :: 0 <= k < i ==> tmp[k] == Numeral(n, base, large)[i - 1 - k]
  {
    hide DigitChar;
    i := 0;
    if n == 0 {
      tmp[i] := '0';
      i := i + 1;
      assert DigitChar(0, large) == '0' by { ZeroDigit(large); }
    } else {
      var num: nat := n;
      ghost var done := "";
      assert TWO64 == Pow2(64) by { TwoTo64(); }
      while num != 0
        invariant 0 <= i <= 64 && num < Pow2(64 - i) && |done| == i
        invariant Rest(n, base, large) == Rest(num, base, large) + done
        invariant forall k :: 0 <= k < i ==> tmp[k] == done[i - 1 - k]
        decreases num
      {
        RestStep(num, base, large);
        HalfOrLess(num, base);
        assert i < 64;
        ghost var d := DigitChar(num % base, large);
        assert Rest(num / base, base, large) + [d] + done == Rest(num / base, base, large) + ([d] + done);
        tmp[i] := DigitChar(num % base, large);
        done := [d] + done;
        i := i + 1;
        num := num / base;
      }
    }
  }

  lemma ZeroDigit(large: bool)
    ensures DigitChar(0, large) == '0'
  {
  }

  lemma TwoTo64()
    ensures TWO64 == Pow2(64)
  {
    assert Pow2(4) == 16;
    PowAdd(4, 4);
    PowAdd(8, 8);
    PowAdd(16, 16);
    PowAdd(32, 32);
  }

  lemma {:induction false} PowAdd(a: nat, b: nat)
    ensures Pow2(a + b) == Pow2(a) * Pow2(b)
  {
    if a > 0 { PowAdd(a - 1, b); }
  }

  // ----- printing -----

  /** `out` from `start` on, as far as `end`, over the old contents. */
  ghost predicate Written(was: seq<char>, now: seq<char>, start: nat, end: int, out: string) {
    && |now| == |was| && end < |was|
    && forall i :: 0 <= i < |was| ==>
         now[i] == if start <= i < start + |out| && i <= end then out[i - start] else was[i]
  }

  /** One character, if there is room for it. */
  method Emit(buf: array<char>, pos: nat, end: int, c: char, ghost was: seq<char>, ghost start: nat, ghost out: string)
    returns (next: nat)
    requires Written(was, buf[..], start, end, out) && pos == start + |out|
    modifies buf
    ensures Written(was, buf[..], start, end, out + [c]) && next == pos + 1
  {
    if pos <= end {
      buf[pos] := c;
    }
    next := pos + 1;
  }

  /** A run of one character. */
  method EmitRun(buf: array<char>, pos: nat, end: int, c: char, n: int, ghost was: seq<char>, ghost start: nat,
                 ghost out: string)
    returns (next: nat)
    requires Written(was, buf[..], start, end, out) && pos == start + |out|
    modifies buf
    ensures Written(was, buf[..], start, end, out + Repeat(c, n)) && next == start + |out + Repeat(c, n)|
  {
    hide Written;
    var left := n;
    next := pos;
    ghost var k := 0;
    assert out + Repeat(c, 0) == out;
    while left > 0
      invariant k == if n <= 0 then 0 else n - left
      invariant n > 0 ==> 0 <= left <= n
      invariant Written(was, buf[..], start, end, out + Repeat(c, k)) && next == start + |out + Repeat(c, k)|
    {
      assert out + Repeat(c, k) + [c] == out + Repeat(c, k + 1);
      next := Emit(buf, next, end, c, was, start, out + Repeat(c, k));
      left := left - 1;
      k := k + 1;
    }
    assert n <= 0 ==> Repeat(c, n) == Repeat(c, 0);
  }

  method EmitAll(buf: array<char>, pos: nat, end: int, s: string, ghost was: seq<char>, ghost start: nat,
                 ghost out: string)
    returns (next: nat)
    requires Written(was, buf[..], start, end, out) && pos == start + |out|
    modifies buf
    ensures Written(was, buf[..], start, end, out + s) && next == start + |out + s|
  {
    hide Written;
    next := pos;
    var i := 0;
    assert out + s[..0] == out;
    while i < |s|
      invariant 0 <= i <= |s| && Written(was, buf[..], start, end, out + s[..i]) && next == start + |out + s[..i]|
    {
      assert out + s[..i] + [s[i]] == out + s[..i + 1];
      next := Emit(buf, next, end, s[i], was, start, out + s[..i]);
      i := i + 1;
    }
    assert s[..|s|] == s;
  }

  /** `number`. */
  method Number(buf: array<char>, start: nat, end: int, num: int, base: int, size: int, precision: int, flags: Flags)
    returns (pos: nat)
    requires -0x8000_0000_0000_0000 <= num < 0x8000_0000_0000_0000 && end < buf.Length
    modifies buf
    ensures pos == start + |Formatted(num, base, size, precision, flags)|
    ensures Written(old(buf[..]), buf[..], start, end, Formatted(num, base, size, precision, flags))
  {
    hide Written, Numeral, Formatted, Repeat;
    ghost var was := buf[..];
    WrittenNone(was, start, end);
    pos := start;
    if base < 2 || base > 36 {
      FormattedNone(num, base, size, precision, flags);
      return;
    }
    var f := if flags.left then flags.(zeropad := false) else flags;
    var c := if f.zeropad then '0' else ' ';
    var width, sign := size, "";
    if f.sign {
      if num < 0 {
        sign := "-";
        width := width - 1;
      } else if f.plus {
        sign := "+";
        width := width - 1;
      } else if f.space {
        sign := " ";
        width := width - 1;
      }
    }
    if f.special {
      if base == 16 {
        width := width - 2;
      } else if base == 8 {
        width := width - 1;
      }
    }
    assert sign == SignText(num, f) && width == size - |sign| - |PrefixText(base, f)|;
    var tmp := new char[66];
    var i := Digits(tmp, Magnitude(num, f), base, f.large);
    var prec := if i > precision then i else precision;
    width := width - prec;
    FormattedParts(num, base, size, precision, flags);
    pos := EmitField(buf, pos, end, width, sign, PrefixText(base, f), c, prec - i, tmp, i,
                     Numeral(Magnitude(num, f), base, f.large), f, was, start);
  }

  /** The output part of `number`. */
  method EmitField(buf: array<char>, start0: nat, end: int, size: int, sign: string, prefix: string, c: char,
                   zeros: int,
                   tmp: array<char>, n: nat, ghost digits: string, f: Flags, ghost was: seq<char>, ghost start: nat)
    returns (pos: nat)
    requires Written(was, buf[..], start, end, "") && start0 == start && tmp != buf
    requires n <= tmp.Length && |digits| == n && forall k :: 0 <= k < n ==> tmp[k] == digits[n - 1 - k]
    requires f.left ==> !f.zeropad
    modifies buf
    ensures Written(was, buf[..], start, end, Field(size, sign, prefix, c, zeros, digits, f))
    ensures pos == start + |Field(size, sign, prefix, c, zeros, digits, f)|
  {
    hide Written, Repeat;
    var width := size;
    pos := start0;
    ghost var out := "";
    if !(f.zeropad || f.left) {
      pos := EmitRun(buf, pos, end, ' ', width, was, start, out);
      out := out + Repeat(' ', width);
      width := -1;
    }
    ghost var a := out;
    pos := EmitAll(buf, pos, end, sign, was, start, out);
    out := out + sign;
    pos := EmitAll(buf, pos, end, prefix, was, start, out);
    out := out + prefix;
    ghost var b := "";
    if !f.left {
      pos := EmitRun(buf, pos, end, c, width, was, start, out);
      b := Repeat(c, width);
      width := -1;
    }
    assert out + "" == out;
    out := out + b;
    pos := EmitRun(buf, pos, end, '0', zeros, was, start, out);
    out := out + Repeat('0', zeros);
    pos := EmitDigits(buf, pos, end, tmp, n, digits, was, start, out);
    out := out + digits;
    pos := EmitRun(buf, pos, end, ' ', width, was, start, out);
    NoRepeat(c);
    NoRepeat(' ');
    assert "" + sign == sign;
    assert out + Repeat(' ', width) == Field(size, sign, prefix, c, zeros, digits, f);
  }

  lemma NoRepeat(c: char)
    ensures Repeat(c, -1) == ""
  {
  }

  /** The field from its parts. */
  ghost function Field(size: int, sign: string, prefix: string, c: char, zeros: int, digits: string, f: Flags): string {
    (if !f.zeropad && !f.left then Repeat(' ', size) else "") + sign + prefix
    + (if f.zeropad && !f.left then Repeat(c, size) else "") + Repeat('0', zeros) + digits
          + (if f.left then Repeat(' ', size) else "")
  }

  lemma FormattedNone(num: int, base: int, size: int, precision: int, flags: Flags)
    requires -0x8000_0000_0000_0000 <= num < 0x8000_0000_0000_0000 && (base < 2 || base > 36)
    ensures Formatted(num, base, size, precision, flags) == ""
  {
  }

  lemma FormattedParts(num: int, base: int, size: int, precision: int, flags: Flags)
    requires -0x8000_0000_0000_0000 <= num < 0x8000_0000_0000_0000 && 2 <= base <= 36
    ensures var f := if flags.left then flags.(zeropad := false) else flags;
            var digits := Numeral(Magnitude(num, f), base, f.large);
            var prec := if |digits| > precision then |digits| else precision;
            Formatted(num, base, size, precision, flags) ==
            Field(size - |SignText(num, f)| - |PrefixText(base, f)| - prec, SignText(num, f), PrefixText(base, f),
                  if f.zeropad then '0' else ' ', prec - |digits|, digits, f)
  {
    hide Numeral, Repeat, SignText, PrefixText, Magnitude;
    SameParts(num, base, flags);
    var digits := Numeral(Magnitude(num, flags), base, flags.large);
    RepeatClip('0', precision - |digits|);
  }

  /** Only zero-padding is lost by left adjustment. */
  lemma SameParts(num: int, base: int, flags: Flags)
    requires -0x8000_0000_0000_0000 <= num < 0x8000_0000_0000_0000
    ensures var f := if flags.left then flags.(zeropad := false) else flags;
            SignText(num, f) == SignText(num, flags) && PrefixText(base, f) == PrefixText(base, flags)
                && Magnitude(num, f) == Magnitude(num, flags)
  {
  }

  lemma RepeatClip(c: char, n: int)
    ensures Repeat(c, n) == Repeat(c, Max(n, 0))
  {
  }

  lemma WrittenNone(b: seq<char>, start: nat, end: int)
    requires end < |b|
    ensures Written(b, b, start, end, "")
  {
  }

  /** The digits from `tmp`, the last one first. */
  method EmitDigits(buf: array<char>, pos: nat, end: int, tmp: array<char>, n: nat, ghost digits: string,
                    ghost was: seq<char>, ghost start: nat, ghost out: string) returns (next: nat)
    requires Written(was, buf[..], start, end, out) && pos == start + |out| && tmp != buf
    requires n <= tmp.Length && |digits| == n && forall k :: 0 <= k < n ==> tmp[k] == digits[n - 1 - k]
    modifies buf
    ensures Written(was, buf[..], start, end, out + digits) && next == start + |out + digits|
  {
    hide Written;
    next := pos;
    var i := n;
    assert out + digits[..0] == out;
    while i > 0
      invariant 0 <= i <= n
      invariant Written(was, buf[..], start, end, out + digits[..n - i]) && next == start + |out + digits[..n - i]|
    {
      i := i - 1;
      assert out + digits[..n - i - 1] + [digits[n - i - 1]] == out + digits[..n - i];
      next := Emit(buf, next, end, tmp[i], was, start, out + digits[..n - i - 1]);
    }
    assert digits[..n] == digits;
  }

  // ----- parsing -----

  /** The value of a hexadecimal digit of either case, -1 for other characters. */
  function DigitValue(c: char): int {
    if '0' <= c <= '9' then c as int - '0' as int
    else if 'a' <= c <= 'f' then c as int - 'a' as int + 10
    else if 'A' <= c <= 'F' then c as int - 'A' as int + 10
    else -1
  }

  predicate IsDigit(c: char, base: nat) {
    0 <= DigitValue(c) < base
  }

  function CharAt(s: string, p: nat): char {
    if p < |s| then s[p] else '\0'
  }

  /** With base 0, the prefix decides; then where the digits start, and the base. */
  function Start(s: string, base: nat): (nat, nat) {
    if base != 0 then (0, base)
    else if CharAt(s, 0) != '0' then (0, 10)
    else if CharAt(s, 1) == 'x' && DigitValue(CharAt(s, 2)) >= 0 then (2, 16)
    else (1, 8)
  }

  /** The first position from `p` on without a digit. */
  function DigitsEnd(s: string, p: nat, base: nat): (e: nat)
    ensures p >= |s| ==> e == p
    ensures p <= e && (p <= |s| ==> e <= |s|)
    decreases |s| - p
  {
    if p < |s| && IsDigit(s[p], base) then DigitsEnd(s, p + 1, base) else p
  }

  /** The value of a string of digits after `acc`. */
  function Eval(s: string, base: nat, acc: nat): nat {
    if s == "" then acc
    else
      var v := DigitValue(s[|s| - 1]);
      Eval(s[..|s| - 1], base, acc) * base + if v < 0 then 0 else v
  }

  /** `simple_strtoull`: the digits as far as they go, in 64 bits. */
  method Strtoull(cp: string, base0: nat) returns (result: nat, endp: nat)
    ensures var (p, base) := Start(cp, base0);
            && endp == DigitsEnd(cp, p, base)
            && p <= endp && (p <= |cp| ==> endp <= |cp| && result == Eval(cp[p..endp], base, 0) % TWO64)
  {
    hide DigitValue, Eval;
    NulValue();
    var p, base := 0, base0;
    if base == 0 {
      base := 10;
      if CharAt(cp, p) == '0' {
        base := 8;
        p := p + 1;
        if CharAt(cp, p) == 'x' && DigitValue(CharAt(cp, p + 1)) >= 0 {
          p := p + 1;
          base := 16;
        }
      }
    }
    ghost var p0 := p;
    result := 0;
    EvalNone(base);
    assert p0 <= |cp| ==> cp[p0..p0] == "";
    while 0 <= DigitValue(CharAt(cp, p)) < base
      invariant p0 <= p && DigitsEnd(cp, p0, base) == DigitsEnd(cp, p, base)
      invariant p0 <= |cp| ==> p <= |cp| && result == Eval(cp[p0..p], base, 0) % TWO64
      invariant p0 > |cp| ==> p == p0
      decreases |cp| - p
    {
      assert p < |cp| && p0 <= |cp|;
      EvalSnoc(cp[p0..p], cp[p], base, 0);
      Extend(cp, p0, p);
      ModStep(Eval(cp[p0..p], base, 0), base, DigitValue(cp[p]));
      result := (result * base + DigitValue(CharAt(cp, p))) % TWO64;
      p := p + 1;
    }
    endp := p;
  }

  lemma Extend(s: string, a: nat, b: nat)
    requires a <= b < |s|
    ensures s[a..b] + [s[b]] == s[a..b + 1]
  {
  }

  /** Wrapping at every step is wrapping at the end. */
  lemma ModStep(a: nat, base: nat, v: nat)
    ensures (a % TWO64 * base + v) % TWO64 == (a * base + v) % TWO64
  {
    var q, r := a / TWO64, a % TWO64;
    assert a == q * TWO64 + r;
    assert a * base + v == q * base * TWO64 + (r * base + v) by { Distribute(q, r, base); }
    ModAdd(r * base + v, q * base);
  }

  lemma Distribute(q: nat, r: nat, base: nat)
    ensures (q * TWO64 + r) * base == q * base * TWO64 + r * base
  {
  }

  lemma ModAdd(x: nat, k: nat)
    ensures (k * TWO64 + x) % TWO64 == x % TWO64
  {
  }

  // ----- and back -----

  /** Only digits of the base. */
  ghost predicate AllDigits(s: string, base: nat) {
    forall i :: 0 <= i < |s| ==> IsDigit(s[i], base)
  }

  lemma DigitBack(d: nat, large: bool)
    requires d < 16
    ensures DigitValue(DigitChar(d, large)) == d
  {
  }

  lemma EvalSnoc(s: string, c: char, base: nat, acc: nat)
    ensures Eval(s + [c], base, acc) == Eval(s, base, acc) * base + if DigitValue(c) < 0 then 0 else DigitValue(c)
  {
    hide DigitValue;
    assert (s + [c])[..|s + [c]| - 1] == s;
  }

  lemma EvalOne(c: char, base: nat)
    requires DigitValue(c) >= 0
    ensures Eval([c], base, 0) == DigitValue(c)
  {
    EvalSnoc("", c, base, 0);
    assert "" + [c] == [c];
  }

  lemma {:induction false} NumeralBack(n: nat, base: nat, large: bool)
    requires 2 <= base <= 16
    ensures AllDigits(Numeral(n, base, large), base) && Eval(Numeral(n, base, large), base, 0) == n
    ensures |Numeral(n, base, large)| > 0 && (n > 0 ==> Numeral(n, base, large)[0] != '0')
  {
    hide DigitChar, DigitValue, Eval;
    if n < base {
      DigitBack(n, large);
      EvalOne(DigitChar(n, large), base);
      ZeroValue();
    } else {
      DivPositive(n, base);
      NumeralBack(n / base, base, large);
      DigitBack(n % base, large);
      EvalSnoc(Numeral(n / base, base, large), DigitChar(n % base, large), base, 0);
      QuotientRemainder(n, base);
    }
  }

  lemma ZeroValue()
    ensures DigitValue('0') == 0
  {
  }

  lemma {:induction false} EvalConcat(a: string, b: string, base: nat, acc: nat)
    ensures Eval(a + b, base, acc) == Eval(b, base, Eval(a, base, acc))
  {
    hide DigitValue;
    if b == "" {
      assert a + b == a;
    } else {
      EvalConcat(a, b[..|b| - 1], base, acc);
      assert (a + b)[..|a + b| - 1] == a + b[..|b| - 1];
    }
  }

  lemma {:induction false} ZerosEval(k: int, base: nat)
    requires base >= 1
    ensures Eval(Repeat('0', k), base, 0) == 0 && AllDigits(Repeat('0', k), base)
  {
    hide DigitValue, Eval;
    ZeroValue();
    if k > 0 {
      ZerosEval(k - 1, base);
      EvalSnoc(Repeat('0', k - 1), '0', base, 0);
    } else {
      EvalNone(base);
    }
  }

  lemma NulValue()
    ensures DigitValue('\0') == -1
  {
  }

  lemma EvalNone(base: nat)
    ensures Eval("", base, 0) == 0
  {
  }

  lemma {:induction false} EndOfDigits(s: string, p: nat, e: nat, base: nat)
    requires p <= e <= |s| && (forall i :: p <= i < e ==> IsDigit(s[i], base)) && (e == |s| || !IsDigit(s[e], base))
    ensures DigitsEnd(s, p, base) == e
    decreases e - p
  {
    if p < e { EndOfDigits(s, p + 1, e, base); }
  }

  /** What `simple_strtoull` makes of a prefix, zeros, a numeral and something that is no digit. */
  lemma ParseBack(prefix: string, zeros: int, n: nat, base: nat, large: bool, rest: string)
    requires 2 <= base <= 16 && n < TWO64 && (rest == "" || !IsDigit(rest[0], base))
    ensures var s := prefix + Repeat('0', zeros) + Numeral(n, base, large) + rest;
            var e := |s| - |rest|;
            && |prefix| <= e && DigitsEnd(s, |prefix|, base) == e && Eval(s[|prefix|..e], base, 0) % TWO64 == n
  {
    hide IsDigit, Eval, Numeral, Repeat, AllDigits, DigitsEnd;
    var z, d := Repeat('0', zeros), Numeral(n, base, large);
    var zd := z + d;
    assert Eval(zd, base, 0) == n && AllDigits(zd, base) by {
      NumeralBack(n, base, large);
      ZerosEval(zeros, base);
      EvalConcat(z, d, base, 0);
      DigitsConcat(z, d, base);
    }
    var s := prefix + zd + rest;
    assert prefix + z + d + rest == s;
    assert |s| - |rest| == |prefix| + |zd|;
    EndAfter(prefix, zd, rest, base);
    ModSmall(n);
  }

  lemma ModSmall(n: nat)
    requires n < TWO64
    ensures n % TWO64 == n
  {
  }

  lemma DigitsConcat(a: string, b: string, base: nat)
    requires AllDigits(a, base) && AllDigits(b, base)
    ensures AllDigits(a + b, base)
  {
    hide IsDigit;
  }

  lemma EndAfter(prefix: string, d: string, rest: string, base: nat)
    requires AllDigits(d, base) && (rest == "" || !IsDigit(rest[0], base))
    ensures var s := prefix + d + rest;
            var e := |prefix| + |d|;
            DigitsEnd(s, |prefix|, base) == e && s[|prefix|..e] == d
  {
    hide IsDigit;
    var s := prefix + d + rest;
    var e := |prefix| + |d|;
    forall i | |prefix| <= i < e
      ensures IsDigit(s[i], base)
    {
      assert s[i] == d[i - |prefix|];
    }
    EndOfDigits(s, |prefix|, e, base);
  }

  /** No spaces in the field. */
  predicate NoSpaces(num: int, base: int, size: int, precision: int, f: Flags)
    requires -0x8000_0000_0000_0000 <= num < 0x8000_0000_0000_0000 && 2 <= base <= 36
  {
    || (f.zeropad && !f.left)
    || size <= |SignText(num, f)| + |PrefixText(base, f)| + Max(|Numeral(Magnitude(num, f), base, f.large)|, precision)
  }

  /** The zeros between prefix and numeral. */
  function Zeros(num: int, base: int, size: int, precision: int, f: Flags): nat
    requires -0x8000_0000_0000_0000 <= num < 0x8000_0000_0000_0000 && 2 <= base <= 36
  {
    var digits := |Numeral(Magnitude(num, f), base, f.large)|;
    (if f.zeropad && !f.left then Max(size - |PrefixText(base, f)| - Max(digits, precision), 0) else 0)
          + Max(precision - digits, 0)
  }

  /** Without spaces and sign the field is prefix, zeros and numeral. */
  lemma PlainField(num: int, base: int, size: int, precision: int, f: Flags)
    requires -0x8000_0000_0000_0000 <= num < 0x8000_0000_0000_0000 && 2 <= base <= 36
    requires !f.sign && NoSpaces(num, base, size, precision, f)
    ensures Formatted(num, base, size, precision, f) ==
            PrefixText(base, f) + Repeat('0', Zeros(num, base, size, precision, f))
                  + Numeral(Magnitude(num, f), base, f.large)
  {
    hide Numeral, Repeat, PrefixText, Magnitude, Formatted;
    var digits, prefix := Numeral(Magnitude(num, f), base, f.large), PrefixText(base, f);
    var fill := size - |prefix| - Max(|digits|, precision);
    var a, b := if f.zeropad && !f.left then Max(fill, 0) else 0, Max(precision - |digits|, 0);
    PlainText(num, base, size, precision, f, fill, a);
    RepeatClip('0', precision - |digits|);
    ZerosTogether(prefix, a, b, digits);
  }

  lemma ZerosTogether(prefix: string, a: nat, b: nat, digits: string)
    ensures prefix + Repeat('0', a) + Repeat('0', b) + digits == prefix + Repeat('0', a + b) + digits
  {
    hide Repeat;
    RepeatAdd('0', a, b);
    assert prefix + Repeat('0', a) + Repeat('0', b) == prefix + (Repeat('0', a) + Repeat('0', b));
  }

  lemma PlainText(num: int, base: int, size: int, precision: int, f: Flags, fill: int, a: nat)
    requires -0x8000_0000_0000_0000 <= num < 0x8000_0000_0000_0000 && 2 <= base <= 36
    requires !f.sign && NoSpaces(num, base, size, precision, f)
    requires fill == size - |PrefixText(base, f)| - Max(|Numeral(Magnitude(num, f), base, f.large)|, precision)
    requires a == if f.zeropad && !f.left then Max(fill, 0) else 0
    ensures var digits := Numeral(Magnitude(num, f), base, f.large);
            Formatted(num, base, size, precision, f) ==
            PrefixText(base, f) + Repeat('0', a) + Repeat('0', precision - |digits|) + digits
  {
    hide Numeral, Repeat, PrefixText, Magnitude;
    var digits, prefix := Numeral(Magnitude(num, f), base, f.large), PrefixText(base, f);
    NoZeros();
    NoSpace(fill);
    RepeatClip('0', fill);
    var zeros := Repeat('0', precision - |digits|);
    if f.zeropad && !f.left {
      assert "" + "" + prefix + Repeat('0', fill) + zeros + digits + "" == prefix + Repeat('0', a) + zeros + digits;
    } else {
      assert fill <= 0;
      assert "" + "" + prefix + "" + zeros + digits + "" == prefix + "" + zeros + digits;
    }
  }

  lemma NoSpace(n: int)
    ensures n <= 0 ==> Repeat(' ', n) == ""
  {
  }

  lemma NumeralNonempty(n: nat, base: nat, large: bool)
    requires 2 <= base <= 36
    ensures |Numeral(n, base, large)| >= 1
  {
  }

  lemma {:induction false} RepeatAdd(c: char, a: nat, b: nat)
    ensures Repeat(c, a) + Repeat(c, b) == Repeat(c, a + b)
  {
    if b > 0 {
      RepeatAdd(c, a, b - 1);
    } else {
      assert Repeat(c, a) + "" == Repeat(c, a);
    }
  }

  /** Printing an unsigned number without spaces and parsing it in the same base gives it back, and the
      parser stops where the field ends. */
  lemma RoundTrip(num: int, base: int, size: int, precision: int, f: Flags, rest: string)
    requires -0x8000_0000_0000_0000 <= num < 0x8000_0000_0000_0000 && 2 <= base <= 16
    requires !f.sign && !(f.special && base == 16) && NoSpaces(num, base, size, precision, f)
    requires rest == "" || !IsDigit(rest[0], base)
    ensures var s := Formatted(num, base, size, precision, f) + rest;
            && Start(s, base) == (0, base) && DigitsEnd(s, 0, base) == |s| - |rest|
            && Eval(s[..|s| - |rest|], base, 0) % TWO64 == Magnitude(num, f)
  {
    hide Numeral, Repeat, Eval, DigitsEnd, Formatted, Zeros;
    PlainField(num, base, size, precision, f);
    var zeros := Zeros(num, base, size, precision, f);
    var prefix, n := PrefixText(base, f), Magnitude(num, f);
    var k := if prefix == "" then Max(zeros, 0) else Max(zeros, 0) + 1;
    RepeatClip('0', zeros);
    assert prefix + Repeat('0', zeros) ==
             Repeat('0', k) by { OneMore(Max(zeros, 0)); assert "" + Repeat('0', zeros) == Repeat('0', zeros); }
    ParseBack("", k, n, base, f.large, rest);
    assert "" + Repeat('0', k) == Repeat('0', k);
    var s := Formatted(num, base, size, precision, f) + rest;
    assert s[0..|s| - |rest|] == s[..|s| - |rest|];
  }

  lemma {:induction false} OneMore(k: nat)
    ensures "0" + Repeat('0', k) == Repeat('0', k + 1)
  {
    if k > 0 {
      OneMore(k - 1);
      assert "0" + (Repeat('0', k - 1) + ['0']) == ("0" + Repeat('0', k - 1)) + ['0'];
    }
  }

  /** The field parses in base 0 to the number printed, and to its end. */
  ghost predicate ReadsBack(s: string, n: nat) {
    var (p, b) := Start(s, 0);
    p <= |s| && DigitsEnd(s, p, b) == |s| && Eval(s[p..], b, 0) % TWO64 == n
  }

  /** Octal and hexadecimal with their prefix, and decimal, read in base 0: the number comes back exactly
      when the hexadecimal is lower-case and the decimal has no zeros in front, or is below 8. */
  lemma RoundTripAnyBase(num: int, base: int, size: int, precision: int, f: Flags)
    requires -0x8000_0000_0000_0000 <= num < 0x8000_0000_0000_0000
    requires !f.sign && ((f.special && (base == 8 || base == 16)) || base == 10)
    requires NoSpaces(num, base, size, precision, f)
    ensures ReadsBack(Formatted(num, base, size, precision, f), Magnitude(num, f)) <==>
              && !(base == 16 && f.large)
              && !(base == 10 && Zeros(num, base, size, precision, f) > 0 && Magnitude(num, f) >= 8)
  {
    hide Numeral, Repeat, Eval, DigitsEnd, Formatted, Zeros;
    PlainField(num, base, size, precision, f);
    var zeros := Zeros(num, base, size, precision, f);
    var s, n := Formatted(num, base, size, precision, f), Magnitude(num, f);
    var prefix, d := PrefixText(base, f), Numeral(Magnitude(num, f), base, f.large);
    NumeralBack(n, base, f.large);
    NumeralNonempty(n, base, f.large);
    ParseBack(prefix, zeros, n, base, f.large, "");
    assert s + "" == s && s[|prefix|..|s|] == s[|prefix|..];
    if base == 10 {
      assert "" + Repeat('0', zeros) + d == Repeat('0', zeros) + d;
      DecimalReadsBack(zeros, n, f.large);
    } else if base == 16 {
      if f.large {
        PrefixNotRead(num, size, precision, f);
      } else {
        ZerosEval(zeros, 16);
        HexStart(prefix, Repeat('0', zeros), d);
      }
    } else {
      OctalStart(prefix, zeros, d);
    }
  }

  lemma DecimalReadsBack(zeros: nat, n: nat, large: bool)
    requires n < TWO64
    ensures ReadsBack(Repeat('0', zeros) + Numeral(n, 10, large), n) <==> zeros == 0 || n < 8
  {
    hide Numeral, Repeat, Eval, DigitsEnd;
    var d := Numeral(n, 10, large);
    if zeros == 0 {
      NoZeros();
      assert Repeat('0', 0) + d == d;
      ParseBack("", 0, n, 10, large, "");
      NumeralBack(n, 10, large);
      assert "" + Repeat('0', 0) + d + "" == d && d[0..] == d;
      if n == 0 { DecimalZero(large); } else { NumeralLeads(n, large); }
    } else if n < 8 {
      SmallNumeral(n, large);
      ZeroFirst(zeros, d);
      ParseBack("0", zeros - 1, n, 8, large, "");
      NumeralBack(n, 8, large);
      NumeralNonempty(n, 8, large);
      OctalStart("0", zeros - 1, d);
      assert ("0" + Repeat('0', zeros - 1) + d) + "" == Repeat('0', zeros) + d;
    } else {
      PaddedNotRead(zeros, n, large);
    }
  }

  lemma ZeroFirst(zeros: nat, d: string)
    requires zeros > 0
    ensures Repeat('0', zeros) + d == "0" + Repeat('0', zeros - 1) + d
  {
    OneMore(zeros - 1);
  }

  lemma {:induction false} NumeralLeads(n: nat, large: bool)
    requires n > 0
    ensures |Numeral(n, 10, large)| >= 1 && Numeral(n, 10, large)[0] != '0'
  {
    if n >= 10 { NumeralLeads(n / 10, large); }
  }

  lemma SmallNumeral(n: nat, large: bool)
    requires n < 8
    ensures Numeral(n, 10, large) == Numeral(n, 8, large)
  {
  }

  /** Decimal digits that happen to be octal ones stand for less as octal. */
  lemma {:induction false} OctalLess(n: nat, large: bool)
    requires AllDigits(Numeral(n, 10, large), 8)
    ensures Eval(Numeral(n, 10, large), 8, 0) <= n && (n >= 8 ==> Eval(Numeral(n, 10, large), 8, 0) < n)
  {
    hide DigitValue;
    var d := Numeral(n, 10, large);
    DigitBack(n % 10, large);
    if n < 10 {
      assert d == [DigitChar(n, large)] && IsDigit(d[0], 8);
      EvalOne(DigitChar(n, large), 8);
    } else {
      var front := Numeral(n / 10, 10, large);
      assert d == front + [DigitChar(n % 10, large)];
      assert forall i :: 0 <= i < |front| ==> front[i] == d[i];
      OctalLess(n / 10, large);
      EvalSnoc(front, DigitChar(n % 10, large), 8, 0);
    }
  }

  lemma {:induction false} EndMeansDigits(s: string, p: nat, base: nat)
    requires p <= |s| && DigitsEnd(s, p, base) == |s|
    ensures AllDigits(s[p..], base)
    decreases |s| - p
  {
    if p < |s| {
      EndMeansDigits(s, p + 1, base);
      assert s[p..] == [s[p]] + s[p + 1..];
    }
  }

  /** Zeros in front make a decimal an octal. */
  lemma PaddedNotRead(zeros: nat, n: nat, large: bool)
    requires 0 < zeros && 8 <= n < TWO64
    ensures !ReadsBack(Repeat('0', zeros) + Numeral(n, 10, large), n)
  {
    hide Numeral, Repeat, Eval, DigitsEnd, DigitValue;
    var d := Numeral(n, 10, large);
    var s := Repeat('0', zeros) + d;
    var z := Repeat('0', zeros - 1);
    ZeroFirst(zeros, d);
    NumeralBack(n, 10, large);
    NumeralNonempty(n, 10, large);
    PaddedStart(zeros - 1, d);
    assert s == "0" + z + d;
    assert s[1..] == z + d;
    if DigitsEnd(s, 1, 8) == |s| {
      EndMeansDigits(s, 1, 8);
      assert forall i :: 0 <= i < |d| ==> d[i] == (z + d)[|z| + i];
      OctalLess(n, large);
      ZerosEval(zeros - 1, 8);
      EvalConcat(z, d, 8, 0);
    }
  }

  lemma PaddedStart(zeros: nat, d: string)
    requires AllDigits(d, 10) && |d| > 0
    ensures Start("0" + Repeat('0', zeros) + d, 0) == (1, 8)
  {
    var z := Repeat('0', zeros);
    ZerosEval(zeros, 10);
    var s := "0" + z + d;
    if z == "" { assert s[1] == d[0]; } else { assert s[1] == z[0]; }
    assert IsDigit(s[1], 10) && s[1] != 'x';
  }

  lemma NoZeros()
    ensures Repeat('0', 0) == ""
  {
  }

  lemma DecimalZero(large: bool)
    ensures Numeral(0, 10, large) == "0" && Start("0", 0) == (1, 8) && DigitsEnd("0", 1, 8) == 1
            && Eval("0"[1..], 8, 0) == 0
  {
  }

  lemma HexStart(prefix: string, z: string, d: string)
    requires prefix == "0x" && AllDigits(z, 16) && AllDigits(d, 16) && |d| > 0
    ensures Start(prefix + z + d, 0) == (2, 16)
  {
    hide DigitValue;
    var s := prefix + z + d;
    if z == "" { assert s[2] == d[0]; } else { assert s[2] == z[0]; }
  }

  lemma OctalStart(prefix: string, zeros: int, d: string)
    requires prefix == "0" && AllDigits(d, 8) && |d| > 0
    ensures Start(prefix + Repeat('0', zeros) + d, 0) == (1, 8)
  {
    var z := Repeat('0', zeros);
    ZerosEval(zeros, 8);
    var s := prefix + z + d;
    if z == "" { assert s[1] == d[0]; } else { assert s[1] == z[0]; }
    assert IsDigit(s[1], 8) && s[1] != 'x';
  }

  /** Hexadecimal with a prefix does not parse in base 16, nor upper-case hexadecimal with a prefix in
      base 0.  Of both only the first character is read. */
  lemma PrefixNotRead(num: int, size: int, precision: int, f: Flags)
    requires -0x8000_0000_0000_0000 <= num < 0x8000_0000_0000_0000
    requires !f.sign && f.special && NoSpaces(num, 16, size, precision, f)
    ensures var s := Formatted(num, 16, size, precision, f);
            && |s| > 2 && Start(s, 16) == (0, 16) && DigitsEnd(s, 0, 16) == 1
            && (f.large ==> Start(s, 0) == (1, 8) && DigitsEnd(s, 1, 8) == 1)
  {
    hide Numeral, Repeat, Formatted;
    PlainField(num, 16, size, precision, f);
    var zeros := Zeros(num, 16, size, precision, f);
    var s := Formatted(num, 16, size, precision, f);
    NumeralNonempty(Magnitude(num, f), 16, f.large);
    assert s[0] == '0' && s[1] == if f.large then 'X' else 'x';
    EndOfDigits(s, 0, 1, 16);
    EndOfDigits(s, 1, 1, 8);
  }
}
