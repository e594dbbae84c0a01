/** The console's number printers, and their agreement with the string parser. */
module Print {
  import opened CString

  const WORD64 := 0x1_0000_0000_0000_0000

  // ---------- Canonical numerals ----------

  function DigitChar(d: nat): (c: char)
    requires d < 16
    ensures DigitValue(c) == d && c != '\0'
  {
    if d < 10 then '0' + d as char else 'a' + (d - 10) as char
  }

  /** The shortest lower-case numeral of `v`. */
  function Digits(v: nat, base: nat): (s: string)
    requires 2 <= base <= 16
    ensures s != [] && Numeral(s, base) && (s[0] == '0' ==> v == 0 && |s| == 1)
  {
    if v < base then [DigitChar(v)]
    else
      QuotientRest(v, base);
      Digits(v / base, base) + [DigitChar(v % base)]
  }

  lemma {:induction false} DigitsValue(v: nat, base: nat)
    requires 2 <= base <= 16
    ensures Value(Digits(v, base), base) == v
  {
    var s := Digits(v, base);
    if v < base {
      ValueSnoc([], DigitChar(v), base);
    } else {
      var q, r := v / base, v % base;
      QuotientRest(v, base);
      DigitsValue(q, base);
      ValueSnoc(Digits(q, base), DigitChar(r), base);
      assert s == Digits(q, base) + [DigitChar(r)];
    }
  }

  lemma QuotientRest(v: nat, base: nat)
    requires base > 0
    ensures (v / base) * base + v % base == v
    ensures base >= 2 && v > 0 ==> v / base < v
  {
    var q, r := v / base, v % base;
    assert q * base + r == v;
    if base >= 2 && q > 0 {
      assert q * base >= q * 2;
    }
  }

  lemma {:induction false} ValueSnoc(s: string, c: char, base: nat)
    ensures Value(s + [c], base) == Value(s, base) * base + DigitValue(c)
  {
    assert (s + [c])[..|s|] == s;
  }

  function Repeat(c: char, n: int): (s: string)
    ensures |s| == (if n > 0 then n else 0) && forall i :: 0 <= i < |s| ==> s[i] == c
  {
    if n <= 0 then [] else Repeat(c, n - 1) + [c]
  }

  function Pow(b: nat, k: nat): (p: nat)
    ensures b >= 1 ==> p >= 1
  {
    if k == 0 then 1 else b * Pow(b, k - 1)
  }

  lemma DivDiv(a: nat, b: nat, c: nat)
    requires b > 0 && c > 0
    ensures b * c > 0 && a / (b * c) == a / b / c
  {
    var q, r := a / b, a % b;
    var q', r' := q / c, q % c;
    Regroup(b, c, q', r');
    Quotient(a, b * c, q', b * r' + r);
  }

  lemma Regroup(b: nat, c: nat, q: nat, r: nat)
    requires b > 0 && r < c
    ensures b * c > 0 && b * (c * q + r) == (b * c) * q + b * r && b * r <= b * c - b
  {
    assert b * r <= b * (c - 1);
  }

  lemma Quotient(a: int, d: int, q: int, r: int)
    requires d > 0 && a == d * q + r && 0 <= r < d
    ensures a / d == q
  {
    var q', r' := a / d, a % d;
    assert d * (q' - q) == r - r';
    Multiple(d, q' - q);
  }

  lemma Multiple(d: int, k: int)
    requires d > 0
    ensures (k >= 1 ==> d * k >= d) && (k <= -1 ==> d * k <= -d)
  {
  }

  // ---------- The console ----------

  /** Characters are collected in a buffer that is printed when it fills up. */
  class Console {
    var buf: array<char>
    var idx: nat
    // What has left the buffer.
    var printed: string

    ghost predicate Valid()
      reads this
    {
      buf.Length == 128 && idx < 128
    }

    /** Everything put so far. */
    ghost function Text(): string
      requires Valid()
      reads this, buf
    {
      printed + buf[..idx]
    }

    constructor ()
      ensures Valid() && Text() == "" && fresh(buf)
    {
      buf := new char[128](_ => '\0');
      idx := 0;
      printed := "";
    }

    method Commit()
      requires Valid()
      modifies this`idx, this`printed, buf
      ensures Valid() && Text() == old(Text()) && idx == 0
    {
      printed := printed + buf[..idx];
      buf[idx] := '\0';
      idx := 0;
    }

    method Putc(c: char)
      requires Valid()
      modifies this`idx, this`printed, buf
      ensures Valid() && Text() == old(Text()) + [c]
    {
      if idx == 127 {
        Commit();
      }
      ghost var t := Text();
      buf[idx] := c;
      assert buf[..idx + 1] == buf[..idx] + [c];
      idx := idx + 1;
      assert Text() == t + [c];
    }

    /** `n` copies of `c`; nothing for a negative count. */
    method Pad(c: char, n: int)
      requires Valid()
      modifies this`idx, this`printed, buf
      ensures Valid() && Text() == old(Text()) + Repeat(c, n)
    {
      var i := 0;
      while i < n
        invariant Valid() && 0 <= i && (i <= n || i == 0)
        invariant Text() == old(Text()) + Repeat(c, i)
        decreases n - i
      {
        Putc(c);
        i := i + 1;
      }
      assert Repeat(c, n) == Repeat(c, i);
    }

    /** print_dec: right-aligned in at least `width` columns, padded with spaces. */
    method PrintDec(val: nat, width: int) returns (n: int)
      requires Valid() && val < WORD64
      modifies this`idx, this`printed, buf
      ensures Valid()
      ensures var d := Digits(val, 10);
        Text() == old(Text()) + Repeat(' ', width - |d|) + d && n == if width > |d| then width else |d|
    {
      var divisor, digits, k := FindDivisor(val);
      Pad(' ', width - digits);
      n := if digits < width then width else digits;
      PutDigits(val, divisor, k);
    }

    /** The lowest `n` hexadecimal digits of `val`, from the left. */
    method PutHex(val: nat, n: nat)
      requires Valid() && val < Pow(16, n)
      modifies this`idx, this`printed, buf
      ensures Valid() && Text() == old(Text()) + Hex(val, n)
    {
      ghost var text := Text();
      ghost var done := "";
      var i := n;
      HexStart(val, n);
      while i > 0
        invariant Valid() && 0 <= i <= n && Text() == text + done
        invariant HexDone(val, i, n, done)
      {
        i := i - 1;
        HexStep(val, i, n, done);
        Join(text, done, DigitChar(Shr4(val, i) % 16));
        Putc(DigitChar(Shr4(val, i) % 16));
        done := done + [DigitChar(Shr4(val, i) % 16)];
      }
      HexEnd(val, n, done);
    }

    /** print_hex: at least `precision` digits in at least `width` columns. */
    method PrintHex(val: nat, width: int, precision: int, adjleft: bool, nullpad: bool)
      returns (n: int, ghost nw: nat)
      requires Valid() && val < WORD && precision <= 8
      modifies this`idx, this`printed, buf
      ensures Valid() && 1 <= nw <= 8 && precision <= nw && val < Pow(16, nw)
      ensures Text() == old(Text()) + HexField(val, nw, width, adjleft, nullpad)
      ensures n == |HexField(val, nw, width, adjleft, nullpad)|
    {
      var nwidth := HexWidth(val);
      if precision > nwidth {
        Pow16Grows(nwidth, precision);
        nwidth := precision;
      }
      nw := nwidth;
      var w := if width == 0 && width < nwidth then nwidth else width;
      n := PutField(val, nwidth, w, adjleft, nullpad);
    }

    method PutField(val: nat, nwidth: nat, w: int, adjleft: bool, nullpad: bool) returns (n: int)
      requires Valid() && val < Pow(16, nwidth) && nwidth > 0
      modifies this`idx, this`printed, buf
      ensures Valid() && Text() == old(Text()) + Padded(Hex(val, nwidth), w - nwidth, adjleft, nullpad)
      ensures n == |Padded(Hex(val, nwidth), w - nwidth, adjleft, nullpad)|
    {
      ghost var was, c, h := Text(), if nullpad then '0' else ' ', Hex(val, nwidth);
      if !adjleft {
        Pad(if nullpad then '0' else ' ', w - nwidth);
        PutHex(val, nwidth);
        Regrouped(was, Repeat(c, w - nwidth), h);
      } else {
        PutHex(val, nwidth);
        Pad(' ', w - nwidth);
        Regrouped(was, h, Repeat(' ', w - nwidth));
      }
      n := nwidth + (if w > nwidth then w - nwidth else 0);
    }

    /** The digits of `val` from the one that `divisor` selects down to the last. */
    method PutDigits(val: nat, divisor: nat, ghost k: nat)
      requires Valid() && divisor == Pow(10, k) && TopDigit(val, divisor, k)
      modifies this`idx, this`printed, buf
      ensures Valid() && Text() == old(Text()) + Digits(val, 10)
    {
      ghost var text := Text();
      var d := divisor;
      ghost var j := k;
      ghost var done := [DigitChar((val / d) % 10)];
      Putc(DigitChar((val / d) % 10));
      FirstDigit(val, d, k);
      d := d / 10;
      while d > 0
        invariant Valid() && 0 <= j && d == (if j > 0 then Pow(10, j - 1) else 0)
        invariant DigitsDone(val, j, done)
        invariant Text() == text + done
        decreases d
      {
        NextDigit(val, d, j, done);
        Join(text, done, DigitChar((val / d) % 10));
        Putc(DigitChar((val / d) % 10));
        done := done + [DigitChar((val / d) % 10)];
        d, j := d / 10, j - 1;
      }
      AllDigits(val, done);
    }
  }

  // ---------- Hexadecimal ----------

  /** The last `n` hexadecimal digits of `val`. */
  function Hex(val: nat, n: nat): (s: string)
    ensures |s| == n && Numeral(s, 16)
  {
    if n == 0 then [] else Hex(val / 16, n - 1) + [DigitChar(val % 16)]
  }

  lemma {:induction false} HexValue(val: nat, n: nat)
    requires val < Pow(16, n)
    ensures Value(Hex(val, n), 16) == val
  {
    if n > 0 {
      NibbleBelow(val, Pow(16, n - 1));
      HexValue(val / 16, n - 1);
      ValueSnoc(Hex(val / 16, n - 1), DigitChar(val % 16), 16);
    }
  }

  lemma NibbleBelow(val: nat, p: nat)
    requires val < 16 * p
    ensures val / 16 < p && val / 16 * 16 + val % 16 == val
  {
  }

  lemma {:induction false} Pow16Grows(n: nat, m: nat)
    requires n <= m
    ensures Pow(16, n) <= Pow(16, m)
  {
    if n < m { Pow16Grows(n, m - 1); }
  }

  /** The number of hexadecimal digits of a word, at least one. */
  method HexWidth(val: nat) returns (n: nat)
    requires val < WORD
    ensures 1 <= n <= 8 && val < Pow(16, n) && (n > 1 ==> val >= Pow(16, n - 1))
  {
    n := 0;
    PowersOf16();
    while n < 8 && val / Pow(16, n) != 0
      invariant n <= 8 && (n > 0 ==> val >= Pow(16, n - 1))
    {
      DividesAtLeastOnce(val, Pow(16, n));
      n := n + 1;
    }
    if n < 8 { DividesAtLeastOnce(val, Pow(16, n)); }
    if n == 0 {
      n := 1;
    }
  }

  lemma DividesAtLeastOnce(v: nat, d: nat)
    requires d > 0
    ensures v / d != 0 <==> v >= d
  {
    QuotientRest(v, d);
    if v / d != 0 { TimesMonotone(1, v / d, d); }
  }

  lemma PowersOf16()
    ensures Pow(16, 0) == 1 && Pow(16, 1) == 16 && Pow(16, 8) == WORD
  {
    assert Pow(16, 4) == 16 * (16 * (16 * (16 * Pow(16, 0))));
    assert Pow(16, 8) == 16 * (16 * (16 * (16 * Pow(16, 4))));
  }

  /** `val` shifted right by `i` hexadecimal digits. */
  function Shr4(val: nat, i: nat): nat { val / Pow(16, i) }

  lemma Shr4Step(val: nat, i: nat)
    ensures Shr4(val, i + 1) == Shr4(val, i) / 16
  {
    DivDiv(val, Pow(16, i), 16);
    assert Pow(16, i + 1) == Pow(16, i) * 16;
  }

  /** The hexadecimal digits printed so far, `i` being left. */
  ghost predicate HexDone(val: nat, i: nat, n: nat, done: string) {
    i <= n && done == Hex(Shr4(val, i), n - i)
  }

  lemma HexStart(val: nat, n: nat)
    ensures HexDone(val, n, n, "")
  {
  }

  lemma HexStep(val: nat, i: nat, n: nat, done: string)
    requires HexDone(val, i + 1, n, done)
    ensures HexDone(val, i, n, done + [DigitChar(Shr4(val, i) % 16)])
  {
    Shr4Step(val, i);
  }

  lemma HexEnd(val: nat, n: nat, done: string)
    requires HexDone(val, 0, n, done)
    ensures done == Hex(val, n)
  {
    assert Shr4(val, 0) == val / 1;
  }

  function Padded(s: string, pad: int, adjleft: bool, nullpad: bool): string {
    if adjleft then s + Repeat(' ', pad) else Repeat(if nullpad then '0' else ' ', pad) + s
  }

  /** What print_hex appends. */
  function HexField(val: nat, nw: nat, width: int, adjleft: bool, nullpad: bool): string {
    Padded(Hex(val, nw), (if width == 0 then nw else width) - nw, adjleft, nullpad)
  }

  /** `divisor`, the k-th power of ten, selects the first digit of `val`. */
  ghost predicate TopDigit(val: nat, divisor: nat, k: nat) {
    divisor > 0 && val / divisor < 10 && (k > 0 ==> val / divisor >= 1)
  }

  /** The digits of `val` down to the j-th power of ten. */
  ghost predicate DigitsDone(val: nat, j: nat, done: string) {
    done == Digits(val / Pow(10, j), 10) && (j > 0 ==> val / Pow(10, j) >= 1)
  }

  lemma FirstDigit(val: nat, d: nat, k: nat)
    requires d == Pow(10, k) && TopDigit(val, d, k)
    ensures DigitsDone(val, k, [DigitChar((val / d) % 10)])
    ensures d / 10 == if k > 0 then Pow(10, k - 1) else 0
  {
  }

  lemma NextDigit(val: nat, d: nat, j: nat, done: string)
    requires j > 0 && d == Pow(10, j - 1) && DigitsDone(val, j, done)
    ensures DigitsDone(val, j - 1, done + [DigitChar((val / d) % 10)])
    ensures d / 10 == if j > 1 then Pow(10, j - 2) else 0
  {
    assert Pow(10, j) == d * 10;
    LastDigit(val, d);
    QuotientGrows(val, d);
  }

  lemma QuotientGrows(val: nat, d: nat)
    requires d > 0 && val / (d * 10) >= 1
    ensures val / d >= 10
  {
    DivDiv(val, d, 10);
  }

  lemma AllDigits(val: nat, done: string)
    requires DigitsDone(val, 0, done)
    ensures done == Digits(val, 10)
  {
  }

  /** The largest power of ten not above `val` (or 1), and how many digits `val` has. */
  method FindDivisor(val: nat) returns (divisor: nat, digits: nat, ghost k: nat)
    requires val < WORD64
    ensures divisor == Pow(10, k) && TopDigit(val, divisor, k)
    ensures digits == |Digits(val, 10)| && divisor < WORD64
  {
    divisor, digits, k := 1, 1, 0;
    while val / divisor >= 10
      invariant Dividing(val, divisor, k) && digits == k + 1 && divisor < WORD64
      decreases val / divisor
    {
      DividingStep(val, divisor, k);
      divisor, digits, k := divisor * 10, digits + 1, k + 1;
    }
  }

  ghost predicate Dividing(val: nat, divisor: nat, k: nat) {
    && 0 < divisor == Pow(10, k) && (k > 0 ==> val / divisor >= 1)
    && |Digits(val, 10)| == k + |Digits(val / divisor, 10)|
  }

  lemma DividingStep(val: nat, divisor: nat, k: nat)
    requires Dividing(val, divisor, k) && val / divisor >= 10
    ensures Dividing(val, divisor * 10, k + 1) && divisor * 10 <= val && val / (divisor * 10) < val / divisor
  {
    NextDivisor(val, divisor);
  }

  lemma NextDivisor(val: nat, divisor: nat)
    requires divisor > 0 && val / divisor >= 10
    ensures val / (divisor * 10) == val / divisor / 10 && divisor * 10 <= val
  {
    DivDiv(val, divisor, 10);
    QuotientRest(val, divisor);
    TimesMonotone(10, val / divisor, divisor);
  }

  lemma TimesMonotone(a: nat, b: nat, d: nat)
    requires a <= b
    ensures a * d <= b * d
  {
  }

  lemma LastDigit(val: nat, d: nat)
    requires d > 0 && val / (d * 10) >= 1
    ensures Digits(val / d, 10) == Digits(val / (d * 10), 10) + [DigitChar((val / d) % 10)]
  {
    DivDiv(val, d, 10);
  }

  lemma Regrouped(a: string, b: string, c: string)
    ensures a + b + c == a + (b + c)
  {
  }

  lemma Join(a: string, b: string, c: char)
    ensures a + b + [c] == a + (b + [c])
  {
  }

  // ---------- Printing and parsing undo each other ----------

  lemma {:induction false} SkipsBlanks(b: string, i: nat, n: nat)
    requires IsCString(b) && i <= n < |b| && !IsSpace(b[n]) && forall k :: i <= k < n ==> IsSpace(b[k])
    ensures SkipSpaces(b, i) == n
  {
  }

  lemma {:induction false} RunsThrough(b: string, i: nat, n: nat, base: nat)
    requires IsCString(b) && i <= n < |b| && base <= 36 && DigitValue(b[n]) >= base
    requires forall k :: i <= k < n ==> DigitValue(b[k]) < base
    ensures RunEnd(b, i, base) == n
    decreases n - i
  {
    if i < n { RunsThrough(b, i + 1, n, base); }
  }

  predicate Ends(rest: string) {
    IsCString(rest) && !IsDigit(rest[0]) && !IsAlpha(rest[0])
  }

  /** A numeral's first character is no sign, and no base prefix follows it. */
  lemma {:induction false} NumeralHeader(b: string, p: nat, base0: nat, base: nat)
    requires IsCString(b) && p + 1 < |b| && DigitValue(b[p]) < base && 2 <= base <= 16
    requires (forall k :: 0 <= k < p ==> IsSpace(b[k])) && b[p + 1] != 'x' && b[p + 1] != 'X'
    requires base0 == base || (base0 == 0 && base == if b[p] == '0' then 8 else 10)
    ensures HeaderOf(b, 0, base0) == Header(false, base, p)
  {
    SkipsBlanks(b, 0, p);
  }

  lemma {:induction false} ParsesAt(b: string, p: nat, e: nat, base0: nat, base: nat)
    requires IsCString(b) && p < e < |b| && 2 <= base <= 16 && DigitValue(b[e]) >= base
    requires (forall k :: 0 <= k < p ==> IsSpace(b[k])) && (forall k :: p <= k < e ==> DigitValue(b[k]) < base)
    requires b[p + 1] != 'x' && b[p + 1] != 'X' && Value(b[p..e], base) <= ULONG_MAX
    requires base0 == base || (base0 == 0 && base == if b[p] == '0' then 8 else 10)
    ensures Parsed(b, 0, base0) == (Value(b[p..e], base), e)
  {
    NumeralHeader(b, p, base0, base);
    RunsThrough(b, p, e, base);
  }

  /** Blanks, a numeral, then anything that is neither letter nor digit. */
  lemma {:induction false} ParsesNumeral(pad: string, num: string, rest: string, base0: nat, base: nat)
    requires (forall i :: 0 <= i < |pad| ==> pad[i] == ' ') && num != [] && Numeral(num, base) && Ends(rest)
    requires 2 <= base <= 16
    requires base0 == base || (base0 == 0 && base == if num[0] == '0' then 8 else 10)
    requires Value(num, base) <= ULONG_MAX
    ensures IsCString(pad + num + rest)
    ensures Parsed(pad + num + rest, 0, base0) == (Value(num, base), |pad| + |num|)
  {
    var b := pad + num + rest;
    var p, e := |pad|, |pad| + |num|;
    Concatenated(pad, num, rest, base);
    assert b[p..e] == num;
    assert b[e] == rest[0];
    assert forall i :: p <= i < e ==> b[i] == num[i - p];
    ParsesAt(b, p, e, base0, base);
  }

  lemma Concatenated(pad: string, num: string, rest: string, base: nat)
    requires (forall i :: 0 <= i < |pad| ==> pad[i] == ' ') && Numeral(num, base) && IsCString(rest) && base <= 36
    ensures IsCString(pad + num + rest)
  {
  }

  /** strtoul finds the value `v` at the start of the buffer and stops at `e`. */
  predicate Reads(b: string, base0: nat, v: nat, e: nat)
    requires base0 == 0 || 2 <= base0 <= 36
  {
    IsCString(b) && Parsed(b, 0, base0) == (v, e)
  }

  /** In base 0 a decimal numeral without leading zeros reads the same. */
  lemma {:induction false} DecimalReads(d: string, pad: string, rest: string, base0: nat)
    requires (forall i :: 0 <= i < |pad| ==> pad[i] == ' ') && d != [] && Numeral(d, 10) && Ends(rest)
    requires (d[0] == '0' ==> |d| == 1) && Value(d, 10) <= ULONG_MAX && (base0 == 10 || base0 == 0)
    ensures Reads(pad + d + rest, base0, Value(d, 10), |pad| + |d|)
  {
    if base0 == 0 && d[0] == '0' {
      ZeroValue(d, 8);
      ZeroValue(d, 10);
      ParsesNumeral(pad, d, rest, 0, 8);
    } else {
      ParsesNumeral(pad, d, rest, base0, 10);
    }
  }

  /** strtoul of print_dec's output, in base 10 or base 0, is the printed value. */
  lemma {:induction false} DecimalRoundTrip(val: nat, width: int, rest: string, base0: nat)
    requires val <= ULONG_MAX && Ends(rest) && (base0 == 10 || base0 == 0)
    ensures var d := Digits(val, 10);
      var field := Repeat(' ', width - |d|) + d;
      Reads(field + rest, base0, val, |field|)
  {
    var d := Digits(val, 10);
    DigitsValue(val, 10);
    DecimalReads(d, Repeat(' ', width - |d|), rest, base0);
  }

  lemma ZeroValue(d: string, base: nat)
    requires |d| == 1 && d[0] == '0' && base >= 1
    ensures Value(d, base) == 0 && Numeral(d, base)
  {
    assert d[..0] == [];
  }

  lemma {:induction false} LeadingZeros(n: int, s: string, base: nat)
    requires base >= 2 && Numeral(s, base)
    ensures Value(Repeat('0', n) + s, base) == Value(s, base) && Numeral(Repeat('0', n) + s, base)
    decreases |s|, n
  {
    var z := Repeat('0', n);
    if s != [] {
      var t := s[..|s| - 1];
      LeadingZeros(n, t, base);
      assert (z + s)[..|z + s| - 1] == z + t;
    } else if n > 0 {
      assert z + s == z && z[..|z| - 1] == Repeat('0', n - 1);
      LeadingZeros(n - 1, s, base);
      assert Repeat('0', n - 1) + s == Repeat('0', n - 1);
    }
  }

  lemma {:induction false} LeftReads(h: string, pad: int, rest: string)
    requires h != [] && Numeral(h, 16) && Value(h, 16) <= ULONG_MAX && Ends(rest)
    ensures Reads(h + Repeat(' ', pad) + rest, 16, Value(h, 16), |h|)
  {
    var tail := Repeat(' ', pad) + rest;
    PaddedEnds(pad, rest);
    ParsesNumeral("", h, tail, 16, 16);
    Concat3(h, Repeat(' ', pad), rest);
  }

  lemma {:induction false} PaddedEnds(pad: int, rest: string)
    requires Ends(rest)
    ensures Ends(Repeat(' ', pad) + rest)
  {
    var tail := Repeat(' ', pad) + rest;
    assert tail[0] == ' ' || tail[0] == rest[0];
  }

  lemma EmptyFront(a: string, b: string)
    ensures "" + a + b == a + b
  {
  }

  lemma Concat3(a: string, b: string, c: string)
    ensures "" + a + (b + c) == a + b + c
  {
  }

  lemma {:induction false} RightReads(h: string, pad: int, nullpad: bool, rest: string)
    requires h != [] && Numeral(h, 16) && Value(h, 16) <= ULONG_MAX && Ends(rest)
    ensures var z := Repeat(if nullpad then '0' else ' ', pad) + h; Reads(z + rest, 16, Value(h, 16), |z|)
  {
    if nullpad {
      var z := Repeat('0', pad) + h;
      LeadingZeros(pad, h, 16);
      ParsesNumeral("", z, rest, 16, 16);
      EmptyFront(z, rest);
    } else {
      ParsesNumeral(Repeat(' ', pad), h, rest, 16, 16);
    }
  }

  /** strtoul, in base 16, of print_hex's output is the printed value, whatever the padding; it stops
      after the last digit. */
  lemma {:induction false} HexRoundTrip(val: nat, nw: nat, width: int, adjleft: bool, nullpad: bool, rest: string)
    requires nw > 0 && val < Pow(16, nw) && val <= ULONG_MAX && Ends(rest)
    ensures var field := HexField(val, nw, width, adjleft, nullpad);
      Reads(field + rest, 16, val, if adjleft then nw else |field|)
  {
    var pad := (if width == 0 then nw else width) - nw;
    HexValue(val, nw);
    if adjleft { LeftReads(Hex(val, nw), pad, rest); } else { RightReads(Hex(val, nw), pad, nullpad, rest); }
  }
}
