/** NUL-terminated strings: number parsing and substring search.  A string is the sequence of its
    characters with the terminator; pointers into it are indices, so every read is bounds-checked. */
module CString {

  const ULONG_MAX := 0xffff_ffff
  const WORD := 0x1_0000_0000

  predicate IsCString(b: string) {
    |b| > 0 && b[|b| - 1] == '\0' && forall i :: 0 <= i < |b| - 1 ==> b[i] != '\0'
  }

  predicate IsSpace(c: char) { c == ' ' || c == '\t' }
  predicate IsDigit(c: char) { '0' <= c <= '9' }
  predicate IsUpper(c: char) { 'A' <= c <= 'Z' }
  predicate IsLower(c: char) { 'a' <= c <= 'z' }
  predicate IsAlpha(c: char) { IsUpper(c) || IsLower(c) }

  // ---------- Numerals ----------

  /** The digit a character stands for, 36 if none. */
  function DigitValue(c: char): (v: nat)
    ensures v <= 36
  {
    if IsDigit(c) then (c - '0') as nat
    else if IsUpper(c) then (c - 'A') as nat + 10
    else if IsLower(c) then (c - 'a') as nat + 10
    else 36
  }

  predicate Numeral(s: string, base: nat) {
    forall i :: 0 <= i < |s| ==> DigitValue(s[i]) < base
  }

  /** The number a sequence of digits denotes. */
  function Value(s: string, base: nat): nat {
    if s == [] then 0 else Value(s[..|s| - 1], base) * base + DigitValue(s[|s| - 1])
  }

  lemma {:induction false} ValueGrows(s: string, t: string, base: nat)
    requires base >= 1
    ensures Value(s, base) <= Value(s + t, base)
  {
    if t == [] {
      assert s + t == s;
    } else {
      var u := t[..|t| - 1];
      ValueGrows(s, u, base);
      assert (s + t)[..|s + t| - 1] == s + u;
      ValueLast(s + t, base);
      TimesBase(Value(s + u, base), base);
    }
  }

  lemma {:induction false} ValueLast(s: string, base: nat)
    requires s != []
    ensures Value(s, base) == Value(s[..|s| - 1], base) * base + DigitValue(s[|s| - 1])
  {
  }

  lemma TimesBase(v: nat, base: nat)
    requires base >= 1
    ensures v <= v * base
  {
  }

  /** First index at or after `i` that is no space. */
  function SkipSpaces(b: string, i: nat): (j: nat)
    requires IsCString(b) && i < |b|
    ensures i <= j < |b| && !IsSpace(b[j]) && forall k :: i <= k < j ==> IsSpace(b[k])
    decreases |b| - i
  {
    if IsSpace(b[i]) then SkipSpaces(b, i + 1) else i
  }

  /** End of the maximal run of digits that starts at `i`. */
  function RunEnd(b: string, i: nat, base: nat): (j: nat)
    requires IsCString(b) && i < |b| && base <= 36
    ensures i <= j < |b| && DigitValue(b[j]) >= base && Numeral(b[i..j], base)
    decreases |b| - i
  {
    if DigitValue(b[i]) < base then
      var j := RunEnd(b, i + 1, base);
      assert b[i..j] == [b[i]] + b[i + 1..j];
      j
    else i
  }

  // ---------- strtoul ----------

  /** How a numeral starts: its sign, its base, and where its digits begin. */
  datatype Header = Header(neg: bool, base: nat, digits: nat)

  function HeaderOf(b: string, i: nat, base: nat): (h: Header)
    requires IsCString(b) && i < |b| && (base == 0 || 2 <= base <= 36)
    ensures i <= h.digits < |b| && 2 <= h.base <= 36
  {
    var p := SkipSpaces(b, i);
    var neg := b[p] == '-';
    var q := if neg || b[p] == '+' then p + 1 else p;
    if (base == 0 || base == 16) && b[q] == '0' && (b[q + 1] == 'x' || b[q + 1] == 'X') then Header(neg, 16, q + 2)
    else if base == 0 then Header(neg, if b[q] == '0' then 8 else 10, q)
    else Header(neg, base, q)
  }

  /** A value as strtoul returns it: saturated, else negated modulo the word size after a minus. */
  function Returned(v: nat, neg: bool): nat {
    if v > ULONG_MAX then ULONG_MAX else if neg then (WORD - v) % WORD else v
  }

  /** The value and end position of the numeral at `nptr`. */
  function Parsed(b: string, nptr: nat, base: nat): (r: (nat, nat))
    requires IsCString(b) && nptr < |b| && (base == 0 || 2 <= base <= 36)
    ensures nptr <= r.1 < |b|
  {
    var h := HeaderOf(b, nptr, base);
    var e := RunEnd(b, h.digits, h.base);
    (Returned(Value(b[h.digits..e], h.base), h.neg), if e > h.digits then e else nptr)
  }

  /** The comparison with cutoff and cutlim is exactly an overflow test. */
  lemma CutoffTest(acc: nat, c: nat, base: nat)
    requires acc <= ULONG_MAX && c < base && 2 <= base <= 36
    ensures acc > ULONG_MAX / base || (acc == ULONG_MAX / base && c > ULONG_MAX % base)
       <==> acc * base + c > ULONG_MAX
  {
    var q, r := ULONG_MAX / base, ULONG_MAX % base;
    assert ULONG_MAX == q * base + r;
    if acc > q {
      assert acc * base >= (q + 1) * base == q * base + base;
    } else if acc < q {
      assert acc * base + base == (acc + 1) * base <= q * base;
    }
  }

  /** Skips white space and reads the sign and the base prefix; `s` is just past `c`. */
  method ReadHeader(b: string, nptr: nat, base0: nat) returns (neg: bool, base: nat, c: char, s: nat)
    requires IsCString(b) && nptr < |b| && (base0 == 0 || 2 <= base0 <= 36)
    ensures var h := HeaderOf(b, nptr, base0);
      neg == h.neg && base == h.base && s == h.digits + 1 && c == b[h.digits]
  {
    s := nptr;
    c := b[s];
    s := s + 1;
    while IsSpace(c)
      invariant nptr < s <= |b| && c == b[s - 1]
      invariant SkipSpaces(b, nptr) == SkipSpaces(b, s - 1)
      decreases |b| - s
    {
      c := b[s];
      s := s + 1;
    }
    neg := false;
    if c == '-' {
      neg := true;
      c := b[s];
      s := s + 1;
    } else if c == '+' {
      c := b[s];
      s := s + 1;
    }
    base := base0;
    if (base == 0 || base == 16) && c == '0' && (b[s] == 'x' || b[s] == 'X') {
      c := b[s + 1];
      s := s + 2;
      base := 16;
    }
    if base == 0 {
      base := if c == '0' then 8 else 10;
    }
  }

  lemma ValueStep(b: string, d: nat, s: nat, base: nat)
    requires d < s <= |b| && base >= 1
    ensures Value(b[d..s], base) == Value(b[d..s - 1], base) * base + DigitValue(b[s - 1])
    ensures Value(b[d..s], base) >= Value(b[d..s - 1], base)
  {
    assert b[d..s][..s - 1 - d] == b[d..s - 1];
    ValueGrows(b[d..s - 1], [b[s - 1]], base);
    assert b[d..s] == b[d..s - 1] + [b[s - 1]];
  }

  /** The accumulation: `any` is 0 before the first digit, -1 once the value has overflowed. */
  ghost predicate Accumulated(v: nat, acc: nat, any: int, seen: nat) {
    && (any == -1 || any == 0 || any == 1) && (any == 0 <==> seen == 0)
    && (if any == -1 then acc == ULONG_MAX && v > ULONG_MAX else acc == v <= ULONG_MAX)
  }

  method AddDigit(acc0: nat, any0: int, v: nat, base: nat, ghost value: nat, ghost seen: nat)
    returns (acc: nat, any: int)
    requires 2 <= base <= 36 && v < base && Accumulated(value, acc0, any0, seen)
    ensures Accumulated(value * base + v, acc, any, seen + 1)
  {
    acc, any := acc0, any0;
    if any < 0 {
      assert value * base >= value;
      return;
    }
    CutoffTest(acc, v, base);
    if acc > ULONG_MAX / base || (acc == ULONG_MAX / base && v > ULONG_MAX % base) {
      any, acc := -1, ULONG_MAX;
    } else {
      any, acc := 1, acc * base + v;
    }
  }

  /** The digit loop: `c` is the digit candidate at `d`. */
  method ParseDigits(b: string, d: nat, base: nat) returns (acc: nat, any: int, e: nat)
    requires IsCString(b) && d < |b| && 2 <= base <= 36
    ensures e == RunEnd(b, d, base) && Accumulated(Value(b[d..e], base), acc, any, e - d)
  {
    var c, s := b[d], d + 1;
    any, acc := 0, 0;
    while (IsDigit(c) || IsAlpha(c)) && DigitValue(c) < base
      invariant d < s <= |b| && c == b[s - 1]
      invariant RunEnd(b, d, base) == RunEnd(b, s - 1, base)
      invariant Accumulated(Value(b[d..s - 1], base), acc, any, s - 1 - d)
      decreases |b| - s
    {
      ValueStep(b, d, s, base);
      acc, any := AddDigit(acc, any, DigitValue(c), base, Value(b[d..s - 1], base), s - 1 - d);
      c := b[s];
      s := s + 1;
    }
    e := s - 1;
  }

  /** strtoul: the whole maximal digit run is consumed, and the result is its value, saturated. */
  method Strtoul(b: string, nptr: nat, base0: nat) returns (acc: nat, end: nat)
    requires IsCString(b) && nptr < |b| && (base0 == 0 || 2 <= base0 <= 36)
    ensures (acc, end) == Parsed(b, nptr, base0)
  {
    var neg, base, c, s := ReadHeader(b, nptr, base0);
    var any, e;
    acc, any, e := ParseDigits(b, s - 1, base);
    if neg && any > 0 {
      acc := (WORD - acc) % WORD;
    }
    end := if any != 0 then e else nptr;
  }
}
