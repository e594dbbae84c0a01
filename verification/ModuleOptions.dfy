/** Substring search, and the size options on a boot module's command line. */
module ModuleOptions {
  import opened CString

  // ---------- strncmp and strstr ----------

  /** The difference of the first characters, among `n` at most, at which two strings differ; zero
      when they agree that far or up to a common end. */
  function Difference(a: string, i: nat, b: string, j: nat, n: nat): int
    requires IsCString(a) && IsCString(b) && i < |a| && j < |b|
    decreases n
  {
    if n == 0 then 0
    else if a[i] != b[j] then a[i] as int - b[j] as int
    else if a[i] == '\0' then 0
    else Difference(a, i + 1, b, j + 1, n - 1)
  }

  method Strncmp(a: string, i: nat, b: string, j: nat, n: nat) returns (r: int)
    requires IsCString(a) && IsCString(b) && i < |a| && j < |b|
    ensures r == Difference(a, i, b, j, n)
  {
    var s1, s2, left := i, j, n;
    while left > 0
      invariant 0 <= s1 < |a| && 0 <= s2 < |b| && 0 <= left <= n
      invariant Difference(a, i, b, j, n) == Difference(a, s1, b, s2, left)
    {
      if a[s1] != b[s2] {
        return a[s1] as int - b[s2] as int;
      }
      if a[s1] == '\0' {
        return 0;
      }
      s1, s2, left := s1 + 1, s2 + 1, left - 1;
    }
    return 0;
  }

  /** `find`, without its terminator, stands in `b` at `k`. */
  predicate Occurs(b: string, k: nat, find: string)
    requires IsCString(b) && IsCString(find)
  {
    k + |find| <= |b| && b[k..k + |find| - 1] == find[..|find| - 1]
  }

  /** Comparing the tail of `find` decides an occurrence. */
  lemma {:induction false} ComparesTail(b: string, k: nat, find: string, j: nat)
    requires IsCString(b) && IsCString(find) && k < |b| && j < |find|
    ensures Difference(b, k, find, j, |find| - 1 - j) == 0
       <==> k + |find| - j <= |b| && b[k..k + |find| - 1 - j] == find[j..|find| - 1]
    decreases |find| - j
  {
    var n := |find| - 1 - j;
    if n > 0 {
      if b[k] == find[j] {
        ComparesTail(b, k + 1, find, j + 1);
        if k + n + 1 <= |b| {
          assert b[k..k + n] == [b[k]] + b[k + 1..k + n];
          assert find[j..|find| - 1] == [find[j]] + find[j + 1..|find| - 1];
        }
      } else if k + n + 1 <= |b| {
        assert b[k..k + n][0] == b[k] && find[j..|find| - 1][0] == find[j];
      }
    }
  }

  lemma OccursAt(b: string, k: nat, find: string)
    requires IsCString(b) && IsCString(find) && |find| > 1 && k < |b|
    ensures Occurs(b, k, find) ==> b[k] == find[0] && k + 1 < |b|
    ensures b[k] == find[0] && k + 1 < |b| ==> (Occurs(b, k, find) <==> Difference(b, k + 1, find, 1, |find| - 2) == 0)
  {
    var n := |find| - 1;
    if k + |find| <= |b| {
      assert b[k..k + n] == [b[k]] + b[k + 1..k + n];
      assert find[..n] == [find[0]] + find[1..n];
    }
    if k + 1 < |b| {
      ComparesTail(b, k + 1, find, 1);
    }
  }

  method Strlen(b: string, i: nat) returns (len: nat)
    requires IsCString(b) && i < |b|
    ensures len == |b| - 1 - i
  {
    len := 0;
    while b[i + len] != '\0'
      invariant i + len < |b|
      decreases |b| - len
    {
      len := len + 1;
    }
  }

  /** strstr: the leftmost occurrence at or after `from`, or -1 when there is none. */
  method Strstr(b: string, from: nat, find: string) returns (r: int)
    requires IsCString(b) && IsCString(find) && from < |b|
    ensures r == -1 ==> forall k: nat :: from <= k ==> !Occurs(b, k, find)
    ensures r != -1 ==> from <= r && Occurs(b, r, find) && forall k: nat :: from <= k < r ==> !Occurs(b, k, find)
  {
    if find[0] == '\0' {
      return from;
    }
    var len := Strlen(find, 1);
    var s := from;
    while true
      invariant from <= s < |b| && forall k: nat :: from <= k < s ==> !Occurs(b, k, find)
      decreases |b| - s
    {
      OccursAt(b, s, find);
      if b[s] == '\0' {
        return -1;
      }
      if b[s] == find[0] {
        var d := Strncmp(b, s + 1, find, 1, len);
        if d == 0 {
          return s;
        }
      }
      s := s + 1;
    }
  }

  // ---------- Size options ----------

  const MEM: string := "mem=\0"

  /** Where the options start: after the module's name and the blanks that follow it. */
  function NameEnd(b: string, i: nat): (j: nat)
    requires IsCString(b) && i < |b|
    ensures i <= j < |b| && (b[j] == '\0' || IsSpace(b[j]))
    ensures forall k :: i <= k < j ==> b[k] != '\0' && !IsSpace(b[k])
    decreases |b| - i
  {
    if b[i] != '\0' && !IsSpace(b[i]) then NameEnd(b, i + 1) else i
  }

  function Options(b: string): (j: nat)
    requires IsCString(b)
    ensures j < |b|
  {
    SkipSpaces(b, NameEnd(b, 0))
  }

  method CmdlineOptions(b: string) returns (p: nat)
    requires IsCString(b)
    ensures p == Options(b)
  {
    p := 0;
    while b[p] != '\0' && !IsSpace(b[p])
      invariant p < |b| && NameEnd(b, 0) == NameEnd(b, p)
      decreases |b| - p
    {
      p := p + 1;
    }
    while b[p] != '\0' && IsSpace(b[p])
      invariant p < |b| && Options(b) == SkipSpaces(b, p)
      decreases |b| - p
    {
      p := p + 1;
    }
  }

  /** The factor that a size qualifier stands for. */
  function Unit(c: char): nat {
    if c == 'K' then 0x400 else if c == 'M' then 0x10_0000 else if c == 'G' then 0x4000_0000 else 1
  }

  /** A number that ends at `p`, times the factor of its qualifier; zero unless a blank or the end follows. */
  function Qualified(b: string, v: nat, p: nat): nat
    requires IsCString(b) && p < |b|
  {
    var q := if Unit(b[p]) == 1 then p else p + 1;
    if b[q] != '\0' && !IsSpace(b[q]) then 0 else if Unit(b[p]) == 1 then v else (v * Unit(b[p])) % WORD
  }

  /** The value of "name=val[K|M|G]" whose value starts at `i`. */
  function SizeAt(b: string, i: nat): nat
    requires IsCString(b) && i < |b|
  {
    Qualified(b, Parsed(b, i, 0).0, Parsed(b, i, 0).1)
  }

  /** The option at `i` starts with `name`, which ends in the separator. */
  method ParseSizeOption(b: string, i: nat, name: string) returns (val: nat)
    requires IsCString(b) && IsCString(name) && i + |name| - 1 < |b|
    ensures val == SizeAt(b, i + |name| - 1)
  {
    var next;
    var len := Strlen(name, 0);
    val, next := Strtoul(b, i + len, 0);
    val := Qualify(b, val, next);
  }

  method Qualify(b: string, v: nat, p: nat) returns (val: nat)
    requires IsCString(b) && p < |b|
    ensures val == Qualified(b, v, p)
  {
    var next := p;
    val := v;
    if b[next] == 'K' {
      val := (val * 0x400) % WORD;
    } else if b[next] == 'M' {
      val := (val * 0x10_0000) % WORD;
    } else if b[next] == 'G' {
      val := (val * 0x4000_0000) % WORD;
    } else {
      next := next - 1;
    }
    next := next + 1;
    if b[next] != '\0' && !IsSpace(b[next]) {
      return 0;
    }
  }

  /** Occurrences of "mem=" cannot overlap, so continuing after one misses none. */
  lemma MemApart(b: string, k: nat, j: nat)
    requires IsCString(b) && Occurs(b, k, MEM) && k < j < k + 4
    ensures !Occurs(b, j, MEM)
  {
    MemChars(b, k);
    MemChars(b, j);
  }

  lemma MemChars(b: string, k: nat)
    requires IsCString(b)
    ensures Occurs(b, k, MEM) ==> k + 4 < |b| && b[k] == 'm' && b[k + 1] == 'e' && b[k + 2] == 'm' && b[k + 3] == '='
  {
    if Occurs(b, k, MEM) {
      var s := b[k..k + 4];
      assert s == MEM[..4];
      assert s[0] == MEM[0] && s[1] == MEM[1] && s[2] == MEM[2] && s[3] == MEM[3];
    }
  }

  /** A "mem=" option at `k` with value `v`. */
  predicate MemOption(b: string, k: nat, v: nat)
    requires IsCString(b)
  {
    Occurs(b, k, MEM) && k + 4 < |b| && SizeAt(b, k + 4) == v
  }

  /** The option at `k` is the first, from `start` on, with a value other than zero. */
  ghost predicate FirstNonzero(b: string, start: nat, k: nat, v: nat)
    requires IsCString(b)
  {
    && v != 0 && MemOption(b, k, v)
    && forall j: nat :: start <= j < k && Occurs(b, j, MEM) ==> MemOption(b, j, 0)
  }

  /** The search for the option from `start` on. */
  method FindMem(b: string, start: nat) returns (mem: nat)
    requires IsCString(b) && start < |b|
    ensures mem == 0 ==> forall k: nat :: start <= k && Occurs(b, k, MEM) ==> MemOption(b, k, 0)
    ensures mem != 0 ==> exists k: nat :: start <= k && FirstNonzero(b, start, k, mem)
  {
    var p := start;
    while true
      invariant start <= p < |b|
      invariant forall j: nat :: start <= j < p && Occurs(b, j, MEM) ==> MemOption(b, j, 0)
      decreases |b| - p
    {
      var k := Strstr(b, p, MEM);
      if k == -1 {
        return 0;
      }
      MemChars(b, k);
      var val := ParseSizeOption(b, k, MEM);
      if val != 0 {
        assert FirstNonzero(b, start, k, val);
        return val;
      }
      forall j: nat | k < j < k + 4 ensures !Occurs(b, j, MEM) {
        MemApart(b, k, j);
      }
      p := k + 4;
    }
  }

  /** The value of the leftmost "mem=" option that parses to nonzero, else zero. */
  method GetModuleMemsize(b: string) returns (mem: nat)
    requires IsCString(b)
    ensures mem == 0 ==> forall k: nat :: Options(b) <= k && Occurs(b, k, MEM) ==> MemOption(b, k, 0)
    ensures mem != 0 ==> exists k: nat :: Options(b) <= k && FirstNonzero(b, Options(b), k, mem)
  {
    var p := CmdlineOptions(b);
    if b[p] == '\0' {
      NothingAtEnd(b, p);
      return 0;
    }
    mem := FindMem(b, p);
  }

  lemma NothingAtEnd(b: string, p: nat)
    requires IsCString(b) && p < |b| && b[p] == '\0'
    ensures forall k: nat :: p <= k ==> !Occurs(b, k, MEM)
  {
    forall k: nat | p <= k ensures !Occurs(b, k, MEM) { MemChars(b, k); }
  }
}
