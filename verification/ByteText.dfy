/** Text as the program handles it: byte strings, decimal printing and parsing, and splitting on a separator.
    A printed number contains only digits, so keys and object ids built from numbers and a separator can be
    taken apart again. */
module ByteText {

  datatype Option<+T> = None | Some(value: T)

  type byte = x: int | 0 <= x < 256

  type Bytes = seq<byte>

  const SLASH: byte := 47
  const DASH: byte := 45
  const UINT64_LIMIT: nat := 0x1_0000_0000_0000_0000

  predicate IsDigit(b: byte) {
    48 <= b <= 57
  }

  function DigitByte(d: nat): (b: byte)
    requires d < 10
    ensures IsDigit(b) && DigitValue(b) == d
  {
    48 + d
  }

  function DigitValue(b: byte): nat {
    if IsDigit(b) then b - 48 else 0
  }

  /** The `%d` verb for an unsigned number. */
  function Print(n: nat): Bytes {
    if n < 10 then [DigitByte(n)] else Print(n / 10) + [DigitByte(n % 10)]
  }

  predicate AllDigits(s: Bytes) {
    forall i :: 0 <= i < |s| ==> IsDigit(s[i])
  }

  function Value(s: Bytes): nat {
    if s == [] then 0 else Value(s[..|s| - 1]) * 10 + DigitValue(s[|s| - 1])
  }

  /** `strconv.ParseUint(s, 10, 64)`: empty text, a non-digit and overflow are errors. */
  function ParseUint(s: Bytes): Option<nat> {
    if s == [] || !AllDigits(s) || Value(s) >= UINT64_LIMIT then None else Some(Value(s))
  }

  lemma {:induction false} PrintIsDecimal(n: nat)
    ensures Print(n) != [] && AllDigits(Print(n)) && Value(Print(n)) == n
  {
    if n < 10 {
      assert Print(n)[..0] == [];
    } else {
      PrintIsDecimal(n / 10);
      var p := Print(n);
      assert p[..|p| - 1] == Print(n / 10);
    }
  }

  lemma ParsePrint(n: nat)
    ensures ParseUint(Print(n)) == if n < UINT64_LIMIT then Some(n) else None
  {
    PrintIsDecimal(n);
  }

  predicate Free(s: Bytes, sep: byte) {
    forall i :: 0 <= i < |s| ==> s[i] != sep
  }

  function Count(s: Bytes, sep: byte): nat {
    if s == [] then 0 else (if s[0] == sep then 1 else 0) + Count(s[1..], sep)
  }

  /** `strings.Split` with a one-byte separator. */
  function Split(s: Bytes, sep: byte): (parts: seq<Bytes>)
    ensures |parts| == Count(s, sep) + 1
  {
    if s == [] then [[]]
    else
      var rest := Split(s[1..], sep);
      if s[0] == sep then [[]] + rest else [[s[0]] + rest[0]] + rest[1..]
  }

  lemma {:induction false} SplitFree(s: Bytes, sep: byte)
    requires Free(s, sep)
    ensures Split(s, sep) == [s]
  {
    if s != [] {
      SplitFree(s[1..], sep);
      assert [s[0]] + s[1..] == s;
    }
  }

  lemma {:induction false} SplitAtSeparator(a: Bytes, rest: Bytes, sep: byte)
    requires Free(a, sep)
    ensures Split(a + [sep] + rest, sep) == [a] + Split(rest, sep)
  {
    var s := a + [sep] + rest;
    if a == [] {
      assert s[1..] == rest;
    } else {
      SplitAtSeparator(a[1..], rest, sep);
      assert s[1..] == a[1..] + [sep] + rest;
      assert [a[0]] + a[1..] == a;
    }
  }

  lemma {:induction false} CountFree(s: Bytes, sep: byte)
    ensures Count(s, sep) == 0 <==> Free(s, sep)
  {
    if s != [] {
      CountFree(s[1..], sep);
      if Free(s[1..], sep) && s[0] != sep {
        forall i | 0 <= i < |s| ensures s[i] != sep { assert i > 0 ==> s[i] == s[1..][i - 1]; }
      }
      if Free(s, sep) {
        forall i | 0 <= i < |s| - 1 ensures s[1..][i] != sep { assert s[1..][i] == s[i + 1]; }
      }
    }
  }

  lemma {:induction false} CountConcat(a: Bytes, b: Bytes, sep: byte)
    ensures Count(a + b, sep) == Count(a, sep) + Count(b, sep)
  {
    if a == [] {
      assert a + b == b;
    } else {
      CountConcat(a[1..], b, sep);
      assert (a + b)[1..] == a[1..] + b;
    }
  }

  lemma DigitsFree(n: nat)
    ensures Free(Print(n), SLASH) && Free(Print(n), DASH)
  {
  }

  /** The key of one (role, user) pair in the recompute's lookup table. */
  function RoleUserKey(role: nat, user: nat): Bytes {
    Print(role) + [DASH] + Print(user)
  }

  /** `user-%d-%d-permissions`, the cache key of one membership row. */
  function PermissionRedisKey(user: nat, community: nat): Bytes {
    [117, 115, 101, 114] + [DASH] + (Print(user) + [DASH]
    + (Print(community) + [DASH] + [112, 101, 114, 109, 105, 115, 115, 105, 111, 110, 115]))
  }

  lemma RoleUserKeyInjective(r1: nat, u1: nat, r2: nat, u2: nat)
    requires RoleUserKey(r1, u1) == RoleUserKey(r2, u2)
    ensures r1 == r2 && u1 == u2
  {
    RoleUserKeySplit(r1, u1);
    RoleUserKeySplit(r2, u2);
    assert [Print(r1), Print(u1)][0] == [Print(r2), Print(u2)][0];
    assert [Print(r1), Print(u1)][1] == [Print(r2), Print(u2)][1];
    PrintIsDecimal(r1);
    PrintIsDecimal(r2);
    PrintIsDecimal(u1);
    PrintIsDecimal(u2);
  }

  lemma RoleUserKeySplit(role: nat, user: nat)
    ensures Split(RoleUserKey(role, user), DASH) == [Print(role), Print(user)]
  {
    DigitsFree(role);
    DigitsFree(user);
    SplitAtSeparator(Print(role), Print(user), DASH);
    SplitFree(Print(user), DASH);
  }

  lemma FourPartSplit(head: Bytes, user: nat, community: nat, tail: Bytes)
    requires Free(head, DASH) && Free(tail, DASH)
    ensures Split(head + [DASH] + (Print(user) + [DASH] + (Print(community) + [DASH] + tail)), DASH)
         == [head, Print(user), Print(community), tail]
  {
    DigitsFree(user);
    DigitsFree(community);
    SplitFree(tail, DASH);
    SplitAtSeparator(Print(community), tail, DASH);
    SplitAtSeparator(Print(user), Print(community) + [DASH] + tail, DASH);
    SplitAtSeparator(head, Print(user) + [DASH] + (Print(community) + [DASH] + tail), DASH);
  }

  lemma PermissionRedisKeyInjective(u1: nat, c1: nat, u2: nat, c2: nat)
    requires PermissionRedisKey(u1, c1) == PermissionRedisKey(u2, c2)
    ensures u1 == u2 && c1 == c2
  {
    var head: Bytes := [117, 115, 101, 114];
    var tail: Bytes := [112, 101, 114, 109, 105, 115, 115, 105, 111, 110, 115];
    FourPartSplit(head, u1, c1, tail);
    FourPartSplit(head, u2, c2, tail);
    assert [head, Print(u1), Print(c1), tail][1] == [head, Print(u2), Print(c2), tail][1];
    assert [head, Print(u1), Print(c1), tail][2] == [head, Print(u2), Print(c2), tail][2];
    PrintIsDecimal(u1);
    PrintIsDecimal(u2);
    PrintIsDecimal(c1);
    PrintIsDecimal(c2);
  }

  // ---------------------------------------------------------------- the texts themselves

  /** A number in base ten, most significant digit first. */
  function Numeral(s: Bytes): int {
    if s == [] then 0 else Numeral(s[..|s| - 1]) * 10 + (s[|s| - 1] as int - '0' as int)
  }

  predicate Decimal(s: Bytes) {
    s != [] && forall i :: 0 <= i < |s| ==> '0' as int <= s[i] <= '9' as int
  }

  /** Printing gives the decimal numeral without a leading zero, and so the only one. */
  lemma {:induction false} PrintIsNumeral(n: nat)
    ensures Decimal(Print(n)) && Numeral(Print(n)) == n
    ensures Print(n)[0] == '0' as int ==> n == 0 && |Print(n)| == 1
  {
    if n < 10 {
      assert Print(n)[..0] == [];
    } else {
      PrintIsNumeral(n / 10);
      var p := Print(n);
      assert p[..|p| - 1] == Print(n / 10) && p[0] == Print(n / 10)[0];
    }
  }

  lemma {:induction false} NumeralIsValue(s: Bytes)
    requires AllDigits(s)
    ensures Numeral(s) == Value(s)
  {
    if s != [] { NumeralIsValue(s[..|s| - 1]); }
  }

  /** Parsing takes exactly the numerals below 2^64, leading zeros and all. */
  lemma ParseUintIff(s: Bytes, n: nat)
    ensures ParseUint(s) == Some(n) <==> Decimal(s) && Numeral(s) == n && n < 0x1_0000_0000_0000_0000
  {
    if AllDigits(s) { NumeralIsValue(s); }
  }

  lemma Quotient(x: nat, p: nat, q: nat, r: nat)
    requires p > 0 && x == p * q + r && r < p
    ensures x / p == q
  {
    assert x == p * (x / p) + x % p;
    assert p * (x / p - q) == r - x % p;
    NoSmallMultiple(p, x / p - q);
  }

  lemma NoSmallMultiple(p: int, d: int)
    requires p > 0 && -p < p * d < p
    ensures d == 0
  {
    if d > 0 {
      AtLeastOnce(p, d);
    } else if d < 0 {
      AtLeastOnce(p, -d);
    }
  }

  lemma AtLeastOnce(p: int, d: int)
    requires p > 0 && d > 0
    ensures p * d >= p
  {
  }

  /** Taking a number written in two parts apart again. */
  lemma HighAndLow(high: nat, low: nat, base: nat)
    requires low < base
    ensures (high * base + low) / base == high && (high * base + low) % base == low
  {
    Quotient(high * base + low, base, high, low);
  }

  function Joined(parts: seq<Bytes>, sep: byte): Bytes
    requires parts != []
  {
    if |parts| == 1 then parts[0] else parts[0] + [sep] + Joined(parts[1..], sep)
  }

  /** The parts are what lies between the separators. */
  lemma {:induction false} SplitIsBetween(s: Bytes, sep: byte)
    ensures Joined(Split(s, sep), sep) == s && forall p :: p in Split(s, sep) ==> Free(p, sep)
  {
    if s != [] {
      SplitIsBetween(s[1..], sep);
      var rest, all := Split(s[1..], sep), Split(s, sep);
      if s[0] == sep {
        assert all[1..] == rest;
      } else {
        assert all[1..] == rest[1..] && all[0] == [s[0]] + rest[0];
        assert rest[0] in rest && Free(all[0], sep);
        forall p | p in all ensures p == all[0] || p in rest {}
        assert Joined(all, sep) == [s[0]] + Joined(rest, sep);
      }
    }
  }

  function Ascii(text: string): (s: Bytes)
    requires forall i :: 0 <= i < |text| ==> text[i] < 128 as char
  {
    seq(|text|, i requires 0 <= i < |text| => text[i] as int)
  }

  lemma KeyTexts(user: nat, other: nat)
    ensures PermissionRedisKey(user, other)
         == Ascii("user-") + Print(user) + Ascii("-") + Print(other) + Ascii("-permissions")
    ensures RoleUserKey(other, user) == Print(other) + Ascii("-") + Print(user)
  {
    assert Ascii("user-") == [117, 115, 101, 114] + [DASH] && Ascii("-") == [DASH];
    assert Ascii("-permissions") == [DASH] + [112, 101, 114, 109, 105, 115, 115, 105, 111, 110, 115];
  }
}
