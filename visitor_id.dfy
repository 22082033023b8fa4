/**
 * The visitor identifier of the live tracker: a rolling hash over the UTF-16
 * code units of the browser fingerprint, folded into a signed 32-bit integer
 * after every step, whose absolute value is written in base 36 after the
 * prefix "visitor_".
 */
module VisitorId {

  /** A UTF-16 code unit, as `charCodeAt` returns it. */
  type CodeUnit = c: int | 0 <= c < 0x1_0000

  const TwoTo32: int := 0x1_0000_0000
  const TwoTo31: int := 0x8000_0000

  predicate IsInt32(x: int) {
    -TwoTo31 <= x < TwoTo31
  }

  /** The ECMAScript ToInt32 conversion of an integral number. */
  function ToInt32(x: int): (r: int)
    ensures IsInt32(r)
    ensures (r - x) % TwoTo32 == 0
  {
    var m := x % TwoTo32;
    if m >= TwoTo31 then m - TwoTo32 else m
  }

  /** Two signed 32-bit integers that agree modulo 2^32 are equal. */
  lemma Int32Unique(a: int, b: int)
    requires IsInt32(a) && IsInt32(b)
    requires (a - b) % TwoTo32 == 0
    ensures a == b
  {
  }

  /** ToInt32 depends only on its argument modulo 2^32. */
  lemma ToInt32Congruent(x: int, y: int)
    requires (x - y) % TwoTo32 == 0
    ensures ToInt32(x) == ToInt32(y)
  {
    var a, b := ToInt32(x), ToInt32(y);
    assert (a - b) % TwoTo32 == 0 by {
      var p, q, r := (a - x) / TwoTo32, (b - y) / TwoTo32, (x - y) / TwoTo32;
      assert a - x == TwoTo32 * p;
      assert b - y == TwoTo32 * q;
      assert x - y == TwoTo32 * r;
      assert a - b == TwoTo32 * (p - q + r);
    }
    Int32Unique(a, b);
  }

  /** `x << 5` on a JavaScript number: the operand and the result are both taken through ToInt32. */
  function ShiftLeft5(x: int): int {
    ToInt32(ToInt32(x) * 32)
  }

  /**
   * One step of the source's loop: `hash = ((hash << 5) - hash) + char`
   * followed by `hash = hash & hash`, whose only effect is ToInt32.
   */
  function HashStep(hash: int, c: CodeUnit): int {
    var sum := (ShiftLeft5(hash) - hash) + c;
    ToInt32(sum)
  }

  /** Each step of the loop is the 32-bit truncation of `31 * hash + c`. */
  lemma HashStepIsMultiplyAdd(hash: int, c: CodeUnit)
    requires IsInt32(hash)
    ensures HashStep(hash, c) == ToInt32(31 * hash + c)
  {
    var s := ToInt32(hash * 32);
    assert ToInt32(hash) == hash by { Int32Unique(ToInt32(hash), hash); }
    var k := (s - hash * 32) / TwoTo32;
    assert s - hash * 32 == TwoTo32 * k;
    assert ((s - hash + c) - (31 * hash + c)) == TwoTo32 * k;
    ToInt32Congruent(s - hash + c, 31 * hash + c);
  }

  /** The hash after the loop has consumed all of `s`, starting from 0. */
  function Hash(s: seq<CodeUnit>): (h: int)
    ensures IsInt32(h)
  {
    if s == [] then 0 else HashStep(Hash(s[..|s| - 1]), s[|s| - 1])
  }

  /** The same polynomial without any truncation: digits of s in base 31. */
  function Polynomial(s: seq<CodeUnit>): int {
    if s == [] then 0 else 31 * Polynomial(s[..|s| - 1]) + s[|s| - 1]
  }

  /** Truncating after every step gives the truncation of the exact polynomial. */
  lemma {:induction false} HashIsTruncatedPolynomial(s: seq<CodeUnit>)
    ensures Hash(s) == ToInt32(Polynomial(s))
  {
    if s != [] {
      var init, c := s[..|s| - 1], s[|s| - 1];
      HashIsTruncatedPolynomial(init);
      var h, p := Hash(init), Polynomial(init);
      HashStepIsMultiplyAdd(h, c);
      var k := (h - p) / TwoTo32;
      assert h - p == TwoTo32 * k;
      assert (31 * h + c) - (31 * p + c) == TwoTo32 * (31 * k);
      ToInt32Congruent(31 * h + c, 31 * p + c);
    }
  }

  /** The loop of `generateVisitorId`, returning the folded hash. */
  method HashFingerprint(fingerprint: seq<CodeUnit>) returns (hash: int)
    ensures hash == Hash(fingerprint)
    ensures IsInt32(hash)
  {
    hash := 0;
    var i := 0;
    while i < |fingerprint|
      invariant 0 <= i <= |fingerprint|
      invariant hash == Hash(fingerprint[..i])
    {
      var c := fingerprint[i];
      assert fingerprint[..i + 1][..i] == fingerprint[..i];
      hash := ((ShiftLeft5(hash) - hash) + c);
      hash := ToInt32(hash);
      i := i + 1;
    }
    assert fingerprint[..i] == fingerprint;
  }

  function Abs(x: int): nat {
    if x < 0 then -x else x
  }

  // ---------------------------------------------------------------------------
  // Base 36, as `Number.prototype.toString(36)` writes a non-negative integer.

  predicate IsBase36Digit(ch: char) {
    ('0' <= ch <= '9') || ('a' <= ch <= 'z')
  }

  predicate AllBase36Digits(s: string) {
    forall i :: 0 <= i < |s| ==> IsBase36Digit(s[i])
  }

  function DigitValue(ch: char): (d: int)
    requires IsBase36Digit(ch)
    ensures 0 <= d < 36
  {
    if ch <= '9' then ch as int - '0' as int else ch as int - 'a' as int + 10
  }

  function DigitChar(d: int): (ch: char)
    requires 0 <= d < 36
    ensures IsBase36Digit(ch)
    ensures DigitValue(ch) == d
  {
    if d < 10 then (d + '0' as int) as char else (d - 10 + 'a' as int) as char
  }

  /** The base-36 numeral of n: lower-case digits, most significant first, no leading zero. */
  function Base36(n: nat): (r: string)
    ensures |r| >= 1
    ensures AllBase36Digits(r)
    ensures r[0] == '0' ==> n == 0
    decreases n
  {
    if n < 36 then [DigitChar(n)] else Base36(n / 36) + [DigitChar(n % 36)]
  }

  /** Reads a base-36 numeral back. */
  function ParseBase36(s: string): nat
    requires AllBase36Digits(s)
  {
    if s == [] then 0 else ParseBase36(s[..|s| - 1]) * 36 + DigitValue(s[|s| - 1])
  }

  lemma {:induction false} Base36RoundTrip(n: nat)
    ensures ParseBase36(Base36(n)) == n
    decreases n
  {
    if n >= 36 {
      var r := Base36(n);
      Base36RoundTrip(n / 36);
      assert r[..|r| - 1] == Base36(n / 36);
    }
  }

  lemma Base36Injective(m: nat, n: nat)
    requires Base36(m) == Base36(n)
    ensures m == n
  {
    Base36RoundTrip(m);
    Base36RoundTrip(n);
  }

  function Pow36(k: nat): nat {
    if k == 0 then 1 else 36 * Pow36(k - 1)
  }

  /** A number below 36^k takes at most k digits. */
  lemma {:induction false} Base36Length(n: nat, k: nat)
    requires k >= 1 && n < Pow36(k)
    ensures |Base36(n)| <= k
    decreases k
  {
    if n >= 36 {
      assert k >= 2;
      Base36Length(n / 36, k - 1);
    }
  }

  // ---------------------------------------------------------------------------
  // The identifier.

  const Prefix: string := "visitor_"

  /** `'visitor_' + Math.abs(hash).toString(36)` for the hash of the fingerprint. */
  function VisitorIdOf(fingerprint: seq<CodeUnit>): (id: string)
  {
    Prefix + Base36(Abs(Hash(fingerprint)))
  }

  /**
   * The identifier is the prefix followed by one to six base-36 digits with no
   * leading zero (|hash| is at most 2^31 < 36^6), and those digits read back
   * as the absolute value of the hash.
   */
  lemma VisitorIdShape(fingerprint: seq<CodeUnit>)
    ensures var id := VisitorIdOf(fingerprint);
      && 8 < |id| <= 14
      && id[..8] == Prefix
      && AllBase36Digits(id[8..])
      && (id[8] == '0' ==> |id| == 9)
      && ParseBase36(id[8..]) == Abs(Hash(fingerprint))
  {
    var id, digits := VisitorIdOf(fingerprint), Base36(Abs(Hash(fingerprint)));
    assert id[8..] == digits;
    assert Pow36(6) == 2176782336;
    Base36Length(Abs(Hash(fingerprint)), 6);
    Base36RoundTrip(Abs(Hash(fingerprint)));
  }

  /** `generateVisitorId` with the fingerprint string given as its code units. */
  method GenerateVisitorId(fingerprint: seq<CodeUnit>) returns (id: string)
    ensures id == VisitorIdOf(fingerprint)
    ensures id[..8] == Prefix && ParseBase36(id[8..]) == Abs(Hash(fingerprint))
  {
    var hash := HashFingerprint(fingerprint);
    id := Prefix + Base36(Abs(hash));
    VisitorIdShape(fingerprint);
  }
}
