/**
 * The cache-tag key hash (`hasher`, source/ijwt.ts:211-222): a polynomial
 * hash over the UTF-16 code units of a string, kept to a signed 32-bit
 * integer after every step, and the decimal text (`toString`) of the result
 * that names the cache entry.
 */
module Hash {

  const TwoTo31: int := 0x8000_0000
  const TwoTo32: int := 0x1_0000_0000

  predicate IsInt32(x: int)
  {
    -TwoTo31 <= x < TwoTo31
  }

  /** ECMAScript's ToInt32: the signed 32-bit integer congruent to `x` modulo 2^32. */
  function ToInt32(x: int): (r: int)
    ensures IsInt32(r)
    ensures (x - r) % TwoTo32 == 0
  {
    (x + TwoTo31) % TwoTo32 - TwoTo31
  }

  lemma ToInt32Periodic(x: int, t: int)
    ensures ToInt32(x + TwoTo32 * t) == ToInt32(x)
  {
    assert (x + TwoTo32 * t + TwoTo31) % TwoTo32 == (x + TwoTo31) % TwoTo32 by {
      var a := x + TwoTo31;
      assert (a + TwoTo32 * t) % TwoTo32 == a % TwoTo32;
    }
  }

  lemma ToInt32Fixed(x: int)
    requires IsInt32(x)
    ensures ToInt32(x) == x
  {
  }

  /** The UTF-16 encoding of one character: itself, or a surrogate pair above U+FFFF. */
  function CodeUnits(c: char): (u: seq<int>)
    ensures 1 <= |u| <= 2
    ensures forall k :: 0 <= k < |u| ==> 0 <= u[k] < 0x1_0000
    ensures |u| == 1 <==> c as int < 0x1_0000
    ensures |u| == 1 ==> u[0] == c as int
  {
    var v := c as int;
    if v < 0x1_0000 then [v]
    else [0xD800 + (v - 0x1_0000) / 0x400, 0xDC00 + (v - 0x1_0000) % 0x400]
  }

  /** The code units of a string, as `length` and `charCodeAt` see it. */
  function Utf16(s: string): (u: seq<int>)
    ensures |u| >= |s|
    ensures forall k :: 0 <= k < |u| ==> 0 <= u[k] < 0x1_0000
  {
    if s == [] then [] else CodeUnits(s[0]) + Utf16(s[1..])
  }

  /** The hash as a mathematical fold: `h := ToInt32(31 * h + c)` from `h = 0`. */
  function PolyHash(units: seq<int>): (h: int)
    ensures IsInt32(h)
  {
    if units == [] then 0
    else ToInt32(31 * PolyHash(units[..|units| - 1]) + units[|units| - 1])
  }

  /** JavaScript's `h << 5`: both the operand and the result are 32-bit. */
  function ShiftLeft5(h: int): (r: int)
    ensures IsInt32(r)
  {
    ToInt32(ToInt32(h) * 32)
  }

  /** `(hash << 5) - hash + char` followed by `hash |= 0` is the fold's step. */
  lemma LoopStepIsFoldStep(h: int, c: int)
    requires IsInt32(h)
    ensures ToInt32(ShiftLeft5(h) - h + c) == ToInt32(31 * h + c)
  {
    var s := ToInt32(h * 32);
    var t := (s - h * 32) / TwoTo32;
    assert s == h * 32 + TwoTo32 * t;
    assert ShiftLeft5(h) - h + c == (31 * h + c) + TwoTo32 * t;
    ToInt32Periodic(31 * h + c, t);
  }

  /** `hasher`: the loop as written, proved to compute the fold. */
  method Hasher(value: string) returns (hash: int)
    ensures hash == PolyHash(Utf16(value))
    ensures IsInt32(hash)
  {
    hash := 0;
    var units := Utf16(value);
    if |units| == 0 {
      return hash;
    }
    for x := 0 to |units|
      invariant hash == PolyHash(units[..x])
    {
      var code := units[x];
      LoopStepIsFoldStep(hash, code);
      assert units[..x + 1][..x] == units[..x];
      hash := ShiftLeft5(hash) - hash + code;
      hash := ToInt32(hash);
    }
    assert units[..|units|] == units;
  }

  /** The empty string hashes to 0. */
  lemma HashEmpty()
    ensures PolyHash(Utf16("")) == 0
  {
  }

  /** Below U+10000 every character is a single code unit. */
  lemma {:induction false} Utf16Bmp(s: string)
    requires forall k :: 0 <= k < |s| ==> s[k] as int < 0x1_0000
    ensures |Utf16(s)| == |s| && forall k :: 0 <= k < |s| ==> Utf16(s)[k] == s[k] as int
  {
    if s != [] {
      Utf16Bmp(s[1..]);
    }
  }

  /** One step of the fold on known values. */
  lemma FoldStep(u: seq<int>, c: int, h: int, h': int)
    requires PolyHash(u) == h
    requires ToInt32(31 * h + c) == h'
    ensures PolyHash(u + [c]) == h'
  {
    assert (u + [c])[..|u|] == u;
  }

  /** Values recorded in the test suite. */
  lemma HashHelloWorldUnits()
    ensures Utf16("Hello world") == [72, 101, 108, 108, 111, 32, 119, 111, 114, 108, 100]
  {
    Utf16Bmp("Hello world");
  }

  lemma HashHelloWorldFold()
    ensures PolyHash([72, 101, 108, 108, 111, 32, 119, 111, 114, 108, 100]) == -832992604
  {
    var u := [72, 101, 108, 108, 111, 32, 119, 111, 114, 108, 100];
    FoldStep(u[..0], 72, 0, 72);
    assert u[..0] + [72] == u[..1];
    FoldStep(u[..1], 101, 72, 2333);
    assert u[..1] + [101] == u[..2];
    FoldStep(u[..2], 108, 2333, 72431);
    assert u[..2] + [108] == u[..3];
    FoldStep(u[..3], 108, 72431, 2245469);
    assert u[..3] + [108] == u[..4];
    FoldStep(u[..4], 111, 2245469, 69609650);
    assert u[..4] + [111] == u[..5];
    FoldStep(u[..5], 32, 69609650, -2137068114);
    assert u[..5] + [32] == u[..6];
    FoldStep(u[..6], 119, -2137068114, -1824601975);
    assert u[..6] + [119] == u[..7];
    FoldStep(u[..7], 111, -1824601975, -728086266);
    assert u[..7] + [111] == u[..8];
    FoldStep(u[..8], 114, -728086266, -1095837652);
    assert u[..8] + [114] == u[..9];
    FoldStep(u[..9], 108, -1095837652, 388771264);
    assert u[..9] + [108] == u[..10];
    FoldStep(u[..10], 100, 388771264, -832992604);
    assert u[..10] + [100] == u[..11];
    assert u[..11] == u;
  }

  lemma HashHelloWorld()
    ensures PolyHash(Utf16("Hello world")) == -832992604
  {
    HashHelloWorldUnits();
    HashHelloWorldFold();
  }

  lemma HashHelloUnderscoreWorldUnits()
    ensures Utf16("Hello_world") == [72, 101, 108, 108, 111, 95, 119, 111, 114, 108, 100]
  {
    Utf16Bmp("Hello_world");
  }

  lemma HashHelloUnderscoreWorldFold()
    ensures PolyHash([72, 101, 108, 108, 111, 95, 119, 111, 114, 108, 100]) == 970643909
  {
    var u := [72, 101, 108, 108, 111, 95, 119, 111, 114, 108, 100];
    FoldStep(u[..0], 72, 0, 72);
    assert u[..0] + [72] == u[..1];
    FoldStep(u[..1], 101, 72, 2333);
    assert u[..1] + [101] == u[..2];
    FoldStep(u[..2], 108, 2333, 72431);
    assert u[..2] + [108] == u[..3];
    FoldStep(u[..3], 108, 72431, 2245469);
    assert u[..3] + [108] == u[..4];
    FoldStep(u[..4], 111, 2245469, 69609650);
    assert u[..4] + [111] == u[..5];
    FoldStep(u[..5], 95, 69609650, -2137068051);
    assert u[..5] + [95] == u[..6];
    FoldStep(u[..6], 119, -2137068051, -1824600022);
    assert u[..6] + [119] == u[..7];
    FoldStep(u[..7], 111, -1824600022, -728025723);
    assert u[..7] + [111] == u[..8];
    FoldStep(u[..8], 114, -728025723, -1093960819);
    assert u[..8] + [114] == u[..9];
    FoldStep(u[..9], 108, -1093960819, 446953087);
    assert u[..9] + [108] == u[..10];
    FoldStep(u[..10], 100, 446953087, 970643909);
    assert u[..10] + [100] == u[..11];
    assert u[..11] == u;
  }

  lemma HashHelloUnderscoreWorld()
    ensures PolyHash(Utf16("Hello_world")) == 970643909
  {
    HashHelloUnderscoreWorldUnits();
    HashHelloUnderscoreWorldFold();
  }

  predicate IsDigit(c: char)
  {
    '0' <= c <= '9'
  }

  function DigitChar(d: int): (c: char)
    requires 0 <= d < 10
    ensures IsDigit(c)
    ensures c as int - '0' as int == d
  {
    ('0' as int + d) as char
  }

  /** The decimal digits of a natural number, most significant first. */
  function Digits(n: nat): (s: string)
    ensures |s| >= 1
    ensures forall k :: 0 <= k < |s| ==> IsDigit(s[k])
  {
    if n < 10 then [DigitChar(n)] else Digits(n / 10) + [DigitChar(n % 10)]
  }

  /** `Number.prototype.toString()` on an integer: optional minus sign, then digits. */
  function NumberToString(n: int): (s: string)
    ensures |s| >= 1
    ensures s[0] == '-' <==> n < 0
  {
    if n < 0 then "-" + Digits(-n) else Digits(n)
  }

  /** The value of a digit string. */
  function DigitsValue(s: string): nat
    requires forall k :: 0 <= k < |s| ==> IsDigit(s[k])
  {
    if s == [] then 0
    else
      var last := s[|s| - 1];
      assert IsDigit(last);
      DigitsValue(s[..|s| - 1]) * 10 + (last as int - '0' as int)
  }

  /** Reading back a decimal numeral with an optional leading minus sign. */
  function ParseNumber(s: string): int
    requires |s| >= 1
    requires forall k :: (if s[0] == '-' then 1 else 0) <= k < |s| ==> IsDigit(s[k])
  {
    if s[0] == '-' then -(DigitsValue(s[1..]) as int) else DigitsValue(s)
  }

  lemma {:induction false} DigitsRoundTrip(n: nat)
    ensures DigitsValue(Digits(n)) == n
  {
    var s := Digits(n);
    if n >= 10 {
      DigitsRoundTrip(n / 10);
      assert s[..|s| - 1] == Digits(n / 10);
    }
  }

  /** The decimal text of an integer reads back as that integer. */
  lemma NumberToStringRoundTrip(n: int)
    ensures ParseNumber(NumberToString(n)) == n
  {
    var s := NumberToString(n);
    if n < 0 {
      assert s[1..] == Digits(-n);
      DigitsRoundTrip(-n);
    } else {
      DigitsRoundTrip(n);
    }
  }

  /** Distinct hashes name distinct cache entries. */
  lemma NumberToStringInjective(a: int, b: int)
    requires NumberToString(a) == NumberToString(b)
    ensures a == b
  {
    NumberToStringRoundTrip(a);
    NumberToStringRoundTrip(b);
  }
}
