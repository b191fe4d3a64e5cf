/**
 * The parts of Go's runtime and `fmt` package that the bookmark generator
 * relies on, written out: the `<` order on strings, the `%d` verb on a
 * non-negative integer and the `%0Nx` verb on a non-negative integer.
 *
 * Strings are sequences of Unicode code points. Go compares strings byte by
 * byte on their UTF-8 encoding; UTF-8 preserves code-point order, so the
 * lexicographic order on code points below is the same order.
 */
module Text {

  // ---------------------------------------------------------------------
  // Go's `<` on strings
  // ---------------------------------------------------------------------

  /** Lexicographic order: a proper prefix is smaller. */
  predicate Less(a: string, b: string)
    decreases |a|
  {
    |b| > 0 && (|a| == 0 || a[0] < b[0] || (a[0] == b[0] && Less(a[1..], b[1..])))
  }

  lemma {:induction false} LessIrreflexive(a: string)
    ensures !Less(a, a)
    decreases |a|
  {
    if |a| > 0 {
      LessIrreflexive(a[1..]);
    }
  }

  lemma {:induction false} LessTransitive(a: string, b: string, c: string)
    requires Less(a, b) && Less(b, c)
    ensures Less(a, c)
    decreases |a|
  {
    if |a| > 0 && a[0] == b[0] && b[0] == c[0] {
      LessTransitive(a[1..], b[1..], c[1..]);
    }
  }

  lemma {:induction false} LessTotal(a: string, b: string)
    ensures Less(a, b) || a == b || Less(b, a)
    decreases |a|
  {
    if |a| > 0 && |b| > 0 && a[0] == b[0] {
      LessTotal(a[1..], b[1..]);
      if a[1..] == b[1..] {
        assert a == [a[0]] + a[1..] && b == [b[0]] + b[1..];
      }
    }
  }

  lemma LessAsymmetric(a: string, b: string)
    requires Less(a, b)
    ensures !Less(b, a)
  {
    if Less(b, a) {
      LessTransitive(a, b, a);
      LessIrreflexive(a);
    }
  }

  /** `!(b < a)` is transitive: the order sort.Slice establishes is a total preorder. */
  lemma NotLessTransitive(a: string, b: string, c: string)
    requires !Less(b, a) && !Less(c, b)
    ensures !Less(c, a)
  {
    LessTotal(a, b);
    LessTotal(b, c);
    if Less(a, b) && Less(b, c) {
      LessTransitive(a, b, c);
      LessAsymmetric(a, c);
    }
  }

  // ---------------------------------------------------------------------
  // Prefixes and occurrences
  // ---------------------------------------------------------------------

  predicate StartsWith(s: string, prefix: string) {
    |prefix| <= |s| && s[..|prefix|] == prefix
  }

  /** A prefix whose first character differs from the string's is not a prefix. */
  lemma NotStartsWithHead(s: string, prefix: string)
    requires s != [] && prefix != [] && s[0] != prefix[0]
    ensures !StartsWith(s, prefix)
  {
    if |prefix| <= |s| {
      assert s[..|prefix|][0] == s[0];
    }
  }

  lemma StartsWithConcat(a: string, b: string)
    ensures StartsWith(a + b, a)
  {
    assert (a + b)[..|a|] == a;
  }

  lemma StartsWithTransitive(s: string, p: string, q: string)
    requires StartsWith(s, p) && StartsWith(p, q)
    ensures StartsWith(s, q)
  {
    assert s[..|q|] == s[..|p|][..|q|];
  }

  lemma AppendAssoc<T>(a: seq<T>, b: seq<T>, c: seq<T>)
    ensures (a + b) + c == a + (b + c)
  {
  }

  /** t occurs in s at position i. */
  predicate OccursAt(s: string, t: string, i: int) {
    0 <= i <= |s| - |t| && s[i..i + |t|] == t
  }

  ghost predicate Contains(s: string, t: string) {
    exists i :: OccursAt(s, t, i)
  }

  lemma ContainsSelf(t: string)
    ensures Contains(t, t)
  {
    assert OccursAt(t, t, 0);
  }

  /** An occurrence survives appending on the right... */
  lemma ContainsLeft(a: string, b: string, t: string)
    requires Contains(a, t)
    ensures Contains(a + b, t)
  {
    var i :| OccursAt(a, t, i);
    assert (a + b)[i..i + |t|] == a[i..i + |t|];
    assert OccursAt(a + b, t, i);
  }

  /** ... and on the left. */
  lemma ContainsRight(a: string, b: string, t: string)
    requires Contains(b, t)
    ensures Contains(a + b, t)
  {
    var i :| OccursAt(b, t, i);
    assert (a + b)[|a| + i..|a| + i + |t|] == b[i..i + |t|];
    assert OccursAt(a + b, t, |a| + i);
  }

  // ---------------------------------------------------------------------
  // The `%d` verb on a non-negative integer
  // ---------------------------------------------------------------------

  function DigitChar(d: nat): char
    requires d < 10
  {
    "0123456789"[d]
  }

  predicate IsDigit(c: char) {
    '0' <= c <= '9'
  }

  function DigitValue(c: char): nat {
    if IsDigit(c) then c as int - '0' as int else 0
  }

  /** Decimal rendering without sign or padding, as `fmt.Sprintf("%d", n)` for n >= 0. */
  function Decimal(n: nat): (r: string)
    ensures |r| > 0 && forall i :: 0 <= i < |r| ==> IsDigit(r[i])
    ensures r[0] == '0' ==> n == 0
    decreases n
  {
    if n < 10 then [DigitChar(n)] else Decimal(n / 10) + [DigitChar(n % 10)]
  }

  /** Reads a string of decimal digits back as a number. */
  function ParseDecimal(s: string): nat {
    if s == [] then 0 else ParseDecimal(s[..|s| - 1]) * 10 + DigitValue(s[|s| - 1])
  }

  lemma {:induction false} DecimalRoundTrip(n: nat)
    ensures ParseDecimal(Decimal(n)) == n
    decreases n
  {
    if n >= 10 {
      DecimalRoundTrip(n / 10);
      var s := Decimal(n);
      assert s[..|s| - 1] == Decimal(n / 10);
    }
  }

  lemma DecimalInjective(m: nat, n: nat)
    ensures Decimal(m) == Decimal(n) <==> m == n
  {
    DecimalRoundTrip(m);
    DecimalRoundTrip(n);
  }

  lemma ParseAppendZero(s: string)
    ensures ParseDecimal(s + "0") == ParseDecimal(s) * 10
  {
    assert (s + "0")[..|s|] == s;
  }

  /** Appending six zeros multiplies by 10^6 (seconds to microseconds). */
  lemma ParseAppendSixZeros(s: string)
    ensures ParseDecimal(s + "000000") == ParseDecimal(s) * 1000000
  {
    var p := ParseDecimal(s);
    calc {
      ParseDecimal(s + "000000");
      { assert s + "000000" == (s + "00000") + "0"; ParseAppendZero(s + "00000"); }
      ParseDecimal(s + "00000") * 10;
      { assert s + "00000" == (s + "0000") + "0"; ParseAppendZero(s + "0000"); }
      ParseDecimal(s + "0000") * 100;
      { assert s + "0000" == (s + "000") + "0"; ParseAppendZero(s + "000"); }
      ParseDecimal(s + "000") * 1000;
      { assert s + "000" == (s + "00") + "0"; ParseAppendZero(s + "00"); }
      ParseDecimal(s + "00") * 10000;
      { assert s + "00" == (s + "0") + "0"; ParseAppendZero(s + "0"); }
      ParseDecimal(s + "0") * 100000;
      { ParseAppendZero(s); }
      p * 1000000;
    }
  }

  // ---------------------------------------------------------------------
  // Euclidean division facts
  // ---------------------------------------------------------------------

  /** Quotient and remainder are determined by n == k * m + t with 0 <= t < m. */
  lemma ModUnique(n: int, m: int, k: int, t: int)
    requires m > 0 && 0 <= t < m && n == k * m + t
    ensures n % m == t && n / m == k
  {
    var d := k - n / m;
    assert d * m == n % m - t;
  }

  /** Reducing modulo a * b first does not change the remainder modulo a. */
  lemma ModMod(n: nat, a: nat, b: nat)
    requires a > 0 && b > 0
    ensures (n % (a * b)) % a == n % a
  {
    var t := n % (a * b);
    var q := n / (a * b);
    assert n == (a * b) * q + t;
    assert t == a * (t / a) + t % a;
    assert n == (b * q + t / a) * a + t % a;
    ModUnique(n, a, b * q + t / a, t % a);
  }

  // ---------------------------------------------------------------------
  // The `%0Nx` verb on a non-negative integer
  // ---------------------------------------------------------------------

  function Pow16(n: nat): (r: nat)
    ensures r > 0
  {
    if n == 0 then 1 else 16 * Pow16(n - 1)
  }

  lemma Pow16Values()
    ensures Pow16(8) == 0x1_0000_0000 && Pow16(12) == 0x1_0000_0000_0000
  {
  }

  function HexDigit(d: nat): char
    requires d < 16
  {
    "0123456789abcdef"[d]
  }

  predicate IsHexDigit(c: char) {
    '0' <= c <= '9' || 'a' <= c <= 'f'
  }

  /** The value of a lower-case hexadecimal digit (0 for any other character). */
  function HexValue(c: char): nat {
    if '0' <= c <= '9' then c as int - '0' as int
    else if 'a' <= c <= 'f' then c as int - 'a' as int + 10
    else 0
  }

  lemma HexDigitRoundTrip(d: nat)
    requires d < 16
    ensures IsHexDigit(HexDigit(d)) && HexValue(HexDigit(d)) == d
  {
    if d < 10 {
      assert HexDigit(d) as int == '0' as int + d;
    } else {
      assert HexDigit(d) as int == 'a' as int + d - 10;
    }
  }

  /**
   * The lowest `width` hexadecimal digits of n, most significant first, in
   * lower case. For n < 16^width this is `fmt.Sprintf("%0<width>x", n)`.
   * (Listing n in the decreases clause keeps the verifier from unrolling a
   * rendering whose width is a literal.)
   */
  function Hex(n: nat, width: nat): (r: string)
    ensures |r| == width
    decreases width, n
  {
    if width == 0 then "" else Hex(n / 16, width - 1) + [HexDigit(n % 16)]
  }

  /** Reads hexadecimal digits back. */
  function ParseHex(s: string): nat {
    if s == [] then 0 else ParseHex(s[..|s| - 1]) * 16 + HexValue(s[|s| - 1])
  }

  /** Every character of a rendering is a lower-case hexadecimal digit. */
  lemma {:induction false} HexIsLowerHex(n: nat, width: nat)
    ensures forall i :: 0 <= i < width ==> IsHexDigit(Hex(n, width)[i])
    decreases width
  {
    if width > 0 {
      HexIsLowerHex(n / 16, width - 1);
      HexDigitRoundTrip(n % 16);
    }
  }

  /** Parsing a rendering of a number that fits gives the number back. */
  lemma {:induction false} HexRoundTrip(n: nat, width: nat)
    requires n < Pow16(width)
    ensures ParseHex(Hex(n, width)) == n
    decreases width
  {
    if width > 0 {
      var s := Hex(n, width);
      assert s[..width - 1] == Hex(n / 16, width - 1);
      HexRoundTrip(n / 16, width - 1);
      HexDigitRoundTrip(n % 16);
    }
  }

  /** The last `b` digits of a `width`-digit rendering are the `b`-digit rendering. */
  lemma {:induction false} HexSuffix(n: nat, width: nat, b: nat)
    requires b <= width
    ensures Hex(n, width)[width - b..] == Hex(n, b)
    decreases b
  {
    if b > 0 {
      HexSuffix(n / 16, width - 1, b - 1);
      assert Hex(n, width)[width - b..] == Hex(n / 16, width - 1)[width - b..] + [HexDigit(n % 16)];
    }
  }

  lemma ModNested(n: nat, p: nat)
    requires p > 0
    ensures (n % (16 * p)) % 16 == n % 16 && (n % (16 * p)) / 16 == (n / 16) % p
  {
    var q := n / 16;
    var r := n % 16;
    var a := q / p;
    var b := q % p;
    assert q == a * p + b;
    assert n == a * (16 * p) + (16 * b + r);
    ModUnique(n, 16 * p, a, 16 * b + r);
  }

  /** A rendering depends on the number modulo 16^width only. */
  lemma {:induction false} HexMod(n: nat, width: nat)
    ensures Hex(n, width) == Hex(n % Pow16(width), width)
    decreases width
  {
    if width > 0 {
      var p := Pow16(width - 1);
      var m := n % (16 * p);
      ModNested(n, p);
      HexMod(n / 16, width - 1);
      HexMod(m / 16, width - 1);
    }
  }
}
