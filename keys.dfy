/**
 * Record keys: `format_int(line_id, 8) + "_" + sourceA + "_" + sourceB`,
 * the same expression in the label pass and the image pass.
 *
 * `format_int` comes from caffe/util/format.hpp, which is not part of this
 * model. Its behaviour here is an assumed contract: the decimal digits of
 * the number, left-padded with '0' to at least the requested width.
 */
module Keys {

  const KEY_WIDTH: nat := 8

  function Pow10(n: nat): (p: nat)
    ensures p >= 1
  {
    if n == 0 then 1 else 10 * Pow10(n - 1)
  }

  /** The decimal digit character for `d`. */
  function DigitChar(d: nat): (ch: char)
    requires d < 10
    ensures '0' <= ch <= '9'
  {
    ['0', '1', '2', '3', '4', '5', '6', '7', '8', '9'][d]
  }

  predicate IsDigit(ch: char)
  {
    '0' <= ch <= '9'
  }

  predicate AllDigits(s: string)
  {
    forall k :: 0 <= k < |s| ==> IsDigit(s[k])
  }

  /** Shortest decimal form of `n`, most significant digit first. */
  function Digits(n: nat): (d: string)
    ensures |d| >= 1
    ensures AllDigits(d)
  {
    if n < 10 then [DigitChar(n)] else Digits(n / 10) + [DigitChar(n % 10)]
  }

  function Zeros(k: nat): (z: string)
    ensures |z| == k
    ensures forall i :: 0 <= i < k ==> z[i] == '0'
  {
    if k == 0 then [] else Zeros(k - 1) + ['0']
  }

  /** The assumed contract of `format_int(n, width)`: decimal, padded with '0' on the left to `width` characters. */
  function FormatInt(n: nat, width: nat): (s: string)
    ensures |s| >= width && |s| >= 1
    ensures AllDigits(s)
  {
    var d := Digits(n);
    if |d| >= width then d else Zeros(width - |d|) + d
  }

  /** The key both passes derive for entry `lineId` of the (possibly shuffled) manifest. */
  function Key(lineId: nat, sourceA: string, sourceB: string): string
  {
    FormatInt(lineId, KEY_WIDTH) + "_" + sourceA + "_" + sourceB
  }

  /** Reads a digit string back as a number: the reference inverse of `FormatInt`. */
  function DecimalValue(s: string): nat
    requires AllDigits(s)
  {
    if s == [] then 0
    else 10 * DecimalValue(s[..|s| - 1]) + (s[|s| - 1] as int - '0' as int)
  }

  lemma DigitCharValue(d: nat)
    requires d < 10
    ensures DigitChar(d) as int - '0' as int == d
  {
  }

  lemma {:induction false} DigitsValue(n: nat)
    ensures DecimalValue(Digits(n)) == n
  {
    if n < 10 {
      DigitCharValue(n);
      assert Digits(n)[..0] == [];
    } else {
      var d := Digits(n);
      assert d[..|d| - 1] == Digits(n / 10);
      DigitsValue(n / 10);
      DigitCharValue(n % 10);
    }
  }

  /** Leading zeros do not change the value of a digit string. */
  lemma {:induction false} ZerosValue(k: nat, d: string)
    requires AllDigits(d)
    ensures AllDigits(Zeros(k) + d)
    ensures DecimalValue(Zeros(k) + d) == DecimalValue(d)
    decreases |d|, k
  {
    var s := Zeros(k) + d;
    assert AllDigits(s) by {
      forall i | 0 <= i < |s| ensures IsDigit(s[i]) {
        if i < k { assert s[i] == Zeros(k)[i]; } else { assert s[i] == d[i - k]; }
      }
    }
    if d == [] {
      assert s == Zeros(k);
      if k > 0 {
        assert s[..|s| - 1] == Zeros(k - 1) + [];
        ZerosValue(k - 1, []);
      }
    } else {
      var init := d[..|d| - 1];
      assert s[..|s| - 1] == Zeros(k) + init;
      ZerosValue(k, init);
    }
  }

  /** Round trip: the padded decimal form reads back as the number. */
  lemma FormatIntValue(n: nat, width: nat)
    ensures AllDigits(FormatInt(n, width))
    ensures DecimalValue(FormatInt(n, width)) == n
  {
    var d := Digits(n);
    DigitsValue(n);
    if |d| < width {
      ZerosValue(width - |d|, d);
      assert FormatInt(n, width) == Zeros(width - |d|) + d;
    } else {
      assert FormatInt(n, width) == d;
    }
  }

  /** A number below `10^width` needs at most `width` digits (for a positive width). */
  lemma {:induction false} DigitsLength(n: nat, width: nat)
    requires 1 <= width && n < Pow10(width)
    ensures |Digits(n)| <= width
  {
    if n >= 10 {
      assert n / 10 < Pow10(width - 1);
      DigitsLength(n / 10, width - 1);
    }
  }

  /** Below `10^width` the formatted number is exactly `width` characters wide. */
  lemma FormatIntWidth(n: nat, width: nat)
    requires 1 <= width && n < Pow10(width)
    ensures |FormatInt(n, width)| == width
  {
    DigitsLength(n, width);
  }

  /**
   * The first eight characters of a key are the zero-padded line index and
   * the ninth is '_', so the index can be read back from the key.
   */
  lemma KeyPrefix(lineId: nat, a: string, b: string)
    requires lineId < Pow10(KEY_WIDTH)
    ensures |Key(lineId, a, b)| > KEY_WIDTH
    ensures Key(lineId, a, b)[..KEY_WIDTH] == FormatInt(lineId, KEY_WIDTH)
    ensures Key(lineId, a, b)[KEY_WIDTH] == '_'
    ensures AllDigits(Key(lineId, a, b)[..KEY_WIDTH])
    ensures DecimalValue(Key(lineId, a, b)[..KEY_WIDTH]) == lineId
  {
    FormatIntWidth(lineId, KEY_WIDTH);
    FormatIntValue(lineId, KEY_WIDTH);
    var f := FormatInt(lineId, KEY_WIDTH);
    assert Key(lineId, a, b) == f + ("_" + a + "_" + b);
  }

  /** Length of the run of decimal digits `s` starts with. */
  function DigitRun(s: string): (n: nat)
    ensures n <= |s|
    ensures forall k :: 0 <= k < n ==> IsDigit(s[k])
    ensures n < |s| ==> !IsDigit(s[n])
  {
    if s == [] || !IsDigit(s[0]) then 0 else 1 + DigitRun(s[1..])
  }

  /** The digit run of a digit string followed by a non-digit is that digit string. */
  lemma {:induction false} DigitRunPrefix(f: string, r: string)
    requires AllDigits(f) && r != [] && !IsDigit(r[0])
    ensures DigitRun(f + r) == |f|
  {
    if f != [] {
      assert (f + r)[1..] == f[1..] + r;
      DigitRunPrefix(f[1..], r);
    }
  }

  /**
   * Keys of different entries differ, whatever their sources: the digit
   * block of a key ends at its first '_', so the index reads back from any
   * key, however many digits it has.
   */
  lemma KeysUnique(i: nat, a: string, b: string, j: nat, a': string, b': string)
    requires Key(i, a, b) == Key(j, a', b')
    ensures i == j
  {
    var f, g := FormatInt(i, KEY_WIDTH), FormatInt(j, KEY_WIDTH);
    var k := Key(i, a, b);
    FormatIntValue(i, KEY_WIDTH);
    FormatIntValue(j, KEY_WIDTH);
    assert k == f + ("_" + a + "_" + b);
    assert k == g + ("_" + a' + "_" + b');
    DigitRunPrefix(f, "_" + a + "_" + b);
    DigitRunPrefix(g, "_" + a' + "_" + b');
    assert f == k[..|f|] == g;
  }

  /** Strict lexicographic order on strings, as the stores order their keys; a proper prefix comes first. */
  predicate LexLess(s: string, t: string)
  {
    t != [] && (s == [] || s[0] < t[0] || (s[0] == t[0] && LexLess(s[1..], t[1..])))
  }

  /** Extending two strings of equal length keeps their order. */
  lemma {:induction false} LexLessExtend(s: string, t: string, x: string, y: string)
    requires |s| == |t| && LexLess(s, t)
    ensures LexLess(s + x, t + y)
  {
    if s[0] == t[0] && !(s[0] < t[0]) {
      assert (s + x)[1..] == s[1..] + x;
      assert (t + y)[1..] == t[1..] + y;
      LexLessExtend(s[1..], t[1..], x, y);
    }
  }

  /** Strings sharing a prefix are ordered by the first character after it. */
  lemma {:induction false} LexLessLast(p: string, x: char, y: char)
    requires x < y
    ensures LexLess(p + [x], p + [y])
  {
    if p != [] {
      assert (p + [x])[1..] == p[1..] + [x];
      assert (p + [y])[1..] == p[1..] + [y];
      LexLessLast(p[1..], x, y);
    }
  }

  lemma {:induction false} DecimalValueInjective(s: string, t: string)
    requires |s| == |t| && AllDigits(s) && AllDigits(t)
    requires DecimalValue(s) == DecimalValue(t)
    ensures s == t
  {
    if s != [] {
      var n := |s| - 1;
      DecimalValueInjective(s[..n], t[..n]);
      assert s == s[..n] + [s[n]] && t == t[..n] + [t[n]];
    }
  }

  /** Digit strings of one length sort lexicographically as their values sort numerically. */
  lemma {:induction false} DecimalOrder(s: string, t: string)
    requires |s| == |t| && AllDigits(s) && AllDigits(t)
    requires DecimalValue(s) < DecimalValue(t)
    ensures LexLess(s, t)
  {
    var n := |s| - 1;
    var s', t' := s[..n], t[..n];
    assert s == s' + [s[n]] && t == t' + [t[n]];
    if DecimalValue(s') < DecimalValue(t') {
      DecimalOrder(s', t');
      LexLessExtend(s', t', [s[n]], [t[n]]);
    } else if DecimalValue(s') == DecimalValue(t') {
      DecimalValueInjective(s', t');
      LexLessLast(s', s[n], t[n]);
    } else {
      assert false;
    }
  }

  /**
   * Keys sort in entry order: with fewer than 10^8 entries, the key of an
   * earlier entry is lexicographically smaller than that of a later one.
   */
  lemma KeysOrdered(i: nat, a: string, b: string, j: nat, a': string, b': string)
    requires i < j < Pow10(KEY_WIDTH)
    ensures LexLess(Key(i, a, b), Key(j, a', b'))
  {
    FormatIntWidth(i, KEY_WIDTH);
    FormatIntWidth(j, KEY_WIDTH);
    FormatIntValue(i, KEY_WIDTH);
    FormatIntValue(j, KEY_WIDTH);
    DecimalOrder(FormatInt(i, KEY_WIDTH), FormatInt(j, KEY_WIDTH));
    LexLessExtend(FormatInt(i, KEY_WIDTH), FormatInt(j, KEY_WIDTH), "_" + a + "_" + b, "_" + a' + "_" + b');
    assert Key(i, a, b) == FormatInt(i, KEY_WIDTH) + ("_" + a + "_" + b);
    assert Key(j, a', b') == FormatInt(j, KEY_WIDTH) + ("_" + a' + "_" + b');
  }
}
