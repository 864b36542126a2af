/** Decimal digit strings: the fixed-width and free-width integer texts that
    java.time's formatter and Java's integer parsing read and write. */
module Decimal {
  import opened Wrappers

  predicate IsDigit(c: char) { '0' <= c <= '9' }

  predicate AllDigits(s: string) { forall i :: 0 <= i < |s| ==> IsDigit(s[i]) }

  function DigitChar(d: nat): (c: char)
    requires d < 10
    ensures IsDigit(c) && c as int - '0' as int == d
  {
    ('0' as int + d) as char
  }

  function Pow10(k: nat): (p: nat)
    ensures p >= 1
  {
    if k == 0 then 1 else 10 * Pow10(k - 1)
  }

  /** The number a digit string denotes, most significant digit first;
      the empty string denotes 0. */
  function Value(s: string): nat
    requires AllDigits(s)
  {
    if s == [] then 0 else Value(s[..|s| - 1]) * 10 + (s[|s| - 1] as int - '0' as int)
  }

  lemma {:induction false} ValueBound(s: string)
    requires AllDigits(s)
    ensures Value(s) < Pow10(|s|)
  {
    if s != [] {
      ValueBound(s[..|s| - 1]);
    }
  }

  /** n written with exactly w digits, zeros on the left: java.time's
      appendValue(field, w) for a value that fits in w digits. */
  function Padded(n: nat, w: nat): (s: string)
    ensures |s| == w && AllDigits(s)
  {
    if w == 0 then [] else Padded(n / 10, w - 1) + [DigitChar(n % 10)]
  }

  /** Reading a padded text back gives the number that was written. */
  lemma {:induction false} PaddedValue(n: nat, w: nat)
    requires n < Pow10(w)
    ensures Value(Padded(n, w)) == n
  {
    if w > 0 {
      assert n / 10 < Pow10(w - 1);
      PaddedValue(n / 10, w - 1);
      var s := Padded(n, w);
      assert s[..|s| - 1] == Padded(n / 10, w - 1);
    }
  }

  /** The longest prefix of s that does not end in '0'. */
  function TrimZeros(s: string): (r: string)
    ensures r <= s
    ensures r == [] || r[|r| - 1] != '0'
  {
    if s != [] && s[|s| - 1] == '0' then TrimZeros(s[..|s| - 1]) else s
  }

  /** Dropping k trailing zeros divides the value by 10^k exactly. */
  lemma {:induction false} TrimZerosValue(s: string)
    requires AllDigits(s)
    ensures AllDigits(TrimZeros(s))
    ensures Value(TrimZeros(s)) * Pow10(|s| - |TrimZeros(s)|) == Value(s)
  {
    var t := TrimZeros(s);
    assert t == s[..|t|];
    if s != [] && s[|s| - 1] == '0' {
      var p := s[..|s| - 1];
      TrimZerosValue(p);
      assert TrimZeros(p) == t;
      calc {
        Value(t) * Pow10(|s| - |t|);
        Value(t) * (10 * Pow10(|p| - |t|));
        (Value(t) * Pow10(|p| - |t|)) * 10;
        Value(p) * 10;
        Value(s);
      }
    }
  }

  /** Reading a digit string and writing the value back at the same width
      gives the string again. */
  lemma {:induction false} ValuePadded(s: string)
    requires AllDigits(s)
    ensures Padded(Value(s), |s|) == s
  {
    if s != [] {
      var p := s[..|s| - 1];
      ValuePadded(p);
      var v := Value(s);
      assert v / 10 == Value(p) && v % 10 == s[|s| - 1] as int - '0' as int;
      assert s == p + [s[|s| - 1]];
    }
  }

  /** A digit string of k zeros. */
  function Zeros(k: nat): (z: string)
    ensures |z| == k && forall i :: 0 <= i < k ==> z[i] == '0'
  {
    seq(k, _ => '0')
  }

  lemma PaddedTimesTen(x: nat, k: nat)
    ensures Padded(x * 10, k + 1) == Padded(x, k) + ['0']
  {
    assert (x * 10) / 10 == x && (x * 10) % 10 == 0;
  }

  /** Scaling by 10^j and widening by j digits appends j zeros. */
  lemma {:induction false} PaddedShift(v: nat, w: nat, j: nat)
    ensures Padded(v * Pow10(j), w + j) == Padded(v, w) + Zeros(j)
  {
    if j == 0 {
      assert Padded(v, w) + Zeros(0) == Padded(v, w);
    } else {
      var x := v * Pow10(j - 1);
      PaddedShift(v, w, j - 1);
      assert v * Pow10(j) == x * 10 by {
        assert Pow10(j) == 10 * Pow10(j - 1);
      }
      PaddedTimesTen(x, w + j - 1);
      assert Zeros(j) == Zeros(j - 1) + ['0'];
    }
  }

  /** Trimming removes exactly the zeros appended after a digit other than '0'. */
  lemma {:induction false} TrimZerosPadding(ds: string, j: nat)
    requires ds != [] && ds[|ds| - 1] != '0'
    ensures TrimZeros(ds + Zeros(j)) == ds
  {
    if j > 0 {
      TrimZerosPadding(ds, j - 1);
      var s := ds + Zeros(j);
      assert s[..|s| - 1] == ds + Zeros(j - 1);
    } else {
      assert ds + Zeros(0) == ds;
    }
  }

  /** A digit string whose last digit is not '0' denotes a non-zero value. */
  lemma NonZeroValue(s: string)
    requires AllDigits(s) && s != [] && s[|s| - 1] != '0'
    ensures Value(s) != 0
  {
  }

  /** Java's Integer.toString for a non-negative value: no sign, no padding. */
  function NatString(n: nat): (s: string)
    ensures |s| >= 1 && AllDigits(s)
  {
    if n < 10 then [DigitChar(n)] else NatString(n / 10) + [DigitChar(n % 10)]
  }

  lemma {:induction false} NatStringValue(n: nat)
    ensures Value(NatString(n)) == n
  {
    if n >= 10 {
      NatStringValue(n / 10);
      var s := NatString(n);
      assert s[..|s| - 1] == NatString(n / 10);
    }
  }

  /** Java's Integer.toString: a '-' before negative values. */
  function IntString(n: int): (r: string)
    ensures |r| >= 1 && (r[0] == '-') == (n < 0)
    ensures AllDigits(if n < 0 then r[1..] else r)
  {
    if n < 0 then "-" + NatString(-n) else NatString(n)
  }

  /** Java's Integer.parseInt(s, 10) on ASCII digits: an optional '+' or '-'
      followed by at least one digit, nothing else. Unlike Java, a value
      outside the 32-bit int range is still read; the only caller,
      Byte.parseByte, rejects every value outside -128..127 anyway. */
  function ParseInt(s: string): (r: Option<int>)
    ensures r.Some? <==>
              |s| > 0 && (if s[0] == '-' || s[0] == '+' then |s| > 1 && AllDigits(s[1..]) else AllDigits(s))
    ensures r.Some? && s[0] == '-' ==> r.value == -(Value(s[1..]) as int)
    ensures r.Some? && s[0] == '+' ==> r.value == Value(s[1..])
    ensures r.Some? && s[0] != '-' && s[0] != '+' ==> r.value == Value(s)
  {
    if s != [] && (s[0] == '-' || s[0] == '+') then
      var d := s[1..];
      if d != [] && AllDigits(d) then
        var v: int := Value(d);
        Some(if s[0] == '-' then -v else v)
      else None
    else if s != [] && AllDigits(s) then Some(Value(s))
    else None
  }

  /** Integer.parseInt reads back what Integer.toString writes. */
  lemma IntStringRoundTrip(n: int)
    ensures ParseInt(IntString(n)) == Some(n)
  {
    NatStringValue(if n < 0 then -n else n);
    if n < 0 {
      assert IntString(n)[1..] == NatString(-n);
    }
  }
}
