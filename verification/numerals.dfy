/** Decimal numerals: the integer fields of a weather record (Python's
    `int(text)`, restricted to an optional minus sign followed by ASCII
    digits) and the zero-padded fixed-width fields of a `YYYY-MM-DD` date. */
module Numerals {
  import opened Wrappers

  predicate IsDigit(c: char) {
    '0' <= c <= '9'
  }

  predicate AllDigits(s: string) {
    forall k :: 0 <= k < |s| ==> IsDigit(s[k])
  }

  function DigitChar(d: nat): (c: char)
    requires d < 10
    ensures IsDigit(c) && c as int - '0' as int == d
  {
    ('0' as int + d) as char
  }

  function Pow10(w: nat): (p: nat)
    ensures p >= 1
  {
    if w == 0 then 1 else 10 * Pow10(w - 1)
  }

  /** Base-10 value of a digit string, most significant digit first. */
  function DigitsValue(ds: string): nat
    requires AllDigits(ds)
  {
    if |ds| == 0 then 0
    else DigitsValue(ds[..|ds| - 1]) * 10 + (ds[|ds| - 1] as int - '0' as int)
  }

  /** The shortest decimal spelling of `n`: its digits denote `n`, and it has
      no leading zero unless it is the single digit "0". */
  function FormatNat(n: nat): (ds: string)
    ensures |ds| >= 1 && AllDigits(ds)
    ensures DigitsValue(ds) == n
    ensures |ds| > 1 ==> ds[0] != '0'
  {
    if n < 10 then [DigitChar(n)]
    else
      var ds := FormatNat(n / 10) + [DigitChar(n % 10)];
      assert ds[..|ds| - 1] == FormatNat(n / 10);
      ds
  }

  function Zeros(k: nat): (z: string)
    ensures |z| == k && AllDigits(z)
  {
    seq(k, _ => '0')
  }

  /** Left-pads a digit string with zeros up to width `w`. */
  function PadTo(ds: string, w: nat): (r: string)
    requires AllDigits(ds)
    ensures AllDigits(r)
    ensures |r| == if |ds| >= w then |ds| else w
  {
    if |ds| >= w then ds else Zeros(w - |ds|) + ds
  }

  lemma {:induction false} ZerosValue(k: nat)
    ensures DigitsValue(Zeros(k)) == 0
  {
    if k > 0 {
      assert Zeros(k)[..k - 1] == Zeros(k - 1);
      ZerosValue(k - 1);
    }
  }

  /** Leading zeros do not change the value of a digit string. */
  lemma {:induction false} LeadingZerosValue(k: nat, ds: string)
    requires AllDigits(ds)
    ensures DigitsValue(Zeros(k) + ds) == DigitsValue(ds)
  {
    if |ds| == 0 {
      assert Zeros(k) + ds == Zeros(k);
      ZerosValue(k);
    } else {
      var pre := ds[..|ds| - 1];
      LeadingZerosValue(k, pre);
      assert (Zeros(k) + ds)[..|Zeros(k) + ds| - 1] == Zeros(k) + pre;
    }
  }

  /** A number below `10^w` needs at most `w` digits. */
  lemma {:induction false} FormatNatWidth(n: nat, w: nat)
    requires 1 <= w && n < Pow10(w)
    ensures |FormatNat(n)| <= w
  {
    if n >= 10 {
      assert w >= 2;
      assert n / 10 < Pow10(w - 1);
      FormatNatWidth(n / 10, w - 1);
    }
  }

  /** Zero-padding a spelled-out number keeps its value. */
  lemma PaddedValue(n: nat, w: nat)
    ensures DigitsValue(PadTo(FormatNat(n), w)) == n
  {
    var ds := FormatNat(n);
    if |ds| < w {
      LeadingZerosValue(w - |ds|, ds);
    }
  }

  /** A fixed-width digit string is the zero-padded spelling of its own value:
      reading a field and writing it back at the same width loses nothing. */
  lemma {:induction false} PaddedDigitsValue(ds: string)
    requires |ds| >= 1 && AllDigits(ds)
    ensures PadTo(FormatNat(DigitsValue(ds)), |ds|) == ds
  {
    var pre := ds[..|ds| - 1];
    var c := ds[|ds| - 1];
    assert ds == pre + [c];
    var d := c as int - '0' as int;
    var v' := DigitsValue(pre);
    assert DigitsValue(ds) == v' * 10 + d;
    if v' == 0 {
      assert FormatNat(d) == [c];
      if |pre| > 0 {
        PaddedDigitsValue(pre);
        assert pre == Zeros(|pre|);
      }
      assert Zeros(|ds| - 1) == pre;
    } else {
      PaddedDigitsValue(pre);
      var f := FormatNat(v');
      assert |f| <= |pre|;
      assert (v' * 10 + d) / 10 == v' && (v' * 10 + d) % 10 == d;
      assert FormatNat(v' * 10 + d) == f + [c];
      assert Zeros(|ds| - |f| - 1) + f + [c] == PadTo(f, |pre|) + [c];
    }
  }

  /** The integer grammar accepted for temperature and humidity fields:
      an optional minus sign followed by one or more ASCII digits. */
  predicate IsIntLiteral(s: string) {
    || (|s| >= 1 && AllDigits(s))
    || (|s| >= 2 && s[0] == '-' && AllDigits(s[1..]))
  }

  /** Python's `int(text)` on the integer grammar: succeeds exactly on
      integer literals, with the sign of the literal. */
  function ParseInt(s: string): (r: Option<int>)
    ensures r.Some? <==> IsIntLiteral(s)
    ensures r.Some? && r.value < 0 ==> s[0] == '-'
  {
    if |s| >= 2 && s[0] == '-' && AllDigits(s[1..]) then Some(-(DigitsValue(s[1..]) as int))
    else if |s| >= 1 && AllDigits(s) then Some(DigitsValue(s))
    else None
  }

  /** Python's `str(n)` for an integer. */
  function FormatInt(n: int): (s: string)
    ensures IsIntLiteral(s)
  {
    if n < 0 then "-" + FormatNat(-n) else FormatNat(n)
  }

  /** Every integer survives being written out and read back. */
  lemma ParseFormatInt(n: int)
    ensures ParseInt(FormatInt(n)) == Some(n)
  {
    var s := FormatInt(n);
    if n < 0 {
      assert s[1..] == FormatNat(-n);
    } else {
      assert s[0] != '-';
    }
  }

  /** The spellings `int` reads as `n`: its shortest spelling after any number
      of leading zeros, with a minus sign in front when `n` is negative (a
      minus sign is also allowed in front of zero). */
  ghost predicate IntSpelling(s: string, n: int) {
    || (n >= 0 && exists k: nat :: s == Zeros(k) + FormatNat(n))
    || (n <= 0 && exists k: nat :: s == "-" + Zeros(k) + FormatNat(-n))
  }

  /** A non-empty digit string is zeros followed by the shortest spelling of its value. */
  lemma DigitsSpelling(ds: string)
    requires |ds| >= 1 && AllDigits(ds)
    ensures |FormatNat(DigitsValue(ds))| <= |ds|
    ensures ds == Zeros(|ds| - |FormatNat(DigitsValue(ds))|) + FormatNat(DigitsValue(ds))
  {
    var f := FormatNat(DigitsValue(ds));
    PaddedDigitsValue(ds);
    if |f| >= |ds| {
      assert Zeros(0) + f == f;
    }
  }

  lemma ZerosDigits(k: nat, ds: string)
    requires AllDigits(ds)
    ensures AllDigits(Zeros(k) + ds)
  {
    var z := Zeros(k);
    forall i | 0 <= i < |z + ds|
      ensures IsDigit((z + ds)[i])
    {
      if i < k {
        assert (z + ds)[i] == z[i];
      } else {
        assert (z + ds)[i] == ds[i - k];
      }
    }
  }

  /** `int(text)` reads `n` exactly from the spellings of `n`: leading zeros
      are ignored, and nothing else reads as `n`. */
  lemma ParseIntSpelling(s: string, n: int)
    ensures ParseInt(s) == Some(n) <==> IntSpelling(s, n)
  {
    if ParseInt(s) == Some(n) {
      ParsedIsSpelling(s, n);
    }
    if IntSpelling(s, n) {
      if n >= 0 && exists k: nat :: s == Zeros(k) + FormatNat(n) {
        var k: nat :| s == Zeros(k) + FormatNat(n);
        PaddedNatParses(k, n);
      } else {
        var k: nat :| s == "-" + Zeros(k) + FormatNat(-n);
        PaddedNegativeParses(k, -n);
      }
    }
  }

  lemma ParsedIsSpelling(s: string, n: int)
    requires ParseInt(s) == Some(n)
    ensures IntSpelling(s, n)
  {
    if |s| >= 2 && s[0] == '-' && AllDigits(s[1..]) {
      var ds := s[1..];
      assert n == -(DigitsValue(ds) as int);
      DigitsSpelling(ds);
      var k: nat := |ds| - |FormatNat(-n)|;
      assert ds == Zeros(k) + FormatNat(-n);
      assert s == "-" + ds;
    } else {
      assert n == DigitsValue(s);
      DigitsSpelling(s);
      var k: nat := |s| - |FormatNat(n)|;
      assert s == Zeros(k) + FormatNat(n);
    }
  }

  lemma PaddedNatParses(k: nat, n: nat)
    ensures ParseInt(Zeros(k) + FormatNat(n)) == Some(n)
  {
    var s := Zeros(k) + FormatNat(n);
    ZerosDigits(k, FormatNat(n));
    LeadingZerosValue(k, FormatNat(n));
    assert IsDigit(s[0]);
  }

  lemma PaddedNegativeParses(k: nat, m: nat)
    ensures ParseInt("-" + Zeros(k) + FormatNat(m)) == Some(-(m as int))
  {
    var ds := Zeros(k) + FormatNat(m);
    var s := "-" + Zeros(k) + FormatNat(m);
    assert s == "-" + ds && s[1..] == ds;
    ZerosDigits(k, FormatNat(m));
    LeadingZerosValue(k, FormatNat(m));
  }
}
