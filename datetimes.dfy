/**
 * Date-time values as the PERIOD code sees them: six calendar fields, the
 * `Y-m-d\TH:i:s` rendering used for the JSON form, and the compact form of
 * section 3.3.5 of RFC 5545 (`YYYYMMDDThhmmss`) that remains once that
 * rendering loses its `-` and `:` characters.
 */
module DateTimes {
  import opened Strings

  datatype DateTime = DateTime(year: nat, month: nat, day: nat, hour: nat, minute: nat, second: nat) {
    /** The ranges a calendar date-time keeps its fields in. */
    predicate Valid() {
      year <= 9999 && 1 <= month <= 12 && 1 <= day <= 31 &&
      hour <= 23 && minute <= 59 && second <= 59
    }
  }

  predicate IsDigit(c: char) {
    '0' <= c <= '9'
  }

  predicate AllDigits(s: string) {
    forall i :: 0 <= i < |s| ==> IsDigit(s[i])
  }

  function DigitChar(n: nat): (c: char)
    requires n < 10
    ensures IsDigit(c) && c as int - '0' as int == n
  {
    ('0' as int + n) as char
  }

  /** The decimal digits of `n`, most significant first, without leading zeros. */
  function Digits(n: nat): (s: string)
    ensures |s| > 0 && AllDigits(s)
    decreases n
  {
    if n < 10 then [DigitChar(n)] else Digits(n / 10) + [DigitChar(n % 10)]
  }

  /** The number a string of decimal digits denotes. */
  function Value(s: string): nat
    requires AllDigits(s)
  {
    if s == [] then 0 else 10 * Value(s[..|s| - 1]) + (s[|s| - 1] as int - '0' as int)
  }

  function Pow10(k: nat): nat {
    if k == 0 then 1 else 10 * Pow10(k - 1)
  }

  /** Reading the digits back gives the number. */
  lemma {:induction false} DigitsValue(n: nat)
    ensures Value(Digits(n)) == n
    decreases n
  {
    if n >= 10 {
      DigitsValue(n / 10);
      var s := Digits(n);
      assert s[..|s| - 1] == Digits(n / 10);
    }
  }

  /** A number below `10^w` has at most `w` digits. */
  lemma {:induction false} DigitsLength(n: nat, w: nat)
    requires w > 0 && n < Pow10(w)
    ensures |Digits(n)| <= w
    decreases n
  {
    if n >= 10 {
      assert w > 1 && Pow10(w) == 10 * Pow10(w - 1);
      DigitsLength(n / 10, w - 1);
    }
  }

  function Zeros(k: nat): (s: string)
    ensures |s| == k && AllDigits(s)
  {
    seq(k, _ => '0')
  }

  /** Leading zeros do not change the value of a digit string. */
  lemma {:induction false} ValueLeadingZeros(k: nat, ds: string)
    requires AllDigits(ds)
    ensures Value(Zeros(k) + ds) == Value(ds)
    decreases |ds|, k
  {
    var s := Zeros(k) + ds;
    if ds == [] {
      if k > 0 {
        assert s[..|s| - 1] == Zeros(k - 1) + [];
        ValueLeadingZeros(k - 1, []);
      }
    } else {
      assert s[..|s| - 1] == Zeros(k) + ds[..|ds| - 1];
      ValueLeadingZeros(k, ds[..|ds| - 1]);
    }
  }

  /** `n` in decimal, left-padded with zeros to at least `width` digits. */
  function ZeroPad(n: nat, width: nat): (s: string)
    ensures |s| >= width && AllDigits(s)
  {
    var ds := Digits(n);
    if |ds| >= width then ds else Zeros(width - |ds|) + ds
  }

  /** The padded rendering denotes the number, and has exactly `w` digits when `n < 10^w`. */
  lemma ZeroPadValue(n: nat, w: nat)
    ensures Value(ZeroPad(n, w)) == n
    ensures w > 0 && n < Pow10(w) ==> |ZeroPad(n, w)| == w
  {
    var ds := Digits(n);
    DigitsValue(n);
    if |ds| < w {
      ValueLeadingZeros(w - |ds|, ds);
    }
    if w > 0 && n < Pow10(w) {
      DigitsLength(n, w);
    }
  }

  /** PHP's `format('Y-m-d\TH:i:s')`. */
  function Format(dt: DateTime): string {
    ZeroPad(dt.year, 4) + "-" + ZeroPad(dt.month, 2) + "-" + ZeroPad(dt.day, 2) + "T" +
    ZeroPad(dt.hour, 2) + ":" + ZeroPad(dt.minute, 2) + ":" + ZeroPad(dt.second, 2)
  }

  /** The basic form `YYYYMMDDThhmmss` of a date-time. */
  function Compact(dt: DateTime): (s: string)
    ensures forall i :: 0 <= i < |s| ==> IsDigit(s[i]) || s[i] == 'T'
  {
    ZeroPad(dt.year, 4) + ZeroPad(dt.month, 2) + ZeroPad(dt.day, 2) + "T" +
    ZeroPad(dt.hour, 2) + ZeroPad(dt.minute, 2) + ZeroPad(dt.second, 2)
  }

  /** The compact form has no `/`, `:` or `-`. */
  lemma CompactPlain(dt: DateTime)
    ensures '/' !in Compact(dt)
    ensures NoSeparators(Compact(dt))
  {
  }

  /** Deleting `-` and `:` from six digit fields laid out as `Y-m-d\TH:i:s` leaves them in order. */
  lemma StripLayout(y: string, mo: string, d: string, h: string, mi: string, s: string)
    requires AllDigits(y) && AllDigits(mo) && AllDigits(d)
    requires AllDigits(h) && AllDigits(mi) && AllDigits(s)
    ensures StripSeparators(y + "-" + mo + "-" + d + "T" + h + ":" + mi + ":" + s) ==
            y + mo + d + "T" + h + mi + s
  {
    StripUnchanged(y); StripUnchanged(mo); StripUnchanged(d);
    StripUnchanged(h); StripUnchanged(mi); StripUnchanged(s);
    assert StripSeparators("-") == [] && StripSeparators(":") == [] && StripSeparators("T") == "T";
    var l1 := y + "-";
    StripConcat(y, "-");
    assert StripSeparators(l1) == y;
    var l2 := l1 + mo;
    StripConcat(l1, mo);
    var l3 := l2 + "-";
    StripConcat(l2, "-");
    assert StripSeparators(l3) == y + mo;
    var l4 := l3 + d;
    StripConcat(l3, d);
    var l5 := l4 + "T";
    StripConcat(l4, "T");
    assert StripSeparators(l5) == y + mo + d + "T";
    var l6 := l5 + h;
    StripConcat(l5, h);
    var l7 := l6 + ":";
    StripConcat(l6, ":");
    assert StripSeparators(l7) == y + mo + d + "T" + h;
    var l8 := l7 + mi;
    StripConcat(l7, mi);
    var l9 := l8 + ":";
    StripConcat(l8, ":");
    assert StripSeparators(l9) == y + mo + d + "T" + h + mi;
    StripConcat(l9, s);
  }

  /** Deleting `-` and `:` from the `Y-m-d\TH:i:s` rendering gives the compact form. */
  lemma StripFormat(dt: DateTime)
    ensures StripSeparators(Format(dt)) == Compact(dt)
  {
    StripLayout(ZeroPad(dt.year, 4), ZeroPad(dt.month, 2), ZeroPad(dt.day, 2),
                ZeroPad(dt.hour, 2), ZeroPad(dt.minute, 2), ZeroPad(dt.second, 2));
  }

  /** Where each field and each punctuation mark sits in the `Y-m-d\TH:i:s` layout. */
  lemma LayoutPositions(y: string, mo: string, d: string, h: string, mi: string, s: string)
    requires |y| == 4 && |mo| == 2 && |d| == 2 && |h| == 2 && |mi| == 2 && |s| == 2
    ensures var r := y + "-" + mo + "-" + d + "T" + h + ":" + mi + ":" + s;
      && |r| == 19
      && r[4] == '-' && r[7] == '-' && r[10] == 'T' && r[13] == ':' && r[16] == ':'
      && r[0..4] == y && r[5..7] == mo && r[8..10] == d
      && r[11..13] == h && r[14..16] == mi && r[17..19] == s
  {
    var l4 := y + "-" + mo + "-" + d;
    var l9 := l4 + "T" + h + ":" + mi + ":";
    var r := l9 + s;
    assert l4[0..4] == y && l4[5..7] == mo && l4[8..10] == d;
    assert l9[..10] == l4;
    assert l9[11..13] == h && l9[14..16] == mi;
    assert r[..17] == l9;
  }

  /**
   * For a valid date-time the rendering is 19 characters with the punctuation at
   * fixed places, and each field reads back from its place.
   */
  lemma FormatFields(dt: DateTime)
    requires dt.Valid()
    ensures var s := Format(dt);
      && |s| == 19
      && s[4] == '-' && s[7] == '-' && s[10] == 'T' && s[13] == ':' && s[16] == ':'
      && AllDigits(s[0..4]) && Value(s[0..4]) == dt.year
      && AllDigits(s[5..7]) && Value(s[5..7]) == dt.month
      && AllDigits(s[8..10]) && Value(s[8..10]) == dt.day
      && AllDigits(s[11..13]) && Value(s[11..13]) == dt.hour
      && AllDigits(s[14..16]) && Value(s[14..16]) == dt.minute
      && AllDigits(s[17..19]) && Value(s[17..19]) == dt.second
  {
    assert Pow10(2) == 100 && Pow10(4) == 10000 by {
      assert Pow10(1) == 10;
      assert Pow10(3) == 1000;
    }
    ZeroPadValue(dt.year, 4);
    ZeroPadValue(dt.month, 2);
    ZeroPadValue(dt.day, 2);
    ZeroPadValue(dt.hour, 2);
    ZeroPadValue(dt.minute, 2);
    ZeroPadValue(dt.second, 2);
    LayoutPositions(ZeroPad(dt.year, 4), ZeroPad(dt.month, 2), ZeroPad(dt.day, 2),
                    ZeroPad(dt.hour, 2), ZeroPad(dt.minute, 2), ZeroPad(dt.second, 2));
  }
}
