/** Decimal rendering of non-negative integers as Python's `str(n)` and
    `f'{n:0Wd}'` produce them, and the snapshot file name built from the
    processed-frame counter. */
module Decimal {

  import opened Seqs

  datatype Option<T> = None | Some(value: T)

  predicate IsDigit(c: char)
  {
    '0' <= c <= '9'
  }

  predicate AllDigits(s: string)
  {
    forall i :: 0 <= i < |s| ==> IsDigit(s[i])
  }

  function DigitChar(d: nat): (c: char)
    requires d < 10
    ensures IsDigit(c)
  {
    "0123456789"[d]
  }

  function DigitValue(c: char): (d: nat)
    requires IsDigit(c)
    ensures d < 10
  {
    c as int - '0' as int
  }

  lemma DigitRoundTrip(d: nat)
    requires d < 10
    ensures DigitValue(DigitChar(d)) == d
  {
  }

  /** The number a string of decimal digits denotes; leading zeros add
      nothing. */
  function ValueOf(s: string): nat
    requires AllDigits(s)
  {
    if |s| == 0 then 0 else ValueOf(s[..|s| - 1]) * 10 + DigitValue(s[|s| - 1])
  }

  /** `str(n)` for `n >= 0`: the shortest decimal digit string of `n`, so
      it starts with `0` only when it is `"0"`. */
  function Digits(n: nat): (s: string)
    ensures |s| >= 1 && AllDigits(s)
    ensures s[0] == '0' ==> s == "0"
    decreases n
  {
    if n < 10 then [DigitChar(n)] else Digits(n / 10) + [DigitChar(n % 10)]
  }

  lemma {:induction false} DigitsRoundTrip(n: nat)
    ensures ValueOf(Digits(n)) == n
    decreases n
  {
    var s := Digits(n);
    if n < 10 {
      DigitRoundTrip(n);
    } else {
      DigitsRoundTrip(n / 10);
      DigitRoundTrip(n % 10);
      assert s[..|s| - 1] == Digits(n / 10);
    }
  }

  /** `k` zero characters. */
  function Zeros(k: nat): (z: string)
    ensures |z| == k && AllDigits(z)
    ensures forall i :: 0 <= i < k ==> z[i] == '0'
  {
    seq(k, i => '0')
  }

  lemma {:induction false} ZerosValue(k: nat)
    ensures ValueOf(Zeros(k)) == 0
  {
    if k > 0 {
      ZerosValue(k - 1);
      assert Zeros(k)[..k - 1] == Zeros(k - 1);
    }
  }

  /** Leading zeros do not change the value of a digit string. */
  lemma {:induction false} LeadingZerosValue(k: nat, s: string)
    requires AllDigits(s)
    ensures AllDigits(Zeros(k) + s)
    ensures ValueOf(Zeros(k) + s) == ValueOf(s)
  {
    if |s| == 0 {
      assert Zeros(k) + s == Zeros(k);
      ZerosValue(k);
    } else {
      var n := |s| - 1;
      LeadingZerosValue(k, s[..n]);
      assert (Zeros(k) + s)[..k + n] == Zeros(k) + s[..n];
    }
  }

  /** `s` left-padded with zeros to at least `width` characters. */
  function ZeroPad(s: string, width: nat): (r: string)
    ensures |r| == if |s| >= width then |s| else width
    ensures r == Zeros(|r| - |s|) + s
  {
    if |s| >= width then
      assert Zeros(0) + s == s;
      s
    else Zeros(width - |s|) + s
  }

  /** `f'{n:0{width}d}'` for `n >= 0`: at least `width` digits, and the
      digits still spell `n`. */
  function Padded(n: nat, width: nat): (r: string)
    ensures AllDigits(r)
    ensures |r| == if |Digits(n)| >= width then |Digits(n)| else width
    ensures ValueOf(r) == n
  {
    var d := Digits(n);
    var r := ZeroPad(d, width);
    assert AllDigits(r) && ValueOf(r) == n by {
      DigitsRoundTrip(n);
      LeadingZerosValue(|r| - |d|, d);
    }
    r
  }

  /** Two digit strings of one length that spell one number are the same
      string, so a field width and a value fix a padded field. */
  lemma {:induction false} DigitStringUnique(a: string, b: string)
    requires AllDigits(a) && AllDigits(b)
    requires |a| == |b| && ValueOf(a) == ValueOf(b)
    ensures a == b
  {
    if |a| > 0 {
      var n := |a| - 1;
      var pa, pb := ValueOf(a[..n]), ValueOf(b[..n]);
      var da, db := DigitValue(a[n]), DigitValue(b[n]);
      assert pa * 10 + da == pb * 10 + db;
      assert da == db && pa == pb by {
        LastDigit(pa, da);
        LastDigit(pb, db);
      }
      DigitStringUnique(a[..n], b[..n]);
      assert a == a[..n] + [a[n]] && b == b[..n] + [b[n]];
    }
  }

  lemma LastDigit(p: nat, d: nat)
    requires d < 10
    ensures (p * 10 + d) % 10 == d && (p * 10 + d) / 10 == p
  {
  }

  /** Numbers below `10^width` fill the padded field exactly. */
  lemma {:induction false} PaddedWidth(n: nat, width: nat)
    requires width >= 1 && n < Pow10(width)
    ensures |Padded(n, width)| == width
  {
    DigitsLength(n, width);
  }

  function Pow10(k: nat): (p: nat)
    ensures p >= 1
  {
    if k == 0 then 1 else 10 * Pow10(k - 1)
  }

  lemma {:induction false} DigitsLength(n: nat, k: nat)
    requires n < Pow10(k)
    ensures |Digits(n)| <= if k == 0 then 1 else k
    decreases n
  {
    if n >= 10 {
      assert k >= 2 by {
        assert Pow10(0) == 1 && Pow10(1) == 10;
      }
      DigitsLength(n / 10, k - 1);
    }
  }

  const SnapshotPrefix: string := "/tmp/cam_output_"
  const SnapshotSuffix: string := ".jpg"
  /** Minimum number of digits of a snapshot's sequence number. */
  const SnapshotDigits: nat := 4

  /** Path of the `n`-th snapshot (`f'/tmp/cam_output_{n:04d}.jpg'`). */
  function SnapshotName(n: nat): (name: string)
    ensures |name| >= |SnapshotPrefix| + SnapshotDigits + |SnapshotSuffix|
    ensures name[..|SnapshotPrefix|] == SnapshotPrefix
    ensures name[|name| - |SnapshotSuffix|..] == SnapshotSuffix
    ensures var field := name[|SnapshotPrefix|..|name| - |SnapshotSuffix|];
            && AllDigits(field) && ValueOf(field) == n
            && |field| == if |Digits(n)| >= SnapshotDigits then |Digits(n)| else SnapshotDigits
  {
    var field := Padded(n, SnapshotDigits);
    var name := SnapshotPrefix + field + SnapshotSuffix;
    assert name[|SnapshotPrefix|..|name| - |SnapshotSuffix|] == field;
    name
  }

  /** `name` is the prefix, then a digit field spelling `n` that is four
      characters wide or, from 10000 on, exactly as wide as `str(n)`, then
      the suffix. */
  predicate SnapshotShape(n: nat, name: string)
  {
    && |name| >= |SnapshotPrefix| + |SnapshotSuffix|
    && name[..|SnapshotPrefix|] == SnapshotPrefix
    && name[|name| - |SnapshotSuffix|..] == SnapshotSuffix
    && var field := name[|SnapshotPrefix|..|name| - |SnapshotSuffix|];
       && AllDigits(field) && ValueOf(field) == n
       && |field| == if |Digits(n)| >= SnapshotDigits then |Digits(n)| else SnapshotDigits
  }

  /** A path is the one written for counter `n` exactly when it has the
      shape above: the field holds no extra leading zeros. */
  lemma SnapshotNameExact(n: nat, name: string)
    ensures name == SnapshotName(n) <==> SnapshotShape(n, name)
  {
    if SnapshotShape(n, name) {
      ShapeIsName(n, name);
    }
  }

  lemma ShapeIsName(n: nat, name: string)
    requires SnapshotShape(n, name)
    ensures name == SnapshotName(n)
  {
    var lo, hi := |SnapshotPrefix|, |name| - |SnapshotSuffix|;
    var field, padded := name[lo..hi], Padded(n, SnapshotDigits);
    assert field == padded by {
      DigitStringUnique(field, padded);
    }
    assert name == SnapshotPrefix + field + SnapshotSuffix by {
      Rejoin(name, lo, hi);
    }
  }

  /** Reads the sequence number back out of a snapshot path; `None` for
      anything that is not one. */
  function ParseSnapshotName(name: string): (r: Option<nat>)
  {
    var lo, hi := |SnapshotPrefix|, |name| - |SnapshotSuffix|;
    if |name| >= lo + SnapshotDigits + |SnapshotSuffix|
       && name[..lo] == SnapshotPrefix
       && name[hi..] == SnapshotSuffix
       && AllDigits(name[lo..hi])
    then Some(ValueOf(name[lo..hi]))
    else None
  }

  /** Every snapshot path parses back to the counter it was made from. */
  lemma SnapshotNameRoundTrip(n: nat)
    ensures ParseSnapshotName(SnapshotName(n)) == Some(n)
  {
  }

  /** Distinct counters give distinct paths, so no snapshot overwrites
      another. */
  lemma SnapshotNameInjective(m: nat, n: nat)
    ensures SnapshotName(m) == SnapshotName(n) ==> m == n
  {
    SnapshotNameRoundTrip(m);
    SnapshotNameRoundTrip(n);
  }

  /** The first snapshot, written while the counter is still zero. */
  lemma FirstSnapshotName()
    ensures SnapshotName(0) == "/tmp/cam_output_0000.jpg"
  {
    assert Digits(0) == "0";
    assert Padded(0, SnapshotDigits) == "0000";
  }

  /** Counters below 10000 give paths of one fixed length. */
  lemma SnapshotNameLength(n: nat)
    requires n < 10000
    ensures |SnapshotName(n)| == |SnapshotPrefix| + SnapshotDigits + |SnapshotSuffix|
  {
    assert Pow10(4) == 10000;
    PaddedWidth(n, SnapshotDigits);
  }
}
