/**
 Rust's `str::parse::<i32>()` (`i32::from_str`, radix 10): an optional `+` or `-`,
 then one or more ASCII digits, whose value must lie in the range of `i32`.
 Leading zeros are accepted; no whitespace, no `_` separators, no other radix prefix.
 */
module Int32 {
  import opened Seqs

  datatype Option<T> = None | Some(value: T)

  const I32Min: int := -0x8000_0000
  const I32Max: int := 0x7FFF_FFFF

  /** The values of Rust's `i32`. */
  type i32 = x: int | I32Min <= x <= I32Max

  predicate IsDigit(c: char) {
    '0' <= c <= '9'
  }

  predicate AllDigits(s: string) {
    forall i :: 0 <= i < |s| ==> IsDigit(s[i])
  }

  function DigitValue(c: char): (d: nat)
    requires IsDigit(c)
    ensures d < 10
  {
    (c as int) - ('0' as int)
  }

  function DigitChar(d: nat): (c: char)
    requires d < 10
    ensures IsDigit(c) && DigitValue(c) == d
  {
    (('0' as int) + d) as char
  }

  /** The value of a run of decimal digits, most significant first (0 for the empty run). */
  function Value(ds: string): nat
    requires AllDigits(ds)
  {
    if ds == [] then 0 else 10 * Value(ds[..|ds| - 1]) + DigitValue(ds[|ds| - 1])
  }

  /**
   The digit loop of `i32::from_str`: multiply the running value by 10 and add
   (or, for a negative number, subtract) the next digit, failing at the first
   non-digit and at the first step that leaves the range of `i32`.
   */
  function Accumulate(acc: i32, ds: string, negative: bool): Option<i32>
    decreases |ds|
  {
    if ds == [] then Some(acc)
    else if !IsDigit(ds[0]) then None
    else
      var next := if negative then 10 * acc - DigitValue(ds[0]) else 10 * acc + DigitValue(ds[0]);
      if I32Min <= next <= I32Max then Accumulate(next, ds[1..], negative) else None
  }

  /**
   `s.parse::<i32>()`, with `None` for every `Err`: an empty string, a lone sign,
   a non-digit, or a value outside `i32`.
   */
  function ParseI32(s: string): Option<i32> {
    if s == [] then None
    else if (s[0] == '+' || s[0] == '-') && |s| == 1 then None
    else if s[0] == '+' then Accumulate(0, s[1..], false)
    else if s[0] == '-' then Accumulate(0, s[1..], true)
    else Accumulate(0, s, false)
  }

  /** The shortest decimal numeral of `n`: no sign and no leading zero. */
  function ShowNat(n: nat): (s: string)
    ensures |s| > 0 && AllDigits(s)
    ensures Value(s) == n
    ensures s[0] == '0' ==> n == 0
  {
    if n < 10 then [DigitChar(n)]
    else
      var high := ShowNat(n / 10);
      var c := DigitChar(n % 10);
      assert (high + [c])[..|high|] == high;
      high + [c]
  }

  /** The decimal form Rust's `Display` gives an integer: `-` for a negative one, then `ShowNat`. */
  function Decimal(n: int): string {
    if n < 0 then "-" + ShowNat(-n) else ShowNat(n)
  }

  /** `k` zero digits. */
  function Zeros(k: nat): (s: string)
    ensures |s| == k && AllDigits(s)
  {
    seq(k, _ => '0')
  }

  /** The magnitude `m`, negated when `negative`. */
  function Signed(negative: bool, m: nat): int {
    if negative then -(m as int) else m
  }

  /** The sign that `ParseI32` strips from `s`, if any. */
  function SignOf(s: string): string {
    if s != [] && (s[0] == '+' || s[0] == '-') then s[..1] else ""
  }

  // ---------------------------------------------------------------------------
  // Lemmas about the parser
  // ---------------------------------------------------------------------------

  lemma {:induction false} ValueOfZeros(k: nat)
    ensures Value(Zeros(k)) == 0
  {
    if k > 0 {
      assert Zeros(k)[..k - 1] == Zeros(k - 1);
      ValueOfZeros(k - 1);
    }
  }

  /** Leading zeros do not change the value of a digit run. */
  lemma {:induction false} ValueLeadingZeros(k: nat, ds: string)
    requires AllDigits(ds)
    ensures AllDigits(Zeros(k) + ds)
    ensures Value(Zeros(k) + ds) == Value(ds)
    decreases |ds|
  {
    var x := Zeros(k) + ds;
    if ds == [] {
      assert x == Zeros(k);
      ValueOfZeros(k);
    } else {
      assert x[..|x| - 1] == Zeros(k) + ds[..|ds| - 1];
      ValueLeadingZeros(k, ds[..|ds| - 1]);
    }
  }

  /** A digit run of value 0 consists of zeros. */
  lemma {:induction false} ZeroValueIsZeros(ds: string)
    requires AllDigits(ds) && Value(ds) == 0
    ensures ds == Zeros(|ds|)
    decreases |ds|
  {
    if ds != [] {
      var p := ds[..|ds| - 1];
      ZeroValueIsZeros(p);
      assert ds == p + [ds[|ds| - 1]];
    }
  }

  /** Appending a digit to the numeral of a positive number. */
  lemma ShowNatAppend(v: nat, d: nat)
    requires v > 0 && d < 10
    ensures ShowNat(10 * v + d) == ShowNat(v) + [DigitChar(d)]
  {
    var n := 10 * v + d;
    assert n / 10 == v && n % 10 == d;
  }

  /** Every non-empty digit run is some zeros followed by the shortest numeral of its value. */
  lemma {:induction false} DigitsCanonical(ds: string)
    requires AllDigits(ds) && ds != []
    ensures |ShowNat(Value(ds))| <= |ds|
    ensures ds == Zeros(|ds| - |ShowNat(Value(ds))|) + ShowNat(Value(ds))
    decreases |ds|
  {
    var p := ds[..|ds| - 1];
    var c := ds[|ds| - 1];
    var d := DigitValue(c);
    assert ds == p + [c];
    AllDigitsAppend(p, [c]);
    assert DigitChar(d) == c;
    if p == [] {
      assert Value(ds) == d;
      assert Zeros(0) + ShowNat(d) == [c];
    } else if Value(p) == 0 {
      ZeroValueIsZeros(p);
      assert Value(ds) == d;
      assert ShowNat(d) == [c];
    } else {
      DigitsCanonical(p);
      ShowNatAppend(Value(p), d);
      var z, high := Zeros(|p| - |ShowNat(Value(p))|), ShowNat(Value(p));
      assert p == z + high;
      AppendAssoc(z, high, [c]);
      assert ShowNat(Value(ds)) == high + [c];
    }
  }

  lemma AllDigitsAppend(a: string, b: string)
    ensures AllDigits(a + b) <==> AllDigits(a) && AllDigits(b)
  {
    if AllDigits(a) && AllDigits(b) {
      forall i | 0 <= i < |a + b| ensures IsDigit((a + b)[i]) {
        if i >= |a| { assert (a + b)[i] == b[i - |a|]; }
      }
    }
    if AllDigits(a + b) {
      forall i | 0 <= i < |a| ensures IsDigit(a[i]) {
        assert a[i] == (a + b)[i];
      }
      forall i | 0 <= i < |b| ensures IsDigit(b[i]) {
        assert b[i] == (a + b)[i + |a|];
      }
    }
  }

  /** A longer digit run has at least the value of its prefix. */
  lemma {:induction false} ValueMonotone(x: string, y: string)
    requires AllDigits(x + y)
    ensures AllDigits(x) && Value(x) <= Value(x + y)
    decreases |y|
  {
    assert forall i :: 0 <= i < |x| ==> x[i] == (x + y)[i];
    if y == [] {
      assert x + y == x;
    } else {
      var xy := x + y;
      assert xy[..|xy| - 1] == x + y[..|y| - 1];
      ValueMonotone(x, y[..|y| - 1]);
    }
  }

  /** Appending one digit: `Value(p + [c]) == 10 * Value(p) + c`. */
  lemma ValueSnoc(p: string, c: char)
    requires AllDigits(p) && IsDigit(c)
    ensures AllDigits(p + [c])
    ensures Value(p + [c]) == 10 * Value(p) + DigitValue(c)
  {
    assert (p + [c])[..|p|] == p;
  }

  /**
   The digit loop computes the signed value of all digits read so far and of
   the rest, and fails exactly when the rest has a non-digit or that value
   leaves the range of `i32` (a prefix out of range makes the whole run out of range).
   */
  lemma {:induction false} AccumulateValue(p: string, q: string, negative: bool)
    requires AllDigits(p)
    requires I32Min <= Signed(negative, Value(p)) <= I32Max
    ensures var v := if AllDigits(p + q) then Signed(negative, Value(p + q)) else 0;
            Accumulate(Signed(negative, Value(p)), q, negative)
            == if AllDigits(q) && I32Min <= v <= I32Max then Some(v) else None
    decreases |q|
  {
    AllDigitsAppend(p, q);
    if q == [] {
      assert p + q == p;
    } else {
      var c, q' := q[0], q[1..];
      assert q == [c] + q';
      AppendAssoc(p, [c], q');
      AllDigitsAppend([c], q');
      if IsDigit(c) {
        ValueSnoc(p, c);
        var next := Signed(negative, Value(p + [c]));
        assert Accumulate(Signed(negative, Value(p)), q, negative)
               == if I32Min <= next <= I32Max then Accumulate(next, q', negative) else None;
        if I32Min <= next <= I32Max {
          AccumulateValue(p + [c], q', negative);
        } else if AllDigits(p + q) {
          ValueMonotone(p + [c], q');
        }
      }
    }
  }

  /**
   `ParseI32` on an optional sign and a non-empty run: the signed value of the
   digits when they are all digits and the value fits in `i32`, and `None` otherwise.
   */
  lemma ParseSignedDigits(sign: string, ds: string)
    requires sign == "" || sign == "+" || sign == "-"
    requires ds != [] && (sign == "" ==> ds[0] != '+' && ds[0] != '-')
    ensures var v := if AllDigits(ds) then Signed(sign == "-", Value(ds)) else 0;
            ParseI32(sign + ds) == if AllDigits(ds) && I32Min <= v <= I32Max then Some(v) else None
  {
    var s := sign + ds;
    if sign == "" {
      assert s == ds;
    } else {
      assert s[0] == sign[0] && s[1..] == ds;
    }
    assert [] + ds == ds;
    AccumulateValue([], ds, sign == "-");
  }

  /**
   `ParseI32` accepts an optional sign, any number of leading zeros and a numeral,
   when the signed value fits in `i32`.
   */
  lemma ParseAccepts(sign: string, k: nat, m: nat)
    requires sign == "" || sign == "+" || sign == "-"
    requires I32Min <= Signed(sign == "-", m) <= I32Max
    ensures ParseI32(sign + Zeros(k) + ShowNat(m)) == Some(Signed(sign == "-", m))
  {
    var ds := Zeros(k) + ShowNat(m);
    ValueLeadingZeros(k, ShowNat(m));
    assert IsDigit(ds[0]);
    ParseSignedDigits(sign, ds);
    assert sign + ds == sign + Zeros(k) + ShowNat(m);
  }

  /** The same strings with a value outside `i32` are rejected (overflow). */
  lemma ParseRejectsOverflow(sign: string, k: nat, m: nat)
    requires sign == "" || sign == "+" || sign == "-"
    requires !(I32Min <= Signed(sign == "-", m) <= I32Max)
    ensures ParseI32(sign + Zeros(k) + ShowNat(m)) == None
  {
    var ds := Zeros(k) + ShowNat(m);
    ValueLeadingZeros(k, ShowNat(m));
    assert IsDigit(ds[0]);
    ParseSignedDigits(sign, ds);
    assert sign + ds == sign + Zeros(k) + ShowNat(m);
  }

  /** Round trip: the parser reads back the decimal form of every `i32`. */
  lemma ParseDecimal(n: i32)
    ensures ParseI32(Decimal(n)) == Some(n)
  {
    assert Zeros(0) == [];
    if n < 0 {
      var m: nat := -(n as int);
      ParseAccepts("-", 0, m);
      assert "-" + Zeros(0) + ShowNat(m) == Decimal(n);
    } else {
      ParseAccepts("", 0, n);
      assert "" + Zeros(0) + ShowNat(n) == Decimal(n);
    }
  }

  /** The shape of a signed digit run whose value is `n`. */
  lemma SignedDigitsShape(sign: string, ds: string, n: int)
    requires sign == "" || sign == "+" || sign == "-"
    requires ds != [] && AllDigits(ds)
    requires n == Signed(sign == "-", Value(ds))
    ensures var m: nat := if n < 0 then -n else n;
            && |sign| + |ShowNat(m)| <= |sign + ds|
            && sign + ds == sign + Zeros(|sign + ds| - |sign| - |ShowNat(m)|) + ShowNat(m)
  {
    var m := Value(ds);
    assert m == if n < 0 then -n else n;
    DigitsCanonical(ds);
    var z := Zeros(|ds| - |ShowNat(m)|);
    var sh := ShowNat(m);
    assert ds == z + sh;
    assert |sign + ds| - |sign| - |sh| == |z|;
    AppendAssoc(sign, z, sh);
  }

  /**
   Conversely, every string `ParseI32` accepts is an optional sign, then zeros,
   then the shortest numeral of the magnitude, and a negative result needs `-`.
   */
  lemma ParseShape(s: string, n: i32)
    requires ParseI32(s) == Some(n)
    ensures var m: nat := if n < 0 then -(n as int) else n;
            && |SignOf(s)| + |ShowNat(m)| <= |s|
            && s == SignOf(s) + Zeros(|s| - |SignOf(s)| - |ShowNat(m)|) + ShowNat(m)
            && Signed(SignOf(s) == "-", m) == n
  {
    var sign := SignOf(s);
    var ds := s[|sign|..];
    assert s == sign + ds && ds != [] && (sign == "" ==> ds[0] != '+' && ds[0] != '-');
    assert AllDigits(ds) && n == Signed(sign == "-", Value(ds)) by {
      ParseSignedDigits(sign, ds);
    }
    SignedDigitsShape(sign, ds, n);
  }
}
