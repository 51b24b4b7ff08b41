/**
 * Go's `strconv.Atoi` (base 10, 64-bit `int`) and its inverse `strconv.Itoa`,
 * the decimal form a well-behaved statistics endpoint writes.
 */
module GoStrconv {
  import opened Wrappers
  import opened GoInt
  import opened GoStrings

  predicate IsDigit(c: char) {
    '0' <= c <= '9'
  }

  predicate AllDigits(s: string) {
    forall i :: 0 <= i < |s| ==> IsDigit(s[i])
  }

  function DigitValue(c: char): (d: nat)
    requires IsDigit(c)
    ensures d < 10
  {
    c as int - '0' as int
  }

  function DigitChar(d: nat): (c: char)
    requires d < 10
    ensures IsDigit(c) && DigitValue(c) == d
  {
    ('0' as int + d) as char
  }

  /** The number a run of decimal digits denotes, most significant first. */
  function DecimalValue(ds: string): nat
    requires AllDigits(ds)
  {
    if ds == [] then 0 else DecimalValue(ds[..|ds| - 1]) * 10 + DigitValue(ds[|ds| - 1])
  }

  /**
   * `strconv.Atoi`: an optional `+` or `-`, then one or more decimal digits
   * (leading zeros allowed, no underscores, no white space), denoting a value
   * that fits in a 64-bit `int`. Anything else is a syntax or range error.
   */
  function Atoi(s: string): (r: Option<int>)
    ensures r.Some? ==> InInt64(r.value)
  {
    var signed := s != [] && (s[0] == '+' || s[0] == '-');
    var digits := if signed then s[1..] else s;
    if digits == [] || !AllDigits(digits) then None
    else
      var n: int := if signed && s[0] == '-' then -(DecimalValue(digits) as int) else DecimalValue(digits);
      if InInt64(n) then Some(n) else None
  }

  /**
   * What `Atoi` accepts: a sign or a digit, then digits only; a negative value
   * needs a minus sign; no white space and no comma anywhere.
   */
  lemma AtoiSyntax(s: string)
    requires Atoi(s).Some?
    ensures s != [] && (IsDigit(s[0]) || s[0] == '+' || s[0] == '-')
    ensures AllDigits(s[1..]) && IsDigit(s[|s| - 1])
    ensures Atoi(s).value < 0 ==> s[0] == '-'
    ensures forall i :: 0 <= i < |s| ==> !IsSpace(s[i]) && s[i] != ','
  {
    var digits := if s[0] == '+' || s[0] == '-' then s[1..] else s;
    assert digits[|digits| - 1] == s[|s| - 1];
  }

  /** The decimal digits of `n`, without leading zeros. */
  function NatToString(n: nat): (s: string)
    ensures s != [] && AllDigits(s)
    ensures |s| > 1 ==> s[0] != '0'
    decreases n
  {
    if n < 10 then [DigitChar(n)]
    else
      var s := NatToString(n / 10) + [DigitChar(n % 10)];
      assert s[0] == NatToString(n / 10)[0];
      s
  }

  /** `strconv.Itoa`: a minus sign for negative values, then the digits. */
  function Itoa(n: int): (s: string)
  {
    if n < 0 then "-" + NatToString(-n) else NatToString(n)
  }

  lemma {:induction false} DecimalValueOfNatToString(n: nat)
    ensures DecimalValue(NatToString(n)) == n
    decreases n
  {
    var s := NatToString(n);
    if n >= 10 {
      assert s[..|s| - 1] == NatToString(n / 10);
      DecimalValueOfNatToString(n / 10);
    }
  }

  /** What `Itoa` writes, `Atoi` reads back, for every 64-bit value. */
  lemma AtoiItoa(n: int)
    requires InInt64(n)
    ensures Atoi(Itoa(n)) == Some(n)
  {
    var s := Itoa(n);
    if n < 0 {
      var d := NatToString(-n);
      DecimalValueOfNatToString(-n);
      assert s[0] == '-' && s[1..] == d;
      assert -(DecimalValue(d) as int) == n;
    } else {
      var d := NatToString(n);
      DecimalValueOfNatToString(n);
      assert s == d && IsDigit(d[0]);
    }
  }

  /** `Itoa` writes a tight field: no white space at either end and no comma. */
  lemma ItoaTight(n: int)
    ensures Tight(Itoa(n)) && ',' !in Itoa(n)
  {
    var s := Itoa(n);
    var d := if n < 0 then NatToString(-n) else NatToString(n);
    assert s[|s| - 1] == d[|d| - 1];
    assert forall i :: 0 <= i < |d| ==> d[i] != ',';
    if n < 0 {
      assert forall i :: 1 <= i < |s| ==> s[i] == d[i - 1];
    }
  }

  /** Edge cases of `Atoi`. */
  lemma AtoiExamples()
    ensures Atoi("+007") == Some(7) && Atoi("-0") == Some(0)
    ensures Atoi("") == None && Atoi("+") == None && Atoi("-") == None
    ensures Atoi(" 1") == None && Atoi("1_000") == None && Atoi("0x1F") == None
  {
    assert "+007"[1..] == "007" && "007"[..2] == "00" && "00"[..1] == "0" && "0"[..0] == "";
    assert DecimalValue("007") == 7;
    assert "-0"[1..] == "0";
    assert "1_000"[1] == '_';
    assert "0x1F"[1] == 'x';
  }

  /** `Atoi` reports a range error one past either end of the 64-bit range. */
  lemma AtoiRange()
    ensures Atoi(Itoa(MaxInt64)) == Some(MaxInt64) && Atoi(Itoa(MinInt64)) == Some(MinInt64)
    ensures Atoi(Itoa(MaxInt64 + 1)) == None && Atoi(Itoa(MinInt64 - 1)) == None
  {
    AtoiItoa(MaxInt64);
    AtoiItoa(MinInt64);
    DecimalValueOfNatToString(MaxInt64 + 1);
    DecimalValueOfNatToString(-(MinInt64 - 1));
    assert Itoa(MinInt64 - 1)[1..] == NatToString(-(MinInt64 - 1));
  }
}
