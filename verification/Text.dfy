/** Hexadecimal and decimal text as the db-sync read emits it and the reduction parses it. */
module Text {
  import opened Prelude

  // ---------- hexadecimal ----------

  function HexValue(c: char): (v: Option<nat>)
    ensures v.Some? ==> v.value < 16
  {
    if '0' <= c <= '9' then Some(c as int - '0' as int)
    else if 'a' <= c <= 'f' then Some(c as int - 'a' as int + 10)
    else if 'A' <= c <= 'F' then Some(c as int - 'A' as int + 10)
    else None
  }

  function HexDigit(v: nat): (c: char)
    requires v < 16
    ensures IsHexDigit(c)
  {
    if v < 10 then ('0' as int + v) as char else ('a' as int + v - 10) as char
  }

  /** A lower-case hexadecimal digit. */
  predicate IsHexDigit(c: char) {
    '0' <= c <= '9' || 'a' <= c <= 'f'
  }

  function Stripped(s: string): string {
    if "0x" <= s then s[2..] else s
  }

  function HexPairs(s: string): (r: Option<Bytes>)
    requires |s| % 2 == 0
    ensures r.Some? ==> |r.value| == |s| / 2
  {
    if s == [] then Some([]) else
    var front, last := HexPairs(s[..|s| - 2]), HexByte(s[|s| - 2], s[|s| - 1]);
    if front.Some? && last.Some? then Some(front.value + [last.value]) else None
  }

  function HexByte(c: char, d: char): Option<byte> {
    var hi, lo := HexValue(c), HexValue(d);
    if hi.Some? && lo.Some? then Some(16 * hi.value + lo.value) else None
  }

  /** `hex_bytes::<n>`. */
  function HexSpec(s: string, n: nat): (r: Option<Bytes>)
    ensures r.Some? ==> |r.value| == n
  {
    if |Stripped(s)| != 2 * n then None else HexPairs(Stripped(s))
  }

  lemma HexPairsEmpty()
    ensures HexPairs([]) == Some([])
  {
  }

  lemma HexPairsSnoc(s: string, c: char, d: char)
    requires |s| % 2 == 0
    ensures HexPairs(s + [c, d]) ==
            if HexPairs(s).Some? && HexByte(c, d).Some? then Some(HexPairs(s).value + [HexByte(c, d).value]) else None
  {
    hide HexByte;
    assert (s + [c, d])[..|s|] == s;
  }

  lemma {:induction false} HexPairsFails(s: string, k: nat)
    requires |s| % 2 == 0 && k % 2 == 0 && k <= |s| && HexPairs(s[..k]).None?
    ensures HexPairs(s).None?
    decreases |s|
  {
    if k < |s| {
      assert s[..|s| - 2][..k] == s[..k];
      HexPairsFails(s[..|s| - 2], k);
    } else {
      assert s[..k] == s;
    }
  }

  method HexBytes(s: string, n: nat) returns (r: Option<Bytes>)
    ensures r == HexSpec(s, n)
  {
    hide HexPairs, HexValue, Stripped;
    var t := Stripped(s);
    if |t| != 2 * n {
      return None;
    }
    HexPairsEmpty();
    var out: Bytes := [];
    for i := 0 to n
      invariant HexPairs(t[..2 * i]) == Some(out)
    {
      var hi, lo := HexValue(t[2 * i]), HexValue(t[2 * i + 1]);
      HexPairsSnoc(t[..2 * i], t[2 * i], t[2 * i + 1]);
      assert t[..2 * (i + 1)] == t[..2 * i] + [t[2 * i], t[2 * i + 1]];
      if hi.None? || lo.None? {
        HexPairsFails(t, 2 * (i + 1));
        return None;
      }
      out := out + [16 * hi.value + lo.value];
    }
    assert t[..2 * n] == t;
    r := Some(out);
  }

  /** `hex_encode`, and `encode(.., 'hex')` in SQL. */
  function HexEncode(b: Bytes): (s: string)
    ensures |s| == 2 * |b|
    ensures forall i :: 0 <= i < |s| ==> IsHexDigit(s[i])
  {
    if b == [] then [] else
    var last := b[|b| - 1];
    HexEncode(b[..|b| - 1]) + [HexDigit(last / 16), HexDigit(last % 16)]
  }

  lemma HexByteDigits(b: byte)
    ensures HexByte(HexDigit(b / 16), HexDigit(b % 16)) == Some(b)
  {
  }

  lemma {:induction false} HexPairsRoundTrip(b: Bytes)
    ensures HexPairs(HexEncode(b)) == Some(b)
  {
    if b != [] {
      hide HexDigit, HexByte, HexPairs;
      var front, last := b[..|b| - 1], b[|b| - 1];
      HexByteDigits(last);
      HexPairsRoundTrip(front);
      HexPairsSnoc(HexEncode(front), HexDigit(last / 16), HexDigit(last % 16));
      assert b == front + [last];
    }
  }

  /** Encoding then decoding at the right width is the identity; at any other width it fails. */
  lemma HexRoundTrip(b: Bytes, n: nat)
    ensures HexSpec(HexEncode(b), n) == if |b| == n then Some(b) else None
  {
    hide HexPairs;
    var s := HexEncode(b);
    assert |s| >= 2 ==> IsHexDigit(s[1]);
    assert Stripped(s) == s;
    HexPairsRoundTrip(b);
  }

  lemma HexInjective(a: Bytes, b: Bytes)
    requires HexEncode(a) == HexEncode(b)
    ensures a == b
  {
    HexPairsRoundTrip(a);
    HexPairsRoundTrip(b);
  }

  // ---------- decimal ----------

  predicate IsDigit(c: char) {
    '0' <= c <= '9'
  }

  predicate AllDigits(s: string) {
    forall i :: 0 <= i < |s| ==> IsDigit(s[i])
  }

  function DecimalValue(s: string): nat
    requires AllDigits(s)
  {
    if s == [] then 0 else 10 * DecimalValue(s[..|s| - 1]) + (s[|s| - 1] as int - '0' as int)
  }

  function DecimalDigit(v: nat): (c: char)
    requires v < 10
    ensures IsDigit(c) && c as int - '0' as int == v
  {
    ('0' as int + v) as char
  }

  /** `::text` of an integer. */
  function Decimal(n: nat): (s: string)
    ensures s != [] && AllDigits(s)
  {
    if n < 10 then [DecimalDigit(n)] else Decimal(n / 10) + [DecimalDigit(n % 10)]
  }

  lemma {:induction false} DecimalRoundTrip(n: nat)
    ensures DecimalValue(Decimal(n)) == n
  {
    var s := Decimal(n);
    if n < 10 {
      assert s[..0] == [];
    } else {
      DecimalRoundTrip(n / 10);
      assert s[..|s| - 1] == Decimal(n / 10);
    }
  }

  function Zeros(z: nat): (s: string)
    ensures |s| == z && AllDigits(s)
  {
    if z == 0 then [] else ['0'] + Zeros(z - 1)
  }

  /** A numeral for `n`: its decimal digits behind any number of zeros. */
  predicate IsNumeral(s: string, n: nat) {
    |s| >= |Decimal(n)| && s == Zeros(|s| - |Decimal(n)|) + Decimal(n)
  }

  lemma {:induction false} LeadingZero(s: string)
    requires AllDigits(s)
    ensures DecimalValue(['0'] + s) == DecimalValue(s)
  {
    var t := ['0'] + s;
    if s == [] {
      assert t[..0] == [];
    } else {
      LeadingZero(s[..|s| - 1]);
      assert t[..|t| - 1] == ['0'] + s[..|s| - 1];
    }
  }

  lemma {:induction false} LeadingZeros(z: nat, s: string)
    requires AllDigits(s)
    ensures DecimalValue(Zeros(z) + s) == DecimalValue(s)
  {
    if z == 0 {
      assert Zeros(z) + s == s;
    } else {
      var rest := Zeros(z - 1) + s;
      assert AllDigits(rest) && Zeros(z) + s == ['0'] + rest;
      LeadingZeros(z - 1, s);
      LeadingZero(rest);
    }
  }

  lemma {:induction false} ZerosSnoc(z: nat)
    ensures Zeros(z) + ['0'] == Zeros(z + 1)
  {
    if z > 0 {
      ZerosSnoc(z - 1);
      assert Zeros(z) + ['0'] == ['0'] + (Zeros(z - 1) + ['0']);
    }
  }

  /** Appending a digit to a numeral's digits, unless they were a lone zero. */
  lemma DecimalSnoc(m: nat, c: char)
    requires IsDigit(c)
    ensures var d := c as int - '0' as int; Decimal(10 * m + d) == if m == 0 then [c] else Decimal(m) + [c]
  {
    var d := c as int - '0' as int;
    assert DecimalDigit(d) == c;
    assert (10 * m + d) / 10 == m && (10 * m + d) % 10 == d;
  }

  lemma {:induction false} DigitsAreNumeral(s: string)
    requires s != [] && AllDigits(s)
    ensures IsNumeral(s, DecimalValue(s))
  {
    var front, last := s[..|s| - 1], s[|s| - 1];
    assert s == front + [last];
    var m := DecimalValue(front);
    DecimalSnoc(m, last);
    if front != [] {
      DigitsAreNumeral(front);
      NumeralSnoc(front, m, last);
    } else {
      assert DecimalValue([]) == 0;
    }
  }

  lemma NumeralSnoc(s: string, m: nat, c: char)
    requires IsNumeral(s, m) && IsDigit(c)
    ensures IsNumeral(s + [c], 10 * m + (c as int - '0' as int))
  {
    DecimalSnoc(m, c);
    assert Decimal(0) == ['0'];
    hide Decimal, Zeros;
    var z := |s| - |Decimal(m)|;
    if m == 0 {
      ZerosSnoc(z);
    } else {
      assert s + [c] == Zeros(z) + (Decimal(m) + [c]);
    }
  }

  /** A string of digits has the value `n` exactly when it is a numeral for `n`. */
  lemma DigitsMeanNumerals(s: string, n: nat)
    ensures s != [] && AllDigits(s) && DecimalValue(s) == n <==> IsNumeral(s, n)
  {
    hide Decimal, Zeros;
    if s != [] && AllDigits(s) && DecimalValue(s) == n {
      DigitsAreNumeral(s);
    }
    if IsNumeral(s, n) {
      DecimalRoundTrip(n);
      LeadingZeros(|s| - |Decimal(n)|, Decimal(n));
    }
  }
}
