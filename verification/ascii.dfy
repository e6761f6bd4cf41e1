/**
  Bytes and the decimal text the backend writes and reads: the `%u` conversion
  of printf (tile headers, control scripts) and the digit scanning of scanf.
 */
module Ascii {

  /** An 8-bit byte, as stored in files and in `unsigned char`. */
  newtype byte = b: int | 0 <= b < 0x100

  const SPACE: byte := 32
  const NEWLINE: byte := 10

  predicate IsDigit(b: byte) {
    48 <= b <= 57
  }

  /** `isspace` in the C locale: space, \t, \n, \v, \f, \r. */
  predicate IsSpace(b: byte) {
    b == 32 || 9 <= b <= 13
  }

  predicate AllDigits(s: seq<byte>) {
    forall i :: 0 <= i < |s| ==> IsDigit(s[i])
  }

  /** True when `s` is empty or does not begin with a digit, so a digit run ends before it. */
  predicate StopsDigits(s: seq<byte>) {
    |s| == 0 || !IsDigit(s[0])
  }

  function DigitChar(d: nat): (b: byte)
    requires d < 10
    ensures IsDigit(b) && (b as int) - 48 == d
  {
    (48 + d) as byte
  }

  /** The text printf's `%u` produces for `n`: most significant digit first, no leading zero. */
  function Decimal(n: nat): (r: seq<byte>)
    ensures 1 <= |r|
    ensures AllDigits(r)
    ensures n < 10 <==> |r| == 1
    ensures |r| > 1 ==> r[0] != 48
    decreases n
  {
    if n < 10 then [DigitChar(n)] else Decimal(n / 10) + [DigitChar(n % 10)]
  }

  /** Value of a digit run read left to right, starting from accumulator `acc`, as scanf does. */
  function ValueFrom(acc: nat, ds: seq<byte>): nat
    requires AllDigits(ds)
    decreases |ds|
  {
    if |ds| == 0 then acc else ValueFrom(acc * 10 + ((ds[0] as int) - 48), ds[1..])
  }

  /** Length of the longest digit prefix of `s`. */
  function ScanDigits(s: seq<byte>): (k: nat)
    ensures k <= |s|
    ensures AllDigits(s[..k])
    ensures StopsDigits(s[k..])
    decreases |s|
  {
    if |s| == 0 || !IsDigit(s[0]) then 0
    else
      var k := 1 + ScanDigits(s[1..]);
      assert s[..k] == [s[0]] + s[1..][..k - 1];
      assert s[k..] == s[1..][k - 1..];
      k
  }

  lemma {:induction false} ValueFromAppend(acc: nat, a: seq<byte>, b: seq<byte>)
    requires AllDigits(a) && AllDigits(b)
    ensures AllDigits(a + b)
    ensures ValueFrom(acc, a + b) == ValueFrom(ValueFrom(acc, a), b)
    decreases |a|
  {
    if |a| > 0 {
      assert (a + b)[1..] == a[1..] + b;
      ValueFromAppend(acc * 10 + ((a[0] as int) - 48), a[1..], b);
    } else {
      assert a + b == b;
    }
  }

  /** Reading back what `%u` printed gives the number printed. */
  lemma {:induction false} DecimalValue(n: nat)
    ensures ValueFrom(0, Decimal(n)) == n
    decreases n
  {
    if n >= 10 {
      DecimalValue(n / 10);
      ValueFromAppend(0, Decimal(n / 10), [DigitChar(n % 10)]);
    }
  }

  /** A digit run that is followed by a non-digit is scanned exactly. */
  lemma {:induction false} ScanDigitsRun(ds: seq<byte>, rest: seq<byte>)
    requires AllDigits(ds)
    requires StopsDigits(rest)
    ensures ScanDigits(ds + rest) == |ds|
    decreases |ds|
  {
    if |ds| == 0 {
      assert ds + rest == rest;
    } else {
      assert (ds + rest)[1..] == ds[1..] + rest;
      ScanDigitsRun(ds[1..], rest);
    }
  }

  /** `%u` output followed by a separator is read back as the same number, consuming exactly its digits. */
  lemma ReadDecimal(n: nat, rest: seq<byte>)
    requires StopsDigits(rest)
    ensures ScanDigits(Decimal(n) + rest) == |Decimal(n)|
    ensures (Decimal(n) + rest)[..|Decimal(n)|] == Decimal(n)
    ensures ValueFrom(0, Decimal(n)) == n
  {
    ScanDigitsRun(Decimal(n), rest);
    DecimalValue(n);
  }
}
