/** What the models share: bytes, C strings, C's 32-bit integers and one fact about sequences. */
module Basics {

  datatype Option<+T> = None | Some(value: T)

  type byte = b: int | 0 <= b < 256

  const NUL: char := '\0'

  /** A C string without its terminator: eight-bit characters, none of them NUL. */
  predicate IsCString(s: string) {
    forall i :: 0 <= i < |s| ==> 0 < s[i] as int < 256
  }

  lemma ConcatAssociates<A>(a: seq<A>, b: seq<A>, c: seq<A>)
    ensures a + (b + c) == a + b + c
  {}

  /** The value of a conversion to a 32-bit `int` (two's complement). */
  function ToInt32(n: int): (r: int)
    ensures -0x8000_0000 <= r < 0x8000_0000
    ensures -0x8000_0000 <= n < 0x8000_0000 ==> r == n
  {
    (n + 0x8000_0000) % 0x1_0000_0000 - 0x8000_0000
  }

  /** What a length converted to an `int` still says. */
  lemma Int32OfLength(n: nat)
    ensures ToInt32(n) >= 0 <==> n % 0x1_0000_0000 < 0x8000_0000
    ensures ToInt32(n) == n <==> n < 0x8000_0000
  {
    var q, low := n / 0x1_0000_0000, n % 0x1_0000_0000;
    assert n + 0x8000_0000 == 0x1_0000_0000 * q + (low + 0x8000_0000);
  }

  /** The value of a conversion to a 32-bit `unsigned int`. */
  function ToUint32(n: int): (r: int)
    ensures 0 <= r < 0x1_0000_0000
    ensures 0 <= n < 0x1_0000_0000 ==> r == n
  {
    n % 0x1_0000_0000
  }

  /** The decimal digits of a number. */
  function Decimal(n: nat): string {
    if n < 10 then [DecimalDigit(n)] else Decimal(n / 10) + [DecimalDigit(n % 10)]
  }

  function DecimalDigit(n: int): char
    requires 0 <= n < 10
  {
    ('0' as int + n) as char
  }

  lemma {:induction false} DecimalShape(n: nat)
    ensures IsCString(Decimal(n))
    ensures n < 10 ==> |Decimal(n)| == 1
    ensures n < 100 ==> |Decimal(n)| <= 2
    ensures n < 1000 ==> |Decimal(n)| <= 3
    ensures n < 10000 ==> |Decimal(n)| <= 4
    ensures n < 100000 ==> |Decimal(n)| <= 5
  {
    if n >= 10 {
      DecimalShape(n / 10);
    }
  }

  /** Division as in C and C#: the quotient is truncated toward zero. */
  function Quotient(a: int, b: int): int
    requires b > 0
  {
    if a >= 0 then a / b else -(-a / b)
  }

  /** The remainder that goes with it takes the sign of the dividend. */
  function Remainder(a: int, b: int): int
    requires b > 0
  {
    a - b * Quotient(a, b)
  }
}
