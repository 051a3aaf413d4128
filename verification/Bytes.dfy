/** Bytes, decimal numerals, and the small result types shared by all modules. */
module Bytes {

  newtype Byte = x: int | 0 <= x < 256

  type Bytes = seq<Byte>

  datatype Option<+T> = None | Some(value: T)

  /** The outcome of a C routine: it returns, or it leaves defined behaviour (an
      assert fires, a byte outside the buffer is read, a signed integer overflows,
      an indeterminate value is used). */
  datatype Run<+T> = Done(value: T) | Fault {
    predicate IsFailure() { Fault? }
    function PropagateFailure<U>(): Run<U> requires Fault? { Fault }
    function Extract(): T requires Done? { value }
  }

  /** A C assert. */
  function Assert(condition: bool): Run<()> {
    if condition then Done(()) else Fault
  }

  const INT_MAX := 0x7FFF_FFFF
  const LONG_MAX := 0x7FFF_FFFF_FFFF_FFFF

  const COLON := ':' as Byte
  const MINUS := '-' as Byte
  const ZERO := '0' as Byte
  const LOWER_D := 'd' as Byte
  const LOWER_E := 'e' as Byte
  const LOWER_I := 'i' as Byte
  const LOWER_L := 'l' as Byte
  const NUL: Byte := 0
  const CR: Byte := 13

  /** The bytes of a text in ASCII. */
  function Ascii(s: string): Bytes
    requires forall i | 0 <= i < |s| :: s[i] < 128 as char
  {
    seq(|s|, i requires 0 <= i < |s| => s[i] as Byte)
  }

  predicate IsDigit(b: Byte) { 48 <= b <= 57 }

  function Digit(b: Byte): int { b as int - 48 }

  /** `bytes` stands in `buf` at offset `p`. */
  predicate Holds(buf: Bytes, p: int, bytes: Bytes) {
    0 <= p && p + |bytes| <= |buf| && forall i | 0 <= i < |bytes| :: buf[p + i] == bytes[i]
  }

  lemma HoldsSlice(buf: Bytes, p: int, bytes: Bytes)
    ensures Holds(buf, p, bytes) <==> 0 <= p && p + |bytes| <= |buf| && buf[p..p + |bytes|] == bytes
  {
    if 0 <= p && p + |bytes| <= |buf| && buf[p..p + |bytes|] == bytes {
      forall i | 0 <= i < |bytes| ensures buf[p + i] == bytes[i] {
        assert buf[p..p + |bytes|][i] == buf[p + i];
      }
    }
  }

  lemma HoldsFirst(buf: Bytes, p: int, bytes: Bytes)
    requires Holds(buf, p, bytes) && bytes != []
    ensures p < |buf| && buf[p] == bytes[0]
  {
    assert buf[p + 0] == bytes[0];
  }

  lemma HoldsSplit(buf: Bytes, p: int, a: Bytes, b: Bytes)
    ensures Holds(buf, p, a + b) <==> Holds(buf, p, a) && Holds(buf, p + |a|, b)
  {
    if Holds(buf, p, a + b) {
      forall i | 0 <= i < |a| ensures buf[p + i] == a[i] {
        assert (a + b)[i] == a[i];
      }
      forall i | 0 <= i < |b| ensures buf[p + |a| + i] == b[i] {
        assert (a + b)[|a| + i] == b[i];
      }
    }
  }

  lemma HoldsParts(buf: Bytes, p: int, ab: Bytes, a: Bytes, b: Bytes)
    requires ab == a + b && Holds(buf, p, ab)
    ensures Holds(buf, p, a) && Holds(buf, p + |a|, b)
  {
    HoldsSplit(buf, p, a, b);
  }

  // ---------------------------------------------------------------- integers

  /** Whether n fits an int. */
  predicate IsInt(n: int) { -INT_MAX - 1 <= n <= INT_MAX }

  /** The conversion from long to a 32-bit int: the value modulo 2^32 that fits. */
  function ToInt(n: int): (r: int)
    ensures IsInt(r) && (r - n) % 0x1_0000_0000 == 0
    ensures r == n <==> IsInt(n)
  {
    (n + 0x8000_0000) % 0x1_0000_0000 - 0x8000_0000
  }

  function Min(a: int, b: int): int { if a > b then b else a }

  lemma Multiples(a: int, b: int, n: nat)
    requires a <= b
    ensures a * n <= b * n
  {
  }

  // ---------------------------------------------------------------- decimals

  /** The decimal numeral of n, without leading zeros. */
  function Decimal(n: nat): (t: Bytes)
    ensures t != [] && AllDigits(t)
    ensures t[0] == ZERO ==> n == 0 && t == [ZERO]
  {
    if n < 10 then [(48 + n) as Byte] else Decimal(n / 10) + [(48 + n % 10) as Byte]
  }

  predicate AllDigits(t: Bytes) { forall i :: 0 <= i < |t| ==> IsDigit(t[i]) }

  /** The left-to-right accumulation every digit loop of the program performs. */
  function Accumulate(t: Bytes, acc: int): int {
    if t == [] then acc else Accumulate(t[1..], acc * 10 + Digit(t[0]))
  }

  lemma {:induction false} AccumulateSnoc(t: Bytes, b: Byte, acc: int)
    ensures Accumulate(t + [b], acc) == Accumulate(t, acc) * 10 + Digit(b)
  {
    if t == [] {
      assert (t + [b])[1..] == [];
    } else {
      assert (t + [b])[1..] == t[1..] + [b];
      AccumulateSnoc(t[1..], b, acc * 10 + Digit(t[0]));
    }
  }

  lemma {:induction false} AccumulateGrows(t: Bytes, acc: nat)
    requires AllDigits(t)
    ensures Accumulate(t, acc) >= acc
    ensures t != [] ==> Accumulate(t, acc) >= 10 * acc + Digit(t[0])
  {
    if t == [] {
    } else {
      AccumulateGrows(t[1..], acc * 10 + Digit(t[0]));
    }
  }

  lemma {:induction false} DecimalValue(n: nat)
    ensures Accumulate(Decimal(n), 0) == n
  {
    if n < 10 {
      assert Decimal(n)[1..] == [];
    } else {
      DecimalValue(n / 10);
      AccumulateSnoc(Decimal(n / 10), (48 + n % 10) as Byte, 0);
    }
  }

  /** A digit string without a superfluous leading zero is the numeral of its value. */
  lemma {:induction false} DecimalUnique(t: Bytes)
    requires t != [] && AllDigits(t) && (t[0] == ZERO ==> |t| == 1)
    ensures Accumulate(t, 0) >= 0 && Decimal(Accumulate(t, 0)) == t
  {
    var k := |t| - 1;
    assert t == t[..k] + [t[k]];
    AccumulateSnoc(t[..k], t[k], 0);
    if k == 0 {
      assert Accumulate(t, 0) == Digit(t[0]);
    } else {
      DecimalUnique(t[..k]);
      AccumulateGrows(t[..k], 0);
      assert Accumulate(t[..k], 0) >= 1;
    }
  }
}
