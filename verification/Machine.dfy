/** Machine-level value types and the modular arithmetic shared by the other modules. */
module Machine {

  /** One byte of memory or of a network stream. */
  type Byte = x: int | 0 <= x < 256

  /** The C type uint32_t. */
  type UInt32 = x: int | 0 <= x < 0x1_0000_0000

  type Bytes = seq<Byte>

  /** Bytes of one camera image: 752 by 480 pixels. */
  const IMAGE_SIZE: nat := 360960

  function Min(a: int, b: int): int {
    if a <= b then a else b
  }

  lemma ConcatAssoc<T>(a: seq<T>, b: seq<T>, c: seq<T>)
    ensures (a + b) + c == a + (b + c)
  {
  }

  /** Two's complement reduction to the 32-bit C type int: the one value in its range congruent to x. */
  function Wrap32(x: int): (r: int)
    ensures -0x8000_0000 <= r < 0x8000_0000
    ensures (r - x) % 0x1_0000_0000 == 0
  {
    (x + 0x8000_0000) % 0x1_0000_0000 - 0x8000_0000
  }

  /** Two's complement reduction to int16_t. */
  function Wrap16(x: int): (r: int)
    ensures -0x8000 <= r < 0x8000
    ensures (r - x) % 0x1_0000 == 0
  {
    (x + 0x8000) % 0x1_0000 - 0x8000
  }

  /** Nothing else in the range of int is congruent to x. */
  lemma Wrap32Unique(x: int, v: int)
    requires -0x8000_0000 <= v < 0x8000_0000
    ensures v == Wrap32(x) <==> (v - x) % 0x1_0000_0000 == 0
  {
  }

  lemma Wrap16Unique(x: int, v: int)
    requires -0x8000 <= v < 0x8000
    ensures v == Wrap16(x) <==> (v - x) % 0x1_0000 == 0
    ensures v == Wrap16(v % 0x1_0000)
  {
  }

  /** Reduction to 32 bits separates any two integers less than 2^32 apart. */
  lemma Wrap32Separates(a: int, b: int)
    requires 0 < a - b < 0x1_0000_0000
    ensures Wrap32(a) != Wrap32(b)
  {
  }

  /** Two indices less than n apart never share a residue modulo n. */
  lemma ModSeparates(a: int, b: int, n: int)
    requires 0 < a - b < n
    ensures a % n != b % n
  {
    if a % n == b % n {
      assert a - b == n * (a / n - b / n);
      if a / n - b / n >= 1 {
        MulMonotone(n, 1, a / n - b / n);
      } else {
        MulMonotone(n, a / n - b / n, 0);
      }
    }
  }

  /** Stepping an index steps its residue, with wrap-around. */
  lemma ModSuccessor(a: int, n: int)
    requires 0 < n
    ensures (a + 1) % n == if a % n + 1 == n then 0 else a % n + 1
  {
    var q, r := a / n, a % n;
    assert a == n * q + r;
    if r + 1 == n {
      assert a + 1 == n * (q + 1);
      ModOfMultiple(n, q + 1, 0);
    } else {
      ModOfMultiple(n, q, r + 1);
    }
  }

  lemma ModOfMultiple(n: int, q: int, r: int)
    requires 0 <= r < n
    ensures (n * q + r) % n == r
    ensures (n * q + r) / n == q
  {
    var x := n * q + r;
    var q', r' := x / n, x % n;
    assert x == n * q' + r';
    assert n * (q - q') == r' - r;
    if q - q' >= 1 {
      MulMonotone(n, 1, q - q');
    } else if q - q' <= -1 {
      MulMonotone(n, q - q', -1);
    }
  }

  lemma MulMonotone(n: int, a: int, b: int)
    requires 0 <= n && a <= b
    ensures n * a <= n * b
  {
    assert n * b - n * a == n * (b - a);
  }

  lemma DivBounds(a: nat, n: int)
    requires 0 < n
    ensures 0 <= a / n && n * (a / n) <= a < n * (a / n) + n
  {
    if a / n < 0 {
      MulMonotone(n, a / n, -1);
    }
    assert a == n * (a / n) + a % n;
  }
}
