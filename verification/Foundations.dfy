/** Types shared by every module: optional values, results, machine integers and bytes. */
module Foundations {

  datatype Option<+T> = None | Some(value: T)

  datatype Result<+T, +E> = Ok(value: T) | Err(error: E)

  const TWO_64: int := 0x1_0000_0000_0000_0000
  const I64_MAX: int := 0x7fff_ffff_ffff_ffff
  const I64_MIN: int := -0x8000_0000_0000_0000

  type byte = x: int | 0 <= x < 256
  type u32 = x: int | 0 <= x < 0x1_0000_0000
  type u64 = x: int | 0 <= x < TWO_64
  type i64 = x: int | I64_MIN <= x <= I64_MAX

  /** A 128-bit identifier, ordered as its sixteen big-endian bytes are. */
  type Uuid = x: int | 0 <= x < 0x1_0000_0000_0000_0000_0000_0000_0000_0000

  /** A 256-bit digest, and a 256-bit key. */
  type Hash = h: seq<byte> | |h| == 32 witness seq(32, _ => 0)
  type Key = k: seq<byte> | |k| == 32 witness seq(32, _ => 0)

  /** Division that truncates toward zero, as the source's `/` does. */
  function TruncDiv(a: int, b: int): int
    requires 0 < b
  {
    if 0 <= a then a / b else -((-a) / b)
  }
}

/** Facts about sequences of anything. */
module Sequences {

  lemma {:induction false} Regroup<E>(a: seq<E>, b: seq<E>, c: seq<E>)
    ensures a + b + c == a + (b + c)
  {
  }
}

/** Division facts the solver does not find by itself. */
module Arithmetic {

  lemma {:induction false} MulMonotone(b: nat, x: int, y: int)
    ensures x <= y ==> b * x <= b * y
  {
  }

  lemma {:induction false} DivModUnique(x: nat, b: nat, q: int, r: nat)
    requires r < b && x == b * q + r
    ensures x / b == q && x % b == r
  {
    MulMonotone(b, q + 1, x / b);
    MulMonotone(b, x / b + 1, q);
  }

  lemma {:induction false} DivStep(x: nat, b: nat)
    requires 0 < b <= x
    ensures x / b == 1 + (x - b) / b && x % b == (x - b) % b
  {
    DivModUnique(x, b, (x - b) / b + 1, (x - b) % b);
  }

  function CeilDiv(a: nat, b: nat): nat
    requires 0 < b
  {
    (a + b - 1) / b
  }

  lemma {:induction false} NoCeilDiv(b: nat)
    requires 0 < b
    ensures CeilDiv(0, b) == 0
  {
    DivModUnique(b - 1, b, 0, b - 1);
  }

  lemma {:induction false} SmallCeilDiv(a: nat, b: nat)
    requires 0 < a <= b
    ensures CeilDiv(a, b) == 1
  {
    DivModUnique(a + b - 1, b, 1, a - 1);
  }

  lemma {:induction false} CeilDivStep(a: nat, b: nat)
    requires 0 < b < a
    ensures CeilDiv(a, b) == 1 + CeilDiv(a - b, b)
  {
    DivStep(a + b - 1, b);
  }
}
