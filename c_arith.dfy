/** Integer operators with the meaning C gives them, and the Option type used
    for C's nullable results.  Dafny's `/` and `%` are Euclidean; C's truncate
    toward zero, so the model spells the C operators out. */
module CArith {

  datatype Option<T> = None | Some(value: T)

  newtype uint8 = x: int | 0 <= x < 0x100

  function Abs(x: int): nat { if x < 0 then -x else x }

  /** C's `a / b`: the quotient rounded toward zero. */
  function CDiv(a: int, b: int): (q: int)
    requires b != 0
    ensures a >= 0 && b > 0 ==> q == a / b
  {
    if a >= 0 && b > 0 then a / b
    else if a < 0 && b < 0 then (-a) / (-b)
    else if a < 0 then -((-a) / b)
    else -(a / (-b))
  }

  /** C's `a % b`: the remainder, which takes the sign of `a`. */
  function CRem(a: int, b: int): (r: int)
    requires b != 0
    ensures a == CDiv(a, b) * b + r
    ensures Abs(r) < Abs(b)
    ensures r == 0 || ((r < 0) <==> (a < 0))
    ensures a >= 0 && b > 0 ==> r == a % b
  {
    var q := Abs(a) / Abs(b);
    var m := Abs(a) % Abs(b);
    assert Abs(a) == q * Abs(b) + m;
    a - CDiv(a, b) * b
  }

  /** C's `x & ~0x1` on a two's-complement int: clear the low bit, which
      rounds down to an even number. */
  function ClearLowBit(x: int): (e: int)
    ensures e % 2 == 0
    ensures e <= x < e + 2
  {
    x - x % 2
  }
}
