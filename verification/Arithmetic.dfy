/** Facts about numbers that several modules share. */
module Arithmetic {
  function Max(x: int, y: int): int {
    if x < y then y else x
  }

  function Min(x: int, y: int): int {
    if y < x then y else x
  }

  function Power(b: int, e: nat): int {
    if e == 0 then 1 else b * Power(b, e - 1)
  }

  lemma MulMono(a: int, b: int, size: nat)
    ensures a <= b ==> a * size <= b * size
    ensures a < b ==> (a + 1) * size <= b * size
  {
  }

  lemma DivUnique(a: int, b: int, q: int, r: int)
    requires b > 0 && a == q * b + r && 0 <= r < b
    ensures a / b == q && a % b == r
  {
    var d := a / b - q;
    assert d * b == r - a % b;
  }
}
