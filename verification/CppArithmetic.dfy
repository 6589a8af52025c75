/** Integer division as C++ defines it: quotient and remainder are truncated toward zero. */
module CppArithmetic {

  function Quotient(a: int, b: int): int
    requires b > 0
  {
    if a < 0 then -((-a) / b) else a / b
  }

  function Remainder(a: int, b: int): int
    requires b > 0
  {
    if a < 0 then -((-a) % b) else a % b
  }
}
