/** Numbers the models share. */
module Numbers {

  type Byte = x: int | 0 <= x < 256

  function Min(a: int, b: int): int { if a < b then a else b }

  function Max(a: int, b: int): int { if a < b then b else a }
}
