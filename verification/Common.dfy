/** The optional value that stands for the source's nil pointers and zero times. */
module Common {

  datatype Option<+T> = None | Some(value: T)

  datatype Result<+T> = Ok(result: T) | Err(message: string)

  function Min(a: int, b: int): (m: int)
    ensures m <= a && m <= b && (m == a || m == b)
  {
    if a < b then a else b
  }

  function Max(a: int, b: int): (m: int)
    ensures a <= m && b <= m && (m == a || m == b)
  {
    if a < b then b else a
  }

  function Abs(a: int): nat {
    if a < 0 then -a else a
  }

  function RealMin(a: real, b: real): real {
    if b < a then b else a
  }

  function RealMax(a: real, b: real): real {
    if a < b then b else a
  }

  function RealAbs(a: real): real {
    if a < 0.0 then -a else a
  }
}
