module Wrappers {
  datatype Option<+T> = None | Some(value: T)

  function OrZero(x: Option<real>): real {
    match x case Some(v) => v case None => 0.0
  }
}
