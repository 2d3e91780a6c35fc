/** Small things that several modules use. */
module Wrappers {

  datatype Option<+T> = None | Some(value: T)

  function Max(a: nat, b: nat): nat { if a < b then b else a }

  function Min(a: nat, b: nat): nat { if a < b then a else b }
}
