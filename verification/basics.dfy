/** Small types and functions that several parts share. */
module Basics {
  datatype Option<T> = None | Some(value: T)

  /** A state is soft while it may still be a passing problem. */
  datatype StateType = Soft | Hard

  /** A check result as it comes in. */
  datatype CheckResult = CheckResult(isActive: bool, isFreshnessCheck: bool, earlyTimeout: bool,
                                     exitedOk: bool, returnCode: int)

  function Max(a: nat, b: nat): nat {
    if a > b then a else b
  }

  function Min(a: nat, b: nat): nat {
    if a < b then a else b
  }
}
