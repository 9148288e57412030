/** Small value types shared by the registries and the service handlers. */
module Common {

  datatype Option<T> = None | Some(value: T)

  /**
   * The outcome of a call that may suspend its thread on a condition
   * variable.  In a sequential model nothing else can run while the call
   * waits, so a call that would wait is reported as `Waits` and leaves the
   * state as it was when it started to wait.
   */
  datatype Blocking<T> = Returns(value: T) | Waits

  /** `std::max(0, x)` */
  function Floor0(x: int): (r: nat)
    ensures r >= x && (x > 0 ==> r == x) && (x <= 0 ==> r == 0)
  {
    if x < 0 then 0 else x
  }
}
