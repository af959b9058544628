/** Moments on a clock that never runs backwards. */
module Times {
  type Time = nat

  /** Time since `t`, zero if `t` lies ahead. */
  function Since(t: Time, now: Time): nat {
    if now >= t then now - t else 0
  }
}
