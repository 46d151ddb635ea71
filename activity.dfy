/** A completed activity record, as `stopTimer` builds it (script.js:74-79). */
module Activity {

  /** Instants are milliseconds since the epoch (a JavaScript `Date`'s time value);
      `duration` is in whole seconds. */
  datatype Record = Record(name: string, startTime: int, endTime: int, duration: int)

  /** `Math.floor((end - start) / 1000)`: the number of whole seconds between two
      instants, rounded toward minus infinity and NOT clamped at zero. */
  function ElapsedSeconds(start: int, end: int): (secs: int)
    ensures secs * 1000 <= end - start < secs * 1000 + 1000
    ensures end >= start ==> secs >= 0
    ensures end < start ==> secs < 0
  {
    (end - start) / 1000
  }
}
