/** How restart markers divide the MCUs of a scan. */
module Segments {
  /** The first MCU of segment `s`, with restart markers every `interval` MCUs. */
  function SegmentStart(interval: nat, s: nat): nat {
    if s == 0 then 0 else SegmentStart(interval, s - 1) + interval
  }

  /** Where the segment that begins with MCU `start` ends; without restarts there is only one. */
  function SegmentEnd(interval: nat, n: nat, start: nat): (end: nat)
    requires start <= n
    ensures start <= end <= n
  {
    if interval == 0 || start + interval > n then n else start + interval
  }

  /** The number of the restart marker behind segment `s`. */
  function RestartNum(s: nat): (num: nat)
    ensures num < 8
  {
    if s == 0 then 0 else (RestartNum(s - 1) + 1) % 8
  }

  lemma {:induction false} RestartNumIs(s: nat)
    ensures RestartNum(s) == s % 8
  {
    if s > 0 { RestartNumIs(s - 1); }
  }
}
