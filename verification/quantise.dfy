/** Lifetime quantisation applied when an issuance is recorded: lifetimes of
    an hour or more snap up to the next whole hour when within 60 seconds of
    it, lifetimes of a minute or more snap up to the next whole minute when
    within 1 second of it, and shorter lifetimes are kept as they are. The
    arithmetic is on uint32, so `x + 60` wraps as it does in the program. */
module Quantise {
  import opened Types

  const Minute: int := 60
  const Hour: int := 3600

  function Add32(a: uint32, b: uint32): uint32 {
    (a + b) % TWO_32
  }

  function Mul32(a: uint32, b: uint32): uint32 {
    (a * b) % TWO_32
  }

  /** Independent statement of the policy: move `x` up to the next multiple
      of `unit` when that multiple is at most `margin` away, else keep it. */
  function RoundUpWithin(x: nat, unit: nat, margin: nat): nat
    requires unit > 0
  {
    var rem := x % unit;
    if rem != 0 && unit - rem <= margin then x + (unit - rem) else x
  }

  /** The policy in terms of RoundUpWithin, without machine arithmetic. */
  function QuantiseSpec(x: nat): nat {
    if x >= Hour then RoundUpWithin(x, Hour, Minute)
    else if x >= Minute then RoundUpWithin(x, Minute, 1)
    else x
  }

  /** The lifetime as the recorder stores it, computed as the program does. */
  function Quantise(x: uint32): (r: uint32)
    ensures r == QuantiseSpec(x)
    ensures x < Minute ==> r == x
    ensures x <= r
    ensures Minute <= x < Hour ==> r <= x + 1
    ensures Hour <= x ==> r <= x + Minute
    ensures Minute <= x < Hour && x % Minute == 0 ==> r == x
    ensures Hour <= x && x % Hour == 0 ==> r == x
  {
    if x >= Hour then
      var hours := x / Hour;
      var hoursPlus := Add32(x, Minute) / Hour;
      HourBranch(x);
      if hoursPlus > hours then Mul32(hoursPlus, Hour) else x
    else if x >= Minute then
      var minutes := x / Minute;
      var minutesPlus := Add32(x, 1) / Minute;
      MinuteBranch(x);
      if minutesPlus > minutes then Mul32(minutesPlus, Minute) else x
    else
      x
  }

  /** The hour branch of the program agrees with the policy on every uint32,
      including those for which `x + 60` wraps around: the wrapped sum is
      below 60, so no rounding happens, and every such x lies more than 60
      seconds short of the next whole hour, so the policy keeps it too. */
  lemma HourBranch(x: uint32)
    requires x >= Hour
    ensures var hours := x / Hour;
            var hoursPlus := Add32(x, Minute) / Hour;
            && (hoursPlus > hours ==>
                  hoursPlus * Hour < TWO_32 && Mul32(hoursPlus, Hour) == RoundUpWithin(x, Hour, Minute))
            && (hoursPlus <= hours ==> x == RoundUpWithin(x, Hour, Minute))
  {
  }

  lemma MinuteBranch(x: uint32)
    requires Minute <= x < Hour
    ensures var minutes := x / Minute;
            var minutesPlus := Add32(x, 1) / Minute;
            && (minutesPlus > minutes ==> Mul32(minutesPlus, Minute) == RoundUpWithin(x, Minute, 1))
            && (minutesPlus <= minutes ==> x == RoundUpWithin(x, Minute, 1))
  {
  }

  /** Quantising twice is the same as quantising once. */
  lemma QuantiseIdempotent(x: uint32)
    ensures Quantise(Quantise(x)) == Quantise(x)
  {
  }

  /** Worked values of the policy, hour and minute margins included. */
  lemma QuantiseExamples()
    ensures Quantise(59) == 59 && Quantise(60) == 60 && Quantise(61) == 61
    ensures Quantise(119) == 120 && Quantise(3550) == 3550 && Quantise(3599) == 3600
    ensures Quantise(3600) == 3600 && Quantise(3601) == 3601 && Quantise(7140) == 7200
    ensures Quantise(5400) == 5400 && Quantise(3540) == 3540
  {
  }
}
