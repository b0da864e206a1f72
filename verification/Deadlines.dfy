/** The clock the diff search looks at, and when to give up. */
module Deadlines {
  /** `Never` is the unlimited time of a non-positive timeout. */
  datatype Deadline = Never | By(time: int)

  predicate Past(deadline: Deadline, now: int) {
    deadline.By? && now > deadline.time
  }

  /** A clock: what it shows at each look, and how often it was looked at. */
  class Clock {
    const readings: nat -> int
    var looks: nat

    constructor (readings: nat -> int)
      ensures this.readings == readings && looks == 0
    {
      this.readings, looks := readings, 0;
    }

    method Look() returns (now: int)
      modifies this
      ensures looks == old(looks) + 1 && now == readings(old(looks))
    {
      now := readings(looks);
      looks := looks + 1;
    }
  }

  /** Some look, from the first on and before the second, showed a time past the deadline. */
  ghost predicate WasLate(deadline: Deadline, readings: nat -> int, from: nat, to: nat) {
    exists k: nat :: from <= k < to && Past(deadline, readings(k))
  }

  lemma LateWithin(deadline: Deadline, readings: nat -> int, from: nat, from': nat, to': nat, to: nat)
    requires from <= from' && to' <= to && WasLate(deadline, readings, from', to')
    ensures WasLate(deadline, readings, from, to)
  {
  }

  lemma LateAround(deadline: Deadline, readings: nat -> int, from: nat, mid: nat, to: nat)
    requires from <= mid <= to
    ensures WasLate(deadline, readings, from, mid) || WasLate(deadline, readings, mid, to) ==>
              WasLate(deadline, readings, from, to)
  {
  }
}
