/** Where the versions of writes come from: a start time and a serial number (uniques/time_num.c). */
module Uniques {
  import opened Basics
  import opened SegmentLayout

  class TimeNumber {
    var lastTime: nat
    var lastNumber: nat
    /** Ghost: every version given so far. */
    ghost var given: set<Unique>

    ghost predicate Valid()
      reads this
    {
      lastNumber < U32 && (lastNumber > 0 ==> given != {}) && (given != {} ==> Unique(lastTime, 0) in given)
    }

    /** No version so far was given twice: each is older than the next one. */
    ghost predicate Unrepeated()
      reads this
    {
      forall u <- given ::
        u.number < U32 && (u.sec < lastTime || (u.sec == lastTime && (lastNumber > 0 ==> u.number < lastNumber)))
    }

    constructor ()
      ensures Valid() && Unrepeated() && given == {} && lastNumber == 0
    {
      lastTime, lastNumber, given := 0, 0, {};
    }

    /** What fio_time_number_set would give, with the clock at now. */
    function Next(now: nat): Unique
      reads this
    {
      Unique(if lastNumber == 0 then now else lastTime, lastNumber)
    }

    /** A version is new unless the serial number has wrapped around with the clock where it was when it started. */
    lemma NewUnlessWrapped(now: nat)
      requires Valid() && Unrepeated() && (lastNumber == 0 ==> lastTime <= now)
      ensures Next(now) !in given <==> lastNumber > 0 || given == {} || lastTime < now
    {}

    /** fio_time_number_set */
    method Set(now: nat) returns (u: Unique)
      requires Valid()
      modifies this
      ensures Valid() && u == old(Next(now)) && given == old(given) + {u}
      ensures lastNumber == (old(lastNumber) + 1) % U32 && lastTime == u.sec
      ensures old(Unrepeated()) && (old(lastNumber) == 0 ==> old(lastTime) <= now) && u !in old(given) ==> Unrepeated()
    {
      if lastNumber == 0 {
        lastTime := now;
      }
      u := Unique(lastTime, lastNumber);
      lastNumber := (lastNumber + 1) % U32;
      given := given + {u};
    }
  }
}
