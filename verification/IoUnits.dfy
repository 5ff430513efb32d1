/** The life of a job's io_us: free, busy, requeued, waiting for a verify thread, or with one (io_u.c, verify.c). */
module IoUnits {
  import opened Lists
  import opened Basics

  class IoU {
    /** IO_U_F_FREE, IO_U_F_FREE_DEF, IO_U_F_IN_CUR_DEPTH and IO_U_F_FLIGHT */
    var free: bool
    var freeDef: bool
    var inCurDepth: bool
    var flight: bool

    constructor ()
      ensures free
    {
      free, freeDef, inCurDepth, flight := true, false, false, false;
    }
  }

  datatype Place = Free | Busy | Requeued | Waiting | With(verifier: nat)

  /** The list holds exactly the units in place p, each once. */
  ghost predicate Names(list: seq<IoU>, place: map<IoU, Place>, p: Place)
  {
    NoDup(list) && (forall u <- list :: u in place && place[u] == p)
      && (forall u <- place :: place[u] == p ==> u in list)
  }

  /** A unit leaves one list and joins another. */
  lemma Moved(from: seq<IoU>, to: seq<IoU>, place: map<IoU, Place>, u: IoU, p: Place)
    requires u in place && Names(from, place, place[u]) && Names(to, place, p) && place[u] != p
    ensures Names(Unlink(from, u), place[u := p], place[u])
    ensures Names(to + [u], place[u := p], p) && Names([u] + to, place[u := p], p)
  {
    var n := [u] + to;
    assert forall x <- to :: x in n;
    assert forall i | 0 < i < |n| :: n[i] == to[i - 1];
  }

  lemma Elsewhere(list: seq<IoU>, place: map<IoU, Place>, u: IoU, p: Place, q: Place)
    requires u in place && Names(list, place, q) && place[u] != q && p != q
    ensures Names(list, place[u := p], q)
  {}

  /** All lists of a job. */
  datatype Queues = Queues(free: seq<IoU>, busy: seq<IoU>, requeued: seq<IoU>, waiting: seq<IoU>, taken: seq<seq<IoU>>)
  {
    ghost predicate Has(p: Place)
    {
      p.With? ==> p.verifier < |taken|
    }

    ghost function At(p: Place): seq<IoU>
      requires Has(p)
    {
      match p
      case Free => free
      case Busy => busy
      case Requeued => requeued
      case Waiting => waiting
      case With(v) => taken[v]
    }

    /** Every unit is on exactly one list. */
    ghost predicate Consistent(place: map<IoU, Place>)
    {
      && (forall u <- place :: Has(place[u]))
      && (forall p | Has(p) :: Names(At(p), place, p))
    }
  }

  /** In a consistent job no unit is on two lists, and every unit is on one. */
  lemma OnExactlyOne(q: Queues, place: map<IoU, Place>, u: IoU, p: Place)
    requires q.Consistent(place) && q.Has(p)
    ensures u in q.At(p) <==> u in place && place[u] == p
  {
    assert Names(q.At(p), place, p);
  }

  /** Moving one unit keeps the lists consistent. */
  lemma MoveKeeps(q: Queues, r: Queues, place: map<IoU, Place>, u: IoU, p: Place)
    requires q.Consistent(place) && u in place && place[u] != p && q.Has(p) && |r.taken| == |q.taken|
    requires r.At(place[u]) == Unlink(q.At(place[u]), u)
    requires r.At(p) == q.At(p) + [u] || r.At(p) == [u] + q.At(p)
    requires forall o | q.Has(o) && o != place[u] && o != p :: r.At(o) == q.At(o)
    ensures r.Consistent(place[u := p])
  {
    hide Names, Queues.At;
    var here := place[u];
    assert Names(q.At(here), place, here) && Names(q.At(p), place, p);
    Moved(q.At(here), q.At(p), place, u, p);
    forall o | r.Has(o) ensures Names(r.At(o), place[u := p], o) {
      assert Names(q.At(o), place, o);
      if o != here && o != p {
        Elsewhere(q.At(o), place, u, p, o);
      }
    }
  }

  class Job {
    const units: set<IoU>
    var freelist: seq<IoU>
    var busylist: seq<IoU>
    var requeues: seq<IoU>
    var verifyList: seq<IoU>
    /** The lists that the verify threads work on. */
    var taken: seq<seq<IoU>>
    var curDepth: nat
    /** Ghost: where each unit is. */
    ghost var place: map<IoU, Place>

    ghost function Lists(): Queues
      reads this
    {
      Queues(freelist, busylist, requeues, verifyList, taken)
    }

    /** What the flags say; IN_CUR_DEPTH is stale on free and requeued units. */
    ghost predicate Flagged(u: IoU, p: Place)
      reads u
    {
      match p
      case Free => u.free
      case Requeued => u.free
      case Busy => !u.free && u.inCurDepth && !u.freeDef
      case _ => !u.free && !u.inCurDepth && u.freeDef
    }

    ghost predicate Valid()
      reads this, units
    {
      && place.Keys == units && Lists().Consistent(place) && curDepth == |busylist|
      && forall u <- units :: Flagged(u, place[u])
    }

    /** The lists, the flags of u and its place have changed together. */
    lemma Settled(q: Queues, was: map<IoU, Place>, u: IoU, p: Place)
      requires q.Consistent(was) && was.Keys == units && u in was && was[u] != p && q.Has(p) && place == was[u := p]
      requires |taken| == |q.taken| && Lists().At(was[u]) == Unlink(q.At(was[u]), u)
      requires Lists().At(p) == q.At(p) + [u] || Lists().At(p) == [u] + q.At(p)
      requires forall o | q.Has(o) && o != was[u] && o != p :: Lists().At(o) == q.At(o)
      requires forall x <- units :: Flagged(x, place[x])
      requires curDepth == |busylist|
      ensures Valid()
    {
      MoveKeeps(q, Lists(), was, u, p);
    }

    /** __get_io_u: a requeued unit if there is one, else a free one. The unit it finds is always marked free. */
    method GetIoU() returns (r: Option<IoU>)
      requires Valid()
      modifies this, units
      ensures Valid()
      ensures r.None? <==> old(requeues) == [] && old(freelist) == []
      ensures r.None? ==> Lists() == old(Lists()) && curDepth == old(curDepth)
      ensures r.Some? ==>
                r.value == (if old(requeues) != [] then old(requeues)[0] else old(freelist)[0]) && r.value in units
      ensures r.Some? ==> busylist == [r.value] + old(busylist) && curDepth == old(curDepth) + 1
      ensures r.Some? && old(requeues) != []
              ==> Lists() == old(Lists()).(busy := busylist, requeued := old(requeues)[1..])
      ensures r.Some? && old(requeues) == [] ==> Lists() == old(Lists()).(busy := busylist, free := old(freelist)[1..])
    {
      hide Queues.Consistent;
      ghost var q, was := Lists(), place;
      if requeues == [] && freelist == [] {
        return None;
      }
      var u := if requeues != [] then requeues[0] else freelist[0];
      Found(u, if requeues != [] then Requeued else Free);
      assert u.free;
      u.free, u.freeDef := false, false;
      if requeues != [] {
        requeues := Unlink(requeues, u);
      } else {
        freelist := Unlink(freelist, u);
      }
      busylist := [u] + busylist;
      curDepth := curDepth + 1;
      u.inCurDepth := true;
      place := place[u := Busy];
      Settled(q, was, u, Busy);
      r := Some(u);
    }

    lemma Found(u: IoU, p: Place)
      requires Valid() && Lists().Has(p) && u in Lists().At(p)
      ensures u in place && u in units && place[u] == p && NoDup(Lists().At(p))
    {
      OnExactlyOne(Lists(), place, u, p);
      assert Names(Lists().At(p), place, p);
    }

    /** init_io_u: every unit is free. */
    constructor (units: set<IoU>, order: seq<IoU>, verifiers: nat)
      requires NoDup(order) && (forall u <- order :: u in units) && (forall u <- units :: u in order && u.free)
      ensures Valid() && this.units == units && |taken| == verifiers && freelist == order && curDepth == 0
    {
      this.units := units;
      freelist, busylist, requeues, verifyList, curDepth := order, [], [], [], 0;
      taken := seq(verifiers, _ => []);
      place := map u | u in units :: Free;
    }

    /** put_io_u of a unit that is busy, or that verifier v has just unlinked from its list. */
    method PutIoU(u: IoU, ghost q: Queues)
      requires u in place && place.Keys == units && q.Consistent(place) && (place[u].Busy? || place[u].With?)
      requires Lists() == if place[u].With? then q.(taken := q.taken[place[u].verifier := Unlink(q.At(place[u]), u)])
               else q
      requires curDepth == |busylist| && forall x <- units :: Flagged(x, place[x])
      modifies `busylist, `freelist, `curDepth, `place, u
      ensures Valid() && place == old(place)[u := Free] && freelist == [u] + old(freelist) && !u.freeDef
      ensures busylist == Unlink(old(busylist), u)
    {
      hide Queues.Consistent;
      ghost var was := place;
      PutLinks(u, q);
      u.freeDef := false;
      u.free := true;
      if u.inCurDepth {
        curDepth := curDepth - 1;
      }
      busylist := Unlink(busylist, u);
      freelist := [u] + freelist;
      place := place[u := Free];
      Settled(q, was, u, Free);
    }

    lemma PutLinks(u: IoU, q: Queues)
      requires u in place && q.Consistent(place) && (place[u].Busy? || place[u].With?)
      ensures place[u].Busy? <==> u in q.busy
      ensures NoDup(q.busy) && q.Has(place[u])
    {
      OnExactlyOne(q, place, u, Busy);
      assert Names(q.At(Busy), place, Busy);
    }

    /** requeue_io_u */
    method RequeueIoU(u: IoU)
      requires Valid() && u in place && place[u] == Busy
      modifies `busylist, `requeues, `curDepth, `place, u
      ensures Valid() && place == old(place)[u := Requeued] && !u.flight
      ensures busylist == Unlink(old(busylist), u) && requeues == old(requeues) + [u]
    {
      hide Queues.Consistent;
      ghost var q, was := Lists(), place;
      PutLinks(u, q);
      u.free := true;
      u.flight := false;
      if u.inCurDepth {
        curDepth := curDepth - 1;
      }
      busylist := Unlink(busylist, u);
      requeues := requeues + [u];
      place := place[u := Requeued];
      Settled(q, was, u, Requeued);
    }

    /** verify_io_u_async: the unit is left for a verify thread. */
    method VerifyIoUAsync(u: IoU)
      requires Valid() && u in place && place[u] == Busy
      modifies `busylist, `verifyList, `curDepth, `place, u
      ensures Valid() && place == old(place)[u := Waiting] && u.freeDef
      ensures busylist == Unlink(old(busylist), u) && verifyList == old(verifyList) + [u]
    {
      hide Queues.Consistent;
      ghost var q, was := Lists(), place;
      PutLinks(u, q);
      if u.inCurDepth {
        curDepth := curDepth - 1;
        u.inCurDepth := false;
      }
      busylist := Unlink(busylist, u);
      verifyList := verifyList + [u];
      u.freeDef := true;
      place := place[u := Waiting];
      Settled(q, was, u, Waiting);
    }

    /** The completion of one unit: its end_io may leave it for a verify thread; otherwise it is put back. */
    method Complete(u: IoU, async: bool)
      requires Valid() && u in place && place[u] == Busy
      modifies `busylist, `verifyList, `freelist, `curDepth, `place, u
      ensures Valid() && place == old(place)[u := if async then Waiting else Free]
      ensures curDepth == old(curDepth) - 1 && busylist == Unlink(old(busylist), u)
      ensures if async then verifyList == old(verifyList) + [u] && freelist == old(freelist)
              else freelist == [u] + old(freelist) && verifyList == old(verifyList)
    {
      hide Queues.Consistent;
      PutLinks(u, Lists());
      if async {
        VerifyIoUAsync(u);
      }
      if !u.freeDef {
        PutIoU(u, Lists());
      }
    }

    /** A verify thread with nothing left to do takes the whole verify list. */
    method TakeVerifyList(v: nat)
      requires Valid() && v < |taken| && taken[v] == []
      modifies `verifyList, `taken, `place
      ensures Valid() && verifyList == [] && taken == old(taken)[v := old(verifyList)]
    {
      hide Queues.Consistent;
      ghost var q, was := Lists(), place;
      taken := taken[v := verifyList];
      verifyList := [];
      place := map u | u in was :: if was[u] == Waiting then With(v) else was[u];
      TakeKeeps(q, was, v);
    }

    lemma TakeKeeps(q: Queues, was: map<IoU, Place>, v: nat)
      requires q.Consistent(was) && v < |q.taken| && q.taken[v] == []
      requires Lists() == q.(taken := q.taken[v := q.waiting], waiting := [])
      requires place == map u | u in was :: if was[u] == Waiting then With(v) else was[u]
      ensures Lists().Consistent(place)
    {
      var r := Lists();
      assert Names(q.At(Waiting), was, Waiting) && Names(q.At(With(v)), was, With(v));
      forall o | r.Has(o) ensures Names(r.At(o), place, o) {
        assert Names(q.At(o), was, o);
      }
    }

    /** A verify thread is done with the first unit of its list, and puts it back. */
    method FinishVerify(v: nat) returns (u: IoU)
      requires Valid() && v < |taken| && taken[v] != []
      modifies this, units
      ensures Valid() && u == old(taken)[v][0] && taken == old(taken)[v := old(taken)[v][1..]]
      ensures freelist == [u] + old(freelist) && curDepth == old(curDepth) && busylist == old(busylist)
      ensures requeues == old(requeues) && verifyList == old(verifyList)
    {
      hide Queues.Consistent;
      ghost var q := Lists();
      u := taken[v][0];
      Found(u, With(v));
      NotBusy(u);
      taken := taken[v := taken[v][1..]];
      PutIoU(u, q);
    }

    lemma NotBusy(u: IoU)
      requires Valid() && u in place && place[u] != Busy
      ensures u !in busylist
    {
      OnExactlyOne(Lists(), place, u, Busy);
    }
  }

  // ---- runs ----

  /** One thing that can happen next. */
  datatype Step = Get | Requeue(u: IoU) | Finish(u: IoU, async: bool) | Take(v: nat) | Verified(v: nat)

  /** What a step does to the lists; a step that cannot happen changes nothing. */
  ghost function After(q: Queues, s: Step): Queues
  {
    match s
    case Get =>
      if q.requeued != [] then q.(busy := [q.requeued[0]] + q.busy, requeued := q.requeued[1..])
      else if q.free != [] then q.(busy := [q.free[0]] + q.busy, free := q.free[1..])
      else q
    case Requeue(u) => if u in q.busy then q.(busy := Unlink(q.busy, u), requeued := q.requeued + [u]) else q
    case Finish(u, async) =>
      if u !in q.busy then q
      else if async then q.(busy := Unlink(q.busy, u), waiting := q.waiting + [u])
      else q.(busy := Unlink(q.busy, u), free := [u] + q.free)
    case Take(v) => if v < |q.taken| && q.taken[v] == [] then q.(taken := q.taken[v := q.waiting], waiting := []) else q
    case Verified(v) =>
      if v < |q.taken| && q.taken[v] != []
      then q.(taken := q.taken[v := q.taken[v][1..]], free := [q.taken[v][0]] + q.free)
      else q
  }

  /** The unit that a step hands to the job, if it is a Get that finds one. */
  ghost function Given(q: Queues, s: Step): Option<IoU>
  {
    if !s.Get? || (q.requeued == [] && q.free == []) then None
    else if q.requeued != [] then Some(q.requeued[0])
    else Some(q.free[0])
  }

  ghost function AfterAll(q: Queues, steps: seq<Step>): Queues
  {
    if steps == [] then q else After(AfterAll(q, steps[..|steps| - 1]), steps[|steps| - 1])
  }

  /** How often a unit is on any of the lists. */
  ghost function Count(q: Queues, u: IoU): nat
  {
    multiset(q.free)[u] + multiset(q.busy)[u] + multiset(q.requeued)[u] + multiset(q.waiting)[u]
      + CountTaken(q.taken, u)
  }

  ghost function CountTaken(ls: seq<seq<IoU>>, u: IoU): nat
  {
    if ls == [] then 0 else CountTaken(ls[..|ls| - 1], u) + multiset(ls[|ls| - 1])[u]
  }

  lemma {:induction false} CountUpdate(ls: seq<seq<IoU>>, v: nat, l: seq<IoU>, u: IoU)
    requires v < |ls|
    ensures CountTaken(ls[v := l], u) + multiset(ls[v])[u] == CountTaken(ls, u) + multiset(l)[u]
  {
    var n := |ls| - 1;
    if v == n {
      assert ls[v := l][..n] == ls[..n];
    } else {
      assert ls[v := l][..n] == ls[..n][v := l];
      CountUpdate(ls[..n], v, l, u);
    }
  }

  lemma {:induction false} CountUnlink(s: seq<IoU>, x: IoU, rest: seq<IoU>, u: IoU)
    requires x in s && rest == Unlink(s, x)
    ensures multiset(rest)[u] + multiset([x])[u] == multiset(s)[u]
  {
    CountHead(s, u);
    if s[0] != x {
      CountUnlink(s[1..], x, rest[1..], u);
      CountHead(rest, u);
    }
  }

  lemma CountHead(s: seq<IoU>, u: IoU)
    requires s != []
    ensures multiset([s[0]])[u] + multiset(s[1..])[u] == multiset(s)[u]
  {
    assert s == [s[0]] + s[1..];
  }

  lemma CountJoin(s: seq<IoU>, t: seq<IoU>, u: IoU)
    ensures multiset(s + t)[u] == multiset(s)[u] + multiset(t)[u]
  {}

  lemma CountMoved(from: seq<IoU>, to: seq<IoU>, x: IoU, rest: seq<IoU>, u: IoU)
    requires x in from && rest == Unlink(from, x)
    ensures multiset(rest)[u] + multiset(to + [x])[u] == multiset(from)[u] + multiset(to)[u]
    ensures multiset(rest)[u] + multiset([x] + to)[u] == multiset(from)[u] + multiset(to)[u]
  {
    CountUnlink(from, x, rest, u);
    CountAdded(to, x, u);
    CountJoin([x], to, u);
  }

  lemma CountAdded(s: seq<IoU>, x: IoU, u: IoU)
    ensures multiset(s + [x])[u] == multiset(s)[u] + multiset([x])[u]
  {
    assert multiset(s + [x]) == multiset(s) + multiset([x]);
  }

  lemma GetConserves(q: Queues, u: IoU)
    ensures Count(After(q, Get), u) == Count(q, u)
  {
    hide CountTaken;
    if q.requeued != [] {
      CountHead(q.requeued, u);
      CountJoin([q.requeued[0]], q.busy, u);
    } else if q.free != [] {
      CountHead(q.free, u);
      CountJoin([q.free[0]], q.busy, u);
    }
  }

  lemma RequeueConserves(q: Queues, x: IoU, u: IoU)
    ensures Count(After(q, Requeue(x)), u) == Count(q, u)
  {
    hide CountTaken;
    if x in q.busy {
      CountMoved(q.busy, q.requeued, x, After(q, Requeue(x)).busy, u);
    }
  }

  lemma FinishConserves(q: Queues, x: IoU, async: bool, u: IoU)
    ensures Count(After(q, Finish(x, async)), u) == Count(q, u)
  {
    hide CountTaken;
    if x in q.busy {
      CountMoved(q.busy, if async then q.waiting else q.free, x, After(q, Finish(x, async)).busy, u);
    }
  }

  lemma VerifyConserves(q: Queues, v: nat, u: IoU)
    ensures Count(After(q, Take(v)), u) == Count(q, u) && Count(After(q, Verified(v)), u) == Count(q, u)
  {
    hide CountTaken;
    if v < |q.taken| {
      CountUpdate(q.taken, v, q.waiting, u);
      if q.taken[v] != [] {
        CountUpdate(q.taken, v, q.taken[v][1..], u);
        CountHead(q.taken[v], u);
        CountJoin([q.taken[v][0]], q.free, u);
      }
    }
  }

  /** No step loses a unit or makes one up. */
  lemma AfterConserves(q: Queues, s: Step, u: IoU)
    ensures Count(After(q, s), u) == Count(q, u)
  {
    hide Count, After;
    match s
    case Get => GetConserves(q, u);
    case Requeue(x) => RequeueConserves(q, x, u);
    case Finish(x, async) => FinishConserves(q, x, async, u);
    case Take(v) => VerifyConserves(q, v, u);
    case Verified(v) => VerifyConserves(q, v, u);
  }

  /** Over every run each unit is on the lists as often as it was at the start. */
  lemma {:induction false} RunConserves(q: Queues, steps: seq<Step>, u: IoU)
    ensures Count(AfterAll(q, steps), u) == Count(q, u)
  {
    hide Count, After;
    if steps != [] {
      RunConserves(q, steps[..|steps| - 1], u);
      AfterConserves(AfterAll(q, steps[..|steps| - 1]), steps[|steps| - 1], u);
    }
  }

  lemma RunStep(q: Queues, steps: seq<Step>, i: nat)
    requires i < |steps|
    ensures AfterAll(q, steps[..i + 1]) == After(AfterAll(q, steps[..i]), steps[i])
  {
    assert steps[..i + 1][..i] == steps[..i];
  }

  /**
    Every run, whatever the order of its steps: the lists are those that the steps lead to, each unit
    is on exactly one of them, and cur_depth is the length of the busy list.
   */
  method Run(job: Job, steps: seq<Step>) returns (given: seq<Option<IoU>>)
    requires job.Valid()
    modifies job, job.units
    ensures job.Valid() && job.Lists() == AfterAll(old(job.Lists()), steps)
    ensures job.curDepth == |AfterAll(old(job.Lists()), steps).busy|
    ensures |given| == |steps| && forall i | 0 <= i < |steps| ::
              given[i] == Given(AfterAll(old(job.Lists()), steps[..i]), steps[i])
  {
    hide AfterAll;
    given := [];
    ghost var q := job.Lists();
    NoSteps(q);
    assert steps[..0] == [];
    for i := 0 to |steps|
      invariant job.Valid() && job.Lists() == AfterAll(q, steps[..i]) && |given| == i
      invariant forall k | 0 <= k < i :: given[k] == Given(AfterAll(q, steps[..k]), steps[k])
    {
      RunStep(q, steps, i);
      var r := TakeStep(job, steps[i]);
      given := given + [r];
    }
    assert steps[..|steps|] == steps;
    DepthIsBusy(job);
  }

  lemma NoSteps(q: Queues)
    ensures AfterAll(q, []) == q
  {}

  lemma DepthIsBusy(job: Job)
    requires job.Valid()
    ensures job.curDepth == |job.Lists().busy|
  {}

  method TakeStep(job: Job, s: Step) returns (r: Option<IoU>)
    requires job.Valid()
    modifies job, job.units
    ensures job.Valid() && job.Lists() == After(old(job.Lists()), s) && r == Given(old(job.Lists()), s)
  {
    hide Job.Valid, Unlink;
    r := None;
    match s
    case Get =>
      r := job.GetIoU();
    case Requeue(u) =>
      if u in job.busylist {
        job.Found(u, Busy);
        job.RequeueIoU(u);
      }
    case Finish(u, async) =>
      if u in job.busylist {
        job.Found(u, Busy);
        job.Complete(u, async);
      }
    case Take(v) =>
      if v < |job.taken| && job.taken[v] == [] {
        job.TakeVerifyList(v);
      }
    case Verified(v) =>
      if v < |job.taken| && job.taken[v] != [] {
        var u := job.FinishVerify(v);
      }
  }
}
