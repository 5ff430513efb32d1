/** What the steps of the write history for fixed block sizes come to, in terms of what was logged. */
module HistoryMeaning {
  import opened TreeOrder
  import opened HistorySpec
  import opened Lists
  import opened Basics

  /** The writes among the steps, in order. */
  function Logs<V>(steps: seq<Step<V>>): (r: seq<Step<V>>)
    ensures forall s <- r :: s.Log?
  {
    if steps == [] then []
    else
      var s := steps[|steps| - 1];
      Logs(steps[..|steps| - 1]) + if s.Log? then [s] else []
  }

  /** The entry was recorded by the write with its number. */
  ghost predicate FromLog<V>(e: Entry<V>, logs: seq<Step<V>>)
  {
    && e.id < |logs| && logs[e.id].Log?
    && e.key == logs[e.id].key && e.len == logs[e.id].len && e.version == logs[e.id].version
  }

  /** A sorted entry: no later sorted write has its key. */
  ghost predicate Newest<V>(e: Entry<V>, logs: seq<Step<V>>)
  {
    && FromLog(e, logs) && logs[e.id].mode.UsesTree()
    && forall j | e.id < j < |logs| && logs[j].Log? && logs[j].mode.UsesTree() :: logs[j].key != e.key
  }

  ghost predicate Waiting<V>(e: Entry<V>, logs: seq<Step<V>>)
  {
    FromLog(e, logs) && !logs[e.id].mode.UsesTree()
  }

  ghost predicate KeysRise<V>(s: seq<Entry<V>>)
  {
    forall i, j | 0 <= i < j < |s| :: s[i].key.Below(s[j].key)
  }

  ghost predicate NumbersRise<V>(s: seq<Entry<V>>)
  {
    forall i, j | 0 <= i < j < |s| :: s[i].id < s[j].id
  }

  ghost predicate Rise(s: seq<nat>)
  {
    forall i, j | 0 <= i < j < |s| :: s[i] < s[j]
  }

  /** What the state says about the writes so far. */
  ghost predicate Means<V>(a: Abs<V>, logs: seq<Step<V>>)
  {
    && a.next == |logs| && KeysRise(a.sorted) && NumbersRise(a.queue) && Rise(a.trim)
    && (forall e <- a.sorted :: Newest(e, logs))
    && (forall e <- a.queue :: Waiting(e, logs))
    && (forall id <- a.trim :: id < |logs| && logs[id].Log? && logs[id].shouldTrim)
  }

  // ---- every step keeps this ----

  lemma LogsStep<V>(steps: seq<Step<V>>, s: Step<V>)
    ensures Logs(steps + [s]) == Logs(steps) + if s.Log? then [s] else []
  {
    assert (steps + [s])[..|steps|] == steps;
  }

  /** Where a key belongs among rising keys. */
  lemma {:induction false} PlaceOf<V>(s: seq<Entry<V>>, k: Key)
    returns (a: seq<Entry<V>>, mid: seq<Entry<V>>, b: seq<Entry<V>>)
    requires KeysRise(s)
    ensures s == a + mid + b && |mid| <= 1 && (forall x <- mid :: x.key == k)
    ensures (forall x <- a :: x.key.Below(k)) && (forall x <- b :: k.Below(x.key))
  {
    hide KeysRise;
    if s == [] {
      a, mid, b := [], [], [];
    } else {
      KeysAfter(s);
      var c, m, d := PlaceOf(s[1..], k);
      if s[0].key.Below(k) {
        a, mid, b := [s[0]] + c, m, d;
        assert s == [s[0]] + (c + m + d) == a + mid + b;
      } else if s[0].key == k {
        a, mid, b := [], [s[0]], s[1..];
      } else {
        a, mid, b := [], [], s;
      }
    }
  }

  lemma KeysAfter<V>(s: seq<Entry<V>>)
    requires KeysRise(s) && s != []
    ensures KeysRise(s[1..]) && forall e <- s[1..] :: s[0].key.Below(e.key)
  {}

  lemma NumbersAfter<V>(s: seq<Entry<V>>)
    requires NumbersRise(s) && s != []
    ensures NumbersRise(s[1..]) && forall e <- s[1..] :: s[0].id < e.id
  {}

  lemma InFront<V>(x: Entry<V>, s: seq<Entry<V>>)
    ensures KeysRise(s) && (forall e <- s :: x.key.Below(e.key)) ==> KeysRise([x] + s)
    ensures NumbersRise(s) && (forall e <- s :: x.id < e.id) ==> NumbersRise([x] + s)
  {}

  lemma SortedMeans<V>(s: seq<Entry<V>>, logs: seq<Step<V>>, w: Step<V>)
    requires KeysRise(s) && (forall e <- s :: Newest(e, logs)) && w.Log? && w.mode.UsesTree()
    ensures var e, more := Entry(|logs|, w.key, w.len, w.version, false), logs + [w];
            KeysRise(Insert(s, e)) && forall x <- Insert(s, e) :: Newest(x, more)
  {
    hide Mode.UsesTree, Insert;
    var e, more := Entry(|logs|, w.key, w.len, w.version, false), logs + [w];
    var a, mid, b := PlaceOf(s, w.key);
    InsertBetween(a, mid, b, e);
    var r := a + [e] + b;
    RisesBetween(a, mid, b, e);
    forall x | x in r
      ensures Newest(x, more)
    {
      if x != e {
        assert x in s && x.key != w.key;
        assert Newest(x, logs);
      }
    }
  }

  lemma RisesBetween<V>(a: seq<Entry<V>>, mid: seq<Entry<V>>, b: seq<Entry<V>>, e: Entry<V>)
    requires KeysRise(a + mid + b) && (forall x <- a :: x.key.Below(e.key)) && (forall x <- b :: e.key.Below(x.key))
    ensures KeysRise(a + [e] + b)
  {
    var s, r := a + mid + b, a + [e] + b;
    forall i, j | 0 <= i < j < |r|
      ensures r[i].key.Below(r[j].key)
    {
      assert i < |a| ==> r[i] in a && s[i] == r[i];
      assert j > |a| ==> r[j] in b && s[|a| + |mid| + (j - |a| - 1)] == r[j];
      assert i > |a| ==> s[|a| + |mid| + (i - |a| - 1)] == r[i];
      assert j < |a| ==> s[j] == r[j];
    }
  }

  lemma OlderStay<V>(s: seq<Entry<V>>, logs: seq<Step<V>>, w: Step<V>)
    requires w.Log?
    ensures (forall e <- s :: Waiting(e, logs)) ==> forall e <- s :: Waiting(e, logs + [w])
    ensures (forall e <- s :: Newest(e, logs)) && !w.mode.UsesTree() ==> forall e <- s :: Newest(e, logs + [w])
  {
    hide Mode.UsesTree;
  }

  lemma {:induction false} WithoutMeans<V>(s: seq<Entry<V>>, id: nat)
    ensures forall e <- Without(s, id) :: e in s
    ensures KeysRise(s) ==> KeysRise(Without(s, id))
    ensures NumbersRise(s) ==> NumbersRise(Without(s, id))
  {
    hide KeysRise, NumbersRise, Without;
    if s == [] {
      WithoutNothing(s, id);
    } else {
      var t := s[1..];
      WithoutMeans(t, id);
      WithoutStep(s, id);
      if KeysRise(s) {
        KeysAfter(s);
      }
      if NumbersRise(s) {
        NumbersAfter(s);
      }
      InFront(s[0], Without(t, id));
    }
  }

  lemma MarkedMeans<V>(s: seq<Entry<V>>, id: nat, logs: seq<Step<V>>)
    ensures KeysRise(s) ==> KeysRise(Marked(s, id))
    ensures NumbersRise(s) ==> NumbersRise(Marked(s, id))
    ensures (forall e <- s :: Newest(e, logs)) ==> forall e <- Marked(s, id) :: Newest(e, logs)
    ensures (forall e <- s :: Waiting(e, logs)) ==> forall e <- Marked(s, id) :: Waiting(e, logs)
  {
    hide Mode.UsesTree;
    var m := Marked(s, id);
    forall e | e in m
      ensures (forall x <- s :: Newest(x, logs)) ==> Newest(e, logs)
      ensures (forall x <- s :: Waiting(x, logs)) ==> Waiting(e, logs)
    {
      var i :| 0 <= i < |m| && m[i] == e;
      assert s[i] in s;
    }
  }

  lemma {:induction false} UnlinkRises(s: seq<nat>, x: nat)
    requires Rise(s)
    ensures Rise(Unlink(s, x)) && forall y <- Unlink(s, x) :: y in s
  {
    hide NoDup, Rise, Unlink;
    if s == [] {
      UnlinkNone(x);
    } else {
      RiseAfter(s);
      if s[0] == x {
        UnlinkFirst(s, x);
      } else {
        UnlinkRises(s[1..], x);
        UnlinkOther(s, x);
        RiseInFront(s[0], Unlink(s[1..], x));
      }
    }
  }

  lemma RiseAfter(s: seq<nat>)
    requires Rise(s) && s != []
    ensures Rise(s[1..]) && forall y <- s[1..] :: s[0] < y
  {}

  lemma RiseInFront(x: nat, s: seq<nat>)
    requires Rise(s) && forall y <- s :: x < y
    ensures Rise([x] + s)
  {
    assert forall i | 0 <= i < |s| :: s[i] in s;
  }

  lemma RiseMore(s: seq<nat>, x: nat)
    requires Rise(s) && forall y <- s :: y < x
    ensures Rise(s + [x])
  {
    assert forall i | 0 <= i < |s| :: s[i] in s;
  }

  lemma UnlinkNone(x: nat)
    ensures Unlink([], x) == []
  {}

  lemma LogMeans<V>(a: Abs<V>, logs: seq<Step<V>>, s: Step<V>)
    requires Means(a, logs) && s.Log?
    ensures Means(Stepped(a, s), logs + [s])
  {
    hide Mode.UsesTree, Newest, Waiting, Insert, KeysRise, NumbersRise, Rise, Unlink;
    RiseMore(a.trim, a.next);
    OlderStay(a.sorted, logs, s);
    OlderStay(a.queue, logs, s);
    var e := Entry(a.next, s.key, s.len, s.version, false);
    var trim := if s.shouldTrim then a.trim + [a.next] else a.trim;
    if s.mode.UsesTree() {
      SortedMeans(a.sorted, logs, s);
      var d := Same(a.sorted, s.key);
      if d.Some? {
        UnlinkRises(trim, d.value.id);
      }
    } else {
      QueuedMeans(a.queue, logs, s);
    }
  }

  lemma QueuedMeans<V>(q: seq<Entry<V>>, logs: seq<Step<V>>, s: Step<V>)
    requires NumbersRise(q) && (forall e <- q :: Waiting(e, logs)) && s.Log? && !s.mode.UsesTree()
    ensures var e := Entry(|logs|, s.key, s.len, s.version, false);
            NumbersRise(q + [e]) && forall x <- q + [e] :: Waiting(x, logs + [s])
  {
    hide Mode.UsesTree;
    assert forall i | 0 <= i < |q| :: q[i] in q;
  }

  lemma TakeMeans<V>(a: Abs<V>, logs: seq<Step<V>>, s: Step<V>)
    requires Means(a, logs) && !s.Log?
    ensures Means(Stepped(a, s), logs)
  {
    match s
    case Verify => VerifyMeans(a, logs);
    case Trim(zero) => TrimMeans(a, logs, zero);
  }

  lemma VerifyMeans<V>(a: Abs<V>, logs: seq<Step<V>>)
    requires Means(a, logs)
    ensures Means(Stepped(a, Verify), logs)
  {
    hide Newest, Waiting, Unlink, Rise;
    if a.sorted != [] {
      UnlinkRises(a.trim, a.sorted[0].id);
    } else if a.queue != [] {
      UnlinkRises(a.trim, a.queue[0].id);
    }
  }

  lemma TrimMeans<V>(a: Abs<V>, logs: seq<Step<V>>, zero: bool)
    requires Means(a, logs)
    ensures Means(Stepped(a, Trim(zero)), logs)
  {
    hide Newest, Waiting, Without, Marked, KeysRise, NumbersRise, Rise;
    if a.trim != [] {
      var id := a.trim[0];
      RiseAfter(a.trim);
      assert forall x <- a.trim[1..] :: x in a.trim;
      MarkedMeans(a.sorted, id, logs);
      MarkedMeans(a.queue, id, logs);
      WithoutMeans(a.sorted, id);
      WithoutMeans(a.queue, id);
    }
  }

  /** In every run, the state means what was logged. */
  lemma {:induction false} RunMeans<V>(steps: seq<Step<V>>)
    ensures Means(SteppedAll(Abs([], [], [], 0), steps), Logs(steps))
  {
    hide Means, Stepped;
    if steps == [] {
      NothingMeant<V>();
    } else {
      var n := |steps| - 1;
      var pre, s := steps[..n], steps[n];
      assert steps == pre + [s];
      RunMeans(pre);
      LogsStep(pre, s);
      var a := SteppedAll(Abs([], [], [], 0), pre);
      if s.Log? {
        LogMeans(a, Logs(pre), s);
      } else {
        assert Logs(steps) == Logs(pre);
        TakeMeans(a, Logs(pre), s);
      }
    }
  }

  lemma NothingMeant<V>()
    ensures Means<V>(Abs([], [], [], 0), [])
  {}

  // ---- what is handed out ----

  /** The handout tells of write number id. */
  ghost predicate Tells<V>(h: Handout<V>, logs: seq<Step<V>>, id: nat)
  {
    && id < |logs| && logs[id].Log?
    && h.key == logs[id].key && h.len == logs[id].len && h.version == logs[id].version
  }

  /** It tells of the last write with its key. */
  ghost predicate TellsLast<V>(h: Handout<V>, logs: seq<Step<V>>, id: nat)
  {
    Tells(h, logs, id) && forall j | id < j < |logs| :: logs[j].Log? ==> logs[j].key != h.key
  }

  /** All writes of the job are logged in the same mode. */
  ghost predicate OneMode<V>(steps: seq<Step<V>>, m: Mode)
  {
    forall s <- steps :: s.Log? ==> s.mode == m
  }

  /** A job that can write a key twice (overwriting at random, verifying without a map of what was written or beside
      it, or with many writes in sequence), or that asks for sorted reads. */
  ghost predicate Sorting(m: Mode)
  {
    || (m.random && m.overwrite) || (m.verifies && !m.randomMap) || (m.verifies && m.randomAgain)
    || m.manyInSequence || m.verifySort
  }

  /** A job with none of these. */
  ghost predicate Queueing(m: Mode)
  {
    && !m.verifySort && !m.manyInSequence && (m.random ==> !m.overwrite)
    && (m.verifies ==> m.randomMap && !m.randomAgain)
  }

  lemma {:induction false} LogsMode<V>(steps: seq<Step<V>>, m: Mode)
    requires OneMode(steps, m)
    ensures forall s <- Logs(steps) :: s.mode == m
  {
    if steps != [] {
      LogsMode(steps[..|steps| - 1], m);
    }
  }

  /** Every piece handed out, to verify or to trim, is one that was logged, with its key, length and version. */
  lemma HandoutTells<V>(steps: seq<Step<V>>, s: Step<V>)
    ensures var a, logs := SteppedAll(Abs([], [], [], 0), steps), Logs(steps);
            Given(a, s).Some? ==>
              exists id: nat :: Tells(Given(a, s).value, logs, id) && (s.Trim? ==> logs[id].shouldTrim)
  {
    hide Mode.UsesTree, SteppedAll;
    var a, logs := SteppedAll(Abs([], [], [], 0), steps), Logs(steps);
    RunMeans(steps);
    if s.Verify? && (a.sorted != [] || a.queue != []) {
      var e := if a.sorted != [] then a.sorted[0] else a.queue[0];
      assert if a.sorted != [] then e in a.sorted else e in a.queue;
      assert FromLog(e, logs);
      assert Tells(Given(a, s).value, logs, e.id);
    } else if s.Trim? && a.trim != [] {
      var id := a.trim[0];
      assert id in a.trim;
      HolderIn(a.sorted, id);
      HolderIn(a.queue, id);
      assert Given(a, s).Some? ==> Tells(Given(a, s).value, logs, id);
    }
  }

  lemma {:induction false} HolderIn<V>(s: seq<Entry<V>>, id: nat)
    ensures Holder(s, id).Some? ==> Holder(s, id).value in s && Holder(s, id).value.id == id
  {
    if s != [] {
      HolderIn(s[1..], id);
    }
  }

  /**
    A job that can write a key twice, or asks for sorted reads: no key is held twice, none waits in the queue, and a
    verify step hands out the version logged last for its key, with the smallest key first.
   */
  lemma SortingJob<V>(steps: seq<Step<V>>, m: Mode)
    requires OneMode(steps, m)
    requires Sorting(m)
    ensures var a, logs := SteppedAll(Abs([], [], [], 0), steps), Logs(steps);
            && a.queue == []
            && (forall i, j | 0 <= i < j < |a.sorted| ::
                  var k, l := a.sorted[i].key, a.sorted[j].key;
                  k.file < l.file || (k.file == l.file && k.offset < l.offset))
            && (forall e <- a.sorted :: TellsLast(e.AsHandout(), logs, e.id))
            && (Given(a, Verify).Some? ==> exists id: nat :: TellsLast(Given(a, Verify).value, logs, id))
  {
    hide SteppedAll;
    var a, logs := SteppedAll(Abs([], [], [], 0), steps), Logs(steps);
    RunMeans(steps);
    LogsMode(steps, m);
    assert m.UsesTree();
    forall e <- a.sorted
      ensures TellsLast(e.AsHandout(), logs, e.id)
    {
      assert Newest(e, logs);
      assert forall j | e.id < j < |logs| :: logs[j] in logs;
    }
    NoneWaits(a.queue, logs, m);
    if a.sorted != [] {
      assert a.sorted[0] in a.sorted;
    }
  }

  lemma NoneWaits<V>(q: seq<Entry<V>>, logs: seq<Step<V>>, m: Mode)
    requires (forall e <- q :: Waiting(e, logs)) && forall s <- logs :: s.Log? ==> s.mode == m
    ensures m.UsesTree() ==> q == []
  {
    hide Mode.UsesTree;
    if q != [] {
      assert q[0] in q;
      assert logs[q[0].id] in logs;
    }
  }

  lemma NoneSorted<V>(q: seq<Entry<V>>, logs: seq<Step<V>>, m: Mode)
    requires (forall e <- q :: Newest(e, logs)) && forall s <- logs :: s.Log? ==> s.mode == m
    ensures !m.UsesTree() ==> q == []
  {
    hide Mode.UsesTree;
    if q != [] {
      assert q[0] in q;
      assert logs[q[0].id] in logs;
    }
  }

  /** How many verify steps have been handed a piece. */
  ghost function Served<V>(steps: seq<Step<V>>): nat
  {
    if steps == [] then 0
    else
      var n := |steps| - 1;
      var a := SteppedAll(Abs([], [], [], 0), steps[..n]);
      Served(steps[..n]) + if steps[n].Verify? && Given(a, Verify).Some? then 1 else 0
  }

  /** A job with none of the reasons to sort: everything waits in the queue, in the order it was logged. */
  lemma QueueingJob<V>(steps: seq<Step<V>>, m: Mode)
    requires OneMode(steps, m)
    requires Queueing(m)
    ensures var a, logs := SteppedAll(Abs([], [], [], 0), steps), Logs(steps);
            && a.sorted == [] && (forall i, j | 0 <= i < j < |a.queue| :: a.queue[i].id < a.queue[j].id)
            && (forall e <- a.queue :: Tells(e.AsHandout(), logs, e.id))
  {
    hide SteppedAll;
    var a, logs := SteppedAll(Abs([], [], [], 0), steps), Logs(steps);
    RunMeans(steps);
    LogsMode(steps, m);
    assert !m.UsesTree();
    NoneSorted(a.sorted, logs, m);
    forall e <- a.queue
      ensures Tells(e.AsHandout(), logs, e.id)
    {
      assert Waiting(e, logs);
    }
  }

  /** All but the first n pieces wait in the queue, in order. */
  ghost predicate Behind<V>(a: Abs<V>, n: nat)
  {
    && a.sorted == [] && n + |a.queue| == a.next
    && forall i | 0 <= i < |a.queue| :: a.queue[i].id == n + i
  }

  lemma BehindStep<V>(a: Abs<V>, n: nat, s: Step<V>)
    requires Behind(a, n) && !s.Trim? && (s.Log? ==> !s.mode.UsesTree())
    ensures Behind(Stepped(a, s), if s.Verify? && Given(a, s).Some? then n + 1 else n)
  {
    hide Mode.UsesTree;
  }

  lemma ServedStep<V>(steps: seq<Step<V>>, s: Step<V>)
    ensures var a := SteppedAll(Abs([], [], [], 0), steps);
            Served(steps + [s]) == Served(steps) + if s.Verify? && Given(a, s).Some? then 1 else 0
    ensures SteppedAll(Abs([], [], [], 0), steps + [s]) == Stepped(SteppedAll(Abs([], [], [], 0), steps), s)
  {
    hide Stepped, Given;
    assert (steps + [s])[..|steps|] == steps;
  }

  lemma {:induction false} RunBehind<V>(steps: seq<Step<V>>, m: Mode)
    requires OneMode(steps, m) && !m.UsesTree() && forall s <- steps :: !s.Trim?
    ensures Behind(SteppedAll(Abs([], [], [], 0), steps), Served(steps))
  {
    hide Mode.UsesTree, Stepped, Given;
    if steps != [] {
      var n := |steps| - 1;
      var pre, s := steps[..n], steps[n];
      assert steps == pre + [s];
      RunBehind(pre, m);
      ServedStep(pre, s);
      BehindStep(SteppedAll(Abs([], [], [], 0), pre), Served(pre), s);
    }
  }

  /** Without trims, such a job gets its pieces back exactly in the order logged: the next one is number Served. */
  lemma QueueIsFifo<V>(steps: seq<Step<V>>, m: Mode)
    requires OneMode(steps, m) && forall s <- steps :: !s.Trim?
    requires Queueing(m)
    ensures var a, logs := SteppedAll(Abs([], [], [], 0), steps), Logs(steps);
            && (Given(a, Verify).Some? <==> Served(steps) < |logs|)
            && (Given(a, Verify).Some? ==> Tells(Given(a, Verify).value, logs, Served(steps)))
  {
    hide SteppedAll, Served;
    RunBehind(steps, m);
    RunMeans(steps);
    QueueingJob(steps, m);
    var a := SteppedAll(Abs([], [], [], 0), steps);
    if a.queue != [] {
      assert a.queue[0] in a.queue;
    }
  }

  /**
    The piece handed out by step s after the given steps was logged by one of them: to trim, one marked so; to verify,
    the last write with its key if the job sorts, and the next in order if it queues and has not trimmed.
   */
  ghost predicate AsLogged<V>(steps: seq<Step<V>>, s: Step<V>, h: Handout<V>)
  {
    var logs := Logs(steps);
    && (exists id: nat :: Tells(h, logs, id) && (s.Trim? ==> logs[id].shouldTrim))
    && (s.Verify? ==> forall m | OneMode(steps, m) ::
          && (Sorting(m) ==> exists id: nat :: TellsLast(h, logs, id))
          && (Queueing(m) && (forall x <- steps :: !x.Trim?) ==> Tells(h, logs, Served(steps))))
  }

  lemma HandedAsLogged<V>(steps: seq<Step<V>>, s: Step<V>)
    ensures var r := Given(SteppedAll(Abs([], [], [], 0), steps), s);
            r.Some? ==> AsLogged(steps, s, r.value)
  {
    hide SteppedAll, Given, Tells, TellsLast, Logs, Served;
    HandoutTells(steps, s);
    if s.Verify? {
      forall m | OneMode(steps, m)
        ensures var r := Given(SteppedAll(Abs([], [], [], 0), steps), s);
                r.Some? ==>
                  && (Sorting(m) ==> exists id: nat :: TellsLast(r.value, Logs(steps), id))
                  && (Queueing(m) && (forall x <- steps :: !x.Trim?) ==> Tells(r.value, Logs(steps), Served(steps)))
      {
        if Sorting(m) {
          SortingJob(steps, m);
        } else if forall x <- steps :: !x.Trim? {
          QueueIsFifo(steps, m);
        }
      }
    }
  }
}
