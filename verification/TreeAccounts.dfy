/** What holds of the pieces of the history that are kept in the tree, on the list and on the trim list. */
module TreeAccounts {
  import opened RbShape
  import opened TreeOrder
  import opened Lists
  import opened Basics

  /** A piece was logged into the tree, or left it for good. */
  datatype Event<V> = Logged(key: Key, version: V) | Gone(key: Key)

  /** The last version logged for each key that has not left the tree since. */
  ghost function Latest<V>(trace: seq<Event<V>>): map<Key, V>
  {
    if trace == [] then map[]
    else
      var m := Latest(trace[..|trace| - 1]);
      match trace[|trace| - 1]
      case Logged(k, v) => m[k := v]
      case Gone(k) => m - {k}
  }

  lemma LatestStep<V>(trace: seq<Event<V>>, e: Event<V>)
    ensures Latest(trace + [e]) == if e.Logged? then Latest(trace)[e.key := e.version] else Latest(trace) - {e.key}
  {
    assert (trace + [e])[..|trace|] == trace;
  }

  /** A key that is logged again counts once, with the new version. */
  lemma LoggedAgain<V>(trace: seq<Event<V>>, k: Key, v: V)
    ensures Latest(trace + [Gone(k)] + [Logged(k, v)]) == Latest(trace + [Logged(k, v)])
  {
    LatestStep(trace + [Gone(k)], Logged(k, v));
    LatestStep(trace, Gone(k));
    LatestStep(trace, Logged(k, v));
  }

  /**
    Every piece is in the tree or on the list, never on both, and its flags say where; the pieces in
    limbo are on their way. The trim list names pieces of the history only.
   */
  ghost predicate Accounted<V>(order: seq<RbNode>, list: seq<RbNode>, trim: seq<RbNode>, ps: Pieces<V>,
                               limbo: set<RbNode>)
  {
    && Ascending(order, ps) && NoDup(list) && NoDup(trim)
    && (forall n <- order :: n in ps && n !in limbo && ps[n].onTree && !ps[n].onList)
    && (forall n <- list :: n in ps && n !in limbo && n !in order && ps[n].onList && !ps[n].onTree)
    && (forall n <- limbo :: n in ps && !ps[n].onTree && !ps[n].onList)
    && (forall n <- ps :: n in order || n in list || n in limbo)
    && (forall n <- trim :: n in ps)
  }

  ghost predicate HasKey<V>(order: seq<RbNode>, ps: Pieces<V>, k: Key)
  {
    exists i :: 0 <= i < |order| && order[i] in ps && ps[order[i]].key == k
  }

  /** The tree holds, for each key, the piece logged last, and nothing else. */
  ghost predicate Remembered<V>(order: seq<RbNode>, ps: Pieces<V>, trace: seq<Event<V>>)
  {
    && (forall n <- order :: n in ps && ps[n].key in Latest(trace) && Latest(trace)[ps[n].key] == ps[n].version)
    && (forall k :: k in Latest(trace) ==> HasKey(order, ps, k))
  }

  /** Sorted pieces with key k have this length. */
  ghost predicate SameLength<V>(order: seq<RbNode>, ps: Pieces<V>, k: Key, len: nat)
  {
    forall n <- order :: n in ps && ps[n].key == k ==> ps[n].len == len
  }

  /** The order falls into what lies below k, the piece with key k if there is one, and what lies above. */
  ghost predicate Parted<V>(order: seq<RbNode>, a: seq<RbNode>, same: Option<RbNode>, b: seq<RbNode>, ps: Pieces<V>,
                            k: Key)
  {
    && AllBelow(a, k, ps) && AllAbove(b, k, ps)
    && match same
       case None => order == a + b
       case Some(d) => order == a + [d] + b && d in ps && ps[d].key == k
  }

  /** Without the piece that is to leave, if one is. */
  function Less<V>(ps: Pieces<V>, gone: Option<RbNode>): Pieces<V>
  {
    if gone.Some? then ps - {gone.value} else ps
  }

  function LessOf(s: seq<RbNode>, gone: Option<RbNode>): seq<RbNode>
  {
    if gone.Some? then Unlink(s, gone.value) else s
  }

  /** There is only one place for a key between the others. */
  lemma OnePlace<V>(a: seq<RbNode>, b: seq<RbNode>, c: seq<RbNode>, d: seq<RbNode>, ps: Pieces<V>, k: Key)
    requires a + b == c + d && AllBelow(a, k, ps) && AllAbove(b, k, ps) && AllBelow(c, k, ps) && AllAbove(d, k, ps)
    ensures a == c && b == d
  {
    CrossOver(a, b, c, d);
    CrossOver(c, d, a, b);
    assert a == (a + b)[..|a|] && c == (c + d)[..|c|] && b == (a + b)[|a|..] && d == (c + d)[|c|..];
  }

  lemma CrossOver(a: seq<RbNode>, b: seq<RbNode>, c: seq<RbNode>, d: seq<RbNode>)
    requires a + b == c + d
    ensures |a| < |c| ==> exists x :: x in b && x in c
  {
    if |a| < |c| {
      assert (a + b)[|a|] == b[0] && (c + d)[|a|] == c[|a|];
      assert b[0] in b && b[0] in c;
    }
  }

  lemma AccountNew<V>(order: seq<RbNode>, list: seq<RbNode>, trim: seq<RbNode>, ps: Pieces<V>, n: RbNode, p: Piece<V>)
    requires Accounted(order, list, trim, ps, {}) && n !in ps && !p.onTree && !p.onList
    ensures Accounted(order, list, trim, ps[n := p], {n})
    ensures Accounted(order, list, trim + [n], ps[n := p], {n})
  {
    SameKeys(order, ps, ps[n := p]);
  }

  lemma AccountListed<V>(order: seq<RbNode>, list: seq<RbNode>, trim: seq<RbNode>, ps: Pieces<V>, n: RbNode)
    requires Accounted(order, list, trim, ps, {n})
    ensures Accounted(order, list + [n], trim, ps[n := ps[n].(onList := true)], {})
  {
    SameKeys(order, ps, ps[n := ps[n].(onList := true)]);
  }

  lemma AccountInserted<V>(a: seq<RbNode>, b: seq<RbNode>, list: seq<RbNode>, trim: seq<RbNode>, ps: Pieces<V>,
                           n: RbNode)
    requires Accounted(a + b, list, trim, ps, {n})
    requires AllBelow(a, ps[n].key, ps) && AllAbove(b, ps[n].key, ps)
    ensures Accounted(a + [n] + b, list, trim, ps[n := ps[n].(onTree := true)], {})
  {
    var qs := ps[n := ps[n].(onTree := true)];
    InsertAscending(a, n, b, ps);
    SameKeys(a + [n] + b, ps, qs);
    Between(a, n, b);
  }

  lemma Between(a: seq<RbNode>, n: RbNode, b: seq<RbNode>)
    ensures forall x :: x in a + [n] + b <==> x == n || x in a + b
  {}

  lemma AccountErased<V>(a: seq<RbNode>, n: RbNode, b: seq<RbNode>, list: seq<RbNode>, trim: seq<RbNode>, ps: Pieces<V>,
                         limbo: set<RbNode>)
    requires Accounted(a + [n] + b, list, trim, ps, limbo)
    ensures n in ps && Accounted(a + b, list, Unlink(trim, n), ps - {n}, limbo)
    ensures AllBelow(a, ps[n].key, ps - {n}) && AllAbove(b, ps[n].key, ps - {n})
  {
    RemoveAscending(a, n, b, ps);
    SameKeys(a + b, ps, ps - {n});
    Between(a, n, b);
  }

  lemma AccountUnlisted<V>(order: seq<RbNode>, list: seq<RbNode>, trim: seq<RbNode>, ps: Pieces<V>, n: RbNode)
    requires Accounted(order, list, trim, ps, {}) && n in list
    ensures n in ps && Accounted(order, Unlink(list, n), Unlink(trim, n), ps - {n}, {})
  {
    SameKeys(order, ps, ps - {n});
  }

  lemma AccountTrimmed<V>(order: seq<RbNode>, list: seq<RbNode>, trim: seq<RbNode>, ps: Pieces<V>, n: RbNode)
    requires Accounted(order, list, trim, ps, {}) && n in ps
    ensures Accounted(order, list, Unlink(trim, n), ps[n := ps[n].(trimmed := true)], {})
  {
    SameKeys(order, ps, ps[n := ps[n].(trimmed := true)]);
  }

  lemma RememberSame<V>(order: seq<RbNode>, ps: Pieces<V>, qs: Pieces<V>, trace: seq<Event<V>>)
    requires Remembered(order, ps, trace)
    requires forall n <- order :: n in qs && (n in ps ==> qs[n].key == ps[n].key && qs[n].version == ps[n].version)
    ensures Remembered(order, qs, trace)
  {
    forall k | k in Latest(trace) ensures HasKey(order, qs, k) {
      var i :| 0 <= i < |order| && order[i] in ps && ps[order[i]].key == k;
      assert order[i] in qs;
    }
  }

  lemma RememberInserted<V>(a: seq<RbNode>, n: RbNode, b: seq<RbNode>, ps: Pieces<V>, trace: seq<Event<V>>)
    requires Remembered(a + b, ps, trace) && n in ps
    requires AllBelow(a, ps[n].key, ps) && AllAbove(b, ps[n].key, ps)
    ensures Remembered(a + [n] + b, ps, trace + [Logged(ps[n].key, ps[n].version)])
  {
    LatestStep(trace, Logged(ps[n].key, ps[n].version));
    Between(a, n, b);
    forall k | k in Latest(trace) && k != ps[n].key ensures HasKey(a + [n] + b, ps, k) {
      var i :| 0 <= i < |a + b| && (a + b)[i] in ps && ps[(a + b)[i]].key == k;
      assert (a + [n] + b)[if i < |a| then i else i + 1] == (a + b)[i];
    }
    assert (a + [n] + b)[|a|] == n;
  }

  lemma KeyKept<V>(a: seq<RbNode>, n: RbNode, b: seq<RbNode>, ps: Pieces<V>, k: Key)
    requires HasKey(a + [n] + b, ps, k) && n in ps && k != ps[n].key
    ensures HasKey(a + b, ps - {n}, k)
  {
    var s := a + [n] + b;
    var i :| 0 <= i < |s| && s[i] in ps && ps[s[i]].key == k;
    assert s[i] == (a + b)[if i < |a| then i else i - 1];
  }

  lemma RememberErased<V>(a: seq<RbNode>, n: RbNode, b: seq<RbNode>, ps: Pieces<V>, trace: seq<Event<V>>)
    requires Remembered(a + [n] + b, ps, trace) && Ascending(a + [n] + b, ps)
    ensures n in ps && Remembered(a + b, ps - {n}, trace + [Gone(ps[n].key)])
  {
    hide Latest, HasKey;
    RemoveAscending(a, n, b, ps);
    LatestStep(trace, Gone(ps[n].key));
    Between(a, n, b);
    forall k | k in Latest(trace) && k != ps[n].key ensures HasKey(a + b, ps - {n}, k) {
      KeyKept(a, n, b, ps, k);
    }
  }

  /** The first piece in order has the smallest key of all that are remembered. */
  lemma FirstIsSmallest<V>(order: seq<RbNode>, ps: Pieces<V>, trace: seq<Event<V>>)
    requires Remembered(order, ps, trace) && Ascending(order, ps) && order != []
    ensures forall k <- Latest(trace) :: k == ps[order[0]].key || ps[order[0]].key.Below(k)
  {
    forall k | k in Latest(trace) ensures k == ps[order[0]].key || ps[order[0]].key.Below(k) {
      var i :| 0 <= i < |order| && order[i] in ps && ps[order[i]].key == k;
    }
  }
}
