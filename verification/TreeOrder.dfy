/** The order in which the tree keeps the pieces of the history: by file, then by offset. */
module TreeOrder {
  import opened RbShape

  datatype Key = Key(file: nat, offset: nat)
  {
    predicate Below(k: Key)
    {
      file < k.file || (file == k.file && offset < k.offset)
    }
  }

  /** A struct io_piece: what was written, and which structures it is on. */
  datatype Piece<V> = Piece(key: Key, len: nat, version: V, onTree: bool, onList: bool, trimmed: bool)

  /** Every node belongs to exactly one piece, as container_of finds it. */
  type Pieces<V> = map<RbNode, Piece<V>>

  ghost predicate Ascending<V>(s: seq<RbNode>, ps: Pieces<V>)
  {
    && (forall n <- s :: n in ps)
    && forall i, j | 0 <= i < j < |s| :: ps[s[i]].key.Below(ps[s[j]].key)
  }

  ghost predicate AllBelow<V>(s: seq<RbNode>, k: Key, ps: Pieces<V>)
  {
    forall n <- s :: n in ps && ps[n].key.Below(k)
  }

  ghost predicate AllAbove<V>(s: seq<RbNode>, k: Key, ps: Pieces<V>)
  {
    forall n <- s :: n in ps && k.Below(ps[n].key)
  }

  lemma AscendingParts<V>(a: seq<RbNode>, b: seq<RbNode>, ps: Pieces<V>)
    requires Ascending(a + b, ps)
    ensures Ascending(a, ps) && Ascending(b, ps)
    ensures forall x <- a, y <- b :: ps[x].key.Below(ps[y].key)
  {
    var s := a + b;
    assert forall n <- a :: n in s;
    assert forall n <- b :: n in s;
    forall i, j | 0 <= i < j < |b| ensures ps[b[i]].key.Below(ps[b[j]].key) {
      assert s[|a| + i] == b[i] && s[|a| + j] == b[j];
    }
    forall i, j | 0 <= i < j < |a| ensures ps[a[i]].key.Below(ps[a[j]].key) {
      assert s[i] == a[i] && s[j] == a[j];
    }
    forall x, y | x in a && y in b ensures ps[x].key.Below(ps[y].key) {
      var i :| 0 <= i < |a| && a[i] == x;
      var j :| 0 <= j < |b| && b[j] == y;
      assert s[i] == x && s[|a| + j] == y;
    }
  }

  /** Going left at n leaves everything from n on above the key looked for. */
  lemma GoLeft<V>(before: seq<RbNode>, l: seq<RbNode>, n: RbNode, r: seq<RbNode>, after: seq<RbNode>, k: Key,
                  ps: Pieces<V>)
    requires Ascending(before + (l + [n] + r) + after, ps) && AllAbove(after, k, ps) && n in ps && k.Below(ps[n].key)
    ensures AllAbove([n] + r + after, k, ps)
  {
    assert before + (l + [n] + r) + after == (before + l + [n]) + (r + after);
    AscendingParts(before + l + [n], r + after, ps);
    assert n in before + l + [n];
    forall x | x in [n] + r + after ensures x in ps && k.Below(ps[x].key) {
      assert x == n || x in r + after;
    }
  }

  lemma GoRight<V>(before: seq<RbNode>, l: seq<RbNode>, n: RbNode, r: seq<RbNode>, after: seq<RbNode>, k: Key,
                   ps: Pieces<V>)
    requires Ascending(before + (l + [n] + r) + after, ps) && AllBelow(before, k, ps) && n in ps && ps[n].key.Below(k)
    ensures AllBelow(before + l + [n], k, ps)
  {
    assert before + (l + [n] + r) + after == (before + l) + ([n] + r + after);
    AscendingParts(before + l, [n] + r + after, ps);
    assert n in [n] + r + after;
    forall x | x in before + l + [n] ensures x in ps && ps[x].key.Below(k) {
      assert x == n || x in before + l;
    }
  }

  /** A new node fits between what lies below and what lies above its key. */
  lemma InsertAscending<V>(before: seq<RbNode>, n: RbNode, after: seq<RbNode>, ps: Pieces<V>)
    requires Ascending(before + after, ps) && n in ps && AllBelow(before, ps[n].key, ps)
             && AllAbove(after, ps[n].key, ps)
    ensures Ascending(before + [n] + after, ps)
  {
    AscendingParts(before, after, ps);
    var s := before + [n] + after;
    forall x | x in s ensures x in ps {
      assert x in before || x == n || x in after;
    }
    forall i, j | 0 <= i < j < |s| ensures ps[s[i]].key.Below(ps[s[j]].key) {
      assert i < |before| ==> s[i] in before;
      assert j > |before| ==> s[j] in after;
      assert i > |before| ==> s[i] == after[i - |before| - 1] && s[j] == after[j - |before| - 1];
    }
  }

  lemma RemoveAscending<V>(a: seq<RbNode>, n: RbNode, b: seq<RbNode>, ps: Pieces<V>)
    requires Ascending(a + [n] + b, ps)
    ensures Ascending(a + b, ps) && n in ps
    ensures AllBelow(a, ps[n].key, ps) && AllAbove(b, ps[n].key, ps)
    ensures n !in a && n !in b
  {
    var s := a + [n] + b;
    assert s[|a|] == n;
    assert s == a + ([n] + b);
    AscendingParts(a, [n] + b, ps);
    AscendingParts(a + [n], b, ps);
    assert n in a + [n] && n in [n] + b;
    forall i, j | 0 <= i < j < |a + b| ensures ps[(a + b)[i]].key.Below(ps[(a + b)[j]].key) {
      assert (a + b)[i] == s[if i < |a| then i else i + 1] && (a + b)[j] == s[if j < |a| then j else j + 1];
    }
  }

  /** Pieces that keep their keys keep their order. */
  lemma SameKeys<V>(s: seq<RbNode>, ps: Pieces<V>, qs: Pieces<V>)
    requires Ascending(s, ps) && forall n <- s :: n in qs && (n in ps ==> qs[n].key == ps[n].key)
    ensures Ascending(s, qs)
  {}

  lemma {:induction false} InOrderNodes(t: Tree)
    ensures forall n :: n in t.InOrder() <==> n in t.Nodes()
  {
    if t.Node? {
      InOrderNodes(t.l);
      InOrderNodes(t.r);
      assert t.InOrder() == t.l.InOrder() + [t.n] + t.r.InOrder();
    }
  }
}
