/** Linked lists as sequences: adding at the tail, unlinking anywhere. */
module Lists {

  ghost predicate NoDup<T>(s: seq<T>)
  {
    forall i, j | 0 <= i < j < |s| :: s[i] != s[j]
  }

  /** The sequence with x unlinked. */
  function Unlink<T(==)>(s: seq<T>, x: T): (r: seq<T>)
    ensures NoDup(s) ==> NoDup(r) && (forall y <- s :: y == x || y in r) && (forall y <- r :: y in s && y != x)
    ensures NoDup(s) && x in s ==> |r| == |s| - 1
    ensures x !in s ==> r == s
  {
    if s == [] then []
    else if s[0] == x then s[1..]
    else
      var t := Unlink(s[1..], x);
      assert NoDup(s) ==> NoDup(s[1..]);
      assert NoDup(s) ==> s[0] !in s[1..];
      assert NoDup(s) ==> s[0] !in t;
      [s[0]] + t
  }

  lemma UnlinkOther<T>(s: seq<T>, x: T)
    requires s != [] && s[0] != x
    ensures Unlink(s, x) == [s[0]] + Unlink(s[1..], x)
  {}

  lemma UnlinkFirst<T>(s: seq<T>, x: T)
    requires s != [] && s[0] == x
    ensures Unlink(s, x) == s[1..]
  {}

  lemma {:induction false} UnlinkMiddle<T>(a: seq<T>, x: T, b: seq<T>)
    requires x !in a
    ensures Unlink(a + [x] + b, x) == a + b
  {
    hide NoDup;
    if a == [] {
      UnlinkFirst(a + [x] + b, x);
    } else {
      FirstOfThree(a, x, b);
      UnlinkMiddle(a[1..], x, b);
      UnlinkOther(a + [x] + b, x);
    }
  }

  lemma FirstOfThree<T>(a: seq<T>, x: T, b: seq<T>)
    requires a != []
    ensures (a + [x] + b)[0] == a[0] && (a + [x] + b)[1..] == a[1..] + [x] + b && [a[0]] + (a[1..] + b) == a + b
  {}
}
