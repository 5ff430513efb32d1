/** How far a mistyped option name is from a known one: string_distance of parse.c. */
module StringDistance {
  import opened Basics

  function Init(s: string): (r: string)
    requires s != ""
    ensures |r| == |s| - 1
  {
    s[..|s| - 1]
  }

  function Last(s: string): char
    requires s != ""
  {
    s[|s| - 1]
  }

  /** The Levenshtein distance. */
  function Distance(s: string, t: string): nat
    decreases |s| + |t|
  {
    if s == "" then |t|
    else if t == "" then |s|
    else
      Min(Distance(Init(s), t) + 1,
          Min(Distance(s, Init(t)) + 1, Distance(Init(s), Init(t)) + if Last(s) == Last(t) then 0 else 1))
  }

  // ---- single-character edits ----

  /** s with the character at `at` taken out, if del, and ins put in there. */
  function Edited(s: string, at: nat, del: bool, ins: string): string
    requires at + (if del then 1 else 0) <= |s|
  {
    s[..at] + ins + s[at + (if del then 1 else 0)..]
  }

  ghost predicate OneEdit(s: string, u: string)
  {
    exists at: nat, del: bool, ins: string ::
      at + (if del then 1 else 0) <= |s| && |ins| <= 1 && (del || ins != "") && u == Edited(s, at, del, ins)
  }

  /** Each string of the path is one edit away from the one before. */
  ghost predicate Path(path: seq<string>)
  {
    path != [] && forall i | 0 < i < |path| :: OneEdit(path[i - 1], path[i])
  }

  // ---- no path is shorter ----

  /** The definition, one level deep. */
  lemma Unfold(s: string, t: string)
    ensures s == "" ==> Distance(s, t) == |t|
    ensures t == "" ==> Distance(s, t) == |s|
    ensures s != "" && t != "" ==>
              Distance(s, t) == Min(Distance(Init(s), t) + 1,
                                    Min(Distance(s, Init(t)) + 1,
                                        Distance(Init(s), Init(t)) + if Last(s) == Last(t) then 0 else 1))
  {
    hide Min, Init, Last;
  }

  /** Two strings that differ in at most one character between a and b are at most 1 apart, seen from anywhere. */
  lemma {:induction false} OneApart(a: string, x: string, y: string, b: string, t: string)
    requires |x| <= 1 && |y| <= 1
    ensures Distance(a + x + b, t) <= Distance(a + y + b, t) + 1
    decreases |b| + |t|
  {
    hide Distance;
    var u, v := a + x + b, a + y + b;
    Unfold(u, t);
    Unfold(v, t);
    if t != "" {
      OneApart(a, x, y, b, Init(t));
    }
    if b != "" {
      LastOf(a + x, b);
      LastOf(a + y, b);
      OneApart(a, x, y, Init(b), t);
      if t != "" {
        OneApart(a, x, y, Init(b), Init(t));
      }
    } else {
      EndApart(a, x, y, t);
    }
  }

  lemma LastOf(a: string, b: string)
    requires b != ""
    ensures a + b != "" && Init(a + b) == a + Init(b) && Last(a + b) == Last(b)
  {}

  lemma {:induction false} EndApart(a: string, x: string, y: string, t: string)
    requires |x| <= 1 && |y| <= 1
    ensures Distance(a + x + "", t) <= Distance(a + y + "", t) + 1
    decreases |t|
  {
    hide Distance;
    assert a + x + "" == a + x && a + y + "" == a + y;
    if t != "" {
      EndApart(a, x, y, Init(t));
    }
    AtEnd(a, x, t);
    AtEnd(a, y, t);
    Unfold(a, t);
    if t != "" {
      Shorter(a, t);
    }
  }

  lemma AtEnd(a: string, x: string, t: string)
    requires |x| <= 1
    ensures x == "" ==> a + x == a
    ensures x != "" && t == "" ==> Distance(a + x, t) == |a| + 1
    ensures x != "" && t != "" ==>
              Distance(a + x, t) == Min(Distance(a, t) + 1,
                                        Min(Distance(a + x, Init(t)) + 1,
                                            Distance(a, Init(t)) + if x[0] == Last(t) then 0 else 1))
  {
    hide Distance;
    Unfold(a + x, t);
    assert x != "" ==> Init(a + x) == a && Last(a + x) == x[0];
  }

  lemma Shorter(a: string, t: string)
    requires t != ""
    ensures Distance(a, t) <= Distance(a, Init(t)) + 1
  {
    hide Distance;
    Unfold(a, t);
    Unfold(a, Init(t));
  }

  lemma EditBound(s: string, u: string, t: string)
    requires OneEdit(s, u)
    ensures Distance(s, t) <= Distance(u, t) + 1
  {
    var at: nat, del: bool, ins: string :|
      at + (if del then 1 else 0) <= |s| && |ins| <= 1 && (del || ins != "") && u == Edited(s, at, del, ins);
    var n := if del then 1 else 0;
    assert s == s[..at] + s[at..at + n] + s[at + n..];
    OneApart(s[..at], s[at..at + n], ins, s[at + n..], t);
  }

  lemma {:induction false} SelfDistance(s: string)
    ensures Distance(s, s) == 0
  {
    if s != "" {
      SelfDistance(Init(s));
    }
  }

  /** Every way from the first string to the last takes at least as many edits as the distance. */
  lemma {:induction false} NoShorterPath(path: seq<string>)
    requires Path(path)
    ensures Distance(path[0], path[|path| - 1]) <= |path| - 1
  {
    var t := path[|path| - 1];
    if |path| == 1 {
      SelfDistance(t);
    } else {
      var rest := path[1..];
      assert Path(rest) by {
        forall i | 0 < i < |rest| ensures OneEdit(rest[i - 1], rest[i]) {
          assert OneEdit(path[i], path[i + 1]);
        }
      }
      NoShorterPath(rest);
      assert OneEdit(path[0], path[1]);
      EditBound(path[0], path[1], t);
    }
  }

  // ---- a path of that length ----

  lemma OneEditExtend(s: string, u: string, c: char)
    requires OneEdit(s, u)
    ensures OneEdit(s + [c], u + [c])
  {
    var at: nat, del: bool, ins: string :|
      at + (if del then 1 else 0) <= |s| && |ins| <= 1 && (del || ins != "") && u == Edited(s, at, del, ins);
    assert u + [c] == Edited(s + [c], at, del, ins);
  }

  function Extended(path: seq<string>, c: char): (r: seq<string>)
    ensures |r| == |path| && forall i | 0 <= i < |r| :: r[i] == path[i] + [c]
  {
    seq(|path|, i requires 0 <= i < |path| => path[i] + [c])
  }

  lemma PathExtend(path: seq<string>, c: char)
    requires Path(path)
    ensures Path(Extended(path, c)) && path != []
  {
    var r := Extended(path, c);
    forall i | 0 < i < |r| ensures OneEdit(r[i - 1], r[i]) {
      OneEditExtend(path[i - 1], path[i], c);
    }
  }

  lemma PathPrepend(s: string, path: seq<string>)
    requires Path(path) && OneEdit(s, path[0])
    ensures Path([s] + path)
  {
    var r := [s] + path;
    forall i | 0 < i < |r| ensures OneEdit(r[i - 1], r[i]) {
      assert i > 1 ==> OneEdit(path[i - 2], path[i - 1]);
    }
  }

  lemma PathAppend(path: seq<string>, t: string)
    requires Path(path) && OneEdit(path[|path| - 1], t)
    ensures Path(path + [t])
  {}

  lemma DropLast(s: string)
    requires s != ""
    ensures OneEdit(s, Init(s)) && OneEdit(Init(s), s)
  {
    assert Init(s) == Edited(s, |s| - 1, true, "");
    assert s == Edited(Init(s), |s| - 1, false, [Last(s)]);
  }

  lemma ReplaceLast(s: string, c: char)
    requires s != ""
    ensures OneEdit(s, Init(s) + [c])
  {
    assert Init(s) + [c] == Edited(s, |s| - 1, true, [c]);
  }

  lemma Both(s: string, t: string)
    requires s != "" || t != ""
    requires t != "" ==> Distance(s, t) != Distance(s, Init(t)) + 1
    requires s != "" ==> Distance(s, t) != Distance(Init(s), t) + 1
    ensures s != "" && t != "" && Distance(s, t) == Distance(Init(s), Init(t)) + if Last(s) == Last(t) then 0 else 1
    ensures Init(s) + [Last(s)] == s && Init(t) + [Last(t)] == t
  {
    hide Distance, Init, Last;
    Unfold(s, t);
    if s == "" {
      Unfold(s, Init(t));
    } else if t == "" {
      Unfold(Init(s), t);
    }
    Rejoin(s);
    Rejoin(t);
  }

  lemma Rejoin(s: string)
    ensures s != "" ==> Init(s) + [Last(s)] == s
  {}

  lemma Single(s: string)
    ensures Path([s])
  {}

  /** The distance is the length of some way of editing one string into the other. */
  lemma {:induction false} SomePath(s: string, t: string) returns (path: seq<string>)
    ensures Path(path) && path[0] == s && path[|path| - 1] == t && |path| == Distance(s, t) + 1
    decreases |s| + |t|
  {
    hide Distance, Path, OneEdit, Init, Last;
    Unfold(s, t);
    if s == "" && t == "" {
      path := [s];
      assert Path(path) by { Single(s); }
    } else if t != "" && Distance(s, t) == Distance(s, Init(t)) + 1 {
      path := SomePath(s, Init(t));
      DropLast(t);
      PathAppend(path, t);
      path := path + [t];
    } else if s != "" && Distance(s, t) == Distance(Init(s), t) + 1 {
      path := SomePath(Init(s), t);
      DropLast(s);
      PathPrepend(s, path);
      path := [s] + path;
    } else {
      Both(s, t);
      path := SomePath(Init(s), Init(t));
      PathExtend(path, Last(t));
      path := Extended(path, Last(t));
      if Last(s) != Last(t) {
        ReplaceLast(s, Last(t));
        PathPrepend(s, path);
        path := [s] + path;
      }
    }
  }

  // ---- the two-row table ----

  /** string_distance */
  method Compute(s1: string, s2: string) returns (d: nat)
    ensures d == Distance(s1, s2)
  {
    var n := |s2|;
    var p, q := new nat[n + 1], new nat[n + 1];
    p[0] := 0;
    for i := 1 to n + 1
      invariant forall j | 0 <= j < i :: p[j] == j
    {
      p[i] := p[i - 1] + 1;
    }
    assert s1[..0] == "";
    forall j | 0 <= j <= n ensures p[j] == Distance(s1[..0], s2[..j]) {}
    for i := 1 to |s1| + 1
      invariant p.Length == q.Length == n + 1 && p != q && fresh(p) && fresh(q)
      invariant forall j | 0 <= j <= n :: p[j] == Distance(s1[..i - 1], s2[..j])
    {
      FillRow(s1, s2, i, p, q);
      p, q := q, p;
    }
    assert s1[..|s1|] == s1 && s2[..n] == s2;
    d := p[n];
  }

  /** The inner loop: row i of the table from row i - 1. */
  method FillRow(s1: string, s2: string, i: nat, p: array<nat>, q: array<nat>)
    requires 0 < i <= |s1| && p.Length == q.Length == |s2| + 1 && p != q
    requires forall j | 0 <= j <= |s2| :: p[j] == Distance(s1[..i - 1], s2[..j])
    modifies q
    ensures forall j | 0 <= j <= |s2| :: q[j] == Distance(s1[..i], s2[..j])
  {
    hide Distance;
    Corner(s1, s2, i);
    q[0] := p[0] + 1;
    for j := 1 to |s2| + 1
      invariant forall k | 0 <= k < j :: q[k] == Distance(s1[..i], s2[..k])
    {
      var sub := p[j - 1];
      if s1[i - 1] != s2[j - 1] {
        sub := sub + 1;
      }
      q[j] := Min(p[j] + 1, Min(q[j - 1] + 1, sub));
      Cell(s1, s2, i, j);
    }
  }

  lemma Corner(s1: string, s2: string, i: nat)
    requires 0 < i <= |s1|
    ensures Distance(s1[..i], s2[..0]) == Distance(s1[..i - 1], s2[..0]) + 1
  {}

  lemma Cell(s1: string, s2: string, i: nat, j: nat)
    requires 0 < i <= |s1| && 0 < j <= |s2|
    ensures Distance(s1[..i], s2[..j])
            == Min(Distance(s1[..i - 1], s2[..j]) + 1,
                   Min(Distance(s1[..i], s2[..j - 1]) + 1,
                       Distance(s1[..i - 1], s2[..j - 1]) + if s1[i - 1] == s2[j - 1] then 0 else 1))
  {
    hide Distance;
    Unfold(s1[..i], s2[..j]);
    assert Init(s1[..i]) == s1[..i - 1] && Init(s2[..j]) == s2[..j - 1];
  }
}
