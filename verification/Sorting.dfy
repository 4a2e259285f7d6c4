/** The ascending list of a finite set of integers, as `[...set].sort((a, b) => a - b)` gives it. */
module Sorting {

  ghost predicate Ascending(s: seq<int>) {
    forall i, j | 0 <= i < j < |s| :: s[i] < s[j]
  }

  function Elements(s: seq<int>): set<int> {
    set x | x in s
  }

  lemma EmptyOrNot(s: set<int>)
    ensures s == {} || exists x :: x in s
  {
    if forall x :: x !in s {
      assert s == {};
    }
  }

  lemma {:induction false} HasLeast(s: set<int>)
    requires s != {}
    ensures exists m :: m in s && forall x | x in s :: m <= x
    decreases |s|
  {
    EmptyOrNot(s);
    var z: int :| z in s;
    if x :| x in s && x < z {
      var rest := s - {z};
      assert x in rest;
      HasLeast(rest);
      var k :| k in rest && forall y | y in rest :: k <= y;
      assert s == rest + {z};
      assert k in s && forall y | y in s :: k <= y;
    } else {
      assert z in s && forall y | y in s :: z <= y;
    }
  }

  function Least(s: set<int>): (m: int)
    requires s != {}
    ensures m in s && forall x | x in s :: m <= x
  {
    HasLeast(s);
    var m :| m in s && forall x | x in s :: m <= x;
    m
  }

  lemma ElementsCons(m: int, rest: seq<int>)
    ensures Elements([m] + rest) == {m} + Elements(rest)
  {
    var list := [m] + rest;
    assert list[0] == m && list[1..] == rest;
    forall x | x in rest
      ensures x in list
    {
    }
  }

  /** Ascending, each element once. */
  function Sorted(s: set<int>): (list: seq<int>)
    ensures Elements(list) == s
    ensures |list| == |s|
  {
    if s == {} then []
    else
      var m := Least(s);
      var rest := Sorted(s - {m});
      ElementsCons(m, rest);
      assert {m} + (s - {m}) == s;
      [m] + rest
  }

  lemma {:induction false} SortedAscends(s: set<int>)
    ensures Ascending(Sorted(s))
    decreases s
  {
    if s != {} {
      var m := Least(s);
      SortedAscends(s - {m});
      var rest := Sorted(s - {m});
      forall j | 0 <= j < |rest|
        ensures m < rest[j]
      {
        assert rest[j] in Elements(rest);
      }
    }
  }

  /** Only one ascending list has given elements. */
  lemma {:induction false} AscendingUnique(a: seq<int>, b: seq<int>)
    requires Ascending(a) && Ascending(b) && Elements(a) == Elements(b)
    ensures a == b
    decreases |a|
  {
    NoElements(a);
    NoElements(b);
    if |a| > 0 {
      assert a[0] in Elements(b) && b[0] in Elements(a);
      TailElements(a);
      TailElements(b);
      AscendingUnique(a[1..], b[1..]);
      assert a == [a[0]] + a[1..] && b == [b[0]] + b[1..];
    }
  }

  lemma NoElements(s: seq<int>)
    ensures |s| == 0 <==> Elements(s) == {}
    ensures |s| > 0 ==> s[0] in Elements(s)
  {
  }

  lemma TailElements(s: seq<int>)
    requires |s| > 0 && Ascending(s)
    ensures Elements(s[1..]) == Elements(s) - {s[0]}
  {
    assert s == [s[0]] + s[1..];
  }
}
