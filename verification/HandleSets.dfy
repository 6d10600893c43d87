/** Sets of handles, walked in ascending order and picked from by rank. */
module HandleSets {

  predicate IsLeast(s: set<nat>, m: nat) { m in s && forall x | x in s :: m <= x }

  lemma {:induction false} HasLeast(s: set<nat>)
    requires s != {}
    ensures exists m :: IsLeast(s, m)
    decreases |s|
  {
    var x :| x in s;
    var t := s - {x};
    if t == {} {
      assert s == {x};
      assert IsLeast(s, x);
    } else {
      HasLeast(t);
      var m :| IsLeast(t, m);
      assert forall y | y in s :: y == x || y in t;
      assert IsLeast(s, if m < x then m else x);
    }
  }

  function Least(s: set<nat>): (m: nat)
    requires s != {}
    ensures IsLeast(s, m)
  {
    HasLeast(s);
    var m :| IsLeast(s, m);
    m
  }

  /** The elements in ascending order, as the iterators and the rank selection see them. */
  function Ascending(s: set<nat>): (r: seq<nat>)
    ensures |r| == |s|
    decreases |s|
  {
    if s == {} then [] else [Least(s)] + Ascending(s - {Least(s)})
  }

  /** The same elements, in strictly ascending order. */
  lemma {:induction false} AscendingIs(s: set<nat>)
    ensures forall i | 0 <= i < |Ascending(s)| :: Ascending(s)[i] in s
    ensures forall x | x in s :: x in Ascending(s)
    ensures forall i, j | 0 <= i < j < |Ascending(s)| :: Ascending(s)[i] < Ascending(s)[j]
    decreases |s|
  {
    if s != {} {
      var m := Least(s);
      var r := Ascending(s - {m});
      AscendingIs(s - {m});
      assert Ascending(s) == [m] + r;
      forall x | x in s ensures x in Ascending(s) {
        if x != m { assert x in r; }
      }
      assert forall i | 0 < i < |Ascending(s)| :: Ascending(s)[i] == r[i - 1];
    }
  }

  /** The element of rank `n`, counting from 0. */
  function Nth(s: set<nat>, n: nat): (h: nat)
    requires n < |s|
    ensures h in s
  {
    AscendingIs(s);
    Ascending(s)[n]
  }

  lemma NthOfRest(s: set<nat>, n: nat)
    requires 0 < n < |s|
    ensures Nth(s, n) == Nth(s - {Least(s)}, n - 1) && Least(s) < Nth(s, n)
  {
    AscendingIs(s);
    assert Ascending(s)[n] == Ascending(s - {Least(s)})[n - 1];
  }

  function Below(s: set<nat>, h: nat): set<nat> { set x | x in s && x < h }

  /** Exactly `n` elements are smaller than the element of rank `n`. */
  lemma {:induction false} NthHasRank(s: set<nat>, n: nat)
    requires n < |s|
    ensures |Below(s, Nth(s, n))| == n
    decreases n
  {
    var m := Least(s);
    if n == 0 {
      assert Nth(s, n) == m;
      assert Below(s, m) == {};
    } else {
      var t := s - {m};
      NthOfRest(s, n);
      NthHasRank(t, n - 1);
      assert Below(s, Nth(s, n)) == Below(t, Nth(s, n)) + {m};
    }
  }

  /** Every element has a rank, so every member of a group is chosen for some hash. */
  lemma EveryElementIsNth(s: set<nat>, h: nat)
    requires h in s
    ensures exists n: nat :: n < |s| && Nth(s, n) == h
  {
    AscendingIs(s);
    var n :| 0 <= n < |Ascending(s)| && Ascending(s)[n] == h;
    assert Nth(s, n) == h;
  }
}
