/** A value that may be missing. */
module Wrappers {
  datatype Option<+T> = None | Some(value: T)
}

/** Joining sequences. */
module Sequences {

  function Flatten<T>(ss: seq<seq<T>>): seq<T>
  {
    if ss == [] then [] else Flatten(ss[..|ss| - 1]) + ss[|ss| - 1]
  }

  /** The i-th piece is where the lengths before it say. */
  lemma {:induction false} FlattenSlice<T>(ss: seq<seq<T>>, i: nat)
    requires i < |ss|
    ensures var o := |Flatten(ss[..i])|; o + |ss[i]| <= |Flatten(ss)| && Flatten(ss)[o..o + |ss[i]|] == ss[i]
    decreases |ss|
  {
    var t := ss[..|ss| - 1];
    if i < |t| {
      FlattenSlice(t, i);
      assert t[..i] == ss[..i];
    } else {
      assert ss[..i] == t;
    }
  }

  lemma FlattenPush<T>(ss: seq<seq<T>>, s: seq<T>)
    ensures Flatten(ss + [s]) == Flatten(ss) + s
  {
    assert (ss + [s])[..|ss|] == ss;
  }

  lemma Regroup<T>(a: seq<T>, b: seq<T>, c: seq<T>)
    ensures (a + b) + c == a + (b + c)
  {
  }

  lemma RegroupFour<T>(a: seq<T>, b: seq<T>, c: seq<T>, d: seq<T>)
    ensures a + (b + c) + d == a + (b + (c + d))
  {
  }
}
