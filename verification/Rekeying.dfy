/** Renaming the keys of a map along a bijection. */
module Rekeying {

  ghost function Rekey<X(!new), Y(!new), V>(m: map<X, V>, split: Y -> X, join: X -> Y): map<Y, V>
  {
    map y | y in (set x | x in m :: join(x)) && split(y) in m :: m[split(y)]
  }

  lemma RekeyAt<X(!new), Y(!new), V>(m: map<X, V>, split: Y -> X, join: X -> Y, y: Y)
    requires join(split(y)) == y
    ensures y in Rekey(m, split, join) <==> split(y) in m
    ensures y in Rekey(m, split, join) ==> Rekey(m, split, join)[y] == m[split(y)]
  {
    assert split(y) in m ==> y in set x | x in m :: join(x);
  }

  lemma RekeyUpdate<X(!new), Y(!new), V>(m: map<X, V>, split: Y -> X, join: X -> Y, x: X, v: V)
    requires split(join(x)) == x && forall y :: join(split(y)) == y
    ensures Rekey(m[x := v], split, join) == Rekey(m, split, join)[join(x) := v]
  {
    var before, after := Rekey(m, split, join), Rekey(m[x := v], split, join);
    forall y
      ensures y in after <==> y in before || y == join(x)
      ensures y in after ==> after[y] == if y == join(x) then v else before[y]
    {
      RekeyAt(m, split, join, y);
      RekeyAt(m[x := v], split, join, y);
    }
  }
}
