/** Small notions shared by several parts. */
module Collections {

  datatype Option<T> = None | Some(value: T)

  predicate NoDup<T(==)>(s: seq<T>) {
    forall i, j :: 0 <= i < j < |s| ==> s[i] != s[j]
  }

  function Elems<T>(s: seq<T>): set<T> {
    set x | x in s
  }

  /** malloc can always answer: some address is not in use. */
  lemma {:induction false} FreshNat(s: set<nat>)
    ensures exists p: nat :: p != 0 && p !in s
  {
    var b := UpperBound(s);
    assert b + 1 !in s;
  }

  lemma {:induction false} UpperBound(s: set<nat>) returns (b: nat)
    ensures forall x :: x in s ==> x <= b
    decreases s
  {
    b := 0;
    if s != {} {
      var y :| y in s;
      b := UpperBound(s - {y});
      if b < y {
        b := y;
      }
      assert forall x :: x in s ==> x == y || x in s - {y};
    }
  }
}
