/** Lists of lists, end to end. */
module Sequences {

  function Flat<T>(parts: seq<seq<T>>): seq<T> {
    if parts == [] then [] else Flat(parts[..|parts| - 1]) + parts[|parts| - 1]
  }

  lemma FlatNone<T>()
    ensures Flat<T>([]) == []
  {
  }

  lemma {:induction false} FlatCons<T>(part: seq<T>, parts: seq<seq<T>>)
    ensures Flat([part] + parts) == part + Flat(parts)
  {
    if parts == [] {
      assert [part] + parts == [part];
      assert [part][..0] == [];
    } else {
      assert ([part] + parts)[..|parts|] == [part] + parts[..|parts| - 1];
      FlatCons(part, parts[..|parts| - 1]);
    }
  }

  lemma FlatSnoc<T>(parts: seq<seq<T>>, i: nat)
    requires i < |parts|
    ensures Flat(parts[..i + 1]) == Flat(parts[..i]) + parts[i]
  {
    assert parts[..i + 1][..i] == parts[..i];
  }
}
