/**
  `TitanPdaBitmap`: 256 flags packed into four 64-bit words.  Indices past the
  last word are silently dropped on `Set` and never reported by `IsSet`.
*/
module ReserveBitmap {

  const CAPACITY: nat := 256

  /** `index % 64`, the position of an index inside its word. */
  function Position(index: nat): bv6 {
    (index % 64) as bv6
  }

  /** `word & (1u64 << position) != 0`. */
  predicate Marked(word: bv64, position: bv6) {
    word & (1 << position) != 0
  }

  /** `word | (1u64 << position)`. */
  function Mark(word: bv64, position: bv6): bv64 {
    word | (1 << position)
  }

  lemma SmallRoundTrip(n: nat)
    requires n < 64
    ensures (n as bv6) as int == n
  {
  }

  lemma PositionsDiffer(i: nat, j: nat)
    ensures Position(i) == Position(j) <==> i % 64 == j % 64
  {
    SmallRoundTrip(i % 64);
    SmallRoundTrip(j % 64);
    var a, b := Position(i), Position(j);
    assert a as int == i % 64 && b as int == j % 64;
    hide Position;
  }

  lemma MarkSets(word: bv64, a: bv6)
    ensures Marked(Mark(word, a), a)
  {
  }

  lemma MarkKeeps(word: bv64, a: bv6, b: bv6)
    requires Marked(word, b)
    ensures Marked(Mark(word, a), b)
  {
  }

  lemma MarkAddsNoOther(word: bv64, a: bv6, b: bv6)
    requires Marked(Mark(word, a), b) && a != b
    ensures Marked(word, b)
  {
  }

  /** Marking sets that position of the word and no other. */
  lemma MarkSetsOne(word: bv64, a: bv6, b: bv6)
    ensures Marked(Mark(word, a), b) <==> Marked(word, b) || a == b
  {
    hide Marked, Mark;
    MarkSets(word, a);
    if Marked(word, b) { MarkKeeps(word, a, b); }
    if Marked(Mark(word, a), b) && a != b { MarkAddsNoOther(word, a, b); }
  }

  class TitanPdaBitmap {
    const bits: array<bv64>

    ghost predicate Valid() {
      bits.Length == 4
    }

    ghost function Contents(): set<int>
      requires Valid()
      reads bits
    {
      set i | 0 <= i < CAPACITY && Marked(bits[i / 64], Position(i))
    }

    constructor ()
      ensures Valid() && fresh(bits) && Contents() == {}
    {
      bits := new bv64[4](_ => 0);
    }

    method Set(index: nat)
      requires Valid()
      modifies bits
      ensures Contents() == old(Contents()) + (if index < CAPACITY then {index as int} else {})
    {
      if index < CAPACITY {
        var word := index / 64;
        ghost var before := bits[word];
        bits[word] := Mark(bits[word], Position(index));
        hide Position, Marked, Mark;
        forall i | 0 <= i < CAPACITY && i / 64 == word
          ensures Marked(bits[word], Position(i)) <==> Marked(before, Position(i)) || i == index
        {
          MarkSetsOne(before, Position(index), Position(i));
          PositionsDiffer(index, i);
        }
      }
    }

    predicate IsSet(index: nat): (r: bool)
      requires Valid()
      reads bits
      ensures r <==> index in Contents()
    {
      index < CAPACITY && Marked(bits[index / 64], Position(index))
    }
  }
}
